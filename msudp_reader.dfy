/** A reader for the container `gen_msudp` writes. The source has no reader; this one
    exists to state that an encoding loses nothing: reading back what `Encode`
    produced gives the table that went in. */
module MsudpReader {
  import opened Bytes
  import opened Utf16
  import opened Wrappers
  import opened Seqs
  import opened Msudp
  import opened MsudpLayout

  datatype DecodeError =
    | Truncated
    | BadSignature
    | BadTableBounds
    | BadTotalLength
    | BadOffset(index: nat)
    | BadBody(index: nat)

  /** Where the first body starts: after the offset table, or after slot 0 when there is no entry. */
  function BodiesStart(n: nat): nat
  {
    if n == 0 then PrefixSize else OffsetTableEnd(n)
  }

  /** Offset slot k, read as a 32-bit little-endian value. */
  function Slot(b: seq<byte>, k: nat): nat
    requires OffsetTableStart + 4 * k + 4 <= |b|
  {
    ReadLE32(b, OffsetTableStart + 4 * k)
  }

  /** Reads one body: marker, word offset, order byte, code and word with their terminators. */
  function DecodeBody(body: seq<byte>): Option<Entry>
  {
    if |body| < BodyOverhead || body[..4] != BodyMarker || body[7] != OrderMarker then None
    else
      var f := ReadLE16(body, 4);
      if f < CodeFieldBias || f > |body| - 2 then None
      else if body[f - 2..f] != Terminator || body[|body| - 2..] != Terminator then None
      else
        match DecodeUtf16LE(body[16..f - 2])
        case None => None
        case Some(code) =>
          match DecodeUtf16LE(body[f..|body| - 2])
          case None => None
          case Some(word) => Some(Entry(word, code, body[6]))
  }

  /** Where body k ends, relative to the first body: at slot k+1, or at the end for the last one. */
  function BodyEnd(b: seq<byte>, n: nat, k: nat): int
    requires k < n && OffsetTableEnd(n) <= |b|
  {
    if k + 1 < n then Slot(b, k + 1) else |b| - OffsetTableEnd(n)
  }

  /** Entries k .. n-1. Body k runs from slot k to slot k+1 of the bodies region, the last
      one to the end. */
  function DecodeEntries(b: seq<byte>, n: nat, k: nat): Result<seq<Entry>, DecodeError>
    requires 0 < n && OffsetTableEnd(n) <= |b| && k <= n
    decreases n - k
  {
    if k == n then Success([])
    else
      var region := b[OffsetTableEnd(n)..];
      var start := Slot(b, k);
      var end := BodyEnd(b, n, k);
      if !(start <= end <= |region|) then Failure(BadOffset(k))
      else
        match DecodeBody(region[start..end])
        case None => Failure(BadBody(k))
        case Some(e) =>
          match DecodeEntries(b, n, k + 1)
          case Failure(err) => Failure(err)
          case Success(rest) => Success([e] + rest)
  }

  /** Reads a whole container, checking every field `gen_msudp` fixes except the timestamps
      and the reserved zero bytes. */
  function Decode(b: seq<byte>): Result<seq<Entry>, DecodeError>
  {
    if |b| < PrefixSize then Failure(Truncated)
    else if b[..16] != Header then Failure(BadSignature)
    else
      var n := ReadLE32(b, 0x1C);
      if ReadLE32(b, 0x10) != OffsetTableStart || ReadLE32(b, 0x14) != OffsetTableEnd(n)
        || |b| < BodiesStart(n) then Failure(BadTableBounds)
      else if ReadLE32(b, TotalLengthAt) != |b| then Failure(BadTotalLength)
      else if n == 0 then (if |b| == PrefixSize then Success([]) else Failure(BadTotalLength))
      else if Slot(b, 0) != 0 then Failure(BadOffset(0))
      else DecodeEntries(b, n, 0)
  }

  /** One body reads back as the entry it was written from. */
  lemma DecodeBodyOfBody(e: Entry, stamp: u32)
    requires EntryFits(EncodeText(e))
    ensures DecodeBody(Body(EncodeText(e), stamp)) == Some(e)
  {
    var d := EncodeText(e);
    BodyFields(d, stamp);
    DecodeEncode(e.code);
    DecodeEncode(e.word);
  }

  /** A body placed at `lo .. hi` of some bytes reads back as the entry it was written from. */
  lemma DecodeSlice(r: seq<byte>, lo: nat, hi: nat, e: Entry, stamp: u32)
    requires lo <= hi <= |r| && EntryFits(EncodeText(e))
    requires r[lo..hi] == Body(EncodeText(e), stamp)
    ensures DecodeBody(r[lo..hi]) == Some(e)
  {
    DecodeBodyOfBody(e, stamp);
  }

  /** Entries k .. n-1 of `ds` are the transcoded entries k .. n-1 of `es`. */
  predicate TranscodedFrom(es: seq<Entry>, ds: seq<EncodedEntry>, k: nat)
    requires |ds| == |es| && k <= |es|
    decreases |es| - k
  {
    k == |es| || (ds[k] == EncodeText(es[k]) && TranscodedFrom(es, ds, k + 1))
  }

  lemma {:induction false} EncodeTextsTranscoded(es: seq<Entry>, k: nat)
    requires k <= |es|
    ensures TranscodedFrom(es, EncodeTexts(es), k)
    decreases |es| - k
  {
    if k < |es| {
      EncodeTextsTranscoded(es, k + 1);
    }
  }

  /** Slots k .. n-1 of `b` hold the offsets of bodies k .. n-1. */
  predicate SlotsFrom(b: seq<byte>, ds: seq<EncodedEntry>, k: nat)
    requires OffsetTableEnd(|ds|) <= |b| && k <= |ds|
    decreases |ds| - k
  {
    k == |ds| || (Slot(b, k) == Offset(ds, k) && SlotsFrom(b, ds, k + 1))
  }

  /** In a bodies region `r`, the bytes between offsets k and k+1, k+1 and k+2, ...
      read back as entries k, k+1, ... of `es`. */
  predicate DecodedFrom(r: seq<byte>, es: seq<Entry>, ds: seq<EncodedEntry>, k: nat)
    requires |ds| == |es| && k <= |es|
    decreases |es| - k
  {
    k == |es| ||
      (&& Offset(ds, k) <= Offset(ds, k + 1) <= |r|
       && DecodeBody(r[Offset(ds, k)..Offset(ds, k + 1)]) == Some(es[k])
       && DecodedFrom(r, es, ds, k + 1))
  }

  /** Bytes whose entries k .. n-1 each read back as the matching element of `es`. */
  predicate ReadableFrom(b: seq<byte>, es: seq<Entry>, k: nat)
    requires 0 < |es| && OffsetTableEnd(|es|) <= |b| && k <= |es|
    decreases |es| - k
  {
    k == |es| ||
      (&& Slot(b, k) <= BodyEnd(b, |es|, k) <= |b| - OffsetTableEnd(|es|)
       && DecodeBody(b[OffsetTableEnd(|es|)..][Slot(b, k)..BodyEnd(b, |es|, k)]) == Some(es[k])
       && ReadableFrom(b, es, k + 1))
  }

  lemma {:induction false} DecodeEntriesOfReadable(b: seq<byte>, es: seq<Entry>, k: nat)
    requires 0 < |es| && OffsetTableEnd(|es|) <= |b| && k <= |es|
    requires ReadableFrom(b, es, k)
    ensures DecodeEntries(b, |es|, k) == Success(es[k..])
    decreases |es| - k
  {
    if k < |es| {
      DecodeEntriesOfReadable(b, es, k + 1);
      DropCons(es, k);
    } else {
      assert es[k..] == [];
    }
  }

  /** In a bodies region `r`, the bytes between offsets k and k+1, k+1 and k+2, ...
      are the bodies of entries k, k+1, ... of `ds`. */
  predicate PlacedFrom(r: seq<byte>, ds: seq<EncodedEntry>, stamp: u32, k: nat)
    requires k <= |ds|
    decreases |ds| - k
  {
    k == |ds| ||
      (&& EntryFits(ds[k])
       && Offset(ds, k) <= Offset(ds, k + 1) <= |r|
       && r[Offset(ds, k)..Offset(ds, k + 1)] == Body(ds[k], stamp)
       && PlacedFrom(r, ds, stamp, k + 1))
  }

  /** The region `Bodies` builds holds every body at its offset. */
  lemma {:induction false} BodiesPlaced(ds: seq<EncodedEntry>, stamp: u32, k: nat)
    requires k <= |ds| && FitUpTo(ds, |ds|)
    ensures PlacedFrom(Bodies(ds, stamp, |ds|), ds, stamp, k)
    decreases |ds| - k
  {
    if k < |ds| {
      BodiesAt(ds, stamp, k, |ds|);
      BodiesPlaced(ds, stamp, k + 1);
    }
  }

  /** Bodies placed at their offsets read back as their entries. */
  lemma {:induction false} PlacedDecoded(r: seq<byte>, es: seq<Entry>, ds: seq<EncodedEntry>, stamp: u32, k: nat)
    requires |ds| == |es| && k <= |es|
    requires TranscodedFrom(es, ds, k) && PlacedFrom(r, ds, stamp, k)
    ensures DecodedFrom(r, es, ds, k)
    decreases |es| - k
  {
    if k < |es| {
      DecodeSlice(r, Offset(ds, k), Offset(ds, k + 1), es[k], stamp);
      PlacedDecoded(r, es, ds, stamp, k + 1);
    }
  }

  /** Slots 1 .. n-1 of bytes that hold the offset table `OffsetSlots` name the body offsets. */
  lemma {:induction false} SlotsOfTable(b: seq<byte>, ds: seq<EncodedEntry>, k: nat)
    requires 0 < |ds| && OffsetTableEnd(|ds|) <= |b| && Offset(ds, |ds| - 1) < TwoTo32
    requires b[PrefixSize..OffsetTableEnd(|ds|)] == OffsetSlots(ds, |ds| - 1)
    requires 1 <= k <= |ds|
    ensures SlotsFrom(b, ds, k)
    decreases |ds| - k
  {
    if k < |ds| {
      SlotOfTable(b, ds, k);
      SlotsOfTable(b, ds, k + 1);
    }
  }

  /** Slot k, for 0 < k < n, of bytes that hold the offset table reads as offset k. */
  lemma SlotOfTable(b: seq<byte>, ds: seq<EncodedEntry>, k: nat)
    requires 0 < |ds| && OffsetTableEnd(|ds|) <= |b| && Offset(ds, |ds| - 1) < TwoTo32
    requires b[PrefixSize..OffsetTableEnd(|ds|)] == OffsetSlots(ds, |ds| - 1)
    requires 1 <= k < |ds|
    ensures Slot(b, k) == Offset(ds, k)
  {
    var lo := OffsetTableStart + 4 * k;
    OffsetSlotsAt(ds, |ds| - 1, k);
    InSlice(b, PrefixSize, OffsetTableEnd(|ds|), 4 * (k - 1), 4 * k, LE32(Offset(ds, k)), lo, lo + 4);
    ReadLE32At(b, lo, Offset(ds, k));
  }

  /** Bytes whose slots name the offsets and whose bodies decode are readable. */
  lemma {:induction false} FramedReadable(b: seq<byte>, es: seq<Entry>, ds: seq<EncodedEntry>, k: nat)
    requires |ds| == |es| && 0 < |es| && k <= |es|
    requires |b| == OffsetTableEnd(|es|) + Offset(ds, |es|)
    requires SlotsFrom(b, ds, k) && DecodedFrom(b[OffsetTableEnd(|es|)..], es, ds, k)
    ensures ReadableFrom(b, es, k)
    decreases |es| - k
  {
    if k < |es| {
      assert BodyEnd(b, |es|, k) == Offset(ds, k + 1);
      FramedReadable(b, es, ds, k + 1);
    }
  }

  /** The metadata fields of a container, as the reader reads them. */
  lemma LayoutMetadata(ds: seq<EncodedEntry>, stamp: u32)
    requires Writable(ds) && TotalLength(ds) < TwoTo32
    ensures var b := Layout(ds, LE32(TotalLength(ds)), stamp);
      && |b| == TotalLength(ds) && |b| >= PrefixSize && b[..16] == Header
      && ReadLE32(b, 0x10) == OffsetTableStart
      && ReadLE32(b, 0x14) == OffsetTableEnd(|ds|)
      && ReadLE32(b, TotalLengthAt) == |b|
      && ReadLE32(b, 0x1C) == |ds|
      && (|ds| > 0 ==> |b| >= OffsetTableEnd(|ds|) && Slot(b, 0) == 0)
  {
    var n := |ds|;
    var b := Layout(ds, LE32(TotalLength(ds)), stamp);
    LayoutHeader(ds, LE32(TotalLength(ds)), stamp);
    ReadLE32At(b, 0x10, OffsetTableStart);
    ReadLE32At(b, 0x14, OffsetTableEnd(n));
    ReadLE32At(b, TotalLengthAt, |b|);
    ReadLE32At(b, 0x1C, n);
    if n > 0 {
      LayoutOffsetSlot(ds, LE32(TotalLength(ds)), stamp, 0);
      ReadLE32At(b, OffsetTableStart, 0);
    }
  }

  /** The entries of a non-empty container read back as the table. */
  lemma {:induction false} LayoutReadable(es: seq<Entry>, stamp: u32)
    requires 0 < |es| && Writable(EncodeTexts(es)) && TotalLength(EncodeTexts(es)) < TwoTo32
    ensures var ds := EncodeTexts(es);
      var b := Layout(ds, LE32(TotalLength(ds)), stamp);
      OffsetTableEnd(|es|) <= |b| && ReadableFrom(b, es, 0)
  {
    var ds := EncodeTexts(es);
    var b := Layout(ds, LE32(TotalLength(ds)), stamp);
    LayoutMetadata(ds, stamp);
    LayoutSlots(ds, LE32(TotalLength(ds)), stamp);
    LayoutBodies(ds, LE32(TotalLength(ds)), stamp);
    SlotsOfTable(b, ds, 1);
    assert SlotsFrom(b, ds, 0);
    EncodeTextsTranscoded(es, 0);
    BodiesPlaced(ds, stamp, 0);
    PlacedDecoded(Bodies(ds, stamp, |ds|), es, ds, stamp, 0);
    FramedReadable(b, es, ds, 0);
  }

  /** Reading back a successful encoding gives the table that was encoded. */
  lemma DecodeOfEncode(es: seq<Entry>, stamp: u32)
    requires Encode(es, stamp).Success?
    ensures Decode(Encode(es, stamp).value) == Success(es)
  {
    var ds := EncodeTexts(es);
    PackIsLayout(ds, stamp);
    LayoutMetadata(ds, stamp);
    if |es| > 0 {
      var b := Layout(ds, LE32(TotalLength(ds)), stamp);
      LayoutReadable(es, stamp);
      DecodeEntriesOfReadable(b, es, 0);
    }
  }
}
