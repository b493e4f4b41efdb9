/** The "mschxudp" user-phrase container (Microsoft Pinyin user lexicon) as
    `gen_msudp` writes it: a 16-byte signature, a metadata block, a table of
    4-byte offsets and one body per entry, all little-endian, with the total
    length patched in at 0x18 once the buffer is complete.

    Absolute layout for n entries:
      0x00  signature and version bytes (16)
      0x10  LE32(0x40)             start of the offset table
      0x14  LE32(0x40 + 4n)        end of the offset table = start of the bodies
      0x18  LE32(total length)     written as zero, patched last
      0x1C  LE32(n)
      0x20  LE32(timestamp)
      0x24  28 + 4 zero bytes; the last four are offset slot 0 (always 0)
      0x44  slots 1 .. n-1: the offset of body k relative to the first body
      then  the n bodies, in input order */
module Msudp {
  import opened Bytes
  import opened Utf16
  import opened Wrappers

  /** One lexicon record: the displayed word, its input code and its order byte. */
  datatype Entry = Entry(word: string, code: string, order: int)

  /** An element of `encoded_data`: the record with both texts already in UTF-16LE. */
  datatype EncodedEntry = EncodedEntry(word: seq<byte>, code: seq<byte>, order: int)

  /** Where `gen_msudp` raises, in the order it would reach each site. */
  datatype EncodeError =
    | TableEndOverflow              // struct.pack("<I", 0x40 + 4n)
    | OffsetOverflow(index: nat)    // struct.pack("<I", offset_sum) after entry `index`
    | CodeLengthOverflow(index: nat) // struct.pack("<H", len(code) + 18)
    | OrderOutOfRange(index: nat)   // bytes([order, 0x06])
    | TotalLengthOverflow           // struct.pack("<I", len(result))

  /** "mschxudp", then the version bytes 02 00 60 00 01 00 00 00. */
  const Header: seq<byte> := [0x6D, 0x73, 0x63, 0x68, 0x78, 0x75, 0x64, 0x70,
                              0x02, 0x00, 0x60, 0x00, 0x01, 0x00, 0x00, 0x00]
  const OffsetTableStart: nat := 0x40
  const TotalLengthAt: nat := 0x18
  /** Header, metadata and offset slot 0: what is written before the first computed offset. */
  const PrefixSize: nat := 68
  /** Fixed bytes of a body besides the two UTF-16 texts: 16 of header, two terminators. */
  const BodyOverhead: nat := 20
  /** A body's 16-bit field holds the code's byte length plus this: the word's offset in the body. */
  const CodeFieldBias: nat := 18
  const BodyMarker: seq<byte> := [0x10, 0x00, 0x10, 0x00]
  const OrderMarker: byte := 0x06
  const Terminator: seq<byte> := [0x00, 0x00]

  function OffsetTableEnd(n: nat): nat { OffsetTableStart + 4 * n }

  /** `len(code_enc) + len(word_enc) + 20`. */
  function BodyLength(e: EncodedEntry): nat
  {
    |e.code| + |e.word| + BodyOverhead
  }

  /** The summed lengths of bodies 0 .. k-1: where body k starts, relative to the first
      body. For 0 < k < |es| this is `offset_sum` after k turns of the loop at line 94. */
  function Offset(es: seq<EncodedEntry>, k: nat): nat
    requires k <= |es|
  {
    if k == 0 then 0 else Offset(es, k - 1) + BodyLength(es[k - 1])
  }

  /** The length of the container: 68 bytes, 4 more per entry after the first, and the bodies. */
  function TotalLength(es: seq<EncodedEntry>): nat
  {
    PrefixSize + (if es == [] then 0 else 4 * (|es| - 1)) + Offset(es, |es|)
  }

  predicate CodeFits(e: EncodedEntry) { |e.code| + CodeFieldBias < TwoTo16 }
  predicate OrderFits(e: EncodedEntry) { 0 <= e.order < 0x100 }
  predicate EntryFits(e: EncodedEntry) { CodeFits(e) && OrderFits(e) }

  predicate AllFit(es: seq<EncodedEntry>) { forall i :: 0 <= i < |es| ==> EntryFits(es[i]) }

  /** Entries 0 .. k-1 can be packed, one at a time (see `FitUpToIff`). */
  predicate FitUpTo(es: seq<EncodedEntry>, k: nat)
    requires k <= |es|
  {
    k == 0 || (EntryFits(es[k - 1]) && FitUpTo(es, k - 1))
  }

  /** Everything `gen_msudp` writes before the final length can be packed. */
  predicate Writable(es: seq<EncodedEntry>)
  {
    && OffsetTableEnd(|es|) < TwoTo32
    && FitUpTo(es, |es|)
    && (es == [] || Offset(es, |es| - 1) < TwoTo32)
  }

  // ---------------------------------------------------------------------
  // Failure sites, searched in the order the source reaches them

  /** The first offset slot, from entry `i` on, whose running sum does not fit 32 bits. */
  function OffsetError(es: seq<EncodedEntry>, i: nat): Option<EncodeError>
    decreases |es| - i
  {
    if i + 1 >= |es| then None
    else if Offset(es, i + 1) >= TwoTo32 then Some(OffsetOverflow(i))
    else OffsetError(es, i + 1)
  }

  /** The first body, from entry `i` on, whose length field or order byte cannot be packed. */
  function BodyError(es: seq<EncodedEntry>, i: nat): Option<EncodeError>
    decreases |es| - i
  {
    if i >= |es| then None
    else if !CodeFits(es[i]) then Some(CodeLengthOverflow(i))
    else if !OrderFits(es[i]) then Some(OrderOutOfRange(i))
    else BodyError(es, i + 1)
  }

  function FirstError(es: seq<EncodedEntry>): Option<EncodeError>
  {
    if OffsetTableEnd(|es|) >= TwoTo32 then Some(TableEndOverflow)
    else if OffsetError(es, 0).Some? then OffsetError(es, 0)
    else if BodyError(es, 0).Some? then BodyError(es, 0)
    else if TotalLength(es) >= TwoTo32 then Some(TotalLengthOverflow)
    else None
  }

  // ---------------------------------------------------------------------
  // The bytes

  /** Bytes 0x00 .. 0x17: the header and the two bounds of the offset table. */
  function Front(n: nat): (r: seq<byte>)
    requires OffsetTableEnd(n) < TwoTo32
    ensures |r| == TotalLengthAt
  {
    Header + LE32(OffsetTableStart) + LE32(OffsetTableEnd(n))
  }

  /** Bytes 0x1C .. 0x43: entry count, timestamp, 28 reserved bytes and 4 more (slot 0). */
  function Back(n: nat, stamp: u32): (r: seq<byte>)
    requires n < TwoTo32
    ensures |r| == PrefixSize - TotalLengthAt - 4
  {
    LE32(n) + LE32(stamp) + Zeros(28) + Zeros(4)
  }

  /** Offset slots 1 .. m: slot k holds the summed lengths of bodies 0 .. k-1. */
  function OffsetSlots(es: seq<EncodedEntry>, m: nat): (r: seq<byte>)
    requires m <= |es| && Offset(es, m) < TwoTo32
    ensures |r| == 4 * m
  {
    if m == 0 then [] else OffsetSlots(es, m - 1) + LE32(Offset(es, m))
  }

  /** The slots written by the loop over `range(len(table) - 1)`. */
  function OffsetTable(es: seq<EncodedEntry>): (r: seq<byte>)
    requires es == [] || Offset(es, |es| - 1) < TwoTo32
    ensures |r| == if es == [] then 0 else 4 * (|es| - 1)
  {
    if es == [] then [] else OffsetSlots(es, |es| - 1)
  }

  /** The 16 fixed bytes that open a body. */
  function BodyHead(e: EncodedEntry, stamp: u32): (r: seq<byte>)
    requires EntryFits(e)
    ensures |r| == 16
  {
    BodyMarker + LE16(|e.code| + CodeFieldBias) + [e.order as byte, OrderMarker]
      + Zeros(4) + LE32(stamp)
  }

  /** One entry body: its fixed head, then code and word, each closed by two zero bytes. */
  function Body(e: EncodedEntry, stamp: u32): (r: seq<byte>)
    requires EntryFits(e)
    ensures |r| == BodyLength(e)
  {
    BodyHead(e, stamp) + e.code + Terminator + e.word + Terminator
  }

  /** Bodies 0 .. k-1, in input order. */
  function Bodies(es: seq<EncodedEntry>, stamp: u32, k: nat): (r: seq<byte>)
    requires k <= |es| && FitUpTo(es, k)
    ensures |r| == Offset(es, k)
  {
    if k == 0 then [] else Bodies(es, stamp, k - 1) + Body(es[k - 1], stamp)
  }

  /** Everything after the length field. */
  function AfterLength(es: seq<EncodedEntry>, stamp: u32): seq<byte>
    requires Writable(es)
  {
    Back(|es|, stamp) + OffsetTable(es) + Bodies(es, stamp, |es|)
  }

  /** The whole container with `totalField` at 0x18. */
  function Layout(es: seq<EncodedEntry>, totalField: seq<byte>, stamp: u32): seq<byte>
    requires Writable(es) && |totalField| == 4
  {
    Front(|es|) + totalField + AfterLength(es, stamp)
  }

  /** The buffer before the length is patched in: `buf.getvalue()` at line 117. */
  function Unpatched(es: seq<EncodedEntry>, stamp: u32): seq<byte>
    requires Writable(es)
  {
    Layout(es, Zeros(4), stamp)
  }

  /** `result[:at] + field + result[at + 4:]`. */
  function Patch(b: seq<byte>, at: nat, field: seq<byte>): seq<byte>
    requires at + 4 <= |b| && |field| == 4
  {
    b[..at] + field + b[at + 4..]
  }

  /** Lines 83-90: both texts of every entry transcoded, in input order. */
  function EncodeText(e: Entry): EncodedEntry
  {
    EncodedEntry(Utf16LE(e.word), Utf16LE(e.code), e.order)
  }

  function EncodeTexts(es: seq<Entry>): (ds: seq<EncodedEntry>)
    ensures |ds| == |es|
    ensures forall i :: 0 <= i < |es| ==> ds[i] == EncodeText(es[i])
  {
    seq(|es|, i requires 0 <= i < |es| => EncodeText(es[i]))
  }

  /** Lines 74-121 over the transcoded entries. */
  function Pack(es: seq<EncodedEntry>, stamp: u32): (r: Result<seq<byte>, EncodeError>)
    ensures r.Failure? <==> FirstError(es).Some?
    ensures r.Failure? ==> r.error == FirstError(es).value
    ensures r.Success? ==> |r.value| == TotalLength(es) < TwoTo32
  {
    match FirstError(es)
    case Some(err) => Failure(err)
    case None =>
      NoErrorIsWritable(es);
      var buf := Unpatched(es, stamp);
      LayoutLength(es, Zeros(4), stamp);
      Success(Patch(buf, TotalLengthAt, LE32(|buf|)))
  }

  /** `gen_msudp(table)` with the clock reading `stamp`. */
  function Encode(es: seq<Entry>, stamp: u32): (r: Result<seq<byte>, EncodeError>)
    ensures r.Failure? <==> FirstError(EncodeTexts(es)).Some?
    ensures r.Success? ==> |r.value| == TotalLength(EncodeTexts(es)) < TwoTo32
  {
    Pack(EncodeTexts(es), stamp)
  }

  // ---------------------------------------------------------------------
  // Lengths and sums

  /** Running sums grow by at least 20 per entry, so they never decrease. */
  lemma {:induction false} OffsetMonotone(es: seq<EncodedEntry>, j: nat, k: nat)
    requires j <= k <= |es|
    ensures Offset(es, j) + 20 * (k - j) <= Offset(es, k)
    decreases k - j
  {
    if j < k {
      OffsetMonotone(es, j, k - 1);
    }
  }

  lemma LayoutLength(es: seq<EncodedEntry>, totalField: seq<byte>, stamp: u32)
    requires Writable(es) && |totalField| == 4
    ensures |Layout(es, totalField, stamp)| == TotalLength(es)
  {
  }

  // ---------------------------------------------------------------------
  // When encoding succeeds

  lemma {:induction false} OffsetErrorNone(es: seq<EncodedEntry>, i: nat)
    requires i < |es|
    ensures OffsetError(es, i) == None <==> i + 1 >= |es| || Offset(es, |es| - 1) < TwoTo32
    decreases |es| - i
  {
    if i + 2 < |es| {
      OffsetErrorNone(es, i + 1);
      OffsetMonotone(es, i + 1, |es| - 1);
    }
  }

  lemma {:induction false} BodyErrorNone(es: seq<EncodedEntry>, i: nat)
    requires i <= |es|
    ensures BodyError(es, i) == None <==> forall j :: i <= j < |es| ==> EntryFits(es[j])
    decreases |es| - i
  {
    if i < |es| {
      BodyErrorNone(es, i + 1);
    }
  }

  /** The source raises exactly when one of its packing sites gets a value it cannot pack. */
  lemma NoErrorIff(es: seq<EncodedEntry>)
    ensures FirstError(es) == None <==>
      && OffsetTableEnd(|es|) < TwoTo32
      && AllFit(es)
      && TotalLength(es) < TwoTo32
  {
    BodyErrorNone(es, 0);
    if es != [] {
      OffsetErrorNone(es, 0);
      OffsetMonotone(es, |es| - 1, |es|);
    }
  }

  lemma PackSucceedsIff(es: seq<EncodedEntry>, stamp: u32)
    ensures Pack(es, stamp).Success? <==>
      && OffsetTableEnd(|es|) < TwoTo32
      && (forall i :: 0 <= i < |es| ==> EntryFits(es[i]))
      && TotalLength(es) < TwoTo32
  {
    NoErrorIff(es);
  }

  lemma NoErrorIsWritable(es: seq<EncodedEntry>)
    requires FirstError(es) == None
    ensures Writable(es) && TotalLength(es) < TwoTo32
  {
    NoErrorIff(es);
    FitUpToIff(es, |es|);
    if es != [] {
      OffsetMonotone(es, |es| - 1, |es|);
    }
  }

  lemma {:induction false} FitUpToIff(es: seq<EncodedEntry>, k: nat)
    requires k <= |es|
    ensures FitUpTo(es, k) <==> forall j :: 0 <= j < k ==> EntryFits(es[j])
  {
    if k > 0 {
      FitUpToIff(es, k - 1);
    }
  }
}
