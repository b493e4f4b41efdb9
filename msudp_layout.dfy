/** Where each field of an encoded container sits: the properties `gen_msudp`
    promises its reader, stated on the bytes `Msudp.Encode` returns. */
module MsudpLayout {
  import opened Bytes
  import opened Utf16
  import opened Wrappers
  import opened Seqs
  import opened Msudp

  /** The back-patch keeps the length, puts `field` at `at` and leaves every other byte alone. */
  lemma PatchFrame(b: seq<byte>, at: nat, field: seq<byte>)
    requires at + 4 <= |b| && |field| == 4
    ensures |Patch(b, at, field)| == |b|
    ensures Patch(b, at, field)[at..at + 4] == field
    ensures forall i :: 0 <= i < |b| && !(at <= i < at + 4) ==> Patch(b, at, field)[i] == b[i]
  {
    Middle(b[..at], field, b[at + 4..]);
  }

  /** Patching the zero placeholder gives the layout with the patched field. */
  lemma PatchLayout(es: seq<EncodedEntry>, field: seq<byte>, stamp: u32)
    requires Writable(es) && |field| == 4
    ensures Patch(Layout(es, Zeros(4), stamp), TotalLengthAt, field) == Layout(es, field, stamp)
  {
    var front, back := Front(|es|), AfterLength(es, stamp);
    Middle(front, Zeros(4), back);
  }

  /** A successful encoding is the layout whose length field holds the total length. */
  lemma PackIsLayout(es: seq<EncodedEntry>, stamp: u32)
    requires Pack(es, stamp).Success?
    ensures Writable(es) && TotalLength(es) < TwoTo32
    ensures Pack(es, stamp).value == Layout(es, LE32(TotalLength(es)), stamp)
  {
    NoErrorIsWritable(es);
    LayoutLength(es, Zeros(4), stamp);
    PatchLayout(es, LE32(TotalLength(es)), stamp);
  }

  /** The pieces of a layout, at their absolute offsets. */
  lemma LayoutPieces(es: seq<EncodedEntry>, field: seq<byte>, stamp: u32)
    requires Writable(es) && |field| == 4
    ensures var b, t := Layout(es, field, stamp), OffsetTable(es);
      && |b| == TotalLength(es) && |b| == PrefixSize + |t| + Offset(es, |es|)
      && b[..TotalLengthAt] == Front(|es|)
      && b[TotalLengthAt..TotalLengthAt + 4] == field
      && b[TotalLengthAt + 4..PrefixSize] == Back(|es|, stamp)
      && b[PrefixSize..PrefixSize + |t|] == t
      && b[PrefixSize + |t|..] == Bodies(es, stamp, |es|)
  {
    LayoutLength(es, field, stamp);
    Five(Front(|es|), field, Back(|es|, stamp), OffsetTable(es), Bodies(es, stamp, |es|));
  }

  lemma FrontFields(n: nat)
    requires OffsetTableEnd(n) < TwoTo32
    ensures Front(n)[..16] == Header
    ensures Front(n)[16..20] == LE32(OffsetTableStart)
    ensures Front(n)[20..24] == LE32(OffsetTableEnd(n))
  {
    Middle(Header, LE32(OffsetTableStart), LE32(OffsetTableEnd(n)));
  }

  lemma BackFields(n: nat, stamp: u32)
    requires n < TwoTo32
    ensures Back(n, stamp)[..4] == LE32(n)
    ensures Back(n, stamp)[4..8] == LE32(stamp)
    ensures forall i :: 8 <= i < |Back(n, stamp)| ==> Back(n, stamp)[i] == 0
  {
    var c, s := LE32(n), LE32(stamp);
    var b := Back(n, stamp);
    assert b == c + s + (Zeros(28) + Zeros(4));
    Middle(c, s, Zeros(28) + Zeros(4));
  }

  /** The fixed header and the metadata fields of a layout. */
  lemma LayoutHeader(es: seq<EncodedEntry>, field: seq<byte>, stamp: u32)
    requires Writable(es) && |field| == 4
    ensures var b := Layout(es, field, stamp);
      && |b| == TotalLength(es) && |b| >= PrefixSize
      && b[..16] == Header
      && b[0x10..0x14] == LE32(OffsetTableStart)
      && b[0x14..0x18] == LE32(OffsetTableEnd(|es|))
      && b[0x18..0x1C] == field
      && b[0x1C..0x20] == LE32(|es|)
      && b[0x20..0x24] == LE32(stamp)
      && (forall i :: 0x24 <= i < PrefixSize ==> b[i] == 0)
  {
    var b := Layout(es, field, stamp);
    LayoutPieces(es, field, stamp);
    FrontFields(|es|);
    BackFields(|es|, stamp);
    InSlice(b, 0, 0x18, 0, 16, Header, 0, 16);
    InSlice(b, 0, 0x18, 0x10, 0x14, LE32(OffsetTableStart), 0x10, 0x14);
    InSlice(b, 0, 0x18, 0x14, 0x18, LE32(OffsetTableEnd(|es|)), 0x14, 0x18);
    InSlice(b, 0x1C, PrefixSize, 0, 4, LE32(|es|), 0x1C, 0x20);
    InSlice(b, 0x1C, PrefixSize, 4, 8, LE32(stamp), 0x20, 0x24);
    assert forall i :: 0x24 <= i < PrefixSize ==> b[i] == b[0x1C..PrefixSize][i - 0x1C];
  }

  /** The fixed header and the metadata fields, at the offsets the loader expects. */
  lemma PackHeader(es: seq<EncodedEntry>, stamp: u32)
    requires Pack(es, stamp).Success?
    ensures var b := Pack(es, stamp).value;
      && |b| == TotalLength(es) && |b| >= 68
      && b[..16] == [0x6D, 0x73, 0x63, 0x68, 0x78, 0x75, 0x64, 0x70,
                     0x02, 0x00, 0x60, 0x00, 0x01, 0x00, 0x00, 0x00]
      && b[0x10..0x14] == LE32(0x40)
      && b[0x14..0x18] == LE32(0x40 + 4 * |es|)
      && b[0x18..0x1C] == LE32(|b|)
      && b[0x1C..0x20] == LE32(|es|)
      && b[0x20..0x24] == LE32(stamp)
      && (forall i :: 0x24 <= i < 0x44 ==> b[i] == 0)
  {
    PackIsLayout(es, stamp);
    LayoutHeader(es, LE32(TotalLength(es)), stamp);
  }

  /** The length of a container, in closed form: an empty table gives exactly 68 bytes. */
  lemma PackLength(es: seq<EncodedEntry>, stamp: u32)
    requires Pack(es, stamp).Success?
    ensures |Pack(es, stamp).value| ==
      68 + 4 * (if es == [] then 0 else |es| - 1) + Offset(es, |es|)
    ensures es == [] ==> |Pack(es, stamp).value| == 68
  {
    PackIsLayout(es, stamp);
    LayoutLength(es, LE32(TotalLength(es)), stamp);
  }

  /** Slot k of `OffsetSlots(es, m)` (slots are numbered from 1). */
  lemma {:induction false} OffsetSlotsAt(es: seq<EncodedEntry>, m: nat, k: nat)
    requires m <= |es| && Offset(es, m) < TwoTo32
    requires 1 <= k <= m
    ensures Offset(es, k) < TwoTo32
    ensures OffsetSlots(es, m)[4 * (k - 1)..4 * k] == LE32(Offset(es, k))
  {
    OffsetMonotone(es, k, m);
    OffsetMonotone(es, m - 1, m);
    var init := OffsetSlots(es, m - 1);
    ConcatSlices(init, LE32(Offset(es, m)));
    if k < m {
      OffsetSlotsAt(es, m - 1, k);
      SliceLeft(init, LE32(Offset(es, m)), 4 * (k - 1), 4 * k);
    }
  }

  /** The slots after the reserved slot 0 fill the bytes up to the end of the offset table. */
  lemma LayoutSlots(es: seq<EncodedEntry>, field: seq<byte>, stamp: u32)
    requires Writable(es) && |field| == 4 && es != []
    ensures |Layout(es, field, stamp)| >= OffsetTableEnd(|es|)
    ensures Layout(es, field, stamp)[PrefixSize..OffsetTableEnd(|es|)] == OffsetSlots(es, |es| - 1)
  {
    LayoutPieces(es, field, stamp);
  }

  /** Offset slot k of a layout holds the start of body k relative to the first body. */
  lemma LayoutOffsetSlot(es: seq<EncodedEntry>, field: seq<byte>, stamp: u32, k: nat)
    requires Writable(es) && |field| == 4
    requires k < |es|
    ensures Offset(es, k) < TwoTo32
    ensures Layout(es, field, stamp)[OffsetTableStart + 4 * k..OffsetTableStart + 4 * k + 4]
      == LE32(Offset(es, k))
  {
    OffsetMonotone(es, k, |es| - 1);
    if k == 0 {
      SlotZero(es, field, stamp);
    } else {
      SlotInTable(es, field, stamp, k);
    }
  }

  /** Slot 0 is the last four reserved bytes, all zero: LE32(0). */
  lemma SlotZero(es: seq<EncodedEntry>, field: seq<byte>, stamp: u32)
    requires Writable(es) && |field| == 4
    ensures Layout(es, field, stamp)[OffsetTableStart..OffsetTableStart + 4] == LE32(0)
  {
    var b := Layout(es, field, stamp);
    LayoutHeader(es, field, stamp);
    assert b[OffsetTableStart..OffsetTableStart + 4] == [0, 0, 0, 0];
  }

  /** Slot k, for 0 < k < n, is inside the computed table. */
  lemma SlotInTable(es: seq<EncodedEntry>, field: seq<byte>, stamp: u32, k: nat)
    requires Writable(es) && |field| == 4
    requires 0 < k < |es|
    ensures Offset(es, k) < TwoTo32
    ensures Layout(es, field, stamp)[OffsetTableStart + 4 * k..OffsetTableStart + 4 * k + 4]
      == LE32(Offset(es, k))
  {
    var b := Layout(es, field, stamp);
    var lo, hi := OffsetTableStart + 4 * k, OffsetTableStart + 4 * k + 4;
    OffsetMonotone(es, k, |es| - 1);
    LayoutSlots(es, field, stamp);
    OffsetSlotsAt(es, |es| - 1, k);
    InSlice(b, PrefixSize, OffsetTableEnd(|es|), 4 * (k - 1), 4 * k, LE32(Offset(es, k)), lo, hi);
  }

  /** Offset slot k (bytes 0x40 + 4k .. 0x44 + 4k) is the start of body k relative to the
      first body; slot 0 is the zero reserve written before the loop. */
  lemma PackOffsetSlot(es: seq<EncodedEntry>, stamp: u32, k: nat)
    requires Pack(es, stamp).Success?
    requires k < |es|
    ensures Offset(es, k) < TwoTo32
    ensures Pack(es, stamp).value[OffsetTableStart + 4 * k..OffsetTableStart + 4 * k + 4]
      == LE32(Offset(es, k))
  {
    PackIsLayout(es, stamp);
    LayoutOffsetSlot(es, LE32(TotalLength(es)), stamp, k);
  }

  /** Offset slots rise by at least 20 per entry, and every slot lies strictly
      inside the body region, whose length is the summed body lengths. */
  lemma OffsetsIncrease(es: seq<EncodedEntry>, j: nat, k: nat)
    requires j < k <= |es|
    ensures Offset(es, j) + BodyOverhead * (k - j) <= Offset(es, k)
    ensures Offset(es, j) < Offset(es, |es|)
  {
    OffsetMonotone(es, j, k);
    OffsetMonotone(es, j, |es|);
  }

  /** Body i is where the offsets put it. */
  lemma {:induction false} BodiesAt(es: seq<EncodedEntry>, stamp: u32, i: nat, k: nat)
    requires i < k <= |es| && FitUpTo(es, k)
    ensures EntryFits(es[i])
    ensures Offset(es, i + 1) <= Offset(es, k)
    ensures Bodies(es, stamp, k)[Offset(es, i)..Offset(es, i + 1)] == Body(es[i], stamp)
  {
    OffsetMonotone(es, i + 1, k);
    var init := Bodies(es, stamp, k - 1);
    var last := Body(es[k - 1], stamp);
    ConcatSlices(init, last);
    if i < k - 1 {
      BodiesAt(es, stamp, i, k - 1);
      SliceLeft(init, last, Offset(es, i), Offset(es, i + 1));
    }
  }

  /** The body region of a non-empty layout: everything after the offset table. */
  lemma LayoutBodies(es: seq<EncodedEntry>, field: seq<byte>, stamp: u32)
    requires Writable(es) && |field| == 4 && es != []
    ensures var b := Layout(es, field, stamp);
      && |b| == OffsetTableEnd(|es|) + Offset(es, |es|)
      && b[OffsetTableEnd(|es|)..] == Bodies(es, stamp, |es|)
  {
    LayoutPieces(es, field, stamp);
  }

  /** Body i of a layout sits right after the offset table, between the offsets of
      bodies i and i + 1 in the body region. */
  lemma LayoutBody(es: seq<EncodedEntry>, field: seq<byte>, stamp: u32, i: nat)
    requires Writable(es) && |field| == 4
    requires i < |es|
    ensures EntryFits(es[i])
    ensures Offset(es, i + 1) <= Offset(es, |es|)
    ensures Layout(es, field, stamp)[OffsetTableEnd(|es|) + Offset(es, i)..OffsetTableEnd(|es|) + Offset(es, i + 1)]
      == Body(es[i], stamp)
  {
    var b := Layout(es, field, stamp);
    var r, x, y := OffsetTableEnd(|es|), Offset(es, i), Offset(es, i + 1);
    LayoutBodies(es, field, stamp);
    BodiesAt(es, stamp, i, |es|);
    var body := Body(es[i], stamp);
    assert b[r..][x..y] == body;
    InSuffix(b, r, x, y, body, r + x, r + y);
  }

  /** Body i of the container, in input order, starts right after the offset table at
      the offset that slot i holds and is `BodyLength` bytes long. */
  lemma PackBody(es: seq<EncodedEntry>, stamp: u32, i: nat)
    requires Pack(es, stamp).Success?
    requires i < |es|
    ensures EntryFits(es[i])
    ensures Offset(es, i + 1) == Offset(es, i) + BodyLength(es[i])
    ensures OffsetTableEnd(|es|) + Offset(es, i + 1) <= |Pack(es, stamp).value|
    ensures Pack(es, stamp).value[OffsetTableEnd(|es|) + Offset(es, i)..OffsetTableEnd(|es|) + Offset(es, i + 1)]
      == Body(es[i], stamp)
  {
    PackIsLayout(es, stamp);
    FitUpToIff(es, |es|);
    LayoutBody(es, LE32(TotalLength(es)), stamp, i);
    LayoutLength(es, LE32(TotalLength(es)), stamp);
  }

  lemma BodyHeadFields(e: EncodedEntry, stamp: u32)
    requires EntryFits(e)
    ensures var h := BodyHead(e, stamp);
      && h[..4] == [0x10, 0x00, 0x10, 0x00]
      && ReadLE16(h, 4) == |e.code| + 18
      && h[6] == e.order && h[7] == 0x06
      && h[8..12] == [0, 0, 0, 0]
      && ReadLE32(h, 12) == stamp
  {
    var h := BodyHead(e, stamp);
    var f := LE16(|e.code| + CodeFieldBias);
    var s := LE32(stamp);
    assert h[4] == f[0] && h[5] == f[1];
    LE16RoundTrip(|e.code| + CodeFieldBias);
    assert h[12] == s[0] && h[13] == s[1] && h[14] == s[2] && h[15] == s[3];
    LE32RoundTrip(stamp);
  }

  /** The fields of one body. The 16-bit field is the byte offset of the word inside
      the body, and a body is `BodyLength` bytes long, the length the offsets add up. */
  lemma BodyFields(e: EncodedEntry, stamp: u32)
    requires EntryFits(e)
    ensures var body, code, word := Body(e, stamp), e.code, e.word;
      && |body| == BodyLength(e)
      && body[..4] == [0x10, 0x00, 0x10, 0x00]
      && ReadLE16(body, 4) == |code| + 18
      && body[6] == e.order && body[7] == 0x06
      && body[8..12] == [0, 0, 0, 0]
      && ReadLE32(body, 12) == stamp
      && body[16..16 + |code|] == code
      && body[16 + |code|..18 + |code|] == [0, 0]
      && body[ReadLE16(body, 4)..|body| - 2] == word
      && body[|body| - 2..] == [0, 0]
  {
    var code, word := e.code, e.word;
    var h := BodyHead(e, stamp);
    var body := Body(e, stamp);
    var front := h + code + Terminator;
    BodyHeadFields(e, stamp);
    Middle(front, word, Terminator);
    Middle(h, code, Terminator);
    var k := |front|;
    assert body[..k] == front;
    assert body[..16] == h;
    assert body[16..16 + |code|] == front[16..16 + |code|];
    assert body[16 + |code|..18 + |code|] == front[16 + |code|..k];
  }
}
