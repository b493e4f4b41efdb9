/** `gen_msudp` as the source writes it: appends to an in-memory byte stream,
    then patches the length field. The numbered steps follow the numbered
    comments of the source function. */
module MsudpWriter {
  import opened Bytes
  import opened Utf16
  import opened Wrappers
  import opened Seqs
  import opened Msudp

  /** The part of `io.BytesIO` that `gen_msudp` uses: appending and reading back. */
  class ByteStream {
    var contents: seq<byte>

    constructor ()
      ensures contents == []
    {
      contents := [];
    }

    /** `buf.write(bs)`. */
    method Write(bs: seq<byte>)
      modifies this
      ensures contents == old(contents) + bs
    {
      contents := contents + bs;
    }
  }

  /** Steps 1 and 2: the fixed header and the metadata. `ok` is false where
      `struct.pack("<I", 0x40 + 4 * len(table))` raises; nothing after it is written then. */
  method WriteHeader(buf: ByteStream, n: nat, stamp: u32) returns (ok: bool)
    modifies buf
    ensures ok <==> OffsetTableEnd(n) < TwoTo32
    ensures ok ==> buf.contents == old(buf.contents) + (Front(n) + Zeros(4) + Back(n, stamp))
    ensures !ok ==> buf.contents == old(buf.contents) + Header + LE32(OffsetTableStart)
  {
    buf.Write(Header);
    buf.Write(LE32(OffsetTableStart));
    if OffsetTableEnd(n) >= TwoTo32 {
      return false;
    }
    buf.Write(LE32(OffsetTableEnd(n)));
    buf.Write(Zeros(4));
    buf.Write(LE32(n));
    buf.Write(LE32(stamp));
    buf.Write(Zeros(28));
    buf.Write(Zeros(4));
    ok := true;
  }

  /** Step 3: `encoded_data`, both texts of every entry in UTF-16LE, in input order. */
  method EncodeEntries(table: seq<Entry>) returns (data: seq<EncodedEntry>)
    ensures data == EncodeTexts(table)
  {
    data := [];
    for i := 0 to |table|
      invariant |data| == i
      invariant forall j :: 0 <= j < i ==> data[j] == EncodeText(table[j])
    {
      var wordEnc := Utf16LE(table[i].word);
      var codeEnc := Utf16LE(table[i].code);
      data := data + [EncodedEntry(wordEnc, codeEnc, table[i].order)];
    }
  }

  /** The offset loop of step 3: slot k, for 0 < k < n, holds the running sum
      `offset_sum` of the lengths of bodies 0 .. k-1. */
  method WriteOffsets(buf: ByteStream, data: seq<EncodedEntry>) returns (err: Option<EncodeError>)
    modifies buf
    ensures err == OffsetError(data, 0)
    ensures err == None ==> data == [] || Offset(data, |data| - 1) < TwoTo32
    ensures err == None ==> buf.contents == old(buf.contents) + OffsetTable(data)
  {
    var offsetSum := 0;
    var last := if |data| == 0 then 0 else |data| - 1;
    for i := 0 to last
      invariant offsetSum == Offset(data, i) && offsetSum < TwoTo32
      invariant OffsetError(data, 0) == OffsetError(data, i)
      invariant buf.contents == old(buf.contents) + OffsetSlots(data, i)
    {
      var entryLen := |data[i].code| + |data[i].word| + 20;
      offsetSum := offsetSum + entryLen;
      if offsetSum >= TwoTo32 {
        return Some(OffsetOverflow(i));
      }
      Assoc(old(buf.contents), OffsetSlots(data, i), LE32(offsetSum));
      buf.Write(LE32(offsetSum));
    }
    return None;
  }

  /** The writes of one body are the body. */
  lemma BodyWrites(before: seq<byte>, d: EncodedEntry, stamp: u32)
    requires EntryFits(d)
    ensures before + BodyMarker + LE16(|d.code| + 18) + [d.order as byte, OrderMarker] + Zeros(4)
      + LE32(stamp) + d.code + Terminator + d.word + Terminator == before + Body(d, stamp)
  {
    var m, l, o, z, s := BodyMarker, LE16(|d.code| + 18), [d.order as byte, OrderMarker], Zeros(4), LE32(stamp);
    var c, t, w := d.code, Terminator, d.word;
    Assoc(before, m + l + o + z + s + c + t + w, t);
    Assoc(before, m + l + o + z + s + c + t, w);
    Assoc(before, m + l + o + z + s + c, t);
    Assoc(before, m + l + o + z + s, c);
    Assoc(before, m + l + o + z, s);
    Assoc(before, m + l + o, z);
    Assoc(before, m + l, o);
    Assoc(before, m, l);
  }

  /** One turn of the body loop (step 4): the body of entry `i`, or the error where
      `struct.pack("<H", ...)` or `bytes([order, 0x06])` raises. */
  method WriteBody(buf: ByteStream, d: EncodedEntry, i: nat, stamp: u32) returns (err: Option<EncodeError>)
    modifies buf
    ensures err == (if !CodeFits(d) then Some(CodeLengthOverflow(i))
                    else if !OrderFits(d) then Some(OrderOutOfRange(i)) else None)
    ensures err == None ==> buf.contents == old(buf.contents) + Body(d, stamp)
  {
    buf.Write(BodyMarker);
    var codeLenPlus18 := |d.code| + 18;
    if codeLenPlus18 >= TwoTo16 {
      return Some(CodeLengthOverflow(i));
    }
    buf.Write(LE16(codeLenPlus18));
    if !(0 <= d.order < 0x100) {
      return Some(OrderOutOfRange(i));
    }
    buf.Write([d.order as byte, OrderMarker]);
    buf.Write(Zeros(4));
    buf.Write(LE32(stamp));
    buf.Write(d.code);
    buf.Write(Terminator);
    buf.Write(d.word);
    buf.Write(Terminator);
    BodyWrites(old(buf.contents), d, stamp);
    return None;
  }

  /** Step 4: the bodies, in input order. */
  method WriteBodies(buf: ByteStream, data: seq<EncodedEntry>, stamp: u32) returns (err: Option<EncodeError>)
    modifies buf
    ensures err == BodyError(data, 0)
    ensures err == None ==> FitUpTo(data, |data|)
    ensures err == None ==> buf.contents == old(buf.contents) + Bodies(data, stamp, |data|)
  {
    for i := 0 to |data|
      invariant FitUpTo(data, i)
      invariant BodyError(data, 0) == BodyError(data, i)
      invariant buf.contents == old(buf.contents) + Bodies(data, stamp, i)
    {
      err := WriteBody(buf, data[i], i, stamp);
      if err.Some? {
        return;
      }
      Assoc(old(buf.contents), Bodies(data, stamp, i), Body(data[i], stamp));
    }
    return None;
  }

  /** Lines 40-121, with the clock reading `stamp`. Every `struct.pack` and `bytes(...)`
      that the source would see fail returns the matching error instead. */
  method GenMsudp(table: seq<Entry>, stamp: u32) returns (r: Result<seq<byte>, EncodeError>)
    ensures r == Encode(table, stamp)
  {
    var buf := new ByteStream();
    var n := |table|;
    var ok := WriteHeader(buf, n, stamp);
    if !ok {
      return Failure(TableEndOverflow);
    }
    var data := EncodeEntries(table);
    var err := WriteOffsets(buf, data);
    if err.Some? {
      return Failure(err.value);
    }
    err := WriteBodies(buf, data, stamp);
    if err.Some? {
      return Failure(err.value);
    }

    // 5. the total length, patched in at 0x18
    var result := buf.contents;
    NoErrorIff(data);
    FitUpToIff(data, |data|);
    Regroup(Front(n), Zeros(4), Back(n, stamp), OffsetTable(data), Bodies(data, stamp, n));
    assert result == Unpatched(data, stamp);
    if |result| >= TwoTo32 {
      return Failure(TotalLengthOverflow);
    }
    result := result[..TotalLengthAt] + LE32(|result|) + result[TotalLengthAt + 4..];
    return Success(result);
  }
}
