/** UTF-16 little-endian transcoding without a byte-order mark, the encoding
    `str.encode("utf-16le")` performs, and its inverse. A Dafny `char` is a
    Unicode scalar value, so every string has an encoding: code points up to
    U+FFFF take one 16-bit unit, the others a surrogate pair. */
module Utf16 {
  import opened Bytes
  import opened Wrappers

  predicate IsHighSurrogate(u: nat) { 0xD800 <= u < 0xDC00 }
  predicate IsLowSurrogate(u: nat) { 0xDC00 <= u < 0xE000 }

  /** True for the code points that need a surrogate pair. */
  predicate IsSupplementary(c: char) { c as int >= 0x1_0000 }

  /** The UTF-16 code units of one code point. */
  function CodeUnits(c: char): (r: seq<nat>)
    ensures |r| == (if IsSupplementary(c) then 2 else 1)
    ensures forall i :: 0 <= i < |r| ==> r[i] < TwoTo16
    ensures !IsSupplementary(c) ==> !IsHighSurrogate(r[0]) && !IsLowSurrogate(r[0])
    ensures IsSupplementary(c) ==> IsHighSurrogate(r[0]) && IsLowSurrogate(r[1])
  {
    if !IsSupplementary(c) then [c as int]
    else
      var v := c as int - 0x1_0000;
      [0xD800 + v / 0x400, 0xDC00 + v % 0x400]
  }

  /** The bytes of one code point. */
  function CharBytes(c: char): (r: seq<byte>)
    ensures |r| == 2 * |CodeUnits(c)|
  {
    var u := CodeUnits(c);
    if |u| == 1 then LE16(u[0]) else LE16(u[0]) + LE16(u[1])
  }

  /** `s.encode("utf-16le")`. */
  function Utf16LE(s: string): (r: seq<byte>)
    ensures |r| == 2 * UnitCount(s)
    ensures |r| >= 2 * |s|
  {
    if s == [] then [] else CharBytes(s[0]) + Utf16LE(s[1..])
  }

  /** The number of UTF-16 code units of `s`. */
  function UnitCount(s: string): nat
  {
    if s == [] then 0 else |CodeUnits(s[0])| + UnitCount(s[1..])
  }

  /** The code point that a high and a low surrogate stand for. */
  function Combine(hi: nat, lo: nat): (c: char)
    requires IsHighSurrogate(hi) && IsLowSurrogate(lo)
    ensures IsSupplementary(c)
  {
    var v := (hi - 0xD800) * 0x400 + (lo - 0xDC00);
    assert v < 0x10_0000 by {
      assert (hi - 0xD800) * 0x400 <= 0x3FF * 0x400;
    }
    (0x1_0000 + v) as char
  }

  /** Decodes little-endian UTF-16; None on an odd length or an unpaired surrogate. */
  function DecodeUtf16LE(b: seq<byte>): (r: Option<string>)
    decreases |b|
  {
    if |b| == 0 then Some([])
    else if |b| < 2 then None
    else
      var u := ReadLE16(b, 0);
      if IsLowSurrogate(u) then None
      else if IsHighSurrogate(u) then
        if |b| < 4 || !IsLowSurrogate(ReadLE16(b, 2)) then None
        else
          match DecodeUtf16LE(b[4..])
          case None => None
          case Some(rest) => Some([Combine(u, ReadLE16(b, 2))] + rest)
      else
        match DecodeUtf16LE(b[2..])
        case None => None
        case Some(rest) => Some([u as char] + rest)
  }

  /** A surrogate pair recombines to the code point it was split from. */
  lemma CombineSplit(c: char)
    requires IsSupplementary(c)
    ensures Combine(CodeUnits(c)[0], CodeUnits(c)[1]) == c
  {
    var v := c as int - 0x1_0000;
    assert (v / 0x400) * 0x400 + v % 0x400 == v;
  }

  /** Decoding the bytes of one code point in front of anything yields that code point first. */
  lemma DecodeCons(c: char, rest: seq<byte>)
    ensures DecodeUtf16LE(CharBytes(c) + rest) ==
      match DecodeUtf16LE(rest)
      case None => None
      case Some(t) => Some([c] + t)
  {
    var b := CharBytes(c) + rest;
    var u := CodeUnits(c);
    LE16RoundTrip(u[0]);
    ReadLE16At(b, 0, u[0]);
    if IsSupplementary(c) {
      assert b[2..4] == LE16(u[1]);
      ReadLE16At(b, 2, u[1]);
      assert b[4..] == rest;
      CombineSplit(c);
    } else {
      assert b[2..] == rest;
      assert (u[0] as char) == c;
    }
  }

  /** Decoding undoes encoding. */
  lemma {:induction false} DecodeEncode(s: string)
    ensures DecodeUtf16LE(Utf16LE(s)) == Some(s)
  {
    if s != [] {
      DecodeEncode(s[1..]);
      DecodeCons(s[0], Utf16LE(s[1..]));
      assert [s[0]] + s[1..] == s;
    }
  }

  /** Whatever decodes successfully is the encoding of what it decodes to. */
  lemma {:induction false} EncodeDecode(b: seq<byte>, s: string)
    requires DecodeUtf16LE(b) == Some(s)
    ensures Utf16LE(s) == b
    decreases |b|
  {
    if |b| > 0 {
      var n := if IsHighSurrogate(ReadLE16(b, 0)) then 4 else 2;
      DecodeHead(b, s);
      EncodeDecode(b[n..], s[1..]);
      assert b == b[..n] + b[n..];
    }
  }

  /** The first character decoded is the first two or four bytes, and the rest of the
      text is decoded from the bytes after them. */
  lemma {:induction false} DecodeHead(b: seq<byte>, s: string)
    requires |b| > 0 && DecodeUtf16LE(b) == Some(s)
    ensures var n := if IsHighSurrogate(ReadLE16(b, 0)) then 4 else 2;
      && n <= |b| && s != []
      && CharBytes(s[0]) == b[..n]
      && DecodeUtf16LE(b[n..]) == Some(s[1..])
  {
    var u := ReadLE16(b, 0);
    LE16OfRead(b, 0);
    if IsHighSurrogate(u) {
      var w := ReadLE16(b, 2);
      LE16OfRead(b, 2);
      var rest := DecodeUtf16LE(b[4..]).value;
      assert s == [Combine(u, w)] + rest;
      SplitCombine(u, w);
      assert s[1..] == rest;
    } else {
      var rest := DecodeUtf16LE(b[2..]).value;
      assert s == [u as char] + rest;
      assert s[1..] == rest;
    }
  }

  lemma LE16OfRead(b: seq<byte>, at: nat)
    requires at + 2 <= |b|
    ensures LE16(ReadLE16(b, at)) == b[at..at + 2]
  {
  }

  /** Splitting a recombined pair gives the pair back. */
  lemma SplitCombine(hi: nat, lo: nat)
    requires IsHighSurrogate(hi) && IsLowSurrogate(lo)
    ensures CodeUnits(Combine(hi, lo)) == [hi, lo]
  {
    var v := (hi - 0xD800) * 0x400 + (lo - 0xDC00);
    assert v / 0x400 == hi - 0xD800;
    assert v % 0x400 == lo - 0xDC00;
  }

  /** Encoding distributes over concatenation. */
  lemma {:induction false} Utf16LEConcat(s: string, t: string)
    ensures Utf16LE(s + t) == Utf16LE(s) + Utf16LE(t)
  {
    if s != [] {
      assert (s + t)[0] == s[0] && (s + t)[1..] == s[1..] + t;
      Utf16LEConcat(s[1..], t);
    } else {
      assert s + t == t;
    }
  }
}
