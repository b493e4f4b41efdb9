/** The parts of Python's `str` that the script relies on: `isspace`, `strip`,
    `split(sep, maxsplit)` with a one-character separator, `replace` of one
    character, and `int()` of a decimal numeral. */
module PyStr {
  import opened Wrappers

  /** `c.isspace()`: the characters Python treats as whitespace. */
  predicate IsSpace(c: char)
  {
    || c == ' ' || '\t' <= c <= '\r' || '\U{1C}' <= c <= '\U{1F}'
    || c == '\U{85}' || c == '\U{A0}' || c == '\U{1680}'
    || '\U{2000}' <= c <= '\U{200A}' || c == '\U{2028}' || c == '\U{2029}'
    || c == '\U{202F}' || c == '\U{205F}' || c == '\U{3000}'
  }

  predicate AllSpace(s: string)
  {
    forall i :: 0 <= i < |s| ==> IsSpace(s[i])
  }

  /** The end of the run of whitespace that starts at `i`. */
  function SpaceRunEnd(s: string, i: nat): (r: nat)
    requires i <= |s|
    ensures i <= r <= |s|
    ensures forall k :: i <= k < r ==> IsSpace(s[k])
    ensures r == |s| || !IsSpace(s[r])
    decreases |s| - i
  {
    if i < |s| && IsSpace(s[i]) then SpaceRunEnd(s, i + 1) else i
  }

  /** The start of the run of whitespace that ends just before `j`. */
  function SpaceRunStart(s: string, j: nat): (r: nat)
    requires j <= |s|
    ensures r <= j
    ensures forall k :: r <= k < j ==> IsSpace(s[k])
    ensures r == 0 || !IsSpace(s[r - 1])
  {
    if j > 0 && IsSpace(s[j - 1]) then SpaceRunStart(s, j - 1) else j
  }

  /** `s.strip()`: what lies between the leading and the trailing whitespace. */
  function Strip(s: string): (r: string)
    ensures r == [] || (!IsSpace(r[0]) && !IsSpace(r[|r| - 1]))
  {
    var lo := SpaceRunEnd(s, 0);
    if lo == |s| then []
    else
      var hi := SpaceRunStart(s, |s|);
      assert lo < hi;
      s[lo..hi]
  }

  /** `s.strip()` removes whitespace at both ends and keeps the middle: the result is the
      slice of `s` after its leading whitespace, everything cut off at either end is
      whitespace, and it is empty exactly when `s` is all whitespace. */
  lemma StripShape(s: string)
    ensures var r, lo := Strip(s), SpaceRunEnd(s, 0);
      && lo + |r| <= |s| && r == s[lo..lo + |r|]
      && (forall k :: 0 <= k < lo ==> IsSpace(s[k]))
      && (forall k :: lo + |r| <= k < |s| ==> IsSpace(s[k]))
    ensures Strip(s) == [] <==> AllSpace(s)
  {
    var lo := SpaceRunEnd(s, 0);
    if lo < |s| {
      assert !IsSpace(s[lo]);
    }
  }

  /** Stripping only removes characters. */
  lemma StripMembers(s: string)
    ensures forall c :: c in Strip(s) ==> c in s
  {
    var r := Strip(s);
    var lo := SpaceRunEnd(s, 0);
    StripShape(s);
    forall c | c in r
      ensures c in s
    {
      var i :| 0 <= i < |r| && r[i] == c;
      assert s[lo + i] == c;
    }
  }

  /** A string without whitespace at either end is its own strip. */
  lemma StripTrimmed(s: string)
    requires s == [] || (!IsSpace(s[0]) && !IsSpace(s[|s| - 1]))
    ensures Strip(s) == s
  {
    if s != [] {
      assert SpaceRunEnd(s, 0) == 0;
      assert SpaceRunStart(s, |s|) == |s|;
      assert s[0..|s|] == s;
    }
  }

  lemma StripIdempotent(s: string)
    ensures Strip(Strip(s)) == Strip(s)
  {
    StripShape(s);
    StripTrimmed(Strip(s));
  }

  /** The characters of `s` that are not whitespace, in order: the text once every
      space, tab and line break is taken out. */
  function NonSpace(s: string): (r: string)
    ensures forall i :: 0 <= i < |r| ==> !IsSpace(r[i])
  {
    if s == [] then [] else (if IsSpace(s[0]) then [] else [s[0]]) + NonSpace(s[1..])
  }

  lemma {:induction false} NonSpaceConcat(a: string, b: string)
    ensures NonSpace(a + b) == NonSpace(a) + NonSpace(b)
  {
    if a == [] {
      assert a + b == b;
    } else {
      assert (a + b)[0] == a[0] && (a + b)[1..] == a[1..] + b;
      NonSpaceConcat(a[1..], b);
    }
  }

  lemma {:induction false} NonSpaceOfSpaces(s: string)
    requires AllSpace(s)
    ensures NonSpace(s) == []
  {
    if s != [] {
      NonSpaceOfSpaces(s[1..]);
    }
  }

  /** Stripping keeps every character that is not whitespace, in order. */
  lemma StripNonSpace(s: string)
    ensures NonSpace(Strip(s)) == NonSpace(s)
  {
    var r, lo := Strip(s), SpaceRunEnd(s, 0);
    StripShape(s);
    var front, back := s[..lo], s[lo + |r|..];
    assert s == front + r + back;
    NonSpaceOfSpaces(front);
    NonSpaceOfSpaces(back);
    NonSpaceConcat(front + r, back);
    NonSpaceConcat(front, r);
  }

  // ---------------------------------------------------------------------
  // split

  /** The index of the first `c` in `s`: `s.find(c)`, with None for -1. */
  function Find(s: string, c: char): (r: Option<nat>)
    ensures r.Some? ==> r.value < |s| && s[r.value] == c && c !in s[..r.value]
    ensures r.None? ==> c !in s
  {
    if s == [] then None
    else if s[0] == c then Some(0)
    else
      match Find(s[1..], c)
      case None => None
      case Some(i) =>
        assert s[..i + 1] == [s[0]] + s[1..][..i];
        Some(i + 1)
  }

  /** `s.split(sep, maxsplit)` for a one-character `sep`; a negative `maxsplit`, as in
      Python, means no limit. */
  function Split(s: string, sep: char, maxsplit: int): (parts: seq<string>)
    ensures |parts| >= 1
    decreases |s|
  {
    match Find(s, sep)
    case None => [s]
    case Some(i) =>
      if maxsplit == 0 then [s]
      else [s[..i]] + Split(s[i + 1..], sep, if maxsplit < 0 then -1 else maxsplit - 1)
  }

  /** One step of `split`: the part before the first separator, then the split of the rest. */
  lemma SplitStep(s: string, sep: char, maxsplit: int, i: nat)
    requires Find(s, sep) == Some(i) && maxsplit != 0
    ensures Split(s, sep, maxsplit) ==
      [s[..i]] + Split(s[i + 1..], sep, if maxsplit < 0 then -1 else maxsplit - 1)
  {
  }

  /** `split` with `maxsplit` 0, or of a text without the separator, is the text alone. */
  lemma SplitWhole(s: string, sep: char, maxsplit: int)
    requires maxsplit == 0 || sep !in s
    ensures Split(s, sep, maxsplit) == [s]
  {
  }

  /** `sep.join(parts)`. */
  function Join(parts: seq<string>, sep: char): string
    requires |parts| >= 1
  {
    if |parts| == 1 then parts[0] else parts[0] + [sep] + Join(parts[1..], sep)
  }

  /** Splitting loses nothing: joining the parts with the separator gives `s` back. */
  lemma {:induction false} JoinSplit(s: string, sep: char, maxsplit: int)
    ensures Join(Split(s, sep, maxsplit), sep) == s
    decreases |s|
  {
    match Find(s, sep)
    case None =>
    case Some(i) =>
      if maxsplit != 0 {
        var m := if maxsplit < 0 then -1 else maxsplit - 1;
        var rest := Split(s[i + 1..], sep, m);
        SplitStep(s, sep, maxsplit, i);
        JoinSplit(s[i + 1..], sep, m);
        JoinCons(s[..i], rest, sep);
        assert s == s[..i] + [sep] + s[i + 1..];
      }
  }

  lemma JoinCons(a: string, rest: seq<string>, sep: char)
    requires |rest| >= 1
    ensures Join([a] + rest, sep) == a + [sep] + Join(rest, sep)
  {
    assert ([a] + rest)[1..] == rest;
  }

  /** Every part but the last is free of the separator, and there is one part more than
      separators used: all of them without a limit, at most `maxsplit` with one. */
  lemma {:induction false} SplitParts(s: string, sep: char, maxsplit: int)
    ensures var parts := Split(s, sep, maxsplit);
      && (forall i :: 0 <= i < |parts| - 1 ==> sep !in parts[i])
      && |parts| == 1 + (if maxsplit < 0 || multiset(s)[sep] <= maxsplit then multiset(s)[sep] else maxsplit)
    decreases |s|
  {
    match Find(s, sep)
    case None =>
      assert multiset(s)[sep] == 0;
    case Some(i) =>
      CountAfterFind(s, sep, i);
      if maxsplit != 0 {
        var m := if maxsplit < 0 then -1 else maxsplit - 1;
        var rest := Split(s[i + 1..], sep, m);
        SplitStep(s, sep, maxsplit, i);
        SplitParts(s[i + 1..], sep, m);
        var parts := [s[..i]] + rest;
        forall j | 0 <= j < |parts| - 1
          ensures sep !in parts[j]
        {
          if j > 0 {
            assert parts[j] == rest[j - 1];
          }
        }
      }
  }

  /** The separator found first is one of the separators; the others lie after it. */
  lemma CountAfterFind(s: string, sep: char, i: nat)
    requires Find(s, sep) == Some(i)
    ensures multiset(s)[sep] == 1 + multiset(s[i + 1..])[sep]
  {
    assert s == s[..i] + [sep] + s[i + 1..];
    assert multiset(s[..i])[sep] == 0;
  }

  // ---------------------------------------------------------------------
  // replace

  /** `s.replace(old, new)` for a one-character `old`: every `from` becomes `to`. */
  function ReplaceChar(s: string, from: char, to: string): (r: string)
    ensures from !in to ==> from !in r
    ensures forall c :: c in r ==> c in to || (c in s && c != from)
  {
    if s == [] then []
    else (if s[0] == from then to else [s[0]]) + ReplaceChar(s[1..], from, to)
  }

  /** Replacing by one character keeps the length and changes exactly the occurrences. */
  lemma {:induction false} ReplaceByChar(s: string, from: char, to: char)
    ensures |ReplaceChar(s, from, [to])| == |s|
    ensures forall i :: 0 <= i < |s| ==>
      ReplaceChar(s, from, [to])[i] == (if s[i] == from then to else s[i])
  {
    if s != [] {
      ReplaceByChar(s[1..], from, to);
      var r := ReplaceChar(s, from, [to]);
      forall i | 0 <= i < |s|
        ensures r[i] == (if s[i] == from then to else s[i])
      {
        if i > 0 {
          assert r[i] == ReplaceChar(s[1..], from, [to])[i - 1];
        }
      }
    }
  }

  /** Replacing works piece by piece. */
  lemma {:induction false} ReplaceConcat(s: string, t: string, from: char, to: string)
    ensures ReplaceChar(s + t, from, to) == ReplaceChar(s, from, to) + ReplaceChar(t, from, to)
  {
    if s == [] {
      assert s + t == t;
    } else {
      assert (s + t)[0] == s[0] && (s + t)[1..] == s[1..] + t;
      ReplaceConcat(s[1..], t, from, to);
    }
  }

  /** Replacing whitespace by whitespace keeps every other character, in order. */
  lemma {:induction false} ReplaceNonSpace(s: string, from: char, to: string)
    requires IsSpace(from) && AllSpace(to)
    ensures NonSpace(ReplaceChar(s, from, to)) == NonSpace(s)
  {
    if s != [] {
      var head := if s[0] == from then to else [s[0]];
      ReplaceNonSpace(s[1..], from, to);
      NonSpaceConcat(head, ReplaceChar(s[1..], from, to));
      if s[0] == from {
        NonSpaceOfSpaces(to);
      }
    }
  }

  /** Replacing a character that does not occur changes nothing. */
  lemma {:induction false} ReplaceAbsent(s: string, from: char, to: string)
    requires from !in s
    ensures ReplaceChar(s, from, to) == s
  {
    if s != [] {
      ReplaceAbsent(s[1..], from, to);
      assert [s[0]] + s[1..] == s;
    }
  }

  // ---------------------------------------------------------------------
  // int()

  predicate IsDigit(c: char) { '0' <= c <= '9' }

  function DigitValue(c: char): nat
    requires IsDigit(c)
  {
    c as int - '0' as int
  }

  function DigitChar(d: nat): (c: char)
    requires d < 10
    ensures IsDigit(c) && DigitValue(c) == d
  {
    ('0' as int + d) as char
  }

  /** The value of a decimal numeral with single underscores between digits,
      as `int()` in base 10 accepts it; None for anything else. */
  function NumeralValue(s: string): Option<nat>
  {
    if s == [] || !IsDigit(s[|s| - 1]) then None
    else if |s| == 1 then Some(DigitValue(s[0]))
    else
      var d := DigitValue(s[|s| - 1]);
      var rest := if s[|s| - 2] == '_' then s[..|s| - 2] else s[..|s| - 1];
      match NumeralValue(rest)
      case None => None
      case Some(v) => Some(10 * v + d)
  }

  /** The whitespace `int()` trims: the ASCII characters " \t\n\v\f\r", and the
      non-ASCII characters `str.isspace()` accepts, which `int()` first turns into ' '.
      The ASCII separators U+001C..U+001F are whitespace to `strip()` but not here. */
  predicate IsIntSpace(c: char)
  {
    if c as int < 127 then c == ' ' || '\t' <= c <= '\r' else IsSpace(c)
  }

  /** The end of the run of `int()` whitespace that starts at `i`. */
  function IntSpaceRunEnd(s: string, i: nat): (r: nat)
    requires i <= |s|
    ensures i <= r <= |s|
    ensures forall k :: i <= k < r ==> IsIntSpace(s[k])
    ensures r == |s| || !IsIntSpace(s[r])
    decreases |s| - i
  {
    if i < |s| && IsIntSpace(s[i]) then IntSpaceRunEnd(s, i + 1) else i
  }

  /** The start of the run of `int()` whitespace that ends just before `j`. */
  function IntSpaceRunStart(s: string, j: nat): (r: nat)
    requires j <= |s|
    ensures r <= j
    ensures forall k :: r <= k < j ==> IsIntSpace(s[k])
    ensures r == 0 || !IsIntSpace(s[r - 1])
  {
    if j > 0 && IsIntSpace(s[j - 1]) then IntSpaceRunStart(s, j - 1) else j
  }

  /** The text `int()` reads once the whitespace it allows around a numeral is gone:
      a slice of `s`, empty or without that whitespace at either end. */
  function IntStrip(s: string): (r: string)
    ensures r == [] || (!IsIntSpace(r[0]) && !IsIntSpace(r[|r| - 1]))
    ensures forall c :: c in r ==> c in s
  {
    var lo := IntSpaceRunEnd(s, 0);
    if lo == |s| then []
    else
      var hi := IntSpaceRunStart(s, |s|);
      assert lo < hi;
      s[lo..hi]
  }

  lemma IntStripTrimmed(s: string)
    requires s != [] && !IsIntSpace(s[0]) && !IsIntSpace(s[|s| - 1])
    ensures IntStrip(s) == s
  {
    assert IntSpaceRunEnd(s, 0) == 0;
    assert IntSpaceRunStart(s, |s|) == |s|;
    assert s[0..|s|] == s;
  }

  /** The default of `sys.get_int_max_str_digits()`: `int()` refuses a decimal numeral
      with more digits than this. */
  const MaxStrDigits: nat := 4300

  /** The number of decimal digits in `s`. */
  function DigitCount(s: string): (n: nat)
    ensures n <= |s|
  {
    if s == [] then 0 else (if IsDigit(s[0]) then 1 else 0) + DigitCount(s[1..])
  }

  /** `int(s)` in base 10 over ASCII digits: `int()` whitespace around an optional sign
      and a numeral of at most `MaxStrDigits` digits; None where Python raises
      `ValueError`. */
  function ParseInt(s: string): Option<int>
  {
    var t := IntStrip(s);
    var signed := t != [] && (t[0] == '-' || t[0] == '+');
    var numeral := if signed then t[1..] else t;
    match NumeralValue(numeral)
    case None => None
    case Some(v) =>
      if DigitCount(numeral) > MaxStrDigits then None
      else
        var x: int := if signed && t[0] == '-' then -(v as int) else v;
        Some(x)
  }

  /** `str(n)` for a natural number. */
  function ShowNat(n: nat): (r: string)
    ensures |r| >= 1
    ensures forall i :: 0 <= i < |r| ==> IsDigit(r[i])
  {
    if n < 10 then [DigitChar(n)] else ShowNat(n / 10) + [DigitChar(n % 10)]
  }

  /** `str(n)`. */
  function ShowInt(n: int): string
  {
    if n < 0 then "-" + ShowNat(-n) else ShowNat(n)
  }

  lemma {:induction false} NumeralOfShowNat(n: nat)
    ensures NumeralValue(ShowNat(n)) == Some(n)
  {
    if n >= 10 {
      NumeralOfShowNat(n / 10);
      var s := ShowNat(n);
      assert s[..|s| - 1] == ShowNat(n / 10);
      assert IsDigit(s[|s| - 2]);
    }
  }

  /** A text of digits alone has one digit per character. */
  lemma {:induction false} DigitCountAll(s: string)
    requires forall i :: 0 <= i < |s| ==> IsDigit(s[i])
    ensures DigitCount(s) == |s|
  {
    if s != [] {
      DigitCountAll(s[1..]);
    }
  }

  /** `int(str(n)) == n` for every integer whose numeral is within the digit limit
      (beyond it `str(n)` raises as well). */
  lemma ParseShowInt(n: int)
    requires |ShowNat(if n < 0 then -n else n)| <= MaxStrDigits
    ensures ParseInt(ShowInt(n)) == Some(n)
  {
    var s := ShowInt(n);
    var digits := if n < 0 then -n else n;
    NumeralOfShowNat(digits);
    DigitCountAll(ShowNat(digits));
    IntStripTrimmed(s);
    if n < 0 {
      assert s[1..] == ShowNat(-n);
    }
  }

  /** `int()` refuses text with no digit in it, such as the empty string or a lone sign. */
  lemma NumeralNeedsDigit(s: string)
    requires forall c :: c in s ==> !IsDigit(c)
    ensures ParseInt(s) == None
  {
    var t := IntStrip(s);
    var numeral := if t != [] && (t[0] == '-' || t[0] == '+') then t[1..] else t;
    if numeral != [] {
      assert numeral[|numeral| - 1] in t;
    }
  }

  /** `int()` refuses a numeral of more than `MaxStrDigits` digits. */
  lemma ParseIntDigitLimit(s: string)
    requires |s| > MaxStrDigits && forall i :: 0 <= i < |s| ==> IsDigit(s[i])
    ensures ParseInt(s) == None
  {
    IntStripTrimmed(s);
    DigitCountAll(s);
  }
}
