/** The question identifier of the exam-data path: the pinyin initials of the first three
    and the last three Chinese characters of a question's stem. The pinyin lookup
    (`lazy_pinyin` with `Style.FIRST_LETTER`) is a parameter: for one character it gives
    the list of strings the library would return. */
module QuestionId {
  import opened Wrappers
  import opened Seqs

  /** `[\u4e00-\u9fa5]`: the CJK unified ideographs the finder looks for. */
  predicate IsHan(c: char) { '\U{4E00}' <= c <= '\U{9FA5}' }

  /** `get_chinese_chars`: `re.findall` of one such character, in text order. */
  function ChineseChars(text: string): (r: string)
    ensures forall i :: 0 <= i < |r| ==> IsHan(r[i])
    ensures |r| <= |text|
  {
    if text == [] then []
    else ChineseChars(text[..|text| - 1]) + (if IsHan(text[|text| - 1]) then [text[|text| - 1]] else [])
  }

  /** It keeps exactly the Chinese characters of the text, and is empty exactly when there is none. */
  lemma {:induction false} ChineseCharsMembers(text: string)
    ensures forall c :: c in ChineseChars(text) <==> c in text && IsHan(c)
    ensures ChineseChars(text) == [] <==> forall i :: 0 <= i < |text| ==> !IsHan(text[i])
  {
    if text != [] {
      var init := text[..|text| - 1];
      ChineseCharsMembers(init);
      assert text == init + [text[|text| - 1]];
      forall i | 0 <= i < |init|
        ensures init[i] == text[i]
      {
      }
    }
  }

  /** The characters found in two pieces are those of the first, then those of the second. */
  lemma {:induction false} ChineseCharsConcat(a: string, b: string)
    ensures ChineseChars(a + b) == ChineseChars(a) + ChineseChars(b)
    decreases |b|
  {
    if b == [] {
      assert a + b == a;
    } else {
      var init := b[..|b| - 1];
      assert (a + b)[..|a + b| - 1] == a + init;
      ChineseCharsConcat(a, init);
    }
  }

  /** One character's contribution: the first initial `lazy_pinyin` gives, or the character itself. */
  function InitialOf(pinyin: char -> seq<string>, c: char): (r: string)
    ensures r in pinyin(c) || r == [c]
  {
    var py := pinyin(c);
    if |py| > 0 then py[0] else [c]
  }

  /** `get_pinyin_initials`: the contributions of the characters, in order. */
  function Initials(pinyin: char -> seq<string>, chars: string): string
  {
    ConcatMap((c: char) => InitialOf(pinyin, c), chars)
  }

  lemma InitialsConcat(pinyin: char -> seq<string>, a: string, b: string)
    ensures Initials(pinyin, a + b) == Initials(pinyin, a) + Initials(pinyin, b)
  {
    ConcatMapAppend((c: char) => InitialOf(pinyin, c), a, b);
  }

  lemma InitialsSnoc(pinyin: char -> seq<string>, chars: string, i: nat)
    requires i < |chars|
    ensures Initials(pinyin, chars[..i + 1]) == Initials(pinyin, chars[..i]) + InitialOf(pinyin, chars[i])
  {
    assert chars[..i + 1][..i] == chars[..i];
  }

  /** A lookup that gives every Chinese character one initial letter. */
  predicate SingleLetters(pinyin: char -> seq<string>)
  {
    forall c :: IsHan(c) ==> |pinyin(c)| > 0 && |pinyin(c)[0]| == 1
  }

  /** The lookup gives each of these characters one initial letter. */
  predicate LettersFor(pinyin: char -> seq<string>, chars: string)
  {
    forall i {:trigger pinyin(chars[i])} :: 0 <= i < |chars| ==> |pinyin(chars[i])| > 0 && |pinyin(chars[i])[0]| == 1
  }

  /** With one letter per Chinese character, the initials of Chinese characters are one
      letter each, in order. */
  lemma {:induction false} InitialsLetters(pinyin: char -> seq<string>, chars: string)
    requires LettersFor(pinyin, chars)
    ensures |Initials(pinyin, chars)| == |chars|
    ensures forall i :: 0 <= i < |chars| ==> Initials(pinyin, chars)[i] == pinyin(chars[i])[0][0]
  {
    if chars != [] {
      var init := chars[..|chars| - 1];
      InitialsLetters(pinyin, init);
      var r := Initials(pinyin, chars);
      forall i | 0 <= i < |chars|
        ensures r[i] == pinyin(chars[i])[0][0]
      {
        if i < |init| {
          assert chars[i] == init[i];
        }
      }
    }
  }

  /** Lines 129-138. */
  method GetPinyinInitials(pinyin: char -> seq<string>, charList: string) returns (result: string)
    ensures result == Initials(pinyin, charList)
  {
    result := "";
    for i := 0 to |charList|
      invariant result == Initials(pinyin, charList[..i])
    {
      InitialsSnoc(pinyin, charList, i);
      var py := pinyin(charList[i]);
      if |py| > 0 {
        result := result + py[0];
      } else {
        result := result + [charList[i]];
      }
    }
    assert charList[..|charList|] == charList;
  }

  // ---------------------------------------------------------------------
  // The stem

  /** One of the five alternatives of the pattern at line 145 starts at position i. */
  predicate MarkerAt(text: string, i: nat)
    requires i <= |text|
  {
    var t := text[i..];
    "A)" <= t || "A." <= t || "正确答案" <= t || "你的答案" <= t || "本题得分" <= t
  }

  /** `split_pattern.search(text)` from position `from`: the leftmost position where a marker starts. */
  function FirstMarker(text: string, from: nat): (r: Option<nat>)
    requires from <= |text|
    ensures r.Some? ==> from <= r.value < |text| && MarkerAt(text, r.value)
    ensures r.Some? ==> forall j :: from <= j < r.value ==> !MarkerAt(text, j)
    ensures r.None? ==> forall j :: from <= j <= |text| ==> !MarkerAt(text, j)
    decreases |text| - from
  {
    if from == |text| then None
    else if MarkerAt(text, from) then Some(from)
    else FirstMarker(text, from + 1)
  }

  /** Lines 145-150: the text before the first marker, or all of it. */
  function Stem(text: string): (r: string)
    ensures r <= text
  {
    match FirstMarker(text, 0)
    case Some(i) => text[..i]
    case None => text
  }

  /** A marker inside a prefix of the text is a marker of the text. */
  lemma MarkerInPrefix(text: string, i: nat, j: nat)
    requires j <= i <= |text| && MarkerAt(text[..i], j)
    ensures MarkerAt(text, j)
  {
    var t, u := text[..i][j..], text[j..];
    assert t == u[..i - j];
  }

  /** The stem has no marker left in it, so cutting it again changes nothing. */
  lemma StemIdempotent(text: string)
    ensures Stem(Stem(text)) == Stem(text)
  {
    match FirstMarker(text, 0)
    case None =>
    case Some(i) =>
      var s := text[..i];
      forall j | 0 <= j <= |s|
        ensures !MarkerAt(s, j)
      {
        if MarkerAt(s, j) {
          MarkerInPrefix(text, i, j);
        }
      }
  }

  /** The stem is a prefix of the text, and only a marker makes it shorter than the text. */
  lemma StemPrefix(text: string)
    ensures Stem(text) <= text
    ensures |Stem(text)| < |text| ==> MarkerAt(text, |Stem(text)|)
  {
  }

  // ---------------------------------------------------------------------
  // The identifier

  function Min(a: nat, b: nat): nat { if a < b then a else b }

  /** `generate_id`. */
  function GenerateId(pinyin: char -> seq<string>, questionText: string): string
  {
    var cn := ChineseChars(Stem(questionText));
    if cn == [] then "NULL"
    else
      var k := Min(3, |cn|);
      Initials(pinyin, cn[..k]) + Initials(pinyin, cn[|cn| - k..])
  }

  /** "NULL" when no Chinese character comes before the first marker, whatever follows it. */
  lemma GenerateIdNull(pinyin: char -> seq<string>, questionText: string)
    requires forall i :: 0 <= i < |Stem(questionText)| ==> !IsHan(Stem(questionText)[i])
    ensures GenerateId(pinyin, questionText) == "NULL"
  {
    ChineseCharsMembers(Stem(questionText));
  }

  /** Only the stem matters: the identifier of the stem alone is the same. */
  lemma GenerateIdOfStem(pinyin: char -> seq<string>, questionText: string)
    ensures GenerateId(pinyin, Stem(questionText)) == GenerateId(pinyin, questionText)
  {
    StemIdempotent(questionText);
  }

  /** With one initial letter per Chinese character, the identifier has two to six
      letters, and it is "NULL" exactly when the stem has no Chinese character. */
  lemma GenerateIdShape(pinyin: char -> seq<string>, questionText: string)
    requires SingleLetters(pinyin)
    ensures var cn := ChineseChars(Stem(questionText));
      cn != [] ==> |GenerateId(pinyin, questionText)| == 2 * Min(3, |cn|)
    ensures GenerateId(pinyin, questionText) == "NULL" <==>
      forall i :: 0 <= i < |Stem(questionText)| ==> !IsHan(Stem(questionText)[i])
  {
    var stem := Stem(questionText);
    var cn := ChineseChars(stem);
    assert cn == [] <==> forall i :: 0 <= i < |stem| ==> !IsHan(stem[i]) by {
      ChineseCharsMembers(stem);
    }
    if cn != [] {
      assert LettersFor(pinyin, cn) by { HanLetters(pinyin, cn); }
      IdLetters(pinyin, cn);
    }
  }

  /** An identifier other than "NULL" comes from a text with a Chinese character in it. */
  lemma GenerateIdHasHan(pinyin: char -> seq<string>, questionText: string)
    requires GenerateId(pinyin, questionText) != "NULL"
    ensures exists i :: 0 <= i < |questionText| && IsHan(questionText[i])
  {
    var stem := Stem(questionText);
    ChineseCharsMembers(stem);
    var j :| 0 <= j < |stem| && IsHan(stem[j]);
    assert questionText[j] == stem[j];
  }

  /** A lookup with one letter per Chinese character has one letter for each of these. */
  lemma HanLetters(pinyin: char -> seq<string>, cn: string)
    requires SingleLetters(pinyin) && forall i :: 0 <= i < |cn| ==> IsHan(cn[i])
    ensures LettersFor(pinyin, cn)
  {
    forall i | 0 <= i < |cn|
      ensures |pinyin(cn[i])| > 0 && |pinyin(cn[i])[0]| == 1
    {
      assert IsHan(cn[i]);
    }
  }

  /** The initials of a piece of the Chinese characters, letter by letter. */
  lemma SliceLetters(pinyin: char -> seq<string>, cn: string, lo: nat, part: string)
    requires LettersFor(pinyin, cn) && lo + |part| <= |cn|
    requires forall i :: 0 <= i < |part| ==> part[i] == cn[lo + i]
    ensures |Initials(pinyin, part)| == |part|
    ensures forall i :: 0 <= i < |part| ==> Initials(pinyin, part)[i] == pinyin(cn[lo + i])[0][0]
  {
    InitialsLetters(pinyin, part);
  }

  /** The two halves of an identifier, with one letter per character: 2k letters, and
      never "NULL" (with two characters the halves are equal, which "NULL" is not). */
  lemma IdLetters(pinyin: char -> seq<string>, cn: string)
    requires LettersFor(pinyin, cn) && cn != []
    ensures var k := Min(3, |cn|);
      var r := Initials(pinyin, cn[..k]) + Initials(pinyin, cn[|cn| - k..]);
      |r| == 2 * k && r != "NULL"
  {
    var k := Min(3, |cn|);
    HeadTail(pinyin, cn, k);
    HalvesNotNull(Initials(pinyin, cn[..k]), Initials(pinyin, cn[|cn| - k..]));
  }

  /** The initials of the first k and of the last k characters, letter by letter; with
      at most three characters both are the initials of all of them. */
  lemma HeadTail(pinyin: char -> seq<string>, cn: string, k: nat)
    requires LettersFor(pinyin, cn) && k == Min(3, |cn|)
    ensures var a, b := Initials(pinyin, cn[..k]), Initials(pinyin, cn[|cn| - k..]);
      && |a| == k && |b| == k
      && (forall i :: 0 <= i < k ==> a[i] == pinyin(cn[i])[0][0])
      && (forall i :: 0 <= i < k ==> b[i] == pinyin(cn[|cn| - k + i])[0][0])
      && (k == 2 ==> a == b)
  {
    var head, tail := cn[..k], cn[|cn| - k..];
    SliceLetters(pinyin, cn, 0, head);
    SliceLetters(pinyin, cn, |cn| - k, tail);
    if k == 2 {
      assert head == cn && tail == cn;
    }
  }

  /** Two halves of equal length are never "NULL": with two letters each they would be
      equal, and "NULL" is not a word repeated. */
  lemma HalvesNotNull(a: string, b: string)
    requires |a| == |b| && (|a| == 2 ==> a == b)
    ensures a + b != "NULL"
  {
    if |a| == 2 {
      assert (a + b)[0] == (a + b)[2];
    }
  }
}
