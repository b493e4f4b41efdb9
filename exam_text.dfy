/** The text helpers of the exam-data path: `clean_text`, which flattens a multi-line
    answer to one line, and `parse_options`, which reads the lettered options of a
    question block into a map from letter to option text. */
module ExamText {
  import opened Wrappers
  import opened PyStr

  /** Lines 167-172. */
  function CleanText(text: string): string
  {
    if text == [] then ""
    else Strip(ReplaceChar(ReplaceChar(text, '\n', " "), '\r', ""))
  }

  /** The cleaned text is one line: no line feed, no carriage return, no whitespace at
      either end. */
  lemma CleanTextShape(text: string)
    ensures var r := CleanText(text);
      && '\n' !in r && '\r' !in r
      && (r == [] || (!IsSpace(r[0]) && !IsSpace(r[|r| - 1])))
  {
    if text != [] {
      var u := ReplaceChar(text, '\n', " ");
      var t := ReplaceChar(u, '\r', "");
      assert '\n' !in t && '\r' !in t;
      StripShape(t);
      StripMembers(t);
    }
  }

  /** Cleaning twice is cleaning once. */
  lemma CleanTextIdempotent(text: string)
    ensures CleanText(CleanText(text)) == CleanText(text)
  {
    var r := CleanText(text);
    CleanTextShape(text);
    if r != [] {
      ReplaceAbsent(r, '\n', " ");
      ReplaceAbsent(r, '\r', "");
      StripTrimmed(r);
    }
  }

  /** Cleaning only removes whitespace: the other characters all stay, in order. */
  lemma CleanTextKeepsText(text: string)
    ensures NonSpace(CleanText(text)) == NonSpace(text)
  {
    if text != [] {
      var u := ReplaceChar(text, '\n', " ");
      var t := ReplaceChar(u, '\r', "");
      ReplaceNonSpace(text, '\n', " ");
      ReplaceNonSpace(u, '\r', "");
      StripNonSpace(t);
    }
  }

  /** A text that is already one trimmed line comes back unchanged. */
  lemma CleanTextUnchanged(text: string)
    requires '\n' !in text && '\r' !in text
    requires text == [] || (!IsSpace(text[0]) && !IsSpace(text[|text| - 1]))
    ensures CleanText(text) == text
  {
    if text != [] {
      ReplaceAbsent(text, '\n', " ");
      ReplaceAbsent(text, '\r', "");
      StripTrimmed(text);
    }
  }

  /** Two lines joined by a line feed, or by a carriage return and a line feed, become
      one line with a single space between them. */
  lemma CleanTextJoinsLines(a: string, eol: string, b: string)
    requires eol == "\n" || eol == "\r\n"
    requires '\n' !in a && '\r' !in a && '\n' !in b && '\r' !in b
    requires a != [] && b != [] && !IsSpace(a[0]) && !IsSpace(b[|b| - 1])
    ensures CleanText(a + eol + b) == a + " " + b
  {
    var text := a + eol + b;
    ReplaceConcat(a + eol, b, '\n', " ");
    ReplaceConcat(a, eol, '\n', " ");
    ReplaceAbsent(a, '\n', " ");
    ReplaceAbsent(b, '\n', " ");
    var spaced := if eol == "\n" then " " else "\r ";
    assert ReplaceChar("\n", '\n', " ") == " " + ReplaceChar([], '\n', " ");
    if eol == "\r\n" {
      assert eol[1..] == "\n";
      assert ReplaceChar(eol, '\n', " ") == ['\r'] + ReplaceChar("\n", '\n', " ");
    }
    assert ReplaceChar(eol, '\n', " ") == spaced;
    var u := a + spaced + b;
    assert ReplaceChar(text, '\n', " ") == u;
    ReplaceConcat(a + spaced, b, '\r', "");
    ReplaceConcat(a, spaced, '\r', "");
    ReplaceAbsent(a, '\r', "");
    ReplaceAbsent(b, '\r', "");
    assert ReplaceChar(" ", '\r', "") == " " + ReplaceChar([], '\r', "");
    if eol == "\r\n" {
      assert spaced[1..] == " ";
      assert ReplaceChar(spaced, '\r', "") == "" + ReplaceChar(" ", '\r', "");
    }
    assert ReplaceChar(spaced, '\r', "") == " ";
    var line := a + " " + b;
    assert ReplaceChar(u, '\r', "") == line;
    assert line[0] == a[0] && line[|line| - 1] == b[|b| - 1];
    StripTrimmed(line);
  }

  // ---------------------------------------------------------------------
  // parse_options

  /** The letter and the stripped text of an option line. */
  datatype OptionLine = OptionLine(letter: char, content: string)

  /** The number of whitespace characters a line starts with: what `^\s*` matches. */
  function LeadingSpaces(s: string): (k: nat)
    ensures k <= |s| && (forall i :: 0 <= i < k ==> IsSpace(s[i])) && (k == |s| || !IsSpace(s[k]))
  {
    SpaceRunEnd(s, 0)
  }

  predicate IsOptionLetter(c: char) { 'A' <= c <= 'Z' }

  /** `line_pattern.match(line)` for `^\s*([A-Z])[\.\)]\s*(.*)`, then the stripped
      second group; None where the line does not match. */
  function MatchOption(line: string): Option<OptionLine>
  {
    var k := LeadingSpaces(line);
    if k + 2 <= |line| && IsOptionLetter(line[k]) && (line[k + 1] == '.' || line[k + 1] == ')') then
      Some(OptionLine(line[k], Strip(line[k + 2..])))
    else None
  }

  /** An option line is read as its letter and its stripped text, whatever whitespace
      precedes the letter. */
  lemma MatchOptionOf(ws: string, letter: char, mark: char, rest: string)
    requires AllSpace(ws) && IsOptionLetter(letter) && (mark == '.' || mark == ')')
    ensures MatchOption(ws + [letter, mark] + rest) == Some(OptionLine(letter, Strip(rest)))
  {
    var line := ws + [letter, mark] + rest;
    LeadingOf(ws, [letter, mark] + rest);
    assert line == ws + ([letter, mark] + rest);
    assert line[|ws| + 2..] == rest;
  }

  /** A line that matches is of that form. */
  lemma MatchOptionShape(line: string)
    requires MatchOption(line).Some?
    ensures var o := MatchOption(line).value; var k := LeadingSpaces(line);
      && k + 2 <= |line| && (forall i :: 0 <= i < k ==> IsSpace(line[i]))
      && IsOptionLetter(o.letter) && line[k] == o.letter
      && (line[k + 1] == '.' || line[k + 1] == ')')
      && o.content == Strip(line[k + 2..])
  {
  }

  lemma LeadingOf(ws: string, rest: string)
    requires AllSpace(ws) && rest != [] && !IsSpace(rest[0])
    ensures LeadingSpaces(ws + rest) == |ws|
  {
    var t := ws + rest;
    assert t[|ws|] == rest[0];
  }

  /** What `line_pattern` makes of each line. */
  function Matches(lines: seq<string>): (ms: seq<Option<OptionLine>>)
    ensures |ms| == |lines|
    ensures forall i :: 0 <= i < |lines| ==> ms[i] == MatchOption(lines[i])
  {
    seq(|lines|, i requires 0 <= i < |lines| => MatchOption(lines[i]))
  }

  /** The map after the matches in order, each one overwriting its letter's entry. */
  function Collect(ms: seq<Option<OptionLine>>): map<char, string>
  {
    if ms == [] then map[]
    else
      var m := Collect(ms[..|ms| - 1]);
      match ms[|ms| - 1]
      case Some(o) => m[o.letter := o.content]
      case None => m
  }

  /** A letter has an entry exactly when some line is an option line for it. */
  lemma {:induction false} CollectKeys(ms: seq<Option<OptionLine>>, c: char)
    ensures c in Collect(ms) <==> exists i :: 0 <= i < |ms| && ms[i].Some? && ms[i].value.letter == c
  {
    if ms != [] {
      var init := ms[..|ms| - 1];
      CollectKeys(init, c);
      forall i | 0 <= i < |init|
        ensures init[i] == ms[i]
      {
      }
    }
  }

  /** The last option line for a letter wins: its text is the letter's entry. */
  lemma {:induction false} CollectLast(ms: seq<Option<OptionLine>>, i: nat)
    requires i < |ms| && ms[i].Some?
    requires forall j :: i < j < |ms| ==> ms[j].None? || ms[j].value.letter != ms[i].value.letter
    ensures ms[i].value.letter in Collect(ms) && Collect(ms)[ms[i].value.letter] == ms[i].value.content
  {
    var init := ms[..|ms| - 1];
    if i < |ms| - 1 {
      assert init[i] == ms[i];
      forall j | i < j < |init|
        ensures init[j] == ms[j]
      {
      }
      CollectLast(init, i);
    }
  }

  lemma CollectStep(ms: seq<Option<OptionLine>>, i: nat)
    requires i < |ms|
    ensures Collect(ms[..i + 1]) ==
      match ms[i]
      case Some(o) => Collect(ms[..i])[o.letter := o.content]
      case None => Collect(ms[..i])
  {
    assert ms[..i + 1][..i] == ms[..i];
  }

  /** Lines 175-208. The `current_opt` bookkeeping of the source and its empty
      continuation branch leave the map unchanged, so they have no counterpart here. */
  method ParseOptions(blockText: string) returns (options: map<char, string>)
    ensures options == Collect(Matches(Split(blockText, '\n', -1)))
  {
    options := map[];
    var lines := Split(blockText, '\n', -1);
    ghost var ms := Matches(lines);
    for i := 0 to |lines|
      invariant options == Collect(ms[..i])
    {
      var m := MatchOption(lines[i]);
      CollectStep(ms, i);
      assert ms[i] == m;
      if m.Some? {
        options := options[m.value.letter := m.value.content];
      }
    }
    assert ms[..|lines|] == ms;
  }
}
