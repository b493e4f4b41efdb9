/** The table reader of `gen_msudp_from_file`: each input line "code order word" becomes
    one record, blank and short lines are skipped, and a non-numeric order becomes 1.
    The lines are given as the sequence that iterating over the opened file yields. */
module TableParse {
  import opened Wrappers
  import opened Bytes
  import opened PyStr
  import opened Seqs
  import opened Msudp
  import MsudpWriter

  /** The order a record gets from its second field: `int(field)`, or 1 where that raises. */
  function OrderOf(field: string): int
  {
    match ParseInt(field)
    case Some(v) => v
    case None => 1
  }

  /** The body of the loop at lines 18-34 for one line: None where it `continue`s. */
  function ParseLine(line: string): (r: Option<Entry>)
    ensures r.Some? ==> ' ' !in r.value.code
  {
    var s := Strip(line);
    if s == [] then None
    else
      var parts := Split(s, ' ', 2);
      SplitParts(s, ' ', 2);
      if |parts| < 3 then None
      else Some(Entry(parts[2], parts[0], OrderOf(parts[1])))
  }

  /** The records of `lines`, in line order. */
  function ParseAll(lines: seq<string>): seq<Entry>
  {
    ConcatMap(Records, lines)
  }

  /** The records one line contributes: none or one. */
  function Records(line: string): (r: seq<Entry>)
    ensures |r| <= 1
  {
    match ParseLine(line)
    case Some(e) => [e]
    case None => []
  }

  /** A line is skipped exactly when, once stripped, it holds fewer than two spaces
      (which covers the blank line). */
  lemma ParseLineSkips(line: string)
    ensures ParseLine(line).None? <==> multiset(Strip(line))[' '] < 2
  {
    var s := Strip(line);
    SplitParts(s, ' ', 2);
    if s == [] {
      assert multiset(s)[' '] == 0;
    }
  }

  /** A kept line is code, one space, the order field, one space and the word: the
      code and the order field hold no space, the word keeps every later one. */
  lemma ParseLineShape(line: string)
    requires ParseLine(line).Some?
    ensures var e := ParseLine(line).value;
      exists field :: ' ' !in e.code && ' ' !in field && e.order == OrderOf(field)
        && Strip(line) == e.code + " " + field + " " + e.word
  {
    var s := Strip(line);
    var parts := Split(s, ' ', 2);
    SplitParts(s, ' ', 2);
    JoinSplit(s, ' ', 2);
    JoinThree(parts, ' ');
    var e := ParseLine(line).value;
    assert e.code == parts[0] && e.word == parts[2] && e.order == OrderOf(parts[1]);
    assert ' ' !in parts[1] && s == e.code + " " + parts[1] + " " + e.word;
  }

  lemma JoinThree(parts: seq<string>, sep: char)
    requires |parts| == 3
    ensures Join(parts, sep) == parts[0] + [sep] + parts[1] + [sep] + parts[2]
  {
    var t := parts[1..];
    assert t[1..] == [parts[2]];
    assert Join(t, sep) == parts[1] + [sep] + parts[2];
    assert Join(parts, sep) == parts[0] + [sep] + (parts[1] + [sep] + parts[2]);
  }

  /** Conversely, a stripped line of that form is read as the record it spells. */
  lemma ParseLineOf(line: string, code: string, field: string, word: string)
    requires ' ' !in code && ' ' !in field
    requires Strip(line) == code + " " + field + " " + word
    ensures ParseLine(line) == Some(Entry(word, code, OrderOf(field)))
  {
    SplitThree(code, field, word);
  }

  lemma SplitThree(code: string, field: string, word: string)
    requires ' ' !in code && ' ' !in field
    ensures Split(code + " " + field + " " + word, ' ', 2) == [code, field, word]
  {
    var rest := field + " " + word;
    assert code + " " + field + " " + word == code + " " + rest;
    SplitFirst(code, rest, 2);
    SplitFirst(field, word, 1);
    SplitWhole(word, ' ', 0);
  }

  /** Splitting at a first space that follows `a`. */
  lemma SplitFirst(a: string, b: string, maxsplit: nat)
    requires ' ' !in a && maxsplit > 0
    ensures Split(a + " " + b, ' ', maxsplit) == [a] + Split(b, ' ', maxsplit - 1)
  {
    var s := a + " " + b;
    FindFirst(a, b);
    SplitStep(s, ' ', maxsplit, |a|);
    assert s[..|a|] == a && s[|a| + 1..] == b;
  }

  /** The first space of `a + " " + b` is the one after `a`, when `a` has none. */
  lemma FindFirst(a: string, b: string)
    requires ' ' !in a
    ensures Find(a + " " + b, ' ') == Some(|a|)
  {
    var s := a + " " + b;
    if |a| > 0 {
      assert s[1..] == a[1..] + " " + b;
      FindFirst(a[1..], b);
    }
  }

  /** Records keep their input order: reading two blocks of lines reads the first
      block, then the second. */
  lemma ParseAllConcat(a: seq<string>, b: seq<string>)
    ensures ParseAll(a + b) == ParseAll(a) + ParseAll(b)
  {
    ConcatMapAppend(Records, a, b);
  }

  /** Each line gives at most one record. */
  lemma {:induction false} ParseAllLength(lines: seq<string>)
    ensures |ParseAll(lines)| <= |lines|
  {
    if lines != [] {
      ParseAllLength(lines[..|lines| - 1]);
      assert ParseAll(lines) == ParseAll(lines[..|lines| - 1]) + Records(lines[|lines| - 1]);
    }
  }

  lemma ParseAllSnoc(lines: seq<string>, i: nat)
    requires i < |lines|
    ensures ParseAll(lines[..i + 1]) == ParseAll(lines[..i]) + Records(lines[i])
  {
    assert lines[..i + 1][..i] == lines[..i];
  }

  /** Lines 15-34: the loop that fills `table`. */
  method ReadTable(lines: seq<string>) returns (table: seq<Entry>)
    ensures table == ParseAll(lines)
  {
    table := [];
    for i := 0 to |lines|
      invariant table == ParseAll(lines[..i])
    {
      ParseAllSnoc(lines, i);
      var line := Strip(lines[i]);
      if line == [] {
        continue;
      }
      var parts := Split(line, ' ', 2);
      if |parts| < 3 {
        continue;
      }
      var code := parts[0];
      var order := 1;
      var parsed := ParseInt(parts[1]);
      if parsed.Some? {
        order := parsed.value;
      }
      var word := parts[2];
      table := table + [Entry(word, code, order)];
    }
    assert lines[..|lines|] == lines;
  }

  /** `gen_msudp_from_file` over the lines of the file, with the clock reading `stamp`. */
  method GenMsudpFromLines(lines: seq<string>, stamp: u32) returns (r: Result<seq<byte>, EncodeError>)
    ensures r == Encode(ParseAll(lines), stamp)
  {
    var table := ReadTable(lines);
    r := MsudpWriter.GenMsudp(table, stamp);
  }
}
