/** Worked instances of the general results: the sizes of small containers, a rejected
    order byte, one input line of the documented form, and two question identifiers. */
module Scenarios {
  import opened Wrappers
  import opened Bytes
  import opened Utf16
  import opened PyStr
  import opened Msudp
  import opened MsudpLayout
  import opened MsudpReader
  import opened TableParse
  import opened QuestionId

  /** An empty table packs to the 68-byte prefix alone, and reads back as empty. */
  lemma EmptyTable(stamp: u32)
    ensures Encode([], stamp).Success?
    ensures |Encode([], stamp).value| == 68
    ensures Decode(Encode([], stamp).value) == Success([])
  {
    var ds := EncodeTexts([]);
    assert ds == [];
    PackSucceedsIff(ds, stamp);
    PackLength(ds, stamp);
    DecodeOfEncode([], stamp);
  }

  lemma Utf16Ai()
    ensures Utf16LE("ai") == [0x61, 0x00, 0x69, 0x00]
    ensures Utf16LE("爱") == [0x31, 0x72]
  {
  }

  /** "爱" typed as "ai": 68 bytes, one body of 4 + 2 + 20 bytes, 94 in all, and the
      body starts at 0x44 with the word offset 22 = 4 + 18 and the order byte. */
  lemma OneWord(stamp: u32)
    ensures Encode([Entry("爱", "ai", 1)], stamp).Success?
    ensures var b := Encode([Entry("爱", "ai", 1)], stamp).value;
      && |b| == 94
      && b[0x44..0x4C] == [0x10, 0x00, 0x10, 0x00, 0x16, 0x00, 0x01, 0x06]
      && b[0x54..0x5E] == [0x61, 0x00, 0x69, 0x00, 0x00, 0x00, 0x31, 0x72, 0x00, 0x00]
  {
    var es := [Entry("爱", "ai", 1)];
    var ds := EncodeTexts(es);
    Utf16Ai();
    assert ds[0] == EncodedEntry([0x31, 0x72], [0x61, 0x00, 0x69, 0x00], 1);
    assert |ds| == 1 && EntryFits(ds[0]) && BodyLength(ds[0]) == 26;
    assert Offset(ds, 1) == 26;
    assert TotalLength(ds) == 94;
    PackSucceedsIff(ds, stamp);
    PackLength(ds, stamp);
    PackBody(ds, stamp, 0);
    var b := Encode(es, stamp).value;
    var body := Body(ds[0], stamp);
    assert b[0x44..0x5E] == body;
    BodyOfAi(ds[0], stamp);
    assert b[0x44..0x4C] == body[..8];
    assert b[0x54..0x5E] == body[16..];
  }

  lemma BodyOfAi(d: EncodedEntry, stamp: u32)
    requires d == EncodedEntry([0x31, 0x72], [0x61, 0x00, 0x69, 0x00], 1)
    ensures EntryFits(d)
    ensures Body(d, stamp)[..8] == [0x10, 0x00, 0x10, 0x00, 0x16, 0x00, 0x01, 0x06]
    ensures Body(d, stamp)[16..] == [0x61, 0x00, 0x69, 0x00, 0x00, 0x00, 0x31, 0x72, 0x00, 0x00]
  {
    BodyFields(d, stamp);
  }

  /** Two entries: slot 1 holds the first body's length, 26, and the container has
      68 + 4 + 26 + 28 = 126 bytes. */
  lemma TwoWords(stamp: u32)
    ensures var es := [Entry("爱", "ai", 1), Entry("你好", "nh", 2)];
      && Encode(es, stamp).Success?
      && |Encode(es, stamp).value| == 126
      && Encode(es, stamp).value[0x44..0x48] == LE32(26)
  {
    var es := [Entry("爱", "ai", 1), Entry("你好", "nh", 2)];
    var ds := EncodeTexts(es);
    Utf16Ai();
    assert Utf16LE("你好") == [0x60, 0x4F, 0x7D, 0x59];
    assert Utf16LE("nh") == [0x6E, 0x00, 0x68, 0x00];
    assert ds[0] == EncodedEntry([0x31, 0x72], [0x61, 0x00, 0x69, 0x00], 1);
    assert ds[1] == EncodedEntry([0x60, 0x4F, 0x7D, 0x59], [0x6E, 0x00, 0x68, 0x00], 2);
    assert EntryFits(ds[0]) && EntryFits(ds[1]);
    assert Offset(ds, 1) == 26 && Offset(ds, 2) == 54 && TotalLength(ds) == 126;
    PackSucceedsIff(ds, stamp);
    PackLength(ds, stamp);
    PackOffsetSlot(ds, stamp, 1);
  }

  /** An order of 256 does not fit `bytes([order, 0x06])`, and the encoder says so. */
  lemma OrderTooLarge(stamp: u32)
    ensures Encode([Entry("爱", "ai", 256)], stamp) == Failure(OrderOutOfRange(0))
  {
    var ds := EncodeTexts([Entry("爱", "ai", 256)]);
    Utf16Ai();
    assert ds[0] == EncodedEntry([0x31, 0x72], [0x61, 0x00, 0x69, 0x00], 256);
  }

  /** The line format the reader documents: "rlzdzy 1 C)劳动" is code "rlzdzy", order 1
      and word "C)劳动". */
  lemma DocumentedLine()
    ensures ParseLine("rlzdzy 1 C)劳动") == Some(Entry("C)劳动", "rlzdzy", 1))
  {
    var line := "rlzdzy 1 C)劳动";
    StripTrimmed(line);
    assert line == "rlzdzy" + " " + "1" + " " + "C)劳动";
    ParseLineOf(line, "rlzdzy", "1", "C)劳动");
    OrderOfOne();
  }

  lemma OrderOfOne()
    ensures OrderOf("1") == 1
  {
    IntStripTrimmed("1");
  }

  lemma OrderOfLetter()
    ensures OrderOf("x") == 1
  {
    IntStripTrimmed("x");
  }

  /** `int()` trims only ASCII whitespace: the information separator U+001C, which
      `str.strip` and `str.split` would treat as whitespace, makes the order field
      non-numeric, so the line gets order 1. */
  lemma SeparatorInOrder()
    ensures ParseLine("ab 5\U{1C} w") == Some(Entry("w", "ab", 1))
  {
    var line := "ab 5\U{1C} w";
    StripTrimmed(line);
    assert line == "ab" + " " + "5\U{1C}" + " " + "w";
    ParseLineOf(line, "ab", "5\U{1C}", "w");
    OrderOfSeparator();
  }

  lemma OrderOfSeparator()
    ensures OrderOf("5\U{1C}") == 1
  {
    IntStripTrimmed("5\U{1C}");
    assert NumeralValue("5\U{1C}").None?;
  }

  /** A non-numeric order field becomes 1, and the word keeps its inner spaces. */
  lemma NonNumericOrder()
    ensures ParseLine("ni x 你 好") == Some(Entry("你 好", "ni", 1))
  {
    var line := "ni x 你 好";
    StripTrimmed(line);
    assert line == "ni" + " " + "x" + " " + "你 好";
    ParseLineOf(line, "ni", "x", "你 好");
    OrderOfLetter();
  }

  /** A line with only two fields is skipped. */
  lemma ShortLine()
    ensures ParseLine("ni 1") == None
  {
    var line := "ni 1";
    StripTrimmed(line);
    assert line == "ni" + " " + "1";
    SplitFirst("ni", "1", 2);
    SplitWhole("1", ' ', 1);
  }

  /** A question whose stem has no Chinese character gets "NULL", however much Chinese
      follows the first marker. */
  lemma MarkerFirst(pinyin: char -> seq<string>)
    ensures GenerateId(pinyin, "A) 正确") == "NULL"
  {
    var text := "A) 正确";
    assert MarkerAt(text, 0);
    assert Stem(text) == "";
    GenerateIdNull(pinyin, text);
  }
}
