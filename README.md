# mschxudp user-phrase writer: a Dafny model

`move_txt_to_dat.py` turns a text list of user phrases ("code order word" per line) into
the binary "mschxudp" container, the user-lexicon format of Microsoft Pinyin. The same
script also has helpers for processing exam questions: it builds an identifier for a
question from the pinyin initials of its Chinese characters, flattens answer text, and
reads the lettered options of a question block.

This project models those pieces and proves that they do what the script intends.

- `Msudp` (msudp.dfy) is the container as a value. `Encode(table, stamp)` is the
  reference definition of `gen_msudp`. It returns either the bytes or the first error
  the source would raise. The layout is: a 16-byte signature, the metadata, a table of
  4-byte cumulative offsets, one body per entry, and the total length patched in at 0x18.
- `MsudpLayout` (msudp_layout.dfy) proves where every field of an encoded container
  sits: the header, the metadata, the patched length, each offset slot and each body.
- `MsudpWriter` (msudp_writer.dfy) is `gen_msudp` as the script writes it. A
  `ByteStream` class stands in for `io.BytesIO`, and each step of the function is a method
  that appends to it. `GenMsudp` is proved equal to `Encode`.
- `MsudpReader` (msudp_reader.dfy) adds a reader that the script does not have.
  `DecodeOfEncode` proves that reading back any encoded container gives the table that
  went in, so the layout loses nothing.
- `Utf16` (utf16.dfy) is UTF-16LE without a byte-order mark, with surrogate pairs above
  U+FFFF, together with its inverse.
- `Bytes` (bytes.dfy) holds the little-endian `struct.pack("<H")` and `struct.pack("<I")`
  fields.
- `PyStr` (pystr.dfy) models the Python `str` operations the script relies on:
  `isspace`, `strip`, `split(sep, maxsplit)`, one-character `replace` and base-10 `int()`.
- `TableParse` (table_parse.dfy) is the line loop of `gen_msudp_from_file` and the
  whole file-to-container path over a sequence of lines.
- `QuestionId` (question_id.dfy) models `get_chinese_chars`, `get_pinyin_initials` and
  `generate_id`.
- `ExamText` (exam_text.dfy) models `clean_text` and `parse_options`.
- `Scenarios` (scenarios.dfy) holds worked instances: the empty table, one and two
  phrases, an order byte that is too large, the documented line format, an order field
  that `int()` does not trim, and a question with no Chinese stem.

Byte counts follow the code. Lines 50-80 write 16 + 52 = 68 bytes before the first
computed offset. The last four of those bytes (line 80) act as offset slot 0, which is
why the value 0x40 at line 74 is where the offset table starts. An empty table therefore
yields 68 bytes. A single phrase 爱 typed as "ai" yields 68 + 26 = 94 bytes.

## Model

| member | source | states |
|---|---|---|
| Bytes.Zeros | move_txt_to_dat.py:76-80 | `b"\x00" * n` is n zero bytes |
| Bytes.LE16 | move_txt_to_dat.py:106 | `struct.pack("<H", v)` is two bytes, low byte first, whose value is v; read back by LE16RoundTrip and ReadLE16At |
| Bytes.LE32 | move_txt_to_dat.py:74-78 | `struct.pack("<I", v)` is four bytes; that they spell v, least significant first, is LE32RoundTrip, and ReadLE32At reads them inside a buffer |
| Bytes.LE16RoundTrip | move_txt_to_dat.py:106 | `struct.pack("<H", v)` is two bytes that read back as v |
| Bytes.LE32RoundTrip | move_txt_to_dat.py:74-78 | `struct.pack("<I", v)` is four bytes that read back as v |
| Bytes.ReadLE32At | move_txt_to_dat.py:118-119 | four bytes inside a buffer that equal LE32(v) read back as v |
| Bytes.ReadLE16At | move_txt_to_dat.py:106 | two bytes inside a buffer that equal LE16(v) read back as v |
| Utf16.CodeUnits | move_txt_to_dat.py:86-87 | a code point takes one 16-bit unit, or a high then a low surrogate above U+FFFF |
| Utf16.CharBytes | move_txt_to_dat.py:86-87 | one character takes two bytes per code unit |
| Utf16.Utf16LE | move_txt_to_dat.py:86-87 | `encode("utf-16le")` yields two bytes per code unit, so at least two per character |
| Utf16.Combine | move_txt_to_dat.py:86-87 | a surrogate pair decodes to a supplementary code point |
| Utf16.CombineSplit | move_txt_to_dat.py:86-87 | joining the pair of a supplementary code point gives it back |
| Utf16.SplitCombine | move_txt_to_dat.py:86-87 | splitting a decoded surrogate pair gives the same pair |
| Utf16.DecodeCons | move_txt_to_dat.py:86-87 | decoding one character's bytes followed by more bytes decodes the character, then the rest |
| Utf16.DecodeEncode | move_txt_to_dat.py:86-87 | decoding the UTF-16LE encoding of any string gives the string back |
| Utf16.EncodeDecode | move_txt_to_dat.py:86-87 | bytes that decode to s are exactly the encoding of s, so the encoding is injective |
| Utf16.DecodeHead | move_txt_to_dat.py:86-87 | the first decoded character is the encoding of the first two bytes, or four for a surrogate pair, and the rest decodes from the bytes after them |
| Utf16.LE16OfRead | move_txt_to_dat.py:86-87 | a 16-bit unit read from two bytes re-encodes to those bytes |
| Utf16.Utf16LEConcat | move_txt_to_dat.py:86-87 | encoding a concatenation is concatenating the encodings |
| Msudp.FirstError | move_txt_to_dat.py:75-118 | the error the source raises first, checked in its order: the table end at line 75, the offset slots at line 98, the length field and order byte of each body at lines 106 and 108, the total length at line 118; specified by NoErrorIff and PackSucceedsIff |
| Msudp.Front | move_txt_to_dat.py:50-75 | the signature and the two offset-table bounds take the 0x18 bytes before the length field |
| Msudp.Back | move_txt_to_dat.py:77-80 | the count, the stamp and the 32 reserved bytes take the 40 bytes after the length field |
| Msudp.OffsetSlots | move_txt_to_dat.py:93-98 | slots 1..m take four bytes each |
| Msudp.OffsetTable | move_txt_to_dat.py:93-98 | `range(len(table) - 1)` writes 4·(n−1) bytes, and none for an empty table |
| Msudp.BodyHead | move_txt_to_dat.py:102-110 | a body's fixed head is 16 bytes |
| Msudp.Body | move_txt_to_dat.py:101-114 | a body is \|code16\| + \|word16\| + 20 bytes long, the length line 96 uses for the offsets |
| Msudp.Bodies | move_txt_to_dat.py:101-114 | bodies 0..k−1 together are exactly as long as the running offset at k |
| Msudp.EncodeTexts | move_txt_to_dat.py:83-90 | `encoded_data` has one entry per record, in order, with both texts in UTF-16LE |
| Msudp.Patch | move_txt_to_dat.py:119 | `result[:0x18] + total_len + result[0x18 + 4:]`; its frame is PatchFrame and its effect on the buffer PatchLayout |
| Msudp.Pack | move_txt_to_dat.py:74-121 | fails exactly when FirstError finds an error, and with that error; on success the output is TotalLength bytes long, below 2³²; its bytes are given by PackIsLayout, PackHeader, PackOffsetSlot and PackBody |
| Msudp.Encode | move_txt_to_dat.py:40-121 | `gen_msudp`: fails exactly when the transcoded table has a first error; on success the output is TotalLength bytes long; see also PackSucceedsIff, PackLength, PackHeader, PackBody, and DecodeOfEncode for the round trip |
| Msudp.OffsetMonotone | move_txt_to_dat.py:93-97 | the running offset grows by at least 20 per entry |
| Msudp.LayoutLength | move_txt_to_dat.py:40-121 | the container is 68 + 4·max(n−1, 0) + Σ body lengths bytes long |
| Msudp.OffsetErrorNone | move_txt_to_dat.py:93-98 | no offset slot overflows exactly when the last running sum fits 32 bits |
| Msudp.BodyErrorNone | move_txt_to_dat.py:101-108 | no body raises exactly when every code length field and order byte fits |
| Msudp.NoErrorIff | move_txt_to_dat.py:75-118 | the source raises at none of its packing sites exactly when the table end, every body field and the total length fit |
| Msudp.PackSucceedsIff | move_txt_to_dat.py:40-121 | encoding succeeds exactly when 0x40 + 4n < 2³², every order is in 0..255 and every \|code16\| + 18 < 2¹⁶, and the total length < 2³² |
| Msudp.NoErrorIsWritable | move_txt_to_dat.py:75-118 | when nothing raises, every field the buffer holds can be packed |
| Msudp.FitUpToIff | move_txt_to_dat.py:101-108 | the recursive "all entries so far fit" predicate is the quantified one |
| MsudpLayout.PatchFrame | move_txt_to_dat.py:119 | the back-patch keeps the length, puts the field at 0x18..0x1B and changes no other byte |
| MsudpLayout.PatchLayout | move_txt_to_dat.py:116-119 | patching the zero placeholder of the buffer gives the container with that field |
| MsudpLayout.PackIsLayout | move_txt_to_dat.py:40-121 | a successful encoding is the layout with LE32(total length) at 0x18 |
| MsudpLayout.LayoutPieces | move_txt_to_dat.py:40-121 | the container is the front, the length field, the metadata tail, the offset table and the bodies, in that order |
| MsudpLayout.FrontFields | move_txt_to_dat.py:50-75 | the front is the signature, LE32(0x40) and LE32(0x40 + 4n) |
| MsudpLayout.BackFields | move_txt_to_dat.py:77-80 | the metadata tail is LE32(n), the stamp, then zeros |
| MsudpLayout.LayoutHeader | move_txt_to_dat.py:50-80 | every header and metadata field sits at its fixed offset, and 0x24..0x43 are zero |
| MsudpLayout.PackHeader | move_txt_to_dat.py:50-119 | the output starts with 6D 73 63 68 78 75 64 70 02 00 60 00 01 00 00 00; 0x10 holds LE32(0x40), 0x14 LE32(0x40 + 4n), 0x18 LE32 of the output's own length, 0x1C LE32(n), 0x20 the stamp; 0x24..0x43 are zero |
| MsudpLayout.PackLength | move_txt_to_dat.py:40-121 | the output is 68 + 4·max(n−1, 0) + Σ(\|code16\| + \|word16\| + 20) bytes long, and exactly 68 for an empty table |
| MsudpLayout.OffsetSlotsAt | move_txt_to_dat.py:93-98 | slot k of the written table holds LE32 of the lengths of bodies 0..k−1 |
| MsudpLayout.LayoutSlots | move_txt_to_dat.py:92-98 | bytes 0x44 up to 0x40 + 4n are the computed slots |
| MsudpLayout.LayoutOffsetSlot | move_txt_to_dat.py:80-98 | slot k at 0x40 + 4k holds the summed lengths of bodies before k; slot 0 holds zero |
| MsudpLayout.SlotZero | move_txt_to_dat.py:80 | slot 0 is the last four reserved zero bytes, so it reads as offset 0 |
| MsudpLayout.SlotInTable | move_txt_to_dat.py:92-98 | slot k, for 0 < k < n, holds LE32 of the running offset k |
| MsudpLayout.PackOffsetSlot | move_txt_to_dat.py:80-98 | in the output, slot k for every k < n holds LE32 of the lengths of bodies 0..k−1, and slot 0 holds zero |
| MsudpLayout.OffsetsIncrease | move_txt_to_dat.py:93-97 | slot values increase by at least 20 per step and stay below the length of all the bodies |
| MsudpLayout.BodiesAt | move_txt_to_dat.py:100-114 | body i sits in the concatenated bodies between the running offsets i and i + 1 |
| MsudpLayout.LayoutBodies | move_txt_to_dat.py:100-114 | everything after the offset table is the bodies, in input order |
| MsudpLayout.LayoutBody | move_txt_to_dat.py:100-114 | body i sits at 0x40 + 4n + offset(i) in the container |
| MsudpLayout.PackBody | move_txt_to_dat.py:100-114 | in the output, body i sits at 0x40 + 4n + slot value i and runs to the next slot value |
| MsudpLayout.BodyHeadFields | move_txt_to_dat.py:102-110 | a body head is 10 00 10 00, LE16(\|code16\| + 18), the order byte, 06, four zeros, the stamp |
| MsudpLayout.BodyFields | move_txt_to_dat.py:101-114 | each body is its head, code16, 00 00, word16, 00 00; its 16-bit field is the word's offset inside the body |
| MsudpWriter.ByteStream.constructor | move_txt_to_dat.py:46 | a new buffer is empty |
| MsudpWriter.ByteStream.Write | move_txt_to_dat.py:50 | `buf.write(bs)` appends bs and nothing else |
| MsudpWriter.WriteHeader | move_txt_to_dat.py:49-80 | writes the signature and the metadata, and stops after two fields exactly when 0x40 + 4n does not fit 32 bits |
| MsudpWriter.EncodeEntries | move_txt_to_dat.py:83-90 | the loop builds the same `encoded_data` as the reference |
| MsudpWriter.WriteOffsets | move_txt_to_dat.py:92-98 | the `offset_sum` loop writes exactly the reference offset table, or reports the first sum that overflows |
| MsudpWriter.BodyWrites | move_txt_to_dat.py:102-114 | the ten writes of one body append the reference body |
| MsudpWriter.WriteBody | move_txt_to_dat.py:102-114 | one turn of the body loop appends the body, or reports the length field or order byte that does not fit |
| MsudpWriter.WriteBodies | move_txt_to_dat.py:100-114 | the body loop appends all bodies in order, or reports the first that raises |
| MsudpWriter.GenMsudp | move_txt_to_dat.py:40-121 | the imperative writer returns exactly `Encode(table, stamp)`: the same bytes, or the same first error |
| MsudpReader.Decode | move_txt_to_dat.py:40-121 | a reader of the container `gen_msudp` writes, which the script itself does not have; its contract is DecodeOfEncode: it inverts Encode on every successful encoding |
| MsudpReader.DecodeBodyOfBody | move_txt_to_dat.py:101-114 | a body reads back as the phrase it was written from |
| MsudpReader.DecodeSlice | move_txt_to_dat.py:101-114 | a slice that equals a body reads back as its phrase |
| MsudpReader.EncodeTextsTranscoded | move_txt_to_dat.py:83-90 | every entry of `encoded_data` is the transcoding of its record |
| MsudpReader.DecodeEntriesOfReadable | move_txt_to_dat.py:93-114 | when every slot marks a readable body, reading the bodies gives the records in order |
| MsudpReader.BodiesPlaced | move_txt_to_dat.py:100-114 | in the written body region, every body from k on sits between the running offsets k and k + 1 |
| MsudpReader.PlacedDecoded | move_txt_to_dat.py:100-114 | bodies written from the transcoded records, each at its running offset, read back as those records |
| MsudpReader.SlotsOfTable | move_txt_to_dat.py:93-98 | each slot read from the written table is the running offset |
| MsudpReader.SlotOfTable | move_txt_to_dat.py:93-98 | slot k, for 0 < k < n, read from the written table is the running offset k |
| MsudpReader.FramedReadable | move_txt_to_dat.py:93-114 | correct slots and correct bodies make every body readable at its slot |
| MsudpReader.LayoutMetadata | move_txt_to_dat.py:74-119 | the signature, the table bounds, the patched length and the count read back from a container; slot 0 reads 0 |
| MsudpReader.LayoutReadable | move_txt_to_dat.py:40-121 | every body of a non-empty container is readable at its slot |
| MsudpReader.DecodeOfEncode | move_txt_to_dat.py:40-121 | reading back any successful encoding gives the table that went in |
| PyStr.SpaceRunEnd | move_txt_to_dat.py:18 | from index i the run of whitespace ends at the first non-whitespace character or at the end |
| PyStr.SpaceRunStart | move_txt_to_dat.py:18 | the run of whitespace before index j starts just after the last non-whitespace character or at 0 |
| PyStr.Strip | move_txt_to_dat.py:18 | `strip()` yields a text that is empty or starts and ends with non-whitespace |
| PyStr.StripShape | move_txt_to_dat.py:18 | `strip()` is the slice that starts after the leading whitespace, everything cut off at either end is whitespace, and it is empty exactly when the text is all whitespace |
| PyStr.StripMembers | move_txt_to_dat.py:18 | stripping only removes characters |
| PyStr.StripTrimmed | move_txt_to_dat.py:18 | a text with no whitespace at either end strips to itself |
| PyStr.StripIdempotent | move_txt_to_dat.py:18 | stripping twice is stripping once |
| PyStr.Find | move_txt_to_dat.py:23 | the index of the first occurrence, or none when the character is absent |
| PyStr.Split | move_txt_to_dat.py:23 | `split` always yields at least one part |
| PyStr.JoinSplit | move_txt_to_dat.py:23 | joining the parts with the separator gives the text back |
| PyStr.SplitParts | move_txt_to_dat.py:23 | no part but the last holds the separator, and there are 1 + min(separators, maxsplit) parts |
| PyStr.CountAfterFind | move_txt_to_dat.py:23 | the first separator is one occurrence, and the others all lie after it |
| PyStr.ReplaceChar | move_txt_to_dat.py:172 | every occurrence is gone when the replacement lacks it, and no other character appears |
| PyStr.ReplaceAbsent | move_txt_to_dat.py:172 | replacing an absent character changes nothing |
| PyStr.DigitChar | move_txt_to_dat.py:29 | the character of a digit value is a digit with that value |
| PyStr.ShowNat | move_txt_to_dat.py:29 | the decimal numeral of a natural number is non-empty and all digits |
| PyStr.NumeralOfShowNat | move_txt_to_dat.py:29 | a decimal numeral's value is the number it was written from |
| PyStr.IntSpaceRunEnd | move_txt_to_dat.py:29 | from index i the run of characters `int()` trims ends at the first other character or at the end |
| PyStr.IntSpaceRunStart | move_txt_to_dat.py:29 | the run of characters `int()` trims before index j starts just after the last other character or at 0 |
| PyStr.IntStrip | move_txt_to_dat.py:29 | `int()` trims ASCII whitespace and the non-ASCII whitespace it maps to a space, leaving a text that is empty or has neither at either end, and adds no character |
| PyStr.IntStripTrimmed | move_txt_to_dat.py:29 | a field with nothing to trim at either end is parsed as it stands |
| PyStr.ParseInt | move_txt_to_dat.py:29 | base-10 `int()` of a string; specified by ParseShowInt (`int(str(n)) == n`), NumeralNeedsDigit and ParseIntDigitLimit (the inputs it raises on), IntStripTrimmed, and the scenarios OrderOfOne, OrderOfLetter and OrderOfSeparator |
| PyStr.ParseShowInt | move_txt_to_dat.py:29 | `int(str(n)) == n` for every integer n, negative ones included, up to the 4300-digit limit |
| PyStr.NumeralNeedsDigit | move_txt_to_dat.py:28-31 | `int()` raises on a field with no digit |
| PyStr.ParseIntDigitLimit | move_txt_to_dat.py:28-31 | `int()` raises on a numeral of more than 4300 digits |
| PyStr.NonSpace | move_txt_to_dat.py:167-172 | the characters of a text other than whitespace, in order, none of them whitespace |
| PyStr.StripNonSpace | move_txt_to_dat.py:18 | `strip()` keeps every character that is not whitespace, in order |
| PyStr.ReplaceByChar | move_txt_to_dat.py:171 | replacing by one character keeps the length and changes exactly the positions that held the old character |
| PyStr.ReplaceConcat | move_txt_to_dat.py:171-172 | replacing in a concatenation is replacing in each piece |
| PyStr.ReplaceNonSpace | move_txt_to_dat.py:171-172 | replacing whitespace by whitespace, or by nothing, keeps every other character in order |
| TableParse.OrderOf | move_txt_to_dat.py:28-31 | `int(field)`, or 1 where that raises; see NumeralNeedsDigit, OrderOfLetter and OrderOfSeparator |
| TableParse.ParseLine | move_txt_to_dat.py:18-34 | one turn of the line loop: a kept line gives a record whose code holds no space; specified both ways by ParseLineSkips, ParseLineShape and ParseLineOf |
| TableParse.ParseAll | move_txt_to_dat.py:17-34 | the records of all lines in order; specified by ParseAllConcat and ParseAllLength, and computed by ReadTable |
| TableParse.Records | move_txt_to_dat.py:17-34 | a line gives at most one record |
| TableParse.ParseLineSkips | move_txt_to_dat.py:18-25 | a line is skipped exactly when its stripped form has fewer than two spaces, which covers the blank line |
| TableParse.ParseLineShape | move_txt_to_dat.py:18-34 | a kept line is code, space, order field, space, word: code and field hold no space, the word keeps the rest, and the order is `int(field)` or 1 |
| TableParse.JoinThree | move_txt_to_dat.py:23 | three parts joined by the separator are the first, the separator, the second, the separator and the third |
| TableParse.ParseLineOf | move_txt_to_dat.py:18-34 | conversely, a stripped line of that form is read as exactly that record |
| TableParse.SplitThree | move_txt_to_dat.py:23 | `split(" ", 2)` of code, space, field, space, word gives those three parts |
| TableParse.SplitFirst | move_txt_to_dat.py:23 | splitting at a first space that follows a space-free text |
| TableParse.FindFirst | move_txt_to_dat.py:23 | the first space of a space-free text, a space and more text is the one after the first text |
| TableParse.ParseAllConcat | move_txt_to_dat.py:17-34 | records keep their line order: reading two blocks of lines reads the first block, then the second |
| TableParse.ParseAllLength | move_txt_to_dat.py:17-34 | there are never more records than lines |
| TableParse.ReadTable | move_txt_to_dat.py:15-34 | the loop with its two `continue`s builds exactly the records of the lines |
| TableParse.GenMsudpFromLines | move_txt_to_dat.py:8-37 | the whole path from lines to container is `Encode` of the parsed records |
| QuestionId.ChineseChars | move_txt_to_dat.py:124-126 | every character found is in U+4E00..U+9FA5, and there are no more than in the text |
| QuestionId.ChineseCharsMembers | move_txt_to_dat.py:124-126 | a character is found exactly when it is in the text and in the range; nothing is found exactly when no character is in range |
| QuestionId.ChineseCharsConcat | move_txt_to_dat.py:124-126 | the characters are found in text order |
| QuestionId.InitialOf | move_txt_to_dat.py:133-137 | one character contributes a string the lookup returned for it, or itself when the lookup returns nothing |
| QuestionId.Initials | move_txt_to_dat.py:129-138 | the contributions of the characters, in order; computed by GetPinyinInitials and specified by InitialsConcat and InitialsLetters |
| QuestionId.InitialsConcat | move_txt_to_dat.py:129-138 | the initials of two lists are the initials of the first, then of the second |
| QuestionId.InitialsLetters | move_txt_to_dat.py:129-138 | when the lookup gives each character of the list one initial letter, the initials are those letters, one per character, in order |
| QuestionId.GetPinyinInitials | move_txt_to_dat.py:129-138 | the loop appends the first pinyin initial of each character, or the character itself when there is none |
| QuestionId.FirstMarker | move_txt_to_dat.py:146-147 | the search finds the leftmost position where one of the five markers starts, or none when there is none |
| QuestionId.Stem | move_txt_to_dat.py:145-151 | the stem is a prefix of the text; StemPrefix adds that it is shorter only where a marker starts, StemIdempotent that no marker is left in it |
| QuestionId.MarkerInPrefix | move_txt_to_dat.py:146-147 | a marker inside a prefix is a marker of the text |
| QuestionId.StemIdempotent | move_txt_to_dat.py:146-151 | the stem has no marker, so cutting it again changes nothing |
| QuestionId.StemPrefix | move_txt_to_dat.py:146-151 | the stem is a prefix of the text, and it is shorter only where a marker starts |
| QuestionId.GenerateId | move_txt_to_dat.py:141-164 | `generate_id`; specified by GenerateIdHasHan, GenerateIdNull, GenerateIdOfStem, GenerateIdShape, IdLetters and HeadTail |
| QuestionId.GenerateIdHasHan | move_txt_to_dat.py:141-157 | an identifier other than "NULL" comes from a text that holds a Chinese character |
| QuestionId.GenerateIdNull | move_txt_to_dat.py:154-157 | with no Chinese character before the first marker, the identifier is "NULL", whatever follows the marker |
| QuestionId.GenerateIdOfStem | move_txt_to_dat.py:145-154 | only the stem matters: the identifier of the stem alone is the same |
| QuestionId.GenerateIdShape | move_txt_to_dat.py:141-164 | when the lookup gives each Chinese character one initial letter, the identifier of a stem with Chinese characters is 2·min(3, their number) letters, and it is "NULL" exactly when the stem has none |
| QuestionId.IdLetters | move_txt_to_dat.py:159-164 | for characters with one initial letter each and k = min(3, their number), the initials of the first k and of the last k make 2k letters and are never "NULL" |
| QuestionId.HeadTail | move_txt_to_dat.py:159-164 | for characters with one initial letter each, the initials of the first k are k letters, letter i being the initial of character i, and those of the last k are k letters, letter i being the initial of character n − k + i; with two characters both halves are the same |
| QuestionId.HanLetters | move_txt_to_dat.py:124-126 | a lookup with one letter for every Chinese character has one letter for each character the finder returns |
| ExamText.CleanText | move_txt_to_dat.py:167-172 | `clean_text`; specified by CleanTextShape, CleanTextIdempotent, CleanTextKeepsText, CleanTextUnchanged and CleanTextJoinsLines |
| ExamText.CleanTextShape | move_txt_to_dat.py:167-172 | the cleaned text has no line feed, no carriage return and no whitespace at either end |
| ExamText.CleanTextIdempotent | move_txt_to_dat.py:167-172 | cleaning twice is cleaning once |
| ExamText.CleanTextKeepsText | move_txt_to_dat.py:167-172 | cleaning removes only whitespace: every other character stays, in order |
| ExamText.CleanTextUnchanged | move_txt_to_dat.py:167-172 | a single line with no whitespace at either end comes back unchanged |
| ExamText.CleanTextJoinsLines | move_txt_to_dat.py:171-172 | two lines joined by "\n" or "\r\n" become one line with a single space between them |
| ExamText.LeadingSpaces | move_txt_to_dat.py:195 | `^\s*` matches the whitespace a line starts with, and stops at the first other character |
| ExamText.MatchOption | move_txt_to_dat.py:195-201 | `line_pattern.match(line)` with the stripped group 2; specified both ways by MatchOptionShape and MatchOptionOf |
| ExamText.MatchOptionOf | move_txt_to_dat.py:195-202 | whitespace, a capital letter, "." or ")" and a rest is read as that letter and the stripped rest |
| ExamText.MatchOptionShape | move_txt_to_dat.py:195-202 | a line that matches is leading whitespace, the letter, "." or ")" and a rest whose strip is the content |
| ExamText.LeadingOf | move_txt_to_dat.py:195 | whitespace followed by a non-whitespace character has exactly that much leading whitespace |
| ExamText.Matches | move_txt_to_dat.py:197-198 | the pattern is matched against each line |
| ExamText.Collect | move_txt_to_dat.py:197-202 | the `options` map after the matched lines; specified by CollectKeys and CollectLast, and computed by ParseOptions |
| ExamText.CollectKeys | move_txt_to_dat.py:197-202 | a letter has an entry exactly when some line is an option line for it |
| ExamText.CollectLast | move_txt_to_dat.py:197-202 | the last option line for a letter wins |
| ExamText.ParseOptions | move_txt_to_dat.py:175-208 | the loop over the lines builds exactly the map of the matched option lines, last write winning |
| Scenarios.EmptyTable | move_txt_to_dat.py:40-121 | an empty table encodes to exactly 68 bytes and reads back as empty |
| Scenarios.Utf16Ai | move_txt_to_dat.py:86-87 | "ai" is 61 00 69 00 and 爱 is 31 72 |
| Scenarios.OneWord | move_txt_to_dat.py:40-121 | 爱/ai/1 encodes to 94 bytes; its body opens 10 00 10 00 16 00 01 06 at 0x44, and code and word follow at 0x54 |
| Scenarios.BodyOfAi | move_txt_to_dat.py:101-114 | the body of 爱/ai/1 field by field |
| Scenarios.TwoWords | move_txt_to_dat.py:93-98 | with two phrases, slot 1 holds 26 and the container has 126 bytes |
| Scenarios.OrderTooLarge | move_txt_to_dat.py:108 | an order of 256 fails at `bytes([order, 0x06])` |
| Scenarios.DocumentedLine | move_txt_to_dat.py:22-34 | "rlzdzy 1 C)劳动" is code "rlzdzy", order 1, word "C)劳动" |
| Scenarios.OrderOfOne | move_txt_to_dat.py:28-29 | the field "1" gives order 1 |
| Scenarios.OrderOfLetter | move_txt_to_dat.py:28-31 | the field "x" raises in `int()`, so the order is 1 |
| Scenarios.OrderOfSeparator | move_txt_to_dat.py:28-31 | the field "5\x1c" raises in `int()`, so the order is 1 |
| Scenarios.SeparatorInOrder | move_txt_to_dat.py:18-32 | in "ab 5\x1c w" the field "5\x1c" keeps its U+001C, which `int()` does not trim, so the order is 1 |
| Scenarios.NonNumericOrder | move_txt_to_dat.py:23-32 | "ni x 你 好" is code "ni", order 1, and the word keeps its inner space |
| Scenarios.ShortLine | move_txt_to_dat.py:23-25 | "ni 1" has two parts and is skipped |
| Scenarios.MarkerFirst | move_txt_to_dat.py:145-157 | "A) 正确" has an empty stem, so its identifier is "NULL" |

## Left out

- File and console I/O are not modelled: `open` in `gen_msudp_from_file`, and `input`,
  `print` and the `__main__` block. The line loop takes the sequence of lines that
  iterating over the file yields.
- `time.time()` is not modelled. The time stamp is a parameter of type `u32`. This
  covers `int(time.time())` values in 0..2³²−1; the script would raise after 2106.
- `pypinyin.lazy_pinyin` is a foreign library. It is a parameter
  `pinyin: char -> seq<string>` that gives the list the library would return for one
  character.
- `process_exam_data` is not modelled. It splits a file into questions and extracts
  answers with DOTALL regexes that use lookaheads and lazy quantifiers.
- The multi-line `pattern` that `parse_options` compiles but never uses is dead code and
  is not modelled.
- ExamText.ParseOptions: the `elif current_opt ...` branch does nothing (`pass`), so
  `current_opt` has no effect on the result. The map is a Dafny `map`, which does not
  record dict insertion order.
- PyStr.ParseInt follows CPython 3.11 and later: it covers the whitespace `int()` trims, a
  sign, ASCII digits, single underscores between digits and the default limit of 4300
  digits. That limit first appeared in 3.11 and in the 3.10.7, 3.9.14, 3.8.14 and 3.7.14
  security releases; on earlier interpreters `int()` accepts any number of digits, which
  ParseIntDigitLimit does not describe. It does not cover the non-ASCII decimal digits that
  `int()` also accepts, nor a limit changed with `sys.set_int_max_str_digits`.
- PyStr.IsSpace is the fixed set of characters `str.isspace()` accepts. `strip()` and
  the regex `\s` both use this set. `int()` trims a different set, PyStr.IsIntSpace:
  below U+007F only space and U+0009..U+000D, so U+001C..U+001F are not trimmed.
- Utf16.Utf16LE: a Dafny `char` cannot be a lone surrogate, so the `UnicodeEncodeError`
  that Python raises for one cannot happen in the model.
- MsudpReader.Decode is not part of the script. It exists only so that
  `DecodeOfEncode` can state that the layout is lossless. Its behaviour on containers the
  script never writes is not a claim about the script.
