# KyTea character layer in Dafny

KyTea is a Japanese/Chinese word segmenter and pronunciation estimator. Below
its models sits a small layer that turns text into 16-bit character codes,
and back again:

* `KyteaString` is a copy-on-write string of `KyteaChar` codes. Handles share
  one reference-counted buffer (`KyteaStringImpl`). A handle copies the buffer
  before writing whenever the buffer is shared.
* `StringUtil` is the base of the codecs. It shows a string by showing each
  character, builds the string of character classes (`K`anji, ka`T`akana,
  `H`iragana, `R`omaji, `D`igit, `O`ther), and compares two codecs through
  their serialisations.
* `StringUtilUtf8` is an interner. Each distinct UTF-8 character gets the next
  id; the id's bytes and its class are recorded. The tables start seeded with
  "" and the six class letters.
* `StringUtilEuc` and `StringUtilSjis` need no tables. The code of a one- or
  two-byte character is its bytes read as a big-endian number.

The project models the checked build (`KYTEA_SAFE` defined), where every
out-of-range index and every malformed character raises an error. Errors are
`Result`/`Outcome` values with an `Error` tag. The modules are:

* `Types` (types.dfy): bytes, codes, classes, errors and `Flatten`.
* `KyteaStrings` (kytea_string.dfy): the two classes `KyteaStringImpl` and
  `KyteaString`, whose methods keep the reference count and the set of owners
  exact. The free operators are here too, and `tokenize` is specified by a
  functional `Split`.
* `Utf8Codec` (utf8_codec.dfy): the byte-level UTF-8 rules of `mapString` (as
  `Utf8Split`) and `findType(string)`, with an independent encoder as a
  reference. `findType` comes twice: as written (`FindTypeBytesAsWritten`),
  which is what the interner records for each new character, and with the
  corrected compatibility-ideograph range (`FindTypeBytes`), see Findings.
* `Utf8Util` (utf8_util.dfy): the interner's tables as a `Vocab` value, with
  its operations as functions. `StringUtilUtf8` is a class whose methods update
  the tables and are proved equal to those functions.
* `DoubleByte` (double_byte.dfy): the EUC-JP and Shift_JIS codecs, as one
  module parameterised by `Scheme`.
* `StringUtils` (string_util.dfy): the codec-independent members of
  `StringUtil`, over `Util`, which is either a set of UTF-8 tables or a
  double-byte scheme.

## Model

| member | source | states |
|---|---|---|
| KyteaStrings.Memcpy | src/include/kytea/kytea-string.h:116 | after a copy of `n` codes, the destination holds the source's codes at `dstPos` and its own codes everywhere else |
| KyteaStrings.KyteaStringImpl.constructor | src/include/kytea/kytea-string.h:44-46 | a new buffer has the requested length, a fresh array and count 1, and its only owner is the creating handle |
| KyteaStrings.KyteaStringImpl.Clone | src/include/kytea/kytea-string.h:47-50 | the copy has the same length and codes in a fresh array, with count 1 and a single owner |
| KyteaStrings.KyteaStringImpl.Inc | src/include/kytea/kytea-string.h:57 | the count goes up by one and is returned; the new handle joins the owners; length and codes are untouched |
| KyteaStrings.KyteaStringImpl.Dec | src/include/kytea/kytea-string.h:56 | the count goes down by one and is returned; the handle leaves the owners; length and codes are untouched |
| KyteaStrings.SoleOwner | src/include/kytea/kytea-string.h:186 | a count of one means the handle asking is the only owner, so writing in place cannot be seen elsewhere |
| KyteaStrings.KyteaString.Empty | src/include/kytea/kytea-string.h:74 | the default string has no buffer and empty contents |
| KyteaStrings.KyteaString.constructor | src/include/kytea/kytea-string.h:79 | a sized string owns a fresh buffer of that length with count 1 |
| KyteaStrings.KyteaString.Copy | src/include/kytea/kytea-string.h:75-78 | the copy shares the original's buffer and reads the same codes; the buffer keeps its array and length, so the original reads what it read before; a shared buffer gains one count and one owner |
| KyteaStrings.KyteaString.Assign | src/include/kytea/kytea-string.h:156-162 | after assignment the handle shares the right-hand buffer and its contents; the old buffer loses one count and this owner and keeps its array and length, so its other sharers read what they read before; the new buffer gains them and keeps its array and length |
| KyteaStrings.KyteaString.Release | src/include/kytea/kytea-string.h:82-85 | the destructor detaches the handle; its buffer loses one count and this owner and keeps its array and length for its other sharers |
| KyteaStrings.KyteaString.GetImplMut | src/include/kytea/kytea-string.h:185-191 | the mutable accessor returns a buffer owned by this handle alone with unchanged contents; a shared buffer is copied and loses this owner, and an unshared one is kept as it is |
| KyteaStrings.KyteaString.At | src/include/kytea/kytea-string.h:148-154 | reading succeeds exactly for `0 <= i < length` and returns the `i`-th code; otherwise it is an index error |
| KyteaStrings.KyteaString.Set | src/include/kytea/kytea-string.h:140-146 | writing succeeds exactly for in-range `i` and changes only code `i`; a shared buffer is left with its array, length and codes while this handle moves to a fresh buffer and array, so every other sharer keeps its contents and later writes stay isolated too; an unshared buffer is written in place; out of range nothing changes |
| KyteaStrings.KyteaString.Substr | src/include/kytea/kytea-string.h:130-138 | a substring succeeds exactly when `s + l <= length` and yields a string with a fresh buffer and a fresh array holding codes `s..s+l`; this is the corrected operation, which also gives the empty handle an empty substring, see Findings |
| KyteaStrings.KyteaString.SubstrFrom | src/include/kytea/kytea-string.h:119-128 | the suffix from `s` succeeds exactly when `s <= length` and holds codes `s..` in a fresh buffer and array; this is the corrected guard, see Findings |
| KyteaStrings.KyteaString.LengthIsContentsLength | src/include/kytea/kytea-string.h:165-167 | `length()` is the number of codes the handle reads, and 0 for a handle without a buffer |
| KyteaStrings.KyteaString.Splice | src/include/kytea/kytea-string.h:108-117 | an empty source is a no-op; otherwise splicing succeeds exactly when `pos + str.length() <= length`, overwrites those positions with `str`, keeps the rest, and changes no other handle |
| KyteaStrings.KyteaString.Tokenize | src/include/kytea/kytea-string.h:88-105 | the tokens are, one by one, the pieces of `Split` of the contents at any delimiter character, each a fresh handle with its own fresh buffer and array |
| KyteaStrings.KyteaString.TokenizeStep | src/include/kytea/kytea-string.h:93-100 | one outer iteration keeps the tokenizer's invariant: the tokens so far followed by the split of the rest is the whole split |
| KyteaStrings.KyteaString.TokenizeAt | src/include/kytea/kytea-string.h:94-99 | at a delimiter, pushing the pending run and the delimiter keeps the invariant, with the rest starting after the delimiter |
| KyteaStrings.KyteaString.PushPieces | src/include/kytea/kytea-string.h:95-98 | pushes the pending run, if any, and the delimiter when asked, as fresh strings after the earlier tokens |
| KyteaStrings.KyteaString.TokensExtend | src/include/kytea/kytea-string.h:96-98 | tokens pushed after earlier ones keep the earlier ones' contents |
| KyteaStrings.KyteaString.TokenizeLast | src/include/kytea/kytea-string.h:102-103 | the trailing run, if any, completes the split |
| KyteaStrings.KyteaString.GetHash | src/include/kytea/kytea-string.h:170-179 | the hash is djb2 over the codes in 64-bit arithmetic; an empty handle hashes to 5381 |
| KyteaStrings.KyteaString.BeginsWith | src/include/kytea/kytea-string.h:194-201 | true exactly when the argument's codes are a prefix of this string's |
| KyteaStrings.Append | src/include/kytea/kytea-string.h:205-216 | `a + c` is a fresh string, with a fresh buffer and array, holding `a`'s codes followed by `c` |
| KyteaStrings.Concat | src/include/kytea/kytea-string.h:218-229 | `a + b` holds `a`'s codes followed by `b`'s, and both operands keep their codes, arrays and lengths; an empty side makes the result share the other side's buffer, and otherwise the buffer and its array are fresh |
| KyteaStrings.Join | src/include/kytea/kytea-string.h:225-228 | the two splices into a fresh buffer and array produce the concatenation |
| KyteaStrings.Less | src/include/kytea/kytea-string.h:231-239 | `<` is the lexicographic order on the codes |
| KyteaStrings.Equal | src/include/kytea/kytea-string.h:241-249 | `==` holds exactly when the codes are equal |
| KyteaStrings.CopyThenSet | src/include/kytea/kytea-string.h:140-146 | copying a string and then writing through the original leaves the copy reading the original's old codes; a successful write moves the original to a buffer of its own |
| KyteaStrings.CopyThenSetBoth | src/include/kytea/kytea-string.h:140-146 | after a copy, a write through the original and then a write through the copy each show only in their own handle |
| KyteaStrings.FromSeq | src/lib/string-util.cpp:79-82 | the final copy loop of every `mapString` yields a fresh string, with a fresh buffer and array, holding exactly the collected codes |
| KyteaStrings.SubstrFromCheckNeverThrows | src/include/kytea/kytea-string.h:119-124 | as written in unsigned 32-bit arithmetic, the bounds check of `substr(s)` never fires |
| KyteaStrings.SubstrFromPastEndPasses | src/include/kytea/kytea-string.h:120-123 | length 3 and `s = 5` pass the check as written although `s` is past the end |
| KyteaStrings.SubstrPathAsWritten | src/include/kytea/kytea-string.h:130-138 | as written in 32-bit arithmetic, `substr(s, l)` throws exactly when the wrapped `s + l` exceeds the length, dereferences null exactly on the empty handle with a wrapped sum of 0, and copies real codes only when the unwrapped range is inside the buffer |
| KyteaStrings.SubstrFromPathAsWritten | src/include/kytea/kytea-string.h:119-128 | as written, `substr(s)` never throws, dereferences null on the empty handle for every `s`, and copies real codes exactly when `s <= length` |
| KyteaStrings.SubstrAsWrittenCounterexamples | src/include/kytea/kytea-string.h:119-138 | `substr(0, 0)` and `substr(0)` on the empty handle read through a null buffer; `substr(0xFFFFFFFF, 1)` on three codes passes the check and reads past the buffer |
| KyteaStrings.LexLessAfterCommonPrefix | src/include/kytea/kytea-string.h:234-237 | a common prefix does not decide the order; the comparison continues after it |
| KyteaStrings.LexLessIrreflexive | src/include/kytea/kytea-string.h:231-239 | no string is less than itself |
| KyteaStrings.LexLessProperPrefix | src/include/kytea/kytea-string.h:238 | a proper prefix is less than the longer string, and not the other way |
| KyteaStrings.LexLessTransitive | src/include/kytea/kytea-string.h:231-239 | the order is transitive |
| KyteaStrings.LexLessTrichotomy | src/include/kytea/kytea-string.h:231-239 | of two strings, exactly one is less or they are equal, so containers can key on it |
| KyteaStrings.HashFromConcat | src/include/kytea/kytea-string.h:176-177 | hashing a concatenation continues from the hash of the first part |
| KyteaStrings.HashFromBounded | src/include/kytea/kytea-string.h:171-177 | the hash stays a 64-bit value |
| KyteaStrings.FirstDelim | src/include/kytea/kytea-string.h:93 | the delimiter search stops within the string |
| KyteaStrings.FirstDelimSpec | src/include/kytea/kytea-string.h:93 | every code before the found position is not a delimiter, and the code at it is one |
| KyteaStrings.FirstDelimAt | src/include/kytea/kytea-string.h:93 | any position with that property is the one found |
| KyteaStrings.Pieces | src/include/kytea/kytea-string.h:95-98 | a delimiter pushes one run when the run is non-empty, plus the delimiter itself when asked |
| KyteaStrings.SplitStep | src/include/kytea/kytea-string.h:94-100 | after a delimiter, the tokens pushed so far and the split of the rest still make the whole split |
| KyteaStrings.SegmentStep | src/include/kytea/kytea-string.h:92-100 | the split from `s` is the pieces at the next delimiter followed by the split after it |
| KyteaStrings.SplitLast | src/include/kytea/kytea-string.h:102-103 | with no delimiter left, the whole split is the tokens so far plus the trailing run if it is non-empty |
| KyteaStrings.SplitAtDelimiter | src/include/kytea/kytea-string.h:94-100 | at the first delimiter, the split is the run before it, the delimiter when asked, and the split of the rest |
| KyteaStrings.SplitWithoutDelimiter | src/include/kytea/kytea-string.h:102-103 | a string with no delimiter splits into itself, or into nothing if it is empty |
| KyteaStrings.SplitJoin | src/include/kytea/kytea-string.h:88-105 | with delimiters included, concatenating the tokens gives back the string |
| KyteaStrings.SplitTokenShape | src/include/kytea/kytea-string.h:88-105 | every token is a non-empty run free of delimiters, or a single delimiter when those are included |
| KyteaStrings.SplitRunsMaximal | src/include/kytea/kytea-string.h:88-105 | two runs are never adjacent, so every run is maximal |
| KyteaStrings.SplitDropsDelimiters | src/include/kytea/kytea-string.h:88-105 | without delimiters, the tokens are exactly the runs of the split with delimiters |
| KyteaStrings.RunsAppend | src/include/kytea/kytea-string.h:88-105 | picking runs distributes over concatenation of token lists |
| Types.UntilNul | src/lib/string-util.cpp:175-176 | building a string from a NUL-terminated array keeps the bytes before the first NUL, which is a prefix with no NUL |
| Utf8Codec.BaduIsMaskTest | src/include/kytea/string-util.h:152 | `badu` is true exactly when the byte is not a continuation byte `10xxxxxx` |
| Utf8Codec.LeadTestsAreMaskTests | src/lib/string-util.cpp:55-66 | the mask tests on a sign-extended `char` are the byte ranges below 0x80, from 0xF8, from 0xF0 and from 0xE0 |
| Utf8Codec.LeadLength | src/lib/string-util.cpp:55-77 | a lead byte gives a length of at most 4; length 0 means the byte is 0xF8 or above and is rejected |
| Utf8Codec.SplitChars | src/lib/string-util.cpp:53-78 | every chunk `mapString` passes to `mapChar` is a lead byte with its continuation bytes, at most 4 bytes long |
| Utf8Codec.SplitFlatten | src/lib/string-util.cpp:53-78 | the chunks concatenate to a prefix of the input, and to the whole input when no error is raised |
| Utf8Codec.SplitFailsAt | src/lib/string-util.cpp:57-74 | an invalid lead byte, a truncated character or a bad continuation byte raises the error there |
| Utf8Codec.SplitAfterChar | src/lib/string-util.cpp:53-78 | a well-formed character is split off the front and the scan continues after it |
| Utf8Codec.SplitPrefixed | src/lib/string-util.cpp:53-78 | well-formed characters in front of a text come out as they are, ahead of the split of the text |
| Utf8Codec.SplitOfFlatten | src/lib/string-util.cpp:53-78 | splitting a concatenation of well-formed characters gives them back with no error |
| Utf8Codec.BitOrBounds | src/lib/string-util.cpp:97 | bitwise or of two numbers of a given width stays within that width and is at least either operand |
| Utf8Codec.FindTypeBytes | src/lib/string-util.cpp:86-122 | classification fails exactly on more than 4 bytes, with a malformed-character error, and the empty string is OTHER; this is the corrected ranges, see Findings |
| Utf8Codec.FindTypeBytesAsWritten | src/lib/string-util.cpp:86-122 | as written, classification fails exactly on more than 4 bytes, with a malformed-character error, and the empty string is OTHER; this is the classifier the interner records |
| Utf8Codec.CodeValue | src/lib/string-util.cpp:93-97 | a 1-byte value is the byte, or sign-extended to at least 0xFFFFFF80 when the byte is 0x80 or more; 2 and 3 bytes stay below 0x800 and 0x10000 |
| Utf8Codec.CodeValueBounds | src/lib/string-util.cpp:97 | the 4-byte value stays below 0x1000000 |
| Utf8Codec.Utf8Split | src/lib/string-util.cpp:53-78 | there are never more chunks than bytes, and a non-empty input that yields no chunk is an error |
| Utf8Codec.SecondKanjiRangeUnreachable | src/lib/string-util.cpp:118 | no value decoded from one to four bytes lies in 0xEFA480..0xEFAB99 |
| Utf8Codec.SixBitFieldsMissRange | src/lib/string-util.cpp:97 | three 6-bit fields at bits 18, 12 and 0, as the 4-byte branch computes them, never reach that range |
| Utf8Codec.FindTypeAsWrittenMissesCompatibilityIdeographs | src/lib/string-util.cpp:118 | the classification as written agrees with the corrected one, except on U+F900..U+FAD9, which it calls OTHER |
| Utf8Codec.CompatibilityIdeographExample | src/lib/string-util.cpp:118 | EF A4 80 (U+F900) is OTHER as written and KANJI as corrected |
| Utf8Codec.EncodeIsChar | src/lib/string-util.cpp:53-78 | the reference encoding of any code point is one well-formed character for `mapString` |
| Utf8Codec.CodeValueOfEncode | src/lib/string-util.cpp:94-96 | for the basic multilingual plane, the decoded value of the encoding is the code point |
| Utf8Codec.CodeValueOfEncodeTwo | src/lib/string-util.cpp:95 | the value computed from a two-byte encoding is its code point |
| Utf8Codec.CodeValueOfEncodeThree | src/lib/string-util.cpp:96 | the value computed from a three-byte encoding is its code point |
| Utf8Codec.CodeValueOfEncodeAbove | src/lib/string-util.cpp:97 | above the basic multilingual plane, the decoded value stays at or above 0x10000 |
| Utf8Codec.FindTypeOfEncode | src/lib/string-util.cpp:99-121 | classifying an encoded code point applies the class ranges to the code point itself |
| Utf8Codec.FindTypeAsWrittenOfEncode | src/lib/string-util.cpp:99-121 | classifying an encoded code point as written applies the class ranges to the code point, except that U+F900..U+FAD9 are O |
| Utf8Codec.FindTypeExamples | src/lib/string-util.cpp:101-121 | あ is H, ア is T, the middle dot is O, 中 is K, full-width A and A are R, 5 is D, and a lone 0x80 byte is O; as written, あ is H, 中 is K and U+F900 is O |
| Utf8Util.MapCharStep | src/lib/string-util.cpp:24-36 | `mapChar` always yields an id for at most 4 bytes; the only failure is a malformed-character error from `findType`; a new name records the class `findType` gives as written |
| Utf8Util.ShowCharOf | src/lib/string-util.cpp:38-44 | `showChar` succeeds exactly for ids below the number of names and returns that name; otherwise it is an index error |
| Utf8Util.SeedNamesDistinct | src/include/kytea/string-util.h:136 | the seven seed names are distinct |
| Utf8Util.InsertAllSpec | src/include/kytea/string-util.h:137-138 | inserting distinct names in order maps the `i`-th name to `i`, and to nothing else |
| Utf8Util.InsertedWellFormed | src/include/kytea/string-util.h:137-141 | tables built from distinct names with one class each are consistent |
| Utf8Util.MapSeed | src/include/kytea/string-util.h:135-142 | mapping any seed name, with or without `add`, returns its seed id and leaves the seeded tables unchanged |
| Utf8Util.SeedWellFormed | src/include/kytea/string-util.h:135-142 | the seeded tables are consistent; id 0 shows as "" and id 6 as "O"; the seed classes are the raw values 6 and 4 |
| Utf8Util.SeedSerialize | src/lib/string-util.cpp:131-136 | the seeded tables serialise to "KTHRDO" |
| Utf8Util.MapCharKeepsWellFormed | src/lib/string-util.cpp:24-36 | `mapChar` keeps the tables consistent; a known name or `add = false` changes nothing; a new name is appended with its as-written `findType` class and gets the next id, modulo 2^16 |
| Utf8Util.MapCharThenShowChar | src/lib/string-util.cpp:24-44 | `showChar` of the id `mapChar` returns gives the same bytes back |
| Utf8Util.ShowKnown | src/lib/string-util.cpp:25-28 | the id of a known name shows as that name |
| Utf8Util.ShowAdded | src/lib/string-util.cpp:29-33 | a new name is appended, gets the old table size as its id, and shows as itself |
| Utf8Util.MapCharIdempotent | src/lib/string-util.cpp:24-36 | mapping the same bytes again, with or without `add`, returns the same id and leaves the tables as they are |
| Utf8Util.MapCharMalformedLeavesId | src/lib/string-util.cpp:29-33 | more than 4 new bytes leave an id in the map with no name and no class, so later lookups return an id that cannot be shown |
| Utf8Util.MapAll | src/lib/string-util.cpp:53-78 | mapping a list of characters yields one id per character |
| Utf8Util.MapAllStep | src/lib/string-util.cpp:56 | mapping one more character extends the ids and tables by that one `mapChar` |
| Utf8Util.MapAllGrows | src/lib/string-util.cpp:24-36 | mapping only ever appends names |
| Utf8Util.MapAllKeepsWellFormed | src/lib/string-util.cpp:50-83 | mapping a whole string keeps the tables consistent |
| Utf8Util.MapAllThenShow | src/lib/string-util.cpp:50-83 | after mapping a list, every returned id shows as its own character |
| Utf8Util.ShowAfterSnoc | src/lib/string-util.cpp:38-44 | names appended later do not change what earlier ids show |
| Utf8Util.EmptyEntryTypes | src/lib/string-util.cpp:126-127 | the tables left by clearing and interning "" are consistent, and "" has the class `findType` gives it, OTHER |
| Utf8Util.MapAllKeepsTypes | src/lib/string-util.cpp:29-33 | every name keeps the class the as-written `findType` gives its bytes |
| Utf8Util.MapAllFresh | src/lib/string-util.cpp:29-33 | mapping distinct unknown characters appends them in order |
| Utf8Util.FreshAfterOthers | src/lib/string-util.cpp:25-29 | a character unknown before, and different from those added since, is still unknown |
| Utf8Util.IdsDetermined | src/lib/string-util.cpp:24-36 | in consistent tables, the names determine the id map |
| Utf8Util.UnserializeSerialize | src/lib/string-util.cpp:125-136 | for tables whose first name is "" and the rest well-formed characters, `unserialize(serialize())` rebuilds the same names and ids, and serialises the same |
| Utf8Util.NamesAfterFirst | src/lib/string-util.cpp:133-134 | the serialised names are distinct well-formed characters other than "" |
| Utf8Util.SeedUnserializeSerialize | src/lib/string-util.cpp:125-136 | `unserialize(serialize())` of the seeded tables gives back the seeded tables' names and ids |
| Utf8Util.CharLengthAt | src/lib/string-util.cpp:55-77 | the lead-byte dispatch of `mapString` returns 0 exactly on an error, and otherwise the character's length |
| Utf8Util.SplitFailedAt | src/lib/string-util.cpp:57-74 | an error at a position after well-formed characters makes the split stop there with those characters |
| Utf8Util.SplitFinished | src/lib/string-util.cpp:53 | a scan that consumed all input with well-formed characters is the whole split |
| Utf8Util.FlattenStep | src/lib/string-util.cpp:56-76 | consuming one more character extends the consumed prefix by it |
| Utf8Util.StringUtilUtf8.constructor | src/include/kytea/string-util.h:135-142 | a new interner holds the seeded tables |
| Utf8Util.StringUtilUtf8.MapChar | src/lib/string-util.cpp:24-36 | the method updates the tables and returns the id as `MapCharStep` specifies, recording the as-written `findType` class |
| Utf8Util.StringUtilUtf8.MapString | src/lib/string-util.cpp:50-83 | succeeds exactly on valid UTF-8 and otherwise fails naming the whole input; the tables are updated for every character before the error; the result is a fresh string of the ids, with a fresh buffer and array |
| Utf8Util.StringUtilUtf8.Unserialize | src/lib/string-util.cpp:125-129 | clears the tables, interns "", then interns the characters of the input; fails exactly on invalid UTF-8 |
| Utf8Util.StringUtilUtf8.Serialize | src/lib/string-util.cpp:131-136 | returns the concatenation of every name after the first |
| Utf8Util.SerializeAppend | src/lib/string-util.cpp:131-136 | interning one more name appends exactly its bytes to the serialisation, so the dump lists the names in id order |
| DoubleByte.Combine | src/lib/string-util.cpp:138-149 | the high and low byte of a combined code are the two bytes it was built from |
| DoubleByte.SplitCombine | src/lib/string-util.cpp:138-149 | every code is the combination of its high and low byte |
| DoubleByte.CombineIsShiftOr | src/lib/string-util.cpp:138-149 | the code is the shift-or of the two bytes, and the high and low byte give them back |
| DoubleByte.EucPairIsMaskTest | src/lib/string-util.cpp:163 | the EUC pair test on sign-extended bytes holds exactly when both bytes are 0x80 or more |
| DoubleByte.MapChar | src/lib/string-util.cpp:151-281 | every rejected character fails with an encoding error carrying that character |
| DoubleByte.MapCharUnchecked | src/lib/string-util.cpp:151-281 | for both the EUC and the SJIS `mapChar`, without the checked build, exactly one or two bytes are accepted, packed high byte first; any other length fails with an encoding error |
| DoubleByte.CheckedAgreesWithUnchecked | src/lib/string-util.cpp:151-281 | the checked EUC and SJIS `mapChar` only add errors: what it accepts the unchecked one maps to the same code; the single EUC byte A4 is rejected checked and packed as 0xA4 unchecked |
| DoubleByte.ShowChar | src/lib/string-util.cpp:173-294 | the EUC and SJIS `showChar` give at most two bytes and no NUL |
| DoubleByte.MapCharThenShowChar | src/lib/string-util.cpp:151-184 | a character `mapChar` accepts and that contains no NUL shows as itself, and its code is one that can be shown |
| DoubleByte.ShowCharThenMapChar | src/lib/string-util.cpp:259-294 | a code of a character shows as NUL-free bytes that `mapChar` maps back to the code |
| DoubleByte.EucTypeRows | src/lib/string-util.cpp:209-235 | each EUC class on its own, for every code: digits and romaji by their rows, hiragana on A4A1..A4F3, katakana on A5A1..A5F6, A1BC and the 8E row, kanji on rows B0..F4, the last two only when the low byte is no ASCII digit or letter |
| DoubleByte.EucTypeOfTwoByteCode | src/lib/string-util.cpp:209-235 | on two-byte codes that EUC `mapChar` accepts, each class is decided by its own row of the table alone |
| DoubleByte.SjisTypeRows | src/lib/string-util.cpp:320-349 | each SJIS class on its own, for every code; the rows are disjoint, so the order of the tests does not matter |
| DoubleByte.FindType | src/lib/string-util.cpp:320-349 | every code gets one of the six classes |
| DoubleByte.FindTypeOf | src/lib/string-util.cpp:206-208 | classifying bytes succeeds exactly when `mapChar` accepts them |
| DoubleByte.SliceLength | src/lib/string-util.cpp:302-308 | `mapString` takes one byte for a single-byte lead or at the last position, and two otherwise |
| DoubleByte.SlicesFlatten | src/lib/string-util.cpp:300-309 | the slices concatenate to the input; each has one or two bytes, and two only after a double-byte lead |
| DoubleByte.MapSlices | src/lib/string-util.cpp:189-198 | a successful result has one code per slice |
| DoubleByte.MapSlicesSpec | src/lib/string-util.cpp:189-198 | decoding succeeds exactly when every slice is accepted, giving each slice's code; an error is the encoding error of the first rejected slice |
| DoubleByte.Decode | src/lib/string-util.cpp:187-203 | a decoding has one code per slice, and an error names one of the slices |
| DoubleByte.DecodeAscii | src/lib/string-util.cpp:192-193 | ASCII text decodes to its bytes |
| DoubleByte.MapString | src/lib/string-util.cpp:187-203 | the method succeeds exactly when the decoding does, with the same error, and returns a fresh string of the codes, with a fresh buffer and array |
| DoubleByte.DecodeStep | src/lib/string-util.cpp:190-197 | one iteration of the scan either fails with that piece's error or adds its code and continues after it |
| DoubleByte.TableExamples | src/lib/string-util.cpp:209-235 | A1A1 is O, A1BC is T, A4A2 is H, B0A1 is K, A3B5 is D and 8EB1 is T in EUC; 82A0 is H, B1 is T, 889F is K and 8260 is R in SJIS; a lone double-byte lead is rejected |
| StringUtils.ShowCharOf | src/include/kytea/string-util.h:57 | `showChar` never fails for the double-byte codecs |
| StringUtils.TypeOf | src/include/kytea/string-util.h:109-114 | the UTF-8 class of an id is the as-written `findType` of its name when the tables record classes that way; a double-byte class is `findType` of the bytes the code shows as |
| StringUtils.TypeString | src/include/kytea/string-util.h:109-114 | the class string has one entry per character |
| StringUtils.TypeStringAt | src/include/kytea/string-util.h:111-112 | entry `k` of the class string is the class of character `k` |
| StringUtils.ShowAllOk | src/include/kytea/string-util.h:59-64 | when every character shows, `showString` is the concatenation of the shown characters |
| StringUtils.ShowAllErr | src/include/kytea/string-util.h:59-64 | `showString` fails exactly when some character cannot be shown, with an index error |
| StringUtils.ShowAllStopsAtError | src/include/kytea/string-util.h:61-62 | once a character fails, the rest does not change the result |
| StringUtils.ShowString | src/include/kytea/string-util.h:59-64 | the loop computes `ShowAll` of the string's codes |
| StringUtils.GetTypeString | src/include/kytea/string-util.h:109-114 | the loop computes `TypeString` of the string's codes |
| StringUtils.SerializeOf | src/lib/string-util.cpp:243 | the double-byte codecs serialise to the empty string |
| StringUtils.CheckEqual | src/include/kytea/string-util.h:82-90 | the check passes exactly when the two serialisations are equal, and otherwise fails with a mismatch |
| StringUtils.EncodingsDistinct | src/include/kytea/string-util.h:45-47 | the encoding tags, and the encoding names, tell the three codecs apart |
| StringUtils.CheckEqualIsEquivalence | src/include/kytea/string-util.h:82-90 | the check is reflexive, symmetric and transitive |
| StringUtils.CheckEqualAcrossCodecs | src/lib/string-util.cpp:242-243 | any two double-byte codecs pass, EUC against SJIS included; a seeded UTF-8 codec fails against them |
| StringUtils.CheckEqualComparesNames | src/include/kytea/string-util.h:82-90 | for tables whose first name is "" and the rest well-formed characters, the check passes exactly when the names are equal |
| StringUtils.SerializeIsFlatten | src/lib/string-util.cpp:131-136 | the serialisation splits back into the names after the first |
| StringUtils.Utf8RoundTrip | src/lib/string-util.cpp:50-83 | `showString(mapString(s))` is `s` for valid UTF-8 while the ids fit in 16 bits |
| StringUtils.Utf8TypeString | src/lib/string-util.cpp:46-48 | when every name's recorded class is its as-written `findType`, each entry of `getTypeString(mapString(s))` is the as-written `findType` of the matching character's bytes |
| StringUtils.LegacyRoundTrip | src/lib/string-util.cpp:187-203 | `showString(mapString(s))` is `s` for accepted double-byte text with no NUL byte |
| StringUtils.SliceHasNoNul | src/lib/string-util.cpp:173-184 | a NUL-free text has NUL-free slices, so showing them drops nothing |
| StringUtils.LegacyTypeString | src/include/kytea/string-util.h:109-114 | each entry of `getTypeString(mapString(s))` is `findType` of the matching slice |
| StringUtils.AsciiTypesAgree | src/lib/string-util.cpp:101-116 | the three codecs, and both UTF-8 classifiers, give an ASCII byte the same class: letters R, digits D, all else O |

## Left out

- Freeing memory: `delete` of the buffer when the count reaches 0, and of the array, are not modelled. Dafny has no deallocation, so `Release` only updates the count and the owners.
- KyteaStrings.KyteaString.Assign: self-assignment when this handle is the buffer's only owner is excluded by a precondition. In C++ that path deletes the buffer and then reads it.
- KyteaStrings.KyteaString.Splice: requires the destination buffer to be unshared. The C++ code writes through `impl_` without copying a shared buffer first. Its only callers, the two `operator+`, splice into a freshly allocated string.
- The unchecked build (`KYTEA_SAFE` undefined) is modelled only for the EUC and SJIS `mapChar`, as `DoubleByte.MapCharUnchecked`. There the lead-byte tests (string-util.cpp:154-158, 162-165, 263-267, 271-275) are compiled out and one or two bytes are packed unchecked, so EUC `mapChar` of the single byte A4 gives 0xA4; a length other than 1 or 2 still throws in both builds (string-util.cpp:167-168, 279-280). The rest of the unchecked build is not modelled: without the range checks of `KyteaString` an out-of-range index or substring reads or writes outside the buffer.
- KyteaStrings.KyteaString.Substr: lengths and indices are unbounded naturals instead of `unsigned`, so `s + l` is compared without 32-bit wrap-around. The as-written paths, where the wrap lets `substr(s)` and, for example, `substr(0xFFFFFFFF, 1)` read past the buffer, are `SubstrPathAsWritten` and `SubstrFromPathAsWritten`; see Findings.
- KyteaStrings.KyteaString.Splice: `pos + l` is compared without 32-bit wrap-around as well, so a `pos` near 2^32 that the C++ check lets through is an index error in the model.
- KyteaStrings.KyteaString.GetHash: `size_t` is taken to be 64 bits wide, so the hash is reduced modulo 2^64.
- Error messages (the text given to `THROW_ERROR` and `runtime_error`) are not modelled, apart from the input string some of them carry.
- `parseInt` and `parseFloat` call into the C library and use floating point, so they are not modelled.
- `KyteaStringHash` and `operator!=` are not modelled separately: they are `getHash` and the negation of `Equal`.
- The `const` `getImpl` is not modelled separately: it returns the representation, which the model exposes.
- `getCharNames` is not modelled as a member: it returns the interner's name table, which is the `names` field of `Vocab`.
- The UTF-8 `getEncoding`/`getEncodingString` are modelled only as the functions `EncodingOf` and `EncodingName`, whose distinctness is the lemma `EncodingsDistinct`.
- Virtual dispatch of `StringUtil`: modelled by the `Util` datatype. The codec-independent members take the UTF-8 tables as a value rather than as an object.
- The `add` flag of the EUC and SJIS `mapChar` is ignored by the source, so the model has no such parameter.
- `StringCharMap` is modelled as a Dafny `map` from byte strings to ids. Its hashing is not part of this model.
- UTF-8 `findType(KyteaChar)` indexes the class table without a check. The model's `StringUtils.TypeOf` therefore requires the id to be in range (`HasType`), and so does `StringUtils.GetTypeString`.
- StringUtils.Utf8RoundTrip and the other round trips hold only while the number of names fits in the 16-bit id space. They also require text without NUL bytes for the double-byte codecs, because `showChar` builds a C string and drops everything after a NUL.
- EUC `A1 A1` (the ideographic space) is classified OTHER, as the code does.
- `unserialize` clears the tables and interns only "". It does not restore the seeded tables before interning the input.
- The seeded classes are the raw values 6 and 4 pushed by the constructor, not the letters `O` and `R`. These values are kept as written and are not claimed as a finding, because nothing shows that they matter.
- The interner (`Utf8Util.MapCharStep` and the members built on it) records the class of `findType` as written, so the tables call U+F900..U+FAD9 OTHER. The corrected `FindTypeBytes` is stated and proved beside it but does not feed the tables.
- File and stream I/O (`feature-io.h`, the model readers) is not part of this model.

## Findings

| source | as written | input that shows it | evidently intended | confidence | as-written member | corrected member |
|---|---|---|---|---|---|---|
| src/include/kytea/kytea-string.h:119-124 | `l = length() - s` wraps around in unsigned arithmetic, so `s + l` is always `length()` and the check never fires | length 3, `s = 5`: the check passes and `memcpy` reads far past the buffer | raise the out-of-bounds error when `s > length()` | high, not executed | KyteaStrings.SubstrFromCheckNeverThrows, KyteaStrings.SubstrFromPastEndPasses | KyteaStrings.KyteaString.SubstrFrom |
| src/lib/string-util.cpp:118 | the second KANJI range compares the decoded code point with the UTF-8 bytes of U+F900..U+FAD9 (0xEFA480..0xEFAB99), a value no decoded character reaches | EF A4 80 (U+F900, a CJK compatibility ideograph) is classified OTHER | classify the code points U+F900..U+FAD9 as KANJI | medium, not executed | Utf8Codec.FindTypeAsWrittenMissesCompatibilityIdeographs, Utf8Codec.CompatibilityIdeographExample | Utf8Codec.FindTypeBytes |
| src/include/kytea/kytea-string.h:126-136 | the copy reads `impl_->chars_` even on the empty handle, whose `impl_` is null; the check lets `s = l = 0` through there | `substr(0, 0)` and `substr(0)` on `KyteaString()` dereference a null pointer | return an empty string for an empty range of the empty handle | high, not executed | KyteaStrings.SubstrPathAsWritten, KyteaStrings.SubstrFromPathAsWritten, KyteaStrings.SubstrAsWrittenCounterexamples | KyteaStrings.KyteaString.Substr, KyteaStrings.KyteaString.SubstrFrom |
| src/include/kytea/kytea-string.h:132 | `s + l` wraps around in unsigned arithmetic before the comparison | `substr(0xFFFFFFFF, 1)` on a string of 3 codes: the sum is 0, the check passes and `memcpy` reads past the buffer | raise the out-of-bounds error whenever the range ends past the string | high, not executed | KyteaStrings.SubstrPathAsWritten, KyteaStrings.SubstrAsWrittenCounterexamples | KyteaStrings.KyteaString.Substr |
