/** The byte level of `StringUtilUtf8`: how `mapString` cuts a byte string
    into characters, and how `findType(const string&)` turns the bytes of
    one character into a number and the number into a character type.

    The source reads every byte through a signed `char`; the masks it uses
    (`maskl1` .. `maskl5`, `maskr3` .. `maskr6`) are written here as the
    plain comparisons and remainders they amount to; `BaduIsMaskTest` and
    `LeadTestsAreMaskTests` check that reading of the tests against the
    source's mask expressions on every byte. */
module Utf8Codec {
  import opened Types

  /** `badu(val)`: `val` is not a continuation byte `10xxxxxx`. */
  predicate Badu(b: Byte)
  {
    !(0x80 <= b < 0xC0)
  }

  /** A byte read through a signed `char` and promoted to a 32-bit `int`,
      as every mask test of the source does. */
  function Widen(v: bv8): bv32
  {
    if v < 0x80 then v as bv32 else v as bv32 | 0xFFFF_FF00
  }

  /** `badu` as written, `(val ^ maskl1) & maskl2` with both masks signed
      `char`s, is the test `Badu`. */
  lemma BaduIsMaskTest(v: bv8)
    ensures Badu(v as int) <==> (Widen(v) ^ 0xFFFF_FF80) & 0xFFFF_FFC0 != 0
  {
  }

  /** The lead-byte tests of `mapString`, `!(maskl1 & c)` and
      `(maskl5 & c) == maskl5` and so on, are the comparisons `LeadLength`
      makes. */
  lemma LeadTestsAreMaskTests(v: bv8)
    ensures (v as int < 0x80) <==> Widen(v) & 0xFFFF_FF80 == 0
    ensures (v as int >= 0xF8) <==> Widen(v) & 0xFFFF_FFF8 == 0xFFFF_FFF8
    ensures (v as int >= 0xF0) <==> Widen(v) & 0xFFFF_FFF0 == 0xFFFF_FFF0
    ensures (v as int >= 0xE0) <==> Widen(v) & 0xFFFF_FFE0 == 0xFFFF_FFE0
  {
  }

  /** How many bytes `mapString` takes for a character that starts with
      `b`: one below 0x80, four from 0xF0, three from 0xE0, two for every
      other byte from 0x80 on (0x80..0xBF included); 0 for 0xF8..0xFF,
      which it rejects. */
  function LeadLength(b: Byte): (n: nat)
    ensures n <= 4
    ensures n == 0 <==> b >= 0xF8
  {
    if b < 0x80 then 1
    else if b >= 0xF8 then 0
    else if b >= 0xF0 then 4
    else if b >= 0xE0 then 3
    else 2
  }

  /** One character as `mapString` accepts it: a lead byte followed by as
      many continuation bytes as it announces. */
  predicate IsChar(c: seq<Byte>)
  {
    && |c| > 0
    && LeadLength(c[0]) == |c|
    && (|c| > 1 ==> !Badu(c[1]))
    && (|c| > 2 ==> !Badu(c[2]))
    && (|c| > 3 ==> !Badu(c[3]))
  }

  /** The characters `mapString` cuts from `s`, in order, up to the first
      place where the bytes do not form a character; `ok` holds when that
      place is the end of `s`. */
  datatype Chunks = Chunks(chars: seq<seq<Byte>>, ok: bool)

  function Utf8Split(s: seq<Byte>): (r: Chunks)
    ensures |r.chars| <= |s|
    ensures s != [] && r.chars == [] ==> !r.ok
    decreases |s|
  {
    if s == [] then Chunks([], true)
    else
      var n := LeadLength(s[0]);
      if n == 0 || n > |s| || !IsChar(s[..n]) then Chunks([], false)
      else
        var rest := Utf8Split(s[n..]);
        Chunks([s[..n]] + rest.chars, rest.ok)
  }

  /** Every piece is one character, so at most four bytes. */
  lemma {:induction false} SplitChars(s: seq<Byte>)
    ensures forall k | 0 <= k < |Utf8Split(s).chars| ::
      IsChar(Utf8Split(s).chars[k]) && |Utf8Split(s).chars[k]| <= 4
    decreases |s|
  {
    if s != [] {
      var n := LeadLength(s[0]);
      if !(n == 0 || n > |s| || !IsChar(s[..n])) {
        SplitChars(s[n..]);
        var cs := Utf8Split(s).chars;
        assert cs == [s[..n]] + Utf8Split(s[n..]).chars;
        forall k | 0 <= k < |cs|
          ensures IsChar(cs[k]) && |cs[k]| <= 4
        {
          if k > 0 {
            assert cs[k] == Utf8Split(s[n..]).chars[k - 1];
          }
        }
      }
    }
  }

  /** The pieces, put back together, are the bytes they were cut from: all
      of `s` when the cut succeeded, a prefix of it otherwise. */
  lemma {:induction false} SplitFlatten(s: seq<Byte>)
    ensures var f := Flatten(Utf8Split(s).chars); |f| <= |s| && f == s[..|f|]
    ensures Utf8Split(s).ok ==> Flatten(Utf8Split(s).chars) == s
    decreases |s|
  {
    if s == [] {
    } else {
      var n := LeadLength(s[0]);
      if n == 0 || n > |s| || !IsChar(s[..n]) {
        assert Utf8Split(s).chars == [];
      } else {
        var c, t := s[..n], s[n..];
        var rest := Utf8Split(t);
        assert Utf8Split(s).chars == [c] + rest.chars;
        SplitFlatten(t);
        FlattenCons(c, rest.chars);
        var f := Flatten(rest.chars);
        assert c + t[..|f|] == s[..n + |f|];
        assert rest.ok ==> c + t == s;
      }
    }
  }

  /** Where `mapString` finds no character at `pos`, the cut of the rest
      stops at once, unsuccessfully. */
  lemma SplitFailsAt(s: seq<Byte>, pos: nat)
    requires pos < |s|
    requires var n := LeadLength(s[pos]); n == 0 || pos + n > |s| || !IsChar(s[pos..pos + n])
    ensures Utf8Split(s[pos..]) == Chunks([], false)
  {
    var t := s[pos..];
    var n := LeadLength(s[pos]);
    assert t[0] == s[pos];
    if n != 0 && pos + n <= |s| {
      assert t[..n] == s[pos..pos + n];
    }
  }

  /** Cutting a character followed by anything yields that character
      first. */
  lemma SplitAfterChar(c: seq<Byte>, t: seq<Byte>)
    requires IsChar(c)
    ensures Utf8Split(c + t) == Chunks([c] + Utf8Split(t).chars, Utf8Split(t).ok)
  {
    var s := c + t;
    assert s[0] == c[0];
    assert s[..|c|] == c;
    assert s[|c|..] == t;
  }

  /** Characters put in front of any bytes are cut off first, one by
      one, and the cut then goes on as on those bytes alone. */
  lemma {:induction false} SplitPrefixed(cs: seq<seq<Byte>>, rest: seq<Byte>)
    requires forall k | 0 <= k < |cs| :: IsChar(cs[k])
    ensures Utf8Split(Flatten(cs) + rest) == Chunks(cs + Utf8Split(rest).chars, Utf8Split(rest).ok)
    decreases |cs|
  {
    if cs == [] {
      assert Flatten(cs) + rest == rest;
      assert cs + Utf8Split(rest).chars == Utf8Split(rest).chars;
    } else {
      var c, tail := cs[0], cs[1..];
      var x := Flatten(tail) + rest;
      var r := Utf8Split(rest);
      assert Utf8Split(x) == Chunks(tail + r.chars, r.ok) by {
        forall k | 0 <= k < |tail|
          ensures IsChar(tail[k])
        {
          assert tail[k] == cs[k + 1];
        }
        SplitPrefixed(tail, rest);
      }
      assert Flatten(cs) + rest == c + x by {
        assert cs == [c] + tail;
        FlattenCons(c, tail);
      }
      assert Utf8Split(c + x) == Chunks([c] + Utf8Split(x).chars, Utf8Split(x).ok) by {
        SplitAfterChar(c, x);
      }
      assert [c] + (tail + r.chars) == cs + r.chars by {
        assert cs == [c] + tail;
      }
    }
  }

  /** Conversely to `SplitFlatten`: characters put together are cut back
      into exactly those characters. */
  lemma SplitOfFlatten(cs: seq<seq<Byte>>)
    requires forall k | 0 <= k < |cs| :: IsChar(cs[k])
    ensures Utf8Split(Flatten(cs)) == Chunks(cs, true)
  {
    SplitPrefixed(cs, []);
    assert Flatten(cs) + [] == Flatten(cs);
    assert cs + [] == cs;
  }

  /** Bitwise or, on the small non-negative numbers the four-byte case of
      `findType` combines. */
  function BitOr(a: nat, b: nat): (r: nat)
    decreases a + b
  {
    if a == 0 then b
    else if b == 0 then a
    else 2 * BitOr(a / 2, b / 2) + (if a % 2 == 1 || b % 2 == 1 then 1 else 0)
  }

  /** The or of two six-bit numbers is a six-bit number, and it is 0 only
      when both are. */
  lemma {:induction false} BitOrBounds(a: nat, b: nat, width: nat)
    requires a < Pow2(width) && b < Pow2(width)
    ensures BitOr(a, b) < Pow2(width)
    ensures BitOr(a, b) >= a && BitOr(a, b) >= b
    decreases a + b
  {
    if a != 0 && b != 0 {
      assert width > 0;
      BitOrBounds(a / 2, b / 2, width - 1);
    }
  }

  function Pow2(n: nat): (r: nat)
    ensures r >= 1
  {
    if n == 0 then 1 else 2 * Pow2(n - 1)
  }

  /** `unsigned val = str[0]` on a byte from 0x80 up: the signed `char` is
      sign-extended to 32 bits. */
  const SignExtension: nat := 0xFFFF_FF00

  /** The number `findType(const string&)` computes for one to four bytes,
      as written. The four-byte case shifts the third byte's six bits by
      18, where they overlap the lead byte's three bits, instead of by 6. */
  function CodeValue(s: seq<Byte>): (v: nat)
    requires 1 <= |s| <= 4
    ensures |s| == 1 && s[0] < 0x80 ==> v == s[0]
    ensures |s| == 1 && s[0] >= 0x80 ==> v >= 0xFFFF_FF80
    ensures |s| == 2 ==> v < 0x800
    ensures |s| == 3 ==> v < 0x10000
  {
    var b: seq<int> := s;
    if |b| == 1 then (if b[0] < 0x80 then b[0] else b[0] + SignExtension)
    else if |b| == 2 then (b[0] % 32) * 0x40 + b[1] % 64
    else if |b| == 3 then (b[0] % 16) * 0x1000 + (b[1] % 64) * 0x40 + b[2] % 64
    else BitOr(b[0] % 8, b[2] % 64) * 0x40000 + (b[1] % 64) * 0x1000 + b[3] % 64
  }

  /** The classification table of `findType`, with the membership of the
      second ideograph range given as `inSecondKanjiRange` (the only place
      where the source and `ClassifyValue` differ). */
  function Classify(val: nat, inSecondKanjiRange: bool): CharType
  {
    if (0x41 <= val <= 0x5A) || (0x61 <= val <= 0x7A) || (0xFF21 <= val <= 0xFF3A) || (0xFF41 <= val <= 0xFF5A) then ROMAJI
    else if 0x3040 <= val <= 0x3096 then HIRAGANA
    else if (0x30A0 <= val <= 0x30FF && val != 0x30FB) || (0xFF66 <= val <= 0xFF9F) then KATAKANA
    else if (0x30 <= val <= 0x39) || (0xFF10 <= val <= 0xFF19) then DIGIT
    else if (0x4E00 <= val <= 0x9FFF) || inSecondKanjiRange then KANJI
    else OTHER
  }

  /** The table as written: its second ideograph range is
      0xEFA480..0xEFAB99, the UTF-8 bytes of U+F900..U+FAD9 read as one
      number, which no computed value reaches (`SecondKanjiRangeUnreachable`). */
  function ClassifyValueAsWritten(val: nat): CharType
  {
    Classify(val, 0xEFA480 <= val <= 0xEFAB99)
  }

  /** The table as evidently intended: the CJK compatibility ideographs
      U+F900..U+FAD9 are kanji. */
  function ClassifyValue(val: nat): CharType
  {
    Classify(val, 0xF900 <= val <= 0xFAD9)
  }

  /** `findType(const string&)` with the compatibility-ideograph range
      corrected: OTHER for no bytes, an error for more than four, and
      otherwise the class of the computed number. The interner records
      `FindTypeBytesAsWritten` instead. */
  function FindTypeBytes(s: seq<Byte>): (r: Result<CharType>)
    ensures r.Err? <==> |s| > 4
    ensures r.Err? ==> r.error == MalformedChar
    ensures s == [] ==> r == Ok(OTHER)
  {
    if |s| == 0 then Ok(OTHER)
    else if |s| > 4 then Err(MalformedChar)
    else Ok(ClassifyValue(CodeValue(s)))
  }

  /** `findType(const string&)` with the table as written. */
  function FindTypeBytesAsWritten(s: seq<Byte>): (r: Result<CharType>)
    ensures r.Err? <==> |s| > 4
    ensures r.Err? ==> r.error == MalformedChar
    ensures s == [] ==> r == Ok(OTHER)
  {
    if |s| == 0 then Ok(OTHER)
    else if |s| > 4 then Err(MalformedChar)
    else Ok(ClassifyValueAsWritten(CodeValue(s)))
  }

  /** The four-byte number stays below 2^24 (the shorter ones are bounded
      by `CodeValue`'s own contract). */
  lemma CodeValueBounds(s: seq<Byte>)
    requires |s| == 4
    ensures CodeValue(s) < 0x100_0000
  {
    BitOrBounds(s[0] % 8, s[2] % 64, 6);
    assert Pow2(6) == 64;
  }

  /** No sequence of one to four bytes computes a number in the second
      ideograph range as written. */
  lemma SecondKanjiRangeUnreachable(s: seq<Byte>)
    requires 1 <= |s| <= 4
    ensures !(0xEFA480 <= CodeValue(s) <= 0xEFAB99)
  {
    if |s| == 4 {
      BitOrBounds(s[0] % 8, s[2] % 64, 6);
      assert Pow2(6) == 64;
      SixBitFieldsMissRange(BitOr(s[0] % 8, s[2] % 64), s[1] % 64, s[3] % 64);
    }
  }

  /** Three six-bit fields at bits 18, 12 and 0 never make a number in
      0xEFA480..0xEFAB99: the top field would have to be 59 and the middle
      one 58, which leaves at most 0xEFA03F. */
  lemma SixBitFieldsMissRange(x: nat, y: nat, z: nat)
    requires x < 64 && y < 64 && z < 64
    ensures !(0xEFA480 <= x * 0x40000 + y * 0x1000 + z <= 0xEFAB99)
  {
    if x <= 58 {
      assert x * 0x40000 <= 58 * 0x40000;
    } else if x >= 60 {
      assert x * 0x40000 >= 60 * 0x40000;
    } else if y <= 58 {
      assert y * 0x1000 <= 58 * 0x1000;
    } else {
      assert y * 0x1000 >= 59 * 0x1000;
    }
  }

  /** The whole effect of the wrong range: as written, a character is
      classified as the intended table does, except that U+F900..U+FAD9
      comes out as OTHER instead of KANJI. */
  lemma FindTypeAsWrittenMissesCompatibilityIdeographs(s: seq<Byte>)
    ensures FindTypeBytesAsWritten(s) ==
      if 1 <= |s| <= 4 && 0xF900 <= CodeValue(s) <= 0xFAD9 then Ok(OTHER) else FindTypeBytes(s)
  {
    if 1 <= |s| <= 4 {
      SecondKanjiRangeUnreachable(s);
    }
  }

  /** U+F900, bytes EF A4 80: OTHER as written, KANJI as intended. */
  lemma CompatibilityIdeographExample()
    ensures FindTypeBytesAsWritten([0xEF, 0xA4, 0x80]) == Ok(OTHER)
    ensures FindTypeBytes([0xEF, 0xA4, 0x80]) == Ok(KANJI)
  {
    assert CodeValue([0xEF, 0xA4, 0x80]) == 0xF900;
  }

  /** An independent UTF-8 encoder for code points up to U+10FFFF. */
  function Encode(cp: nat): (s: seq<Byte>)
    requires cp < 0x11_0000
  {
    if cp < 0x80 then [cp]
    else if cp < 0x800 then [0xC0 + cp / 0x40, 0x80 + cp % 0x40]
    else if cp < 0x10000 then [0xE0 + cp / 0x1000, 0x80 + cp / 0x40 % 0x40, 0x80 + cp % 0x40]
    else [0xF0 + cp / 0x40000, 0x80 + cp / 0x1000 % 0x40, 0x80 + cp / 0x40 % 0x40, 0x80 + cp % 0x40]
  }

  /** Every encoded code point is one character for `mapString`. */
  lemma EncodeIsChar(cp: nat)
    requires cp < 0x11_0000
    ensures IsChar(Encode(cp))
    ensures Utf8Split(Encode(cp)) == Chunks([Encode(cp)], true)
  {
    var s := Encode(cp);
    assert s + [] == s;
    SplitAfterChar(s, []);
  }

  /** Below U+10000 the computed number is the code point itself. */
  lemma CodeValueOfEncode(cp: nat)
    requires cp < 0x10000
    ensures CodeValue(Encode(cp)) == cp
  {
    if 0x80 <= cp < 0x800 {
      CodeValueOfEncodeTwo(cp);
    } else if 0x800 <= cp {
      CodeValueOfEncodeThree(cp);
    }
  }

  lemma CodeValueOfEncodeTwo(cp: nat)
    requires 0x80 <= cp < 0x800
    ensures CodeValue(Encode(cp)) == cp
  {
    var a, b := cp / 0x40, cp % 0x40;
    assert Encode(cp) == [0xC0 + a, 0x80 + b];
    assert (0xC0 + a) % 32 == a && (0x80 + b) % 64 == b;
  }

  lemma CodeValueOfEncodeThree(cp: nat)
    requires 0x800 <= cp < 0x10000
    ensures CodeValue(Encode(cp)) == cp
  {
    var a, b, c := cp / 0x1000, cp / 0x40 % 0x40, cp % 0x40;
    assert Encode(cp) == [0xE0 + a, 0x80 + b, 0x80 + c];
    assert (0xE0 + a) % 16 == a && (0x80 + b) % 64 == b && (0x80 + c) % 64 == c;
    assert cp == a * 0x1000 + b * 0x40 + c;
  }

  /** Above U+FFFF the computed number is at least 0x10000 too. */
  lemma CodeValueOfEncodeAbove(cp: nat)
    requires 0x10000 <= cp < 0x11_0000
    ensures CodeValue(Encode(cp)) >= 0x10000
  {
    var s := Encode(cp);
    var hi := cp / 0x40000;
    var mid := cp / 0x1000 % 0x40;
    assert s[0] % 8 == hi;
    assert s[1] % 64 == mid;
    BitOrBounds(hi, s[2] % 64, 6);
    assert Pow2(6) == 64;
    if hi == 0 {
      assert mid >= 16;
    }
  }

  /** On the encoding of any code point, `findType` answers the class of
      that code point. Above U+FFFF the number it computes differs from the
      code point (the third byte is shifted by 18), but both are at least
      0x10000, where every class is OTHER. */
  lemma FindTypeOfEncode(cp: nat)
    requires cp < 0x11_0000
    ensures FindTypeBytes(Encode(cp)) == Ok(ClassifyValue(cp))
  {
    if cp >= 0x10000 {
      CodeValueOfEncodeAbove(cp);
    } else {
      CodeValueOfEncode(cp);
    }
  }

  /** The same for `findType` as written, which the interner records: the
      class of the code point, except OTHER on U+F900..U+FAD9. */
  lemma FindTypeAsWrittenOfEncode(cp: nat)
    requires cp < 0x11_0000
    ensures FindTypeBytesAsWritten(Encode(cp)) == Ok(if 0xF900 <= cp <= 0xFAD9 then OTHER else ClassifyValue(cp))
  {
    FindTypeOfEncode(cp);
    FindTypeAsWrittenMissesCompatibilityIdeographs(Encode(cp));
    if cp >= 0x10000 {
      CodeValueOfEncodeAbove(cp);
    } else {
      CodeValueOfEncode(cp);
    }
  }

  /** Spot checks of the table on encoded characters. */
  lemma FindTypeExamples()
    ensures FindTypeBytes(Encode(0x3042)) == Ok(HIRAGANA)  // HIRAGANA LETTER A
    ensures FindTypeBytes(Encode(0x30A2)) == Ok(KATAKANA)  // KATAKANA LETTER A
    ensures FindTypeBytes(Encode(0x30FB)) == Ok(OTHER)     // KATAKANA MIDDLE DOT
    ensures FindTypeBytes(Encode(0x4E2D)) == Ok(KANJI)
    ensures FindTypeBytes(Encode(0xFF21)) == Ok(ROMAJI)    // FULLWIDTH LATIN CAPITAL A
    ensures FindTypeBytes([0x41]) == Ok(ROMAJI)
    ensures FindTypeBytes([0x35]) == Ok(DIGIT)
    ensures FindTypeBytes([0x80]) == Ok(OTHER)             // sign-extended to 0xFFFFFF80
    ensures FindTypeBytesAsWritten(Encode(0x3042)) == Ok(HIRAGANA)
    ensures FindTypeBytesAsWritten(Encode(0x4E2D)) == Ok(KANJI)
    ensures FindTypeBytesAsWritten(Encode(0xF900)) == Ok(OTHER)  // CJK COMPATIBILITY IDEOGRAPH-F900
  {
    FindTypeAsWrittenOfEncode(0x3042);
    FindTypeAsWrittenOfEncode(0x4E2D);
    FindTypeAsWrittenOfEncode(0xF900);
    FindTypeOfEncode(0x3042);
    FindTypeOfEncode(0x30A2);
    FindTypeOfEncode(0x30FB);
    FindTypeOfEncode(0x4E2D);
    FindTypeOfEncode(0xFF21);
  }
}
