/** `StringUtilEuc` and `StringUtilSjis`: the two fixed double-byte
    codecs. Neither keeps any state; a character is its one or two bytes
    read as a 16-bit number, high byte first. The classes differ only in
    which lead bytes stand alone, where `showChar` switches to two bytes,
    and in the `findType` table, so both are one `Scheme` here. */
module DoubleByte {
  import opened Types
  import Utf8Codec
  import KyteaStrings

  datatype Scheme = EUC | SJIS

  /** The lead-byte test of `mapString`: `!(maskl1 & b)` for EUC; for SJIS
      also the half-width katakana bytes 0xA0..0xDF stand alone. */
  predicate SingleLead(sch: Scheme, b: Byte)
  {
    match sch
    case EUC => b < 0x80
    case SJIS => b < 0x80 || 0xA0 <= b <= 0xDF
  }

  /** `eucm(a, b)` / `sjism(a, b)`: the high byte, shifted by 8, or-ed
      with the low byte, in an `unsigned short`. */
  function Combine(a: Byte, b: Byte): (c: KyteaChar)
    ensures High(c) == a && Low(c) == b
  {
    a * 0x100 + b
  }

  /** The high byte `euc1`/`sjis1`, `(c & 0xFF00) >> 8`. */
  function High(c: KyteaChar): Byte { c / 0x100 }

  /** The low byte `euc2`/`sjis2`, `c & 0xFF`. */
  function Low(c: KyteaChar): Byte { c % 0x100 }

  /** The other direction: every code is its two bytes put back together. */
  lemma SplitCombine(c: KyteaChar)
    ensures Combine(High(c), Low(c)) == c
  {
  }

  /** The shifts and masks of `eucm`, `euc1` and `euc2` are the arithmetic
      of `Combine`, `High` and `Low`. */
  lemma CombineIsShiftOr(a: bv8, b: bv8)
    ensures Combine(a as int, b as int) == (((a as bv16) << 8) | (b as bv16)) as int
    ensures High(Combine(a as int, b as int)) == a as int && Low(Combine(a as int, b as int)) == b as int
  {
  }

  /** The EUC test of two bytes, `maskl1 & str[0] & str[1]` with signed
      `char`s, holds exactly when both bytes are at least 0x80. */
  lemma EucPairIsMaskTest(a: bv8, b: bv8)
    ensures Utf8Codec.Widen(a) & Utf8Codec.Widen(b) & 0xFFFF_FF80 != 0 <==> a as int >= 0x80 && b as int >= 0x80
  {
  }

  /** `mapChar(str, add)`; `add` plays no part. One byte must be a lead
      that stands alone; for two bytes EUC demands that both have the top
      bit set, SJIS only that the first is not a single-byte lead. Any
      other length is an error, as is anything the tests reject. */
  function MapChar(sch: Scheme, str: seq<Byte>): (r: Result<KyteaChar>)
    ensures r.Err? ==> r.error == EncodingError(str)
  {
    if |str| == 1 then
      if SingleLead(sch, str[0]) then Ok(str[0]) else Err(EncodingError(str))
    else if |str| == 2 then
      match sch
      case EUC =>
        if str[0] >= 0x80 && str[1] >= 0x80 then Ok(Combine(str[0], str[1])) else Err(EncodingError(str))
      case SJIS =>
        if !SingleLead(SJIS, str[0]) then Ok(Combine(str[0], str[1])) else Err(EncodingError(str))
    else Err(EncodingError(str))
  }

  /** Below this code `showChar` writes one byte, from it on two. */
  function ShowLimit(sch: Scheme): nat
  {
    match sch
    case EUC => 0x8E
    case SJIS => 0xFF
  }

  /** `showChar(c)`: one or two bytes in a NUL-terminated array read back
      as a C string, so a NUL high byte gives nothing and a NUL low byte
      is dropped. */
  function ShowChar(sch: Scheme, c: KyteaChar): (r: seq<Byte>)
    ensures |r| <= 2 && 0 !in r
  {
    if c < ShowLimit(sch) then UntilNul([c]) else UntilNul([High(c), Low(c)])
  }

  /** The codes `mapChar` can return for bytes without a NUL. */
  predicate IsCode(sch: Scheme, c: KyteaChar)
  {
    || (0 < c < 0x100 && SingleLead(sch, c))
    || (match sch
        case EUC => High(c) >= 0x80 && Low(c) >= 0x80
        case SJIS => High(c) >= 0x80 && !SingleLead(SJIS, High(c)) && Low(c) != 0)
  }

  /** A character accepted by `mapChar` is shown back as its own bytes
      (the bytes of a C string hold no NUL), and its code is a code. */
  lemma MapCharThenShowChar(sch: Scheme, str: seq<Byte>)
    requires MapChar(sch, str).Ok? && 0 !in str
    ensures ShowChar(sch, MapChar(sch, str).value) == str
    ensures IsCode(sch, MapChar(sch, str).value)
  {
    var c := MapChar(sch, str).value;
    if |str| == 1 {
      assert str[0] != 0;
    } else {
      assert str[1] != 0 && High(c) == str[0] && Low(c) == str[1];
    }
  }

  /** Conversely every code is shown as bytes that `mapChar` maps back to
      that code: `showChar` and `mapChar` are inverse on codes. */
  lemma ShowCharThenMapChar(sch: Scheme, c: KyteaChar)
    requires IsCode(sch, c)
    ensures 0 !in ShowChar(sch, c) && MapChar(sch, ShowChar(sch, c)) == Ok(c)
  {
    if 0 < c < 0x100 && SingleLead(sch, c) {
      assert c < ShowLimit(sch);
      assert ShowChar(sch, c) == [c];
    } else {
      assert c >= ShowLimit(sch);
      assert ShowChar(sch, c) == [High(c), Low(c)];
    }
  }

  /** The EUC `findType(c)` table, on the two bytes of `c`. */
  function EucType(c: KyteaChar): CharType
  {
    var c1 := High(c);
    var c2 := Low(c);
    if (0x30 <= c2 <= 0x39) || (c1 == 0xA3 && 0xB0 <= c2 <= 0xB9) then DIGIT
    else if (0x41 <= c2 <= 0x5A) || (0x61 <= c2 <= 0x7A)
      || (c1 == 0xA3 && ((0xC1 <= c2 <= 0xDA) || (0xE1 <= c2 <= 0xFA))) then ROMAJI
    else if c1 == 0xA4 && 0xA1 <= c2 <= 0xF3 then HIRAGANA
    else if (c1 == 0xA5 && 0xA1 <= c2 <= 0xF6) || (c1 == 0xA1 && c2 == 0xBC) || c1 == 0x8E then KATAKANA
    else if 0xB0 <= c1 <= 0xF4 then KANJI
    else OTHER
  }

  /** The SJIS `findType(c)` table, on the two bytes of `c`. */
  function SjisType(c: KyteaChar): CharType
  {
    var c1 := High(c);
    var c2 := Low(c);
    if (c1 == 0 && 0x30 <= c2 <= 0x39) || (c1 == 0x82 && 0x4F <= c2 <= 0x58) then DIGIT
    else if (c1 == 0 && ((0x41 <= c2 <= 0x5A) || (0x61 <= c2 <= 0x7A)))
      || (c1 == 0x82 && ((0x60 <= c2 <= 0x79) || (0x81 <= c2 <= 0x9A))) then ROMAJI
    else if c1 == 0x82 && 0x9F <= c2 <= 0xF1 then HIRAGANA
    else if (c1 == 0x83 && 0x40 <= c2 <= 0x96) || (c1 == 0x81 && c2 == 0x5B) || (c1 == 0 && 0xA6 <= c2 <= 0xDF) then KATAKANA
    else if (0x88 <= c1 <= 0x9F) || (0xE0 <= c1 <= 0xEA) then KANJI
    else OTHER
  }

  /** Each class of the EUC table on its own, for every code: the rows
      are tested in order, so a low byte that is an ASCII digit or letter
      wins over the row of its high byte; otherwise the rows do not
      overlap. */
  lemma EucTypeRows(c: KyteaChar)
    ensures var c1, c2 := High(c), Low(c);
      && (EucType(c) == DIGIT <==> (0x30 <= c2 <= 0x39) || (c1 == 0xA3 && 0xB0 <= c2 <= 0xB9))
      && (EucType(c) == ROMAJI <==>
            (0x41 <= c2 <= 0x5A) || (0x61 <= c2 <= 0x7A) || (c1 == 0xA3 && ((0xC1 <= c2 <= 0xDA) || (0xE1 <= c2 <= 0xFA))))
      && (EucType(c) == HIRAGANA <==> c1 == 0xA4 && 0xA1 <= c2 <= 0xF3)
      && (EucType(c) == KATAKANA <==>
            (c1 == 0xA5 && 0xA1 <= c2 <= 0xF6) || (c1 == 0xA1 && c2 == 0xBC)
            || (c1 == 0x8E && !(0x30 <= c2 <= 0x39) && !(0x41 <= c2 <= 0x5A) && !(0x61 <= c2 <= 0x7A)))
      && (EucType(c) == KANJI <==>
            0xB0 <= c1 <= 0xF4 && !(0x30 <= c2 <= 0x39) && !(0x41 <= c2 <= 0x5A) && !(0x61 <= c2 <= 0x7A))
  {
  }

  /** On the two-byte codes EUC `mapChar` accepts, both bytes are at least
      0x80, so the class depends on the rows of the JIS X 0208 table only. */
  lemma EucTypeOfTwoByteCode(c: KyteaChar)
    requires IsCode(EUC, c) && c >= 0x100
    ensures var c1, c2 := High(c), Low(c);
      && (EucType(c) == DIGIT <==> c1 == 0xA3 && 0xB0 <= c2 <= 0xB9)
      && (EucType(c) == ROMAJI <==> c1 == 0xA3 && ((0xC1 <= c2 <= 0xDA) || (0xE1 <= c2 <= 0xFA)))
      && (EucType(c) == KATAKANA <==> (c1 == 0xA5 && 0xA1 <= c2 <= 0xF6) || (c1 == 0xA1 && c2 == 0xBC) || c1 == 0x8E)
      && (EucType(c) == KANJI <==> 0xB0 <= c1 <= 0xF4)
  {
    EucTypeRows(c);
  }

  /** Each class of the SJIS table on its own, for every code. The rows
      name disjoint sets of codes, so the order of the tests does not
      matter. */
  lemma SjisTypeRows(c: KyteaChar)
    ensures var c1, c2 := High(c), Low(c);
      && (SjisType(c) == DIGIT <==> (c1 == 0 && 0x30 <= c2 <= 0x39) || (c1 == 0x82 && 0x4F <= c2 <= 0x58))
      && (SjisType(c) == ROMAJI <==>
            (c1 == 0 && ((0x41 <= c2 <= 0x5A) || (0x61 <= c2 <= 0x7A)))
            || (c1 == 0x82 && ((0x60 <= c2 <= 0x79) || (0x81 <= c2 <= 0x9A))))
      && (SjisType(c) == HIRAGANA <==> c1 == 0x82 && 0x9F <= c2 <= 0xF1)
      && (SjisType(c) == KATAKANA <==>
            (c1 == 0x83 && 0x40 <= c2 <= 0x96) || (c1 == 0x81 && c2 == 0x5B) || (c1 == 0 && 0xA6 <= c2 <= 0xDF))
      && (SjisType(c) == KANJI <==> (0x88 <= c1 <= 0x9F) || (0xE0 <= c1 <= 0xEA))
  {
  }

  /** `findType(KyteaChar c)`. */
  function FindType(sch: Scheme, c: KyteaChar): (t: CharType)
    ensures t in {KANJI, KATAKANA, HIRAGANA, ROMAJI, DIGIT, OTHER}
  {
    match sch
    case EUC => EucType(c)
    case SJIS => SjisType(c)
  }

  /** `findType(const string&)`: the type of the code `mapChar` gives,
      or its error. */
  function FindTypeOf(sch: Scheme, str: seq<Byte>): (r: Result<CharType>)
    ensures r.Ok? <==> MapChar(sch, str).Ok?
  {
    match MapChar(sch, str)
    case Ok(c) => Ok(FindType(sch, c))
    case Err(e) => Err(e)
  }

  /** `getEncoding()`. */
  function EncodingOf(sch: Scheme): Encoding
  {
    match sch
    case EUC => ENCODING_EUC
    case SJIS => ENCODING_SJIS
  }

  /** `getEncodingString()`. */
  function EncodingName(sch: Scheme): string
  {
    match sch
    case EUC => "euc"
    case SJIS => "sjis"
  }

  /** `mapChar` in the unchecked build (`KYTEA_SAFE` undefined), the same
      for EUC and SJIS: the lead-byte tests are compiled out, so one or two
      bytes are packed as they are, and only another length throws. */
  function MapCharUnchecked(str: seq<Byte>): (r: Result<KyteaChar>)
    ensures r.Ok? <==> 1 <= |str| <= 2
    ensures r.Ok? && |str| == 2 ==> High(r.value) == str[0] && Low(r.value) == str[1]
    ensures r.Err? ==> r.error == EncodingError(str)
  {
    if |str| == 1 then Ok(str[0])
    else if |str| == 2 then Ok(Combine(str[0], str[1]))
    else Err(EncodingError(str))
  }

  /** The checked build only adds errors: whatever it accepts, the
      unchecked build maps to the same code. EUC `A4` alone is one byte
      the checked build rejects and the unchecked one packs as 0xA4. */
  lemma CheckedAgreesWithUnchecked(sch: Scheme, str: seq<Byte>)
    ensures MapChar(sch, str).Ok? ==> MapCharUnchecked(str) == MapChar(sch, str)
    ensures MapCharUnchecked(str).Err? ==> MapChar(sch, str).Err?
    ensures MapChar(EUC, [0xA4]).Err? && MapCharUnchecked([0xA4]) == Ok(0xA4)
  {
  }

  /** How many bytes `mapString` hands to `mapChar` at the start of `str`:
      one for a lead that stands alone, otherwise `substr(pos, 2)`, which
      is one byte at the very end. */
  function SliceLength(sch: Scheme, str: seq<Byte>): (n: nat)
    requires str != []
    ensures 1 <= n <= 2 && n <= |str|
  {
    if SingleLead(sch, str[0]) || |str| == 1 then 1 else 2
  }

  /** The pieces `mapString` hands to `mapChar`, in order. */
  function Slices(sch: Scheme, str: seq<Byte>): seq<seq<Byte>>
    decreases |str|
  {
    if str == [] then []
    else
      var n := SliceLength(sch, str);
      [str[..n]] + Slices(sch, str[n..])
  }

  /** The codes of the pieces, or the error of the first piece that
      `mapChar` rejects. */
  function MapSlices(sch: Scheme, ps: seq<seq<Byte>>): (r: Result<seq<KyteaChar>>)
    ensures r.Ok? ==> |r.value| == |ps|
    decreases |ps|
  {
    if ps == [] then Ok([])
    else
      match MapChar(sch, ps[0])
      case Err(e) => Err(e)
      case Ok(c) =>
        match MapSlices(sch, ps[1..])
        case Err(e) => Err(e)
        case Ok(cs) => Ok([c] + cs)
  }

  /** What `mapString(str)` returns or throws. */
  function Decode(sch: Scheme, str: seq<Byte>): (r: Result<seq<KyteaChar>>)
    ensures r.Ok? ==> |r.value| == |Slices(sch, str)|
    ensures r.Err? ==> exists p | p in Slices(sch, str) :: r.error == EncodingError(p)
  {
    MapSlicesSpec(sch, Slices(sch, str));
    MapSlices(sch, Slices(sch, str))
  }

  /** The pieces cover the string exactly, each is one or two bytes, and
      a two-byte piece starts with a lead that does not stand alone. */
  lemma {:induction false} SlicesFlatten(sch: Scheme, str: seq<Byte>)
    ensures Flatten(Slices(sch, str)) == str
    ensures forall k | 0 <= k < |Slices(sch, str)| ::
      var p := Slices(sch, str)[k];
      1 <= |p| <= 2 && (|p| == 2 ==> !SingleLead(sch, p[0]))
    decreases |str|
  {
    if str != [] {
      var n := SliceLength(sch, str);
      var rest := Slices(sch, str[n..]);
      SlicesFlatten(sch, str[n..]);
      FlattenCons(str[..n], rest);
      assert str == str[..n] + str[n..];
      assert Slices(sch, str) == [str[..n]] + rest;
      forall k | 0 <= k < |Slices(sch, str)|
        ensures var p := Slices(sch, str)[k];
          1 <= |p| <= 2 && (|p| == 2 ==> !SingleLead(sch, p[0]))
      {
        if k > 0 {
          assert Slices(sch, str)[k] == rest[k - 1];
        }
      }
    }
  }

  /** The codes of the pieces each come from their own piece, when no
      piece is rejected; otherwise the error names the first rejected
      piece. */
  lemma {:induction false} MapSlicesSpec(sch: Scheme, ps: seq<seq<Byte>>)
    ensures MapSlices(sch, ps).Ok? <==> forall k | 0 <= k < |ps| :: MapChar(sch, ps[k]).Ok?
    ensures MapSlices(sch, ps).Ok? ==>
      forall k | 0 <= k < |ps| :: MapSlices(sch, ps).value[k] == MapChar(sch, ps[k]).value
    ensures MapSlices(sch, ps).Err? ==>
      exists k | 0 <= k < |ps| :: && MapChar(sch, ps[k]).Err?
                                   && MapSlices(sch, ps).error == EncodingError(ps[k])
                                   && forall j | 0 <= j < k :: MapChar(sch, ps[j]).Ok?
    decreases |ps|
  {
    if ps != [] {
      MapSlicesSpec(sch, ps[1..]);
      if MapChar(sch, ps[0]).Err? {
        assert MapChar(sch, ps[0]).Err? && MapSlices(sch, ps).error == EncodingError(ps[0]);
      }
      if MapChar(sch, ps[0]).Ok? && MapSlices(sch, ps[1..]).Ok? {
        var cs := MapSlices(sch, ps[1..]).value;
        forall k | 0 <= k < |ps|
          ensures MapSlices(sch, ps).value[k] == MapChar(sch, ps[k]).value
        {
          if k > 0 {
            assert ps[1..][k - 1] == ps[k];
          }
        }
      } else if MapChar(sch, ps[0]).Ok? {
        var k :| && 0 <= k < |ps[1..]| && MapChar(sch, ps[1..][k]).Err?
                 && MapSlices(sch, ps[1..]).error == EncodingError(ps[1..][k])
                 && forall j | 0 <= j < k :: MapChar(sch, ps[1..][j]).Ok?;
        assert ps[1..][k] == ps[k + 1];
        assert forall j | 0 < j < k + 1 :: ps[1..][j - 1] == ps[j];
      }
      assert MapSlices(sch, ps).Ok? <==> forall k | 0 <= k < |ps| :: MapChar(sch, ps[k]).Ok? by {
        assert forall k | 0 < k < |ps| :: ps[1..][k - 1] == ps[k];
      }
    }
  }

  /** Plain ASCII passes through both codecs unchanged: each byte is its
      own code. */
  lemma {:induction false} DecodeAscii(sch: Scheme, str: seq<Byte>)
    requires forall k | 0 <= k < |str| :: str[k] < 0x80
    ensures Decode(sch, str) == Ok(str)
    decreases |str|
  {
    if str != [] {
      assert SliceLength(sch, str) == 1;
      assert Slices(sch, str) == [str[..1]] + Slices(sch, str[1..]);
      assert forall k | 0 <= k < |str[1..]| :: str[1..][k] == str[k + 1];
      DecodeAscii(sch, str[1..]);
      assert [str[0]] + str[1..] == str;
    }
  }

  /** `mapString(str)`: walk the bytes, hand one or two at a time to
      `mapChar`, and collect the codes into a new string; the first piece
      `mapChar` rejects ends the walk with its error. */
  method MapString(sch: Scheme, str: seq<Byte>) returns (r: Result<KyteaStrings.KyteaString>)
    ensures r.Ok? <==> Decode(sch, str).Ok?
    ensures r.Err? ==> r.error == Decode(sch, str).error
    ensures r.Ok? ==> fresh(r.value) && fresh(r.value.impl) && fresh(r.value.impl.chars) && r.value.Valid()
    ensures r.Ok? ==> r.value.Contents() == Decode(sch, str).value
  {
    var pos := 0;
    var len := |str|;
    var ret: seq<KyteaChar> := [];
    assert str[pos..] == str;
    assert Decode(sch, str).Ok? ==> [] + Decode(sch, str).value == Decode(sch, str).value;
    while pos < len
      invariant pos <= len
      invariant Decode(sch, str) == Prefixed(ret, Decode(sch, str[pos..]))
    {
      var n := if SingleLead(sch, str[pos]) || pos + 1 == len then 1 else 2;
      var c := MapChar(sch, str[pos..pos + n]);
      DecodeStep(sch, str, pos, n, ret);
      if c.Err? {
        return Err(c.error);
      }
      ret := ret + [c.value];
      pos := pos + n;
    }
    assert str[pos..] == [];
    var s := KyteaStrings.FromSeq(ret);
    r := Ok(s);
  }

  /** `pre` in front of the codes of a result, or its error. */
  function Prefixed(pre: seq<KyteaChar>, r: Result<seq<KyteaChar>>): Result<seq<KyteaChar>>
  {
    match r
    case Ok(cs) => Ok(pre + cs)
    case Err(e) => Err(e)
  }

  /** One piece of the walk: the codes of `str[pos..]` are the code of
      its first piece followed by those of the rest. */
  lemma DecodeStep(sch: Scheme, str: seq<Byte>, pos: nat, n: nat, pre: seq<KyteaChar>)
    requires pos < |str| && n == (if SingleLead(sch, str[pos]) || pos + 1 == |str| then 1 else 2)
    ensures var m := MapChar(sch, str[pos..pos + n]);
      Prefixed(pre, Decode(sch, str[pos..])) ==
      if m.Err? then Err(m.error) else Prefixed(pre + [m.value], Decode(sch, str[pos + n..]))
  {
    var t := str[pos..];
    assert SliceLength(sch, t) == n;
    assert t[..n] == str[pos..pos + n] && t[n..] == str[pos + n..];
    assert Slices(sch, t) == [t[..n]] + Slices(sch, t[n..]);
    assert ([t[..n]] + Slices(sch, t[n..]))[1..] == Slices(sch, t[n..]);
    var m := MapChar(sch, t[..n]);
    if m.Ok? {
      var rest := Decode(sch, t[n..]);
      if rest.Ok? {
        assert Decode(sch, t) == Ok([m.value] + rest.value);
        assert pre + ([m.value] + rest.value) == pre + [m.value] + rest.value;
      }
    }
  }

  /** Spot checks of the two tables. The EUC ideographic space A1 A1 is
      OTHER; A1 BC, the long-vowel bar, is KATAKANA. */
  lemma TableExamples()
    ensures FindTypeOf(EUC, [0xA1, 0xA1]) == Ok(OTHER)
    ensures FindTypeOf(EUC, [0xA1, 0xBC]) == Ok(KATAKANA)
    ensures FindTypeOf(EUC, [0xA4, 0xA2]) == Ok(HIRAGANA)
    ensures FindTypeOf(EUC, [0xB0, 0xA1]) == Ok(KANJI)
    ensures FindTypeOf(EUC, [0xA3, 0xB5]) == Ok(DIGIT)
    ensures FindTypeOf(EUC, [0x8E, 0xB1]) == Ok(KATAKANA)
    ensures FindTypeOf(SJIS, [0x82, 0xA0]) == Ok(HIRAGANA)
    ensures FindTypeOf(SJIS, [0xB1]) == Ok(KATAKANA)
    ensures FindTypeOf(SJIS, [0x88, 0x9F]) == Ok(KANJI)
    ensures FindTypeOf(SJIS, [0x82, 0x60]) == Ok(ROMAJI)
    ensures FindTypeOf(EUC, [0xB1]).Err? && FindTypeOf(SJIS, [0x82]).Err?
  {
  }
}
