/** `StringUtil`, the base class: what every codec offers, and the three
    operations written once for all of them (`showString`,
    `getTypeString`, `checkEqual`). The virtual calls are dispatched on
    `Util`, which names the subclass and carries the tables its calls
    read. */
module StringUtils {
  import opened Types
  import Utf8Codec
  import Utf8Util
  import DoubleByte
  import KyteaStrings

  /** A `StringUtilUtf8` with its tables, or one of the stateless codecs. */
  datatype Util = Utf8(v: Utf8Util.Vocab) | Legacy(sch: DoubleByte.Scheme)

  /** The virtual `showChar(c)`. */
  function ShowCharOf(u: Util, c: KyteaChar): (r: Result<seq<Byte>>)
    ensures u.Legacy? ==> r.Ok?
  {
    match u
    case Utf8(v) => Utf8Util.ShowCharOf(v, c)
    case Legacy(sch) => Ok(DoubleByte.ShowChar(sch, c))
  }

  /** UTF-8 `findType(KyteaChar)` indexes `charTypes_` unchecked, so the
      code must be one the tables know. */
  predicate HasType(u: Util, c: KyteaChar)
  {
    u.Utf8? ==> c < |u.v.types|
  }

  /** The virtual `findType(KyteaChar c)`. */
  function TypeOf(u: Util, c: KyteaChar): (t: CharType)
    requires HasType(u, c)
    ensures u.Utf8? && Utf8Util.TypesFollowNames(u.v) ==> Ok(t) == Utf8Codec.FindTypeBytesAsWritten(u.v.names[c])
    ensures u.Legacy? && DoubleByte.IsCode(u.sch, c) ==> Ok(t) == DoubleByte.FindTypeOf(u.sch, DoubleByte.ShowChar(u.sch, c))
  {
    match u
    case Utf8(v) => v.types[c]
    case Legacy(sch) =>
      if DoubleByte.IsCode(sch, c) then
        DoubleByte.ShowCharThenMapChar(sch, c);
        DoubleByte.FindType(sch, c)
      else DoubleByte.FindType(sch, c)
  }

  /** What `showString` writes for the codes `cs`: the `showChar` of each
      code in order, or the first error `showChar` throws. */
  function ShowAll(u: Util, cs: seq<KyteaChar>): (r: Result<seq<Byte>>)
    decreases |cs|
  {
    if cs == [] then Ok([])
    else
      match ShowAll(u, cs[..|cs| - 1])
      case Err(e) => Err(e)
      case Ok(bs) =>
        match ShowCharOf(u, cs[|cs| - 1])
        case Err(e) => Err(e)
        case Ok(b) => Ok(bs + b)
  }

  /** What `getTypeString` writes for the codes `cs`: one type per code. */
  function TypeString(u: Util, cs: seq<KyteaChar>): (r: seq<CharType>)
    requires forall k | 0 <= k < |cs| :: HasType(u, cs[k])
    ensures |r| == |cs|
    decreases |cs|
  {
    if cs == [] then [] else TypeString(u, cs[..|cs| - 1]) + [TypeOf(u, cs[|cs| - 1])]
  }

  /** The string of types holds, at each position, the type of the code
      there. */
  lemma {:induction false} TypeStringAt(u: Util, cs: seq<KyteaChar>)
    requires forall k | 0 <= k < |cs| :: HasType(u, cs[k])
    ensures forall k | 0 <= k < |cs| :: TypeString(u, cs)[k] == TypeOf(u, cs[k])
    decreases |cs|
  {
    if cs != [] {
      var init := cs[..|cs| - 1];
      TypeStringAt(u, init);
      assert forall k | 0 <= k < |init| :: init[k] == cs[k];
    }
  }

  /** When each code shows as its own piece, the codes show as the pieces
      written one after the other. */
  lemma {:induction false} ShowAllOk(u: Util, cs: seq<KyteaChar>, bs: seq<seq<Byte>>)
    requires |cs| == |bs| && forall k | 0 <= k < |cs| :: ShowCharOf(u, cs[k]) == Ok(bs[k])
    ensures ShowAll(u, cs) == Ok(Flatten(bs))
    decreases |cs|
  {
    if cs != [] {
      var n := |cs| - 1;
      assert forall k | 0 <= k < n :: cs[..n][k] == cs[k] && bs[..n][k] == bs[k];
      ShowAllOk(u, cs[..n], bs[..n]);
      assert bs == bs[..n] + [bs[n]];
      FlattenSnoc(bs[..n], bs[n]);
    }
  }

  /** `showString` throws exactly when some code has no name. */
  lemma {:induction false} ShowAllErr(u: Util, cs: seq<KyteaChar>)
    ensures ShowAll(u, cs).Err? <==> exists k | 0 <= k < |cs| :: ShowCharOf(u, cs[k]).Err?
    ensures ShowAll(u, cs).Err? ==> ShowAll(u, cs).error == IndexError
    decreases |cs|
  {
    if cs != [] {
      var n := |cs| - 1;
      ShowAllErr(u, cs[..n]);
      assert forall k | 0 <= k < n :: cs[..n][k] == cs[k];
      if ShowAll(u, cs[..n]).Err? {
        var k :| 0 <= k < n && ShowCharOf(u, cs[..n][k]).Err?;
        assert ShowCharOf(u, cs[k]).Err?;
      }
    }
  }

  /** Once a code has no name, later codes change nothing: the first
      error is the answer. */
  lemma {:induction false} ShowAllStopsAtError(u: Util, cs: seq<KyteaChar>, i: nat)
    requires i <= |cs| && ShowAll(u, cs[..i]).Err?
    ensures ShowAll(u, cs) == ShowAll(u, cs[..i])
    decreases |cs| - i
  {
    if i < |cs| {
      assert cs[..i + 1][..i] == cs[..i];
      ShowAllStopsAtError(u, cs, i + 1);
    } else {
      assert cs[..i] == cs;
    }
  }

  /** `showString(c)`. */
  method ShowString(u: Util, s: KyteaStrings.KyteaString) returns (r: Result<seq<Byte>>)
    requires s.Valid()
    ensures r == ShowAll(u, s.Contents())
  {
    ghost var cs := s.Contents();
    var buff: seq<Byte> := [];
    var i := 0;
    while i < s.Length()
      invariant i <= s.Length() == |cs|
      invariant ShowAll(u, cs[..i]) == Ok(buff)
    {
      assert cs[..i + 1][..i] == cs[..i];
      var c := ShowCharOf(u, s.At(i).value);
      if c.Err? {
        ShowAllStopsAtError(u, cs, i + 1);
        return Err(c.error);
      }
      buff := buff + c.value;
      i := i + 1;
    }
    assert cs[..i] == cs;
    r := Ok(buff);
  }

  /** `getTypeString(str)`. */
  method GetTypeString(u: Util, s: KyteaStrings.KyteaString) returns (r: seq<CharType>)
    requires s.Valid() && forall k | 0 <= k < |s.Contents()| :: HasType(u, s.Contents()[k])
    ensures r == TypeString(u, s.Contents())
  {
    ghost var cs := s.Contents();
    r := [];
    var i := 0;
    while i < s.Length()
      invariant i <= s.Length() == |cs|
      invariant r == TypeString(u, cs[..i])
    {
      assert cs[..i + 1][..i] == cs[..i];
      r := r + [TypeOf(u, s.At(i).value)];
      i := i + 1;
    }
    assert cs[..i] == cs;
  }

  /** The virtual `serialize()`: the UTF-8 names after the first, and
      nothing for the double-byte codecs. */
  function SerializeOf(u: Util): (r: seq<Byte>)
    ensures u.Legacy? ==> r == []
  {
    match u
    case Utf8(v) => Utf8Util.SerializeOf(v)
    case Legacy(_) => []
  }

  /** `checkEqual(rhs)`: serialize both and throw when they differ. */
  function CheckEqual(lhs: Util, rhs: Util): (r: Outcome)
    ensures r.Pass? <==> SerializeOf(lhs) == SerializeOf(rhs)
    ensures r.Fail? ==> r.error == SerializationMismatch
  {
    if SerializeOf(lhs) != SerializeOf(rhs) then Fail(SerializationMismatch) else Pass
  }

  /** The virtual `getEncoding()`. */
  function EncodingOf(u: Util): Encoding
  {
    match u
    case Utf8(_) => ENCODING_UTF8
    case Legacy(sch) => DoubleByte.EncodingOf(sch)
  }

  /** The virtual `getEncodingString()`. */
  function EncodingName(u: Util): string
  {
    match u
    case Utf8(_) => "utf8"
    case Legacy(sch) => DoubleByte.EncodingName(sch)
  }

  /** The encoding tag and its name each tell the three codecs apart. */
  lemma EncodingsDistinct(a: Util, b: Util)
    ensures EncodingOf(a) == EncodingOf(b) <==> (a.Utf8? && b.Utf8?) || (a.Legacy? && b.Legacy? && a.sch == b.sch)
    ensures EncodingName(a) == EncodingName(b) <==> EncodingOf(a) == EncodingOf(b)
  {
    assert "utf8"[0] != "euc"[0] && "utf8"[0] != "sjis"[0] && "euc"[0] != "sjis"[0];
  }

  /** `checkEqual` is an equivalence: every util matches itself, and the
      answer does not depend on the order. */
  lemma CheckEqualIsEquivalence(a: Util, b: Util, c: Util)
    ensures CheckEqual(a, a).Pass?
    ensures CheckEqual(a, b) == CheckEqual(b, a)
    ensures CheckEqual(a, b).Pass? && CheckEqual(b, c).Pass? ==> CheckEqual(a, c).Pass?
  {
  }

  /** The double-byte codecs serialize to nothing, so EUC and SJIS pass
      `checkEqual` against each other, while a freshly built UTF-8 util,
      which serializes "KTHRDO", fails against both. */
  lemma CheckEqualAcrossCodecs(x: DoubleByte.Scheme, y: DoubleByte.Scheme)
    ensures CheckEqual(Legacy(x), Legacy(y)) == Pass
    ensures CheckEqual(Utf8(Utf8Util.Seed()), Legacy(x)) == Fail(SerializationMismatch)
  {
    Utf8Util.SeedSerialize();
  }

  /** For UTF-8 tables whose names after the empty string are characters,
      comparing serializations compares the names themselves: the bytes
      cut back into the same characters. */
  lemma CheckEqualComparesNames(a: Utf8Util.Vocab, b: Utf8Util.Vocab)
    requires |a.names| >= 1 && a.names[0] == [] && forall i | 1 <= i < |a.names| :: Utf8Codec.IsChar(a.names[i])
    requires |b.names| >= 1 && b.names[0] == [] && forall i | 1 <= i < |b.names| :: Utf8Codec.IsChar(b.names[i])
    ensures CheckEqual(Utf8(a), Utf8(b)).Pass? <==> a.names == b.names
  {
    SerializeIsFlatten(a);
    SerializeIsFlatten(b);
    if Utf8Util.SerializeOf(a) == Utf8Util.SerializeOf(b) {
      assert a.names[1..] == b.names[1..];
      assert a.names == [a.names[0]] + a.names[1..];
      assert b.names == [b.names[0]] + b.names[1..];
    }
  }

  /** The serialization cuts back into the names after the first. */
  lemma SerializeIsFlatten(v: Utf8Util.Vocab)
    requires |v.names| >= 1 && forall i | 1 <= i < |v.names| :: Utf8Codec.IsChar(v.names[i])
    ensures Utf8Codec.Utf8Split(Utf8Util.SerializeOf(v)) == Utf8Codec.Chunks(v.names[1..], true)
  {
    var cs := v.names[1..];
    assert forall k | 0 <= k < |cs| :: cs[k] == v.names[k + 1];
    Utf8Codec.SplitOfFlatten(cs);
    if |v.names| == 1 {
      assert cs == [];
    }
  }

  /** UTF-8 round trip: `showString(mapString(str))` is `str` for every
      string `mapString` accepts, as long as every id stays below 2^16. */
  lemma Utf8RoundTrip(v: Utf8Util.Vocab, str: seq<Byte>)
    requires Utf8Util.WellFormed(v) && Utf8Codec.Utf8Split(str).ok
    requires |Utf8Util.InternAll(v, str).vocab.names| <= Utf8Util.IdModulus
    ensures ShowAll(Utf8(Utf8Util.InternAll(v, str).vocab), Utf8Util.InternAll(v, str).ids) == Ok(str)
  {
    var chunks := Utf8Codec.Utf8Split(str).chars;
    Utf8Codec.SplitChars(str);
    Utf8Codec.SplitFlatten(str);
    var m := Utf8Util.InternAll(v, str);
    Utf8Util.MapAllThenShow(v, chunks);
    ShowAllOk(Utf8(m.vocab), m.ids, chunks);
  }

  /** UTF-8 types: on tables whose types follow their names (those that
      `unserialize` builds), `getTypeString(mapString(str))` gives the
      `findType` class of each character of `str`. */
  lemma Utf8TypeString(v: Utf8Util.Vocab, str: seq<Byte>)
    requires Utf8Util.WellFormed(v) && Utf8Util.TypesFollowNames(v) && Utf8Codec.Utf8Split(str).ok
    requires |Utf8Util.InternAll(v, str).vocab.names| <= Utf8Util.IdModulus
    ensures var m := Utf8Util.InternAll(v, str);
      var chunks := Utf8Codec.Utf8Split(str).chars;
      && (forall k | 0 <= k < |m.ids| :: HasType(Utf8(m.vocab), m.ids[k]))
      && |m.ids| == |chunks|
      && forall k | 0 <= k < |chunks| ::
           Ok(TypeString(Utf8(m.vocab), m.ids)[k]) == Utf8Codec.FindTypeBytesAsWritten(chunks[k])
  {
    var chunks := Utf8Codec.Utf8Split(str).chars;
    Utf8Codec.SplitChars(str);
    var m := Utf8Util.InternAll(v, str);
    Utf8Util.MapAllThenShow(v, chunks);
    Utf8Util.MapAllKeepsTypes(v, chunks);
    assert forall k | 0 <= k < |m.ids| :: HasType(Utf8(m.vocab), m.ids[k]);
    TypeStringAt(Utf8(m.vocab), m.ids);
  }

  /** Double-byte round trip: `showString(mapString(str))` is `str` for
      every string without a NUL that `mapString` accepts. */
  lemma LegacyRoundTrip(sch: DoubleByte.Scheme, str: seq<Byte>)
    requires DoubleByte.Decode(sch, str).Ok? && 0 !in str
    ensures ShowAll(Legacy(sch), DoubleByte.Decode(sch, str).value) == Ok(str)
  {
    var ps := DoubleByte.Slices(sch, str);
    var cs := DoubleByte.Decode(sch, str).value;
    DoubleByte.SlicesFlatten(sch, str);
    DoubleByte.MapSlicesSpec(sch, ps);
    forall k | 0 <= k < |ps|
      ensures ShowCharOf(Legacy(sch), cs[k]) == Ok(ps[k])
    {
      SliceHasNoNul(ps, k);
      DoubleByte.MapCharThenShowChar(sch, ps[k]);
    }
    ShowAllOk(Legacy(sch), cs, ps);
  }

  /** A piece of a string without a NUL has no NUL. */
  lemma SliceHasNoNul(ps: seq<seq<Byte>>, k: nat)
    requires k < |ps| && 0 !in Flatten(ps)
    ensures 0 !in ps[k]
  {
    assert ps == ps[..k] + [ps[k]] + ps[k + 1..];
    FlattenAppend(ps[..k] + [ps[k]], ps[k + 1..]);
    FlattenSnoc(ps[..k], ps[k]);
  }

  /** Double-byte types: `getTypeString(mapString(str))` gives the
      `findType(const string&)` of each piece `mapString` cuts. */
  lemma LegacyTypeString(sch: DoubleByte.Scheme, str: seq<Byte>)
    requires DoubleByte.Decode(sch, str).Ok?
    ensures var ps := DoubleByte.Slices(sch, str);
      var cs := DoubleByte.Decode(sch, str).value;
      forall k | 0 <= k < |ps| :: Ok(TypeString(Legacy(sch), cs)[k]) == DoubleByte.FindTypeOf(sch, ps[k])
  {
    var ps := DoubleByte.Slices(sch, str);
    var cs := DoubleByte.Decode(sch, str).value;
    DoubleByte.MapSlicesSpec(sch, ps);
    TypeStringAt(Legacy(sch), cs);
  }

  /** The classes of plain ASCII, written independently of the tables. */
  function AsciiClass(b: Byte): CharType
    requires b < 0x80
  {
    if '0' as int <= b <= '9' as int then DIGIT
    else if 'A' as int <= b <= 'Z' as int || 'a' as int <= b <= 'z' as int then ROMAJI
    else OTHER
  }

  /** All three codecs give an ASCII byte the same type. */
  lemma AsciiTypesAgree(b: Byte)
    requires b < 0x80
    ensures Utf8Codec.FindTypeBytes([b]) == Ok(AsciiClass(b))
    ensures Utf8Codec.FindTypeBytesAsWritten([b]) == Ok(AsciiClass(b))
    ensures DoubleByte.FindTypeOf(DoubleByte.EUC, [b]) == Ok(AsciiClass(b))
    ensures DoubleByte.FindTypeOf(DoubleByte.SJIS, [b]) == Ok(AsciiClass(b))
  {
    assert Utf8Codec.CodeValue([b]) == b;
  }
}
