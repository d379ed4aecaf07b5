/** `StringUtilUtf8`: the growing vocabulary that interns UTF-8 characters
    as 16-bit ids.

    The state is three tables: `charIds` from a character's bytes to its
    id, `charNames` from an id to the bytes, and `charTypes` from an id to
    the character type. The functions on `Vocab` say what each operation
    does to the three tables; the class `StringUtilUtf8` holds them as
    fields and its methods are proved against those functions. */
module Utf8Util {
  import opened Types
  import opened Utf8Codec
  import opened KyteaStrings

  /** Ids are `charTypes_.size()` stored into an `unsigned short`. */
  const IdModulus: nat := 0x10000

  datatype Vocab = Vocab(ids: map<seq<Byte>, KyteaChar>, names: seq<seq<Byte>>, types: seq<CharType>)

  /** The tables agree: one type per name, no name twice, the id of the
      `i`th name is `i` truncated to 16 bits, and no other key has an id. */
  ghost predicate WellFormed(v: Vocab)
  {
    && |v.names| == |v.types|
    && (forall i, j | 0 <= i < j < |v.names| :: v.names[i] != v.names[j])
    && (forall i | 0 <= i < |v.names| :: v.names[i] in v.ids && v.ids[v.names[i]] == i % IdModulus)
    && (forall s | s in v.ids :: s in v.names)
  }

  /** `unordered_map::insert`: a key already present keeps its value. */
  function Insert(m: map<seq<Byte>, KyteaChar>, k: seq<Byte>, id: KyteaChar): (r: map<seq<Byte>, KyteaChar>)
  {
    if k in m then m else m[k := id]
  }

  /** The tables the constructor builds: the empty string, then K, T, H,
      R, D and O, with the raw types 6 and then 4. */
  const SeedNames: seq<seq<Byte>> := [[], [0x4B], [0x54], [0x48], [0x52], [0x44], [0x4F]]
  const SeedTypes: seq<CharType> := [6 as char, 4 as char, 4 as char, 4 as char, 4 as char, 4 as char, 4 as char]

  /** The ids the constructor's `insert` calls leave: name `i` gets id `i`. */
  function InsertAll(names: seq<seq<Byte>>): (r: map<seq<Byte>, KyteaChar>)
    requires |names| <= IdModulus
    decreases |names|
  {
    if names == [] then map[]
    else Insert(InsertAll(names[..|names| - 1]), names[|names| - 1], |names| - 1)
  }

  function Seed(): Vocab
  {
    Vocab(InsertAll(SeedNames), SeedNames, SeedTypes)
  }

  /** The tables right after `unserialize` has cleared them and interned
      the empty string. */
  const EmptyEntry: Vocab := Vocab(map[[] := 0], [[]], [OTHER])

  /** An id, or the error `mapChar` throws, and the tables afterwards. */
  datatype Mapped = Mapped(vocab: Vocab, id: Result<KyteaChar>)

  /** `mapChar(str, add)`. A known string gives its id. An unknown one
      gives 0 without `add`; with `add` it is inserted into `charIds`
      under the next id before `findType` runs, so more than four bytes
      leave that entry behind when `findType` throws. */
  function MapCharStep(v: Vocab, s: seq<Byte>, add: bool): (r: Mapped)
    ensures |s| <= 4 ==> r.id.Ok?
    ensures r.id.Err? ==> r.id.error == MalformedChar
  {
    if s in v.ids then Mapped(v, Ok(v.ids[s]))
    else if !add then Mapped(v, Ok(0))
    else
      var id := |v.types| % IdModulus;
      var ids := v.ids[s := id];
      match FindTypeBytesAsWritten(s)
      case Err(e) => Mapped(Vocab(ids, v.names, v.types), Err(e))
      case Ok(t) => Mapped(Vocab(ids, v.names + [s], v.types + [t]), Ok(id))
  }

  /** `showChar(c)`, checked: the name of id `c`. */
  function ShowCharOf(v: Vocab, c: KyteaChar): (r: Result<seq<Byte>>)
    ensures r.Ok? <==> c < |v.names|
    ensures r.Ok? ==> r.value == v.names[c]
    ensures r.Err? ==> r.error == IndexError
  {
    if c < |v.names| then Ok(v.names[c]) else Err(IndexError)
  }

  /** `serialize()`: the names after the first, concatenated. */
  function SerializeOf(v: Vocab): (r: seq<Byte>)
  {
    if |v.names| <= 1 then [] else Flatten(v.names[1..])
  }

  /** Interning a new character appends its bytes to what `serialize()`
      writes, so the dump lists the characters in id order. */
  lemma SerializeAppend(v: Vocab, w: Vocab, s: seq<Byte>)
    requires |v.names| >= 1 && w.names == v.names + [s]
    ensures SerializeOf(w) == SerializeOf(v) + s
  {
    assert w.names[1..] == v.names[1..] + [s];
    FlattenSnoc(v.names[1..], s);
  }

  lemma SeedNamesDistinct()
    ensures forall i, j | 0 <= i < j < |SeedNames| :: SeedNames[i] != SeedNames[j]
  {
    forall i, j | 0 <= i < j < |SeedNames|
      ensures SeedNames[i] != SeedNames[j]
    {
      if i == 0 {
        assert |SeedNames[j]| == 1;
      } else {
        assert SeedNames[i][0] != SeedNames[j][0];
      }
    }
  }

  /** Inserting distinct names gives name `i` the id `i`, and no other
      key an id. */
  lemma {:induction false} InsertAllSpec(names: seq<seq<Byte>>)
    requires |names| <= IdModulus
    requires forall i, j | 0 <= i < j < |names| :: names[i] != names[j]
    ensures forall i | 0 <= i < |names| :: names[i] in InsertAll(names) && InsertAll(names)[names[i]] == i
    ensures forall k | k in InsertAll(names) :: k in names
    decreases |names|
  {
    if names != [] {
      var init := names[..|names| - 1];
      var last := names[|names| - 1];
      InsertAllSpec(init);
      var m := InsertAll(init);
      assert last !in m by {
        forall i | 0 <= i < |init|
          ensures init[i] != last
        {
          assert init[i] == names[i];
        }
      }
      forall i | 0 <= i < |names|
        ensures names[i] in InsertAll(names) && InsertAll(names)[names[i]] == i
      {
        if i < |init| {
          assert names[i] == init[i];
        }
      }
      forall k | k in InsertAll(names)
        ensures k in names
      {
        if k != last {
          var i :| 0 <= i < |init| && init[i] == k;
          assert names[i] == k;
        }
      }
    }
  }

  /** `serialize()` on the constructor's tables is "KTHRDO". */
  lemma SeedSerialize()
    ensures SerializeOf(Seed()) == [0x4B, 0x54, 0x48, 0x52, 0x44, 0x4F]
  {
    var k: seq<Byte>, t: seq<Byte>, h: seq<Byte>, r: seq<Byte>, d: seq<Byte>, o: seq<Byte> :=
      [0x4B], [0x54], [0x48], [0x52], [0x44], [0x4F];
    assert SeedNames[1..] == [k, t, h, r, d, o];
    assert Flatten([o]) == o by { assert [o][1..] == []; }
    assert Flatten([d, o]) == d + o by { assert [d, o][1..] == [o]; }
    assert Flatten([r, d, o]) == r + d + o by { assert [r, d, o][1..] == [d, o]; }
    assert Flatten([h, r, d, o]) == h + r + d + o by { assert [h, r, d, o][1..] == [r, d, o]; }
    assert Flatten([t, h, r, d, o]) == t + h + r + d + o by { assert [t, h, r, d, o][1..] == [h, r, d, o]; }
    assert Flatten([k, t, h, r, d, o]) == k + t + h + r + d + o by { assert [k, t, h, r, d, o][1..] == [t, h, r, d, o]; }
  }

  /** The seed tables are well formed, and hold what the constructor
      promises. */
  lemma SeedWellFormed()
    ensures WellFormed(Seed())
    ensures ShowCharOf(Seed(), 0) == Ok([]) && ShowCharOf(Seed(), 6) == Ok([0x4F])
    ensures Seed().types[0] == 6 as char && Seed().types[1] == 4 as char
  {
    SeedNamesDistinct();
    InsertedWellFormed(SeedNames, SeedTypes);
  }

  /** Mapping any seed name, with or without `add`, gives its seed id and
      leaves the seeded tables as they are. */
  lemma MapSeed(i: nat, add: bool)
    requires i < |SeedNames|
    ensures MapCharStep(Seed(), SeedNames[i], add) == Mapped(Seed(), Ok(i))
  {
    SeedNamesDistinct();
    InsertAllSpec(SeedNames);
  }

  /** Tables built by inserting distinct names in order are well formed. */
  lemma InsertedWellFormed(names: seq<seq<Byte>>, types: seq<CharType>)
    requires |names| == |types| <= IdModulus
    requires forall i, j | 0 <= i < j < |names| :: names[i] != names[j]
    ensures WellFormed(Vocab(InsertAll(names), names, types))
  {
    InsertAllSpec(names);
  }

  /** `mapChar` on a known string, or on an unknown one without `add`,
      changes nothing; with `add`, an unknown string of at most four bytes
      is appended to the names with its `findType` class, under the next
      id, and the tables stay well formed. */
  lemma MapCharKeepsWellFormed(v: Vocab, s: seq<Byte>, add: bool)
    requires WellFormed(v) && |s| <= 4
    ensures var m := MapCharStep(v, s, add);
      && WellFormed(m.vocab)
      && (s in v.ids || !add ==> m.vocab == v)
      && (s !in v.ids && add ==>
            && m.vocab.names == v.names + [s]
            && m.vocab.types == v.types + [FindTypeBytesAsWritten(s).value]
            && m.id == Ok(|v.names| % IdModulus))
  {
    var m := MapCharStep(v, s, add);
    if s !in v.ids && add {
      var w := m.vocab;
      forall i | 0 <= i < |v.names|
        ensures v.names[i] != s
      {
        assert v.names[i] in v.ids;
      }
      forall i | 0 <= i < |w.names|
        ensures w.names[i] in w.ids && w.ids[w.names[i]] == i % IdModulus
      {
        if i < |v.names| {
          assert w.names[i] == v.names[i];
        }
      }
      forall k | k in w.ids
        ensures k in w.names
      {
        if k != s {
          assert k in v.ids;
          var i :| 0 <= i < |v.names| && v.names[i] == k;
          assert w.names[i] == k;
        } else {
          assert w.names[|v.names|] == s;
        }
      }
    }
  }

  /** Interning then showing gives the bytes back, as long as every id is
      still below 2^16 afterwards. */
  lemma MapCharThenShowChar(v: Vocab, s: seq<Byte>)
    requires WellFormed(v) && |s| <= 4
    requires |MapCharStep(v, s, true).vocab.names| <= IdModulus
    ensures ShowCharOf(MapCharStep(v, s, true).vocab, MapCharStep(v, s, true).id.value) == Ok(s)
  {
    if s in v.ids {
      ShowKnown(v, s);
    } else {
      ShowAdded(v, s);
    }
  }

  lemma ShowKnown(v: Vocab, s: seq<Byte>)
    requires WellFormed(v) && s in v.ids && |v.names| <= IdModulus
    ensures ShowCharOf(v, v.ids[s]) == Ok(s)
  {
    var i :| 0 <= i < |v.names| && v.names[i] == s;
    assert v.ids[s] == i % IdModulus == i;
  }

  lemma ShowAdded(v: Vocab, s: seq<Byte>)
    requires WellFormed(v) && s !in v.ids && |s| <= 4 && |v.names| < IdModulus
    ensures var m := MapCharStep(v, s, true);
      m.vocab.names == v.names + [s] && m.id == Ok(|v.names|) && ShowCharOf(m.vocab, |v.names|) == Ok(s)
  {
    assert FindTypeBytesAsWritten(s).Ok?;
  }

  /** Interning is idempotent: once a string has been mapped with `add`,
      mapping it again returns the same id and changes nothing. */
  lemma MapCharIdempotent(v: Vocab, s: seq<Byte>)
    requires |s| <= 4
    ensures var m := MapCharStep(v, s, true);
      MapCharStep(m.vocab, s, true) == m && MapCharStep(m.vocab, s, false) == m
  {
  }

  /** More than four unknown bytes with `add`: `findType` throws after the
      id was inserted, so the tables are no longer well formed, and a
      second call returns that id, whose name was never recorded. */
  lemma MapCharMalformedLeavesId(v: Vocab, s: seq<Byte>)
    requires WellFormed(v) && s !in v.ids && |s| > 4 && |v.names| < IdModulus
    ensures var m := MapCharStep(v, s, true);
      && m.id == Err(MalformedChar)
      && m.vocab.names == v.names && m.vocab.types == v.types
      && s in m.vocab.ids && !WellFormed(m.vocab)
      && MapCharStep(m.vocab, s, true).id == Ok(|v.names|)
      && ShowCharOf(m.vocab, |v.names|) == Err(IndexError)
  {
  }

  /** `mapChar` with `add` on each string of `cs` in order: the tables after
      the last, and the ids. */
  datatype MappedAll = MappedAll(vocab: Vocab, ids: seq<KyteaChar>)

  function MapAll(v: Vocab, cs: seq<seq<Byte>>): (r: MappedAll)
    requires forall k | 0 <= k < |cs| :: |cs[k]| <= 4
    ensures |r.ids| == |cs|
    decreases |cs|
  {
    if cs == [] then MappedAll(v, [])
    else
      var prev := MapAll(v, cs[..|cs| - 1]);
      var m := MapCharStep(prev.vocab, cs[|cs| - 1], true);
      MappedAll(m.vocab, prev.ids + [m.id.value])
  }

  /** `MapAll` on one more string is one more `mapChar`. */
  lemma MapAllStep(v: Vocab, done: seq<seq<Byte>>, c: seq<Byte>)
    requires forall k | 0 <= k < |done| :: |done[k]| <= 4
    requires |c| <= 4
    ensures var prev := MapAll(v, done);
      var m := MapCharStep(prev.vocab, c, true);
      MapAll(v, done + [c]) == MappedAll(m.vocab, prev.ids + [m.id.value])
  {
    assert (done + [c])[..|done|] == done;
  }

  /** Mapping a sequence only appends names. */
  lemma {:induction false} MapAllGrows(v: Vocab, cs: seq<seq<Byte>>)
    requires forall k | 0 <= k < |cs| :: |cs[k]| <= 4
    ensures v.names <= MapAll(v, cs).vocab.names
    decreases |cs|
  {
    if cs != [] {
      var init := cs[..|cs| - 1];
      MapAllGrows(v, init);
      assert MapAll(v, init).vocab.names <= MapAll(v, cs).vocab.names;
    }
  }

  /** Mapping a sequence keeps the tables well formed. */
  lemma {:induction false} MapAllKeepsWellFormed(v: Vocab, cs: seq<seq<Byte>>)
    requires WellFormed(v) && forall k | 0 <= k < |cs| :: |cs[k]| <= 4
    ensures WellFormed(MapAll(v, cs).vocab)
    decreases |cs|
  {
    if cs != [] {
      var init := cs[..|cs| - 1];
      MapAllKeepsWellFormed(v, init);
      MapCharKeepsWellFormed(MapAll(v, init).vocab, cs[|cs| - 1], true);
    }
  }

  /** Every id that mapping a sequence returns shows as the string it was
      returned for, as long as every id stays below 2^16. */
  lemma {:induction false} MapAllThenShow(v: Vocab, cs: seq<seq<Byte>>)
    requires WellFormed(v) && forall k | 0 <= k < |cs| :: |cs[k]| <= 4
    requires |MapAll(v, cs).vocab.names| <= IdModulus
    ensures forall k | 0 <= k < |cs| :: ShowCharOf(MapAll(v, cs).vocab, MapAll(v, cs).ids[k]) == Ok(cs[k])
    decreases |cs|
  {
    if cs != [] {
      var init := cs[..|cs| - 1];
      var last := cs[|cs| - 1];
      var prev := MapAll(v, init);
      var r := MapAll(v, cs);
      var m := MapCharStep(prev.vocab, last, true);
      assert r.vocab == m.vocab && r.ids == prev.ids + [m.id.value];
      assert WellFormed(prev.vocab) by { MapAllKeepsWellFormed(v, init); }
      assert prev.vocab.names <= r.vocab.names by { MapCharKeepsWellFormed(prev.vocab, last, true); }
      assert ShowCharOf(r.vocab, m.id.value) == Ok(last) by { MapCharThenShowChar(prev.vocab, last); }
      MapAllThenShow(v, init);
      assert cs == init + [last];
      ShowAfterSnoc(prev, r, init, last, m.id.value);
    }
  }

  /** The ids of the earlier strings still show as those strings once the
      names have grown, and the new id shows as the new string. */
  lemma ShowAfterSnoc(prev: MappedAll, r: MappedAll, init: seq<seq<Byte>>, last: seq<Byte>, x: KyteaChar)
    requires |prev.ids| == |init| && r.ids == prev.ids + [x]
    requires prev.vocab.names <= r.vocab.names
    requires forall k | 0 <= k < |init| :: ShowCharOf(prev.vocab, prev.ids[k]) == Ok(init[k])
    requires ShowCharOf(r.vocab, x) == Ok(last)
    ensures forall k | 0 <= k < |init| + 1 :: ShowCharOf(r.vocab, r.ids[k]) == Ok((init + [last])[k])
  {
    forall k | 0 <= k < |init| + 1
      ensures ShowCharOf(r.vocab, r.ids[k]) == Ok((init + [last])[k])
    {
      if k < |init| {
        var c := prev.ids[k];
        assert r.ids[k] == c;
        assert ShowCharOf(prev.vocab, c) == Ok(init[k]);
        assert c < |prev.vocab.names| && r.vocab.names[c] == prev.vocab.names[c];
      }
    }
  }

  /** Every id's type is the `findType` class of its name. The seed
      tables do not have this (their types are the raw 6 and 4); the
      tables `unserialize` starts from do. */
  ghost predicate TypesFollowNames(v: Vocab)
  {
    && |v.names| == |v.types|
    && forall i | 0 <= i < |v.names| :: FindTypeBytesAsWritten(v.names[i]) == Ok(v.types[i])
  }

  lemma EmptyEntryTypes()
    ensures WellFormed(EmptyEntry) && TypesFollowNames(EmptyEntry)
  {
  }

  /** Mapping a sequence keeps every type the class of its name. */
  lemma {:induction false} MapAllKeepsTypes(v: Vocab, cs: seq<seq<Byte>>)
    requires WellFormed(v) && TypesFollowNames(v) && forall k | 0 <= k < |cs| :: |cs[k]| <= 4
    ensures TypesFollowNames(MapAll(v, cs).vocab)
    decreases |cs|
  {
    if cs != [] {
      var init := cs[..|cs| - 1];
      var prev := MapAll(v, init).vocab;
      MapAllKeepsTypes(v, init);
      assert WellFormed(prev) by { MapAllKeepsWellFormed(v, init); }
      MapCharKeepsWellFormed(prev, cs[|cs| - 1], true);
    }
  }

  /** Mapping distinct strings none of which is known appends exactly
      those strings to the names. */
  lemma {:induction false} MapAllFresh(v: Vocab, cs: seq<seq<Byte>>)
    requires WellFormed(v) && forall k | 0 <= k < |cs| :: |cs[k]| <= 4
    requires forall i, j | 0 <= i < j < |cs| :: cs[i] != cs[j]
    requires forall k | 0 <= k < |cs| :: cs[k] !in v.ids
    ensures MapAll(v, cs).vocab.names == v.names + cs
    decreases |cs|
  {
    if cs == [] {
      assert v.names + cs == v.names;
    } else {
      var init := cs[..|cs| - 1];
      var last := cs[|cs| - 1];
      assert forall k | 0 <= k < |init| :: init[k] == cs[k];
      MapAllFresh(v, init);
      var prev := MapAll(v, init).vocab;
      MapAllKeepsWellFormed(v, init);
      FreshAfterOthers(v, init, last, prev);
      MapCharKeepsWellFormed(prev, last, true);
      MapAllStep(v, init, last);
      assert cs == init + [last];
      assert (v.names + init) + [last] == v.names + cs;
    }
  }

  /** A string that is neither known to `v` nor among the strings added
      since is not known afterwards. */
  lemma FreshAfterOthers(v: Vocab, init: seq<seq<Byte>>, last: seq<Byte>, prev: Vocab)
    requires WellFormed(v) && WellFormed(prev) && prev.names == v.names + init
    requires last !in v.ids && forall k | 0 <= k < |init| :: init[k] != last
    ensures last !in prev.ids
  {
    forall i | 0 <= i < |prev.names|
      ensures prev.names[i] != last
    {
      if i < |v.names| {
        assert v.names[i] in v.ids;
      } else {
        assert prev.names[i] == init[i - |v.names|];
      }
    }
  }

  /** Two well-formed vocabularies with the same names have the same ids. */
  lemma IdsDetermined(v: Vocab, w: Vocab)
    requires WellFormed(v) && WellFormed(w) && v.names == w.names
    ensures v.ids == w.ids
  {
    forall k | k in v.ids
      ensures k in w.ids && v.ids[k] == w.ids[k]
    {
      var i :| 0 <= i < |v.names| && v.names[i] == k;
    }
    forall k | k in w.ids
      ensures k in v.ids
    {
      var i :| 0 <= i < |w.names| && w.names[i] == k;
    }
  }

  /** `unserialize(serialize())` gives back the same names and ids when the
      first name is the empty string and every other name is one UTF-8
      character (as `mapString` interns them). Only the types may change:
      the seed entries get their `findType` class instead of 6 and 4. So a
      vocabulary passes `checkEqual` against its own reloaded copy. */
  lemma UnserializeSerialize(v: Vocab)
    requires WellFormed(v) && |v.names| >= 1 && v.names[0] == []
    requires forall i | 1 <= i < |v.names| :: IsChar(v.names[i])
    ensures Utf8Split(SerializeOf(v)) == Chunks(v.names[1..], true)
    ensures InternAll(EmptyEntry, SerializeOf(v)).vocab.names == v.names
    ensures InternAll(EmptyEntry, SerializeOf(v)).vocab.ids == v.ids
    ensures SerializeOf(InternAll(EmptyEntry, SerializeOf(v)).vocab) == SerializeOf(v)
  {
    var cs := v.names[1..];
    NamesAfterFirst(v);
    SplitOfFlatten(cs);
    assert WellFormed(EmptyEntry);
    MapAllFresh(EmptyEntry, cs);
    MapAllKeepsWellFormed(EmptyEntry, cs);
    assert EmptyEntry.names + cs == v.names;
    IdsDetermined(MapAll(EmptyEntry, cs).vocab, v);
  }

  /** The names after the empty string are characters, distinct, and
      none of them is the empty string. */
  lemma NamesAfterFirst(v: Vocab)
    requires WellFormed(v) && |v.names| >= 1 && v.names[0] == []
    requires forall i | 1 <= i < |v.names| :: IsChar(v.names[i])
    ensures var cs := v.names[1..];
      && (forall k | 0 <= k < |cs| :: IsChar(cs[k]) && cs[k] !in EmptyEntry.ids)
      && (forall i, j | 0 <= i < j < |cs| :: cs[i] != cs[j])
  {
    var cs := v.names[1..];
    forall k | 0 <= k < |cs|
      ensures IsChar(cs[k]) && cs[k] !in EmptyEntry.ids
    {
      assert cs[k] == v.names[k + 1];
    }
    forall i, j | 0 <= i < j < |cs|
      ensures cs[i] != cs[j]
    {
      assert cs[i] == v.names[i + 1] && cs[j] == v.names[j + 1];
    }
  }

  /** The constructor's tables survive the round trip. */
  lemma SeedUnserializeSerialize()
    ensures InternAll(EmptyEntry, SerializeOf(Seed())).vocab.names == Seed().names
    ensures InternAll(EmptyEntry, SerializeOf(Seed())).vocab.ids == Seed().ids
  {
    SeedWellFormed();
    var v := Seed();
    forall i | 1 <= i < |v.names|
      ensures IsChar(v.names[i])
    {
      assert |v.names[i]| == 1 && v.names[i][0] < 0x80;
    }
    UnserializeSerialize(v);
  }

  /** The lead-byte tests of `mapString` at `pos`: how many bytes the
      character there takes, or 0 when `mapString` throws there (a lead
      byte from 0xF8, too few bytes left, or a byte that is not a
      continuation byte). */
  method CharLengthAt(str: seq<Byte>, pos: nat) returns (n: nat)
    requires pos < |str|
    ensures n == 0 <==> (LeadLength(str[pos]) == 0 || pos + LeadLength(str[pos]) > |str|
                         || !IsChar(str[pos..pos + LeadLength(str[pos])]))
    ensures n != 0 ==> n == LeadLength(str[pos])
  {
    var len := |str|;
    var b := str[pos];
    n := 0;
    if b < 0x80 {
      n := 1;
    } else if b >= 0xF8 {
    } else if b >= 0xF0 {
      if !(pos + 3 >= len || Badu(str[pos + 1]) || Badu(str[pos + 2]) || Badu(str[pos + 3])) {
        n := 4;
      }
    } else if b >= 0xE0 {
      if !(pos + 2 >= len || Badu(str[pos + 1]) || Badu(str[pos + 2])) {
        n := 3;
      }
    } else {
      if !(pos + 1 >= len || Badu(str[pos + 1])) {
        n := 2;
      }
    }
    var m := LeadLength(b);
    if m != 0 && pos + m <= len {
      var c := str[pos..pos + m];
      assert c[0] == b;
      assert m > 1 ==> c[1] == str[pos + 1];
      assert m > 2 ==> c[2] == str[pos + 2];
      assert m > 3 ==> c[3] == str[pos + 3];
    }
  }

  /** What `mapString(str)` does to the tables, and the ids it returns
      when it succeeds: `mapChar` with `add` on each character of the cut,
      in order. */
  function InternAll(v: Vocab, str: seq<Byte>): (r: MappedAll)
  {
    SplitChars(str);
    MapAll(v, Utf8Split(str).chars)
  }

  /** The characters `mapString` has cut so far are the bytes before
      `pos`; where no character starts at `pos`, those are all the
      characters the cut finds. */
  lemma SplitFailedAt(str: seq<Byte>, pos: nat, done: seq<seq<Byte>>)
    requires pos < |str| && Flatten(done) == str[..pos]
    requires forall k | 0 <= k < |done| :: IsChar(done[k])
    requires var n := LeadLength(str[pos]); n == 0 || pos + n > |str| || !IsChar(str[pos..pos + n])
    ensures Utf8Split(str) == Chunks(done, false)
  {
    SplitFailsAt(str, pos);
    SplitPrefixed(done, str[pos..]);
    assert str[..pos] + str[pos..] == str;
    assert done + [] == done;
  }

  /** The loop has consumed all of `str`: the cut succeeded with exactly
      the characters it found. */
  lemma SplitFinished(str: seq<Byte>, done: seq<seq<Byte>>)
    requires Flatten(done) == str[..|str|]
    requires forall k | 0 <= k < |done| :: IsChar(done[k])
    ensures Utf8Split(str) == Chunks(done, true)
  {
    assert str[..|str|] == str;
    SplitOfFlatten(done);
  }

  lemma FlattenStep(str: seq<Byte>, pos: nat, n: nat, done: seq<seq<Byte>>)
    requires pos + n <= |str| && Flatten(done) == str[..pos]
    ensures Flatten(done + [str[pos..pos + n]]) == str[..pos + n]
  {
    var c := str[pos..pos + n];
    FlattenSnoc(done, c);
    assert str[..pos] + c == str[..pos + n];
  }



  class StringUtilUtf8 {
    var charIds: map<seq<Byte>, KyteaChar>
    var charNames: seq<seq<Byte>>
    var charTypes: seq<CharType>

    function Vocabulary(): Vocab
      reads this
    {
      Vocab(charIds, charNames, charTypes)
    }

    /** `StringUtilUtf8()`: the seven seed entries. */
    constructor ()
      ensures Vocabulary() == Seed()
    {
      charIds, charNames, charTypes := map[], [], [];
      new;
      var i := 0;
      while i < 7
        invariant 0 <= i <= 7
        invariant charIds == InsertAll(SeedNames[..i]) && charNames == SeedNames[..i] && charTypes == SeedTypes[..i]
      {
        assert SeedNames[..i + 1][..i] == SeedNames[..i];
        charIds := Insert(charIds, SeedNames[i], i);
        charTypes := charTypes + [if i == 0 then 6 as char else 4 as char];
        charNames := charNames + [SeedNames[i]];
        i := i + 1;
      }
      assert SeedNames[..7] == SeedNames && SeedTypes[..7] == SeedTypes;
    }

    /** `mapChar(str, add)`. */
    method MapChar(str: seq<Byte>, add: bool) returns (r: Result<KyteaChar>)
      modifies this
      ensures Vocabulary() == MapCharStep(old(Vocabulary()), str, add).vocab
      ensures r == MapCharStep(old(Vocabulary()), str, add).id
    {
      if str in charIds {
        return Ok(charIds[str]);
      }
      if !add {
        return Ok(0);
      }
      var ret := |charTypes| % IdModulus;
      charIds := charIds[str := ret];
      var t := FindTypeBytesAsWritten(str);
      if t.Err? {
        return Err(t.error);
      }
      charTypes := charTypes + [t.value];
      charNames := charNames + [str];
      r := Ok(ret);
    }

    /** `mapString(str)`: cut `str` into characters, intern each one in
        order, and return their ids. On bytes that are not UTF-8 it throws,
        keeping the characters interned before that point. */
    method MapString(str: seq<Byte>) returns (r: Result<KyteaString>)
      modifies this
      ensures Vocabulary() == InternAll(old(Vocabulary()), str).vocab
      ensures r.Ok? <==> Utf8Split(str).ok
      ensures r.Err? ==> r.error == EncodingError(str)
      ensures r.Ok? ==> fresh(r.value) && fresh(r.value.impl) && fresh(r.value.impl.chars) && r.value.Valid()
      ensures r.Ok? ==> r.value.Contents() == InternAll(old(Vocabulary()), str).ids
    {
      ghost var v0 := Vocabulary();
      ghost var done: seq<seq<Byte>> := [];
      var pos := 0;
      var len := |str|;
      var ret: seq<KyteaChar> := [];
      while pos < len
        invariant pos <= len
        invariant Flatten(done) == str[..pos]
        invariant forall k | 0 <= k < |done| :: IsChar(done[k]) && |done[k]| <= 4
        invariant Vocabulary() == MapAll(v0, done).vocab && ret == MapAll(v0, done).ids
      {
        var n := CharLengthAt(str, pos);
        if n == 0 {
          SplitFailedAt(str, pos, done);
          return Err(EncodingError(str));
        }
        var c := str[pos..pos + n];
        var id := MapChar(c, true);
        MapAllStep(v0, done, c);
        FlattenStep(str, pos, n, done);
        ret := ret + [id.value];
        done := done + [c];
        pos := pos + n;
      }
      SplitFinished(str, done);
      var s := FromSeq(ret);
      r := Ok(s);
    }

    /** `unserialize(str)`: empty the tables, intern the empty string, then
        intern the characters of `str` as `mapString` does. */
    method Unserialize(str: seq<Byte>) returns (r: Outcome)
      modifies this
      ensures Vocabulary() == InternAll(EmptyEntry, str).vocab
      ensures r.Pass? <==> Utf8Split(str).ok
      ensures r.Fail? ==> r.error == EncodingError(str)
    {
      charIds, charNames, charTypes := map[], [], [];
      var _ := MapChar([], true);
      assert Vocabulary() == EmptyEntry;
      var m := MapString(str);
      r := if m.Ok? then Pass else Fail(m.error);
    }

    /** `serialize()`. */
    method Serialize() returns (r: seq<Byte>)
      ensures r == SerializeOf(Vocabulary())
    {
      r := [];
      var i := 1;
      while i < |charNames|
        invariant 1 <= i <= if |charNames| == 0 then 1 else |charNames|
        invariant r == if |charNames| == 0 then [] else Flatten(charNames[1..i])
      {
        assert charNames[1..i + 1] == charNames[1..i] + [charNames[i]];
        FlattenSnoc(charNames[1..i], charNames[i]);
        r := r + charNames[i];
        i := i + 1;
      }
      if |charNames| == 1 {
        assert charNames[1..1] == [];
      } else if |charNames| > 1 {
        assert charNames[1..i] == charNames[1..];
      }
    }
  }
}
