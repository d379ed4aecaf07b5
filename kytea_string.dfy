/** The copy-on-write, reference-counted string of 16-bit character codes
    (`KyteaStringImpl`, `KyteaString` and the free operators beside them).

    A buffer (`KyteaStringImpl`) holds a length, a reference count and an
    array of codes. Handles (`KyteaString`) point at a buffer or at nothing
    (the empty handle). The ghost field `owners` of a buffer is the set of
    handles that point at it; `Valid()` ties the count to it, which is what
    lets the methods below prove that a write through one handle is never
    seen through another. */
module KyteaStrings {
  import opened Types

  /** `size_t` is taken to be 64 bits wide. */
  const WordModulus: nat := 0x1_0000_0000_0000_0000

  /** The seed of the djb2 hash. */
  const HashSeed: nat := 5381

  /** `memcpy` of `n` codes. Every source code is read before any is
      written. An overlapping `memcpy` is undefined in C; this model defines
      that case as `memmove` would. The callers copy between distinct
      arrays, except a self-splice, which would overlap. */
  method Memcpy(dst: array<KyteaChar>, dstPos: nat, src: array<KyteaChar>, srcPos: nat, n: nat)
    requires dstPos + n <= dst.Length && srcPos + n <= src.Length
    modifies dst
    ensures dst[..] == old(dst[..dstPos]) + old(src[srcPos..srcPos + n]) + old(dst[dstPos + n..])
  {
    ghost var d := dst[..];
    ghost var s := src[..];
    forall k | 0 <= k < n {
      dst[dstPos + k] := src[srcPos + k];
    }
    assert forall j | 0 <= j < dst.Length :: dst[j] == (if dstPos <= j < dstPos + n then s[srcPos + j - dstPos] else d[j]);
    assert dst[..] == d[..dstPos] + s[srcPos..srcPos + n] + d[dstPos + n..];
  }

  /** The buffer shared by handles. */
  class KyteaStringImpl {
    var length: nat
    var count: nat
    var chars: array<KyteaChar>
    /** The handles that point at this buffer. */
    ghost var owners: set<KyteaString>

    ghost predicate Valid()
      reads this, owners
    {
      && chars.Length == length
      && count == |owners|
      && (forall h | h in owners :: h.impl == this)
    }

    /** `KyteaStringImpl(unsigned length)`: `len` slots, count 1. The slots
        are left for the caller to fill. */
    constructor (len: nat, ghost owner: KyteaString)
      ensures length == len && count == 1 && owners == {owner}
      ensures fresh(chars) && chars.Length == len
    {
      length := len;
      count := 1;
      chars := new KyteaChar[len];
      owners := {owner};
    }

    /** The copy constructor: a fresh buffer with the same codes, count 1. */
    constructor Clone(impl: KyteaStringImpl, ghost owner: KyteaString)
      requires impl.chars.Length == impl.length
      ensures length == impl.length && count == 1 && owners == {owner}
      ensures fresh(chars) && chars[..] == impl.chars[..]
    {
      var a := new KyteaChar[impl.length];
      Memcpy(a, 0, impl.chars, 0, impl.length);
      length := impl.length;
      count := 1;
      chars := a;
      owners := {owner};
    }

    /** `inc()`: one more handle, `h`, points here. */
    method Inc(ghost h: KyteaString) returns (n: nat)
      requires h !in owners
      modifies this
      ensures count == old(count) + 1 && n == count
      ensures owners == old(owners) + {h}
      ensures length == old(length) && chars == old(chars)
    {
      count := count + 1;
      owners := owners + {h};
      n := count;
    }

    /** `dec()`: handle `h` lets go of this buffer. */
    method Dec(ghost h: KyteaString) returns (n: nat)
      requires h in owners && count == |owners|
      modifies this
      ensures count == old(count) - 1 && n == count
      ensures owners == old(owners) - {h}
      ensures length == old(length) && chars == old(chars)
    {
      assert |owners - {h}| == |owners| - 1;
      count := count - 1;
      owners := owners - {h};
      n := count;
    }
  }

  /** A handle whose buffer has count 1 is the buffer's only owner. */
  lemma SoleOwner(impl: KyteaStringImpl, h: KyteaString)
    requires h in impl.owners && |impl.owners| == 1
    ensures impl.owners == {h}
  {
    var rest := impl.owners - {h};
    assert |rest| == 0;
    assert rest == {};
  }

  class KyteaString {
    var impl: KyteaStringImpl?

    ghost predicate Valid()
      reads this, impl, if impl == null then {} else impl.owners
    {
      impl != null ==> this in impl.owners && impl.Valid()
    }

    /** The codes this handle reads. */
    ghost function Contents(): seq<KyteaChar>
      reads this, impl, if impl == null then {} else {impl.chars}
    {
      if impl == null then [] else impl.chars[..]
    }

    /** `length()`. */
    function Length(): (n: nat)
      reads this, impl
    {
      if impl == null then 0 else impl.length
    }

    /** `length()` counts exactly the codes the handle reads: none for the
        empty handle, the buffer's slots otherwise. */
    lemma LengthIsContentsLength()
      requires Valid()
      ensures Length() == |Contents()|
      ensures impl == null ==> Length() == 0
    {
    }

    /** `KyteaString()`: the empty handle; it allocates nothing. */
    constructor Empty()
      ensures impl == null && Valid() && Contents() == [] && Length() == 0
    {
      impl := null;
    }

    /** `KyteaString(unsigned length)`: a fresh buffer of `length` slots. */
    constructor (length: nat)
      ensures Valid() && fresh(impl) && fresh(impl.chars)
      ensures impl.count == 1 && impl.owners == {this} && Length() == length && |Contents()| == length
    {
      new;
      impl := new KyteaStringImpl(length, this);
    }

    /** The copy constructor: share `str`'s buffer and bump its count. */
    constructor Copy(str: KyteaString)
      requires str.Valid()
      modifies str.impl
      ensures impl == str.impl && Valid() && str.Valid()
      ensures Contents() == str.Contents() && Length() == str.Length()
      ensures str.Contents() == old(str.Contents())
      ensures impl != null ==> impl.chars == old(str.impl.chars) && impl.length == old(str.impl.length)
      ensures impl != null ==> impl.count == old(str.impl.count) + 1 && impl.owners == old(str.impl.owners) + {this}
    {
      impl := str.impl;
      new;
      if impl != null {
        var _ := impl.Inc(this);
      }
    }

    /** `operator=`: let go of the current buffer, then share `str`'s. The
        decrement comes first, so `a = a` on an unshared buffer would free
        the buffer it is about to share; that call is excluded. */
    method Assign(str: KyteaString)
      requires Valid() && str.Valid()
      requires impl != null && impl == str.impl ==> impl.count > 1
      modifies this, impl, str.impl
      ensures impl == old(str.impl) && Valid() && str.Valid()
      ensures Contents() == old(str.Contents())
      ensures impl != null ==> impl.chars == old(str.impl.chars) && impl.length == old(str.impl.length)
      ensures old(impl) != null ==> old(impl).chars == old(impl.chars) && old(impl).length == old(impl.length)
      ensures old(impl) != null && old(impl) != impl ==>
        && old(impl).Valid()
        && old(impl).count == old(impl.count) - 1
        && old(impl).owners == old(impl.owners) - {this}
      ensures impl != null && old(impl) != impl ==>
        impl.count == old(str.impl.count) + 1 && impl.owners == old(str.impl.owners) + {this}
      ensures impl != null && old(impl) == impl ==>
        impl.count == old(impl.count) && impl.owners == old(impl.owners)
    {
      if impl != null {
        var _ := impl.Dec(this);
        // a count of 0 means `delete impl_`; reclamation is not modelled
      }
      impl := str.impl;
      if impl != null {
        var _ := impl.Inc(this);
        assert impl.Valid();
      }
      assert old(impl) != null && old(impl) != impl ==> old(impl).Valid();
    }

    /** The destructor: let go of the buffer. The handle is dead afterwards. */
    method Release()
      requires Valid()
      modifies this, impl
      ensures impl == null
      ensures old(impl) != null ==> old(impl).chars == old(impl.chars) && old(impl).length == old(impl.length)
      ensures old(impl) != null ==>
        && old(impl).Valid()
        && old(impl).count == old(impl.count) - 1
        && old(impl).owners == old(impl.owners) - {this}
    {
      if impl != null {
        var _ := impl.Dec(this);
      }
      impl := null;
    }

    /** The non-const `getImpl()`: when the buffer is shared, let go of it
        and rebind to a private clone. Afterwards this handle is the
        buffer's only owner and reads the same codes as before. */
    method GetImplMut() returns (p: KyteaStringImpl)
      requires Valid() && impl != null
      modifies this, impl
      ensures p == impl && Valid() && impl.count == 1 && impl.owners == {this}
      ensures Contents() == old(Contents())
      ensures old(impl.count) == 1 ==> impl == old(impl) && impl.chars == old(impl.chars)
      ensures old(impl.count) != 1 ==>
        && fresh(impl) && fresh(impl.chars)
        && old(impl).Valid()
        && old(impl).count == old(impl.count) - 1
        && old(impl).owners == old(impl.owners) - {this}
        && old(impl).chars == old(impl.chars)
        && old(impl).chars[..] == old(impl.chars[..])
    {
      if impl.count != 1 {
        var old_ := impl;
        var _ := impl.Dec(this);
        impl := new KyteaStringImpl.Clone(impl, this);
        assert old_.chars[..] == old(impl.chars[..]);
      } else {
        SoleOwner(impl, this);
      }
      p := impl;
    }

    /** The const `operator[]`, checked: it never changes anything. */
    function At(i: int): (r: Result<KyteaChar>)
      requires Valid()
      reads this, impl, if impl == null then {} else {impl.chars}
      reads if impl == null then {} else impl.owners
      ensures r.Ok? <==> 0 <= i < |Contents()|
      ensures r.Ok? ==> r.value == Contents()[i]
      ensures r.Err? ==> r.error == IndexError
    {
      if impl == null || i < 0 || i >= impl.length then Err(IndexError) else Ok(impl.chars[i])
    }

    /** The non-const `operator[]` followed by a store: `s[i] = v`. The
        store goes through `GetImplMut`, so it never reaches a buffer that
        another handle reads: every other handle that shared the old buffer
        reads exactly what it read before. */
    method Set(i: int, v: KyteaChar) returns (r: Outcome)
      requires Valid()
      modifies this, impl, if impl == null || impl.count != 1 then {} else {impl.chars}
      ensures Valid()
      ensures r.Pass? <==> 0 <= i < old(Length())
      ensures r.Pass? ==> Contents() == old(Contents())[i := v] && impl.count == 1 && impl.owners == {this}
      ensures r.Pass? && old(impl.count) == 1 ==> impl == old(impl) && impl.chars == old(impl.chars)
      ensures r.Fail? ==> r.error == IndexError && impl == old(impl) && Contents() == old(Contents())
      ensures r.Fail? && impl != null ==> impl.chars == old(impl.chars) && impl.count == old(impl.count) && impl.owners == old(impl.owners)
      ensures r.Pass? && old(impl.count) > 1 ==>
        && fresh(impl) && fresh(impl.chars)
        && old(impl).Valid()
        && old(impl).count == old(impl.count) - 1
        && old(impl).owners == old(impl.owners) - {this}
        && old(impl).chars == old(impl.chars) && old(impl).length == old(impl.length)
        && old(impl).chars[..] == old(impl.chars[..])
      ensures forall g: KyteaString | g != this && old(allocated(g)) && old(g.impl) == old(impl) && old(g.Valid()) ::
        g.impl == old(g.impl) && g.Valid() && g.Contents() == old(g.Contents())
    {
      if impl == null || i < 0 || i >= impl.length {
        return Fail(IndexError);
      }
      if impl.count == 1 {
        SoleOwner(impl, this);
      }
      var p := GetImplMut();
      p.chars[i] := v;
      r := Pass;
    }

    /** `substr(s, l)`: a new, independent buffer holding codes `s..s+l-1`. */
    method Substr(s: nat, l: nat) returns (r: Result<KyteaString>)
      requires Valid()
      ensures r.Ok? <==> s + l <= Length()
      ensures r.Err? ==> r.error == IndexError
      ensures r.Ok? ==> fresh(r.value) && fresh(r.value.impl) && fresh(r.value.impl.chars) && r.value.Valid()
      ensures r.Ok? ==> r.value.Length() == l && r.value.Contents() == Contents()[s..s + l]
    {
      if s + l > Length() {
        return Err(IndexError);
      }
      var ret := new KyteaString(l);
      var dst := ret.GetImplMut();
      if l > 0 {
        Memcpy(dst.chars, 0, impl.chars, s, l);
      }
      r := Ok(ret);
    }

    /** `substr(s)`, corrected: the codes from `s` to the end, and an
        index error when `s` is past the end (see `SubstrFromCheckAsWritten`). */
    method SubstrFrom(s: nat) returns (r: Result<KyteaString>)
      requires Valid()
      ensures r.Ok? <==> s <= Length()
      ensures r.Err? ==> r.error == IndexError
      ensures r.Ok? ==> fresh(r.value) && fresh(r.value.impl) && fresh(r.value.impl.chars) && r.value.Valid()
      ensures r.Ok? ==> r.value.Length() == Length() - s && r.value.Contents() == Contents()[s..]
    {
      if s > Length() {
        return Err(IndexError);
      }
      r := Substr(s, Length() - s);
    }

    /** `splice(str, pos)`: copy `str`'s codes over positions
        `pos..pos+|str|-1`. It writes through the buffer pointer without
        copy-on-write, so the destination must be unshared. An empty `str`
        changes nothing, whatever `pos` is. */
    method Splice(str: KyteaString, pos: nat) returns (r: Outcome)
      requires Valid() && str.Valid()
      requires impl != null ==> impl.count == 1
      modifies if impl == null then {} else {impl.chars}
      ensures Valid() && str.impl == old(str.impl)
      ensures r.Pass? <==> old(str.Length()) == 0 || pos + old(str.Length()) <= Length()
      ensures r.Fail? ==> r.error == IndexError
      ensures Contents() ==
        if r.Pass? && old(str.Length()) > 0
        then old(Contents()[..pos] + str.Contents() + Contents()[pos + str.Length()..])
        else old(Contents())
      ensures forall g: KyteaString | g != this && old(allocated(g)) && old(g.impl) == old(impl) && old(g.Valid()) ::
        g.Contents() == old(g.Contents())
    {
      var l := str.Length();
      if l == 0 {
        return Pass;
      }
      if pos + l > Length() {
        return Fail(IndexError);
      }
      SoleOwner(impl, this);
      Memcpy(impl.chars, pos, str.impl.chars, 0, l);
      r := Pass;
    }

    /** `tokenize(delim, includeDelim)`: the pieces of this string between
        the codes that occur in `delim`, as new handles, in order; see
        `Split` for the pieces and the lemmas after it for what they are. */
    method Tokenize(delim: KyteaString, includeDelim: bool) returns (toks: seq<KyteaString>)
      requires Valid() && delim.Valid()
      ensures |toks| == |Split(Contents(), delim.Contents(), includeDelim)|
      ensures forall k | 0 <= k < |toks| ::
        && fresh(toks[k]) && fresh(toks[k].impl) && fresh(toks[k].impl.chars)
        && toks[k].Valid() && toks[k].Contents() == Split(Contents(), delim.Contents(), includeDelim)[k]
    {
      ghost var cs := Contents();
      ghost var ds := delim.Contents();
      ghost var done: seq<seq<KyteaChar>> := [];
      var l := Length();
      var s := 0;
      var i := 0;
      toks := [];
      while i < l
        invariant 0 <= s <= i <= l
        invariant forall j | s <= j < i :: cs[j] !in ds
        invariant done + Split(cs[s..], ds, includeDelim) == Split(cs, ds, includeDelim)
        invariant |toks| == |done|
        invariant forall k | 0 <= k < |toks| ::
          fresh(toks[k]) && fresh(toks[k].impl) && fresh(toks[k].impl.chars) && toks[k].Valid() && toks[k].Contents() == done[k]
      {
        ghost var toks0 := toks;
        toks, done, s := TokenizeStep(delim, includeDelim, toks, cs, ds, done, s, i);
        forall k | 0 <= k < |toks|
          ensures fresh(toks[k]) && fresh(toks[k].impl) && fresh(toks[k].impl.chars)
        {
          if k < |toks0| {
            assert toks[k] == toks[..|toks0|][k] == toks0[k];
          }
        }
        i := i + 1;
      }
      ghost var toks0 := toks;
      toks := TokenizeLast(includeDelim, toks, cs, ds, done, s);
      forall k | 0 <= k < |toks|
        ensures fresh(toks[k]) && fresh(toks[k].impl) && fresh(toks[k].impl.chars)
      {
        if k < |toks0| {
          assert toks[k] == toks[..|toks0|][k] == toks0[k];
        }
      }
    }

    /** The end of `tokenize`: the token still open at the end of the string. */
    method TokenizeLast(includeDelim: bool, toks: seq<KyteaString>, ghost cs: seq<KyteaChar>,
                        ghost ds: seq<KyteaChar>, ghost done: seq<seq<KyteaChar>>, s: nat)
      returns (toks': seq<KyteaString>)
      requires Valid() && cs == Contents()
      requires s <= |cs| && forall j | s <= j < |cs| :: cs[j] !in ds
      requires done + Split(cs[s..], ds, includeDelim) == Split(cs, ds, includeDelim)
      requires |toks| == |done| && forall k | 0 <= k < |toks| :: toks[k].Valid() && toks[k].Contents() == done[k]
      ensures |toks'| == |Split(cs, ds, includeDelim)|
      ensures forall k | 0 <= k < |toks'| :: toks'[k].Valid() && toks'[k].Contents() == Split(cs, ds, includeDelim)[k]
      ensures |toks| <= |toks'| && toks'[..|toks|] == toks
      ensures forall k | |toks| <= k < |toks'| :: fresh(toks'[k]) && fresh(toks'[k].impl) && fresh(toks'[k].impl.chars)
    {
      SplitLast(cs, ds, includeDelim, s, done);
      toks' := toks;
      var l := Length();
      if s != l {
        var t := Substr(s, l - s);
        toks' := toks + [t.value];
        forall k | 0 <= k < |toks'|
          ensures toks'[k].Valid() && toks'[k].Contents() == Split(cs, ds, includeDelim)[k]
        {
          if k < |toks| {
            assert toks'[k] == toks[k];
          }
        }
      }
    }

    /** One pass of the outer loop of `tokenize`, at code `i`: when the code
        occurs in `delim`, the token that began at `s` ends here. */
    method TokenizeStep(delim: KyteaString, includeDelim: bool, toks: seq<KyteaString>,
                        ghost cs: seq<KyteaChar>, ghost ds: seq<KyteaChar>, ghost done: seq<seq<KyteaChar>>,
                        s: nat, i: nat)
      returns (toks': seq<KyteaString>, ghost done': seq<seq<KyteaChar>>, s': nat)
      requires Valid() && delim.Valid() && cs == Contents() && ds == delim.Contents()
      requires s <= i < |cs| && forall j | s <= j < i :: cs[j] !in ds
      requires done + Split(cs[s..], ds, includeDelim) == Split(cs, ds, includeDelim)
      requires |toks| == |done| && forall k | 0 <= k < |toks| :: toks[k].Valid() && toks[k].Contents() == done[k]
      ensures s' <= i + 1 && forall j | s' <= j < i + 1 :: cs[j] !in ds
      ensures done' + Split(cs[s'..], ds, includeDelim) == Split(cs, ds, includeDelim)
      ensures |toks'| == |done'| && forall k | 0 <= k < |toks'| :: toks'[k].Valid() && toks'[k].Contents() == done'[k]
      ensures |toks| <= |toks'| && toks'[..|toks|] == toks
      ensures forall k | |toks| <= k < |toks'| :: fresh(toks'[k]) && fresh(toks'[k].impl) && fresh(toks'[k].impl.chars)
    {
      // the inner loop: does the code at i occur in delim?
      var c := impl.chars[i];
      var dl := delim.Length();
      var j := 0;
      while j < dl && delim.At(j).value != c
        invariant 0 <= j <= dl
        invariant forall j' | 0 <= j' < j :: ds[j'] != c
      {
        j := j + 1;
      }
      if j != dl {
        toks', done' := TokenizeAt(includeDelim, toks, cs, ds, done, s, i);
        s' := i + 1;
      } else {
        toks', done', s' := toks, done, s;
      }
    }

    /** The outer loop of `tokenize` at a code `i` that occurs in `delim`:
        the token that began at `s` ends here. */
    method TokenizeAt(includeDelim: bool, toks: seq<KyteaString>,
                      ghost cs: seq<KyteaChar>, ghost ds: seq<KyteaChar>, ghost done: seq<seq<KyteaChar>>,
                      s: nat, i: nat)
      returns (toks': seq<KyteaString>, ghost done': seq<seq<KyteaChar>>)
      requires Valid() && cs == Contents()
      requires s <= i < |cs| && cs[i] in ds && forall j | s <= j < i :: cs[j] !in ds
      requires done + Split(cs[s..], ds, includeDelim) == Split(cs, ds, includeDelim)
      requires |toks| == |done| && forall k | 0 <= k < |toks| :: toks[k].Valid() && toks[k].Contents() == done[k]
      ensures done' + Split(cs[i + 1..], ds, includeDelim) == Split(cs, ds, includeDelim)
      ensures |toks'| == |done'| && forall k | 0 <= k < |toks'| :: toks'[k].Valid() && toks'[k].Contents() == done'[k]
      ensures |toks| <= |toks'| && toks'[..|toks|] == toks
      ensures forall k | |toks| <= k < |toks'| :: fresh(toks'[k]) && fresh(toks'[k].impl) && fresh(toks'[k].impl.chars)
    {
      SplitStep(cs, ds, includeDelim, s, i, done);
      toks' := PushPieces(toks, s, i, includeDelim);
      done' := done + Pieces(cs, s, i, includeDelim);
      TokensExtend(toks, toks', done, Pieces(cs, s, i, includeDelim));
    }

    /** Handles appended for new tokens keep the earlier handles and their
        tokens in place. */
    lemma TokensExtend(toks: seq<KyteaString>, toks': seq<KyteaString>,
                       done: seq<seq<KyteaChar>>, more: seq<seq<KyteaChar>>)
      requires |toks| == |done| && forall k | 0 <= k < |toks| :: toks[k].Valid() && toks[k].Contents() == done[k]
      requires |toks'| == |toks| + |more| && toks'[..|toks|] == toks
      requires forall k | |toks| <= k < |toks'| :: toks'[k].Valid() && toks'[k].Contents() == more[k - |toks|]
      ensures forall k | 0 <= k < |toks'| :: toks'[k].Valid() && toks'[k].Contents() == (done + more)[k]
    {
      forall k | 0 <= k < |toks'|
        ensures toks'[k].Valid() && toks'[k].Contents() == (done + more)[k]
      {
        if k < |toks| {
          assert toks'[k] == toks'[..|toks|][k] == toks[k];
        }
      }
    }

    /** The handles `tokenize` adds at the delimiter at `i`, whose token
        began at `s`: the run before it, if any, then the delimiter itself
        when delimiters are kept. */
    method PushPieces(toks: seq<KyteaString>, s: nat, i: nat, includeDelim: bool) returns (r: seq<KyteaString>)
      requires Valid() && s <= i < Length()
      ensures |r| == |toks| + |Pieces(Contents(), s, i, includeDelim)| && r[..|toks|] == toks
      ensures forall k | |toks| <= k < |r| ::
        && fresh(r[k]) && fresh(r[k].impl) && fresh(r[k].impl.chars)
        && r[k].Valid() && r[k].Contents() == Pieces(Contents(), s, i, includeDelim)[k - |toks|]
    {
      r := toks;
      if s != i {
        var t := Substr(s, i - s);
        r := r + [t.value];
      }
      if includeDelim {
        var t := Substr(i, 1);
        assert Contents()[i..i + 1] == [Contents()[i]];
        r := r + [t.value];
      }
    }

    /** `getHash()`: djb2 over the codes, 5381 for the empty handle. */
    method GetHash() returns (h: nat)
      requires Valid()
      ensures h == Djb2(Contents())
      ensures impl == null ==> h == HashSeed
    {
      h := HashSeed;
      if impl == null {
        return;
      }
      var cs := impl.chars;
      for i := 0 to impl.length
        invariant h == Djb2(cs[..i])
      {
        assert cs[..i + 1][..i] == cs[..i];
        // ((hash << 5) + hash) + cs[i], in size_t
        h := (h * 33 + cs[i]) % WordModulus;
      }
      assert cs[..impl.length] == cs[..];
    }

    /** `beginsWith(s)`: `s` is a prefix of this string. */
    method BeginsWith(s: KyteaString) returns (b: bool)
      requires Valid() && s.Valid()
      ensures b <==> IsPrefix(s.Contents(), Contents())
    {
      if s.Length() > Length() {
        return false;
      }
      var i: int := s.Length() - 1;
      while i >= 0
        invariant -1 <= i < s.Length()
        invariant forall j | i < j < s.Length() :: Contents()[j] == s.Contents()[j]
      {
        if At(i).value != s.At(i).value {
          return false;
        }
        i := i - 1;
      }
      b := true;
    }
  }

  /** `a + c`: a new buffer holding `a`'s codes followed by `c`. */
  method Append(a: KyteaString, c: KyteaChar) returns (r: KyteaString)
    requires a.Valid()
    ensures fresh(r) && fresh(r.impl) && fresh(r.impl.chars) && r.Valid()
    ensures r.Contents() == a.Contents() + [c] && r.Length() == a.Length() + 1
  {
    if a.impl == null {
      r := new KyteaString(1);
      var _ := r.Set(0, c);
      return;
    }
    r := new KyteaString(a.impl.length + 1);
    var _ := r.Splice(a, 0);
    var _ := r.Set(a.impl.length, c);
  }

  /** `unsigned` arithmetic is modulo 2^32. */
  const U32: nat := 0x1_0000_0000

  /** The range check of `substr(s)` as written, on 32-bit `unsigned`
      values: `l = length() - s` and then `s + l > length()`, both
      wrapping. True when the check throws. */
  function SubstrFromCheckAsWritten(length: nat, s: nat): (throws: bool)
    requires length < U32 && s < U32
  {
    var l := (length - s) % U32;
    (s + l) % U32 > length
  }

  /** The check never throws: for `s > length()` the subtraction wraps and
      the addition wraps back to `length()`. An `s` past the end goes on to
      allocate about 2^32 slots and copy from beyond the buffer.
      `SubstrFrom` is the evidently intended operation. */
  lemma SubstrFromCheckNeverThrows(length: nat, s: nat)
    requires length < U32 && s < U32
    ensures !SubstrFromCheckAsWritten(length, s)
  {
    var l := (length - s) % U32;
    if s > length {
      assert l == length - s + U32;
      assert (s + l) % U32 == length;
    } else {
      assert l == length - s;
    }
  }

  /** A concrete instance: a string of length 3 and `s = 5` passes. */
  lemma SubstrFromPastEndPasses()
    ensures 5 > 3 && !SubstrFromCheckAsWritten(3, 5)
  {
    SubstrFromCheckNeverThrows(3, 5);
  }

  /** Where `substr` goes, as written, once its arguments are 32-bit
      `unsigned` values: the range check throws, or the copy reads through
      the null buffer of an empty handle, or it reads past the end of the
      buffer, or it copies codes that are there. */
  datatype SubstrPath = Throws | NullDeref | ReadsPastEnd | Copies

  /** `substr(s, l)` as written: `s + l` wraps before it is compared with
      `length()`, and `impl_->chars_` is read even when `impl_` is null. */
  function SubstrPathAsWritten(hasBuffer: bool, length: nat, s: nat, l: nat): (p: SubstrPath)
    requires !hasBuffer ==> length == 0
    requires length < U32 && s < U32 && l < U32
    ensures p == Copies ==> hasBuffer && s + l <= length
    ensures hasBuffer && s + l <= length ==> p == Copies
    ensures p == NullDeref <==> !hasBuffer && (s + l) % U32 == 0
    ensures p == Throws <==> (s + l) % U32 > length
  {
    if (s + l) % U32 > length then Throws
    else if !hasBuffer then NullDeref
    else if s + l > length then ReadsPastEnd
    else Copies
  }

  /** `substr(s)` as written: `l = length() - s`, wrapping, then the same
      path as `substr(s, l)`. */
  function SubstrFromPathAsWritten(hasBuffer: bool, length: nat, s: nat): (p: SubstrPath)
    requires !hasBuffer ==> length == 0
    requires length < U32 && s < U32
    ensures p != Throws
    ensures !hasBuffer ==> p == NullDeref
    ensures hasBuffer ==> (p == Copies <==> s <= length)
  {
    SubstrFromCheckNeverThrows(length, s);
    var l := (length - s) % U32;
    assert s > length ==> s + l == length + U32;
    SubstrPathAsWritten(hasBuffer, length, s, l)
  }

  /** Witnesses: `substr(0, 0)` and `substr(0)` on the empty handle read
      through a null pointer, and `substr(0xFFFFFFFF, 1)` on a string of
      three codes passes the check, because `s + l` wraps to 0, and reads
      past the buffer. `Substr` and `SubstrFrom` are the evidently intended
      operations: an empty result for the empty range and an index error
      for every range past the end. */
  lemma SubstrAsWrittenCounterexamples()
    ensures SubstrPathAsWritten(false, 0, 0, 0) == NullDeref
    ensures SubstrFromPathAsWritten(false, 0, 0) == NullDeref
    ensures SubstrPathAsWritten(true, 3, 0xFFFF_FFFF, 1) == ReadsPastEnd
  {
  }

  /** The last step of every `mapString`: a fresh handle of `cs.size()`
      slots, filled one `operator[]` store at a time. */
  method FromSeq(cs: seq<KyteaChar>) returns (r: KyteaString)
    ensures fresh(r) && fresh(r.impl) && fresh(r.impl.chars) && r.Valid() && r.Contents() == cs
  {
    r := new KyteaString(|cs|);
    var i := 0;
    while i < |cs|
      invariant 0 <= i <= |cs|
      invariant fresh(r) && fresh(r.impl) && fresh(r.impl.chars) && r.Valid() && r.impl.count == 1
      invariant |r.Contents()| == |cs| && r.Contents()[..i] == cs[..i]
    {
      var _ := r.Set(i, cs[i]);
      i := i + 1;
    }
    assert r.Contents() == r.Contents()[..i];
  }

  /** `a + b`. With no buffer behind `a` the result is a copy of `b`, with
      none behind `b` a copy of `a` (either shares the buffer and bumps its
      count); otherwise a new buffer holding `a` then `b`. */
  method Concat(a: KyteaString, b: KyteaString) returns (r: KyteaString)
    requires a.Valid() && b.Valid()
    modifies a.impl, b.impl
    ensures fresh(r) && r.Valid() && a.Valid() && b.Valid()
    ensures a.impl == old(a.impl) && b.impl == old(b.impl)
    ensures a.Contents() == old(a.Contents()) && b.Contents() == old(b.Contents())
    ensures a.impl != null ==> a.impl.chars == old(a.impl.chars) && a.impl.length == old(a.impl.length)
    ensures b.impl != null ==> b.impl.chars == old(b.impl.chars) && b.impl.length == old(b.impl.length)
    ensures r.Contents() == a.Contents() + b.Contents() && r.Length() == a.Length() + b.Length()
    ensures a.impl == null ==> r.impl == b.impl && (b.impl != null ==> b.impl.count == old(b.impl.count) + 1)
    ensures a.impl != null && b.impl == null ==> r.impl == a.impl && a.impl.count == old(a.impl.count) + 1
    ensures a.impl != null && b.impl != null ==> fresh(r.impl) && fresh(r.impl.chars) && r.impl.count == 1
  {
    if a.impl == null {
      r := new KyteaString.Copy(b);
      return;
    }
    if b.impl == null {
      r := new KyteaString.Copy(a);
      return;
    }
    r := Join(a, b);
  }

  /** Copy-on-write in one piece: copy `a`, then write through `a`. The
      copy goes on reading the codes `a` had, and the buffer `a` shared
      with it keeps them too. */
  method CopyThenSet(a: KyteaString, i: int, v: KyteaChar) returns (b: KyteaString, r: Outcome)
    requires a.Valid()
    modifies a, a.impl, if a.impl == null then {} else {a.impl.chars}
    ensures fresh(b) && b.Valid() && a.Valid() && b.Contents() == old(a.Contents())
    ensures r.Pass? <==> 0 <= i < |old(a.Contents())|
    ensures r.Pass? ==> a.Contents() == old(a.Contents())[i := v] && a.impl != b.impl
    ensures r.Fail? ==> a.Contents() == old(a.Contents())
  {
    b := new KyteaString.Copy(a);
    r := a.Set(i, v);
  }

  /** Copy-on-write over several writes: copy `a`, write through `a`,
      then write through the copy. Each handle sees its own write and
      not the other's. */
  method CopyThenSetBoth(a: KyteaString, i: int, v: KyteaChar, j: int, w: KyteaChar)
    returns (b: KyteaString, r: Outcome, q: Outcome)
    requires a.Valid()
    modifies a, a.impl, if a.impl == null then {} else {a.impl.chars}
    ensures fresh(b) && a.Valid() && b.Valid()
    ensures r.Pass? <==> 0 <= i < |old(a.Contents())|
    ensures q.Pass? <==> 0 <= j < |old(a.Contents())|
    ensures a.Contents() == if r.Pass? then old(a.Contents())[i := v] else old(a.Contents())
    ensures b.Contents() == if q.Pass? then old(a.Contents())[j := w] else old(a.Contents())
  {
    b := new KyteaString.Copy(a);
    r := a.Set(i, v);
    q := b.Set(j, w);
  }

  /** The general case of `a + b`: a new buffer of `a`'s and then `b`'s codes. */
  method Join(a: KyteaString, b: KyteaString) returns (r: KyteaString)
    requires a.Valid() && b.Valid()
    ensures fresh(r) && fresh(r.impl) && fresh(r.impl.chars) && r.Valid() && r.impl.count == 1
    ensures r.Contents() == a.Contents() + b.Contents()
  {
    var al := a.Length();
    r := new KyteaString(al + b.Length());
    var _ := r.Splice(a, 0);
    assert r.Contents()[..al] == a.Contents();
    var _ := r.Splice(b, al);
  }

  /** `operator<`. */
  method Less(a: KyteaString, b: KyteaString) returns (r: bool)
    requires a.Valid() && b.Valid()
    ensures r == LexLess(a.Contents(), b.Contents())
  {
    var al := a.Length();
    var bl := b.Length();
    var ml := if al < bl then al else bl;
    var i := 0;
    while i < ml
      invariant 0 <= i <= ml
      invariant a.Contents()[..i] == b.Contents()[..i]
    {
      LexLessAfterCommonPrefix(a.Contents(), b.Contents(), i);
      if a.At(i).value < b.At(i).value {
        return true;
      } else if b.At(i).value < a.At(i).value {
        return false;
      }
      assert a.Contents()[..i + 1] == b.Contents()[..i + 1];
      i := i + 1;
    }
    LexLessAfterCommonPrefix(a.Contents(), b.Contents(), i);
    r := bl != i;
  }

  /** `operator==`. */
  method Equal(a: KyteaString, b: KyteaString) returns (r: bool)
    requires a.Valid() && b.Valid()
    ensures r <==> a.Contents() == b.Contents()
  {
    var al := a.Length();
    if al != b.Length() {
      return false;
    }
    var i := 0;
    while i < al
      invariant 0 <= i <= al
      invariant a.Contents()[..i] == b.Contents()[..i]
    {
      if a.At(i).value != b.At(i).value {
        return false;
      }
      assert a.Contents()[..i + 1] == b.Contents()[..i + 1];
      i := i + 1;
    }
    assert a.Contents()[..i] == a.Contents() && b.Contents()[..i] == b.Contents();
    r := true;
  }

  // ---------------------------------------------------------------------
  // Specifications on code sequences

  predicate IsPrefix(p: seq<KyteaChar>, t: seq<KyteaChar>)
  {
    |p| <= |t| && t[..|p|] == p
  }

  /** Lexicographic order on code sequences, defined on the first codes. */
  function LexLess(x: seq<KyteaChar>, y: seq<KyteaChar>): bool
    decreases |x|
  {
    if x == [] then y != []
    else if y == [] then false
    else if x[0] < y[0] then true
    else if y[0] < x[0] then false
    else LexLess(x[1..], y[1..])
  }

  /** After a common prefix of length `i` the order is decided by what follows. */
  lemma {:induction false} LexLessAfterCommonPrefix(x: seq<KyteaChar>, y: seq<KyteaChar>, i: nat)
    requires i <= |x| && i <= |y| && x[..i] == y[..i]
    ensures LexLess(x, y) == LexLess(x[i..], y[i..])
    decreases i
  {
    if i > 0 {
      assert x[0] == x[..i][0] && y[0] == y[..i][0];
      assert x[1..][..i - 1] == x[..i][1..] && y[1..][..i - 1] == y[..i][1..];
      LexLessAfterCommonPrefix(x[1..], y[1..], i - 1);
      assert x[1..][i - 1..] == x[i..] && y[1..][i - 1..] == y[i..];
    }
  }

  lemma {:induction false} LexLessIrreflexive(x: seq<KyteaChar>)
    ensures !LexLess(x, x)
    decreases |x|
  {
    if x != [] {
      LexLessIrreflexive(x[1..]);
    }
  }

  /** A proper prefix is smaller than its extension. */
  lemma {:induction false} LexLessProperPrefix(x: seq<KyteaChar>, y: seq<KyteaChar>)
    requires |x| < |y| && y[..|x|] == x
    ensures LexLess(x, y) && !LexLess(y, x)
    decreases |x|
  {
    if x != [] {
      assert y[1..][..|x| - 1] == x[1..];
      LexLessProperPrefix(x[1..], y[1..]);
    }
  }

  lemma {:induction false} LexLessTransitive(x: seq<KyteaChar>, y: seq<KyteaChar>, z: seq<KyteaChar>)
    requires LexLess(x, y) && LexLess(y, z)
    ensures LexLess(x, z)
    decreases |x|
  {
    if x != [] && y != [] && z != [] && x[0] == y[0] && y[0] == z[0] {
      LexLessTransitive(x[1..], y[1..], z[1..]);
    }
  }

  /** Exactly one of `x < y`, `y < x`, `x == y` holds: the order is total and
      strict. */
  lemma {:induction false} LexLessTrichotomy(x: seq<KyteaChar>, y: seq<KyteaChar>)
    ensures LexLess(x, y) || LexLess(y, x) || x == y
    ensures !(LexLess(x, y) && LexLess(y, x))
    decreases |x|
  {
    if x != [] && y != [] && x[0] == y[0] {
      LexLessTrichotomy(x[1..], y[1..]);
      if x[1..] == y[1..] {
        assert x == [x[0]] + x[1..] && y == [y[0]] + y[1..];
      }
    }
  }

  /** djb2 continued from the value `h` over `s`: `h*33 + c` per code, in
      `size_t`. */
  function HashFrom(h: nat, s: seq<KyteaChar>): nat
    decreases |s|
  {
    if s == [] then h else (HashFrom(h, s[..|s| - 1]) * 33 + s[|s| - 1]) % WordModulus
  }

  function Djb2(s: seq<KyteaChar>): nat
  {
    HashFrom(HashSeed, s)
  }

  /** Hashing is incremental: the hash of `a + b` continues from that of `a`. */
  lemma {:induction false} HashFromConcat(h: nat, a: seq<KyteaChar>, b: seq<KyteaChar>)
    ensures HashFrom(h, a + b) == HashFrom(HashFrom(h, a), b)
    decreases |b|
  {
    if b == [] {
      assert a + b == a;
    } else {
      assert (a + b)[..|a + b| - 1] == a + b[..|b| - 1];
      HashFromConcat(h, a, b[..|b| - 1]);
    }
  }

  /** Every hash from a word-sized value is word-sized, the seed included. */
  lemma {:induction false} HashFromBounded(h: nat, s: seq<KyteaChar>)
    requires h < WordModulus
    ensures HashFrom(h, s) < WordModulus
    decreases |s|
  {
    if s != [] {
      HashFromBounded(h, s[..|s| - 1]);
    }
  }

  /** The position of the first delimiter in `t`, or `|t|` when there is none. */
  function FirstDelim(t: seq<KyteaChar>, ds: seq<KyteaChar>): (k: nat)
    ensures k <= |t|
    decreases |t|
  {
    if t == [] || t[0] in ds then 0 else 1 + FirstDelim(t[1..], ds)
  }

  /** `FirstDelim` is the position of a delimiter with none before it, or
      `|t|` when `t` has none. */
  lemma {:induction false} FirstDelimSpec(t: seq<KyteaChar>, ds: seq<KyteaChar>)
    ensures forall j | 0 <= j < FirstDelim(t, ds) :: t[j] !in ds
    ensures FirstDelim(t, ds) < |t| ==> t[FirstDelim(t, ds)] in ds
    decreases |t|
  {
    if t != [] && t[0] !in ds {
      FirstDelimSpec(t[1..], ds);
      forall j | 0 <= j < FirstDelim(t, ds)
        ensures t[j] !in ds
      {
        if j > 0 {
          assert t[j] == t[1..][j - 1];
        }
      }
    }
  }

  /** Conversely, a position with that property is `FirstDelim`. */
  lemma {:induction false} FirstDelimAt(t: seq<KyteaChar>, ds: seq<KyteaChar>, k: nat)
    requires k <= |t| && (k < |t| ==> t[k] in ds) && forall j | 0 <= j < k :: t[j] !in ds
    ensures FirstDelim(t, ds) == k
    decreases |t|
  {
    if k > 0 {
      assert t[0] !in ds;
      forall j | 0 <= j < k - 1
        ensures t[1..][j] !in ds
      {
        assert t[1..][j] == t[j + 1];
      }
      assert k - 1 < |t[1..]| ==> t[1..][k - 1] == t[k];
      FirstDelimAt(t[1..], ds, k - 1);
    }
  }

  /** The tokens of `t`: the runs between codes of `ds`, and, when `incl`
      holds, each delimiter as a token of its own, in position order. */
  function Split(t: seq<KyteaChar>, ds: seq<KyteaChar>, incl: bool): seq<seq<KyteaChar>>
    decreases |t|
  {
    var k := FirstDelim(t, ds);
    if k == |t| then (if t == [] then [] else [t])
    else (if k > 0 then [t[..k]] else []) + (if incl then [[t[k]]] else []) + Split(t[k + 1..], ds, incl)
  }

  /** The tokens `Split` emits for the segment `t[s..i]` closed by the
      delimiter at `i`. */
  function Pieces(t: seq<KyteaChar>, s: nat, i: nat, incl: bool): (r: seq<seq<KyteaChar>>)
    requires s <= i < |t|
    ensures |r| == (if s < i then 1 else 0) + (if incl then 1 else 0)
  {
    (if s < i then [t[s..i]] else []) + (if incl then [[t[i]]] else [])
  }

  /** The loop step of `tokenize` at a delimiter. */
  lemma SplitStep(t: seq<KyteaChar>, ds: seq<KyteaChar>, incl: bool, s: nat, i: nat, done: seq<seq<KyteaChar>>)
    requires s <= i < |t| && t[i] in ds && forall j | s <= j < i :: t[j] !in ds
    requires done + Split(t[s..], ds, incl) == Split(t, ds, incl)
    ensures (done + Pieces(t, s, i, incl)) + Split(t[i + 1..], ds, incl) == Split(t, ds, incl)
  {
    var u := t[s..];
    var p := Pieces(t, s, i, incl);
    var rest := Split(t[i + 1..], ds, incl);
    SegmentStep(t, ds, incl, s, i);
    assert Split(u, ds, incl) == p + rest;
    assert done + (p + rest) == (done + p) + rest;
  }

  /** `Split` of the suffix `t[s..]` whose first delimiter is at `i`. */
  lemma SegmentStep(t: seq<KyteaChar>, ds: seq<KyteaChar>, incl: bool, s: nat, i: nat)
    requires s <= i < |t| && t[i] in ds && forall j | s <= j < i :: t[j] !in ds
    ensures Split(t[s..], ds, incl) == Pieces(t, s, i, incl) + Split(t[i + 1..], ds, incl)
  {
    var u := t[s..];
    forall j | 0 <= j < i - s
      ensures u[j] !in ds
    {
      assert u[j] == t[s + j];
    }
    SplitAtDelimiter(u, ds, incl, i - s);
    assert u[..i - s] == t[s..i];
    assert u[i - s] == t[i];
    assert u[i - s + 1..] == t[i + 1..];
  }

  /** The tail handled after the loop of `tokenize`. */
  lemma SplitLast(t: seq<KyteaChar>, ds: seq<KyteaChar>, incl: bool, s: nat, done: seq<seq<KyteaChar>>)
    requires s <= |t| && forall j | s <= j < |t| :: t[j] !in ds
    requires done + Split(t[s..], ds, incl) == Split(t, ds, incl)
    ensures Split(t, ds, incl) == done + (if s < |t| then [t[s..]] else [])
  {
    var u := t[s..];
    assert forall j | 0 <= j < |u| :: u[j] !in ds by {
      forall j | 0 <= j < |u| ensures u[j] !in ds {
        assert u[j] == t[s + j];
      }
    }
    SplitWithoutDelimiter(u, ds, incl);
  }

  /** One step of `Split` at a known first delimiter. */
  lemma SplitAtDelimiter(t: seq<KyteaChar>, ds: seq<KyteaChar>, incl: bool, k: nat)
    requires k < |t| && t[k] in ds && forall j | 0 <= j < k :: t[j] !in ds
    ensures Split(t, ds, incl) ==
      (if k > 0 then [t[..k]] else []) + (if incl then [[t[k]]] else []) + Split(t[k + 1..], ds, incl)
  {
    FirstDelimAt(t, ds, k);
  }

  /** `Split` of a delimiter-free sequence. */
  lemma SplitWithoutDelimiter(t: seq<KyteaChar>, ds: seq<KyteaChar>, incl: bool)
    requires forall j | 0 <= j < |t| :: t[j] !in ds
    ensures Split(t, ds, incl) == if t == [] then [] else [t]
  {
    FirstDelimAt(t, ds, |t|);
  }

  predicate IsDelimToken(u: seq<KyteaChar>, ds: seq<KyteaChar>)
  {
    |u| == 1 && u[0] in ds
  }

  predicate IsRun(u: seq<KyteaChar>, ds: seq<KyteaChar>)
  {
    u != [] && forall j | 0 <= j < |u| :: u[j] !in ds
  }

  /** The delimiter-free tokens of `ts`, in order. */
  function Runs(ts: seq<seq<KyteaChar>>, ds: seq<KyteaChar>): seq<seq<KyteaChar>>
    decreases |ts|
  {
    if ts == [] then []
    else (if IsDelimToken(ts[0], ds) then [] else [ts[0]]) + Runs(ts[1..], ds)
  }

  /** With delimiters included, the tokens concatenate back to `t`. */
  lemma {:induction false} SplitJoin(t: seq<KyteaChar>, ds: seq<KyteaChar>)
    ensures Flatten(Split(t, ds, true)) == t
    decreases |t|
  {
    var k := FirstDelim(t, ds);
    if k < |t| {
      var rest := Split(t[k + 1..], ds, true);
      var tail := [[t[k]]] + rest;
      var head := if k > 0 then [t[..k]] else [];
      assert Flatten(tail) == [t[k]] + t[k + 1..] by {
        SplitJoin(t[k + 1..], ds);
        FlattenCons([t[k]], rest);
      }
      assert Split(t, ds, true) == head + tail by {
        FirstDelimSpec(t, ds);
        SplitAtDelimiter(t, ds, true, k);
      }
      assert Flatten(head + tail) == t[..k] + Flatten(tail) by {
        if k > 0 {
          FlattenCons(t[..k], tail);
        } else {
          assert head + tail == tail;
        }
      }
      assert t == t[..k] + ([t[k]] + t[k + 1..]);
    } else if t != [] {
      assert Split(t, ds, true) == [t] by {
        FirstDelimSpec(t, ds);
        SplitWithoutDelimiter(t, ds, true);
      }
      FlattenCons(t, []);
    }
  }

  /** Every token is a delimiter on its own (only when `incl` holds) or a
      non-empty delimiter-free run. */
  lemma {:induction false} SplitTokenShape(t: seq<KyteaChar>, ds: seq<KyteaChar>, incl: bool, n: nat)
    requires n < |Split(t, ds, incl)|
    ensures (incl && IsDelimToken(Split(t, ds, incl)[n], ds)) || IsRun(Split(t, ds, incl)[n], ds)
    decreases |t|
  {
    var k := FirstDelim(t, ds);
    FirstDelimSpec(t, ds);
    if k < |t| {
      var head := (if k > 0 then [t[..k]] else []) + (if incl then [[t[k]]] else []);
      assert Split(t, ds, incl) == head + Split(t[k + 1..], ds, incl);
      if n >= |head| {
        SplitTokenShape(t[k + 1..], ds, incl, n - |head|);
      }
    }
  }

  /** With delimiters included, no two runs are adjacent: every run is
      maximal. */
  lemma {:induction false} SplitRunsMaximal(t: seq<KyteaChar>, ds: seq<KyteaChar>, n: nat)
    requires n + 1 < |Split(t, ds, true)|
    ensures !(IsRun(Split(t, ds, true)[n], ds) && IsRun(Split(t, ds, true)[n + 1], ds))
    decreases |t|
  {
    var k := FirstDelim(t, ds);
    FirstDelimSpec(t, ds);
    assert k < |t|;
    var rest := Split(t[k + 1..], ds, true);
    var head := (if k > 0 then [t[..k]] else []) + [[t[k]]];
    var all := Split(t, ds, true);
    assert all == head + rest;
    assert !IsRun([t[k]], ds) by { assert [t[k]][0] == t[k]; }
    if n >= |head| {
      SplitRunsMaximal(t[k + 1..], ds, n - |head|);
      assert all[n] == rest[n - |head|] && all[n + 1] == rest[n + 1 - |head|];
    } else if n == |head| - 1 {
      assert all[n] == [t[k]];
    } else {
      assert all[n + 1] == [t[k]];
    }
  }

  /** Without delimiters, the tokens are exactly the runs of the tokenization
      with delimiters. */
  lemma {:induction false} SplitDropsDelimiters(t: seq<KyteaChar>, ds: seq<KyteaChar>)
    ensures Split(t, ds, false) == Runs(Split(t, ds, true), ds)
    decreases |t|
  {
    var k := FirstDelim(t, ds);
    if k < |t| {
      var after := t[k + 1..];
      var rest := Split(after, ds, true);
      var head := if k > 0 then [t[..k]] else [];
      assert Split(t, ds, true) == head + ([[t[k]]] + rest)
          && Split(t, ds, false) == head + Split(after, ds, false) by {
        FirstDelimSpec(t, ds);
        SplitAtDelimiter(t, ds, true, k);
        SplitAtDelimiter(t, ds, false, k);
        assert head + [] == head;
      }
      assert Runs([[t[k]]] + rest, ds) == Runs(rest, ds) by {
        RunsAppend([[t[k]]], rest, ds);
        assert IsDelimToken([t[k]], ds) by {
          FirstDelimSpec(t, ds);
        }
      }
      assert Runs(head + ([[t[k]]] + rest), ds) == head + Runs(rest, ds) by {
        RunsAppend(head, [[t[k]]] + rest, ds);
        if k > 0 {
          assert !IsDelimToken(t[..k], ds) by {
            FirstDelimSpec(t, ds);
            if |t[..k]| == 1 { assert t[..k][0] == t[0]; }
          }
          assert head[1..] == [];
        }
      }
      SplitDropsDelimiters(after, ds);
    } else if t != [] {
      assert Split(t, ds, true) == [t] && Split(t, ds, false) == [t] by {
        FirstDelimSpec(t, ds);
        SplitWithoutDelimiter(t, ds, true);
        SplitWithoutDelimiter(t, ds, false);
      }
      assert !IsDelimToken(t, ds) by {
        FirstDelimSpec(t, ds);
        if |t| == 1 { assert t[0] !in ds; }
      }
      assert [t][1..] == [];
    }
  }

  lemma {:induction false} RunsAppend(a: seq<seq<KyteaChar>>, b: seq<seq<KyteaChar>>, ds: seq<KyteaChar>)
    ensures Runs(a + b, ds) == Runs(a, ds) + Runs(b, ds)
    decreases |a|
  {
    if a != [] {
      assert (a + b)[1..] == a[1..] + b;
      RunsAppend(a[1..], b, ds);
    } else {
      assert a + b == b;
    }
  }
}
