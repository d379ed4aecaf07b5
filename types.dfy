/** Shared vocabulary of the character layer: bytes, 16-bit character codes,
    the character-type and encoding tags, and the error results that stand
    for the checked-mode exceptions. */
module Types {

  /** One byte of a raw `std::string` (the source reads it as `unsigned char`
      wherever the value matters). */
  type Byte = b: int | 0 <= b < 0x100

  /** `KyteaChar`, an `unsigned short`. */
  type KyteaChar = c: int | 0 <= c < 0x10000

  /** `StringUtil::CharType` is a plain `char`; the six categories are letters. */
  type CharType = char

  const KANJI: CharType := 'K'
  const KATAKANA: CharType := 'T'
  const HIRAGANA: CharType := 'H'
  const ROMAJI: CharType := 'R'
  const DIGIT: CharType := 'D'
  const OTHER: CharType := 'O'

  /** `StringUtil::Encoding` is a plain `char` as well. */
  type Encoding = char

  const ENCODING_UTF8: Encoding := 'W'
  const ENCODING_EUC: Encoding := 'E'
  const ENCODING_SJIS: Encoding := 'S'

  /** The failures the checked build reports by throwing. */
  datatype Error =
    | IndexError                       // an index or range check failed
    | EncodingError(bytes: seq<Byte>)  // bytes that do not fit the encoding
    | MalformedChar                    // more than four bytes given to UTF-8 findType
    | SerializationMismatch            // checkEqual found different vocabularies

  datatype Result<T> = Ok(value: T) | Err(error: Error)

  datatype Outcome = Pass | Fail(error: Error)

  /** Concatenation of a sequence of sequences, in order. */
  function Flatten<T>(ss: seq<seq<T>>): (r: seq<T>)
    decreases |ss|
  {
    if ss == [] then [] else ss[0] + Flatten(ss[1..])
  }

  /** A `char` array read as a C string: the bytes before the first NUL. */
  function UntilNul(bs: seq<Byte>): (r: seq<Byte>)
    ensures r <= bs && 0 !in r
    ensures |r| < |bs| ==> bs[|r|] == 0
  {
    if bs == [] || bs[0] == 0 then [] else [bs[0]] + UntilNul(bs[1..])
  }

  lemma FlattenCons<T>(x: seq<T>, rest: seq<seq<T>>)
    ensures Flatten([x] + rest) == x + Flatten(rest)
  {
    assert ([x] + rest)[1..] == rest;
  }

  lemma {:induction false} FlattenAppend<T>(a: seq<seq<T>>, b: seq<seq<T>>)
    ensures Flatten(a + b) == Flatten(a) + Flatten(b)
    decreases |a|
  {
    if a == [] {
      assert a + b == b;
    } else {
      assert (a + b)[1..] == a[1..] + b;
      FlattenAppend(a[1..], b);
    }
  }

  lemma FlattenSnoc<T>(ss: seq<seq<T>>, x: seq<T>)
    ensures Flatten(ss + [x]) == Flatten(ss) + x
  {
    FlattenAppend(ss, [x]);
    FlattenCons(x, []);
    assert [x] + [] == [x];
  }
}
