/** Result types and byte strings shared by every module of the model. */
module Common {
  datatype Option<+T> = None | Some(value: T)

  datatype Result<+T> = Ok(value: T) | Err(error: string)

  /** A slash-separated path inside a worktree, one name per component. */
  type Path = seq<string>

  lemma ConcatAssociative<T>(a: seq<T>, b: seq<T>, c: seq<T>)
    ensures (a + b) + c == a + (b + c)
  {
  }

  /** The first element and the rest of a concatenation. */
  lemma ConcatCons<T>(a: seq<T>, b: seq<T>)
    requires a != []
    ensures (a + b)[0] == a[0] && (a + b)[1..] == a[1..] + b
  {
  }

  newtype byte = x: int | 0 <= x < 256

  type Bytes = seq<byte>

  const NL: byte := 10
  const DASH: byte := 45

  predicate HasSuffix<T(==)>(s: seq<T>, suffix: seq<T>) {
    |suffix| <= |s| && s[|s| - |suffix|..] == suffix
  }

  predicate HasPrefix<T(==)>(s: seq<T>, prefix: seq<T>) {
    prefix <= s
  }

  function TrimPrefix<T(==)>(s: seq<T>, prefix: seq<T>): seq<T> {
    if prefix <= s then s[|prefix|..] else s
  }

  /** bytes.TrimRight(s, "\n"). */
  function TrimNewlines(s: Bytes): (r: Bytes)
    ensures r <= s
    ensures |r| > 0 ==> r[|r| - 1] != NL
    ensures forall i :: |r| <= i < |s| ==> s[i] == NL
  {
    if |s| > 0 && s[|s| - 1] == NL then TrimNewlines(s[..|s| - 1]) else s
  }

  /** The ASCII part of what bytes.TrimSpace removes. */
  predicate IsSpace(b: byte) {
    b == 9 || b == 10 || b == 11 || b == 12 || b == 13 || b == 32
  }

  /** Nothing would be left after bytes.TrimSpace. */
  predicate IsBlank(s: Bytes) {
    forall i :: 0 <= i < |s| ==> IsSpace(s[i])
  }

  function TrimLeftSpace(s: Bytes): Bytes {
    if |s| > 0 && IsSpace(s[0]) then TrimLeftSpace(s[1..]) else s
  }

  function TrimRightSpace(s: Bytes): Bytes {
    if |s| > 0 && IsSpace(s[|s| - 1]) then TrimRightSpace(s[..|s| - 1]) else s
  }

  function TrimSpace(s: Bytes): Bytes {
    TrimRightSpace(TrimLeftSpace(s))
  }

  /** The bytes before the first b, or all of s. */
  function Before(s: Bytes, b: byte): (r: Bytes)
    ensures r <= s
    ensures b !in r
  {
    if |s| == 0 || s[0] == b then [] else [s[0]] + Before(s[1..], b)
  }
}
