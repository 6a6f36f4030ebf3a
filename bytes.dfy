/** Bytes, the ASCII bytes the interpolator writes, and the two `strings` helpers it calls. */
module Bytes {

  newtype byte = x: int | 0 <= x < 256

  const Quote: byte := '\'' as int as byte
  const Question: byte := '?' as int as byte
  const Zero: byte := '0' as int as byte
  const Minus: byte := '-' as int as byte
  const Colon: byte := ':' as int as byte
  const Space: byte := ' ' as int as byte
  const Dot: byte := '.' as int as byte

  /**
   * The bytes of an ASCII string literal. The ensures clauses repeat the body on purpose: they
   * give the proofs about the fixed literals (NULL, '0000-00-00', _binary') the length and the
   * bytes without unfolding the comprehension, which keeps those proofs within their budget.
   */
  function Ascii(s: string): (r: seq<byte>)
    requires forall i :: 0 <= i < |s| ==> s[i] as int < 128
    ensures |r| == |s|
    ensures forall i :: 0 <= i < |s| ==> r[i] as int == s[i] as int
  {
    seq(|s|, i requires 0 <= i < |s| => s[i] as int as byte)
  }

  /** strings.Count for a one-byte separator: the number of occurrences of `c` in `s`. */
  function CountByte(s: seq<byte>, c: byte): (n: nat)
    ensures n <= |s|
  {
    if s == [] then 0 else (if s[0] == c then 1 else 0) + CountByte(s[1..], c)
  }

  /** The count is zero exactly when `c` does not occur. */
  lemma {:induction false} CountByteZero(s: seq<byte>, c: byte)
    ensures CountByte(s, c) == 0 <==> c !in s
  {
    if s != [] {
      CountByteZero(s[1..], c);
      assert s == [s[0]] + s[1..];
    }
  }

  lemma {:induction false} CountByteAppend(a: seq<byte>, b: seq<byte>, c: byte)
    ensures CountByte(a + b, c) == CountByte(a, c) + CountByte(b, c)
  {
    if a == [] {
      assert a + b == b;
    } else {
      assert (a + b)[1..] == a[1..] + b;
      CountByteAppend(a[1..], b, c);
    }
  }

  /** Appending three pieces one after another appends their concatenation. */
  lemma AppendThree(s: seq<byte>, a: seq<byte>, b: seq<byte>, c: seq<byte>)
    ensures s + a + b + c == s + (a + b + c)
  {
  }

  /** strings.IndexByte: the index of the first `c` in `s`, or -1 when there is none. */
  function IndexByte(s: seq<byte>, c: byte): (r: int)
    ensures -1 <= r < |s|
    ensures r == -1 <==> c !in s
    ensures r >= 0 ==> s[r] == c && c !in s[..r]
  {
    if s == [] then -1
    else if s[0] == c then 0
    else
      var k := IndexByte(s[1..], c);
      if k == -1 then -1 else k + 1
  }
}
