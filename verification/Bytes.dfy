// Bytes, characters and the C library's view of a string.
module Bytes {
  type byte = b: int | 0 <= b < 256

  // A decoded character: a byte in the one-byte build, a code point in the UTF-8 build.
  type Code = c: int | 0 <= c < 0x1_0000

  datatype Option<+T> = None | Some(value: T)

  const NUL: byte := 0
  const SPACE: byte := ' ' as int

  /** strlen: the number of elements in front of the first NUL. */
  function StrLen(s: seq<Code>): (n: nat)
    ensures n <= |s|
    ensures forall i :: 0 <= i < n ==> s[i] != 0
    ensures n < |s| ==> s[n] == 0
  {
    if |s| == 0 || s[0] == 0 then 0 else 1 + StrLen(s[1..])
  }

  /** The part of `s` that a C library call reads. */
  function CStr(s: seq<Code>): (r: seq<Code>)
    ensures 0 !in r
  {
    s[..StrLen(s)]
  }

  lemma StrLenUnique(s: seq<Code>, n: nat)
    requires n <= |s|
    requires forall i :: 0 <= i < n ==> s[i] != 0
    requires n < |s| ==> s[n] == 0
    ensures StrLen(s) == n && CStr(s) == s[..n]
  {
  }

  // A string without NUL is read whole.
  lemma CStrWhole(s: seq<Code>)
    ensures CStr(s) == s <==> 0 !in s
  {
    if 0 !in s {
      StrLenUnique(s, |s|);
    }
  }

  lemma CStrIdempotent(s: seq<Code>)
    ensures CStr(CStr(s)) == CStr(s)
  {
    CStrWhole(CStr(s));
  }

  /** The last `n` elements, or all of them. */
  function LastN<T>(s: seq<T>, n: nat): (r: seq<T>)
  {
    if |s| <= n then s else s[|s| - n..]
  }

  /** What is left of `t` when some elements are gone from its front. */
  predicate Suffix<T(==)>(s: seq<T>, t: seq<T>) {
    |s| <= |t| && s == t[|t| - |s|..]
  }

  lemma SuffixTransitive<T>(s: seq<T>, t: seq<T>, u: seq<T>)
    requires Suffix(s, t) && Suffix(t, u)
    ensures Suffix(s, u)
  {
    assert u[|u| - |t|..][|t| - |s|..] == u[|u| - |s|..];
  }

  lemma Associates<T>(a: seq<T>, b: seq<T>, c: seq<T>)
    ensures a + (b + c) == (a + b) + c
  {
  }
}
