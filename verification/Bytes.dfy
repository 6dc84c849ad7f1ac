/** Bytes, C strings and the small vocabulary the other modules share. */
module Bytes {

  type Byte = b: int | 0 <= b < 256

  const NUL: Byte := 0
  const NEWLINE: Byte := 10
  const CARRIAGE_RETURN: Byte := 13
  const SPACE: Byte := 32

  const NUM_TERMINALS := 3
  const MAX_PROCESSES := 6
  const UINT32 := 0x1_0000_0000

  /** The C error return. */
  const ERROR := -1

  datatype Option<+T> = None | Some(value: T)

  function Min(a: int, b: int): int {
    if a < b then a else b
  }

  function Max(a: int, b: int): int {
    if a < b then b else a
  }

  /** The k-th of three terminals after t, going round. */
  function Turned(t: int, k: nat): int {
    if k == 0 then t else (Turned(t, k - 1) + 1) % NUM_TERMINALS
  }

  lemma {:induction false} TurnedIs(t: int, k: nat)
    requires 0 <= t < 3
    ensures Turned(t, k) == (t + k) % 3
  {
    if k > 0 { TurnedIs(t, k - 1); }
  }

  /** n copies of b. */
  function Fill(b: Byte, n: nat): (s: seq<Byte>)
    ensures |s| == n && forall i :: 0 <= i < n ==> s[i] == b
  {
    seq(n, _ => b)
  }

  /** The C string held at the start of s: the bytes before the first NUL, or all of s. */
  function CStr(s: seq<Byte>): (r: seq<Byte>)
    ensures |r| <= |s| && r == s[..|r|]
    ensures NUL !in r
    ensures |r| < |s| ==> s[|r|] == NUL
  {
    if s == [] || s[0] == NUL then [] else [s[0]] + CStr(s[1..])
  }

  /** CStr is the only NUL-free prefix that ends at a NUL or at the end. */
  lemma {:induction false} CStrUnique(s: seq<Byte>, n: nat)
    requires n <= |s| && NUL !in s[..n]
    requires n < |s| ==> s[n] == NUL
    ensures CStr(s) == s[..n]
  {
    if n > 0 {
      assert s[0] == s[..n][0] && s[1..][..n - 1] == s[..n][1..];
      CStrUnique(s[1..], n - 1);
    }
  }

  function Reverse(s: seq<Byte>): (r: seq<Byte>)
    ensures |r| == |s| && forall i :: 0 <= i < |s| ==> r[i] == s[|s| - 1 - i]
  {
    seq(|s|, i requires 0 <= i < |s| => s[|s| - 1 - i])
  }

  function Pow2(k: nat): (p: nat)
    ensures p >= 1
  {
    if k == 0 then 1 else 2 * Pow2(k - 1)
  }

  lemma {:induction false} PowAdd(a: nat, b: nat)
    ensures Pow2(a + b) == Pow2(a) * Pow2(b)
  {
    if a > 0 { PowAdd(a - 1, b); }
  }

  /** Bitwise and of two naturals. */
  function BitAnd(a: nat, b: nat): nat {
    if a == 0 || b == 0 then 0 else (if a % 2 == 1 && b % 2 == 1 then 1 else 0) + 2 * BitAnd(a / 2, b / 2)
  }

  lemma {:induction false} BitAndSelf(a: nat)
    ensures BitAnd(a, a) == a
  {
    if a > 0 { BitAndSelf(a / 2); }
  }
}
