/** What every component shares. */
module Basics {

  datatype Option<+T> = None | Some(value: T)

  /** One more than the largest 32-bit word. */
  const U32 := 0x1_0000_0000

  function Repeat<T>(n: nat, x: T): (r: seq<T>)
    ensures |r| == n
  {
    seq(n, i => x)
  }

  lemma RepeatNone<T>(x: T)
    ensures Repeat(0, x) == []
  {
  }

  lemma RepeatGrows<T>(n: nat, x: T)
    ensures Repeat(n + 1, x) == Repeat(n, x) + [x]
  {
  }

  function Max(x: nat, y: nat): nat {
    if x < y then y else x
  }

  /** `piece` written over `s` from position `at` on. */
  function Splice<T>(s: seq<T>, at: nat, piece: seq<T>): (r: seq<T>)
    requires at + |piece| <= |s|
    ensures |r| == |s|
  {
    s[..at] + piece + s[at + |piece|..]
  }

  lemma SpliceTwice<T>(s: seq<T>, at: nat, a: seq<T>, b: seq<T>)
    requires at + |a| + |b| <= |s|
    ensures Splice(Splice(s, at, a), at + |a|, b) == Splice(s, at, a + b)
  {
  }
}
