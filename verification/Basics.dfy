/** Types and sequence facts shared by the models. */
module Basics {

  datatype Option<+T> = None | Some(value: T)

  /** An octet of memory or of the wire. */
  type Byte = b: int | 0 <= b < 256

  function Zeros(n: nat): (z: seq<Byte>)
    ensures |z| == n && forall i :: 0 <= i < n ==> z[i] == 0
  {
    seq(n, _ => 0)
  }

  function Min(a: int, b: int): int {
    if a <= b then a else b
  }

  function Max(a: int, b: int): int {
    if a <= b then b else a
  }

  lemma ConcatAssoc<T>(a: seq<T>, b: seq<T>, c: seq<T>)
    ensures a + (b + c) == (a + b) + c
  {
  }

  lemma PrefixTrans<T>(a: seq<T>, b: seq<T>, c: seq<T>)
    requires a <= b && b <= c
    ensures a <= c
  {
    assert a == b[..|a|] == c[..|b|][..|a|] == c[..|a|];
  }

  /** The first n natural numbers, in order. */
  function Upto(n: nat): seq<int> {
    seq(n, i => i)
  }

  /** How many elements of s equal x. */
  function Count<T(==)>(s: seq<T>, x: T): (c: nat)
    ensures c <= |s|
  {
    if s == [] then 0 else Count(s[..|s| - 1], x) + (if s[|s| - 1] == x then 1 else 0)
  }

  /** Changing one element changes the count by what left and what arrived. */
  lemma {:induction false} CountUpdate<T>(s: seq<T>, k: nat, y: T, x: T)
    requires k < |s|
    ensures Count(s[k := y], x) == Count(s, x) - (if s[k] == x then 1 else 0) + (if y == x then 1 else 0)
  {
    var last := |s| - 1;
    if k == last {
      assert s[k := y][..last] == s[..last];
    } else {
      assert s[k := y][..last] == s[..last][k := y];
      CountUpdate(s[..last], k, y, x);
    }
  }

  /** A count is zero exactly when the element is absent. */
  lemma {:induction false} CountZero<T>(s: seq<T>, x: T)
    ensures Count(s, x) == 0 <==> x !in s
  {
    if s != [] {
      CountZero(s[..|s| - 1], x);
      assert s == s[..|s| - 1] + [s[|s| - 1]];
    }
  }
}
