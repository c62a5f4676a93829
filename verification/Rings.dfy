/** Circular buffers as windows on a sequence. */
module Rings {

  /** The index i places after start, going round. */
  function Slot(start: nat, i: nat, size: nat): (k: nat)
    requires start < size && i <= size
    ensures k < size
  {
    if start + i < size then start + i else start + i - size
  }

  /** if (++i == SIZE) i = 0 */
  function Bump(i: nat, size: nat): (k: nat)
    requires i < size
    ensures k < size && k == Slot(i, 1, size)
  {
    if i + 1 >= size then 0 else i + 1
  }

  lemma SlotIsMod(start: nat, i: nat, size: nat)
    requires start < size && i <= size
    ensures Slot(start, i, size) == (start + i) % size
  {
    if start + i < size {
    } else if start + i < 2 * size {
      assert (start + i) / size == 1;
    }
  }

  /** The n elements from start onwards, going round. */
  function Window<T>(buf: seq<T>, start: nat, n: nat): (w: seq<T>)
    requires start < |buf| && n <= |buf|
    ensures |w| == n && forall i :: 0 <= i < n ==> w[i] == buf[Slot(start, i, |buf|)]
  {
    seq(n, i requires 0 <= i < n => buf[Slot(start, i, |buf|)])
  }

  /** Storing behind the window and counting it appends to the window. */
  lemma WindowPush<T>(buf: seq<T>, start: nat, n: nat, x: T)
    requires start < |buf| && n < |buf|
    ensures Window(buf[Slot(start, n, |buf|) := x], start, n) == Window(buf, start, n)
    ensures Window(buf[Slot(start, n, |buf|) := x], start, n + 1) == Window(buf, start, n) + [x]
    ensures Slot(start, n + 1, |buf|) == Bump(Slot(start, n, |buf|), |buf|)
  {
  }

  /** Moving the start on drops the head of the window. */
  lemma WindowPop<T>(buf: seq<T>, start: nat, n: nat)
    requires start < |buf| && 0 < n <= |buf|
    ensures Window(buf, start, n) == [buf[start]] + Window(buf, Bump(start, |buf|), n - 1)
    ensures Slot(Bump(start, |buf|), n - 1, |buf|) == Slot(start, n, |buf|)
  {
  }
}
