/** How a circular array of cells represents a bounded sequence. */
module RingView {

  /** A position at most one lap ahead, folded back into the n cells. */
  function Fold(x: nat, n: nat): (r: nat)
    requires x < 2 * n
    ensures r < n
  {
    if x < n then x else x - n
  }

  /** Folding is what the remainder operator of the code computes. */
  lemma Wrap(x: nat, n: nat)
    requires x < 2 * n
    ensures x % n == Fold(x, n)
  {
    var q, r := x / n, x % n;
    assert x == n * q + r;
    assert q >= 2 ==> n * q >= n * 2;
  }

  /** The count cells that start at tail, oldest first. */
  function View<T>(cells: seq<T>, tail: nat, count: nat): (v: seq<T>)
    requires tail < |cells| && count <= |cells|
    ensures |v| == count
    ensures forall i :: 0 <= i < count ==> v[i] == cells[Fold(tail + i, |cells|)]
  {
    seq(count, i requires 0 <= i < count => cells[Fold(tail + i, |cells|)])
  }

  /** Storing at the head of a ring that is not full appends. */
  lemma ViewPush<T>(cells: seq<T>, tail: nat, count: nat, x: T)
    requires tail < |cells| && count < |cells|
    ensures View(cells[Fold(tail + count, |cells|) := x], tail, count + 1) == View(cells, tail, count) + [x]
  {
  }

  /** Storing at the head of a full ring replaces the oldest element. */
  lemma ViewOverwrite<T>(cells: seq<T>, tail: nat, x: T)
    requires tail < |cells|
    ensures View(cells[tail := x], Fold(tail + 1, |cells|), |cells|) == View(cells, tail, |cells|)[1..] + [x]
  {
  }

  /** Advancing the tail drops the oldest element. */
  lemma ViewPop<T>(cells: seq<T>, tail: nat, count: nat)
    requires tail < |cells| && 0 < count <= |cells|
    ensures View(cells, Fold(tail + 1, |cells|), count - 1) == View(cells, tail, count)[1..]
    ensures View(cells, tail, count)[0] == cells[tail]
  {
  }
}
