/** The generic ring generated by FS_RINGBUFFER_DECLARE and driven by the FS_RINGBUFFER_* macros. */
module RingBuffer {
  import opened Bytes
  import opened RingView

  datatype Option<+T> = None | Some(value: T)

  datatype Op<T> = Push(x: T) | PushForce(x: T) | Pop | PeekAt(index: nat)

  /** What one operation does to the abstract contents, as the class methods promise. */
  function Apply<T>(s: seq<T>, op: Op<T>, n: nat): seq<T> {
    match op
    case Push(x) => if |s| < n then s + [x] else s
    case PushForce(x) => LastN(s + [x], n)
    case Pop => if s == [] then [] else s[1..]
    case PeekAt(_) => s
  }

  /** What one operation returns through its out pointer. */
  function Result<T>(s: seq<T>, op: Op<T>): Option<T> {
    match op
    case Pop => if s == [] then None else Some(s[0])
    case PeekAt(i) => if i < |s| then Some(s[i]) else None
    case _ => None
  }

  class Ring<T(0)> {
    const size: nat
    const buffer: array<T>
    var head: nat   // trifecta_atomic_u16
    var tail: nat
    var count: nat

    ghost predicate Valid()
      reads this
    {
      && 0 < size < 0x1_0000 && buffer.Length == size
      && tail < size && count <= size && head == Fold(tail + count, size)
    }

    /** The queued values, oldest first. */
    ghost function Contents(): (s: seq<T>)
      reads this, buffer
      requires Valid()
      ensures |s| == count
    {
      View(buffer[..], tail, count)
    }

    constructor (n: nat)
      requires 0 < n < 0x1_0000
      ensures Valid() && fresh(buffer) && size == n && Contents() == []
    {
      size := n;
      buffer := new T[n];
      head, tail, count := 0, 0, 0;
    }

    /** FS_RINGBUFFER_INIT */
    method Init()
      requires 0 < size < 0x1_0000 && buffer.Length == size
      modifies this
      ensures Valid() && Contents() == []
    {
      head := 0;
      tail := 0;
      count := 0;
    }

    /** FS_RINGBUFFER_PUSH */
    method Push(x: T) returns (success: bool)
      requires Valid()
      modifies this, buffer
      ensures Valid()
      ensures success == (|old(Contents())| < size)
      ensures Contents() == Apply(old(Contents()), Op.Push(x), size)
    {
      success := false;
      var oldCount := count;
      if oldCount < size {
        ViewPush(buffer[..], tail, count, x);
        var h := head;
        ghost var cells := buffer[..];
        buffer[h] := x;
        assert buffer[..] == cells[h := x];
        Wrap(h + 1, size);
        head := (h + 1) % size;
        count := count + 1;
        success := true;
      }
    }

    /** FS_RINGBUFFER_PUSH_FORCE: never refuses, the oldest element makes room. */
    method PushForce(x: T) returns (success: bool)
      requires Valid()
      modifies this, buffer
      ensures Valid() && success
      ensures Contents() == Apply(old(Contents()), Op.PushForce(x), size)
    {
      hide View, LastN;
      LastNPush(Contents(), x, size);
      if count < size {
        ViewPush(buffer[..], tail, count, x);
      } else {
        ViewOverwrite(buffer[..], tail, x);
      }
      var h := head;
      ghost var cells := buffer[..];
      buffer[h] := x;
      assert buffer[..] == cells[h := x];
      Wrap(h + 1, size);
      head := (h + 1) % size;
      var oldCount := count;
      if oldCount < size {
        count := count + 1;
      } else {
        var t := tail;
        Wrap(t + 1, size);
        tail := (t + 1) % size;
      }
      success := true;
    }

    /** FS_RINGBUFFER_POP: None stands for the out pointer left unwritten. */
    method Pop() returns (out: Option<T>)
      requires Valid()
      modifies this
      ensures Valid()
      ensures out == Result(old(Contents()), Op.Pop)
      ensures Contents() == Apply(old(Contents()), Op.Pop, size)
    {
      out := None;
      var oldCount := count;
      if oldCount > 0 {
        ViewPop(buffer[..], tail, count);
        var t := tail;
        out := Some(buffer[t]);
        Wrap(t + 1, size);
        tail := (t + 1) % size;
        count := count - 1;
      }
    }

    /** FS_RINGBUFFER_PEEK */
    method Peek() returns (out: Option<T>)
      requires Valid()
      ensures out == Result(Contents(), Op.PeekAt(0))
    {
      out := None;
      if count > 0 {
        ViewPop(buffer[..], tail, count);
        out := Some(buffer[tail]);
      }
    }

    /** FS_RINGBUFFER_PEEK_AT */
    method PeekAt(index: nat) returns (out: Option<T>)
      requires Valid()
      ensures out == Result(Contents(), Op.PeekAt(index))
    {
      out := None;
      if index < count {
        Wrap(tail + index, size);
        var pos := (tail + index) % size;
        out := Some(buffer[pos]);
        assert out.value == View(buffer[..], tail, count)[index];
      }
    }
  }

  // ----- runs of the ring as a bounded sequence -----

  function RunOps<T>(s: seq<T>, ops: seq<Op<T>>, n: nat): (r: seq<T>)
    ensures |s| <= n ==> |r| <= n
    decreases |ops|
  {
    if ops == [] then s else RunOps(Apply(s, ops[0], n), ops[1..], n)
  }

  function Forces<T>(xs: seq<T>): (ops: seq<Op<T>>)
    ensures |ops| == |xs|
  {
    seq(|xs|, i requires 0 <= i < |xs| => PushForce(xs[i]))
  }

  function Pops<T>(k: nat): (ops: seq<Op<T>>)
    ensures |ops| == k
  {
    seq(k, _ => Pop)
  }

  /** Any number of forced pushes keeps exactly the last n values of old contents followed by the new data. */
  lemma {:induction false} ForcedPushesKeepNewest<T>(s: seq<T>, xs: seq<T>, n: nat)
    requires |s| <= n
    ensures RunOps(s, Forces(xs), n) == LastN(s + xs, n)
    decreases |xs|
  {
    if xs == [] {
      assert s + xs == s;
    } else {
      var s' := LastN(s + [xs[0]], n);
      ForcedPushesKeepNewest(s', xs[1..], n);
      assert RunOps(s, Forces(xs), n) == RunOps(s', Forces(xs[1..]), n) by {
        assert Forces(xs)[1..] == Forces(xs[1..]);
      }
      LastNAppend(s + [xs[0]], xs[1..], n);
      assert s + [xs[0]] + xs[1..] == s + xs;
    }
  }

  lemma {:induction false} PopsDrop<T>(s: seq<T>, k: nat, n: nat)
    requires k <= |s|
    ensures RunOps(s, Pops(k), n) == s[k..]
  {
    if k > 0 {
      assert Pops<T>(k)[1..] == Pops<T>(k - 1);
      PopsDrop(s[1..], k - 1, n);
    }
  }

  /** Reading index i returns what the (i+1)-th pop from the same state returns, and is refused when that pop is. */
  lemma PeekAgreesWithPop<T>(s: seq<T>, i: nat, n: nat)
    ensures i <= |s| ==> Result(s, PeekAt(i)) == Result(RunOps(s, Pops(i), n), Pop)
    ensures i > |s| ==> Result(s, PeekAt(i)) == None
  {
    if i <= |s| {
      PopsDrop(s, i, n);
    }
  }
}
