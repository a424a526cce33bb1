/** The ring macros as interleaved atomic steps of one producer and one consumer. Every atomic load, store and
    fetch-and-add is a step of its own; copying a value into or out of a slot is not atomic and takes a step per byte.
    */
module SpscRing {
  import opened Bytes
  import opened RingView

  type Word = byte // what a copy moves at a time

  /** Where the producer is inside FS_RINGBUFFER_PUSH or FS_RINGBUFFER_PUSH_FORCE. */
  datatype Producer =
    | Ready
    | LoadCount(v: seq<Word>)                             // PUSH: room?
    | LoadHead(v: seq<Word>, force: bool)
    | WriteSlot(v: seq<Word>, force: bool, h: nat, k: nat) // k bytes of the slot are written
    | StoreHead(v: seq<Word>, force: bool, h: nat)
    | ReloadCount                                      // PUSH_FORCE: was there room?
    | AddCount
    | DropLoad                                         // PUSH_FORCE on a full ring: advance the tail instead
    | DropStore(t: nat)

  /** Where the consumer is inside FS_RINGBUFFER_POP. */
  datatype Consumer =
    | Waiting
    | TestCount
    | LoadTail
    | ReadSlot(t: nat, out: seq<Word>)                    // the bytes read so far
    | StoreTail(t: nat, out: seq<Word>)
    | SubCount(out: seq<Word>)

  /** The shared ring, the two program positions, and the history of values: pushed when the head moves past them,
      popped when POP returns them. */
  datatype State = State(
    slots: seq<seq<Word>>, head: nat, tail: nat, count: nat,
    producer: Producer, consumer: Consumer,
    pushed: seq<seq<Word>>, popped: seq<seq<Word>>)

  datatype Move = BeginPush(v: seq<Word>) | BeginForce(v: seq<Word>) | Produce | BeginPop | Consume

  const U16: nat := 0x1_0000

  predicate ProducerShape(p: Producer, n: nat, width: nat) {
    match p
    case LoadCount(v) => |v| == width
    case LoadHead(v, _) => |v| == width
    case WriteSlot(v, _, h, k) => |v| == width && h < n && k <= width
    case StoreHead(v, _, h) => |v| == width && h < n
    case _ => true
  }

  predicate ConsumerShape(c: Consumer, n: nat, width: nat) {
    match c
    case ReadSlot(t, out) => t < n && |out| <= width
    case StoreTail(t, out) => t < n && |out| == width
    case SubCount(out) => |out| == width
    case _ => true
  }

  predicate Shape(s: State, width: nat) {
    && 0 < |s.slots| < U16 && s.head < |s.slots| && s.tail < |s.slots|
    && (forall i :: 0 <= i < |s.slots| ==> |s.slots[i]| == width)
    && ProducerShape(s.producer, |s.slots|, width) && ConsumerShape(s.consumer, |s.slots|, width)
  }

  function Init(slots: seq<seq<Word>>): State {
    State(slots, 0, 0, 0, Ready, Waiting, [], [])
  }

  /** One producer step. */
  function Produced(s: State, width: nat): (r: State)
    requires Shape(s, width)
  {
    var n := |s.slots|;
    match s.producer
    case Ready => s
    case LoadCount(v) => s.(producer := if s.count < n then LoadHead(v, false) else Ready)
    case LoadHead(v, force) => s.(producer := WriteSlot(v, force, s.head, 0))
    case WriteSlot(v, force, h, k) =>
      if k < width then s.(slots := s.slots[h := s.slots[h][k := v[k]]], producer := WriteSlot(v, force, h, k + 1))
      else s.(producer := StoreHead(v, force, h))
    case StoreHead(v, force, h) =>
      s.(head := (h + 1) % n, pushed := s.pushed + [v], producer := if force then ReloadCount else AddCount)
    case ReloadCount => s.(producer := if s.count < n then AddCount else DropLoad)
    case AddCount => s.(count := (s.count + 1) % U16, producer := Ready)
    case DropLoad => s.(producer := DropStore(s.tail))
    case DropStore(t) => s.(tail := (t + 1) % n, producer := Ready)
  }

  /** One consumer step. */
  function Consumed(s: State, width: nat): (r: State)
    requires Shape(s, width)
  {
    var n := |s.slots|;
    match s.consumer
    case Waiting => s
    case TestCount => s.(consumer := if s.count > 0 then LoadTail else Waiting)
    case LoadTail => s.(consumer := ReadSlot(s.tail, []))
    case ReadSlot(t, out) =>
      if |out| < width then s.(consumer := ReadSlot(t, out + [s.slots[t][|out|]]))
      else s.(consumer := StoreTail(t, out))
    case StoreTail(t, out) => s.(tail := (t + 1) % n, consumer := SubCount(out))
    case SubCount(out) => s.(count := (s.count - 1) % U16, popped := s.popped + [out], consumer := Waiting)
  }

  /** One move of the schedule; a call can begin only when the thread's previous call has returned. */
  function Next(s: State, m: Move, width: nat): (r: State)
    requires Shape(s, width)
  {
    match m
    case BeginPush(v) => if s.producer.Ready? && |v| == width then s.(producer := LoadCount(v)) else s
    case BeginForce(v) => if s.producer.Ready? && |v| == width then s.(producer := LoadHead(v, true)) else s
    case Produce => Produced(s, width)
    case BeginPop => if s.consumer.Waiting? then s.(consumer := TestCount) else s
    case Consume => Consumed(s, width)
  }

  lemma NextKeepsShape(s: State, m: Move, width: nat)
    requires Shape(s, width)
    ensures Shape(Next(s, m, width), width)
  {
  }

  /** A schedule is any sequence of moves of the two threads. */
  function Run(s: State, ms: seq<Move>, width: nat): (r: State)
    requires Shape(s, width)
    ensures Shape(r, width)
    decreases |ms|
  {
    if ms == [] then s
    else
      NextKeepsShape(s, ms[0], width);
      Run(Next(s, ms[0], width), ms[1..], width)
  }

  /** Every PUSH_FORCE begins while the ring is not full. */
  predicate Guarded(s: State, ms: seq<Move>, width: nat)
    requires Shape(s, width)
    decreases |ms|
  {
    ms == [] ||
    (NextKeepsShape(s, ms[0], width);
     (ms[0].BeginForce? && s.producer.Ready? ==> s.count < |s.slots|) && Guarded(Next(s, ms[0], width), ms[1..], width))
  }

  // ----- the invariant -----

  /** Head stores done but not yet counted. */
  function Uncounted(p: Producer): nat {
    if p.AddCount? || p.ReloadCount? then 1 else 0
  }

  /** Tail stores done but not yet counted. */
  function Unreturned(c: Consumer): nat {
    if c.SubCount? then 1 else 0
  }

  /** The producer has seen room for the value it is writing. */
  predicate HasRoom(p: Producer) {
    p.LoadHead? || p.WriteSlot? || p.StoreHead?
  }

  /** How far head, tail and count may be apart: the head has moved |pushed| times; the tail once per popped value,
      and once more while a POP is about to return; count lags behind the head and, downwards, behind the tail. */
  predicate Counters(s: State)
    requires |s.slots| > 0
  {
    var n, w, done := |s.slots|, |s.pushed|, |s.popped|;
    var r, u := done + Unreturned(s.consumer), Uncounted(s.producer);
    && s.head == w % n && s.tail == r % n
    && s.count + u + done == w && r + u <= w <= done + n
    && (HasRoom(s.producer) ==> w < done + n)
    && (s.consumer.LoadTail? || s.consumer.ReadSlot? || s.consumer.StoreTail? ==> r + u < w)
    && !s.producer.DropLoad? && !s.producer.DropStore?
  }

  /** Slots between tail and head hold the values that are still to be popped. */
  predicate Live(s: State)
    requires |s.slots| > 0
  {
    forall k :: |s.popped| + Unreturned(s.consumer) <= k < |s.pushed| ==> SlotOf(s.slots, k) == s.pushed[k]
  }

  /** The slot that the k-th pushed value goes to. */
  function SlotOf(slots: seq<seq<Word>>, k: nat): seq<Word>
    requires |slots| > 0
  {
    slots[k % |slots|]
  }

  predicate Writing(s: State, width: nat)
    requires Shape(s, width)
  {
    match s.producer
    case WriteSlot(v, _, h, k) => h == s.head && s.slots[h][..k] == v[..k]
    case StoreHead(v, _, h) => h == s.head && s.slots[h] == v
    case _ => true
  }

  predicate Reading(s: State) {
    var r := |s.popped|;
    match s.consumer
    case ReadSlot(t, out) => t == s.tail && r < |s.pushed| && out <= s.pushed[r]
    case StoreTail(t, out) => t == s.tail && r < |s.pushed| && out == s.pushed[r]
    case SubCount(out) => r < |s.pushed| && out == s.pushed[r]
    case _ => true
  }

  predicate Invariant(s: State, width: nat) {
    && Shape(s, width) && Counters(s) && Live(s) && Writing(s, width) && Reading(s)
    && s.popped <= s.pushed
    && forall i :: 0 <= i < |s.pushed| ==> |s.pushed[i]| == width
  }

  // ----- arithmetic of slots -----

  lemma DivModUnique(x: nat, n: nat, q: nat, r: nat)
    requires r < n && x == q * n + r
    ensures x % n == r
  {
    var q', r' := x / n, x % n;
    assert x == q' * n + r';
    assert q' > q ==> q' * n >= (q + 1) * n;
    assert q' < q ==> (q' + 1) * n <= q * n;
  }

  lemma NextSlot(k: nat, n: nat)
    requires 0 < n
    ensures (k % n + 1) % n == (k + 1) % n
  {
    var q, r := k / n, k % n;
    assert k == q * n + r;
    if r + 1 < n {
      DivModUnique(k + 1, n, q, r + 1);
      DivModUnique(r + 1, n, 0, r + 1);
    } else {
      DivModUnique(k + 1, n, q + 1, 0);
      DivModUnique(n, n, 1, 0);
    }
  }

  /** Fewer than n consecutive positions have different slots. */
  lemma SlotsDiffer(i: nat, j: nat, n: nat)
    requires i < j < i + n
    ensures i % n != j % n
  {
    var q, r := i / n, i % n;
    assert i == q * n + r;
    var d := j - i;
    if r + d < n {
      DivModUnique(j, n, q, r + d);
    } else {
      DivModUnique(j, n, q + 1, r + d - n);
    }
  }

  // ----- every step keeps the invariant -----

  lemma InitInvariant(slots: seq<seq<Word>>, width: nat)
    requires 0 < |slots| < U16 && forall i :: 0 <= i < |slots| ==> |slots[i]| == width
    ensures Invariant(Init(slots), width)
  {
  }

  /** Writing the slot at the head touches no live slot. */
  lemma WriteKeepsLive(s: State, width: nat, value: seq<Word>)
    requires Invariant(s, width) && |s.pushed| < |s.popped| + |s.slots|
    ensures Live(s.(slots := s.slots[s.head := value]))
  {
    var n, w := |s.slots|, |s.pushed|;
    forall k | |s.popped| + Unreturned(s.consumer) <= k < w
      ensures SlotOf(s.slots[s.head := value], k) == s.pushed[k]
    {
      SlotsDiffer(k, w, n);
      assert SlotOf(s.slots, k) == s.pushed[k];
    }
  }

  lemma ProduceWrite(s: State, width: nat)
    requires Invariant(s, width) && s.producer.WriteSlot?
    ensures Invariant(Produced(s, width), width)
  {
    var WriteSlot(v, force, h, k) := s.producer;
    if k < width {
      var value := s.slots[h][k := v[k]];
      WriteKeepsLive(s, width, value);
      assert value[..k + 1] == v[..k] + [v[k]];
      assert v[..k + 1] == v[..k] + [v[k]];
    } else {
      assert s.slots[h][..k] == s.slots[h] && v[..k] == v;
    }
  }

  lemma ProducePublish(s: State, width: nat)
    requires Invariant(s, width) && s.producer.StoreHead?
    ensures Invariant(Produced(s, width), width)
  {
    var w, n := |s.pushed|, |s.slots|;
    NextSlot(w, n);
    var s' := Produced(s, width);
    forall k | |s.popped| + Unreturned(s.consumer) <= k < w + 1 ensures SlotOf(s.slots, k) == s'.pushed[k] {
      if k < w {
        assert SlotOf(s.slots, k) == s.pushed[k];
      }
    }
  }

  lemma ProduceCount(s: State, width: nat)
    requires Invariant(s, width) && s.producer.AddCount?
    ensures Invariant(Produced(s, width), width)
  {
    assert (s.count + 1) % U16 == s.count + 1;
    assert forall k :: |s.popped| + Unreturned(s.consumer) <= k < |s.pushed| ==> SlotOf(s.slots, k) == s.pushed[k];
  }

  lemma ProduceLoad(s: State, width: nat)
    requires Invariant(s, width) && !s.producer.WriteSlot? && !s.producer.StoreHead? && !s.producer.AddCount?
    ensures Invariant(Produced(s, width), width)
  {
    var s' := Produced(s, width);
    assert s'.slots == s.slots && s'.pushed == s.pushed && s'.popped == s.popped && s'.consumer == s.consumer;
    assert Live(s') by {
      assert forall k :: |s.popped| + Unreturned(s.consumer) <= k < |s.pushed| ==> SlotOf(s.slots, k) == s.pushed[k];
    }
    assert s.producer.LoadHead? ==> s'.slots[s'.head][..0] == [] == s.producer.v[..0];
  }

  lemma ConsumeRead(s: State, width: nat)
    requires Invariant(s, width) && s.consumer.ReadSlot?
    ensures Invariant(Consumed(s, width), width)
  {
    var ReadSlot(t, out) := s.consumer;
    var r := |s.popped|;
    assert SlotOf(s.slots, r) == s.pushed[r];
    if |out| < width {
      assert s.pushed[r][..|out| + 1] == out + [s.pushed[r][|out|]];
    } else {
      assert out == s.pushed[r];
    }
    assert forall k :: r <= k < |s.pushed| ==> SlotOf(s.slots, k) == s.pushed[k];
  }

  lemma ConsumeAdvance(s: State, width: nat)
    requires Invariant(s, width) && s.consumer.StoreTail?
    ensures Invariant(Consumed(s, width), width)
  {
    NextSlot(|s.popped|, |s.slots|);
    assert forall k :: |s.popped| <= k < |s.pushed| ==> SlotOf(s.slots, k) == s.pushed[k];
  }

  lemma ConsumeReturn(s: State, width: nat)
    requires Invariant(s, width) && s.consumer.SubCount?
    ensures Invariant(Consumed(s, width), width)
  {
    assert (s.count - 1) % U16 == s.count - 1;
    assert forall k :: |s.popped| + 1 <= k < |s.pushed| ==> SlotOf(s.slots, k) == s.pushed[k];
  }

  lemma ConsumeOther(s: State, width: nat)
    requires Invariant(s, width) && !s.consumer.ReadSlot? && !s.consumer.StoreTail? && !s.consumer.SubCount?
    ensures Invariant(Consumed(s, width), width)
  {
    assert forall k :: |s.popped| + Unreturned(s.consumer) <= k < |s.pushed| ==> SlotOf(s.slots, k) == s.pushed[k];
  }

  lemma StepKeepsInvariant(s: State, m: Move, width: nat)
    requires Invariant(s, width)
    requires m.BeginForce? && s.producer.Ready? ==> s.count < |s.slots|
    ensures Invariant(Next(s, m, width), width)
  {
    match m
    case Produce =>
      if s.producer.WriteSlot? {
        ProduceWrite(s, width);
      } else if s.producer.StoreHead? {
        ProducePublish(s, width);
      } else if s.producer.AddCount? {
        ProduceCount(s, width);
      } else {
        ProduceLoad(s, width);
      }
    case Consume =>
      if s.consumer.ReadSlot? {
        ConsumeRead(s, width);
      } else if s.consumer.StoreTail? {
        ConsumeAdvance(s, width);
      } else if s.consumer.SubCount? {
        ConsumeReturn(s, width);
      } else {
        ConsumeOther(s, width);
      }
    case _ =>
      assert forall k :: |s.popped| + Unreturned(s.consumer) <= k < |s.pushed| ==> SlotOf(s.slots, k) == s.pushed[k];
  }

  lemma {:induction false} RunKeepsInvariant(s: State, ms: seq<Move>, width: nat)
    requires Invariant(s, width) && Guarded(s, ms, width)
    ensures Invariant(Run(s, ms, width), width)
    decreases |ms|
  {
    if ms != [] {
      StepKeepsInvariant(s, ms[0], width);
      RunKeepsInvariant(Next(s, ms[0], width), ms[1..], width);
    }
  }

  // ----- what follows -----

  /** The producer is writing the slot that the consumer is reading. */
  predicate Conflict(s: State) {
    s.producer.WriteSlot? && s.consumer.ReadSlot? && s.producer.h == s.consumer.t
  }

  lemma NoConflict(s: State, width: nat)
    requires Invariant(s, width)
    ensures !Conflict(s)
  {
    if s.producer.WriteSlot? && s.consumer.ReadSlot? {
      SlotsDiffer(|s.popped|, |s.pushed|, |s.slots|);
    }
  }

  /** Under every schedule the popped values are a prefix of the pushed values, whole and in order, and no slot is
      read while it is written. */
  lemma EveryScheduleIsSafe(slots: seq<seq<Word>>, ms: seq<Move>, width: nat)
    requires 0 < |slots| < U16 && forall i :: 0 <= i < |slots| ==> |slots[i]| == width
    requires Guarded(Init(slots), ms, width)
    ensures var s := Run(Init(slots), ms, width);
      s.popped <= s.pushed && !Conflict(s) && |s.pushed| <= |s.popped| + |slots|
  {
    InitInvariant(slots, width);
    RunKeepsInvariant(Init(slots), ms, width);
    NoConflict(Run(Init(slots), ms, width), width);
    RunKeepsSize(Init(slots), ms, width);
  }

  lemma {:induction false} RunKeepsSize(s: State, ms: seq<Move>, width: nat)
    requires Shape(s, width)
    ensures |Run(s, ms, width).slots| == |s.slots|
    decreases |ms|
  {
    if ms != [] {
      NextKeepsShape(s, ms[0], width);
      RunKeepsSize(Next(s, ms[0], width), ms[1..], width);
    }
  }

  /** Between calls the ring, read as a sequence, holds exactly the values pushed and not yet popped. */
  lemma QuiescentContents(s: State, width: nat)
    requires Invariant(s, width) && s.producer.Ready? && s.consumer.Waiting?
    ensures s.count <= |s.slots| && View(s.slots, s.tail, s.count) == s.pushed[|s.popped|..]
  {
    var n, r := |s.slots|, |s.popped|;
    forall i | 0 <= i < s.count ensures View(s.slots, s.tail, s.count)[i] == s.pushed[r..][i] {
      FoldedSlot(r, i, n);
      assert SlotOf(s.slots, r + i) == s.pushed[r + i];
    }
  }

  lemma FoldedSlot(r: nat, i: nat, n: nat)
    requires i < n
    ensures Fold(r % n + i, n) == (r + i) % n
  {
    var q, t := r / n, r % n;
    assert r == q * n + t;
    if t + i < n {
      DivModUnique(r + i, n, q, t + i);
    } else {
      DivModUnique(r + i, n, q + 1, t + i - n);
    }
  }

  /** A POP that finds the ring empty is right: every completed push has been popped. */
  lemma EmptyAnswerIsRight(s: State, width: nat)
    requires Invariant(s, width) && s.consumer.TestCount?
    ensures Consumed(s, width).consumer.Waiting? <==> |s.popped| == |s.pushed| - Uncounted(s.producer)
  {
  }

  /** A PUSH that finds the ring full is right: a full ring of values is pushed and not returned yet. */
  lemma FullAnswerIsRight(s: State, width: nat)
    requires Invariant(s, width) && s.producer.LoadCount?
    ensures Produced(s, width).producer.Ready? <==> |s.pushed| == |s.popped| + |s.slots|
  {
  }
}
