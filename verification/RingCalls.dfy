/** The atomic steps of a ring call, made without interruption, are the operation of the sequential model. */
module RingCalls {
  import opened Bytes
  import opened RingView
  import opened SpscRing
  import opened ForcedPush
  import RB = RingBuffer

  /** k steps of one thread. */
  function Steps(m: Move, k: nat): (ms: seq<Move>)
    ensures |ms| == k
  {
    seq(k, _ => m)
  }

  /** Both threads are between calls, and the counters fit together. */
  predicate Quiet(s: State, width: nat) {
    && Shape(s, width) && s.producer.Ready? && s.consumer.Waiting?
    && s.count <= |s.slots| && s.head == Fold(s.tail + s.count, |s.slots|)
  }

  /** The queued values, oldest first. */
  function Queue(s: State): seq<seq<Word>>
    requires s.tail < |s.slots| && s.count <= |s.slots|
  {
    View(s.slots, s.tail, s.count)
  }

  lemma {:induction false} RunNext(s: State, m: Move, ms: seq<Move>, width: nat)
    requires Shape(s, width)
    ensures Shape(Next(s, m, width), width) && Run(s, [m] + ms, width) == Run(Next(s, m, width), ms, width)
  {
    NextKeepsShape(s, m, width);
    assert ([m] + ms)[0] == m && ([m] + ms)[1..] == ms;
  }

  /** One step of the thread, then k - 1 more. */
  lemma {:induction false} RunStep(s: State, m: Move, k: nat, width: nat)
    requires Shape(s, width) && k > 0
    ensures Shape(Next(s, m, width), width)
    ensures Run(s, Steps(m, k), width) == Run(Next(s, m, width), Steps(m, k - 1), width)
  {
    assert Steps(m, k) == [m] + Steps(m, k - 1);
    RunNext(s, m, Steps(m, k - 1), width);
  }

  lemma {:induction false} RunNothing(s: State, m: Move, width: nat)
    requires Shape(s, width)
    ensures Run(s, Steps(m, 0), width) == s
  {
  }

  /** A thread that is between calls has no step to make. */
  lemma {:induction false} Idle(s: State, m: Move, k: nat, width: nat)
    requires Shape(s, width) && Next(s, m, width) == s
    ensures Run(s, Steps(m, k), width) == s
  {
    if k > 0 {
      RunStep(s, m, k, width);
      Idle(s, m, k - 1, width);
    }
  }

  /** The producer writes its whole value. */
  lemma {:induction false} WriteRuns(s: State, j: nat, k: nat, width: nat)
    requires Shape(s, width) && s.producer.WriteSlot? && s.producer.k + j == width && j <= k
    ensures Shape(Wrote(s, j, width), width)
    ensures Run(s, Steps(Produce, k), width) == Run(Wrote(s, j, width), Steps(Produce, k - j), width)
    decreases j
  {
    WroteStep(s, j, width);
    if j > 0 {
      RunStep(s, Produce, k, width);
      WriteRuns(Next(s, Produce, width), j - 1, k - 1, width);
    }
  }

  lemma {:induction false} SlotWritten(s: State, v: seq<Word>, h: nat, force: bool, k: nat, width: nat)
    requires Shape(s, width) && s.producer == WriteSlot(v, force, h, 0) && width <= k
    ensures var t := s.(slots := s.slots[h := v], producer := WriteSlot(v, force, h, width));
      Shape(t, width) && Run(s, Steps(Produce, k), width) == Run(t, Steps(Produce, k - width), width)
  {
    WriteRuns(s, width, k, width);
    assert Overwritten(s.slots[h], v, 0, width) == v;
  }

  /** The consumer reads its whole slot. */
  lemma {:induction false} ReadRuns(s: State, j: nat, k: nat, width: nat)
    requires Shape(s, width) && s.consumer.ReadSlot? && |s.consumer.out| + j == width && j <= k
    ensures var ReadSlot(i, out) := s.consumer;
      var t := s.(consumer := ReadSlot(i, out + s.slots[i][|out|..]));
      Shape(t, width) && Run(s, Steps(Consume, k), width) == Run(t, Steps(Consume, k - j), width)
    decreases j
  {
    var ReadSlot(i, out) := s.consumer;
    if j == 0 {
      assert out + s.slots[i][|out|..] == out;
    } else {
      RunStep(s, Consume, k, width);
      ReadRuns(Next(s, Consume, width), j - 1, k - 1, width);
      assert out + [s.slots[i][|out|]] + s.slots[i][|out| + 1..] == out + s.slots[i][|out|..];
    }
  }

  // ----- whole calls -----

  datatype Call = Push(v: seq<Word>) | Force(v: seq<Word>) | Pop

  predicate FitsWidth(c: Call, width: nat) {
    !c.Pop? ==> |c.v| == width
  }

  /** The steps of one call; steps that are left over when it has returned do nothing. */
  function Moves(c: Call, width: nat): seq<Move> {
    match c
    case Push(v) => [BeginPush(v)] + Steps(Produce, width + 5)
    case Force(v) => [BeginForce(v)] + Steps(Produce, width + 6)
    case Pop => [BeginPop] + Steps(Consume, width + 5)
  }

  function Operation(c: Call): RB.Op<seq<Word>> {
    match c
    case Push(v) => RB.Push(v)
    case Force(v) => RB.PushForce(v)
    case Pop => RB.Pop
  }

  /** What the state is after a value has been written and the head moved past it. */
  function Stored(s: State, v: seq<Word>, p: Producer): State
    requires s.head < |s.slots|
  {
    s.(slots := s.slots[s.head := v], head := (s.head + 1) % |s.slots|, pushed := s.pushed + [v], producer := p)
  }

  /** From the load of the head to the store of the head. */
  lemma {:induction false} StoreRuns(s: State, v: seq<Word>, force: bool, k: nat, width: nat)
    requires Shape(s, width) && s.producer == LoadHead(v, force) && width + 3 <= k
    ensures var t := Stored(s, v, if force then ReloadCount else AddCount);
      Shape(t, width) && Run(s, Steps(Produce, k), width) == Run(t, Steps(Produce, k - width - 3), width)
  {
    hide Run, Steps;
    var h := s.head;
    var t := s.(producer := WriteSlot(v, force, h, 0));
    assert Next(s, Produce, width) == t;
    RunStep(s, Produce, k, width);
    SlotWritten(t, v, h, force, k - 1, width);
    t := s.(slots := s.slots[h := v], producer := WriteSlot(v, force, h, width));
    RunStep(t, Produce, k - 1 - width, width);
    t := s.(slots := s.slots[h := v], producer := StoreHead(v, force, h));
    RunStep(t, Produce, k - 2 - width, width);
    assert Next(t, Produce, width) == Stored(s, v, if force then ReloadCount else AddCount);
  }

  lemma {:induction false} LastStep(t: State, m: Move, u: State, width: nat)
    requires Shape(t, width) && Next(t, m, width) == u
    ensures Run(t, Steps(m, 1), width) == u
  {
    RunStep(t, m, 1, width);
    RunNothing(u, m, width);
  }

  lemma {:induction false} PushStarts(s: State, v: seq<Word>, t: State, width: nat)
    requires Quiet(s, width) && |v| == width && s.count < |s.slots| && t == s.(producer := LoadHead(v, false))
    ensures Shape(t, width) && Run(s, Moves(Push(v), width), width) == Run(t, Steps(Produce, width + 4), width)
  {
    RunNext(s, BeginPush(v), Steps(Produce, width + 5), width);
    RunStep(Next(s, BeginPush(v), width), Produce, width + 5, width);
  }

  /** PUSH with room. */
  lemma {:induction false} PushRuns(s: State, v: seq<Word>, width: nat)
    requires Quiet(s, width) && |v| == width && s.count < |s.slots|
    ensures Run(s, Moves(Push(v), width), width) == Stored(s, v, Ready).(count := s.count + 1)
  {
    hide Run, Moves, Steps;
    var t := s.(producer := LoadHead(v, false));
    PushStarts(s, v, t, width);
    StoreRuns(t, v, false, width + 4, width);
    LastStep(Stored(t, v, AddCount), Produce, Stored(s, v, Ready).(count := s.count + 1), width);
  }

  lemma PushRefused(s: State, v: seq<Word>, width: nat)
    requires Quiet(s, width) && |v| == width && s.count == |s.slots|
    ensures Run(s, Moves(Push(v), width), width) == s
  {
    RunNext(s, BeginPush(v), Steps(Produce, width + 5), width);
    var t := Next(s, BeginPush(v), width);
    RunStep(t, Produce, width + 5, width);
    assert Next(t, Produce, width) == s;
    Idle(s, Produce, width + 4, width);
  }

  /** PUSH_FORCE up to the second load of the count. */
  lemma {:induction false} ForceStores(s: State, v: seq<Word>, width: nat)
    requires Quiet(s, width) && |v| == width
    ensures Shape(Stored(s, v, ReloadCount), width)
    ensures Run(s, Moves(Force(v), width), width) == Run(Stored(s, v, ReloadCount), Steps(Produce, 3), width)
  {
    hide Run, Steps;
    var t := s.(producer := LoadHead(v, true));
    assert Next(s, BeginForce(v), width) == t;
    RunNext(s, BeginForce(v), Steps(Produce, width + 6), width);
    StoreRuns(t, v, true, width + 6, width);
    assert Stored(t, v, ReloadCount) == Stored(s, v, ReloadCount);
  }

  lemma {:induction false} RoomEnds(t: State, u: State, width: nat)
    requires Shape(t, width) && t.producer.ReloadCount? && t.count < |t.slots|
    requires u == t.(count := t.count + 1, producer := Ready)
    ensures Run(t, Steps(Produce, 3), width) == u
  {
    hide Run, Steps;
    RunStep(t, Produce, 3, width);
    var t1 := t.(producer := AddCount);
    assert Next(t, Produce, width) == t1;
    RunStep(t1, Produce, 2, width);
    assert Next(t1, Produce, width) == u;
    LastStep(u, Produce, u, width);
  }

  lemma {:induction false} ForceWithRoom(s: State, v: seq<Word>, width: nat)
    requires Quiet(s, width) && |v| == width && s.count < |s.slots|
    ensures Run(s, Moves(Force(v), width), width) == Stored(s, v, Ready).(count := s.count + 1)
  {
    hide Run, Steps, Moves;
    ForceStores(s, v, width);
    StoredLoads(s, v);
    RoomEnds(Stored(s, v, ReloadCount), Stored(s, v, Ready).(count := s.count + 1), width);
  }

  lemma {:induction false} DropEnds(t: State, u: State, width: nat)
    requires Shape(t, width) && t.producer.ReloadCount? && t.count >= |t.slots|
    requires u == t.(tail := (t.tail + 1) % |t.slots|, producer := Ready)
    ensures Run(t, Steps(Produce, 3), width) == u
  {
    hide Run, Steps;
    RunStep(t, Produce, 3, width);
    var t1 := t.(producer := DropLoad);
    assert Next(t, Produce, width) == t1;
    RunStep(t1, Produce, 2, width);
    var t2 := t.(producer := DropStore(t.tail));
    assert Next(t1, Produce, width) == t2;
    LastStep(t2, Produce, u, width);
  }

  /** The full ring: the tail moves on, the count stays. */
  lemma {:induction false} ForceDrops(s: State, v: seq<Word>, width: nat)
    requires Quiet(s, width) && |v| == width && s.count == |s.slots|
    ensures Run(s, Moves(Force(v), width), width) == Stored(s, v, Ready).(tail := (s.tail + 1) % |s.slots|)
  {
    hide Run, Steps, Moves;
    ForceStores(s, v, width);
    StoredLoads(s, v);
    DropEnds(Stored(s, v, ReloadCount), Stored(s, v, Ready).(tail := (s.tail + 1) % |s.slots|), width);
  }

  lemma StoredLoads(s: State, v: seq<Word>)
    requires s.head < |s.slots|
    ensures var t := Stored(s, v, ReloadCount);
      t.producer == ReloadCount && t.count == s.count && t.tail == s.tail && |t.slots| == |s.slots|
  {
  }

  lemma {:induction false} PopStarts(s: State, t: State, width: nat)
    requires Quiet(s, width) && s.count > 0 && t == s.(consumer := ReadSlot(s.tail, []))
    ensures Shape(t, width) && Run(s, Moves(Pop, width), width) == Run(t, Steps(Consume, width + 3), width)
  {
    RunNext(s, BeginPop, Steps(Consume, width + 5), width);
    var u := Next(s, BeginPop, width);
    RunStep(u, Consume, width + 5, width);
    RunStep(Next(u, Consume, width), Consume, width + 4, width);
  }

  lemma {:induction false} PopEnds(s: State, out: seq<Word>, t: State, width: nat)
    requires Shape(s, width) && s.consumer == ReadSlot(s.tail, out) && |out| == width && s.count > 0
    requires s.count <= |s.slots|
    requires t == s.(tail := (s.tail + 1) % |s.slots|, count := s.count - 1, popped := s.popped + [out],
                     consumer := Waiting)
    ensures Run(s, Steps(Consume, 3), width) == t
  {
    RunStep(s, Consume, 3, width);
    var u := Next(s, Consume, width);
    RunStep(u, Consume, 2, width);
    LastStep(Next(u, Consume, width), Consume, t, width);
  }

  /** POP on a ring that is not empty. */
  lemma {:induction false} PopRuns(s: State, width: nat)
    requires Quiet(s, width) && s.count > 0
    ensures Run(s, Moves(Pop, width), width)
         == s.(tail := (s.tail + 1) % |s.slots|, count := s.count - 1, popped := s.popped + [s.slots[s.tail]])
  {
    hide Run, Moves, Steps;
    var i := s.tail;
    var t := s.(consumer := ReadSlot(i, []));
    PopStarts(s, t, width);
    ReadRuns(t, width, width + 3, width);
    assert [] + s.slots[i][0..] == s.slots[i];
    PopEnds(s.(consumer := ReadSlot(i, s.slots[i])), s.slots[i],
            s.(tail := (i + 1) % |s.slots|, count := s.count - 1, popped := s.popped + [s.slots[i]]), width);
  }

  lemma PopRefused(s: State, width: nat)
    requires Quiet(s, width) && s.count == 0
    ensures Run(s, Moves(Pop, width), width) == s
  {
    RunNext(s, BeginPop, Steps(Consume, width + 5), width);
    var t := Next(s, BeginPop, width);
    RunStep(t, Consume, width + 5, width);
    assert Next(t, Consume, width) == s;
    Idle(s, Consume, width + 4, width);
  }

  // ----- the sequential model -----

  lemma FoldOn(tail: nat, count: nat, n: nat)
    requires tail < n && count <= n
    ensures count < n ==> Fold(Fold(tail + count, n) + 1, n) == Fold(tail + (count + 1), n)
    ensures count > 0 ==> Fold(Fold(tail + 1, n) + (count - 1), n) == Fold(tail + count, n)
    ensures Fold(tail + n, n) == tail
  {
  }

  lemma StoredQueue(s: State, v: seq<Word>, t: State, width: nat)
    requires Quiet(s, width) && |v| == width && s.count < |s.slots|
    requires t == Stored(s, v, Ready).(count := s.count + 1)
    ensures Quiet(t, width) && Queue(t) == Queue(s) + [v]
  {
    Wrap(s.head + 1, |s.slots|);
    FoldOn(s.tail, s.count, |s.slots|);
    ViewPush(s.slots, s.tail, s.count, v);
  }

  lemma OverwrittenQueue(s: State, v: seq<Word>, t: State, width: nat)
    requires Quiet(s, width) && |v| == width && s.count == |s.slots|
    requires t == Stored(s, v, Ready).(tail := (s.tail + 1) % |s.slots|)
    ensures Quiet(t, width) && Queue(t) == Queue(s)[1..] + [v]
  {
    Wrap(s.head + 1, |s.slots|);
    Wrap(s.tail + 1, |s.slots|);
    FoldOn(s.tail, s.count, |s.slots|);
    FoldOn(Fold(s.tail + 1, |s.slots|), s.count, |s.slots|);
    ViewOverwrite(s.slots, s.tail, v);
  }

  lemma PoppedQueue(s: State, t: State, width: nat)
    requires Quiet(s, width) && s.count > 0
    requires t == s.(tail := (s.tail + 1) % |s.slots|, count := s.count - 1, popped := s.popped + [s.slots[s.tail]])
    ensures Quiet(t, width) && Queue(t) == Queue(s)[1..] && t.popped == s.popped + [Queue(s)[0]]
  {
    Wrap(s.tail + 1, |s.slots|);
    FoldOn(s.tail, s.count, |s.slots|);
    ViewPop(s.slots, s.tail, s.count);
  }

  /** One call by itself: a push appends if there is room, a forced push drops the oldest value if there is none, a pop
      returns and removes the oldest value if there is one. */
  lemma CallEffect(s: State, c: Call, width: nat)
    requires Quiet(s, width) && FitsWidth(c, width)
    ensures var t, q := Run(s, Moves(c, width), width), Queue(s);
      && Quiet(t, width) && |t.slots| == |s.slots|
      && (c.Push? ==> Queue(t) == if |q| < |s.slots| then q + [c.v] else q)
      && (c.Force? ==> Queue(t) == if |q| < |s.slots| then q + [c.v] else q[1..] + [c.v])
      && (c.Pop? ==> Queue(t) == if q == [] then [] else q[1..])
      && t.popped == if c.Pop? && q != [] then s.popped + [q[0]] else s.popped
  {
    hide Quiet, Stored, Moves;
    QuietCount(s, width);
    var n, t := |s.slots|, Run(s, Moves(c, width), width);
    if c.Push? && s.count < n {
      PushRuns(s, c.v, width);
      StoredQueue(s, c.v, t, width);
      StoredFrame(s, c.v);
    } else if c.Push? {
      PushRefused(s, c.v, width);
    } else if c.Force? && s.count < n {
      ForceWithRoom(s, c.v, width);
      StoredQueue(s, c.v, t, width);
      StoredFrame(s, c.v);
    } else if c.Force? {
      ForceDrops(s, c.v, width);
      OverwrittenQueue(s, c.v, t, width);
      StoredFrame(s, c.v);
    } else if s.count > 0 {
      PopRuns(s, width);
      PoppedQueue(s, t, width);
    } else {
      PopRefused(s, width);
    }
  }

  lemma QuietCount(s: State, width: nat)
    requires Quiet(s, width)
    ensures Shape(s, width) && 0 < |s.slots| && s.count <= |s.slots| && |Queue(s)| == s.count
  {
  }

  lemma StoredFrame(s: State, v: seq<Word>)
    requires s.head < |s.slots|
    ensures |Stored(s, v, Ready).slots| == |s.slots| && Stored(s, v, Ready).popped == s.popped
  {
  }

  function AllMoves(cs: seq<Call>, width: nat): seq<Move> {
    if cs == [] then [] else Moves(cs[0], width) + AllMoves(cs[1..], width)
  }

  function Operations(cs: seq<Call>): (ops: seq<RB.Op<seq<Word>>>)
    ensures |ops| == |cs|
  {
    seq(|cs|, i requires 0 <= i < |cs| => Operation(cs[i]))
  }

  lemma {:induction false} RunBoth(s: State, xs: seq<Move>, ys: seq<Move>, width: nat)
    requires Shape(s, width)
    ensures Run(s, xs + ys, width) == Run(Run(s, xs, width), ys, width)
    decreases |xs|
  {
    if xs == [] {
      assert xs + ys == ys;
    } else {
      NextKeepsShape(s, xs[0], width);
      RunBoth(Next(s, xs[0], width), xs[1..], ys, width);
      DropAppend(xs, ys, 1);
    }
  }

  lemma CallIsOperation(s: State, c: Call, width: nat)
    requires Quiet(s, width) && FitsWidth(c, width)
    ensures var t := Run(s, Moves(c, width), width);
      Quiet(t, width) && |t.slots| == |s.slots| && Queue(t) == RB.Apply(Queue(s), Operation(c), |s.slots|)
  {
    hide Moves;
    CallEffect(s, c, width);
    QuietCount(s, width);
    if c.Force? {
      LastNPush(Queue(s), c.v, |s.slots|);
    }
  }

  /** Calls that do not overlap: the machine of atomic steps goes through the runs of the sequential ring. */
  lemma {:induction false} CallsRefineRing(s: State, cs: seq<Call>, width: nat)
    requires Quiet(s, width) && forall i :: 0 <= i < |cs| ==> FitsWidth(cs[i], width)
    ensures var t := Run(s, AllMoves(cs, width), width);
      Quiet(t, width) && |t.slots| == |s.slots|
      && Queue(t) == RB.RunOps(Queue(s), Operations(cs), |s.slots|)
    decreases |cs|
  {
    hide Quiet, Queue, Moves, FitsWidth, RB.Apply;
    if cs != [] {
      QuietCount(s, width);
      var first := Run(s, Moves(cs[0], width), width);
      CallIsOperation(s, cs[0], width);
      RunBoth(s, Moves(cs[0], width), AllMoves(cs[1..], width), width);
      CallsRefineRing(first, cs[1..], width);
      assert Operations(cs)[1..] == Operations(cs[1..]);
    }
  }
}
