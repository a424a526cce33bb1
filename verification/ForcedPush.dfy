/** FS_RINGBUFFER_PUSH_FORCE beside a consumer: when a forced push is safe, and what a POP returns when it is not. */
module ForcedPush {
  import opened SpscRing

  // ----- reachable states -----

  lemma {:induction false} RunAppend(s: State, xs: seq<Move>, ys: seq<Move>, width: nat)
    requires Shape(s, width) && Guarded(s, xs, width) && Guarded(Run(s, xs, width), ys, width)
    ensures Run(s, xs + ys, width) == Run(Run(s, xs, width), ys, width) && Guarded(s, xs + ys, width)
    decreases |xs|
  {
    if xs == [] {
      assert xs + ys == ys;
    } else {
      NextKeepsShape(s, xs[0], width);
      RunAppend(Next(s, xs[0], width), xs[1..], ys, width);
      assert (xs + ys)[1..] == xs[1..] + ys;
    }
  }

  /** Some schedule leads from s to t and begins no further PUSH_FORCE on a full ring. */
  ghost predicate Reaches(s: State, t: State, width: nat)
    requires Shape(s, width)
  {
    exists ms :: Guarded(s, ms, width) && Run(s, ms, width) == t
  }

  /** The move may be made: it is not a PUSH_FORCE on a full ring. */
  predicate Allowed(s: State, m: Move) {
    m.BeginForce? && s.producer.Ready? ==> s.count < |s.slots|
  }

  lemma ReachesSelf(s: State, width: nat)
    requires Shape(s, width)
    ensures Reaches(s, s, width)
  {
    assert Guarded(s, [], width) && Run(s, [], width) == s;
  }

  lemma Extend(s: State, t: State, m: Move, width: nat)
    requires Shape(s, width) && Reaches(s, t, width) && Shape(t, width) && Allowed(t, m)
    ensures Shape(Next(t, m, width), width) && Reaches(s, Next(t, m, width), width)
  {
    NextKeepsShape(t, m, width);
    var ms :| Guarded(s, ms, width) && Run(s, ms, width) == t;
    var t' := Next(t, m, width);
    assert [m][1..] == [] && Guarded(t', [], width) && Run(t', [], width) == t';
    assert Guarded(t, [m], width) && Run(t, [m], width) == t';
    RunAppend(s, ms, [m], width);
  }

  /** A slot is written, with bytes of it still to be written, while it is read, with bytes of it still to be read. */
  predicate Race(s: State, width: nat) {
    Conflict(s) && s.producer.k < width && |s.consumer.out| < width
  }

  /** No schedule that goes on from here reads a slot while it is written. */
  ghost predicate Safe(s: State, width: nat)
    requires Shape(s, width)
  {
    forall t :: Reaches(s, t, width) ==> !Race(t, width)
  }

  // ----- copying, many steps at a time -----

  /** The bytes of a slot after j more bytes of v, from the k-th on, are written. */
  function Overwritten(slot: seq<Word>, v: seq<Word>, k: nat, j: nat): seq<Word>
    requires k + j <= |v| == |slot|
  {
    slot[..k] + v[k..k + j] + slot[k + j..]
  }

  lemma {:induction false} OverwrittenStep(slot: seq<Word>, v: seq<Word>, k: nat, j: nat)
    requires k + j <= |v| == |slot|
    ensures j == 0 ==> Overwritten(slot, v, k, j) == slot
    ensures j > 0 ==> Overwritten(slot[k := v[k]], v, k + 1, j - 1) == Overwritten(slot, v, k, j)
  {
  }

  /** The state in which the producer has written j more bytes. */
  function Wrote(t: State, j: nat, width: nat): State
    requires Shape(t, width) && t.producer.WriteSlot? && t.producer.k + j <= width
  {
    var WriteSlot(v, force, h, k) := t.producer;
    t.(slots := t.slots[h := Overwritten(t.slots[h], v, k, j)], producer := WriteSlot(v, force, h, k + j))
  }

  lemma {:induction false} WroteStep(t: State, j: nat, width: nat)
    requires Shape(t, width) && t.producer.WriteSlot? && t.producer.k + j <= width
    ensures Shape(Wrote(t, j, width), width)
    ensures j == 0 ==> Wrote(t, j, width) == t
    ensures j > 0 ==>
      Shape(Next(t, Produce, width), width) && Wrote(Next(t, Produce, width), j - 1, width) == Wrote(t, j, width)
  {
    var WriteSlot(v, force, h, k) := t.producer;
    OverwrittenStep(t.slots[h], v, k, j);
    NextKeepsShape(t, Produce, width);
    assert t.slots[h := t.slots[h]] == t.slots;
    if j > 0 {
      var x, y := t.slots[h][k := v[k]], Overwritten(t.slots[h], v, k, j);
      assert t.slots[h := x][h := y] == t.slots[h := y];
    }
  }

  lemma {:induction false} Writes(s: State, t: State, j: nat, width: nat)
    requires Shape(s, width) && Shape(t, width) && Reaches(s, t, width)
    requires t.producer.WriteSlot? && t.producer.k + j <= width
    ensures Shape(Wrote(t, j, width), width) && Reaches(s, Wrote(t, j, width), width)
    decreases j
  {
    WroteStep(t, j, width);
    if j > 0 {
      Extend(s, t, Produce, width);
      Writes(s, Next(t, Produce, width), j - 1, width);
    }
  }

  /** The producer writes its whole value. */
  lemma {:induction false} WritesAll(s: State, t: State, v: seq<Word>, h: nat, force: bool, width: nat)
    requires Shape(s, width) && Shape(t, width) && Reaches(s, t, width)
    requires t.producer == WriteSlot(v, force, h, 0)
    ensures var t' := t.(slots := t.slots[h := v], producer := WriteSlot(v, force, h, width));
      Shape(t', width) && Reaches(s, t', width)
  {
    Writes(s, t, width, width);
    assert Overwritten(t.slots[h], v, 0, width) == v;
  }

  /** The consumer reads j more bytes. */
  lemma {:induction false} Reads(s: State, t: State, j: nat, width: nat)
    requires Shape(s, width) && Shape(t, width) && Reaches(s, t, width)
    requires t.consumer.ReadSlot? && |t.consumer.out| + j <= width
    ensures var ReadSlot(i, out) := t.consumer;
      var t' := t.(consumer := ReadSlot(i, out + t.slots[i][|out|..|out| + j]));
      Shape(t', width) && Reaches(s, t', width)
    decreases j
  {
    var ReadSlot(i, out) := t.consumer;
    if j == 0 {
      assert out + t.slots[i][|out|..|out|] == out;
    } else {
      Extend(s, t, Consume, width);
      Reads(s, Next(t, Consume, width), j - 1, width);
      assert out + [t.slots[i][|out|]] + t.slots[i][|out| + 1..|out| + j] == out + t.slots[i][|out|..|out| + j];
    }
  }

  // ----- a forced push into a full ring -----

  lemma OneRoundOn(r: nat, n: nat)
    requires 0 < n
    ensures (r + n) % n == r % n && ((r + n) % n + 1) % n == (r + 1) % n
  {
    assert r == r / n * n + r % n;
    DivModUnique(r + n, n, r / n + 1, r % n);
    NextSlot(r, n);
  }

  /** In a full ring the next slot to write is the oldest one, counted from the tail store that is still to come. */
  lemma FullRingMeets(s: State)
    requires |s.slots| > 0 && Counters(s) && s.producer.Ready? && s.count == |s.slots|
    ensures |s.pushed| == |s.popped| + |s.slots|
    ensures !s.consumer.SubCount? ==> s.head == s.tail
    ensures s.consumer.SubCount? ==> (s.head + 1) % |s.slots| == s.tail
  {
    OneRoundOn(|s.popped|, |s.slots|);
  }

  /** The consumer has not finished copying, or has not begun. */
  predicate StillToCopy(c: Consumer, width: nat) {
    !c.StoreTail? && !c.SubCount? && (c.ReadSlot? ==> |c.out| < width)
  }

  /** The consumer gets to the copy while the producer is about to write. */
  lemma ReachCopy(s: State, t: State, width: nat) returns (t': State)
    requires Shape(s, width) && Shape(t, width) && Reaches(s, t, width)
    requires t.count > 0 && StillToCopy(t.consumer, width)
    requires t.consumer.ReadSlot? ==> t.consumer.t == t.tail
    ensures Shape(t', width) && Reaches(s, t', width)
    ensures t'.consumer.ReadSlot? && t'.consumer.t == t.tail && (width > 0 ==> |t'.consumer.out| < width)
    ensures t' == t.(consumer := t'.consumer)
    ensures t.consumer.Waiting? ==> t'.consumer.out == []
  {
    t' := t;
    if t'.consumer.Waiting? {
      Extend(s, t', BeginPop, width);
      t' := Next(t', BeginPop, width);
    }
    if t'.consumer.TestCount? {
      Extend(s, t', Consume, width);
      t' := Next(t', Consume, width);
    }
    if t'.consumer.LoadTail? {
      Extend(s, t', Consume, width);
      t' := Next(t', Consume, width);
    }
  }

  /** While the slot is still to be copied, writing to it and reading it meet. */
  lemma MeetWhileCopying(s: State, v: seq<Word>, width: nat)
    requires Invariant(s, width) && s.producer.Ready? && s.count == |s.slots| && |v| == width
    requires width > 0 && StillToCopy(s.consumer, width)
    ensures Shape(Next(s, BeginForce(v), width), width) && !Safe(Next(s, BeginForce(v), width), width)
  {
    FullRingMeets(s);
    var s1 := Next(s, BeginForce(v), width);
    ReachesSelf(s1, width);
    var t := ReachCopy(s1, s1, width);
    Extend(s1, t, Produce, width);
    assert Race(Next(t, Produce, width), width);
  }

  /** The producer writes the slot, moves the head, finds no room and is about to drop the oldest value. */
  lemma ReachDrop(s: State, t0: State, v: seq<Word>, width: nat) returns (t: State)
    requires Shape(s, width) && Shape(t0, width) && Reaches(s, t0, width)
    requires t0.producer == LoadHead(v, true) && t0.count >= |t0.slots|
    ensures Shape(t, width) && Reaches(s, t, width)
    ensures t.producer == DropStore(t0.tail) && t.head == (t0.head + 1) % |t0.slots|
    ensures t.tail == t0.tail && t.count == t0.count && t.consumer == t0.consumer && |t.slots| == |t0.slots|
  {
    var h := t0.head;
    Extend(s, t0, Produce, width);
    t := Next(t0, Produce, width);
    WritesAll(s, t, v, h, true, width);
    t := t.(slots := t.slots[h := v], producer := WriteSlot(v, true, h, width));
    Extend(s, t, Produce, width);
    t := Next(t, Produce, width);
    Extend(s, t, Produce, width);
    t := Next(t, Produce, width);
    Extend(s, t, Produce, width);
    t := Next(t, Produce, width);
    Extend(s, t, Produce, width);
    t := Next(t, Produce, width);
  }

  /** The consumer finishes its call, begins the next one and gets to the copy. */
  lemma ReachNextCopy(s: State, t: State, width: nat) returns (t': State)
    requires Shape(s, width) && Shape(t, width) && Reaches(s, t, width)
    requires t.consumer.SubCount? && 1 < t.count < U16 && width > 0
    ensures Shape(t', width) && Reaches(s, t', width)
    ensures t'.consumer.ReadSlot? && t'.consumer.t == t.tail && |t'.consumer.out| < width
    ensures t'.count == t.count - 1
    ensures t'.head == t.head && t'.producer == t.producer && |t'.slots| == |t.slots|
  {
    Extend(s, t, Consume, width);
    t' := ReachCopy(s, Next(t, Consume, width), width);
  }

  /** The producer drops the oldest value, begins the next forced push and gets to the copy. */
  lemma ReachNextWrite(s: State, t: State, v: seq<Word>, width: nat) returns (t': State)
    requires Shape(s, width) && Shape(t, width) && Reaches(s, t, width)
    requires t.producer.DropStore? && t.count < |t.slots| && |v| == width
    ensures Shape(t', width) && Reaches(s, t', width)
    ensures t'.producer == WriteSlot(v, true, t.head, 0) && t'.consumer == t.consumer
  {
    Extend(s, t, Produce, width);
    t' := Next(t, Produce, width);
    Extend(s, t', BeginForce(v), width);
    t' := Next(t', BeginForce(v), width);
    Extend(s, t', Produce, width);
    t' := Next(t', Produce, width);
  }

  /** When the slot is already copied, the push drops the value behind it, and the next push meets the next POP. */
  lemma MeetAfterCopying(s: State, v: seq<Word>, width: nat)
    requires Invariant(s, width) && s.producer.Ready? && s.count == |s.slots| && |v| == width
    requires width > 0 && !StillToCopy(s.consumer, width) && |s.slots| > 1
    ensures Shape(Next(s, BeginForce(v), width), width) && !Safe(Next(s, BeginForce(v), width), width)
  {
    FullRingMeets(s);
    var s1 := Next(s, BeginForce(v), width);
    ReachesSelf(s1, width);
    var t := s1;
    if t.consumer.ReadSlot? {
      Extend(s1, t, Consume, width);
      t := Next(t, Consume, width);
    }
    if t.consumer.StoreTail? {
      Extend(s1, t, Consume, width);
      t := Next(t, Consume, width);
    }
    assert (t.head + 1) % |t.slots| == t.tail;
    t := ReachDrop(s1, t, v, width);
    t := ReachNextCopy(s1, t, width);
    t := ReachNextWrite(s1, t, v, width);
    assert Race(t, width);
  }

  // ----- a ring of one slot -----

  /** Nothing is written while the only value is copied: a forced push can only have begun behind the copy. */
  predicate Alone(s: State, width: nat) {
    && |s.slots| == 1 && s.count <= 1
    && (s.consumer.LoadTail? || s.consumer.ReadSlot? || !StillToCopy(s.consumer, width) ==> s.count == 1)
    && (s.producer.AddCount? ==> s.count == 0)
    && (HasRoom(s.producer) || s.producer.ReloadCount? ==> s.count == 0 || !StillToCopy(s.consumer, width))
    && (HasRoom(s.producer) && !s.producer.force ==> s.count == 0)
  }

  lemma StepKeepsAlone(s: State, m: Move, width: nat)
    requires Shape(s, width) && Alone(s, width) && Allowed(s, m)
    ensures Alone(Next(s, m, width), width)
  {
    match m
    case Produce => assert Alone(Produced(s, width), width);
    case Consume => assert Alone(Consumed(s, width), width);
    case _ =>
  }

  lemma {:induction false} RunKeepsAlone(s: State, ms: seq<Move>, width: nat)
    requires Shape(s, width) && Alone(s, width) && Guarded(s, ms, width)
    ensures Alone(Run(s, ms, width), width)
    decreases |ms|
  {
    if ms != [] {
      NextKeepsShape(s, ms[0], width);
      StepKeepsAlone(s, ms[0], width);
      RunKeepsAlone(Next(s, ms[0], width), ms[1..], width);
    }
  }

  lemma AloneIsSafe(s: State, width: nat)
    requires Shape(s, width) && Alone(s, width)
    ensures Safe(s, width)
  {
    forall t | Reaches(s, t, width) ensures !Race(t, width) {
      var ms :| Guarded(s, ms, width) && Run(s, ms, width) == t;
      RunKeepsAlone(s, ms, width);
    }
  }

  // ----- when a forced push is safe -----

  lemma InvariantIsSafe(s: State, width: nat)
    requires Invariant(s, width)
    ensures Safe(s, width)
  {
    forall t | Reaches(s, t, width) ensures !Race(t, width) {
      var ms :| Guarded(s, ms, width) && Run(s, ms, width) == t;
      RunKeepsInvariant(s, ms, width);
      NoConflict(t, width);
    }
  }

  /** A PUSH_FORCE begun beside a consumer is safe under every continuation exactly when the ring is not full; but
      with a single slot it is safe, too, once the consumer has copied all of that slot. */
  lemma ForcedPushIsSafeIff(s: State, v: seq<Word>, width: nat)
    requires Invariant(s, width) && s.producer.Ready? && |v| == width > 0
    ensures Shape(Next(s, BeginForce(v), width), width)
    ensures Safe(Next(s, BeginForce(v), width), width)
      <==> s.count < |s.slots| || (|s.slots| == 1 && !StillToCopy(s.consumer, width))
  {
    NextKeepsShape(s, BeginForce(v), width);
    if s.count < |s.slots| {
      StepKeepsInvariant(s, BeginForce(v), width);
      InvariantIsSafe(Next(s, BeginForce(v), width), width);
    } else {
      QuiescentCount(s, width);
      if StillToCopy(s.consumer, width) {
        MeetWhileCopying(s, v, width);
      } else if |s.slots| > 1 {
        MeetAfterCopying(s, v, width);
      } else {
        AloneIsSafe(Next(s, BeginForce(v), width), width);
      }
    }
  }

  lemma QuiescentCount(s: State, width: nat)
    requires Invariant(s, width) && s.producer.Ready?
    ensures s.count <= |s.slots|
  {
  }

  // ----- what POP returns when it is not -----

  /** The consumer reads the rest of its slot and returns. */
  lemma ReachReturn(s: State, t0: State, v: seq<Word>, cut: nat, width: nat) returns (t: State)
    requires Shape(s, width) && Shape(t0, width) && Reaches(s, t0, width)
    requires t0.consumer.ReadSlot? && |t0.consumer.out| == cut && t0.slots[t0.consumer.t] == v && |v| == width
    ensures Reaches(s, t, width) && t.pushed == t0.pushed
    ensures t.popped == t0.popped + [t0.consumer.out + v[cut..]]
  {
    var ReadSlot(h, out) := t0.consumer;
    Reads(s, t0, width - cut, width);
    assert v[cut..width] == v[cut..];
    t := t0.(consumer := ReadSlot(h, out + v[cut..]));
    Extend(s, t, Consume, width);
    t := Next(t, Consume, width);
    Extend(s, t, Consume, width);
    t := Next(t, Consume, width);
    Extend(s, t, Consume, width);
    t := Next(t, Consume, width);
  }

  /** A POP beside a forced push into a full ring can return any number of bytes of the oldest value followed by the
      rest of the value being pushed. */
  lemma PopReturnsMixture(s: State, v: seq<Word>, cut: nat, width: nat) returns (t: State)
    requires Invariant(s, width) && s.producer.Ready? && s.consumer.Waiting? && s.count == |s.slots|
    requires |v| == width && cut <= width
    ensures |s.popped| < |s.pushed| && |s.pushed[|s.popped|]| == width
    ensures Shape(Next(s, BeginForce(v), width), width) && Reaches(Next(s, BeginForce(v), width), t, width)
    ensures t.pushed == s.pushed
    ensures t.popped == s.popped + [s.pushed[|s.popped|][..cut] + v[cut..]]
  {
    FullRingMeets(s);
    var h, u := s.tail, s.pushed[|s.popped|];
    assert SlotOf(s.slots, |s.popped|) == u;
    var s1 := Next(s, BeginForce(v), width);
    ReachesSelf(s1, width);
    t := ReachCopy(s1, s1, width);
    Reads(s1, t, cut, width);
    t := t.(consumer := ReadSlot(h, u[..cut]));
    Extend(s1, t, Produce, width);
    t := Next(t, Produce, width);
    WritesAll(s1, t, v, h, true, width);
    t := t.(slots := t.slots[h := v], producer := WriteSlot(v, true, h, width));
    t := ReachReturn(s1, t, v, cut, width);
  }

  /** The values that k pushes leave in a ring that starts empty. */
  function Filled(slots: seq<seq<Word>>, us: seq<seq<Word>>, k: nat): State
    requires k <= |us| == |slots|
  {
    State(us[..k] + slots[k..], if k < |us| then k else 0, 0, k, Ready, Waiting, us[..k], [])
  }

  /** The rest of a PUSH whose value is written. */
  lemma PushEnds(s: State, t0: State, v: seq<Word>, h: nat, width: nat) returns (t: State)
    requires Shape(s, width) && Shape(t0, width) && Reaches(s, t0, width)
    requires t0.producer == WriteSlot(v, false, h, width) && t0.count + 1 < U16
    ensures Shape(t, width) && Reaches(s, t, width)
    ensures t == t0.(head := (h + 1) % |t0.slots|, count := t0.count + 1, pushed := t0.pushed + [v], producer := Ready)
  {
    Extend(s, t0, Produce, width);
    t := t0.(producer := StoreHead(v, false, h));
    assert t == Next(t0, Produce, width);
    Extend(s, t, Produce, width);
    t := t.(head := (h + 1) % |t0.slots|, pushed := t0.pushed + [v], producer := AddCount);
    Extend(s, t, Produce, width);
    t := Next(t, Produce, width);
  }

  /** One whole PUSH that finds room. */
  lemma PushReturns(s: State, t0: State, v: seq<Word>, width: nat) returns (t: State)
    requires Shape(s, width) && Shape(t0, width) && Reaches(s, t0, width)
    requires t0.producer.Ready? && t0.count < |t0.slots| && |v| == width
    ensures Shape(t, width) && Reaches(s, t, width)
    ensures t == t0.(slots := t0.slots[t0.head := v], head := (t0.head + 1) % |t0.slots|, count := t0.count + 1,
                     pushed := t0.pushed + [v])
  {
    var h := t0.head;
    Extend(s, t0, BeginPush(v), width);
    t := Next(t0, BeginPush(v), width);
    Extend(s, t, Produce, width);
    t := Next(t, Produce, width);
    Extend(s, t, Produce, width);
    t := Next(t, Produce, width);
    WritesAll(s, t, v, h, false, width);
    t := PushEnds(s, t.(slots := t.slots[h := v], producer := WriteSlot(v, false, h, width)), v, h, width);
  }

  lemma {:induction false} FilledShape(slots: seq<seq<Word>>, us: seq<seq<Word>>, k: nat, width: nat)
    requires 0 < |slots| == |us| < U16 && k <= |us|
    requires forall i :: 0 <= i < |us| ==> |slots[i]| == width && |us[i]| == width
    ensures Shape(Filled(slots, us, k), width)
  {
  }

  /** The k-th push writes the k-th slot. */
  lemma {:induction false} FilledNext(slots: seq<seq<Word>>, us: seq<seq<Word>>, k: nat)
    requires 0 < |slots| == |us| && 0 < k <= |us|
    ensures var t := Filled(slots, us, k - 1);
      Filled(slots, us, k) == t.(slots := t.slots[t.head := us[k - 1]], head := (t.head + 1) % |t.slots|,
                                 count := t.count + 1, pushed := t.pushed + [us[k - 1]])
  {
    assert (us[..k - 1] + slots[k - 1..])[k - 1 := us[k - 1]] == us[..k] + slots[k..];
    assert us[..k] == us[..k - 1] + [us[k - 1]];
    DivModUnique(k, |us|, if k < |us| then 0 else 1, if k < |us| then k else 0);
  }

  lemma {:induction false} FillsUp(slots: seq<seq<Word>>, us: seq<seq<Word>>, k: nat, width: nat)
    requires 0 < |slots| == |us| < U16 && k <= |us|
    requires forall i :: 0 <= i < |us| ==> |slots[i]| == width && |us[i]| == width
    ensures Shape(Init(slots), width) && Shape(Filled(slots, us, k), width)
    ensures Reaches(Init(slots), Filled(slots, us, k), width)
    decreases k
  {
    FilledShape(slots, us, k, width);
    if k == 0 {
      assert us[..0] + slots[0..] == slots;
      ReachesSelf(Init(slots), width);
    } else {
      FillsUp(slots, us, k - 1, width);
      FilledNext(slots, us, k);
      var t := PushReturns(Init(slots), Filled(slots, us, k - 1), us[k - 1], width);
    }
  }

  /** Whatever n values fill the ring, whatever value is then forced into it, and wherever the copy is cut: a POP
      beside the PUSH_FORCE can return the mixture as its first value, while only the n values have been pushed. */
  lemma ForcedPushCanTear(slots: seq<seq<Word>>, us: seq<seq<Word>>, v: seq<Word>, cut: nat, width: nat)
    requires 0 < |slots| == |us| < U16 && |v| == width && cut <= width
    requires forall i :: 0 <= i < |us| ==> |slots[i]| == width && |us[i]| == width
    ensures var s := Filled(slots, us, |us|);
      && Shape(s, width) && Reaches(Init(slots), s, width) && s.pushed == us
      && Shape(Next(s, BeginForce(v), width), width)
      && exists t :: Reaches(Next(s, BeginForce(v), width), t, width)
                     && t.pushed == us && t.popped == [us[0][..cut] + v[cut..]]
  {
    var s := Filled(slots, us, |us|);
    FillsUp(slots, us, |us|, width);
    InitInvariant(slots, width);
    var ms :| Guarded(Init(slots), ms, width) && Run(Init(slots), ms, width) == s;
    RunKeepsInvariant(Init(slots), ms, width);
    var t := PopReturnsMixture(s, v, cut, width);
    assert us[..|us|] == us;
    assert t.popped == [us[0][..cut] + v[cut..]];
  }
}
