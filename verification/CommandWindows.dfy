/** What the serial loop makes of the commands in any window. A pass that meets no frame hands the whole window to the
    command handler and pops the first command; a line break behind a character of a command breaks the handler off
    before it drains the queue; a frame takes everything in front of its footer away. */
module CommandWindows {
  import opened Bytes
  import opened Delimiters
  import opened Commands
  import opened Serial
  import opened SerialStream
  import opened CommandStream
  import opened Termination

  // ----- how the scan of a window and of its rest hang together -----

  lemma NoCommandWithoutTerminator(w: seq<byte>)
    requires SEMICOLON !in w
    ensures Found(w).commands == []
  {
    NothingCollected(w, [], false, |w|);
  }

  lemma {:induction false} NothingCollected(w: seq<byte>, text: seq<byte>, reading: bool, free: nat)
    requires SEMICOLON !in w && |text| < MAX_CMD_LENGTH
    ensures SegmentFrom(w, text, reading, free).commands == []
    decreases |w|
  {
    if w != [] {
      var b, rest := w[0], w[1..];
      if IsBreak(b) {
        if !reading {
          NothingCollected(rest, [], false, free);
        }
      } else if |text| < MAX_CMD_LENGTH - 1 {
        NothingCollected(rest, text + [b], true, free);
      } else {
        NothingCollected(rest, [], true, free);
      }
    }
  }

  /** The scan of a window is broken off at once, or finds one command and then what the rest of the window holds. */
  lemma RestOfWindow(w: seq<byte>, i: nat)
    requires i == FirstIndex(w, SEMICOLON)
    ensures Found(w).rc == 0 || Found(w).rc == 3
    ensures Found(w).commands == [] ==> Found(w) == Segmented(3, [])
    ensures Found(w).commands != [] ==>
      Found(w[i + 1..]).commands == Found(w).commands[1..] && Found(w[i + 1..]).rc == Found(w).rc
  {
    BrokenOffIff(w, [], false, |w|);
    FirstTerminator(w, [], false, |w|, i);
    if Found(w).commands != [] {
      assert ([Found(w).commands[0]] + Found(w[i + 1..]).commands)[1..] == Found(w[i + 1..]).commands;
    }
  }

  // ----- what a stretch of command passes does -----

  /** The window at which a stretch of command passes ends: a frame comes next, or nothing complete. */
  function Stretch(w: seq<byte>): (r: seq<byte>)
    ensures |r| <= |w|
    decreases |w|
  {
    match NextMeeting(w)
    case Skips(rest) => Stretch(rest)
    case _ => w
  }

  /** The commands enqueued, without being drained, by the passes that are broken off: each of these passes enqueues
      all commands that are left in front of the break. */
  function Piled(w: seq<byte>): seq<Command>
    decreases |w|
  {
    match NextMeeting(w)
    case Skips(rest) => if Found(w).rc == 0 then [] else Found(w).commands + Piled(rest)
    case _ => []
  }

  /** The commands of the first pass that is not broken off: those behind the last break. */
  function Final(w: seq<byte>): seq<Command>
    decreases |w|
  {
    match NextMeeting(w)
    case Skips(rest) => if Found(w).rc == 0 then Found(w).commands else Final(rest)
    case _ => []
  }

  /** Every command that no break runs through, once, in order. */
  function Heard(w: seq<byte>): seq<Command>
    decreases |w|
  {
    match NextMeeting(w)
    case Skips(rest) =>
      if Found(w).rc == 0 then Found(w).commands
      else if Found(w).commands == [] then Heard(rest)
      else [Found(w).commands[0]] + Heard(rest)
    case _ => []
  }

  predicate Drains(pending: nat, w: seq<byte>) {
    Final(w) != [] && pending + |Piled(w)| + |Final(w)| <= CMD_QUEUE_LENGTH
  }

  function FirstOnes(cs: seq<Command>): (r: seq<Command>)
    ensures |r| == Min(|cs|, CMD_QUEUE_LENGTH)
  {
    cs[..Min(|cs|, CMD_QUEUE_LENGTH)]
  }

  /** The command part after a stretch. */
  function Settled(c: CommandState, piled: seq<Command>, final: seq<Command>): (r: CommandState)
    ensures |r.pending| <= CMD_QUEUE_LENGTH
  {
    var all := c.pending + (piled + final);
    if final != [] && |all| <= CMD_QUEUE_LENGTH then CommandState(HandleAll(c.config, all), [])
    else CommandState(c.config, FirstOnes(all))
  }

  function WithPart(st: State, c: CommandState): State {
    st.(commands := c)
  }

  // ----- passes -----

  lemma SkipPass(st: State, w: seq<byte>, later: seq<byte>)
    requires Valid(st) && NextMeeting(w) == Skips(later)
    ensures Classify(w).CommandBlock? && later == w[Consumed(Classify(w))..]
    ensures FirstIndex(w, SEMICOLON) >= 0 && later == w[FirstIndex(w, SEMICOLON) + 1..]
    ensures Valid(WithPart(st, Receive(st.commands, w)))
    ensures Halts(w) <==> Halts(later)
    ensures Halts(w) ==> Run(st, w) == Run(WithPart(st, Receive(st.commands, w)), later)
  {
    NextBody(w, Classify(w));
  }

  lemma {:induction false} StretchStep(w: seq<byte>, later: seq<byte>)
    requires NextMeeting(w) == Skips(later)
    ensures Stretch(w) == Stretch(later)
  {
  }

  lemma StretchEnds(w: seq<byte>)
    requires !NextMeeting(w).Skips?
    ensures Stretch(w) == w && Piled(w) == [] && Final(w) == [] && Heard(w) == []
  {
  }

  /** A pass over commands that have all been handled changes nothing. */
  lemma HandledPass(c: CommandState, w: seq<byte>, i: nat, config: Config, done: seq<Command>)
    requires i == FirstIndex(w, SEMICOLON) && !MidBreak(w) && |Found(w).commands| <= CMD_QUEUE_LENGTH
    requires c == CommandState(HandleAll(config, done + Found(w).commands), [])
    ensures Receive(c, w) == c && !MidBreak(w[i + 1..]) && Found(w).commands != []
    ensures done + [Found(w).commands[0]] + Found(w[i + 1..]).commands == done + Found(w).commands
    ensures |Found(w[i + 1..]).commands| <= |Found(w).commands|
  {
    var found := Found(w).commands;
    DrainedIff(c, w);
    RestOfWindow(w, i);
    DrainedIff(c, w[i + 1..]);
    assert [] + found == found;
    HandleAgain(config, done, found);
    Shift(done, found);
  }

  lemma {:induction false} HandledSkip(st: State, w: seq<byte>, later: seq<byte>, config: Config, done: seq<Command>)
    requires Valid(st) && Halts(w) && !MidBreak(w) && |Found(w).commands| <= CMD_QUEUE_LENGTH
    requires NextMeeting(w) == Skips(later)
    requires st.commands == CommandState(HandleAll(config, done + Found(w).commands), [])
    ensures Halts(later) && Run(st, w) == Run(st, later)
    ensures !MidBreak(later) && |Found(later).commands| <= CMD_QUEUE_LENGTH && Found(w).commands != []
    ensures done + [Found(w).commands[0]] + Found(later).commands == done + Found(w).commands
  {
    SkipPass(st, w, later);
    HandledPass(st.commands, w, FirstIndex(w, SEMICOLON), config, done);
    assert WithPart(st, st.commands) == st;
  }

  lemma {:induction false} HandledStretch(st: State, w: seq<byte>, config: Config, done: seq<Command>)
    requires Valid(st) && Halts(w) && !MidBreak(w) && |Found(w).commands| <= CMD_QUEUE_LENGTH
    requires st.commands == CommandState(HandleAll(config, done + Found(w).commands), [])
    ensures Halts(Stretch(w)) && Run(st, w) == Run(st, Stretch(w))
    decreases |w|
  {
    if NextMeeting(w).Skips? {
      var later := NextMeeting(w).rest;
      HandledSkip(st, w, later, config, done);
      StretchStep(w, later);
      HandledStretch(st, later, config, done + [Found(w).commands[0]]);
    } else {
      StretchEnds(w);
    }
  }

  /** A full queue stays as it is. */
  lemma {:induction false} FullStays(st: State, w: seq<byte>)
    requires Valid(st) && Halts(w) && |st.commands.pending| == CMD_QUEUE_LENGTH
    ensures Halts(Stretch(w)) && Run(st, w) == Run(st, Stretch(w))
    decreases |w|
  {
    if NextMeeting(w).Skips? {
      var later := NextMeeting(w).rest;
      SkipPass(st, w, later);
      PassKeepsFullQueue(st, w, Classify(w));
      StretchStep(w, later);
      FullStays(st, later);
    } else {
      StretchEnds(w);
    }
  }

  lemma FirstOnesFull(pending: seq<Command>, a: seq<Command>, b: seq<Command>)
    requires |pending| <= CMD_QUEUE_LENGTH < |pending| + |a|
    ensures FirstOnes(pending + (a + b)) == pending + a[..CMD_QUEUE_LENGTH - |pending|]
    ensures |pending + a[..CMD_QUEUE_LENGTH - |pending|]| == CMD_QUEUE_LENGTH
  {
  }

  lemma FirstOnesAll(all: seq<Command>)
    requires |all| <= CMD_QUEUE_LENGTH
    ensures FirstOnes(all) == all
  {
  }

  /** What the handler keeps of a window that is not broken off. */
  lemma {:induction false} UnbrokenReceive(c: CommandState, w: seq<byte>, found: seq<Command>)
    requires |c.pending| <= CMD_QUEUE_LENGTH && found == Found(w).commands && Found(w).rc == 0 && found != []
    ensures Receive(c, w) == Settled(c, [], found)
  {
    DrainedIff(c, w);
    assert [] + found == found;
    if |c.pending| + |found| > CMD_QUEUE_LENGTH {
      FirstOnesFull(c.pending, found, []);
      assert found + [] == found;
    }
  }

  lemma {:induction false} UnbrokenStretch(st: State, w: seq<byte>, later: seq<byte>, c: CommandState)
    requires Valid(st) && Halts(w) && NextMeeting(w) == Skips(later) && Found(w).rc == 0
    requires c == Settled(st.commands, [], Found(w).commands)
    ensures Halts(Stretch(w)) && Valid(WithPart(st, c)) && Run(st, w) == Run(WithPart(st, c), Stretch(w))
  {
    hide NextMeeting, SegmentFrom, FirstIndex, MidBreak;
    var pending, found := st.commands.pending, Found(w).commands;
    SkipPass(st, w, later);
    RestOfWindow(w, FirstIndex(w, SEMICOLON));
    UnbrokenReceive(st.commands, w, found);
    StretchStep(w, later);
    assert [] + found == found;
    if |pending| + |found| <= CMD_QUEUE_LENGTH {
      DrainedIff(c, later);
      Assoc(pending, [found[0]], found[1..]);
      HeadTail(found);
      HandledStretch(WithPart(st, c), later, st.commands.config, pending + [found[0]]);
    } else {
      FullStays(WithPart(st, c), later);
    }
  }

  /** Commands that are enqueued first and those that follow settle as if enqueued together. */
  lemma SettledMore(c: CommandState, found: seq<Command>, piled: seq<Command>, final: seq<Command>)
    ensures Settled(CommandState(c.config, c.pending + found), piled, final) == Settled(c, found + piled, final)
  {
    Assoc(found, piled, final);
    Assoc(c.pending, found, piled + final);
  }

  lemma SettledFull(c: CommandState, found: seq<Command>, piled: seq<Command>, final: seq<Command>)
    requires |c.pending| <= CMD_QUEUE_LENGTH < |c.pending| + |found|
    ensures Settled(c, found + piled, final)
         == CommandState(c.config, c.pending + found[..CMD_QUEUE_LENGTH - |c.pending|])
  {
    Assoc(found, piled, final);
    FirstOnesFull(c.pending, found, piled + final);
  }

  /** What the handler keeps of a window when it is broken off. */
  lemma {:induction false} BrokenReceive(c: CommandState, w: seq<byte>, found: seq<Command>)
    requires |c.pending| <= CMD_QUEUE_LENGTH && found == Found(w).commands && Found(w).rc != 0
    ensures |c.pending| + |found| <= CMD_QUEUE_LENGTH ==>
      Receive(c, w) == CommandState(c.config, c.pending + found)
    ensures |c.pending| + |found| > CMD_QUEUE_LENGTH ==>
      Receive(c, w) == CommandState(c.config, c.pending + found[..CMD_QUEUE_LENGTH - |c.pending|])
  {
    DrainedIff(c, w);
    TakeAll(found, |found|);
  }

  lemma {:induction false} PiledStep(w: seq<byte>, later: seq<byte>)
    requires NextMeeting(w) == Skips(later) && Found(w).rc != 0
    ensures Piled(w) == Found(w).commands + Piled(later)
  {
  }

  lemma {:induction false} FinalStep(w: seq<byte>, later: seq<byte>)
    requires NextMeeting(w) == Skips(later) && Found(w).rc != 0
    ensures Final(w) == Final(later)
  {
  }

  lemma {:induction false} UnbrokenPile(w: seq<byte>)
    requires NextMeeting(w).Skips? && Found(w).rc == 0
    ensures Piled(w) == []
  {
  }

  lemma {:induction false} UnbrokenFinal(w: seq<byte>)
    requires NextMeeting(w).Skips? && Found(w).rc == 0
    ensures Final(w) == Found(w).commands
  {
  }

  lemma NothingSettles(c: CommandState)
    requires |c.pending| <= CMD_QUEUE_LENGTH
    ensures Settled(c, [], []) == c
  {
    assert c.pending + ([] + []) == c.pending;
    FirstOnesAll(c.pending);
  }

  /** The exact outcome of a stretch of command passes on any window, from any state of the command queue. */
  lemma {:induction false} StretchOutcome(st: State, w: seq<byte>, c: CommandState)
    requires Valid(st) && Halts(w) && c == Settled(st.commands, Piled(w), Final(w))
    ensures Halts(Stretch(w)) && Valid(WithPart(st, c)) && Run(st, w) == Run(WithPart(st, c), Stretch(w))
    decreases |w|
  {
    if !NextMeeting(w).Skips? {
      StretchEnds(w);
      NothingSettles(st.commands);
      assert WithPart(st, c) == st;
    } else if Found(w).rc == 0 {
      UnbrokenPile(w);
      UnbrokenFinal(w);
      UnbrokenStretch(st, w, NextMeeting(w).rest, c);
    } else {
      BrokenStretch(st, w, NextMeeting(w).rest, c);
    }
  }

  lemma {:induction false} BrokenStretch(st: State, w: seq<byte>, later: seq<byte>, c: CommandState)
    requires Valid(st) && Halts(w) && NextMeeting(w) == Skips(later) && Found(w).rc != 0
    requires c == Settled(st.commands, Piled(w), Final(w))
    ensures Halts(Stretch(w)) && Valid(WithPart(st, c)) && Run(st, w) == Run(WithPart(st, c), Stretch(w))
    decreases |w|, 0
  {
    var found := Found(w).commands;
    var now := Receive(st.commands, w);
    SkipPass(st, w, later);
    StretchStep(w, later);
    BrokenReceive(st.commands, w, found);
    PiledStep(w, later);
    FinalStep(w, later);
    if |st.commands.pending| + |found| <= CMD_QUEUE_LENGTH {
      SettledMore(st.commands, found, Piled(later), Final(later));
      StretchOutcome(WithPart(st, now), later, c);
    } else {
      SettledFull(st.commands, found, Piled(later), Final(later));
      FullStays(WithPart(st, now), later);
    }
  }

  // ----- whole windows -----

  /** The command part after a call: frames take what is in front of them away and leave the command part alone, and
      between them the stretches settle. */
  function Through(c: CommandState, w: seq<byte>): CommandState
    decreases |w|
  {
    match NextMeeting(w)
    case Delivers(_, rest) => Through(c, rest)
    case Skips(rest) =>
      StretchShrinks(w);
      Through(Settled(c, Piled(w), Final(w)), Stretch(w))
    case Stops => c
  }

  lemma StretchShrinks(w: seq<byte>)
    requires NextMeeting(w).Skips?
    ensures |Stretch(w)| < |w|
  {
    StretchStep(w, NextMeeting(w).rest);
  }

  /** The command part after a call on any window on which it returns, from any state. */
  lemma {:induction false} EveryWindow(st: State, w: seq<byte>)
    requires Valid(st) && Halts(w)
    ensures Run(st, w).state.commands == Through(st.commands, w)
    decreases |w|
  {
    var a := Classify(w);
    NextBody(w, a);
    RunStep(st, w, a);
    match NextMeeting(w)
    case Delivers(_, rest) =>
      FramesLeaveCommands(st, w, a);
      EveryWindow(Perform(st, w, a), rest);
    case Skips(rest) =>
      var c := Settled(st.commands, Piled(w), Final(w));
      StretchOutcome(st, w, c);
      StretchShrinks(w);
      EveryWindow(WithPart(st, c), Stretch(w));
    case Stops =>
  }

  /** No frame is recognised in the window, at any pass. */
  predicate FrameFree(w: seq<byte>) {
    Bodies(w) == []
  }

  lemma {:induction false} FrameFreeStep(w: seq<byte>)
    ensures NextMeeting(w).Delivers? ==> !FrameFree(w)
    ensures NextMeeting(w).Skips? ==> (FrameFree(w) <==> FrameFree(NextMeeting(w).rest))
    ensures NextMeeting(w).Stops? ==> FrameFree(w)
  {
  }

  lemma {:induction false} FrameFreeEnd(w: seq<byte>)
    requires FrameFree(w)
    ensures Halts(w) && FrameFree(Stretch(w)) && NextMeeting(Stretch(w)).Stops?
    decreases |w|
  {
    ReturnsIff(w);
    FrameFreeStep(w);
    if NextMeeting(w).Skips? {
      StretchStep(w, NextMeeting(w).rest);
      FrameFreeEnd(NextMeeting(w).rest);
    } else {
      StretchEnds(w);
    }
  }

  lemma StopsThere(st: State, w: seq<byte>)
    requires Valid(st) && NextMeeting(w).Stops?
    ensures Halts(w) && Run(st, w) == Outcome(st, w)
  {
    NextBody(w, Classify(w));
  }

  /** Without a footer no frame is recognised; nor is one without a header. */
  lemma {:induction false} FooterlessIsFrameFree(w: seq<byte>)
    requires BANG !in w
    ensures FrameFree(w)
    decreases |w|
  {
    FrameFreeStep(w);
    if NextMeeting(w).Skips? {
      DropKeepsAway(w, FirstIndex(w, SEMICOLON) + 1, BANG);
      FooterlessIsFrameFree(NextMeeting(w).rest);
    }
  }

  lemma {:induction false} HeaderlessIsFrameFree(w: seq<byte>)
    requires AT !in w && COLON !in w
    ensures FrameFree(w)
    decreases |w|
  {
    FrameFreeStep(w);
    if NextMeeting(w).Skips? {
      DropKeepsAway(w, FirstIndex(w, SEMICOLON) + 1, AT);
      DropKeepsAway(w, FirstIndex(w, SEMICOLON) + 1, COLON);
      HeaderlessIsFrameFree(NextMeeting(w).rest);
    }
  }

  /** The exact outcome of a call on any window in which no frame is recognised. */
  lemma WindowOutcome(st: State, w: seq<byte>)
    requires Valid(st) && FrameFree(w)
    ensures Halts(w)
    ensures Run(st, w) == Outcome(WithPart(st, Settled(st.commands, Piled(w), Final(w))), Stretch(w))
  {
    var c := Settled(st.commands, Piled(w), Final(w));
    FrameFreeEnd(w);
    StretchOutcome(st, w, c);
    StopsThere(WithPart(st, c), Stretch(w));
  }

  /** Where no frame comes, a stretch ends behind the last terminator. */
  lemma {:induction false} StretchIsTail(w: seq<byte>)
    requires FrameFree(w)
    ensures Stretch(w) == TailOf(w)
    decreases |w|
  {
    FrameFreeStep(w);
    if NextMeeting(w).Skips? {
      var i := FirstIndex(w, SEMICOLON);
      StretchStep(w, w[i + 1..]);
      TailStep(w, i);
      StretchIsTail(w[i + 1..]);
    } else {
      StretchEnds(w);
    }
  }

  /** A call leaves the command queue empty exactly when there was nothing to enqueue, or the window has a command
      behind its last break and everything that piles up fits; it leaves the queue full for good exactly when sixteen
      or more pile up otherwise. */
  lemma CommandsDrainedIff(st: State, w: seq<byte>)
    requires Valid(st) && FrameFree(w)
    ensures var pending := |st.commands.pending|; var all := pending + |Piled(w)| + |Final(w)|;
      && Halts(w)
      && (Run(st, w).state.commands.pending == [] <==> Drains(pending, w) || all == 0)
      && (|Run(st, w).state.commands.pending| == CMD_QUEUE_LENGTH <==> !Drains(pending, w) && all >= CMD_QUEUE_LENGTH)
  {
    WindowOutcome(st, w);
  }

  // ----- which commands take effect -----

  lemma {:induction false} HeardStep(w: seq<byte>, later: seq<byte>)
    requires NextMeeting(w) == Skips(later) && Found(w).rc != 0 && Found(w).commands != []
    ensures Heard(w) == [Found(w).commands[0]] + Heard(later)
  {
  }

  lemma {:induction false} NotHeard(w: seq<byte>, later: seq<byte>)
    requires NextMeeting(w) == Skips(later) && Found(w).rc != 0 && Found(w).commands == []
    ensures Heard(w) == Heard(later)
  {
  }

  lemma {:induction false} HeardUnbroken(w: seq<byte>)
    requires NextMeeting(w).Skips? && Found(w).rc == 0
    ensures Heard(w) == Found(w).commands
  {
  }

  lemma FinalSkips(w: seq<byte>)
    requires Final(w) != []
    ensures NextMeeting(w).Skips? && FirstIndex(w, SEMICOLON) >= 0
    ensures NextMeeting(w).rest == w[FirstIndex(w, SEMICOLON) + 1..]
  {
  }

  /** When the stretch gets behind the last break, the commands in front of the first one are heard first. */
  lemma {:induction false} HeardBegins(w: seq<byte>)
    requires Final(w) != []
    ensures Found(w).commands <= Heard(w)
    decreases |w|
  {
    FinalSkips(w);
    if Found(w).rc == 0 {
      HeardUnbroken(w);
    } else if Found(w).commands != [] {
      var later := NextMeeting(w).rest;
      RestOfWindow(w, FirstIndex(w, SEMICOLON));
      FinalStep(w, later);
      HeardBegins(later);
      HeardStep(w, later);
      HeadTail(Found(w).commands);
    }
  }

  /** Commands handled again right after the first of them has been handled with them. */
  lemma HandleTwice(config: Config, found: seq<Command>, more: seq<Command>)
    requires found != []
    ensures HandleAll(HandleAll(config, found), found[1..] + more)
         == HandleAll(config, [found[0]] + (found[1..] + more))
  {
    HeadTail(found);
    HandleAgain(config, [found[0]], found[1..]);
    HandleAppend(HandleAll(config, found), found[1..], more);
    Assoc([found[0]], found[1..], more);
    HandleAppend(config, found, more);
  }

  lemma {:induction false} PiledEffectStep(config: Config, found: seq<Command>, more: seq<Command>, heard: seq<Command>)
    requires HandleAll(HandleAll(config, found), more) == HandleAll(HandleAll(config, found), heard)
    requires found != [] && found[1..] <= heard
    ensures HandleAll(config, found + more) == HandleAll(config, [found[0]] + heard)
  {
    var rest := heard[|found| - 1..];
    assert heard == found[1..] + rest;
    HandleAppend(config, found, more);
    HandleTwice(config, found, rest);
  }

  lemma PiledAndFinalStep(w: seq<byte>, later: seq<byte>)
    requires NextMeeting(w) == Skips(later) && Found(w).rc != 0
    ensures Piled(w) + Final(w) == Found(w).commands + (Piled(later) + Final(later))
  {
    PiledStep(w, later);
    FinalStep(w, later);
    Assoc(Found(w).commands, Piled(later), Final(later));
  }

  /** Once drained, what piled up has the effect of each unbroken command once, in order. */
  lemma {:induction false} PiledEffect(config: Config, w: seq<byte>)
    requires Final(w) != []
    ensures HandleAll(config, Piled(w) + Final(w)) == HandleAll(config, Heard(w))
    decreases |w|
  {
    hide NextMeeting, SegmentFrom, FirstIndex, Piled, Final, Heard;
    FinalSkips(w);
    if Found(w).rc == 0 {
      HeardUnbroken(w);
      UnbrokenPile(w);
      UnbrokenFinal(w);
      assert [] + Final(w) == Final(w);
    } else {
      var found, later := Found(w).commands, NextMeeting(w).rest;
      var more := Piled(later) + Final(later);
      PiledAndFinalStep(w, later);
      FinalStep(w, later);
      PiledEffect(HandleAll(config, found), later);
      if found == [] {
        NotHeard(w, later);
        assert [] + more == more;
      } else {
        HeardStep(w, later);
        RestOfWindow(w, FirstIndex(w, SEMICOLON));
        HeardBegins(later);
        PiledEffectStep(config, found, more, Heard(later));
      }
    }
  }

  /** When the window drains, every field ends as if the waiting commands and then each unbroken command of the window
      had been handled once, in order; when it does not, no field changes. */
  lemma CommandsTakeEffectIff(st: State, w: seq<byte>)
    requires Valid(st) && FrameFree(w)
    ensures Halts(w)
    ensures Drains(|st.commands.pending|, w) ==>
      Run(st, w).state.commands == CommandState(HandleAll(st.commands.config, st.commands.pending + Heard(w)), [])
    ensures !Drains(|st.commands.pending|, w) ==> Run(st, w).state.commands.config == st.commands.config
  {
    var config, pending := st.commands.config, st.commands.pending;
    WindowOutcome(st, w);
    if Drains(|pending|, w) {
      PiledEffect(HandleAll(config, pending), w);
      HandleAppend(config, pending, Piled(w) + Final(w));
      HandleAppend(config, pending, Heard(w));
    }
  }

  // ----- the pile, counted -----

  /** A list, then the list without its first entry, and so on. */
  function Suffixes(cs: seq<Command>): seq<Command> {
    if cs == [] then [] else cs + Suffixes(cs[1..])
  }

  lemma {:induction false} SuffixesCount(cs: seq<Command>)
    ensures |Suffixes(cs)| == |cs| * (|cs| + 1) / 2
  {
    if cs != [] {
      SuffixesCount(cs[1..]);
      var k := |cs|;
      assert k * (k + 1) == (k - 1) * k + 2 * k;
    }
  }

  lemma SkipsAt(w: seq<byte>, c: seq<byte>, later: seq<byte>)
    requires FrameFree(w) && w == c + ([SEMICOLON] + later) && SEMICOLON !in c
    ensures NextMeeting(w) == Skips(later) && FrameFree(later)
  {
    TerminatorAt(w, c, later);
    FrameFreeStep(w);
  }

  lemma TerminatorAt(w: seq<byte>, c: seq<byte>, later: seq<byte>)
    requires w == c + ([SEMICOLON] + later) && SEMICOLON !in c
    ensures SEMICOLON in w && FirstIndex(w, SEMICOLON) == |c| && w[|c| + 1..] == later
  {
    assert w[..|c|] == c && w[|c|] == SEMICOLON;
    FirstIndexUnique(w, SEMICOLON, |c|);
  }

  /** k commands in front of a break: k passes are broken off, and k * (k + 1) / 2 entries pile up. */
  lemma {:induction false} BrokenBlock(w: seq<byte>, cs: seq<seq<byte>>, tail: seq<byte>)
    requires AreCommandLines(cs) && Found(tail) == Segmented(3, []) && w == Terminated(cs) + tail && FrameFree(w)
    ensures Piled(w) == Suffixes(Payloads(Stripped(cs))) + Piled(tail)
    ensures Final(w) == Final(tail) && Heard(w) == Payloads(Stripped(cs)) + Heard(tail)
    decreases |cs|
  {
    if cs == [] {
      assert w == tail && Payloads(Stripped(cs)) == [];
      assert [] + Piled(tail) == Piled(tail) && [] + Heard(tail) == Heard(tail);
    } else {
      var later, all := Terminated(cs[1..]) + tail, Payloads(Stripped(cs));
      BlockStep(w, cs, tail, later);
      PiledStep(w, later);
      FinalStep(w, later);
      HeardStep(w, later);
      BrokenBlock(later, cs[1..], tail);
      var rest := Payloads(Stripped(cs[1..]));
      assert all[1..] == rest;
      Assoc(all, Suffixes(rest), Piled(tail));
      Assoc([all[0]], rest, Heard(tail));
    }
  }

  lemma {:induction false} BlockStep(w: seq<byte>, cs: seq<seq<byte>>, tail: seq<byte>, later: seq<byte>)
    requires AreCommandLines(cs) && Found(tail) == Segmented(3, []) && w == Terminated(cs) + tail && FrameFree(w)
    requires cs != [] && later == Terminated(cs[1..]) + tail
    ensures NextMeeting(w) == Skips(later) && FrameFree(later) && AreCommandLines(cs[1..])
    ensures Found(w) == Segmented(3, Payloads(Stripped(cs))) && Payloads(Stripped(cs)) != []
    ensures Payloads(Stripped(cs)) == [Payloads(Stripped(cs))[0]] + Payloads(Stripped(cs[1..]))
  {
    hide NextMeeting, SegmentFrom, FirstIndex, Terminated, Bodies;
    TerminatedSplit(cs, tail);
    SkipsAt(w, cs[0], later);
    LineFraming(cs, tail, |w|);
    assert Payloads(Stripped(cs)) + [] == Payloads(Stripped(cs));
    PayloadsCons(cs);
  }

  /** A command that a break runs through is lost with everything up to its terminator. */
  lemma {:induction false} BrokenCommandIsLost(w: seq<byte>, c: seq<byte>, later: seq<byte>)
    requires FrameFree(w) && w == c + ([SEMICOLON] + later) && SEMICOLON !in c && MidBreak(c)
    ensures Found(w) == Segmented(3, [])
    ensures Piled(w) == Piled(later) && Final(w) == Final(later) && Heard(w) == Heard(later)
  {
    SkipsAt(w, c, later);
    BrokenAtOnce(c, [], false, |w|, [SEMICOLON] + later);
    PiledStep(w, later);
    FinalStep(w, later);
    NotHeard(w, later);
    assert [] + Piled(later) == Piled(later);
  }

  lemma {:induction false} BrokenAtOnce(c: seq<byte>, text: seq<byte>, reading: bool, free: nat, rest: seq<byte>)
    requires SEMICOLON !in c && |text| < MAX_CMD_LENGTH && (MidBreak(c) || (reading && c != [] && IsBreak(c[0])))
    ensures SegmentFrom(c + rest, text, reading, free) == Segmented(3, [])
    decreases |c|
  {
    var b, more := c[0], c[1..];
    assert b in c;
    HeadTail(c);
    MidBreakStep(b, more);
    DropAppend(c, rest, 1);
    if IsBreak(b) {
      if !reading {
        BrokenAtOnce(more, [], false, free, rest);
      }
    } else if |text| < MAX_CMD_LENGTH - 1 {
      BrokenAtOnce(more, text + [b], true, free, rest);
    } else {
      BrokenAtOnce(more, [], true, free, rest);
    }
  }

  lemma SettledAlone(config: Config, pile: seq<Command>)
    ensures Settled(CommandState(config, []), pile, []) == CommandState(config, FirstOnes(pile))
  {
    assert [] + (pile + []) == pile;
  }

  lemma SixIsEnough(k: nat)
    ensures k * (k + 1) / 2 >= CMD_QUEUE_LENGTH <==> k >= 6
  {
    assert k >= 6 ==> k * (k + 1) >= 6 * 7;
    assert k <= 5 ==> k * (k + 1) <= 5 * 6;
  }

  lemma SuffixesAreMany(cs: seq<Command>)
    ensures |Suffixes(cs)| >= CMD_QUEUE_LENGTH <==> |cs| >= 6
    ensures Suffixes(cs) + [] == Suffixes(cs)
  {
    SuffixesCount(cs);
    SixIsEnough(|cs|);
  }

  lemma {:induction false} BrokenTail(w: seq<byte>, cs: seq<seq<byte>>, tail: seq<byte>, all: seq<Command>)
    requires AreCommandLines(cs) && SEMICOLON !in tail && MidBreak(tail) && w == Terminated(cs) + tail && FrameFree(w)
    requires all == Payloads(Stripped(cs))
    ensures Piled(w) == Suffixes(all) && Final(w) == []
  {
    assert tail + [] == tail;
    BrokenAtOnce(tail, [], false, |tail|, []);
    BrokenBlock(w, cs, tail);
    NoSkip(tail);
    SuffixesAreMany(all);
  }

  lemma NoSkip(tail: seq<byte>)
    requires SEMICOLON !in tail
    ensures !NextMeeting(tail).Skips? && Piled(tail) == [] && Final(tail) == []
  {
    StretchEnds(tail);
  }

  /** k commands and then a command that a break runs through and that is not terminated: nothing takes effect, and
      the queue, empty before, is full for good exactly from six commands on. */
  lemma BrokenTailPilesUp(st: State, w: seq<byte>, cs: seq<seq<byte>>, tail: seq<byte>)
    requires Valid(st) && st.commands.pending == [] && FrameFree(w) && w == Terminated(cs) + tail
    requires AreCommandLines(cs) && SEMICOLON !in tail && MidBreak(tail)
    ensures Halts(w)
    ensures Run(st, w).state.commands == CommandState(st.commands.config, FirstOnes(Suffixes(Payloads(Stripped(cs)))))
    ensures |Run(st, w).state.commands.pending| == CMD_QUEUE_LENGTH <==> |cs| >= 6
  {
    var all := Payloads(Stripped(cs));
    BrokenTail(w, cs, tail, all);
    SuffixesAreMany(all);
    WindowOutcome(st, w);
    SettledAlone(st.commands.config, Suffixes(all));
  }

  /** Six times "I;" and then "x" with a line feed. */
  function JammingWindow(): seq<byte> {
    Terminated(seq(6, _ => [73])) + [120, LF]
  }

  /** A concrete window that jams with six commands. */
  lemma SixCommandsJam(st: State)
    requires Valid(st) && st.commands.pending == []
    ensures FrameFree(JammingWindow()) && Halts(JammingWindow())
    ensures |Run(st, JammingWindow()).state.commands.pending| == CMD_QUEUE_LENGTH
  {
    var cs: seq<seq<byte>>, tail: seq<byte> := seq(6, _ => [73]), [120, LF];
    assert BreaksAt(tail, 1);
    PlainAreLines(cs);
    NoBangInTerminated(cs);
    FooterlessIsFrameFree(JammingWindow());
    BrokenTailPilesUp(st, JammingWindow(), cs, tail);
  }

  lemma {:induction false} NoBangInTerminated(cs: seq<seq<byte>>)
    requires forall i :: 0 <= i < |cs| ==> BANG !in cs[i]
    ensures BANG !in Terminated(cs)
  {
    if cs != [] {
      NoBangInTerminated(cs[1..]);
    }
  }
}
