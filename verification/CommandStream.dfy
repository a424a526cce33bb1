/** Streams of commands through the serial loop, which hands the whole window to the command handler on every pass but
    pops only the first command. */
module CommandStream {
  import opened Bytes
  import opened Delimiters
  import opened Packets
  import opened Commands
  import opened Serial
  import opened SerialStream
  import Base64

  predicate AllPlain(cs: seq<seq<byte>>) {
    forall i :: 0 <= i < |cs| ==> Plain(cs[i])
  }

  function WithCommands(st: State, config: Config, pending: seq<Command>): State {
    st.(commands := CommandState(config, pending))
  }

  /** A window of commands: each pass sees the first terminator and leaves the rest. */
  lemma CommandPass(w: seq<byte>, cs: seq<seq<byte>>, tail: seq<byte>)
    requires AllPlain(cs) && Plain(tail) && w == Terminated(cs) + tail && BANG !in w
    ensures cs == [] ==> Classify(w) == Wait && w == tail
    ensures cs != [] ==>
      && Classify(w) == CommandBlock(|cs[0]|) && w[Consumed(Classify(w))..] == Terminated(cs[1..]) + tail
      && BANG !in Terminated(cs[1..]) + tail
  {
    if cs != [] {
      var rest := Terminated(cs[1..]) + tail;
      TerminatedSplit(cs, tail);
      FirstCommand(w, cs[0], rest);
    } else {
      assert w == tail && SEMICOLON !in tail;
    }
  }

  lemma FirstCommand(w: seq<byte>, c: seq<byte>, rest: seq<byte>)
    requires Plain(c) && w == c + ([SEMICOLON] + rest) && BANG !in w
    ensures Classify(w) == CommandBlock(|c|) && w[|c| + 1..] == rest && BANG !in rest
  {
    assert w[..|c|] == c && w[|c|] == SEMICOLON;
    assert SEMICOLON !in c;
    FirstIndexUnique(w, SEMICOLON, |c|);
    assert w[|c| + 1..] == rest;
    assert forall b :: b in rest ==> b in w;
  }

  /** Commands that have been handled already are handled again on every later pass, without any effect. */
  lemma {:induction false} RehandlingIsHarmless(
      st: State, w: seq<byte>, config: Config, done: seq<Command>, cs: seq<seq<byte>>, tail: seq<byte>)
    requires Valid(st) && AllPlain(cs) && Plain(tail) && |cs| <= CMD_QUEUE_LENGTH
    requires w == Terminated(cs) + tail && BANG !in w
    requires st.commands == CommandState(HandleAll(config, done + Payloads(cs)), [])
    ensures Halts(w) && Run(st, w) == Outcome(st, tail)
    decreases |cs|
  {
    CommandPass(w, cs, tail);
    if cs != [] {
      var now := HandleAll(config, done + Payloads(cs));
      assert Receive(st.commands, w) == st.commands by {
        DrainedPlain(cs, tail, st.commands, CMD_QUEUE_LENGTH);
        assert [] + Payloads(cs) == Payloads(cs);
        HandleAgain(config, done, Payloads(cs));
      }
      PayloadsShift(done, cs);
      RehandlingIsHarmless(st, Terminated(cs[1..]) + tail, config, done + [Payloads(cs)[0]], cs[1..], tail);
    }
  }

  lemma PayloadsShift(done: seq<Command>, cs: seq<seq<byte>>)
    requires cs != []
    ensures done + [Payloads(cs)[0]] + Payloads(cs[1..]) == done + Payloads(cs)
  {
    assert Payloads(cs)[1..] == Payloads(cs[1..]);
    Shift(done, Payloads(cs));
  }

  /** One call on at most sixteen commands: every field ends as if each command had been handled once, in order; the
      command queue is empty and the unfinished command is still held. */
  lemma CommandsHandledOnce(st: State, w: seq<byte>, cs: seq<seq<byte>>, tail: seq<byte>)
    requires Valid(st) && st.commands.pending == [] && AllPlain(cs) && Plain(tail) && |cs| <= CMD_QUEUE_LENGTH
    requires w == Terminated(cs) + tail && BANG !in w
    ensures Halts(w)
    ensures Run(st, w) == Outcome(WithCommands(st, HandleAll(st.commands.config, Payloads(cs)), []), tail)
  {
    CommandPass(w, cs, tail);
    if cs != [] {
      var config := st.commands.config;
      DrainedPlain(cs, tail, st.commands, CMD_QUEUE_LENGTH);
      assert [] + Payloads(cs) == Payloads(cs);
      var st' := WithCommands(st, HandleAll(config, Payloads(cs)), []);
      assert Perform(st, w, Classify(w)) == st';
      PayloadsShift([], cs);
      assert [] + [Payloads(cs)[0]] == [Payloads(cs)[0]];
      RehandlingIsHarmless(st', Terminated(cs[1..]) + tail, config, [Payloads(cs)[0]], cs[1..], tail);
    }
  }

  // ----- a full command queue -----

  lemma {:induction false} NoRoomNoCommand(input: seq<byte>, text: seq<byte>, reading: bool)
    requires |text| < MAX_CMD_LENGTH && SEMICOLON in input
    ensures SegmentFrom(input, text, reading, 0).rc != 0 && SegmentFrom(input, text, reading, 0).commands == []
    decreases |input|
  {
    var b, rest := input[0], input[1..];
    if b != SEMICOLON {
      assert SEMICOLON in rest;
      if IsBreak(b) {
        if !reading {
          NoRoomNoCommand(rest, [], false);
        }
      } else if |text| < MAX_CMD_LENGTH - 1 {
        NoRoomNoCommand(rest, text + [b], true);
      } else {
        NoRoomNoCommand(rest, [], true);
      }
    }
  }

  /** Once the command queue is full no input whatever drains it, and no later command has an effect: segmentation
      fails before anything is taken out. */
  lemma {:induction false} FullQueueIsForever(st: State, w: seq<byte>)
    requires Valid(st) && Halts(w) && |st.commands.pending| == CMD_QUEUE_LENGTH
    ensures Run(st, w).state.commands == st.commands
    decreases |w|
  {
    var a := Classify(w);
    if !a.Wait? {
      PassKeepsFullQueue(st, w, a);
      FullQueueIsForever(Perform(st, w, a), w[Consumed(a)..]);
    }
  }

  lemma PassKeepsFullQueue(st: State, w: seq<byte>, a: Action)
    requires Valid(st) && a == Classify(w) && |st.commands.pending| == CMD_QUEUE_LENGTH
    ensures Perform(st, w, a).commands == st.commands
  {
    if a.CommandBlock? {
      NoRoomNoCommand(w, [], false);
      assert st.commands.pending + [] == st.commands.pending;
    } else {
      FramesLeaveCommands(st, w, a);
    }
  }

  lemma FramesLeaveCommands(st: State, w: seq<byte>, a: Action)
    requires Valid(st) && a == Classify(w) && !a.CommandBlock?
    ensures Perform(st, w, a).commands == st.commands
  {
    if a.BinaryFrame? {
      EnqueueAllMeaning(st, Segment(FrameOf(w, a).rx, FrameOf(w, a).rxLen).packets);
    }
  }

  /** More than sixteen commands in one window: none of them is ever handled and the queue is full for good. */
  lemma TooManyCommandsJam(st: State, w: seq<byte>, cs: seq<seq<byte>>, tail: seq<byte>)
    requires Valid(st) && st.commands.pending == [] && AllPlain(cs) && Plain(tail) && |cs| > CMD_QUEUE_LENGTH
    requires w == Terminated(cs) + tail && BANG !in w
    ensures Halts(w)
    ensures Run(st, w).state.commands == CommandState(st.commands.config, Payloads(cs)[..CMD_QUEUE_LENGTH])
  {
    NoFooterHalts(w);
    CommandPass(w, cs, tail);
    DrainedPlain(cs, tail, st.commands, CMD_QUEUE_LENGTH);
    assert [] + Payloads(cs)[..CMD_QUEUE_LENGTH] == Payloads(cs)[..CMD_QUEUE_LENGTH];
    var st' := WithCommands(st, st.commands.config, Payloads(cs)[..CMD_QUEUE_LENGTH]);
    assert Perform(st, w, Classify(w)) == st';
    FullQueueIsForever(st', Terminated(cs[1..]) + tail);
  }

  lemma {:induction false} NoFooterHalts(w: seq<byte>)
    requires BANG !in w
    ensures Halts(w)
    decreases |w|
  {
    var a := Classify(w);
    if !a.Wait? {
      NoFooterHalts(w[Consumed(a)..]);
    }
  }

  /** A call on plain commands drains them exactly when at most sixteen share the window. */
  lemma PlainCommandsDrainedIff(st: State, w: seq<byte>, cs: seq<seq<byte>>, tail: seq<byte>)
    requires Valid(st) && st.commands.pending == [] && AllPlain(cs) && Plain(tail)
    requires w == Terminated(cs) + tail && BANG !in w
    ensures Halts(w) && (Run(st, w).state.commands.pending == [] <==> |cs| <= CMD_QUEUE_LENGTH)
  {
    if |cs| <= CMD_QUEUE_LENGTH {
      CommandsHandledOnce(st, w, cs, tail);
    } else {
      TooManyCommandsJam(st, w, cs, tail);
    }
  }

  // ----- a text and its commands -----

  /** The complete commands of a text and what follows the last terminator. */
  function CommandsOf(t: seq<byte>): seq<seq<byte>>
    decreases |t|
  {
    var i := FirstIndex(t, SEMICOLON);
    if i == -1 then [] else [t[..i]] + CommandsOf(t[i + 1..])
  }

  function TailOf(t: seq<byte>): seq<byte>
    decreases |t|
  {
    var i := FirstIndex(t, SEMICOLON);
    if i == -1 then t else TailOf(t[i + 1..])
  }

  /** Every text is its commands, each with its terminator, followed by the rest. */
  lemma {:induction false} TextIsTerminated(t: seq<byte>)
    ensures t == Terminated(CommandsOf(t)) + TailOf(t)
    decreases |t|
  {
    var i := FirstIndex(t, SEMICOLON);
    if i == -1 {
      assert t == [] + t;
    } else {
      var rest := t[i + 1..];
      TextIsTerminated(rest);
      CommandsStep(t, i);
      TailStep(t, i);
      PrependTerminated(t[..i], CommandsOf(rest), TailOf(rest));
      CutAt(t, i);
    }
  }

  lemma PrependTerminated(c: seq<byte>, cs: seq<seq<byte>>, tail: seq<byte>)
    ensures Terminated([c] + cs) + tail == c + ([SEMICOLON] + (Terminated(cs) + tail))
  {
    TerminatedSplit([c] + cs, tail);
    assert ([c] + cs)[1..] == cs;
  }

  lemma {:induction false} CommandsOfAppend(u: seq<byte>, v: seq<byte>)
    ensures CommandsOf(u + v) == CommandsOf(u) + CommandsOf(TailOf(u) + v)
    ensures TailOf(u + v) == TailOf(TailOf(u) + v)
    decreases |u|
  {
    var i := FirstIndex(u, SEMICOLON);
    if i == -1 {
      assert CommandsOf(u) + CommandsOf(u + v) == CommandsOf(u + v);
    } else {
      FirstPrefix(u, v, SEMICOLON);
      CommandsStep(u, i);
      CommandsStep(u + v, i);
      TailStep(u, i);
      TailStep(u + v, i);
      TakeAppend(u, v, i);
      DropAppend(u, v, i + 1);
      CommandsOfAppend(u[i + 1..], v);
      Assoc([u[..i]], CommandsOf(u[i + 1..]), CommandsOf(TailOf(u) + v));
    }
  }

  lemma CommandsStep(t: seq<byte>, i: nat)
    requires FirstIndex(t, SEMICOLON) == i
    ensures CommandsOf(t) == [t[..i]] + CommandsOf(t[i + 1..])
  {
  }

  lemma TailStep(t: seq<byte>, i: nat)
    requires FirstIndex(t, SEMICOLON) == i
    ensures TailOf(t) == TailOf(t[i + 1..])
  {
  }

  lemma {:induction false} TailHasNoTerminator(t: seq<byte>)
    ensures SEMICOLON !in TailOf(t)
    decreases |t|
  {
    var i := FirstIndex(t, SEMICOLON);
    if i >= 0 {
      TailHasNoTerminator(t[i + 1..]);
    }
  }

  /** What follows the last terminator is the end of the text. */
  lemma {:induction false} TailStart(u: seq<byte>) returns (k: nat)
    ensures k <= |u| && TailOf(u) == u[k..]
    ensures k > 0 ==> u[k - 1] == SEMICOLON
    ensures SEMICOLON !in u[k..]
    decreases |u|
  {
    var i := FirstIndex(u, SEMICOLON);
    if i == -1 {
      k := 0;
    } else {
      var j := TailStart(u[i + 1..]);
      TailStep(u, i);
      k := i + 1 + j;
      assert u[i + 1..][j..] == u[k..];
    }
  }

  lemma TailAlone(u: seq<byte>)
    requires SEMICOLON !in u
    ensures TailOf(u) == u
  {
  }

  // ----- commands in front of a frame -----

  /** Commands that share a window with a complete frame behind them are popped unhandled; received in a call of their
      own they are handled. Hence cutting in front of the frame makes no difference exactly when those commands would
      have changed nothing. */
  lemma FrameSwallowsCommands(st: State, cs: seq<seq<byte>>, p: Packet)
    requires Valid(st) && st.commands.pending == [] && IsPacket(p)
    requires AllPlain(cs) && |cs| <= CMD_QUEUE_LENGTH && BANG !in Terminated(cs) && AT !in Terminated(cs)
    ensures Halts(Terminated(cs) + Wire(p)) && Run(st, Terminated(cs) + Wire(p)).state.commands == st.commands
    ensures Halts(Terminated(cs)) && Halts(Wire(p)) && Run(st, Terminated(cs)).rest == []
    ensures Run(Run(st, Terminated(cs)).state, Wire(p)).state.commands
         == CommandState(HandleAll(st.commands.config, Payloads(cs)), [])
    ensures Run(st, Terminated(cs) + Wire(p)).state.commands
         == Run(Run(st, Terminated(cs)).state, Wire(p)).state.commands
       <==> HandleAll(st.commands.config, Payloads(cs)) == st.commands.config
  {
    assert Terminated(cs) + [] == Terminated(cs);
    CommandsHandledOnce(st, Terminated(cs), cs, []);
    WireKeepsCommands(st, Terminated(cs), p);
    WireKeepsCommands(Run(st, Terminated(cs)).state, [], p);
    assert [] + Wire(p) == Wire(p);
  }

  lemma WireLayout(g: seq<byte>, p: Packet)
    ensures g + Wire(p) == g + [COLON] + Base64.Encode(p) + [BANG] + []
  {
  }

  lemma NothingLeft(st: State)
    requires Valid(st)
    ensures Halts([]) && Run(st, []) == Outcome(st, [])
  {
  }

  lemma WireKeepsCommands(st: State, g: seq<byte>, p: Packet)
    requires Valid(st) && IsPacket(p) && BANG !in g && AT !in g
    ensures Halts(g + Wire(p)) && Run(st, g + Wire(p)).state.commands == st.commands
  {
    var w := g + Wire(p);
    WireLayout(g, p);
    var q := EncodedPacketArrives(st, w, g, p, []);
    NothingLeft(Perform(st, w, Classify(w)));
  }

  /** "IX;" sets the device name to "X". */
  function NameCommand(): seq<byte> {
    [73, 88]
  }

  lemma NameCommandSets()
    ensures AllPlain([NameCommand()]) && Terminated([NameCommand()]) == [73, 88, SEMICOLON]
    ensures HandleAll(map[Name := Text([])], Payloads([NameCommand()])) == map[Name := Text([88])]
  {
    var cmd := Payload(NameCommand());
    assert Payloads([NameCommand()]) == [cmd];
    assert cmd[1] == 88 && cmd[2] == NUL;
    assert CString(cmd[1..], 30) == [88] by {
      FirstIndexUnique(cmd[1..][..30], NUL, 1);
    }
    assert Assignment(cmd) == map[Name := Text([88])];
    HandleIsOverwrite(map[Name := Text([])], [cmd]);
  }

  /** A concrete stream that depends on how it is cut: the name is lost in front of a frame, and set when it arrives
      alone. */
  lemma NameIsLost(st: State, p: Packet)
    requires Valid(st) && IsPacket(p) && st.commands == CommandState(map[Name := Text([])], [])
    ensures var t := Terminated([NameCommand()]);
      && Halts(t + Wire(p)) && Run(st, t + Wire(p)).state.commands.config == map[Name := Text([])]
      && Halts(t) && Halts(Wire(p)) && Run(Run(st, t).state, Wire(p)).state.commands.config == map[Name := Text([88])]
  {
    NameCommandSets();
    FrameSwallowsCommands(st, [NameCommand()], p);
  }
}
