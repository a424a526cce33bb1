/** The command state machine (fs_segment_commands) and the effect of received commands (fs_handle_received_commands).
    */
module Commands {
  import opened Bytes
  import opened Numbers

  const MAX_CMD_LENGTH: nat := 256  // FS_MAX_CMD_LENGTH
  const CMD_QUEUE_LENGTH: nat := 16 // FS_MAX_CMD_QUEUE_LENGTH

  /** The payload array of fs_command_info_t. */
  type Command = c: seq<byte> | |c| == MAX_CMD_LENGTH && c[MAX_CMD_LENGTH - 1] == NUL
    witness seq(MAX_CMD_LENGTH, _ => NUL)

  predicate IsBreak(b: byte) {
    b == LF || b == CR || b == NUL
  }

  predicate IsPlain(b: byte) {
    b != SEMICOLON && !IsBreak(b)
  }

  predicate Plain(t: seq<byte>) {
    forall k :: 0 <= k < |t| ==> IsPlain(t[k])
  }

  function Payload(text: seq<byte>): Command
    requires |text| < MAX_CMD_LENGTH
  {
    text + seq(MAX_CMD_LENGTH - |text|, _ => NUL)
  }

  // ----- segmentation -----

  datatype Segmented = Segmented(rc: int, commands: seq<Command>)

  function Prepend(c: Command, r: Segmented): Segmented {
    Segmented(r.rc, [c] + r.commands)
  }

  /** The scan from a byte on: text is what has been collected, reading tells READING from WAITING,
      free is the room left in the command queue. */
  function SegmentFrom(input: seq<byte>, text: seq<byte>, reading: bool, free: nat): (r: Segmented)
    requires |text| < MAX_CMD_LENGTH
    ensures |r.commands| <= free
    decreases |input|
  {
    if input == [] then Segmented(0, [])
    else
      var b, rest := input[0], input[1..];
      if b == SEMICOLON then
        if free == 0 then Segmented(-1, [])
        else Prepend(Payload(text), SegmentFrom(rest, [], false, free - 1))
      else if IsBreak(b) then
        if reading then Segmented(3, []) else SegmentFrom(rest, [], false, free)
      else if |text| < MAX_CMD_LENGTH - 1 then SegmentFrom(rest, text + [b], true, free)
      else SegmentFrom(rest, [], true, free)
  }

  /** What is kept of a command: the collector starts over at every 256th character and loses that character. */
  function Kept(t: seq<byte>): (r: seq<byte>)
    ensures |r| == |t| % MAX_CMD_LENGTH
    ensures |t| < MAX_CMD_LENGTH ==> r == t
  {
    LastN(t, |t| % MAX_CMD_LENGTH)
  }

  lemma KeptStep(t: seq<byte>, b: byte)
    ensures Kept(t + [b]) == if |Kept(t)| < MAX_CMD_LENGTH - 1 then Kept(t) + [b] else []
  {
  }

  /** Plain characters only move the collector. */
  lemma {:induction false} PlainIsCollected(seen: seq<byte>, c: seq<byte>, rest: seq<byte>, reading: bool, free: nat)
    requires Plain(c)
    ensures SegmentFrom(c + rest, Kept(seen), reading, free)
         == SegmentFrom(rest, Kept(seen + c), reading || c != [], free)
    decreases |c|
  {
    if c == [] {
      assert c + rest == rest && seen + c == seen;
    } else {
      var input := c + rest;
      assert input[0] == c[0] && input[1..] == c[1..] + rest;
      KeptStep(seen, c[0]);
      PlainIsCollected(seen + [c[0]], c[1..], rest, true, free);
      Shift(seen, c);
    }
  }

  /** The wire form: every command followed by its terminator. */
  function Terminated(cs: seq<seq<byte>>): seq<byte> {
    if cs == [] then [] else cs[0] + [SEMICOLON] + Terminated(cs[1..])
  }

  function Payloads(cs: seq<seq<byte>>): (r: seq<Command>)
    ensures |r| == |cs|
  {
    seq(|cs|, i requires 0 <= i < |cs| => Payload(Kept(cs[i])))
  }

  lemma TerminatedSplit(cs: seq<seq<byte>>, tail: seq<byte>)
    requires cs != []
    ensures Terminated(cs) + tail == cs[0] + ([SEMICOLON] + (Terminated(cs[1..]) + tail))
  {
    Assoc(cs[0], [SEMICOLON], Terminated(cs[1..]));
    Assoc(cs[0], [SEMICOLON] + Terminated(cs[1..]), tail);
    Assoc([SEMICOLON], Terminated(cs[1..]), tail);
  }

  /** fs_segment_commands up to the queue: what is enqueued and the return value. */
  function Segmentation(input: seq<byte>, free: nat): Segmented {
    SegmentFrom(input, [], false, free)
  }

  // ----- line breaks and room: every input -----

  /** What the scan finds when the queue has room for everything. */
  function Found(input: seq<byte>): Segmented {
    SegmentFrom(input, [], false, |input|)
  }

  predicate BreaksAt(t: seq<byte>, i: int) {
    0 < i < |t| && IsPlain(t[i - 1]) && IsBreak(t[i])
  }

  /** A line break or NUL directly behind a character of a command. */
  predicate MidBreak(t: seq<byte>) {
    exists i | 0 <= i < |t| :: BreaksAt(t, i)
  }

  lemma MidBreakStep(b: byte, t: seq<byte>)
    ensures MidBreak([b] + t) <==> (t != [] && IsPlain(b) && IsBreak(t[0])) || MidBreak(t)
  {
    var w := [b] + t;
    if i :| 0 <= i < |w| && BreaksAt(w, i) {
      assert i > 1 ==> BreaksAt(t, i - 1);
    }
    if t != [] && IsPlain(b) && IsBreak(t[0]) {
      assert BreaksAt(w, 1);
    }
    if i :| 0 <= i < |t| && BreaksAt(t, i) {
      assert BreaksAt(w, i + 1);
    }
  }

  /** Room only cuts off: with less of it exactly the first commands are enqueued, and the failure is reported. */
  lemma {:induction false} RoomDecides(input: seq<byte>, text: seq<byte>, reading: bool, free: nat, big: nat)
    requires |text| < MAX_CMD_LENGTH && |input| <= big
    ensures var all := SegmentFrom(input, text, reading, big);
      && (|all.commands| <= free ==> SegmentFrom(input, text, reading, free) == all)
      && (|all.commands| > free ==> SegmentFrom(input, text, reading, free) == Segmented(-1, all.commands[..free]))
    decreases |input|
  {
    if input != [] {
      var b, rest := input[0], input[1..];
      if b == SEMICOLON {
        if free > 0 {
          RoomDecides(rest, [], false, free - 1, big - 1);
          PrependTake(Payload(text), SegmentFrom(rest, [], false, big - 1), free);
        } else {
          assert SegmentFrom(input, text, reading, big).commands[..0] == [];
        }
      } else if IsBreak(b) {
        if !reading {
          RoomDecides(rest, [], false, free, big);
        }
      } else if |text| < MAX_CMD_LENGTH - 1 {
        RoomDecides(rest, text + [b], true, free, big);
      } else {
        RoomDecides(rest, [], true, free, big);
      }
    }
  }

  lemma PrependTake(c: Command, r: Segmented, free: nat)
    requires free > 0
    ensures free <= |r.commands| + 1 ==> Prepend(c, r).commands[..free] == [c] + r.commands[..free - 1]
  {
  }

  /** The scan is broken off exactly by a break behind a character of a command. */
  lemma {:induction false} BrokenOffIff(input: seq<byte>, text: seq<byte>, reading: bool, big: nat)
    requires |text| < MAX_CMD_LENGTH && |input| <= big
    ensures var all := SegmentFrom(input, text, reading, big);
      && (all.rc == 0 || all.rc == 3)
      && (all.rc == 3 <==> (reading && input != [] && IsBreak(input[0])) || MidBreak(input))
    decreases |input|
  {
    if input != [] {
      var b, rest := input[0], input[1..];
      HeadTail(input);
      MidBreakStep(b, rest);
      if b == SEMICOLON {
        BrokenOffIff(rest, [], false, big - 1);
      } else if IsBreak(b) {
        if !reading {
          BrokenOffIff(rest, [], false, big);
        }
      } else if |text| < MAX_CMD_LENGTH - 1 {
        BrokenOffIff(rest, text + [b], true, big);
      } else {
        BrokenOffIff(rest, [], true, big);
      }
    }
  }

  /** Up to the first terminator the scan is either broken off or collects one command; it then starts afresh. */
  lemma {:induction false} FirstTerminator(input: seq<byte>, text: seq<byte>, reading: bool, big: nat, i: nat)
    requires |text| < MAX_CMD_LENGTH && |input| <= big && i == FirstIndex(input, SEMICOLON)
    ensures var all := SegmentFrom(input, text, reading, big);
      || all == Segmented(3, [])
      || (all.commands != [] && all == Prepend(all.commands[0], Found(input[i + 1..])))
    decreases |input|
  {
    var b, rest := input[0], input[1..];
    if b == SEMICOLON {
      FirstIndexUnique(input, SEMICOLON, 0);
      RoomDecides(rest, [], false, big - 1, |rest|);
      assert input[i + 1..] == rest;
      assert SegmentFrom(input, text, reading, big) == Prepend(Payload(text), Found(rest));
    } else {
      FirstIndexUnique(rest, SEMICOLON, i - 1);
      DropTwice(input, 1, i);
      if IsBreak(b) {
        if !reading {
          FirstTerminator(rest, [], false, big, i - 1);
        }
      } else if |text| < MAX_CMD_LENGTH - 1 {
        FirstTerminator(rest, text + [b], true, big, i - 1);
      } else {
        FirstTerminator(rest, [], true, big, i - 1);
      }
    }
  }

  /** A command as it may arrive: breaks only in front of it. */
  predicate IsCommandLine(c: seq<byte>) {
    SEMICOLON !in c && !MidBreak(c)
  }

  function Strip(c: seq<byte>): seq<byte> {
    if c != [] && IsBreak(c[0]) then Strip(c[1..]) else c
  }

  lemma {:induction false} LineIsPlain(c: seq<byte>)
    requires IsCommandLine(c) && c != [] && IsPlain(c[0])
    ensures Plain(c)
  {
    HeadTail(c);
    MidBreakStep(c[0], c[1..]);
    if |c| > 1 {
      assert c[1] in c;
      LineIsPlain(c[1..]);
      assert forall k :: 0 < k < |c| ==> c[k] == c[1..][k - 1];
    }
  }

  /** Breaks in front of a command leave no trace. */
  lemma {:induction false} LineIsCollected(c: seq<byte>, rest: seq<byte>, free: nat)
    requires IsCommandLine(c)
    ensures SegmentFrom(c + rest, [], false, free) == SegmentFrom(rest, Kept(Strip(c)), Strip(c) != [], free)
    decreases |c|
  {
    if c == [] {
      assert c + rest == rest && Kept([]) == [];
    } else {
      assert c[0] in c;
      if IsBreak(c[0]) {
        HeadTail(c);
        MidBreakStep(c[0], c[1..]);
        DropAppend(c, rest, 1);
        LineIsCollected(c[1..], rest, free);
      } else {
        LineIsPlain(c);
        PlainIsCollected([], c, rest, false, free);
        assert [] + c == c && Kept([]) == [];
      }
    }
  }

  function Stripped(cs: seq<seq<byte>>): (r: seq<seq<byte>>)
    ensures |r| == |cs|
  {
    seq(|cs|, i requires 0 <= i < |cs| => Strip(cs[i]))
  }

  predicate AreCommandLines(cs: seq<seq<byte>>) {
    forall i :: 0 <= i < |cs| ==> IsCommandLine(cs[i])
  }

  /** Framing with breaks between the commands: they come out as without them, and the scan goes on behind. */
  lemma {:induction false} LineFraming(cs: seq<seq<byte>>, tail: seq<byte>, big: nat)
    requires AreCommandLines(cs) && |Terminated(cs) + tail| <= big
    ensures SegmentFrom(Terminated(cs) + tail, [], false, big)
         == Segmented(Found(tail).rc, Payloads(Stripped(cs)) + Found(tail).commands)
    decreases |cs|
  {
    if cs == [] {
      assert Terminated(cs) + tail == tail;
      RoomDecides(tail, [], false, big, |tail|);
      assert Payloads(Stripped(cs)) == [];
      assert [] + Found(tail).commands == Found(tail).commands;
    } else {
      var rest := Terminated(cs[1..]) + tail;
      var afterText := [SEMICOLON] + rest;
      TerminatedSplit(cs, tail);
      LineIsCollected(cs[0], afterText, big);
      assert afterText[1..] == rest;
      LineFraming(cs[1..], tail, big - 1);
      PayloadsCons(cs);
      Assoc([Payload(Kept(Strip(cs[0])))], Payloads(Stripped(cs[1..])), Found(tail).commands);
    }
  }

  lemma PayloadsCons(cs: seq<seq<byte>>)
    requires cs != []
    ensures Payloads(Stripped(cs)) == [Payload(Kept(Strip(cs[0])))] + Payloads(Stripped(cs[1..]))
  {
    assert Stripped(cs)[1..] == Stripped(cs[1..]);
    assert Payloads(Stripped(cs))[1..] == Payloads(Stripped(cs)[1..]);
    HeadTail(Payloads(Stripped(cs)));
  }

  /** Framing round trip: with room for all, exactly the commands come out in order (the last n mod 256 bytes of a
      command of n bytes, without breaks in front of it); otherwise exactly as many as fit, and the failure is
      reported. */
  lemma FramingRoundTrip(cs: seq<seq<byte>>, tail: seq<byte>, free: nat)
    requires AreCommandLines(cs) && IsCommandLine(tail)
    ensures |cs| <= free ==> Segmentation(Terminated(cs) + tail, free) == Segmented(0, Payloads(Stripped(cs)))
    ensures |cs| > free ==>
      Segmentation(Terminated(cs) + tail, free) == Segmented(-1, Payloads(Stripped(cs))[..free])
  {
    var w := Terminated(cs) + tail;
    LineFraming(cs, tail, |w|);
    TailFindsNothing(tail);
    assert Payloads(Stripped(cs)) + [] == Payloads(Stripped(cs));
    RoomDecides(w, [], false, free, |w|);
  }

  lemma TailFindsNothing(tail: seq<byte>)
    requires IsCommandLine(tail)
    ensures Found(tail) == Segmented(0, [])
  {
    LineIsCollected(tail, [], |tail|);
    assert tail + [] == tail;
  }

  lemma {:induction false} PlainIsLine(c: seq<byte>)
    requires Plain(c)
    ensures IsCommandLine(c) && Strip(c) == c
  {
    assert c != [] ==> IsPlain(c[0]);
  }

  lemma PlainAreLines(cs: seq<seq<byte>>)
    requires forall i :: 0 <= i < |cs| ==> Plain(cs[i])
    ensures AreCommandLines(cs) && Stripped(cs) == cs
  {
    forall i | 0 <= i < |cs| ensures IsCommandLine(cs[i]) && Strip(cs[i]) == cs[i] {
      PlainIsLine(cs[i]);
    }
  }

  // ----- effect of a command -----

  datatype Field =
    | Name | Firmware | Description | SerialNumber | Model // device_descriptor
    | Ssid | SsidAp | PasswordAp | Baudrate | Interfaces   // device_params

  datatype Value = Text(text: seq<byte>) | Number(number: int)

  type Config = map<Field, Value>

  /** The character buffer of a text field. */
  function FieldSize(f: Field): nat {
    match f
    case Description => 64
    case PasswordAp => 64
    case _ => 32
  }

  /** The field that a command character names, if it is one that is stored as text. */
  function TextField(c: byte): map<byte, Field>
    ensures TextField(c).Keys <= {c}
  {
    if c == 73 then map[c := Name]               // 'I'
    else if c == 102 then map[c := Firmware]     // 'f'
    else if c == 100 then map[c := Description]  // 'd'
    else if c == 112 then map[c := SerialNumber] // 'p'
    else if c == 109 then map[c := Model]        // 'm'
    else if c == 115 then map[c := Ssid]         // 's'
    else if c == 49 then map[c := SsidAp]        // '1'
    else if c == 51 then map[c := PasswordAp]    // '3'
    else map[]
  }

  /** The field a command assigns and the value it assigns; no field for other or invalid commands. */
  function Assignment(cmd: Command): Config {
    var c, params := cmd[0], cmd[1..];
    var fields := TextField(c);
    if c in fields then map[fields[c] := Text(CString(params, FieldSize(fields[c]) - 2))]
    else if c == 98 then // 'b'
      var baud := Atoi(CString(params, MAX_CMD_LENGTH));
      if baud > 0 then map[Baudrate := Number(baud)] else map[]
    else if c == 116 then map[Interfaces := Number(Atoi(CString(params, MAX_CMD_LENGTH)))] // 't'
    else map[]
  }

  lemma AssignsNumber(cmd: Command)
    requires cmd[0] == 98 || cmd[0] == 116
    ensures var n := Atoi(CString(cmd[1..], MAX_CMD_LENGTH));
      Assignment(cmd) == if cmd[0] == 116 then map[Interfaces := Number(n)]
                         else if n > 0 then map[Baudrate := Number(n)] else map[]
  {
    hide Atoi, CString;
  }

  lemma NoOverwrite(config: Config)
    ensures config + map[] == config
  {
  }

  function HandleAll(config: Config, cmds: seq<Command>): Config
    decreases |cmds|
  {
    if cmds == [] then config else HandleAll(config + Assignment(cmds[0]), cmds[1..])
  }

  function Assignments(cmds: seq<Command>): Config {
    if cmds == [] then map[] else Assignment(cmds[0]) + Assignments(cmds[1..])
  }

  /** Handling a list is one overwrite by what the list assigns last, field by field. */
  lemma {:induction false} HandleIsOverwrite(config: Config, cmds: seq<Command>)
    ensures HandleAll(config, cmds) == config + Assignments(cmds)
    decreases |cmds|
  {
    hide Assignment;
    if cmds != [] {
      HandleIsOverwrite(config + Assignment(cmds[0]), cmds[1..]);
      assert config + Assignment(cmds[0]) + Assignments(cmds[1..]) == config + Assignments(cmds);
    }
  }

  lemma {:induction false} HandleAppend(config: Config, a: seq<Command>, b: seq<Command>)
    ensures HandleAll(config, a + b) == HandleAll(HandleAll(config, a), b)
    decreases |a|
  {
    if a == [] {
      assert a + b == b;
    } else {
      DropAppend(a, b, 1);
      HandleAppend(config + Assignment(a[0]), a[1..], b);
    }
  }

  /** Handling the end of a list a second time changes nothing. */
  lemma HandleAgain(config: Config, a: seq<Command>, b: seq<Command>)
    ensures HandleAll(HandleAll(config, a + b), b) == HandleAll(config, a + b)
  {
    HandleAppend(config, a, b);
    var c := HandleAll(config, a);
    HandleIsOverwrite(c, b);
    HandleIsOverwrite(c + Assignments(b), b);
    assert c + Assignments(b) + Assignments(b) == c + Assignments(b);
  }

  /** The command part of a device: its fields and the commands waiting in the queue. */
  datatype CommandState = CommandState(config: Config, pending: seq<Command>)

  /** After segmentation: a failure returns before the queue is drained. */
  function Absorb(st: CommandState, r: Segmented): CommandState {
    if r.rc != 0 then CommandState(st.config, st.pending + r.commands)
    else CommandState(HandleAll(st.config, st.pending + r.commands), [])
  }

  /** fs_handle_received_commands */
  function Receive(st: CommandState, input: seq<byte>): (r: CommandState)
    requires |st.pending| <= CMD_QUEUE_LENGTH
    ensures |r.pending| <= CMD_QUEUE_LENGTH
  {
    Absorb(st, Segmentation(input, CMD_QUEUE_LENGTH - |st.pending|))
  }

  /** What a call does on every buffer: all its commands are handled, together with those that were waiting, when none
      is broken off and all fit; otherwise nothing is handled, and what fits is left waiting. */
  lemma DrainedIff(st: CommandState, input: seq<byte>)
    requires |st.pending| <= CMD_QUEUE_LENGTH
    ensures var all, free := Found(input), CMD_QUEUE_LENGTH - |st.pending|;
      && (all.rc == 3 <==> MidBreak(input)) && (all.rc == 0 <==> !MidBreak(input))
      && (all.rc == 0 && |all.commands| <= free ==>
            Receive(st, input) == CommandState(HandleAll(st.config, st.pending + all.commands), []))
      && (all.rc == 3 || |all.commands| > free ==>
            Receive(st, input) == CommandState(st.config, st.pending + all.commands[..Min(|all.commands|, free)]))
  {
    RoomDecides(input, [], false, CMD_QUEUE_LENGTH - |st.pending|, |input|);
    BrokenOffIff(input, [], false, |input|);
    TakeAll(Found(input).commands, |Found(input).commands|);
  }

  /** The same for a buffer of plain commands. */
  lemma DrainedPlain(cs: seq<seq<byte>>, tail: seq<byte>, st: CommandState, free: nat)
    requires Plain(tail) && forall i :: 0 <= i < |cs| ==> Plain(cs[i])
    requires |st.pending| + free == CMD_QUEUE_LENGTH
    ensures |cs| <= free ==>
      Receive(st, Terminated(cs) + tail) == CommandState(HandleAll(st.config, st.pending + Payloads(cs)), [])
    ensures |cs| > free ==>
      Receive(st, Terminated(cs) + tail) == CommandState(st.config, st.pending + Payloads(cs)[..free])
  {
    PlainAreLines(cs);
    PlainIsLine(tail);
    FramingRoundTrip(cs, tail, free);
  }
}
