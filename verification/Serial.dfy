/** The serial loop as a function of the device state and the window of held bytes. */
module Serial {
  import opened Bytes
  import opened Delimiters
  import opened Packets
  import opened Commands
  import Base64

  /** What the loop reads and writes: the static decode buffer, the packet queue with the latest packet, and the
      command part. log is the history of all packets enqueued so far. */
  datatype State = State(scratch: seq<byte>, queue: seq<Packet>, last: Packet, log: seq<Packet>, commands: CommandState)

  predicate Valid(st: State) {
    && |st.scratch| == MAX_PACKET_LENGTH
    && |st.queue| <= PACKET_QUEUE_LENGTH
    && |st.commands.pending| <= CMD_QUEUE_LENGTH
  }

  /** fs_enqueue_into_packet_queue without a save context */
  function Enqueue(st: State, p: Packet): State {
    st.(queue := LastN(st.queue + [p], PACKET_QUEUE_LENGTH), last := p, log := st.log + [p])
  }

  function EnqueueAll(st: State, ps: seq<Packet>): State
    decreases |ps|
  {
    if ps == [] then st else EnqueueAll(Enqueue(st, ps[0]), ps[1..])
  }

  /** The queue keeps the newest sixteen, the log keeps everything. */
  lemma {:induction false} EnqueueAllMeaning(st: State, ps: seq<Packet>)
    requires |st.queue| <= PACKET_QUEUE_LENGTH
    ensures EnqueueAll(st, ps) == st.(
      queue := LastN(st.queue + ps, PACKET_QUEUE_LENGTH),
      last := if ps == [] then st.last else ps[|ps| - 1],
      log := st.log + ps)
    decreases |ps|
  {
    if ps == [] {
      assert st.queue + ps == st.queue && st.log + ps == st.log;
    } else {
      EnqueueAllMeaning(Enqueue(st, ps[0]), ps[1..]);
      LastNAppend(st.queue + [ps[0]], ps[1..], PACKET_QUEUE_LENGTH);
      Shift(st.queue, ps);
      Shift(st.log, ps);
    }
  }

  // ----- the frames -----

  /** A recognised frame, with the bytes the handlers are given. */
  datatype Frame =
    | Binary(rx: seq<byte>, rxLen: nat)  // rxLen is a size_t and may have wrapped
    | Encoded(text: seq<byte>)           // the C string between ':' and '!'

  /** The frame that ends at the footer w[bang] and starts at the header w[start]. The binary length is computed as
      bang - (start + 1) - 1, so the byte before the footer is not part of the payload. */
  function BinaryAt(w: seq<byte>, start: nat, bang: nat): (f: Frame)
    requires start < bang < |w|
    ensures f.Binary? && (f.rxLen <= MAX_DATA_LENGTH ==> f.rxLen <= |f.rx|)
  {
    var d := bang - (start + 1) - 1;
    Binary(w[start + 1..], if d < 0 then d + SIZE_MODULUS else d)
  }

  function EncodedAt(w: seq<byte>, start: nat, bang: nat): Frame
    requires start < bang < |w|
  {
    Encoded(CString(w[start + 1..bang], MAX_DATA_LENGTH))
  }

  /** base64_to_packet: the decode buffer is checked and enqueued whatever the decoded length was. */
  function AfterDecode(st: State, r: Base64.Decoded): State
    requires |r.buffer| == MAX_PACKET_LENGTH
  {
    var st' := st.(scratch := r.buffer);
    if r.Rejected? || PacketLength(r.buffer[0]) == 0 then st' else Enqueue(st', r.buffer[..UNION_LENGTH])
  }

  predicate WellFormed(f: Frame) {
    f.Binary? && f.rxLen <= MAX_DATA_LENGTH ==> f.rxLen <= |f.rx|
  }

  function Deliver(st: State, f: Frame): (r: State)
    requires Valid(st) && WellFormed(f)
    ensures Valid(r)
  {
    match f
    case Binary(rx, rxLen) =>
      EnqueueAllMeaning(st, Segment(rx, rxLen).packets);
      EnqueueAll(st, Segment(rx, rxLen).packets)
    case Encoded(text) => AfterDecode(st, Base64.Decode(text, st.scratch))
  }

  predicate HangsOn(f: Frame) {
    f.Encoded? && Base64.Hangs(f.text, MAX_PACKET_LENGTH)
  }

  function FrameOf(w: seq<byte>, a: Action): (f: Frame)
    requires IsFrame(a) && a.start < a.bang < |w|
    ensures WellFormed(f)
  {
    if a.BinaryFrame? then BinaryAt(w, a.start, a.bang) else EncodedAt(w, a.start, a.bang)
  }

  // ----- the loop -----

  /** The bytes a pass pops. */
  function Consumed(a: Action): nat {
    match a
    case BinaryFrame(_, bang) => bang + 1
    case Base64Frame(_, bang) => bang + 1
    case CommandBlock(end) => end + 1
    case Wait => 0
  }

  /** Every pass of the loop on this window returns. */
  predicate Halts(w: seq<byte>)
    decreases |w|
  {
    var a := Classify(w);
    a.Wait? || (!(IsFrame(a) && HangsOn(FrameOf(w, a))) && Halts(w[Consumed(a)..]))
  }

  /** What one pass does to the state. The command handler is given the whole window. */
  function Perform(st: State, w: seq<byte>, a: Action): (r: State)
    requires Valid(st) && a == Classify(w)
    ensures Valid(r)
  {
    if IsFrame(a) then Deliver(st, FrameOf(w, a))
    else if a.CommandBlock? then st.(commands := Receive(st.commands, w))
    else st
  }

  datatype Outcome = Outcome(state: State, rest: seq<byte>)

  /** fs_device_process_packets_serial after the push: passes until no complete segment is left. */
  function Run(st: State, w: seq<byte>): (r: Outcome)
    requires Valid(st) && Halts(w)
    ensures Valid(r.state) && |r.rest| <= |w|
    decreases |w|
  {
    var a := Classify(w);
    if a.Wait? then Outcome(st, w) else Run(Perform(st, w, a), w[Consumed(a)..])
  }

  /** One turn of the loop. */
  lemma RunStep(st: State, w: seq<byte>, a: Action)
    requires Valid(st) && Halts(w) && a == Classify(w)
    ensures a.Wait? <==> Consumed(a) == 0
    ensures Consumed(a) <= |w| && Halts(w[Consumed(a)..])
    ensures a.Wait? ==> Run(st, w) == Outcome(st, w)
    ensures w == [] ==> a.Wait?
    ensures !a.Wait? ==> Run(st, w) == Run(Perform(st, w, a), w[Consumed(a)..])
  {
  }

  /** The number of passes that pop. */
  function Passes(w: seq<byte>): (n: nat)
    ensures n <= |w|
    decreases |w|
  {
    var a := Classify(w);
    if a.Wait? then 0 else 1 + Passes(w[Consumed(a)..])
  }

  // ----- termination and conservation -----

  /** Without '=' no call can loop forever. */
  lemma {:induction false} NoEqualsHalts(w: seq<byte>)
    requires EQUALS !in w
    ensures Halts(w)
    decreases |w|
  {
    var a := Classify(w);
    if !a.Wait? {
      NoEqualsHalts(w[Consumed(a)..]);
      if a.Base64Frame? {
        assert EQUALS !in EncodedAt(w, a.start, a.bang).text;
      }
    }
  }

  /** What is left is the end of the window: bytes in = bytes popped + bytes held, in order. */
  lemma {:induction false} RestIsSuffix(st: State, w: seq<byte>) returns (popped: nat)
    requires Valid(st) && Halts(w)
    ensures popped <= |w| && Run(st, w).rest == w[popped..]
    ensures Passes(w) <= popped
    ensures Classify(Run(st, w).rest).Wait?
    decreases |w|
  {
    var a := Classify(w);
    if a.Wait? {
      popped := 0;
    } else {
      var k := RestIsSuffix(Perform(st, w, a), w[Consumed(a)..]);
      DropTwice(w, Consumed(a), k);
      popped := Consumed(a) + k;
    }
  }

  /** r is st after news have been enqueued: the log has them all, the queue the newest sixteen packets, and the
      latest packet is the newest. */
  predicate Grew(st: State, r: State, news: seq<Packet>) {
    && r.log == st.log + news
    && r.queue == LastN(st.queue + news, PACKET_QUEUE_LENGTH)
    && r.last == if news == [] then st.last else news[|news| - 1]
  }

  lemma GrewTwice(a: State, b: State, c: State, first: seq<Packet>, more: seq<Packet>)
    requires Grew(a, b, first) && Grew(b, c, more)
    ensures Grew(a, c, first + more)
  {
    LastNAppend(a.queue + first, more, PACKET_QUEUE_LENGTH);
    Assoc(a.queue, first, more);
    Assoc(a.log, first, more);
  }

  lemma GrewNothing(st: State)
    requires |st.queue| <= PACKET_QUEUE_LENGTH
    ensures Grew(st, st, [])
  {
    assert st.log + [] == st.log && st.queue + [] == st.queue;
  }

  lemma PassGrows(st: State, w: seq<byte>, a: Action) returns (news: seq<Packet>)
    requires Valid(st) && a == Classify(w)
    ensures Grew(st, Perform(st, w, a), news)
  {
    GrewNothing(st);
    news := [];
    if a.BinaryFrame? {
      var f := FrameOf(w, a);
      news := Segment(f.rx, f.rxLen).packets;
      EnqueueAllMeaning(st, news);
    } else if a.Base64Frame? {
      var r := Base64.Decode(FrameOf(w, a).text, st.scratch);
      news := if r.Rejected? || PacketLength(r.buffer[0]) == 0 then [] else [r.buffer[..UNION_LENGTH]];
    }
  }

  /** Over a whole call the queue and the latest packet follow what was enqueued. */
  lemma {:induction false} QueueFollowsLog(st: State, w: seq<byte>) returns (news: seq<Packet>)
    requires Valid(st) && Halts(w)
    ensures Grew(st, Run(st, w).state, news)
    decreases |w|
  {
    var a := Classify(w);
    if a.Wait? {
      GrewNothing(st);
      news := [];
    } else {
      var st' := Perform(st, w, a);
      var first := PassGrows(st, w, a);
      var more := QueueFollowsLog(st', w[Consumed(a)..]);
      GrewTwice(st, st', Run(st, w).state, first, more);
      news := first + more;
    }
  }
}
