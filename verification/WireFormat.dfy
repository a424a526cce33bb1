/** Packets on the wire, byte values written out: what one call does on a single frame of each packet family. */
module WireFormat {
  import opened Bytes
  import opened Delimiters
  import opened Packets
  import opened PacketLayouts
  import opened Serial
  import opened SerialStream
  import opened BinaryFrames
  import Base64

  /** The queue of sixteen with one packet more. */
  function Queued(queue: seq<Packet>, p: Packet): seq<Packet> {
    if |queue| < 16 then queue + [p] else queue[|queue| - 15..] + [p]
  }

  lemma QueuedIs(queue: seq<Packet>, p: Packet)
    ensures LastN(queue + [p], 16) == Queued(queue, p)
  {
  }

  /** '@', a packet without '!' and '@', one more such byte, '!': the packet is queued as it is, and nothing is left. */
  lemma BinaryPacketArrives(st: State, p: seq<byte>, x: byte)
    requires Valid(st) && InFamily(p) && 33 !in p + [x] && 64 !in p + [x]
    ensures var w := [64] + (p + [x]) + [33]; Halts(w) && var r := Run(st, w);
      r.rest == [] && r.state == st.(queue := Queued(st.queue, p), last := p, log := st.log + [p])
  {
    hide Run, Classify, Halts;
    var w := [64] + (p + [x]) + [33];
    ConcatOne(p);
    assert w == [] + [AT] + (Concat([p]) + [x]) + [BANG] + [];
    BinaryFrameArrives(st, w, [], [p], x, []);
    FrameWithin(w, [], p + [x], []);
    SingleFrame(st, w, Classify(w));
    EnqueueAllMeaning(st, [p]);
    QueuedIs(st.queue, p);
  }

  /** ':', a packet in Base64, '!': one packet is queued, it starts with the bytes of the packet, and nothing is
      left. */
  lemma EncodedPacketIsQueued(st: State, p: seq<byte>) returns (q: Packet)
    requires Valid(st) && InFamily(p)
    ensures |p| <= |q| && q[..|p|] == p
    ensures var w := [58] + Base64.Encode(p) + [33]; Halts(w) && var r := Run(st, w);
      && r.rest == [] && r.state.queue == Queued(st.queue, q) && r.state.last == q && r.state.log == st.log + [q]
      && r.state.commands == st.commands
  {
    hide Run, Classify, Halts, Base64.Encode;
    var w := [58] + Base64.Encode(p) + [33];
    assert w == [] + [COLON] + Base64.Encode(p) + [BANG] + [];
    q := EncodedPacketArrives(st, w, [], p, []);
    SingleFrame(st, w, Classify(w));
    QueuedIs(st.queue, q);
  }

  /** Bytes that hold neither a footer nor a terminator are held, the last 512 of them. */
  lemma RingKeepsNewest(st: State, chunk: seq<byte>)
    requires Valid(st) && 33 !in chunk && 59 !in chunk
    ensures FeedHalts([], [chunk])
    ensures Feed(st, [], [chunk])
         == Outcome(st, if |chunk| <= 512 then chunk else chunk[|chunk| - 512..])
  {
    var w := LastN([] + chunk, 512);
    assert [] + chunk == chunk;
    assert BANG !in w && SEMICOLON !in w;
    assert Classify(w).Wait?;
    assert [chunk][1..] == [];
    RunStep(st, w, Wait);
  }
}
