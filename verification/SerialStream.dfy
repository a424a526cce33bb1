/** What the serial loop does over whole streams, however the bytes are cut into calls. */
module SerialStream {
  import opened Bytes
  import opened Delimiters
  import opened Packets
  import opened Commands
  import opened Serial
  import Base64

  // ----- streams cut into chunks -----

  /** The bytes a call leaves in the ring. They do not depend on the state. */
  function RestOf(w: seq<byte>): (r: seq<byte>)
    ensures |r| <= |w|
    decreases |w|
  {
    var a := Classify(w);
    if a.Wait? then w else RestOf(w[Consumed(a)..])
  }

  lemma {:induction false} RestIsRestOf(st: State, w: seq<byte>)
    requires Valid(st) && Halts(w)
    ensures Run(st, w).rest == RestOf(w) && Classify(RestOf(w)).Wait?
    decreases |w|
  {
    var a := Classify(w);
    if !a.Wait? {
      RestIsRestOf(Perform(st, w, a), w[Consumed(a)..]);
    }
  }

  predicate FeedHalts(held: seq<byte>, chunks: seq<seq<byte>>)
    decreases |chunks|
  {
    chunks == [] ||
    var w := LastN(held + chunks[0], MAX_DATA_LENGTH);
    Halts(w) && FeedHalts(RestOf(w), chunks[1..])
  }

  /** One call per chunk, on a ring that holds held; the ring overwrites its oldest bytes when it overflows. */
  function Feed(st: State, held: seq<byte>, chunks: seq<seq<byte>>): (r: Outcome)
    requires Valid(st) && FeedHalts(held, chunks)
    ensures Valid(r.state)
    decreases |chunks|
  {
    if chunks == [] then Outcome(st, held)
    else
      var w := LastN(held + chunks[0], MAX_DATA_LENGTH);
      RestIsRestOf(st, w);
      var r := Run(st, w);
      Feed(r.state, r.rest, chunks[1..])
  }

  /** What one call leaves is the end of what was held and what came in. */
  lemma CallKeepsEnd(st: State, all: seq<byte>) returns (gone: nat)
    requires Valid(st) && Halts(LastN(all, MAX_DATA_LENGTH))
    ensures gone <= |all| && RestOf(LastN(all, MAX_DATA_LENGTH)) == all[gone..]
  {
    var w := LastN(all, MAX_DATA_LENGTH);
    var popped := RestIsSuffix(st, w);
    RestIsRestOf(st, w);
    DropTwice(all, |all| - |w|, popped);
    gone := |all| - |w| + popped;
  }

  lemma EndOfEnd(all: seq<byte>, later: seq<byte>, first: nat, more: nat)
    requires first <= |all| && more <= |all[first..] + later|
    ensures (all[first..] + later)[more..] == (all + later)[first + more..]
  {
    DropAppend(all, later, first);
    DropTwice(all + later, first, more);
  }

  /** Conservation: over any run, overflow or not, what the ring holds is the end of everything that was fed. Bytes
      leave only at the front, popped or overwritten. */
  lemma {:induction false} HeldIsEndOfStream(st: State, held: seq<byte>, chunks: seq<seq<byte>>) returns (gone: nat)
    requires Valid(st) && FeedHalts(held, chunks)
    ensures gone <= |held + Concat(chunks)| && Feed(st, held, chunks).rest == (held + Concat(chunks))[gone..]
    decreases |chunks|
  {
    if chunks == [] {
      gone := 0;
      assert held + [] == held;
    } else {
      var all, later := held + chunks[0], Concat(chunks[1..]);
      var w := LastN(all, MAX_DATA_LENGTH);
      RestIsRestOf(st, w);
      var first := CallKeepsEnd(st, all);
      var more := HeldIsEndOfStream(Run(st, w).state, RestOf(w), chunks[1..]);
      Assoc(held, chunks[0], later);
      EndOfEnd(all, later, first, more);
      gone := first + more;
    }
  }

  /** No chunk makes the ring overflow. */
  predicate Fits(held: seq<byte>, chunks: seq<seq<byte>>)
    decreases |chunks|
  {
    chunks == [] || (|held + chunks[0]| <= MAX_DATA_LENGTH && Fits(RestOf(held + chunks[0]), chunks[1..]))
  }

  // ----- the reference parser -----

  /** A segment of the stream between a header and the next footer. */
  datatype Body = BinaryBody(body: seq<byte>) | EncodedBody(body: seq<byte>)

  datatype Piece = NoPiece | Piece(body: Body, later: seq<byte>)

  /** The stream is cut at its footers. A piece must contain a header; its body starts behind the last '@', or else
      behind the last ':'. */
  function NextPiece(s: seq<byte>): (p: Piece)
    ensures p.Piece? ==> |p.later| < |s|
  {
    var e := FirstIndex(s, BANG);
    if e == -1 then NoPiece
    else
      var front, later := s[..e], s[e + 1..];
      if AT in front then Piece(BinaryBody(front[LastIndex(front, AT) + 1..]), later)
      else if COLON in front then Piece(EncodedBody(front[LastIndex(front, COLON) + 1..]), later)
      else NoPiece
  }

  datatype Parsed = Parsed(bodies: seq<Body>, rest: seq<byte>)

  /** All pieces from the front; the first one without a header stops the parser for good. */
  function Parse(s: seq<byte>): (r: Parsed)
    decreases |s|
  {
    match NextPiece(s)
    case NoPiece => Parsed([], s)
    case Piece(body, later) => var r := Parse(later); Parsed([body] + r.bodies, r.rest)
  }

  /** A binary body delivers the complete packets in front of its last byte; an encoded body what it decodes to. */
  function DeliverBody(st: State, b: Body): (r: State)
    requires Valid(st)
    ensures Valid(r)
  {
    match b
    case BinaryBody(body) =>
      if 2 <= |body| <= MAX_DATA_LENGTH + 1 then
        var ps := SplitFrom(body[..|body| - 1], []).packets;
        EnqueueAllMeaning(st, ps);
        EnqueueAll(st, ps)
      else st
    case EncodedBody(body) => AfterDecode(st, Base64.Decode(CString(body, MAX_DATA_LENGTH), st.scratch))
  }

  function DeliverBodies(st: State, bs: seq<Body>): (r: State)
    requires Valid(st)
    ensures Valid(r)
    decreases |bs|
  {
    if bs == [] then st else DeliverBodies(DeliverBody(st, bs[0]), bs[1..])
  }

  /** The handlers of the code, with their index arithmetic, see exactly the bodies. */
  lemma FrameIsBody(st: State, w: seq<byte>, a: Action)
    requires Valid(st) && a == Classify(w) && IsFrame(a)
    ensures Perform(st, w, a) == DeliverBody(st, BodyOf(w, a))
  {
    hide FirstIndex, LastIndex, SplitFrom, Base64.Decode;
    var body := w[a.start + 1..a.bang];
    if a.BinaryFrame? {
      var f := FrameOf(w, a);
      if |body| > 0 {
        SlicePrefix(w, a.start + 1, a.bang, |body| - 1);
      }
    }
  }

  function BodyOf(s: seq<byte>, a: Action): Body
    requires IsFrame(a) && a.start < a.bang <= |s|
  {
    var body := s[a.start + 1..a.bang];
    if a.BinaryFrame? then BinaryBody(body) else EncodedBody(body)
  }

  /** The next piece of the reference parser is the frame the loop chooses. */
  lemma NextPieceIsFrame(s: seq<byte>, a: Action)
    requires a == Classify(s)
    ensures IsFrame(a) ==> NextPiece(s) == Piece(BodyOf(s, a), s[a.bang + 1..]) && Consumed(a) == a.bang + 1
    ensures !IsFrame(a) ==> NextPiece(s) == NoPiece && (a.Wait? <==> SEMICOLON !in s)
  {
    var e := FirstIndex(s, BANG);
    if e >= 0 {
      var front := s[..e];
      if AT in front {
        TakeDrop(s, LastIndex(front, AT) + 1, e);
      } else if COLON in front {
        TakeDrop(s, LastIndex(front, COLON) + 1, e);
      }
    }
  }

  lemma ParsePiece(st: State, s: seq<byte>, body: Body, later: seq<byte>)
    requires Valid(st) && NextPiece(s) == Piece(body, later) && |later| < |s|
    ensures Parse(s).rest == Parse(later).rest
    ensures DeliverBodies(st, Parse(s).bodies) == DeliverBodies(DeliverBody(st, body), Parse(later).bodies)
  {
    assert ([body] + Parse(later).bodies)[1..] == Parse(later).bodies;
  }

  lemma DropKeepsAway(s: seq<byte>, k: nat, b: byte)
    requires b !in s && k <= |s|
    ensures b !in s[k..]
  {
  }

  /** One turn of the loop on a frame. */
  lemma FrameTaken(st: State, s: seq<byte>, a: Action)
    requires Valid(st) && Halts(s) && a == Classify(s) && IsFrame(a)
    ensures Halts(s[a.bang + 1..])
    ensures Run(st, s) == Run(DeliverBody(st, BodyOf(s, a)), s[a.bang + 1..])
  {
    RunStep(st, s, a);
    FrameIsBody(st, s, a);
  }

  /** One frame taken by the loop is one piece taken by the parser. */
  lemma {:induction false} PieceStep(st: State, s: seq<byte>, a: Action)
    requires Valid(st) && Halts(s) && a == Classify(s) && IsFrame(a)
    ensures var body, later := BodyOf(s, a), s[a.bang + 1..];
      && |later| < |s| && Halts(later) && Run(st, s) == Run(DeliverBody(st, body), later)
      && Parse(s).rest == Parse(later).rest
      && DeliverBodies(st, Parse(s).bodies) == DeliverBodies(DeliverBody(st, body), Parse(later).bodies)
  {
    NextPieceIsFrame(s, a);
    FrameTaken(st, s, a);
    ParsePiece(st, s, BodyOf(s, a), s[a.bang + 1..]);
  }

  lemma {:induction false} ParseStops(s: seq<byte>)
    requires NextPiece(s).NoPiece?
    ensures Parse(s) == Parsed([], s)
  {
  }

  lemma {:induction false} NoPieceStep(st: State, s: seq<byte>, a: Action)
    requires Valid(st) && Halts(s) && a == Classify(s) && !IsFrame(a)
    ensures Parse(s) == Parsed([], s) && DeliverBodies(st, Parse(s).bodies) == st
    ensures SEMICOLON !in s ==> a.Wait? && Run(st, s) == Outcome(st, s)
    ensures SEMICOLON in s ==> |Run(st, s).rest| < |s|
  {
    NextPieceIsFrame(s, a);
    ParseStops(s);
    RunStep(st, s, a);
  }

  /** The loop refines the reference parser exactly on the streams of which the parser leaves no ';': raw bytes inside
      complete frames do not matter. */
  lemma {:induction false} RunRefinesParseIff(st: State, s: seq<byte>)
    requires Valid(st) && Halts(s)
    ensures Run(st, s) == Outcome(DeliverBodies(st, Parse(s).bodies), Parse(s).rest) <==> SEMICOLON !in Parse(s).rest
    decreases |s|
  {
    var a := Classify(s);
    if IsFrame(a) {
      PieceStep(st, s, a);
      RunRefinesParseIff(DeliverBody(st, BodyOf(s, a)), s[a.bang + 1..]);
    } else {
      NoPieceStep(st, s, a);
    }
  }

  lemma {:induction false} RestIsParsed(st: State, s: seq<byte>)
    requires Valid(st) && Halts(s) && SEMICOLON !in Parse(s).rest
    ensures RestOf(s) == Parse(s).rest
  {
    RunRefinesParseIff(st, s);
    RestIsRestOf(st, s);
  }

  // ----- cutting a stream -----

  /** A frame that is complete in u is the same frame, with the same effect, in u + v. */
  lemma SameEncodedFrame(u: seq<byte>, v: seq<byte>)
    requires Classify(u).Base64Frame?
    ensures Classify(u + v) == Classify(u) && FrameOf(u + v, Classify(u)) == FrameOf(u, Classify(u))
  {
    var a := Classify(u);
    FrameChoiceIsLocal(u, v);
    SliceAppend(u, v, a.start + 1, a.bang);
  }

  lemma SameBinaryFrame(u: seq<byte>, v: seq<byte>)
    requires Classify(u).BinaryFrame?
    ensures Classify(u + v) == Classify(u)
    ensures var a := Classify(u);
      var f, g := BinaryAt(u, a.start, a.bang), BinaryAt(u + v, a.start, a.bang);
      Segment(g.rx, g.rxLen) == Segment(f.rx, f.rxLen)
  {
    var a := Classify(u);
    FrameChoiceIsLocal(u, v);
    DropAppend(u, v, a.start + 1);
    var f := BinaryAt(u, a.start, a.bang);
    SegmentIsLocal(f.rx, v, f.rxLen);
  }

  /** The splitter looks only at the length it is given. */
  lemma SegmentIsLocal(rx: seq<byte>, v: seq<byte>, rxLen: nat)
    requires rxLen <= MAX_DATA_LENGTH ==> rxLen <= |rx|
    ensures Segment(rx + v, rxLen) == Segment(rx, rxLen)
  {
    if rxLen <= MAX_DATA_LENGTH {
      TakeAppend(rx, v, rxLen);
    }
  }

  lemma SameFrameSameEffect(st: State, u: seq<byte>, v: seq<byte>)
    requires Valid(st) && IsFrame(Classify(u))
    ensures Classify(u + v) == Classify(u)
    ensures Perform(st, u + v, Classify(u)) == Perform(st, u, Classify(u))
    ensures HangsOn(FrameOf(u + v, Classify(u))) == HangsOn(FrameOf(u, Classify(u)))
  {
    if Classify(u).BinaryFrame? {
      SameBinaryFrame(u, v);
    } else {
      SameEncodedFrame(u, v);
    }
  }

  /** Cutting a window where no ';' is left behind the complete frames of the first part changes nothing: running on
      the first part and then on what it leaves followed by the second part is running on the whole. */
  lemma {:induction false} CutIsHarmless(st: State, u: seq<byte>, v: seq<byte>)
    requires Valid(st) && SEMICOLON !in Parse(u).rest && Halts(u + v)
    ensures Halts(u) && RestOf(u) == Parse(u).rest && Halts(RestOf(u) + v)
    ensures Run(st, u + v) == Run(Run(st, u).state, RestOf(u) + v)
    decreases |u|
  {
    var a := Classify(u);
    NextPieceIsFrame(u, a);
    if IsFrame(a) {
      SameFrameSameEffect(st, u, v);
      var k := Consumed(a);
      DropAppend(u, v, k);
      CutIsHarmless(Perform(st, u, a), u[k..], v);
    } else {
      ParseStops(u);
    }
  }

  lemma FeedStep(st: State, held: seq<byte>, chunks: seq<seq<byte>>)
    requires Valid(st) && chunks != [] && |held + chunks[0]| <= MAX_DATA_LENGTH
    requires Halts(held + chunks[0]) && FeedHalts(RestOf(held + chunks[0]), chunks[1..])
    ensures FeedHalts(held, chunks)
    ensures Feed(st, held, chunks) == Feed(Run(st, held + chunks[0]).state, RestOf(held + chunks[0]), chunks[1..])
  {
    RestIsRestOf(st, held + chunks[0]);
  }

  /** No call ends with a ';' behind the complete frames it has seen. */
  predicate NoCommandOpen(held: seq<byte>, chunks: seq<seq<byte>>)
    decreases |chunks|
  {
    chunks == [] ||
    var rest := Parse(held + chunks[0]).rest;
    SEMICOLON !in rest && NoCommandOpen(rest, chunks[1..])
  }

  /** Chunk invariance: however a stream is cut into calls that do not overflow the ring and do not end with a ';'
      behind their complete frames, the device ends in the same state with the same held bytes as after one run over
      the whole stream. */
  lemma {:induction false} ChunkInvariance(st: State, held: seq<byte>, chunks: seq<seq<byte>>, stream: seq<byte>)
    requires Valid(st) && Classify(held).Wait? && Fits(held, chunks) && stream == held + Concat(chunks)
    requires NoCommandOpen(held, chunks) && Halts(stream)
    ensures FeedHalts(held, chunks) && Feed(st, held, chunks) == Run(st, stream)
    decreases |chunks|
  {
    if chunks == [] {
      assert stream == held;
    } else {
      var w, later := held + chunks[0], Concat(chunks[1..]);
      Assoc(held, chunks[0], later);
      CutIsHarmless(st, w, later);
      RestIsRestOf(st, w);
      ChunkInvariance(Run(st, w).state, RestOf(w), chunks[1..], RestOf(w) + later);
      FeedStep(st, held, chunks);
    }
  }

  lemma {:induction false} ParseAddsNothing(w: seq<byte>, c: byte)
    requires c !in w
    ensures c !in Parse(w).rest
    decreases |w|
  {
    if NextPiece(w).Piece? {
      var later := NextPiece(w).later;
      DropKeepsAway(w, FirstIndex(w, BANG) + 1, c);
      ParseAddsNothing(later, c);
    }
  }

  /** A stream without ';' may be cut anywhere. */
  lemma {:induction false} NoSemicolonNoCommand(held: seq<byte>, chunks: seq<seq<byte>>)
    requires SEMICOLON !in held + Concat(chunks)
    ensures NoCommandOpen(held, chunks)
    decreases |chunks|
  {
    if chunks != [] {
      var w, later := held + chunks[0], Concat(chunks[1..]);
      Assoc(held, chunks[0], later);
      assert forall b :: b in w || b in later ==> b in held + Concat(chunks);
      ParseAddsNothing(w, SEMICOLON);
      NoSemicolonNoCommand(Parse(w).rest, chunks[1..]);
    }
  }

  // ----- round trips -----

  /** A packet on the wire: ':' + Base64 + '!'. */
  function Wire(p: Packet): seq<byte> {
    [COLON] + Base64.Encode(p) + [BANG]
  }

  function Wires(ps: seq<Packet>): seq<byte> {
    if ps == [] then [] else Wire(ps[0]) + Wires(ps[1..])
  }

  /** Where everything is when a body stands between a header and a footer. */
  lemma Framed(w: seq<byte>, g: seq<byte>, h: byte, body: seq<byte>, v: seq<byte>)
    requires w == g + [h] + body + [BANG] + v
    requires BANG !in g && BANG != h && BANG !in body && h !in body
    ensures var e := |g| + 1 + |body|;
      && e < |w| && FirstIndex(w, BANG) == e && LastIndex(w[..e], h) == |g|
      && w[|g| + 1..e] == body && w[e + 1..] == v
    ensures forall c :: c !in g && c != h && c !in body ==> c !in w[..|g| + 1 + |body|]
  {
    var e := |g| + 1 + |body|;
    assert w[..e] == g + [h] + body;
    FirstIndexUnique(w, BANG, e);
    assert w[..e][|g| + 1..] == body;
    LastIndexUnique(w[..e], h, |g|);
  }

  lemma WireIsFrame(w: seq<byte>, g: seq<byte>, t: seq<byte>, v: seq<byte>)
    requires w == g + [COLON] + t + [BANG] + v
    requires BANG !in g && AT !in g && BANG !in t && AT !in t && COLON !in t
    ensures var e := |g| + 1 + |t|; Classify(w) == Base64Frame(|g|, e) && w[|g| + 1..e] == t && w[e + 1..] == v
  {
    Framed(w, g, COLON, t, v);
  }

  /** What the handler of an encoded frame makes of an encoded packet. */
  lemma DecodedPacket(st: State, p: Packet) returns (q: Packet)
    requires Valid(st) && IsPacket(p)
    ensures var t := Base64.Encode(p);
      && CString(t, MAX_DATA_LENGTH) == t && !Base64.Hangs(t, MAX_PACKET_LENGTH)
      && Grew(st, AfterDecode(st, Base64.Decode(t, st.scratch)), [q])
      && AfterDecode(st, Base64.Decode(t, st.scratch)).commands == st.commands
    ensures |p| <= |q| && q[..|p|] == p
  {
    hide Base64.Encode, Base64.Decode, Base64.TooSmall;
    var t := Base64.Encode(p);
    Base64.EncodeIsFrameless(p);
    Base64.DecodeOfEncode(p, st.scratch);
    var r := Base64.Decode(t, st.scratch);
    q := r.buffer[..UNION_LENGTH];
    assert r.buffer[0] == r.buffer[..|p|][0] == p[0];
    assert q[..|p|] == r.buffer[..|p|];
  }

  lemma EncodedHandled(st: State, w: seq<byte>, a: Action, t: seq<byte>)
    requires Valid(st) && a == Classify(w) && a.Base64Frame? && w[a.start + 1..a.bang] == t
    requires CString(t, MAX_DATA_LENGTH) == t
    ensures FrameOf(w, a) == Encoded(t) && Perform(st, w, a) == AfterDecode(st, Base64.Decode(t, st.scratch))
  {
  }

  /** A window that is one frame: one pass, and nothing is left. */
  lemma SingleFrame(st: State, w: seq<byte>, a: Action)
    requires Valid(st) && a == Classify(w) && IsFrame(a) && !HangsOn(FrameOf(w, a))
    requires w[Consumed(a)..] == []
    ensures Halts(w) && Run(st, w) == Outcome(Perform(st, w, a), [])
  {
    assert Classify([]).Wait?;
    RunStep(st, w, a);
  }

  /** Resynchronisation: after any garbage without '!' and '@' (it may hold ':' and ';') the next encoded packet is
      delivered. It arrives with all its bytes, whatever the decode buffer held before. */
  lemma EncodedPacketArrives(st: State, w: seq<byte>, g: seq<byte>, p: Packet, v: seq<byte>) returns (q: Packet)
    requires Valid(st) && IsPacket(p) && BANG !in g && AT !in g
    requires w == g + [COLON] + Base64.Encode(p) + [BANG] + v
    ensures IsFrame(Classify(w)) && w[Consumed(Classify(w))..] == v && !HangsOn(FrameOf(w, Classify(w)))
    ensures Grew(st, Perform(st, w, Classify(w)), [q]) && Perform(st, w, Classify(w)).commands == st.commands
    ensures |p| <= |q| && q[..|p|] == p
  {
    hide FirstIndex, LastIndex, Base64.Encode, Base64.Decode;
    var t := Base64.Encode(p);
    Base64.EncodeIsFrameless(p);
    WireIsFrame(w, g, t, v);
    q := DecodedPacket(st, p);
    EncodedHandled(st, w, Classify(w), t);
  }

  /** Each queue entry starts with the packet it came from. */
  predicate Carries(qs: seq<Packet>, ps: seq<Packet>) {
    |qs| == |ps| && forall i :: 0 <= i < |ps| ==> |ps[i]| <= |qs[i]| && qs[i][..|ps[i]|] == ps[i]
  }

  lemma CarriesMore(q: Packet, qs: seq<Packet>, ps: seq<Packet>)
    requires ps != [] && |ps[0]| <= |q| && q[..|ps[0]|] == ps[0] && Carries(qs, ps[1..])
    ensures Carries([q] + qs, ps)
  {
    forall i | 0 < i < |ps| ensures |ps[i]| <= |qs[i - 1]| && qs[i - 1][..|ps[i]|] == ps[i] {
      assert ps[i] == ps[1..][i - 1];
    }
  }

  /** End-to-end round trip: encoded packets sent one after another all arrive, in order, and the ring ends empty. */
  lemma {:induction false} RoundTrip(st: State, ps: seq<Packet>) returns (qs: seq<Packet>)
    requires Valid(st) && ArePackets(ps)
    ensures Halts(Wires(ps))
    ensures Run(st, Wires(ps)).rest == [] && Run(st, Wires(ps)).state.commands == st.commands
    ensures Carries(qs, ps) && Grew(st, Run(st, Wires(ps)).state, qs)
    decreases |ps|
  {
    if ps == [] {
      qs := [];
      GrewNothing(st);
    } else {
      var w, v := Wires(ps), Wires(ps[1..]);
      assert w == [] + [COLON] + Base64.Encode(ps[0]) + [BANG] + v;
      var q := EncodedPacketArrives(st, w, [], ps[0], v);
      var st' := Perform(st, w, Classify(w));
      var more := RoundTrip(st', ps[1..]);
      GrewTwice(st, st', Run(st', v).state, [q], more);
      qs := [q] + more;
      CarriesMore(q, more, ps);
    }
  }

  lemma {:induction false} WiresHaveNoSemicolon(ps: seq<Packet>)
    ensures SEMICOLON !in Wires(ps)
  {
    if ps != [] {
      Base64.EncodeIsFrameless(ps[0]);
      WiresHaveNoSemicolon(ps[1..]);
    }
  }

  /** The same for every way of cutting the bytes into calls: the queue ends with the newest sixteen of old queue and
      new packets, the latest packet is the last one sent, and nothing is left in the ring. */
  lemma ChunkedRoundTrip(st: State, ps: seq<Packet>, chunks: seq<seq<byte>>) returns (qs: seq<Packet>)
    requires Valid(st) && ArePackets(ps) && Concat(chunks) == Wires(ps) && Fits([], chunks)
    ensures Carries(qs, ps) && FeedHalts([], chunks)
    ensures Feed(st, [], chunks).rest == [] && Grew(st, Feed(st, [], chunks).state, qs)
  {
    hide Run, Feed, Parse, Halts, Carries, Grew, Concat;
    qs := RoundTrip(st, ps);
    WiresHaveNoSemicolon(ps);
    assert [] + Concat(chunks) == Wires(ps);
    NoSemicolonNoCommand([], chunks);
    ChunkInvariance(st, [], chunks, Wires(ps));
  }

  // ----- where the stream can get stuck -----

  /** A footer with no header before it blocks everything behind it until the ring overflows, unless a ';' follows: a
      call that returns leaves such a window as it is exactly when it holds no ';'. */
  lemma StrayFooterBlocks(st: State, u: seq<byte>, v: seq<byte>)
    requires Valid(st) && BANG in u
    requires COLON !in u[..FirstIndex(u, BANG)] && AT !in u[..FirstIndex(u, BANG)]
    ensures SEMICOLON !in u + v ==> Halts(u + v)
    ensures Halts(u + v) ==> (Run(st, u + v) == Outcome(st, u + v) <==> SEMICOLON !in u + v)
    ensures Halts(u + v) && SEMICOLON in u + v ==> |Run(st, u + v).rest| < |u + v|
  {
    var w, e := u + v, FirstIndex(u, BANG);
    FirstPrefix(u, v, BANG);
    assert w[..e] == u[..e];
    if Halts(w) {
      RunStep(st, w, Classify(w));
    }
  }
}
