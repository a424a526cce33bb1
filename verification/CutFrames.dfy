/** Frames that arrive in several calls: until the footer comes, their bytes are a window of commands. */
module CutFrames {
  import opened Bytes
  import opened Delimiters
  import opened Packets
  import opened Serial
  import opened SerialStream
  import opened CommandStream
  import opened CommandWindows
  import opened BinaryFrames
  import Base64

  // ----- what calls hold back while no footer has come -----

  /** Without a footer a call leaves what stands behind the last ';', and changes the command part only. */
  lemma {:induction false} FooterlessCall(st: State, u: seq<byte>)
    requires Valid(st) && BANG !in u
    ensures Halts(u) && RestOf(u) == TailOf(u)
    ensures Run(st, u) == Outcome(WithPart(st, Run(st, u).state.commands), TailOf(u))
  {
    FooterlessIsFrameFree(u);
    WindowOutcome(st, u);
    StretchIsTail(u);
    RestIsRestOf(st, u);
  }

  /** Any number of calls without a footer leave what stands behind the last ';' of everything fed, and no packet. */
  lemma {:induction false} FooterlessCalls(st: State, held: seq<byte>, chunks: seq<seq<byte>>, fed: seq<byte>)
    requires Valid(st) && fed == held + Concat(chunks) && BANG !in fed && SEMICOLON !in held && Fits(held, chunks)
    ensures FeedHalts(held, chunks) && Feed(st, held, chunks).rest == TailOf(fed)
    ensures var r := Feed(st, held, chunks).state; r == st.(commands := r.commands)
    decreases |chunks|
  {
    if chunks == [] {
      assert fed == held;
      TailAlone(held);
    } else {
      var w, later := held + chunks[0], Concat(chunks[1..]);
      Assoc(held, chunks[0], later);
      assert forall k :: 0 <= k < |w| ==> w[k] == fed[k];
      FooterlessCall(st, w);
      var k := TailStart(w);
      CommandsOfAppend(w, later);
      var st' := Run(st, w).state;
      assert TailOf(w) + later == fed[k..] by {
        DropAppend(w, later, k);
      }
      FooterlessCalls(st', TailOf(w), chunks[1..], TailOf(w) + later);
      FeedStep(st, held, chunks);
    }
  }

  // ----- binary frames cut by calls -----

  lemma TailKeeps(u: seq<byte>, v: seq<byte>)
    requires SEMICOLON !in v
    ensures TailOf(u + v) == TailOf(u) + v
  {
    CommandsOfAppend(u, v);
    TailHasNoTerminator(u);
    TailAlone(TailOf(u) + v);
  }

  /** A ';' behind a front part takes it away with everything up to that ';'. */
  lemma TailLoses(u: seq<byte>, v: seq<byte>)
    requires SEMICOLON in v
    ensures exists j :: 0 < j <= |v| && TailOf(u + v) == v[j..]
  {
    var w := u + v;
    var k := TailStart(w);
    var i := FirstIndex(v, SEMICOLON);
    assert w[|u| + i] == SEMICOLON;
    assert forall m :: k <= m < |w| ==> w[m] == w[k..][m - k];
    assert w[k..] == v[k - |u|..];
  }

  /** The frame that is recognised in a window has this body and this rest. */
  predicate Recognised(w: seq<byte>, body: seq<byte>, later: seq<byte>) {
    var a := Classify(w);
    a.BinaryFrame? && BodyOf(w, a) == BinaryBody(body) && w[Consumed(a)..] == later
  }

  lemma WholeFrame(w: seq<byte>, g: seq<byte>, front: seq<byte>, back: seq<byte>, later: seq<byte>)
    requires BANG !in g && Clean(front + back) && w == g + [AT] + (front + back) + [BANG] + later
    ensures Recognised(w, front + back, later)
  {
    FrameWithin(w, g, front + back, later);
    SentFrame(w, g, front + back, later);
  }

  lemma HeadlessFrame(w: seq<byte>, front: seq<byte>, back: seq<byte>, later: seq<byte>)
    requires Clean(front) && Clean(back) && w == front + (back + [BANG] + later)
    ensures !Classify(w).BinaryFrame?
    ensures COLON !in front && COLON !in back ==> !IsFrame(Classify(w))
  {
    var e := |front| + |back|;
    assert w[..e] == front + back;
    FirstIndexUnique(w, BANG, e);
  }

  /** A frame whose front has no ';' is whole when its back comes, behind the end of what came before it. */
  lemma {:induction false} CutWindow(w: seq<byte>, g: seq<byte>, h: byte, front: seq<byte>, back: seq<byte>,
                                     body: seq<byte>, later: seq<byte>) returns (k: nat)
    requires w == TailOf(g + [h] + front) + (back + [BANG] + later) && body == front + back
    requires SEMICOLON !in front && h != SEMICOLON
    ensures k <= |g| && w == g[k..] + [h] + body + [BANG] + later
  {
    k := TailStart(g);
    Assoc(g, [h], front);
    TailKeeps(g, [h] + front);
    Regroup(g[k..], h, front, back, later);
  }

  lemma {:induction false} Regroup(g: seq<byte>, h: byte, front: seq<byte>, back: seq<byte>, later: seq<byte>)
    ensures g + ([h] + front) + (back + [BANG] + later) == g + [h] + (front + back) + [BANG] + later
  {
    Assoc(g + [h], front, back + [BANG] + later);
  }

  lemma {:induction false} CutFrameArrives(fed: seq<byte>, w: seq<byte>, g: seq<byte>, front: seq<byte>,
                                           back: seq<byte>, later: seq<byte>)
    requires BANG !in g && Clean(front + back) && fed == g + [AT] + front && SEMICOLON !in front
    requires w == TailOf(fed) + (back + [BANG] + later)
    ensures Recognised(w, front + back, later)
  {
    var k := CutWindow(w, g, AT, front, back, front + back, later);
    DropKeepsAway(g, k, BANG);
    WholeFrame(w, g[k..], front, back, later);
  }

  lemma {:induction false} CutFrameIsLost(fed: seq<byte>, w: seq<byte>, g: seq<byte>, front: seq<byte>,
                                          back: seq<byte>, later: seq<byte>)
    requires Clean(front) && Clean(back) && fed == g + [AT] + front && SEMICOLON in front
    requires w == TailOf(fed) + (back + [BANG] + later)
    ensures !Classify(w).BinaryFrame?
    ensures COLON !in front && COLON !in back ==> !IsFrame(Classify(w))
  {
    TailLoses(g + [AT], front);
    var j :| 0 < j <= |front| && TailOf(fed) == front[j..];
    DropKeepsAway(front, j, BANG);
    DropKeepsAway(front, j, AT);
    if COLON !in front {
      DropKeepsAway(front, j, COLON);
    }
    HeadlessFrame(w, front[j..], back, later);
  }

  /** A binary frame cut by calls: its front has come in, its back comes with the footer. The frame is recognised as
      it was sent if and only if no ';' is among the bytes of the front; otherwise these were popped as commands, the
      header with them, and no binary frame is recognised. */
  lemma CutFrameIff(fed: seq<byte>, g: seq<byte>, front: seq<byte>, back: seq<byte>, later: seq<byte>)
    requires BANG !in g && Clean(front + back) && fed == g + [AT] + front
    ensures var w := TailOf(fed) + (back + [BANG] + later);
      && (Recognised(w, front + back, later) <==> SEMICOLON !in front)
      && (SEMICOLON in front ==> !Classify(w).BinaryFrame?)
      && (SEMICOLON in front && COLON !in front + back ==> !IsFrame(Classify(w)))
  {
    var w := TailOf(fed) + (back + [BANG] + later);
    PartsAreClean(front, back);
    if SEMICOLON in front {
      if COLON !in front + back {
        PartsLack(front, back, COLON);
      }
      CutFrameIsLost(fed, w, g, front, back, later);
    } else {
      CutFrameArrives(fed, w, g, front, back, later);
    }
  }

  lemma PartsLack(front: seq<byte>, back: seq<byte>, b: byte)
    requires b !in front + back
    ensures b !in front && b !in back
  {
    assert forall x :: x in front || x in back ==> x in front + back;
  }

  lemma PartsAreClean(front: seq<byte>, back: seq<byte>)
    requires Clean(front + back)
    ensures Clean(front) && Clean(back)
  {
    PartsLack(front, back, BANG);
    PartsLack(front, back, AT);
  }

  /** Over any number of calls: the calls before the one with the footer deliver nothing, and that one recognises the
      frame if and only if no ';' came in behind the header before. */
  lemma FrameAcrossCallsIff(st: State, held: seq<byte>, chunks: seq<seq<byte>>, g: seq<byte>, front: seq<byte>,
                            back: seq<byte>, later: seq<byte>)
    requires Valid(st) && SEMICOLON !in held && Fits(held, chunks) && held + Concat(chunks) == g + [AT] + front
    requires BANG !in g && Clean(front + back)
    ensures FeedHalts(held, chunks)
    ensures var r := Feed(st, held, chunks); var w := r.rest + (back + [BANG] + later);
      && r.state == st.(commands := r.state.commands)
      && (Recognised(w, front + back, later) <==> SEMICOLON !in front)
      && (SEMICOLON in front ==> !Classify(w).BinaryFrame?)
      && (SEMICOLON in front && COLON !in front + back ==> !IsFrame(Classify(w)))
  {
    var fed := g + [AT] + front;
    PartsAreClean(front, back);
    FooterlessCalls(st, held, chunks, fed);
    CutFrameIff(fed, g, front, back, later);
  }

  lemma RecognisedDelivers(st: State, w: seq<byte>, ps: seq<Packet>, x: byte, later: seq<byte>)
    requires Valid(st) && ArePackets(ps) && ps != [] && |Concat(ps)| <= MAX_DATA_LENGTH
    requires Recognised(w, Concat(ps) + [x], later)
    ensures Perform(st, w, Classify(w)) == EnqueueAll(st, ps) && Perform(st, w, Classify(w)).log == st.log + ps
  {
    var body, a := Concat(ps) + [x], Classify(w);
    PacketsTakeRoom(ps);
    FrameIsBody(st, w, a);
    assert body[..|body| - 1] == Concat(ps) + [];
    BodyDelivers(st, body, ps, [], Nothing);
  }

  /** The packets of a clean binary frame without ':', cut by calls, are delivered by the call with the footer if and
      only if no ';' of them came in before. */
  lemma PacketsAcrossCallsIff(st: State, held: seq<byte>, chunks: seq<seq<byte>>, g: seq<byte>, ps: seq<Packet>,
                              x: byte, front: seq<byte>, back: seq<byte>, later: seq<byte>)
    requires Valid(st) && SEMICOLON !in held && Fits(held, chunks) && held + Concat(chunks) == g + [AT] + front
    requires BANG !in g && Clean(front + back) && COLON !in front + back
    requires ArePackets(ps) && ps != [] && |Concat(ps)| <= MAX_DATA_LENGTH && front + back == Concat(ps) + [x]
    ensures FeedHalts(held, chunks)
    ensures var r := Feed(st, held, chunks); var w := r.rest + (back + [BANG] + later);
      && Perform(r.state, w, Classify(w)).queue == (if SEMICOLON !in front then EnqueueAll(st, ps).queue else st.queue)
      && (Perform(r.state, w, Classify(w)).log == st.log + ps <==> SEMICOLON !in front)
  {
    FrameAcrossCallsIff(st, held, chunks, g, front, back, later);
    var r := Feed(st, held, chunks);
    var w := r.rest + (back + [BANG] + later);
    if SEMICOLON !in front {
      RecognisedDelivers(r.state, w, ps, x, later);
      EnqueueAllMeaning(st, ps);
      EnqueueAllMeaning(r.state, ps);
    }
  }

  // ----- a concrete packet -----

  /** A standard packet of zeros but for one ';'. */
  function SemicolonPacket(): (p: Packet)
    ensures IsPacket(p) && |p| == 145 && Clean(p) && SEMICOLON in p[..100]
  {
    var p := seq(145, i => if i == 8 then SEMICOLON else 0);
    assert p[..100][8] == SEMICOLON;
    p
  }

  lemma OneCall(st: State, held: seq<byte>, chunk: seq<byte>)
    requires Valid(st) && |held + chunk| <= MAX_DATA_LENGTH && Halts(held + chunk)
    ensures FeedHalts(held, [chunk]) && Feed(st, held, [chunk]) == Run(st, held + chunk)
  {
    FeedStep(st, held, [chunk]);
  }

  lemma {:induction false} BothCalls(st: State, first: seq<byte>, second: seq<byte>)
    requires Valid(st) && |first| <= MAX_DATA_LENGTH && BANG !in first
    requires |TailOf(first) + second| <= MAX_DATA_LENGTH && Classify(TailOf(first) + second).Wait?
    ensures FeedHalts([], [first, second])
    ensures Feed(st, [], [first, second]).state.log == st.log
    ensures Feed(st, [], [first, second]).rest == TailOf(first) + second
  {
    FooterlessCall(st, first);
    assert [] + first == first && [first, second][1..] == [second];
    OneCall(Run(st, first).state, TailOf(first), second);
    FeedStep(st, [], [first, second]);
  }

  lemma {:induction false} OneFrameCall(st: State, w: seq<byte>, body: seq<byte>)
    requires Valid(st) && Recognised(w, body, [])
    ensures Halts(w) && Run(st, w) == Outcome(Perform(st, w, Classify(w)), [])
  {
    hide FirstIndex, LastIndex, Segment;
    NothingLeft(Perform(st, w, Classify(w)));
  }

  lemma {:induction false} WholeCall(st: State, p: Packet)
    requires Valid(st) && IsPacket(p) && Clean(p) && |p| == 145
    ensures var w := [AT] + p + [0, BANG];
      && FeedHalts([], [w]) && Feed(st, [], [w]).state.log == st.log + [p] && Feed(st, [], [w]).rest == []
  {
    hide Run, Halts, Classify, Perform, EnqueueAll;
    var w := [AT] + p + [0, BANG];
    ConcatOne(p);
    assert w == [] + [AT] + (p + [0]) + [BANG] + [];
    WholeFrame(w, [], p, [0], []);
    RecognisedDelivers(st, w, [p], 0, []);
    OneFrameCall(st, w, p + [0]);
    assert [] + w == w;
    OneCall(st, [], w);
  }

  /** What is held after the first hundred bytes: those behind the ';'. */
  lemma {:induction false} SemicolonTail()
    ensures var p := SemicolonPacket(); TailOf([AT] + p[..100]) == p[9..100]
  {
    var p := SemicolonPacket();
    var u := [AT] + p[..100];
    assert u[..9][0] == AT && u[9] == SEMICOLON;
    FirstIndexUnique(u, SEMICOLON, 9);
    assert u[10..] == p[9..100];
    TailStep(u, 9);
    TailAlone(p[9..100]);
  }

  lemma HeldBehindFooter(w: seq<byte>, front: seq<byte>)
    requires w == front + [BANG] && forall k :: 0 <= k < |front| ==> front[k] == 0
    ensures Classify(w).Wait?
  {
    assert w[..|front|] == front;
    FirstIndexUnique(w, BANG, |front|);
  }

  lemma {:induction false} CutLosesIt(st: State, p: Packet, first: seq<byte>, second: seq<byte>)
    requires Valid(st) && p == SemicolonPacket() && first == [AT] + p[..100] && second == p[100..] + [0, BANG]
    ensures FeedHalts([], [first, second]) && Feed(st, [], [first, second]).state.log == st.log
    ensures |Feed(st, [], [first, second]).rest| == 138
  {
    SemicolonTail();
    var w := TailOf(first) + second;
    assert w == p[9..] + [0] + [BANG];
    HeldBehindFooter(w, p[9..] + [0]);
    BothCalls(st, first, second);
  }

  lemma {:induction false} CutOrWhole(st: State, p: Packet, first: seq<byte>, second: seq<byte>, whole: seq<byte>)
    requires Valid(st) && p == SemicolonPacket() && first == [AT] + p[..100] && second == p[100..] + [0, BANG]
    requires whole == [AT] + p + [0, BANG]
    ensures FeedHalts([], [whole]) && Feed(st, [], [whole]).state.log == st.log + [p]
    ensures FeedHalts([], [first, second]) && Feed(st, [], [first, second]).state.log == st.log
    ensures |Feed(st, [], [first, second]).rest| == 138
  {
    WholeCall(st, p);
    CutLosesIt(st, p, first, second);
  }

  lemma TwoHalves(p: seq<byte>, n: nat)
    requires n <= |p|
    ensures [AT] + p + [0, BANG] == ([AT] + p[..n]) + (p[n..] + [0, BANG])
  {
    assert p == p[..n] + p[n..];
  }

  /** In one call it is delivered; cut behind its hundredth byte it is lost, and 138 bytes stay held behind a footer
      without a header. */
  lemma {:induction false} SemicolonPacketIsLost(st: State)
    requires Valid(st)
    ensures var p := SemicolonPacket();
      var whole, first, second := [AT] + p + [0, BANG], [AT] + p[..100], p[100..] + [0, BANG];
      && whole == first + second
      && FeedHalts([], [whole]) && Feed(st, [], [whole]).state.log == st.log + [p]
      && FeedHalts([], [first, second]) && Feed(st, [], [first, second]).state.log == st.log
      && |Feed(st, [], [first, second]).rest| == 138
  {
    var p := SemicolonPacket();
    TwoHalves(p, 100);
    CutOrWhole(st, p, [AT] + p[..100], p[100..] + [0, BANG], [AT] + p + [0, BANG]);
  }

  // ----- encoded frames cut by calls -----

  /** An encoded packet has no ';', so it arrives however many calls cut it, and whatever garbage without '!' and '@'
      comes before it. */
  lemma EncodedAcrossCalls(st: State, held: seq<byte>, chunks: seq<seq<byte>>, g: seq<byte>, p: Packet,
                           front: seq<byte>, back: seq<byte>, later: seq<byte>) returns (q: Packet)
    requires Valid(st) && SEMICOLON !in held && Fits(held, chunks) && held + Concat(chunks) == g + [COLON] + front
    requires BANG !in g && AT !in g && IsPacket(p) && front + back == Base64.Encode(p)
    ensures FeedHalts(held, chunks)
    ensures var r := Feed(st, held, chunks); var w := r.rest + (back + [BANG] + later); var a := Classify(w);
      && IsFrame(a) && w[Consumed(a)..] == later && !HangsOn(FrameOf(w, a))
      && r.state == st.(commands := r.state.commands) && Grew(r.state, Perform(r.state, w, a), [q])
    ensures |p| <= |q| && q[..|p|] == p
  {
    Base64.EncodeIsFrameless(p);
    PartsLack(front, back, BANG);
    PartsLack(front, back, SEMICOLON);
    FooterlessCalls(st, held, chunks, g + [COLON] + front);
    var r := Feed(st, held, chunks);
    var w := r.rest + (back + [BANG] + later);
    var k := CutWindow(w, g, COLON, front, back, Base64.Encode(p), later);
    DropKeepsAway(g, k, BANG);
    DropKeepsAway(g, k, AT);
    q := EncodedPacketArrives(r.state, w, g[k..], p, later);
  }
}
