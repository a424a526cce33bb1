/** Binary frames: '@', raw packet bytes, one more byte, '!'. The packet bytes are not escaped, and the scan takes the
    first '!' and the last '@' in front of it, wherever they stand. */
module BinaryFrames {
  import opened Bytes
  import opened Delimiters
  import opened Packets
  import opened Serial
  import opened SerialStream

  /** No byte of the body reads as a header or footer. */
  predicate Clean(body: seq<byte>) {
    BANG !in body && AT !in body
  }

  lemma SentFrame(w: seq<byte>, g: seq<byte>, body: seq<byte>, v: seq<byte>)
    requires w == g + [AT] + body + [BANG] + v
    ensures var n, m := |g|, |g| + 1 + |body|;
      m < |w| && w[..n] == g && w[n] == AT && w[n + 1..m] == body && w[m] == BANG && w[m + 1..] == v
  {
  }

  lemma FirstIsFirst(w: seq<byte>, b: byte, i: nat)
    requires i < |w| && w[i] == b
    ensures 0 <= FirstIndex(w, b) <= i
  {
    var f := FirstIndex(w, b);
    assert forall k :: 0 <= k < f ==> w[k] == w[..f][k];
  }

  lemma LastIsLast(w: seq<byte>, b: byte, i: nat)
    requires i < |w| && w[i] == b
    ensures i <= LastIndex(w, b)
  {
    var f := LastIndex(w, b);
    assert forall k :: f < k < |w| ==> w[k] == w[f + 1..][k - f - 1];
  }

  /** A footer behind a header is recognised with the last header in front of it. */
  lemma FooterBehind(w: seq<byte>, n: nat, e: int)
    requires n < |w| && BANG !in w[..n] && w[n] == AT && BANG in w && e == FirstIndex(w, BANG)
    ensures n < e < |w| && n <= LastIndex(w[..e], AT) && Classify(w) == BinaryFrame(LastIndex(w[..e], AT), e)
  {
    assert forall k :: 0 <= k < n ==> w[k] == w[..n][k];
    assert w[..e][n] == AT;
    LastIsLast(w[..e], AT, n);
  }

  /** A footer in the body ends the frame early, a header in it begins the frame late. */
  lemma FooterInside(w: seq<byte>, n: nat, m: nat, e: int)
    requires n < m < |w| && w[m] == BANG && e == FirstIndex(w, BANG) && n < e
    ensures e <= m && (e == m <==> BANG !in w[n + 1..m])
  {
    FirstIsFirst(w, BANG, m);
    var inside := w[n + 1..m];
    assert forall k :: n < k < m ==> inside[k - n - 1] == w[k];
    assert forall k :: 0 <= k < e ==> w[k] == w[..e][k];
  }

  lemma HeaderInside(w: seq<byte>, n: nat, m: nat, start: int)
    requires n < m < |w| && w[n] == AT && start == LastIndex(w[..m], AT)
    ensures n <= start && (start == n <==> AT !in w[n + 1..m])
  {
    var inside, front := w[n + 1..m], w[..m];
    assert front[n] == AT;
    LastIsLast(front, AT, n);
    assert forall k :: n < k < m ==> inside[k - n - 1] == front[k];
    assert forall k :: start < k < m ==> front[k] == front[start + 1..][k - start - 1];
  }

  /** The frame that is recognised lies inside the one that was sent, and is the one that was sent exactly when its
      body is clean. */
  lemma FrameWithin(w: seq<byte>, g: seq<byte>, body: seq<byte>, v: seq<byte>)
    requires w == g + [AT] + body + [BANG] + v && BANG !in g
    ensures var a := Classify(w);
      && a.BinaryFrame? && |g| <= a.start && a.bang <= |g| + 1 + |body|
      && (Clean(body) <==> a == BinaryFrame(|g|, |g| + 1 + |body|))
  {
    var n, m, e := |g|, |g| + 1 + |body|, FirstIndex(w, BANG);
    SentFrame(w, g, body, v);
    FooterBehind(w, n, e);
    FooterInside(w, n, m, e);
    HeaderInside(w, n, m, LastIndex(w[..m], AT));
  }

  /** What a binary frame delivers has room between its header and the byte in front of its footer. */
  lemma FrameNews(st: State, w: seq<byte>, a: Action) returns (news: seq<Packet>)
    requires Valid(st) && a == Classify(w) && a.BinaryFrame?
    ensures Perform(st, w, a) == EnqueueAll(st, news) && Grew(st, EnqueueAll(st, news), news)
    ensures news == [] || |Concat(news)| <= a.bang - a.start - 2
  {
    var f := FrameOf(w, a);
    news := Segment(f.rx, f.rxLen).packets;
    var t, kind := SegmentMeaning(f.rx, f.rxLen);
    EnqueueAllMeaning(st, news);
  }

  /** A body delivers the complete packets in front of its last byte. */
  lemma BodyDelivers(st: State, body: seq<byte>, ps: seq<Packet>, t: seq<byte>, kind: Tail)
    requires Valid(st) && ArePackets(ps) && IsTail(t, kind)
    requires 2 <= |body| <= MAX_DATA_LENGTH + 1 && body[..|body| - 1] == Concat(ps) + t
    ensures DeliverBody(st, BinaryBody(body)) == EnqueueAll(st, ps) && Grew(st, EnqueueAll(st, ps), ps)
  {
    SplitRecovers(ps, t, kind, []);
    assert [] + ps == ps;
    EnqueueAllMeaning(st, ps);
  }

  lemma CleanBodyArrives(st: State, w: seq<byte>, g: seq<byte>, body: seq<byte>, v: seq<byte>)
    requires Valid(st) && w == g + [AT] + body + [BANG] + v && BANG !in g && Clean(body)
    ensures Classify(w) == BinaryFrame(|g|, |g| + 1 + |body|) && w[Consumed(Classify(w))..] == v
    ensures Perform(st, w, Classify(w)) == DeliverBody(st, BinaryBody(body))
  {
    var a := Classify(w);
    FrameWithin(w, g, body, v);
    SentFrame(w, g, body, v);
    FrameIsBody(st, w, a);
    assert BodyOf(w, a) == BinaryBody(body);
  }

  lemma LogTells(st: State, news: seq<Packet>, ps: seq<Packet>)
    requires st.log + news == st.log + ps
    ensures news == ps
  {
    SplitAt(st.log, news);
    SplitAt(st.log, ps);
  }

  lemma TooLongDeliversNothing(st: State, body: seq<byte>)
    requires Valid(st) && |body| > MAX_DATA_LENGTH + 1
    ensures DeliverBody(st, BinaryBody(body)) == st
  {
  }

  lemma CleanFrameArrives(st: State, w: seq<byte>, g: seq<byte>, ps: seq<Packet>, x: byte, v: seq<byte>)
    requires Valid(st) && ArePackets(ps) && ps != [] && BANG !in g && |Concat(ps)| <= MAX_DATA_LENGTH
    requires w == g + [AT] + (Concat(ps) + [x]) + [BANG] + v && Clean(Concat(ps) + [x])
    ensures w[Consumed(Classify(w))..] == v
    ensures Perform(st, w, Classify(w)) == EnqueueAll(st, ps) && Grew(st, EnqueueAll(st, ps), ps)
  {
    var body := Concat(ps) + [x];
    PacketsTakeRoom(ps);
    CleanBodyArrives(st, w, g, body, v);
    assert body[..|body| - 1] == Concat(ps) + [];
    BodyDelivers(st, body, ps, [], Nothing);
  }

  lemma OtherFramesFail(st: State, w: seq<byte>, g: seq<byte>, ps: seq<Packet>, x: byte, v: seq<byte>)
    requires Valid(st) && ArePackets(ps) && ps != [] && BANG !in g
    requires w == g + [AT] + (Concat(ps) + [x]) + [BANG] + v
    requires !Clean(Concat(ps) + [x]) || |Concat(ps)| > MAX_DATA_LENGTH
    ensures Perform(st, w, Classify(w)).log != st.log + ps
  {
    var body := Concat(ps) + [x];
    if Clean(body) {
      CleanBodyArrives(st, w, g, body, v);
      TooLongDeliversNothing(st, body);
      assert st.log != st.log + ps;
    } else {
      FrameWithin(w, g, body, v);
      var news := FrameNews(st, w, Classify(w));
      if st.log + news == st.log + ps {
        LogTells(st, news, ps);
      }
    }
  }

  /** A binary frame with one more byte between its packets and the footer delivers exactly these packets if and only
      if no byte of them, nor that byte, is an '@' or a '!', and they fit the splitter. */
  lemma BinaryFrameArrives(st: State, w: seq<byte>, g: seq<byte>, ps: seq<Packet>, x: byte, v: seq<byte>)
    requires Valid(st) && ArePackets(ps) && ps != [] && BANG !in g
    requires w == g + [AT] + (Concat(ps) + [x]) + [BANG] + v
    ensures var arrives := Clean(Concat(ps) + [x]) && |Concat(ps)| <= MAX_DATA_LENGTH;
      && (Perform(st, w, Classify(w)).log == st.log + ps <==> arrives)
      && (arrives ==> Perform(st, w, Classify(w)) == EnqueueAll(st, ps) && w[Consumed(Classify(w))..] == v)
      && (arrives ==> Grew(st, EnqueueAll(st, ps), ps))
  {
    if Clean(Concat(ps) + [x]) && |Concat(ps)| <= MAX_DATA_LENGTH {
      CleanFrameArrives(st, w, g, ps, x, v);
    } else {
      OtherFramesFail(st, w, g, ps, x, v);
    }
  }

  /** A binary frame whose last packet ends right at the footer never delivers all its packets; with a clean body it
      delivers all but the last. */
  lemma UnpaddedBinaryFrameLosesLast(st: State, w: seq<byte>, g: seq<byte>, ps: seq<Packet>, p: Packet, v: seq<byte>)
    requires Valid(st) && ArePackets(ps) && IsPacket(p) && BANG !in g
    requires w == g + [AT] + (Concat(ps) + p) + [BANG] + v
    ensures Classify(w).BinaryFrame? && Perform(st, w, Classify(w)).log != st.log + (ps + [p])
    ensures Clean(Concat(ps) + p) && |Concat(ps) + p| <= MAX_DATA_LENGTH + 1 ==>
      w[Consumed(Classify(w))..] == v && Perform(st, w, Classify(w)) == EnqueueAll(st, ps)
  {
    var body, a := Concat(ps) + p, Classify(w);
    FrameWithin(w, g, body, v);
    var news := FrameNews(st, w, a);
    ConcatAppend(ps, [p]);
    assert Concat([p]) == p + Concat<byte>([]);
    if Perform(st, w, a).log == st.log + (ps + [p]) {
      LogTells(st, news, ps + [p]);
    }
    if Clean(body) && |body| <= MAX_DATA_LENGTH + 1 {
      var t := p[..|p| - 1];
      CleanBodyArrives(st, w, g, body, v);
      assert body[..|body| - 1] == Concat(ps) + t;
      BodyDelivers(st, body, ps, t, Partial);
    }
  }

  /** A standard packet whose first acceleration is the float 2.0, all else zero: the float's last byte is an '@'. */
  function TwoPointZero(): (p: Packet)
    ensures IsPacket(p) && AT in p
  {
    var p := seq(145, i => if i == 8 then AT else 0);
    assert p[8] == AT;
    p
  }

  /** Such a packet is lost, and nothing else is delivered. */
  lemma TwoPointZeroIsLost(st: State, x: byte)
    requires Valid(st) && x != AT && x != BANG
    ensures var w := [AT] + (TwoPointZero() + [x]) + [BANG];
      Classify(w) == BinaryFrame(9, 147) && Perform(st, w, Classify(w)) == st && w[Consumed(Classify(w))..] == []
  {
    var p := TwoPointZero();
    var w, later := [AT] + (p + [x]) + [BANG], p[9..] + [x];
    assert later[..|later| - 1] == p[9..];
    assert w == ([AT] + p[..8]) + [AT] + later + [BANG] + [];
    CleanBodyArrives(st, w, [AT] + p[..8], later, []);
    assert SplitFrom(p[9..], []) == Split(-1, []);
  }
}
