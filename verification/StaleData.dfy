/** The decode buffer is checked for a packet type after decoding, but not for how much was decoded: what an earlier
    frame left in it can be delivered again. */
module StaleData {
  import opened Bytes
  import opened Delimiters
  import opened Packets
  import opened Serial
  import opened SerialStream
  import Base64

  lemma SizeFits(t: seq<byte>, size: nat)
    requires |t| <= MAX_DATA_LENGTH && Base64.Padding(t) == 0 && !Base64.TooSmall(t, size)
    ensures |t| / 4 * 3 <= size
  {
    assert 3 * (|t| / 4) < SIZE_MODULUS;
  }

  lemma {:induction false} AcceptedBuffer(t: seq<byte>, buffer: seq<byte>)
    requires |t| <= MAX_DATA_LENGTH && Base64.Decode(t, buffer).Accepted?
    ensures Base64.ValidText(t) && |Base64.DecodeBytes(t)| <= |buffer|
    ensures Base64.Decode(t, buffer).buffer == Base64.Overlay(buffer, 0, Base64.DecodeBytes(t))
  {
    Base64.AcceptedIffValid(t, buffer, 0, 0);
    Base64.NoPadding(t);
    SizeFits(t, |buffer|);
  }

  /** The first n bytes of the front of a buffer after bytes were written over it. */
  lemma OverlayParts(buffer: seq<byte>, bytes: seq<byte>, q: seq<byte>, n: nat)
    requires |bytes| <= |buffer| && n <= |q| <= |buffer| && q == Base64.Overlay(buffer, 0, bytes)[..|q|]
    ensures q[..n] <= bytes <==> |bytes| >= n
    ensures |bytes| < n ==> q[..|bytes|] == bytes && q[|bytes|..n] == buffer[|bytes|..n]
  {
    var r := Base64.Overlay(buffer, 0, bytes);
    assert r == bytes + buffer[|bytes|..];
    assert forall j :: 0 <= j < |q| ==> q[j] == r[j];
    if |bytes| >= n {
      assert q[..n] == bytes[..n];
    } else {
      assert q[..|bytes|] == bytes && q[|bytes|..n] == buffer[|bytes|..n];
    }
  }

  /** The bytes of a packet delivered from the text t all come from the text exactly when it decodes to at least the
      length of the packet's layout; otherwise the bytes behind what was decoded are the old ones of the decode
      buffer. */
  lemma {:induction false} DeliveredBytes(buffer: seq<byte>, t: seq<byte>, q: Packet)
    requires |buffer| == MAX_PACKET_LENGTH && |t| <= MAX_DATA_LENGTH && Base64.Decode(t, buffer).Accepted?
    requires q == Base64.Decode(t, buffer).buffer[..UNION_LENGTH]
    ensures Base64.ValidText(t)
    ensures var n, bytes, decoded := PacketLength(q[0]), Base64.DecodeBytes(t), |t| / 4 * 3;
      && (q[..n] <= bytes <==> decoded >= n)
      && (decoded < n ==> q[..decoded] == bytes && q[decoded..n] == buffer[decoded..n])
  {
    AcceptedBuffer(t, buffer);
    OverlayParts(buffer, Base64.DecodeBytes(t), q, PacketLength(q[0]));
  }

  /** An empty Base64 frame delivers the old contents of the decode buffer as a packet, whenever they start with a
      known type byte; a buffer of zeros does. */
  lemma EmptyFrameDeliversStalePacket(st: State)
    requires Valid(st)
    ensures Halts([COLON, BANG])
    ensures PacketLength(st.scratch[0]) > 0 ==>
      Run(st, [COLON, BANG]) == Outcome(Enqueue(st, st.scratch[..UNION_LENGTH]), [])
    ensures PacketLength(st.scratch[0]) == 0 ==> Run(st, [COLON, BANG]) == Outcome(st, [])
    ensures PacketLength(0) > 0
  {
    var w, a := [COLON, BANG], Base64Frame(0, 1);
    assert w == [] + [COLON] + [] + [BANG] + [];
    WireIsFrame(w, [], [], []);
    assert w[1..1] == [] && CString([], MAX_DATA_LENGTH) == [];
    EncodedHandled(st, w, a, []);
    assert Base64.Decode([], st.scratch) == Base64.Accepted(st.scratch, 0);
    NothingToDo(Perform(st, w, a), w[2..]);
  }

  lemma NothingToDo(st: State, w: seq<byte>)
    requires Valid(st) && w == []
    ensures Halts(w) && Run(st, w) == Outcome(st, [])
  {
  }

  // ----- texts that are rejected -----

  /** No quartet of the alphabet comes next. */
  predicate Breaks(r: seq<byte>) {
    r != [] && (|r| < 4 || !Base64.Alphabet(r[..4]))
  }

  /** The bytes in front of the place where a text is rejected are written all the same. */
  lemma {:induction false} RejectedBehind(u: seq<byte>, r: seq<byte>, buffer: seq<byte>, j: nat, length: nat)
    requires Base64.ValidText(u) && Breaks(r) && j <= |buffer|
    ensures Base64.DecodeText(u + r, buffer, j, length)
         == Base64.Rejected(Base64.Overlay(buffer, j, Base64.DecodeBytes(u)))
    decreases |u|
  {
    if u == [] {
      assert u + r == r;
      assert Base64.Overlay(buffer, j, []) == buffer;
    } else {
      var g := Base64.Group(u[..4]);
      TakeAppend(u, r, 4);
      DropAppend(u, r, 4);
      RejectedBehind(u[4..], r, Base64.Overlay(buffer, j, g), Min(j + 3, |buffer|), length + 3);
      Base64.OverlayTwice(buffer, j, g, Base64.DecodeBytes(u[4..]));
    }
  }

  lemma NoPaddingWithout(t: seq<byte>)
    requires EQUALS !in t && |t| <= 340
    ensures !Base64.TooSmall(t, MAX_PACKET_LENGTH) && !Base64.Hangs(t, MAX_PACKET_LENGTH)
  {
    assert Base64.Padding(t) == 0;
    Base64.SmallSize(3 * (|t| / 4));
  }

  /** A frame whose text is valid up to some quartet and then broken: no packet is queued, but the decode buffer begins
      with what the valid part decodes to, for the next frame to deliver. */
  lemma RejectedFrameLeavesBytes(st: State, u: seq<byte>, r: seq<byte>)
    requires Valid(st) && Base64.ValidText(u) && Breaks(r) && Base64.Frameless(u + r) && |u + r| <= 340
    ensures var w := [58] + (u + r) + [33];
      && Halts(w)
      && Run(st, w) == Outcome(st.(scratch := Base64.Overlay(st.scratch, 0, Base64.DecodeBytes(u))), [])
  {
    hide Run, Halts, Classify, Base64.DecodeText, Base64.DecodeBytes;
    var t, w, a := u + r, [58] + (u + r) + [33], Base64Frame(0, 1 + |u + r|);
    assert w == [] + [COLON] + t + [BANG] + [];
    WireIsFrame(w, [], t, []);
    NoPaddingWithout(t);
    RejectedBehind(u, r, st.scratch, 0, 0);
    FramelessString(t);
    EncodedHandled(st, w, a, t);
    SingleFrame(st, w, a);
  }

  lemma FramelessString(t: seq<byte>)
    requires Base64.Frameless(t) && |t| <= MAX_DATA_LENGTH
    ensures CString(t, MAX_DATA_LENGTH) == t
  {
    assert t[..|t|] == t;
  }
}
