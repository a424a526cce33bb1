/** When a call of the serial loop returns: exactly when no Base64 text it meets makes the decoder stick at an '='. */
module Termination {
  import opened Bytes
  import opened Delimiters
  import opened Packets
  import opened Serial
  import opened SerialStream
  import Base64

  /** What the loop meets next: a body, or a command that it skips. */
  datatype Meeting = Delivers(body: Body, rest: seq<byte>) | Skips(rest: seq<byte>) | Stops

  function NextMeeting(s: seq<byte>): (m: Meeting)
    ensures !m.Stops? ==> |m.rest| < |s|
  {
    match NextPiece(s)
    case Piece(body, later) => Delivers(body, later)
    case NoPiece => if SEMICOLON in s then Skips(s[FirstIndex(s, SEMICOLON) + 1..]) else Stops
  }

  /** The bodies between header and footer that a stream holds, with its commands skipped. */
  function Bodies(s: seq<byte>): seq<Body>
    decreases |s|
  {
    match NextMeeting(s)
    case Delivers(body, rest) => [body] + Bodies(rest)
    case Skips(rest) => Bodies(rest)
    case Stops => []
  }

  /** The text of this body passes the decoder's size check, and '=' is its first character outside the alphabet. */
  predicate Sticks(b: Body) {
    b.EncodedBody? && Base64.Hangs(CString(b.body, MAX_DATA_LENGTH), MAX_PACKET_LENGTH)
  }

  predicate NoneSticks(bs: seq<Body>) {
    forall i :: 0 <= i < |bs| ==> !Sticks(bs[i])
  }

  lemma NoneSticksCons(b: Body, bs: seq<Body>)
    ensures NoneSticks([b] + bs) <==> !Sticks(b) && NoneSticks(bs)
  {
    var all := [b] + bs;
    assert forall i :: 0 <= i < |bs| ==> bs[i] == all[i + 1];
    assert all[0] == b;
  }

  /** What one turn of the loop meets. */
  lemma NextBody(s: seq<byte>, a: Action)
    requires a == Classify(s)
    ensures IsFrame(a) ==> NextMeeting(s) == Delivers(BodyOf(s, a), s[Consumed(a)..])
    ensures IsFrame(a) ==> HangsOn(FrameOf(s, a)) == Sticks(BodyOf(s, a))
    ensures a.CommandBlock? ==> NextMeeting(s) == Skips(s[Consumed(a)..])
    ensures a.Wait? ==> NextMeeting(s) == Stops
  {
    var e := FirstIndex(s, BANG);
    if e >= 0 {
      var front := s[..e];
      if AT in front {
        TakeDrop(s, LastIndex(front, AT) + 1, e);
      } else if COLON in front {
        TakeDrop(s, LastIndex(front, COLON) + 1, e);
      }
    }
  }

  lemma {:induction false} BodiesOfFrame(s: seq<byte>, body: Body, later: seq<byte>)
    requires NextMeeting(s) == Delivers(body, later)
    ensures Bodies(s) == [body] + Bodies(later)
  {
  }

  lemma {:induction false} BodiesOfCommands(s: seq<byte>, later: seq<byte>)
    requires NextMeeting(s) == Skips(later)
    ensures Bodies(s) == Bodies(later)
  {
  }

  lemma {:induction false} HaltsStep(s: seq<byte>, a: Action)
    requires a == Classify(s)
    ensures Halts(s) <==> a.Wait? || (!(IsFrame(a) && HangsOn(FrameOf(s, a))) && Halts(s[Consumed(a)..]))
  {
  }

  lemma {:induction false} ReturnsAtFrame(s: seq<byte>, a: Action, later: seq<byte>)
    requires a == Classify(s) && IsFrame(a) && later == s[Consumed(a)..]
    requires Halts(later) <==> NoneSticks(Bodies(later))
    ensures Halts(s) <==> NoneSticks(Bodies(s))
  {
    NextBody(s, a);
    HaltsStep(s, a);
    BodiesOfFrame(s, BodyOf(s, a), later);
    NoneSticksCons(BodyOf(s, a), Bodies(later));
  }

  lemma {:induction false} BodiesAtCommand(s: seq<byte>, a: Action, later: seq<byte>)
    requires a == Classify(s) && a.CommandBlock? && later == s[Consumed(a)..]
    ensures Bodies(s) == Bodies(later)
  {
    NextBody(s, a);
    BodiesOfCommands(s, later);
  }

  lemma {:induction false} ReturnsAtCommand(s: seq<byte>, a: Action, later: seq<byte>)
    requires a == Classify(s) && a.CommandBlock? && later == s[Consumed(a)..]
    requires Halts(later) <==> NoneSticks(Bodies(later))
    ensures Halts(s) <==> NoneSticks(Bodies(s))
  {
    HaltsStep(s, a);
    BodiesAtCommand(s, a, later);
  }

  /** A call on a window returns if and only if none of its Base64 bodies makes the decoder stick. */
  lemma {:induction false} ReturnsIff(s: seq<byte>)
    ensures Halts(s) <==> NoneSticks(Bodies(s))
    decreases |s|
  {
    var a := Classify(s);
    if a.Wait? {
      NextBody(s, a);
    } else {
      ReturnsIff(s[Consumed(a)..]);
      if IsFrame(a) {
        ReturnsAtFrame(s, a, s[Consumed(a)..]);
      } else {
        ReturnsAtCommand(s, a, s[Consumed(a)..]);
      }
    }
  }

  /** On a stream of which the reference parser leaves no ';' these bodies are the ones of the parser. */
  lemma {:induction false} BodiesAreParsed(s: seq<byte>)
    requires SEMICOLON !in Parse(s).rest
    ensures Bodies(s) == Parse(s).bodies
    decreases |s|
  {
    match NextPiece(s)
    case NoPiece => ParseStops(s);
    case Piece(body, later) =>
      BodiesAreParsed(later);
  }

  // ----- padded Base64 -----

  /** Base64 as section 4 of RFC 4648 has it: an incomplete last group is filled up with '='. */
  function PaddedEncode(d: seq<byte>): (t: seq<byte>)
    ensures |t| == (|d| + 2) / 3 * 4
  {
    if d == [] then []
    else if |d| == 1 then Base64.Quad(d[0], 0, 0)[..2] + [EQUALS, EQUALS]
    else if |d| == 2 then Base64.Quad(d[0], d[1], 0)[..3] + [EQUALS]
    else Base64.Quad(d[0], d[1], d[2]) + PaddedEncode(d[3..])
  }

  predicate IsPadding(t: seq<byte>) {
    forall k :: 0 <= k < |t| ==> t[k] == EQUALS
  }

  lemma {:induction false} ShortGroup(d: seq<byte>) returns (front: seq<byte>, padding: seq<byte>)
    requires 1 <= |d| <= 2
    ensures Base64.Alphabet(front) && IsPadding(padding) && padding != [] && PaddedEncode(d) == front + padding
  {
    if |d| == 1 {
      QuadIsAlphabet(d[0], 0, 0);
      front, padding := Base64.Quad(d[0], 0, 0)[..2], [EQUALS, EQUALS];
    } else {
      QuadIsAlphabet(d[0], d[1], 0);
      front, padding := Base64.Quad(d[0], d[1], 0)[..3], [EQUALS];
    }
  }

  lemma {:induction false} WholeGroup(d: seq<byte>, q: seq<byte>)
    requires |d| >= 3 && q == Base64.Quad(d[0], d[1], d[2])
    ensures Base64.Alphabet(q) && PaddedEncode(d) == q + PaddedEncode(d[3..]) && |d[3..]| % 3 == |d| % 3
  {
    QuadIsAlphabet(d[0], d[1], d[2]);
  }

  /** Alphabet characters and then padding, which is there exactly when the last group is incomplete. */
  lemma {:induction false} PaddingComesLast(d: seq<byte>) returns (front: seq<byte>, padding: seq<byte>)
    ensures Base64.Alphabet(front) && IsPadding(padding) && PaddedEncode(d) == front + padding
    ensures padding == [] <==> |d| % 3 == 0
  {
    if d == [] {
      front, padding := [], [];
    } else if |d| < 3 {
      front, padding := ShortGroup(d);
    } else {
      var q, more := Base64.Quad(d[0], d[1], d[2]), [];
      WholeGroup(d, q);
      more, padding := PaddingComesLast(d[3..]);
      Base64.AlphabetConcat(q, more);
      Assoc(q, more, padding);
      front := q + more;
    }
  }

  lemma QuadIsAlphabet(a: byte, b: byte, c: byte)
    ensures Base64.Alphabet(Base64.Quad(a, b, c))
  {
    Base64.CharsInverse(Base64.Digits(a, b, c));
  }

  lemma SizeCheckPasses(t: seq<byte>)
    requires |t| % 4 == 0 && |t| <= MAX_PACKET_LENGTH
    ensures !Base64.TooSmall(t, MAX_PACKET_LENGTH)
  {
    assert t != [] ==> |t| / 4 >= 1;
    Base64.SmallModulus(3 * (|t| / 4) - Base64.Padding(t), MAX_PACKET_LENGTH);
  }

  /** Alphabet characters and then '=' make the decoder stick. */
  lemma SticksBehind(t: seq<byte>, front: seq<byte>, padding: seq<byte>)
    requires |t| % 4 == 0 && |t| <= MAX_PACKET_LENGTH
    requires Base64.Alphabet(front) && IsPadding(padding) && padding != [] && t == front + padding
    ensures Sticks(EncodedBody(t)) && BANG !in t && AT !in t && COLON !in t
  {
    PaddedIsFrameless(t, front, padding);
    SplitAt(front, padding);
    FirstIndexUnique(t, EQUALS, |front|);
    SizeCheckPasses(t);
    WholeText(t);
  }

  lemma PaddedSize(n: nat)
    requires n <= Base64Capacity()
    ensures (n + 2) / 3 * 4 <= MAX_PACKET_LENGTH && (n + 2) / 3 * 4 % 4 == 0
  {
  }

  /** The padded text of data whose length is not a multiple of three makes the decoder stick. */
  lemma {:induction false} PaddedTextSticks(d: seq<byte>)
    requires |d| % 3 != 0 && |d| <= Base64Capacity()
    ensures Sticks(EncodedBody(PaddedEncode(d)))
    ensures var t := PaddedEncode(d); BANG !in t && AT !in t && COLON !in t
  {
    var front, padding := PaddingComesLast(d);
    PaddedSize(|d|);
    SticksBehind(PaddedEncode(d), front, padding);
  }

  /** Data up to this length has a padded text of at most 256 characters. */
  function Base64Capacity(): nat {
    MAX_PACKET_LENGTH / 4 * 3
  }

  lemma WholeText(t: seq<byte>)
    requires NUL !in t && |t| <= MAX_DATA_LENGTH
    ensures CString(t, MAX_DATA_LENGTH) == t
  {
    TakeAll(t, |t|);
  }

  lemma PaddedIsFrameless(t: seq<byte>, front: seq<byte>, padding: seq<byte>)
    requires Base64.Alphabet(front) && IsPadding(padding) && t == front + padding
    ensures BANG !in t && AT !in t && COLON !in t && NUL !in t && EQUALS !in front
  {
    assert forall b :: b in t ==> b in front || b in padding;
  }

  lemma {:induction false} StickingBodyHangs(w: seq<byte>, a: Action, body: Body)
    requires a == Classify(w) && IsFrame(a) && body == BodyOf(w, a) && Sticks(body)
    ensures !Halts(w)
  {
    NextBody(w, a);
    HaltsStep(w, a);
  }

  lemma WireBody(w: seq<byte>, a: Action, g: seq<byte>, t: seq<byte>, v: seq<byte>)
    requires w == g + [COLON] + t + [BANG] + v && BANG !in g && AT !in g && a == Classify(w)
    requires BANG !in t && AT !in t && COLON !in t
    ensures IsFrame(a) && BodyOf(w, a) == EncodedBody(t)
  {
    WireIsFrame(w, g, t, v);
  }

  lemma {:induction false} EncodedTextSticks(w: seq<byte>, g: seq<byte>, t: seq<byte>, v: seq<byte>)
    requires w == g + [COLON] + t + [BANG] + v && BANG !in g && AT !in g
    requires BANG !in t && AT !in t && COLON !in t && Sticks(EncodedBody(t))
    ensures !Halts(w)
  {
    WireBody(w, Classify(w), g, t, v);
    StickingBodyHangs(w, Classify(w), EncodedBody(t));
  }

  /** No packet layout has a length that is a multiple of three, so the padded text of any packet hangs the call,
      whatever garbage without '!' and '@' comes before it and whatever follows. */
  lemma PaddedPacketHangs(w: seq<byte>, g: seq<byte>, p: Packet, v: seq<byte>)
    requires IsPacket(p) && BANG !in g && AT !in g
    requires w == g + [COLON] + PaddedEncode(p) + [BANG] + v
    ensures !Halts(w)
  {
    PaddedTextSticks(p);
    EncodedTextSticks(w, g, PaddedEncode(p), v);
  }

  /** A concrete stream of six bytes on which the call never returns: ":AA==!". */
  lemma ShortStreamHangs()
    ensures !Halts([COLON, 65, 65, EQUALS, EQUALS, BANG])
  {
    var d: seq<byte> := [0];
    var t := PaddedEncode(d);
    assert Base64.Quad(0, 0, 0)[..2] == [65, 65];
    assert t == [65, 65, EQUALS, EQUALS];
    PaddedTextSticks(d);
    var w: seq<byte> := [COLON, 65, 65, EQUALS, EQUALS, BANG];
    assert w == [] + [COLON] + t + [BANG] + [];
    EncodedTextSticks(w, [], t, []);
  }
}
