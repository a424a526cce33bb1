/** Packet layouts and the splitter of concatenated binary packets (obtain_packet_length, segment_packets). */
module Packets {
  import opened Bytes

  const MAX_PACKET_LENGTH: nat := 256  // FS_MAX_PACKET_LENGTH, size of the decode buffer
  const UNION_LENGTH: nat := 185       // sizeof(fs_packet_union_t)
  const PACKET_QUEUE_LENGTH: nat := 16 // FS_MAX_PACKET_QUEUE_LENGTH

  /** A queued packet: the bytes of the union that the producer defined, at least those of the packet's layout. */
  type Packet = seq<byte>

  /** obtain_packet_length: the packed size of the layout that a type byte announces, 0 for an unknown type. */
  function PacketLength(t: byte): (n: nat)
    ensures n == 0 || 85 <= n <= UNION_LENGTH
    ensures n == 0 <==> !(t <= 11 || 100 <= t <= 111)
  {
    if t <= 3 then 145                // composite
    else if t <= 7 then 85            // regular
    else if t <= 11 then 181          // composite 2
    else if 100 <= t <= 103 then 149  // composite, 64-bit time
    else if 104 <= t <= 107 then 89   // regular, 64-bit time
    else if 108 <= t <= 111 then 185  // composite 2, 64-bit time
    else 0
  }

  /** A complete packet of one of the six accepted layouts. */
  predicate IsPacket(p: seq<byte>) {
    p != [] && PacketLength(p[0]) == |p|
  }

  predicate ArePackets(ps: seq<Packet>) {
    forall i :: 0 <= i < |ps| ==> IsPacket(ps[i])
  }

  // ----- the splitter -----

  /** The code's return value and the packets enqueued before it returned. */
  datatype Split = Split(rc: int, packets: seq<Packet>)

  /** The loop of segment_packets from a position on, done having been enqueued already. */
  function SplitFrom(rest: seq<byte>, done: seq<Packet>): Split
    decreases |rest|
  {
    if rest == [] then Split(|done|, done)
    else
      var n := PacketLength(rest[0]);
      if n == 0 then Split(0, done)
      else if n > |rest| then Split(-1, done)
      else SplitFrom(rest[n..], done + [rest[..n]])
  }

  /** segment_packets on rxLen bytes at rx; the length is a size_t that may exceed what the buffer holds. */
  function Segment(rx: seq<byte>, rxLen: nat): Split
    requires rxLen <= MAX_DATA_LENGTH ==> rxLen <= |rx|
  {
    if rxLen == 0 || rxLen > MAX_DATA_LENGTH then Split(-1, []) else SplitFrom(rx[..rxLen], [])
  }

  /** What is left behind the last complete packet. */
  datatype Tail = Nothing | Unknown | Partial

  predicate IsTail(t: seq<byte>, kind: Tail) {
    match kind
    case Nothing => t == []
    case Unknown => t != [] && PacketLength(t[0]) == 0
    case Partial => t != [] && PacketLength(t[0]) > |t|
  }

  function TailCode(kind: Tail, count: nat): int {
    match kind
    case Nothing => count
    case Unknown => 0
    case Partial => -1
  }

  lemma SplitOne(p: Packet, rest: seq<byte>, done: seq<Packet>)
    requires IsPacket(p)
    ensures SplitFrom(p + rest, done) == SplitFrom(rest, done + [p])
  {
    SplitAt(p, rest);
  }

  /** Packets followed by a tail split into exactly those packets, and the return value tells the tail. */
  lemma {:induction false} SplitRecovers(ps: seq<Packet>, t: seq<byte>, kind: Tail, done: seq<Packet>)
    requires ArePackets(ps) && IsTail(t, kind)
    ensures SplitFrom(Concat(ps) + t, done) == Split(TailCode(kind, |done| + |ps|), done + ps)
    decreases |ps|
  {
    if ps == [] {
      assert Concat(ps) + t == t;
      assert done + ps == done;
    } else {
      var rest := Concat(ps[1..]) + t;
      Assoc(ps[0], Concat(ps[1..]), t);
      SplitOne(ps[0], rest, done);
      SplitRecovers(ps[1..], t, kind, done + [ps[0]]);
      Shift(done, ps);
    }
  }

  /** Every byte string is a list of packets followed by a tail. */
  lemma {:induction false} Decompose(rest: seq<byte>) returns (ps: seq<Packet>, t: seq<byte>, kind: Tail)
    ensures ArePackets(ps) && IsTail(t, kind) && rest == Concat(ps) + t
    decreases |rest|
  {
    if rest == [] {
      ps, t, kind := [], rest, Nothing;
    } else if PacketLength(rest[0]) == 0 {
      ps, t, kind := [], rest, Unknown;
    } else if PacketLength(rest[0]) > |rest| {
      ps, t, kind := [], rest, Partial;
    } else {
      var n := PacketLength(rest[0]);
      var qs;
      qs, t, kind := Decompose(rest[n..]);
      ps := [rest[..n]] + qs;
      assert ps[1..] == qs;
      assert rest == rest[..n] + (Concat(qs) + t);
    }
  }

  /** The binary format is uniquely decodable: equal byte strings come from equal packet lists and equal tails. */
  lemma UniquelyDecodable(ps: seq<Packet>, t: seq<byte>, k: Tail, qs: seq<Packet>, u: seq<byte>, l: Tail)
    requires ArePackets(ps) && IsTail(t, k) && ArePackets(qs) && IsTail(u, l)
    requires Concat(ps) + t == Concat(qs) + u
    ensures ps == qs && t == u && k == l
  {
    SplitRecovers(ps, t, k, []);
    SplitRecovers(qs, u, l, []);
    assert [] + ps == ps && [] + qs == qs;
    var all := Concat(ps) + t;
    assert all[|Concat(ps)|..] == t && all[|Concat(qs)|..] == u;
  }

  lemma {:induction false} PacketsTakeRoom(ps: seq<Packet>)
    requires ArePackets(ps)
    ensures |Concat(ps)| >= 85 * |ps|
  {
    if ps != [] {
      PacketsTakeRoom(ps[1..]);
    }
  }

  /** What segment_packets does on every input: at most six packets, each complete, in order, from the front. */
  lemma SegmentMeaning(rx: seq<byte>, rxLen: nat) returns (t: seq<byte>, kind: Tail)
    requires rxLen <= MAX_DATA_LENGTH ==> rxLen <= |rx|
    ensures var r := Segment(rx, rxLen);
      && ArePackets(r.packets) && |r.packets| <= 6
      && (0 < rxLen <= MAX_DATA_LENGTH ==>
            IsTail(t, kind) && rx[..rxLen] == Concat(r.packets) + t && r.rc == TailCode(kind, |r.packets|))
      && (rxLen == 0 || rxLen > MAX_DATA_LENGTH ==> r == Split(-1, []))
  {
    t, kind := [], Nothing;
    if 0 < rxLen <= MAX_DATA_LENGTH {
      var ps;
      ps, t, kind := Decompose(rx[..rxLen]);
      SplitRecovers(ps, t, kind, []);
      assert [] + ps == ps;
      PacketsTakeRoom(ps);
    }
  }
}
