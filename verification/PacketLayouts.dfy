/** The six packed structs of the packet union, member by member, and what their sizes mean for the splitter. */
module PacketLayouts {
  import opened Bytes
  import opened Packets

  const FLOAT: nat := 4
  const DOUBLE: nat := 8

  /** n members of one width. */
  function Members(n: nat, width: nat): (ws: seq<nat>)
    ensures |ws| == n
  {
    seq(n, _ => width)
  }

  /** Accelerometer and gyroscope of the three IMUs. */
  function Sensors(): seq<nat> {
    Members(18, FLOAT)
  }

  /** Orientation, magnetometer, acceleration and angular velocity. */
  function Motion(): seq<nat> {
    Members(4, FLOAT) + Members(3, FLOAT) + Members(3, FLOAT) + Members(3, FLOAT)
  }

  /** Three temperatures, motion status, diagnostic flag, three reserved bytes, another one, the pressure. */
  function Status(): seq<nat> {
    Members(3, 2) + [1, 1] + Members(3, 1) + [1, FLOAT]
  }

  /** Type and time; the structs for 64-bit time have a wider time and are otherwise the same. */
  function Head(timeWidth: nat): seq<nat> {
    [1, timeWidth]
  }

  /** fs_imu_composite_packet, fs_imu_composite_packet_64 */
  function Composite(timeWidth: nat): seq<nat> {
    Head(timeWidth) + Sensors() + Motion() + Status()
  }

  /** fs_imu_regular_packet, fs_imu_regular_packet_64: three reserved floats, no single sensors. */
  function Regular(timeWidth: nat): seq<nat> {
    Head(timeWidth) + Motion() + Members(3, FLOAT) + Status()
  }

  /** fs_imu_composite_packet_2, fs_imu_composite_packet_64_2: velocity and position. */
  function Composite2(timeWidth: nat): seq<nat> {
    Head(timeWidth) + Sensors() + Motion() + Members(3, FLOAT) + Members(3, DOUBLE) + Status()
  }

  /** The struct that each value of fs_packet_type_t announces; no members for any other byte. */
  function Layout(t: byte): seq<nat> {
    if t in [0, 1, 2, 3] then Composite(4)
    else if t in [4, 5, 6, 7] then Regular(4)
    else if t in [8, 9, 10, 11] then Composite2(4)
    else if t in [100, 101, 102, 103] then Composite(8)
    else if t in [104, 105, 106, 107] then Regular(8)
    else if t in [108, 109, 110, 111] then Composite2(8)
    else []
  }

  /** A packed struct has no padding: its size is the sum of its members' widths. */
  function Size(ws: seq<nat>): nat {
    if ws == [] then 0 else ws[0] + Size(ws[1..])
  }

  lemma {:induction false} SizeAppend(a: seq<nat>, b: seq<nat>)
    ensures Size(a + b) == Size(a) + Size(b)
  {
    if a == [] {
      assert a + b == b;
    } else {
      DropAppend(a, b, 1);
      SizeAppend(a[1..], b);
    }
  }

  lemma {:induction false} SizeMembers(n: nat, width: nat)
    ensures Size(Members(n, width)) == n * width
  {
    if n > 0 {
      assert Members(n, width)[1..] == Members(n - 1, width);
      SizeMembers(n - 1, width);
    }
  }

  lemma MotionSize()
    ensures Size(Motion()) == 52
  {
    hide Members, Size;
    var four, three := Members(4, FLOAT), Members(3, FLOAT);
    SizeMembers(4, FLOAT);
    SizeMembers(3, FLOAT);
    SizeAppend(four + three + three, three);
    SizeAppend(four + three, three);
    SizeAppend(four, three);
  }

  lemma StatusSize()
    ensures Size(Status()) == 16
  {
    hide Members;
    var temperatures, reserved := Members(3, 2), Members(3, 1);
    SizeMembers(3, 2);
    SizeMembers(3, 1);
    SizeAppend(temperatures + [1, 1] + reserved, [1, FLOAT]);
    SizeAppend(temperatures + [1, 1], reserved);
    SizeAppend(temperatures, [1, 1]);
  }

  lemma PartSizes()
    ensures Size(Sensors()) == 72 && Size(Motion()) == 52 && Size(Status()) == 16
    ensures Size(Members(3, FLOAT)) == 12 && Size(Members(3, DOUBLE)) == 24
  {
    hide Members, Size;
    SizeMembers(18, FLOAT);
    SizeMembers(3, FLOAT);
    SizeMembers(3, DOUBLE);
    MotionSize();
    StatusSize();
  }

  lemma StructSizes(timeWidth: nat)
    ensures Size(Composite(timeWidth)) == 141 + timeWidth
    ensures Size(Regular(timeWidth)) == 81 + timeWidth
    ensures Size(Composite2(timeWidth)) == 177 + timeWidth
  {
    hide Size, Sensors, Motion, Status, Members;
    PartSizes();
    HeadSize(timeWidth);
    var head, floats, doubles := Head(timeWidth), Members(3, FLOAT), Members(3, DOUBLE);
    SizeAppend(head + Sensors() + Motion(), Status());
    SizeAppend(head + Sensors(), Motion());
    SizeAppend(head, Sensors());
    SizeAppend(head + Motion() + floats, Status());
    SizeAppend(head + Motion(), floats);
    SizeAppend(head, Motion());
    SizeAppend(head + Sensors() + Motion() + floats + doubles, Status());
    SizeAppend(head + Sensors() + Motion() + floats, doubles);
    SizeAppend(head + Sensors() + Motion(), floats);
  }

  lemma HeadSize(timeWidth: nat)
    ensures Size(Head(timeWidth)) == 1 + timeWidth
  {
    assert Head(timeWidth)[1..] == [timeWidth];
    assert Size([timeWidth]) == timeWidth;
  }

  /** The length that is announced by a type byte is the size of the struct that the byte stands for, and unknown
      types, for which it is 0, are exactly those without a struct. */
  lemma LengthIsStructSize(t: byte)
    ensures PacketLength(t) == Size(Layout(t))
    ensures PacketLength(t) == 0 <==> Layout(t) == []
  {
    hide Size, Composite, Regular, Composite2;
    StructSizes(4);
    StructSizes(8);
    EmptySize();
  }

  lemma EmptySize()
    ensures Size([]) == 0
  {
  }

  /** The union takes the largest struct. */
  lemma UnionFitsAll(t: byte)
    ensures Size(Layout(t)) <= 185 == UNION_LENGTH
    ensures Size(Layout(108)) == 185
  {
    LengthIsStructSize(t);
    LengthIsStructSize(108);
  }

  // ----- the six families, by number -----

  predicate Fits(p: seq<byte>, first: byte, length: nat) {
    |p| == length && p != [] && first as int <= p[0] as int <= first as int + 3
  }

  /** A packet of one of the six families, by type byte and length. */
  predicate InFamily(p: seq<byte>) {
    || Fits(p, 0, 145) || Fits(p, 4, 85) || Fits(p, 8, 181)
    || Fits(p, 100, 149) || Fits(p, 104, 89) || Fits(p, 108, 185)
  }

  /** A packet of a family, in front of anything, is split off whole. */
  lemma FamiliesSplitOff(p: seq<byte>, rest: seq<byte>)
    requires InFamily(p)
    ensures Segment(p + rest, |p|) == Split(1, [p])
  {
    assert p + [] == p;
    TakeAppend(p, rest, |p|);
    SplitOne(p, [], []);
  }
}
