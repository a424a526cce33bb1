/** What the replay reader makes of a single value: a header with the type and one more column, a row with two cells,
    column names and ranges written out. */
module Readings {
  import opened Bytes
  import opened Numbers
  import opened CsvText
  import opened Columns
  import opened Rows

  /** "type,NAME" */
  function TwoNames(name: string): seq<byte> {
    Joined([Ascii("type"), Ascii(name)])
  }

  function TwoCells(kind: nat, text: seq<byte>): seq<byte> {
    Joined([Decimal(kind), text])
  }

  /** A cell that the reader takes in whole. */
  predicate IsCell(text: seq<byte>) {
    44 !in text && |text| <= 400
  }

  /** The packet types that rows are decoded into; those from 100 on have a 64-bit time. */
  const NARROW: set<nat> := {0, 1, 2, 8, 9, 10}
  const WIDE: set<nat> := {100, 101, 102, 108, 109, 110}

  predicate Readable(kind: nat, text: seq<byte>) {
    IsCell(text) && (kind in NARROW || kind in WIDE)
  }

  /** The row is decoded, the packet has its type, and the members of the packet are these. */
  ghost predicate Reads<N(!new)>(fl: Floats<N>, name: string, kind: nat, text: seq<byte>,
                                 members: map<FieldId, Value<N>>)
  {
    Replayed(fl, TwoNames(name), TwoCells(kind, text)) == Decoded(Packet(kind, members))
  }

  // ----- a two-column recording -----

  lemma TwoIn(hs: seq<seq<byte>>)
    requires |hs| == 2 && COMMA !in hs[0] && COMMA !in hs[1] && |hs[0]| + |hs[1]| < LINE_LIMIT
    ensures CommaFree(hs) && Joined(hs) + [] == Joined(hs) && |Joined(hs)| <= LINE_LIMIT
    ensures WithEnd(hs, []) == hs
  {
    assert hs[1] + [] == hs[1];
  }

  lemma TwoSelected(hs: seq<seq<byte>>)
    requires |hs| == 2 && COMMA !in hs[0] && COMMA !in hs[1] && |hs[0]| + |hs[1]| < LINE_LIMIT
    ensures HeaderFields(Lookup, Joined(hs))[..2] == [ColumnField(Lookup, hs[0]), ColumnField(Lookup, hs[1])]
  {
    TwoIn(hs);
    HeaderSelected(Lookup, hs, []);
  }

  lemma TwoTokens(ts: seq<seq<byte>>)
    requires |ts| == 2 && COMMA !in ts[0] && COMMA !in ts[1] && |ts[0]| + |ts[1]| < LINE_LIMIT
    ensures Tokens(Joined(ts)) == ts
  {
    TwoIn(ts);
    TokensOf(ts, []);
  }

  lemma TwoKinds(fields: seq<FieldId>, ts: seq<seq<byte>>)
    requires |ts| == 2 <= |fields| && fields[0] == Type
    ensures KindIn(fields, ts) == Atoi(ts[0])
  {
    assert FirstColumn(fields, 0, Type) == 0;
    assert FirstColumn(fields, 1, Type) == 0;
    FirstStays(fields, 1, 2, Type);
  }

  lemma TwoAssigned<V>(stores: FieldId -> bool, read: (FieldId, seq<byte>) -> V, fields: seq<FieldId>,
                       ts: seq<seq<byte>>, f: FieldId)
    requires |ts| == 2 <= |fields| && fields[0] == Type && fields[1] == f && !stores(Type)
    ensures Assigned(stores, read, fields, ts, 2) == if stores(f) then map[f := read(f, ts[1])] else map[]
  {
    NothingAssigned(stores, read, fields, ts);
    AssignedStep(stores, read, fields, ts, 0, map[]);
    AssignedStep(stores, read, fields, ts, 1, map[]);
  }

  lemma DecimalIsCell(n: nat)
    requires n <= 0xFFFF_FFFF_FFFF_FFFF
    ensures IsCell(Decimal(n)) && IsCell([45] + Decimal(n)) && |Decimal(n)| <= 20
  {
    DecimalLength(n, 20);
    assert forall k :: 0 <= k < |Decimal(n)| ==> IsDigit(Decimal(n)[k]);
  }

  /** The outcome for any column. */
  lemma TwoColumns<N(!new)>(fl: Floats<N>, hs: seq<seq<byte>>, kind: nat, text: seq<byte>, f: FieldId)
    requires |hs| == 2 && COMMA !in hs[0] && COMMA !in hs[1] && |hs[0]| + |hs[1]| <= 200
    requires ColumnField(Lookup, hs[0]) == Type && ColumnField(Lookup, hs[1]) == f && f != Type
    requires IsCell(text) && kind <= 2147483647
    ensures var layout := LayoutOf(kind);
      Replayed(fl, Joined(hs), TwoCells(kind, text))
      == if layout.NoLayout? then Refused
         else Decoded(Packet(kind, if Stores(layout, f) then map[f := Scan(fl, layout, f, text)] else map[]))
  {
    hide Decimal, Atoi, ColumnField, Scan, HeaderFields, Tokens, FirstColumn, Assigned, Joined, Stores;
    var fields, ts, layout := HeaderFields(Lookup, Joined(hs)), [Decimal(kind), text], LayoutOf(kind);
    DecimalIsCell(kind);
    TwoSelected(hs);
    assert fields[..2][0] == fields[0] && fields[..2][1] == fields[1];
    TwoTokens(ts);
    TwoKinds(fields, ts);
    DecimalReads(kind);
    TypeIsNotStored(layout);
    TwoAssigned(StoresIn(layout), ScanIn(fl, layout), fields, ts, f);
  }

  lemma TypeIsNotStored(layout: Layout)
    ensures !Stores(layout, Type)
  {
  }

  // ----- the names -----

  lemma EntryIsSelected(name: string, j: nat)
    requires j < HEADER_MAP_LENGTH && HeaderMap(j).0 == name && PlainName(name) && Known(name) == name
    ensures ColumnField(Lookup, Ascii(name)) == HeaderMap(j).1
    ensures COMMA !in Ascii(name)
  {
    AsciiIsPlain(name);
    assert [] + Ascii(name) + [] == Ascii(name);
    NameSelects(Lookup, [], name, []);
    EntryIsFound(0, j);
  }

  predicate LowerName(name: string) {
    && 0 < |name| <= 18
    && forall k :: 0 <= k < |name| ==> name[k] == '_' || '0' <= name[k] <= '9' || 'a' <= name[k] <= 'z'
  }

  lemma EarlyEntryIsLower(j: nat)
    requires j < 25
    ensures LowerName(HeaderMap(j).0)
  {
  }

  lemma MiddleEntryIsLower(j: nat)
    requires 25 <= j < 43
    ensures LowerName(HeaderMap(j).0)
  {
  }

  lemma LateEntryIsLower(j: nat)
    requires 43 <= j < 53
    ensures LowerName(HeaderMap(j).0)
  {
  }

  lemma LastEntryIsLower(j: nat)
    requires 53 <= j < HEADER_MAP_LENGTH
    ensures LowerName(HeaderMap(j).0)
  {
  }

  lemma EntryIsLower(j: nat)
    requires j < HEADER_MAP_LENGTH
    ensures LowerName(HeaderMap(j).0)
  {
    hide LowerName;
    if j < 25 {
      EarlyEntryIsLower(j);
    } else if j < 43 {
      MiddleEntryIsLower(j);
    } else if j < 53 {
      LateEntryIsLower(j);
    } else {
      LastEntryIsLower(j);
    }
  }

  lemma LowerIsKnown(name: string)
    requires LowerName(name)
    ensures PlainName(name) && Known(name) == name
  {
    KnownIs(name, name);
  }

  lemma TypeIsSelected()
    ensures ColumnField(Lookup, Ascii("type")) == Type && COMMA !in Ascii("type") && |Ascii("type")| == 4
  {
    EntryIsLower(0);
    LowerIsKnown("type");
    EntryIsSelected("type", 0);
  }

  /** A column under its name. */
  lemma OneValue<N(!new)>(fl: Floats<N>, name: string, j: nat, kind: nat, text: seq<byte>, f: FieldId)
    requires j < HEADER_MAP_LENGTH && HeaderMap(j) == (name, f) && f != Type
    requires Readable(kind, text)
    ensures var layout := LayoutOf(kind);
      Reads(fl, name, kind, text, if Stores(layout, f) then map[f := Scan(fl, layout, f, text)] else map[])
  {
    hide HeaderMap, ColumnField, Known, Stores, Scan, LowerName;
    TypeIsSelected();
    EntryIsLower(j);
    LowerIsKnown(name);
    EntryIsSelected(name, j);
    TwoColumns(fl, [Ascii("type"), Ascii(name)], kind, text, f);
  }

  /** A column that every decoded packet has a member for. */
  predicate IsCommon(f: FieldId) {
    IsMember(f) && !IsVelocityOrPosition(f)
  }

  lemma CommonValue<N(!new)>(fl: Floats<N>, name: string, j: nat, kind: nat, text: seq<byte>, f: FieldId, v: Value<N>)
    requires j < HEADER_MAP_LENGTH && HeaderMap(j) == (name, f) && IsCommon(f)
    requires Readable(kind, text) && v == Scan(fl, LayoutOf(kind), f, text)
    ensures Reads(fl, name, kind, text, map[f := v])
  {
    hide HeaderMap, Reads, Readable, Scan;
    OneValue(fl, name, j, kind, text, f);
  }

  // ----- integers, over the whole range of each member -----

  lemma SignedIs(n: int, half: nat)
    requires half == 32768 || half == 128
    requires 0 - half as int <= n < half
    ensures Signed(n, half) == n
  {
  }

  /** The time: modulo 2^32 in the packets that have 32 bits for it, whole in the others. */
  lemma TimeIsRead<N(!new)>(fl: Floats<N>, kind: nat, n: nat)
    requires n <= 18446744073709551615
    ensures kind in NARROW ==> Reads(fl, "time", kind, Decimal(n), map[Time := Integer(n % 4294967296)])
    ensures kind in WIDE ==> Reads(fl, "time", kind, Decimal(n), map[Time := Integer(n)])
  {
    hide Decimal, Reads, Strtoul, HeaderMap, LowerName, IsCell;
    if kind in NARROW || kind in WIDE {
      DecimalIsCell(n);
      DecimalReads(n);
      TimeEntry();
      CommonValue(fl, "time", 2, kind, Decimal(n), Time, Integer(if kind in NARROW then n % 4294967296 else n));
    }
  }

  lemma TimeEntry()
    ensures HeaderMap(2) == ("time", Time)
  {
  }

  lemma TemperatureValue<N>(fl: Floats<N>, layout: Layout, f: FieldId, text: seq<byte>, n: int)
    requires IsTemperature(f) && Atoi(text) == n && -32768 <= n <= 32767
    ensures Scan(fl, layout, f, text) == Integer(n)
  {
    hide Atoi, Signed;
    SignedIs(n, 32768);
  }

  lemma OneTemperature<N(!new)>(fl: Floats<N>, name: string, j: nat, f: FieldId, kind: nat, text: seq<byte>, n: int)
    requires j < HEADER_MAP_LENGTH && HeaderMap(j) == (name, f) && IsTemperature(f)
    requires Readable(kind, text) && Atoi(text) == n && -32768 <= n <= 32767
    ensures Reads(fl, name, kind, text, map[f := Integer(n)])
  {
    hide Reads, Atoi, HeaderMap, Scan, Readable;
    TemperatureValue(fl, LayoutOf(kind), f, text, n);
    CommonValue(fl, name, j, kind, text, f, Integer(n));
  }

  /** A temperature: every 16-bit number. */
  lemma TemperatureIsRead<N(!new)>(fl: Floats<N>, kind: nat, text: seq<byte>, n: int)
    requires kind in NARROW || kind in WIDE
    requires (0 <= n <= 32767 && text == Decimal(n)) || (-32768 <= n <= 0 && text == [45] + Decimal(-n))
    ensures Reads(fl, "temp0", kind, text, map[Temp0 := Integer(n)])
    ensures Reads(fl, "temp1", kind, text, map[Temp1 := Integer(n)])
    ensures Reads(fl, "temp2", kind, text, map[Temp2 := Integer(n)])
  {
    hide Decimal, Reads, Atoi, HeaderMap, LowerName, IsCell;
    SmallNumber(text, n);
    TemperatureEntries();
    OneTemperature(fl, "temp0", 49, Temp0, kind, text, n);
    OneTemperature(fl, "temp1", 50, Temp1, kind, text, n);
    OneTemperature(fl, "temp2", 51, Temp2, kind, text, n);
  }

  lemma TemperatureEntries()
    ensures HeaderMap(49) == ("temp0", Temp0)
    ensures HeaderMap(50) == ("temp1", Temp1)
    ensures HeaderMap(51) == ("temp2", Temp2)
  {
  }

  lemma SmallNumber(text: seq<byte>, n: int)
    requires (0 <= n <= 32767 && text == Decimal(n)) || (-32768 <= n <= 0 && text == [45] + Decimal(-n))
    ensures Atoi(text) == n && IsCell(text)
  {
    hide Decimal, Atoi;
    if 0 <= n && text == Decimal(n) {
      DecimalIsCell(n);
      DecimalReads(n);
    } else {
      DecimalIsCell(-n);
      NegativeReads(-n);
    }
  }

  lemma MotionEntry()
    ensures HeaderMap(55) == ("devicemotionstatus", MotionStatus)
  {
  }

  lemma LabelEntry()
    ensures HeaderMap(56) == ("label", MotionStatus)
  {
  }

  lemma MotionValue<N>(fl: Floats<N>, layout: Layout, text: seq<byte>, n: int)
    requires Atoi(text) == n && -128 <= n <= 127
    ensures Scan(fl, layout, MotionStatus, text) == Integer(n)
  {
    hide Atoi, Signed;
    SignedIs(n, 128);
  }

  /** The motion status: every signed byte, under either name. */
  lemma MotionIsRead<N(!new)>(fl: Floats<N>, kind: nat, text: seq<byte>, n: int)
    requires kind in NARROW || kind in WIDE
    requires (0 <= n <= 127 && text == Decimal(n)) || (-128 <= n <= 0 && text == [45] + Decimal(-n))
    ensures Reads(fl, "devicemotionstatus", kind, text, map[MotionStatus := Integer(n)])
    ensures Reads(fl, "label", kind, text, map[MotionStatus := Integer(n)])
  {
    hide Decimal, Reads, Atoi, HeaderMap, Signed, Scan;
    SmallNumber(text, n);
    MotionValue(fl, LayoutOf(kind), text, n);
    MotionEntry();
    LabelEntry();
    CommonValue(fl, "devicemotionstatus", 55, kind, text, MotionStatus, Integer(n));
    CommonValue(fl, "label", 56, kind, text, MotionStatus, Integer(n));
  }

  /** The diagnostic flag: every unsigned byte. */
  lemma FlagIsRead<N(!new)>(fl: Floats<N>, kind: nat, n: nat)
    requires (kind in NARROW || kind in WIDE) && n <= 255
    ensures Reads(fl, "diagnosticflag", kind, Decimal(n), map[DiagnosticFlag := Integer(n)])
  {
    hide Decimal, Reads, Atoi, HeaderMap, LowerName, IsCell;
    SmallNumber(Decimal(n), n);
    FlagEntry();
    CommonValue(fl, "diagnosticflag", 52, kind, Decimal(n), DiagnosticFlag, Integer(n));
  }

  lemma FlagEntry()
    ensures HeaderMap(52) == ("diagnosticflag", DiagnosticFlag)
  {
  }

  // ----- floating-point members -----

  /** The reader takes the value of a member from strtof. */
  ghost predicate ReadsFloat<N(!new)>(fl: Floats<N>, name: string, f: FieldId, kind: nat, text: seq<byte>) {
    Reads(fl, name, kind, text, map[f := Float(fl.strtof(text))])
  }

  predicate IsFloat(f: FieldId) {
    IsCommon(f) && f != Time && !IsTemperature(f) && f != DiagnosticFlag && f != MotionStatus
  }

  lemma OneFloat<N(!new)>(fl: Floats<N>, name: string, j: nat, f: FieldId, kind: nat, text: seq<byte>)
    requires j < HEADER_MAP_LENGTH && HeaderMap(j) == (name, f) && IsFloat(f)
    requires Readable(kind, text)
    ensures ReadsFloat(fl, name, f, kind, text)
  {
    hide Reads, Readable, HeaderMap;
    CommonValue(fl, name, j, kind, text, f, Float(fl.strtof(text)));
  }

  lemma Sensor0Entries()
    ensures HeaderMap(3) == ("ax0", Ax0)
    ensures HeaderMap(4) == ("ay0", Ay0)
    ensures HeaderMap(5) == ("az0", Az0)
    ensures HeaderMap(6) == ("gx0", Gx0)
    ensures HeaderMap(7) == ("gy0", Gy0)
    ensures HeaderMap(8) == ("gz0", Gz0)
  {
  }

  lemma Sensor0Floats()
    ensures IsFloat(Ax0) && IsFloat(Ay0) && IsFloat(Az0) && IsFloat(Gx0) && IsFloat(Gy0) && IsFloat(Gz0)
  {
  }

  /** The first sensor. */
  lemma Sensor0IsRead<N(!new)>(fl: Floats<N>, kind: nat, text: seq<byte>)
    requires Readable(kind, text)
    ensures ReadsFloat(fl, "ax0", Ax0, kind, text)
    ensures ReadsFloat(fl, "ay0", Ay0, kind, text)
    ensures ReadsFloat(fl, "az0", Az0, kind, text)
    ensures ReadsFloat(fl, "gx0", Gx0, kind, text)
    ensures ReadsFloat(fl, "gy0", Gy0, kind, text)
    ensures ReadsFloat(fl, "gz0", Gz0, kind, text)
  {
    hide HeaderMap, ReadsFloat, Readable, IsFloat;
    Sensor0Entries();
    Sensor0Floats();
    OneFloat(fl, "ax0", 3, Ax0, kind, text);
    OneFloat(fl, "ay0", 4, Ay0, kind, text);
    OneFloat(fl, "az0", 5, Az0, kind, text);
    OneFloat(fl, "gx0", 6, Gx0, kind, text);
    OneFloat(fl, "gy0", 7, Gy0, kind, text);
    OneFloat(fl, "gz0", 8, Gz0, kind, text);
  }

  lemma Sensor1Entries()
    ensures HeaderMap(9) == ("ax1", Ax1)
    ensures HeaderMap(10) == ("ay1", Ay1)
    ensures HeaderMap(11) == ("az1", Az1)
    ensures HeaderMap(12) == ("gx1", Gx1)
    ensures HeaderMap(13) == ("gy1", Gy1)
    ensures HeaderMap(14) == ("gz1", Gz1)
  {
  }

  lemma Sensor1Floats()
    ensures IsFloat(Ax1) && IsFloat(Ay1) && IsFloat(Az1) && IsFloat(Gx1) && IsFloat(Gy1) && IsFloat(Gz1)
  {
  }

  /** The second sensor. */
  lemma Sensor1IsRead<N(!new)>(fl: Floats<N>, kind: nat, text: seq<byte>)
    requires Readable(kind, text)
    ensures ReadsFloat(fl, "ax1", Ax1, kind, text)
    ensures ReadsFloat(fl, "ay1", Ay1, kind, text)
    ensures ReadsFloat(fl, "az1", Az1, kind, text)
    ensures ReadsFloat(fl, "gx1", Gx1, kind, text)
    ensures ReadsFloat(fl, "gy1", Gy1, kind, text)
    ensures ReadsFloat(fl, "gz1", Gz1, kind, text)
  {
    hide HeaderMap, ReadsFloat, Readable, IsFloat;
    Sensor1Entries();
    Sensor1Floats();
    OneFloat(fl, "ax1", 9, Ax1, kind, text);
    OneFloat(fl, "ay1", 10, Ay1, kind, text);
    OneFloat(fl, "az1", 11, Az1, kind, text);
    OneFloat(fl, "gx1", 12, Gx1, kind, text);
    OneFloat(fl, "gy1", 13, Gy1, kind, text);
    OneFloat(fl, "gz1", 14, Gz1, kind, text);
  }

  lemma Sensor2Entries()
    ensures HeaderMap(15) == ("ax2", Ax2)
    ensures HeaderMap(16) == ("ay2", Ay2)
    ensures HeaderMap(17) == ("az2", Az2)
    ensures HeaderMap(18) == ("gx2", Gx2)
    ensures HeaderMap(19) == ("gy2", Gy2)
    ensures HeaderMap(20) == ("gz2", Gz2)
  {
  }

  lemma Sensor2Floats()
    ensures IsFloat(Ax2) && IsFloat(Ay2) && IsFloat(Az2) && IsFloat(Gx2) && IsFloat(Gy2) && IsFloat(Gz2)
  {
  }

  /** The third sensor. */
  lemma Sensor2IsRead<N(!new)>(fl: Floats<N>, kind: nat, text: seq<byte>)
    requires Readable(kind, text)
    ensures ReadsFloat(fl, "ax2", Ax2, kind, text)
    ensures ReadsFloat(fl, "ay2", Ay2, kind, text)
    ensures ReadsFloat(fl, "az2", Az2, kind, text)
    ensures ReadsFloat(fl, "gx2", Gx2, kind, text)
    ensures ReadsFloat(fl, "gy2", Gy2, kind, text)
    ensures ReadsFloat(fl, "gz2", Gz2, kind, text)
  {
    hide HeaderMap, ReadsFloat, Readable, IsFloat;
    Sensor2Entries();
    Sensor2Floats();
    OneFloat(fl, "ax2", 15, Ax2, kind, text);
    OneFloat(fl, "ay2", 16, Ay2, kind, text);
    OneFloat(fl, "az2", 17, Az2, kind, text);
    OneFloat(fl, "gx2", 18, Gx2, kind, text);
    OneFloat(fl, "gy2", 19, Gy2, kind, text);
    OneFloat(fl, "gz2", 20, Gz2, kind, text);
  }

  lemma OrientationEntries()
    ensures HeaderMap(21) == ("q0", Q0)
    ensures HeaderMap(22) == ("q1", Q1)
    ensures HeaderMap(23) == ("q2", Q2)
    ensures HeaderMap(24) == ("q3", Q3)
  {
  }

  lemma OrientationFloats()
    ensures IsFloat(Q0) && IsFloat(Q1) && IsFloat(Q2) && IsFloat(Q3)
  {
  }

  /** The quaternion. */
  lemma OrientationIsRead<N(!new)>(fl: Floats<N>, kind: nat, text: seq<byte>)
    requires Readable(kind, text)
    ensures ReadsFloat(fl, "q0", Q0, kind, text)
    ensures ReadsFloat(fl, "q1", Q1, kind, text)
    ensures ReadsFloat(fl, "q2", Q2, kind, text)
    ensures ReadsFloat(fl, "q3", Q3, kind, text)
  {
    hide HeaderMap, ReadsFloat, Readable, IsFloat;
    OrientationEntries();
    OrientationFloats();
    OneFloat(fl, "q0", 21, Q0, kind, text);
    OneFloat(fl, "q1", 22, Q1, kind, text);
    OneFloat(fl, "q2", 23, Q2, kind, text);
    OneFloat(fl, "q3", 24, Q3, kind, text);
  }

  lemma RatesEntries()
    ensures HeaderMap(25) == ("omegax0", OmegaX0)
    ensures HeaderMap(26) == ("omegay0", OmegaY0)
    ensures HeaderMap(27) == ("omegaz0", OmegaZ0)
  {
  }

  lemma RatesFloats()
    ensures IsFloat(OmegaX0) && IsFloat(OmegaY0) && IsFloat(OmegaZ0)
  {
  }

  /** Angular velocity. */
  lemma RatesAreRead<N(!new)>(fl: Floats<N>, kind: nat, text: seq<byte>)
    requires Readable(kind, text)
    ensures ReadsFloat(fl, "omegax0", OmegaX0, kind, text)
    ensures ReadsFloat(fl, "omegay0", OmegaY0, kind, text)
    ensures ReadsFloat(fl, "omegaz0", OmegaZ0, kind, text)
  {
    hide HeaderMap, ReadsFloat, Readable, IsFloat;
    RatesEntries();
    RatesFloats();
    OneFloat(fl, "omegax0", 25, OmegaX0, kind, text);
    OneFloat(fl, "omegay0", 26, OmegaY0, kind, text);
    OneFloat(fl, "omegaz0", 27, OmegaZ0, kind, text);
  }

  lemma AccelerationEntries()
    ensures HeaderMap(31) == ("accx", AccX)
    ensures HeaderMap(32) == ("accy", AccY)
    ensures HeaderMap(33) == ("accz", AccZ)
  {
  }

  lemma AccelerationFloats()
    ensures IsFloat(AccX) && IsFloat(AccY) && IsFloat(AccZ)
  {
  }

  /** Acceleration. */
  lemma AccelerationIsRead<N(!new)>(fl: Floats<N>, kind: nat, text: seq<byte>)
    requires Readable(kind, text)
    ensures ReadsFloat(fl, "accx", AccX, kind, text)
    ensures ReadsFloat(fl, "accy", AccY, kind, text)
    ensures ReadsFloat(fl, "accz", AccZ, kind, text)
  {
    hide HeaderMap, ReadsFloat, Readable, IsFloat;
    AccelerationEntries();
    AccelerationFloats();
    OneFloat(fl, "accx", 31, AccX, kind, text);
    OneFloat(fl, "accy", 32, AccY, kind, text);
    OneFloat(fl, "accz", 33, AccZ, kind, text);
  }

  lemma MagnetometerEntries()
    ensures HeaderMap(43) == ("magx", MagX)
    ensures HeaderMap(44) == ("magy", MagY)
    ensures HeaderMap(45) == ("magz", MagZ)
    ensures HeaderMap(46) == ("mag_x", MagX)
    ensures HeaderMap(47) == ("mag_y", MagY)
    ensures HeaderMap(48) == ("mag_z", MagZ)
  {
  }

  lemma MagnetometerFloats()
    ensures IsFloat(MagX) && IsFloat(MagY) && IsFloat(MagZ)
  {
  }

  /** The magnetometer, under either spelling. */
  lemma MagnetometerIsRead<N(!new)>(fl: Floats<N>, kind: nat, text: seq<byte>)
    requires Readable(kind, text)
    ensures ReadsFloat(fl, "magx", MagX, kind, text)
    ensures ReadsFloat(fl, "magy", MagY, kind, text)
    ensures ReadsFloat(fl, "magz", MagZ, kind, text)
    ensures ReadsFloat(fl, "mag_x", MagX, kind, text)
    ensures ReadsFloat(fl, "mag_y", MagY, kind, text)
    ensures ReadsFloat(fl, "mag_z", MagZ, kind, text)
  {
    hide HeaderMap, ReadsFloat, Readable, IsFloat;
    MagnetometerEntries();
    MagnetometerFloats();
    OneFloat(fl, "magx", 43, MagX, kind, text);
    OneFloat(fl, "magy", 44, MagY, kind, text);
    OneFloat(fl, "magz", 45, MagZ, kind, text);
    OneFloat(fl, "mag_x", 46, MagX, kind, text);
    OneFloat(fl, "mag_y", 47, MagY, kind, text);
    OneFloat(fl, "mag_z", 48, MagZ, kind, text);
  }

  lemma PressureEntries()
    ensures HeaderMap(53) == ("barometricpressure", BarometricPressure)
    ensures HeaderMap(54) == ("baro", BarometricPressure)
  {
  }

  lemma PressureFloats()
    ensures IsFloat(BarometricPressure)
  {
  }

  /** The pressure, under either name. */
  lemma PressureIsRead<N(!new)>(fl: Floats<N>, kind: nat, text: seq<byte>)
    requires Readable(kind, text)
    ensures ReadsFloat(fl, "barometricpressure", BarometricPressure, kind, text)
    ensures ReadsFloat(fl, "baro", BarometricPressure, kind, text)
  {
    hide HeaderMap, ReadsFloat, Readable, IsFloat;
    PressureEntries();
    PressureFloats();
    OneFloat(fl, "barometricpressure", 53, BarometricPressure, kind, text);
    OneFloat(fl, "baro", 54, BarometricPressure, kind, text);
  }

  // ----- velocity, position, and what is not stored -----

  lemma PartEntries()
    ensures HeaderMap(34) == ("vx", Vx) && HeaderMap(35) == ("vy", Vy) && HeaderMap(36) == ("vz", Vz)
    ensures HeaderMap(37) == ("rx", Rx) && HeaderMap(38) == ("ry", Ry) && HeaderMap(39) == ("rz", Rz)
  {
  }

  lemma OnePart<N(!new)>(fl: Floats<N>, name: string, j: nat, f: FieldId, kind: nat, text: seq<byte>)
    requires 34 <= j <= 39 && HeaderMap(j) == (name, f) && Readable(kind, text)
    ensures kind in {8, 9, 10, 108, 109, 110} ==>
      Reads(fl, name, kind, text, map[f := Float(if IsPosition(f) then fl.strtod(text) else fl.strtof(text))])
    ensures kind in {0, 1, 2, 100, 101, 102} ==> Reads(fl, name, kind, text, map[])
  {
    hide Reads, HeaderMap;
    PartEntry(j);
    OneValue(fl, name, j, kind, text, f);
  }

  lemma PartEntry(j: nat)
    requires 34 <= j <= 39
    ensures IsVelocityOrPosition(HeaderMap(j).1)
  {
  }

  /** Velocity through strtof and position through strtod, in the packets that have them; otherwise nothing. */
  lemma VelocityIsRead<N(!new)>(fl: Floats<N>, kind: nat, text: seq<byte>)
    requires Readable(kind, text)
    ensures kind in {8, 9, 10, 108, 109, 110} ==>
      && ReadsFloat(fl, "vx", Vx, kind, text)
      && ReadsFloat(fl, "vy", Vy, kind, text)
      && ReadsFloat(fl, "vz", Vz, kind, text)
    ensures kind in {0, 1, 2, 100, 101, 102} ==>
      Reads(fl, "vx", kind, text, map[]) && Reads(fl, "vy", kind, text, map[]) && Reads(fl, "vz", kind, text, map[])
  {
    hide HeaderMap, Reads, Readable;
    PartEntries();
    OnePart(fl, "vx", 34, Vx, kind, text);
    OnePart(fl, "vy", 35, Vy, kind, text);
    OnePart(fl, "vz", 36, Vz, kind, text);
  }

  lemma PositionIsRead<N(!new)>(fl: Floats<N>, kind: nat, text: seq<byte>)
    requires Readable(kind, text)
    ensures kind in {8, 9, 10, 108, 109, 110} ==>
      && Reads(fl, "rx", kind, text, map[Rx := Float(fl.strtod(text))])
      && Reads(fl, "ry", kind, text, map[Ry := Float(fl.strtod(text))])
      && Reads(fl, "rz", kind, text, map[Rz := Float(fl.strtod(text))])
    ensures kind in {0, 1, 2, 100, 101, 102} ==>
      Reads(fl, "rx", kind, text, map[]) && Reads(fl, "ry", kind, text, map[]) && Reads(fl, "rz", kind, text, map[])
  {
    hide HeaderMap, Reads, Readable;
    PartEntries();
    OnePart(fl, "rx", 37, Rx, kind, text);
    OnePart(fl, "ry", 38, Ry, kind, text);
    OnePart(fl, "rz", 39, Rz, kind, text);
  }

  lemma DroppedEntries()
    ensures HeaderMap(28) == ("omegax1", OmegaX1) && HeaderMap(29) == ("omegay1", OmegaY1)
    ensures HeaderMap(30) == ("omegaz1", OmegaZ1) && HeaderMap(40) == ("reserved0_1", Reserved1)
    ensures HeaderMap(41) == ("reserved0_2", Reserved2) && HeaderMap(42) == ("reserved0_3", Reserved3)
  {
  }

  lemma OneDropped<N(!new)>(fl: Floats<N>, name: string, j: nat, f: FieldId, kind: nat, text: seq<byte>)
    requires (28 <= j <= 30 || 40 <= j <= 42) && HeaderMap(j) == (name, f) && Readable(kind, text)
    ensures Reads(fl, name, kind, text, map[])
  {
    hide Reads, Scan, LayoutOf, HeaderMap;
    DroppedEntry(j);
    OneValue(fl, name, j, kind, text, f);
  }

  lemma DroppedEntry(j: nat)
    requires 28 <= j <= 30 || 40 <= j <= 42
    ensures !IsMember(HeaderMap(j).1) && HeaderMap(j).1 != Type
  {
  }

  /** Six known names that no packet has a member for. */
  lemma ReservedAreDropped<N(!new)>(fl: Floats<N>, kind: nat, text: seq<byte>)
    requires Readable(kind, text)
    ensures Reads(fl, "omegax1", kind, text, map[]) && Reads(fl, "omegay1", kind, text, map[])
    ensures Reads(fl, "omegaz1", kind, text, map[]) && Reads(fl, "reserved0_1", kind, text, map[])
    ensures Reads(fl, "reserved0_2", kind, text, map[]) && Reads(fl, "reserved0_3", kind, text, map[])
  {
    hide HeaderMap, Reads, Readable;
    DroppedEntries();
    OneDropped(fl, "omegax1", 28, OmegaX1, kind, text);
    OneDropped(fl, "omegay1", 29, OmegaY1, kind, text);
    OneDropped(fl, "omegaz1", 30, OmegaZ1, kind, text);
    OneDropped(fl, "reserved0_1", 40, Reserved1, kind, text);
    OneDropped(fl, "reserved0_2", 41, Reserved2, kind, text);
    OneDropped(fl, "reserved0_3", 42, Reserved3, kind, text);
  }

  // ----- the type column -----

  lemma TimeIsSelected()
    ensures ColumnField(Lookup, Ascii("time")) == Time && COMMA !in Ascii("time") && |Ascii("time")| == 4
  {
    EntryIsLower(2);
    LowerIsKnown("time");
    EntryIsSelected("time", 2);
  }

  lemma RefusedIff(kind: int)
    ensures LayoutOf(kind).NoLayout? <==> kind !in [0, 1, 2, 8, 9, 10, 100, 101, 102, 108, 109, 110]
  {
  }

  /** A row with a type outside the twelve is refused, whatever it holds. */
  lemma OtherKindsAreRefused<N(!new)>(fl: Floats<N>, kind: nat, text: seq<byte>)
    requires IsCell(text) && kind <= 2147483647 && kind !in [0, 1, 2, 8, 9, 10, 100, 101, 102, 108, 109, 110]
    ensures Replayed(fl, TwoNames("time"), TwoCells(kind, text)) == Refused
  {
    hide LayoutOf, ColumnField, TwoCells, Joined, Stores, Scan;
    TypeIsSelected();
    TimeIsSelected();
    RefusedIff(kind);
    TwoColumns(fl, [Ascii("type"), Ascii("time")], kind, text, Time);
  }

  /** "PacketType" with a blank in front of it and "Time" with white space around it are the same two columns. */
  lemma SpelledDifferently<N(!new)>(fl: Floats<N>, kind: nat, n: nat)
    requires kind in WIDE && n <= 18446744073709551615
    ensures Replayed(fl, Joined([[32] + Ascii("PacketType") + [], [9, 32] + Ascii("Time") + [32, 10]]),
                     TwoCells(kind, Decimal(n)))
         == Decoded(Packet(kind, map[Time := Integer(n)]))
  {
    hide Decimal, Strtoul, Atoi, ColumnField, TwoCells, Joined;
    var first, second: seq<byte> := [32] + Ascii("PacketType") + [], [9, 32] + Ascii("Time") + [32, 10];
    DecimalIsCell(n);
    DecimalReads(n);
    SpelledNames(first, second);
    TwoColumns(fl, [first, second], kind, Decimal(n), Time);
  }

  lemma SpelledNames(first: seq<byte>, second: seq<byte>)
    requires first == [32] + Ascii("PacketType") + [] && second == [9, 32] + Ascii("Time") + [32, 10]
    ensures ColumnField(Lookup, first) == Type && ColumnField(Lookup, second) == Time
    ensures COMMA !in first && COMMA !in second && |first| == 11 && |second| == 8
  {
    hide Known, ColumnField;
    PacketTypeIsKnown();
    TimeIsKnown();
    AsciiIsPlain("PacketType");
    AsciiIsPlain("Time");
    NameSelects(Lookup, [32], "PacketType", []);
    NameSelects(Lookup, [9, 32], "Time", [32, 10]);
  }

  lemma PacketTypeIsKnown()
    ensures PlainName("PacketType") && Lookup(Known("PacketType")) == Type
  {
    hide Known;
    KnownIs("PacketType", "packettype");
    EntryIsFound(0, 1);
  }

  lemma TimeIsKnown()
    ensures PlainName("Time") && Lookup(Known("Time")) == Time
  {
    hide Known;
    KnownIs("Time", "time");
    EntryIsFound(0, 2);
  }
}
