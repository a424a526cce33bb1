/** What the saver writes, column by column: the header line and the rows of each packet family as explicit lists. */
module SavedRows {
  import opened Bytes
  import opened Numbers
  import opened CsvText
  import opened Columns
  import opened Rows
  import opened Saver

  // ----- the columns in groups, as in the format string -----

  predicate ColumnsAt(from: nat, fs: seq<FieldId>) {
    from + |fs| <= COLUMN_COUNT && forall i :: 0 <= i < |fs| ==> Column(from + i) == fs[i]
  }

  lemma FrontColumns()
    ensures ColumnsAt(0, [Type, Time])
  {
  }

  lemma Sensor0Columns()
    ensures ColumnsAt(2, [Ax0, Ay0, Az0, Gx0, Gy0, Gz0])
  {
  }

  lemma Sensor1Columns()
    ensures ColumnsAt(8, [Ax1, Ay1, Az1, Gx1, Gy1, Gz1])
  {
  }

  lemma Sensor2Columns()
    ensures ColumnsAt(14, [Ax2, Ay2, Az2, Gx2, Gy2, Gz2])
  {
  }

  lemma OrientationColumns()
    ensures ColumnsAt(20, [Q0, Q1, Q2, Q3])
  {
  }

  lemma MagneticColumns()
    ensures ColumnsAt(24, [MagX, MagY, MagZ])
  {
  }

  lemma RateColumns()
    ensures ColumnsAt(27, [OmegaX0, OmegaY0, OmegaZ0])
  {
  }

  lemma AccelerationColumns()
    ensures ColumnsAt(30, [AccX, AccY, AccZ])
  {
  }

  lemma VelocityColumns()
    ensures ColumnsAt(33, [Vx, Vy, Vz])
  {
  }

  lemma PositionColumns()
    ensures ColumnsAt(36, [Rx, Ry, Rz])
  {
  }

  lemma TemperatureColumns()
    ensures ColumnsAt(39, [Temp0, Temp1, Temp2])
  {
  }

  lemma MotionColumn()
    ensures ColumnsAt(42, [MotionStatus])
  {
  }

  lemma InGroups<T>(cells: seq<T>)
    requires |cells| == 43
    ensures cells == cells[0..2] + cells[2..8] + cells[8..14] + cells[14..20] + cells[20..24] + cells[24..27]
                     + cells[27..30] + cells[30..33] + cells[33..36] + cells[36..39] + cells[39..42] + cells[42..43]
  {
  }

  // ----- the header line -----

  function Names(names: seq<string>): (r: seq<seq<byte>>)
    ensures |r| == |names|
  {
    seq(|names|, i requires 0 <= i < |names| => Ascii(names[i]))
  }

  lemma NamesInHeader(from: nat, fs: seq<FieldId>, names: seq<string>)
    requires ColumnsAt(from, fs) && |names| == |fs| && forall i :: 0 <= i < |fs| ==> HeaderName(fs[i]) == names[i]
    ensures HeaderNames()[from..from + |fs|] == Names(names)
  {
    hide HeaderName, Column;
  }

  lemma FrontNames()
    ensures HeaderNames()[0..2] == Names(["PacketType", "Time"])
  {
    FrontColumns();
    NamesInHeader(0, [Type, Time], ["PacketType", "Time"]);
  }

  lemma Sensor0Names()
    ensures HeaderNames()[2..8] == Names(["Ax0", "Ay0", "Az0", "Gx0", "Gy0", "Gz0"])
  {
    Sensor0Columns();
    NamesInHeader(2, [Ax0, Ay0, Az0, Gx0, Gy0, Gz0], ["Ax0", "Ay0", "Az0", "Gx0", "Gy0", "Gz0"]);
  }

  lemma Sensor1Names()
    ensures HeaderNames()[8..14] == Names(["Ax1", "Ay1", "Az1", "Gx1", "Gy1", "Gz1"])
  {
    Sensor1Columns();
    NamesInHeader(8, [Ax1, Ay1, Az1, Gx1, Gy1, Gz1], ["Ax1", "Ay1", "Az1", "Gx1", "Gy1", "Gz1"]);
  }

  lemma Sensor2Names()
    ensures HeaderNames()[14..20] == Names(["Ax2", "Ay2", "Az2", "Gx2", "Gy2", "Gz2"])
  {
    Sensor2Columns();
    NamesInHeader(14, [Ax2, Ay2, Az2, Gx2, Gy2, Gz2], ["Ax2", "Ay2", "Az2", "Gx2", "Gy2", "Gz2"]);
  }

  lemma OrientationNames()
    ensures HeaderNames()[20..24] == Names(["Q0", "Q1", "Q2", "Q3"])
  {
    OrientationColumns();
    NamesInHeader(20, [Q0, Q1, Q2, Q3], ["Q0", "Q1", "Q2", "Q3"]);
  }

  lemma MagneticNames()
    ensures HeaderNames()[24..27] == Names(["MagX", "MagY", "MagZ"])
  {
    MagneticColumns();
    NamesInHeader(24, [MagX, MagY, MagZ], ["MagX", "MagY", "MagZ"]);
  }

  lemma RateNames()
    ensures HeaderNames()[27..30] == Names(["OmegaX0", "OmegaY0", "OmegaZ0"])
  {
    RateColumns();
    NamesInHeader(27, [OmegaX0, OmegaY0, OmegaZ0], ["OmegaX0", "OmegaY0", "OmegaZ0"]);
  }

  lemma AccelerationNames()
    ensures HeaderNames()[30..33] == Names(["AccX", "AccY", "AccZ"])
  {
    AccelerationColumns();
    NamesInHeader(30, [AccX, AccY, AccZ], ["AccX", "AccY", "AccZ"]);
  }

  lemma VelocityNames()
    ensures HeaderNames()[33..36] == Names(["Vx", "Vy", "Vz"])
  {
    VelocityColumns();
    NamesInHeader(33, [Vx, Vy, Vz], ["Vx", "Vy", "Vz"]);
  }

  lemma PositionNames()
    ensures HeaderNames()[36..39] == Names(["Rx", "Ry", "Rz"])
  {
    PositionColumns();
    NamesInHeader(36, [Rx, Ry, Rz], ["Rx", "Ry", "Rz"]);
  }

  lemma TemperatureNames()
    ensures HeaderNames()[39..42] == Names(["Temp_0", "Temp_1", "Temp_2"])
  {
    TemperatureColumns();
    NamesInHeader(39, [Temp0, Temp1, Temp2], ["Temp_0", "Temp_1", "Temp_2"]);
  }

  lemma MotionName()
    ensures HeaderNames()[42..43] == Names(["DeviceMotionStatus"])
  {
    MotionColumn();
    NamesInHeader(42, [MotionStatus], ["DeviceMotionStatus"]);
  }

  /** The header line, name by name. */
  lemma HeaderLineIs()
    ensures HeaderLine() == Joined(
      Names(["PacketType", "Time"])
      + Names(["Ax0", "Ay0", "Az0", "Gx0", "Gy0", "Gz0"])
      + Names(["Ax1", "Ay1", "Az1", "Gx1", "Gy1", "Gz1"])
      + Names(["Ax2", "Ay2", "Az2", "Gx2", "Gy2", "Gz2"])
      + Names(["Q0", "Q1", "Q2", "Q3"])
      + Names(["MagX", "MagY", "MagZ"])
      + Names(["OmegaX0", "OmegaY0", "OmegaZ0"])
      + Names(["AccX", "AccY", "AccZ"])
      + Names(["Vx", "Vy", "Vz"])
      + Names(["Rx", "Ry", "Rz"])
      + Names(["Temp_0", "Temp_1", "Temp_2"])
      + Names(["DeviceMotionStatus"])) + [10]
  {
    hide Joined, Names, HeaderNames;
    FrontNames();
    Sensor0Names();
    Sensor1Names();
    Sensor2Names();
    OrientationNames();
    MagneticNames();
    RateNames();
    AccelerationNames();
    VelocityNames();
    PositionNames();
    TemperatureNames();
    MotionName();
    InGroups(HeaderNames());
  }

  // ----- the rows -----

  /** A number as printed: its text, of which a 32-byte buffer holds 31 characters. */
  function FloatText<N>(fl: Floats<N>, x: N): seq<byte> {
    var text := fl.format(x);
    if |text| <= 31 then text else text[..31]
  }

  /** The texts of the named members. */
  function Texts<N>(fl: Floats<N>, s: Sample<N>, fs: seq<FieldId>): (r: seq<seq<byte>>)
    ensures |r| == |fs|
  {
    seq(|fs|, i requires 0 <= i < |fs| => FloatText(fl, s.floats(fs[i])))
  }

  function Blanks(n: nat): (r: seq<seq<byte>>)
    ensures |r| == n
  {
    seq(n, _ => [])
  }

  /** Type and time, the time as the standard packet has it. */
  function Front<N>(s: Sample<N>): seq<seq<byte>> {
    [Decimal(s.kind), Decimal(s.time % 4294967296)]
  }

  function Temperatures<N>(fl: Floats<N>, s: Sample<N>): seq<seq<byte>>
    requires Valid(s)
  {
    [FloatText(fl, s.temperatures[0]), FloatText(fl, s.temperatures[1]), FloatText(fl, s.temperatures[2])]
  }

  /** The motion status as %u prints it: a negative one counts down from 2^32. */
  function Motion<N>(s: Sample<N>): seq<seq<byte>>
    requires Valid(s)
  {
    [Decimal(if s.motion < 0 then 4294967296 + s.motion else s.motion)]
  }

  predicate IsNumber(f: FieldId) {
    f != Type && f != Time && !IsTemperature(f) && f != MotionStatus
  }

  lemma NumberCell<N>(fl: Floats<N>, s: Sample<N>, f: FieldId)
    requires Valid(s) && IsNumber(f) && Prints(s.kind, f)
    ensures Cell(fl, s, f) == FloatText(fl, s.floats(f))
  {
    hide Prints, Decimal;
  }

  lemma NumbersInRow<N>(fl: Floats<N>, s: Sample<N>, from: nat, fs: seq<FieldId>)
    requires Valid(s) && ColumnsAt(from, fs)
    requires forall i :: 0 <= i < |fs| ==> IsNumber(fs[i]) && Prints(s.kind, fs[i])
    ensures Cells(fl, s)[from..from + |fs|] == Texts(fl, s, fs)
  {
    hide Column, Cell, FloatText, IsNumber, Prints;
    var part := Cells(fl, s)[from..from + |fs|];
    forall i | 0 <= i < |fs| ensures part[i] == FloatText(fl, s.floats(fs[i])) {
      assert Column(from + i) == fs[i];
      NumberCell(fl, s, fs[i]);
    }
  }

  lemma BlanksInRow<N>(fl: Floats<N>, s: Sample<N>, from: nat, fs: seq<FieldId>)
    requires Valid(s) && ColumnsAt(from, fs)
    requires forall i :: 0 <= i < |fs| ==> fs[i] != Type && fs[i] != Time && !Prints(s.kind, fs[i])
    ensures Cells(fl, s)[from..from + |fs|] == Blanks(|fs|)
  {
    hide Column, Decimal, NumberText;
    var part := Cells(fl, s)[from..from + |fs|];
    forall i | 0 <= i < |fs| ensures part[i] == [] {
      assert Column(from + i) == fs[i];
    }
  }

  lemma CellAt<N>(fl: Floats<N>, s: Sample<N>, c: nat, f: FieldId)
    requires Valid(s) && c < COLUMN_COUNT && Column(c) == f
    ensures Cells(fl, s)[c] == Cell(fl, s, f)
  {
    hide Cell, Column;
  }

  lemma FrontOfRow<N>(fl: Floats<N>, s: Sample<N>)
    requires Valid(s)
    ensures Cells(fl, s)[0..2] == Front(s)
  {
    hide Cells;
    CellAt(fl, s, 0, Type);
    CellAt(fl, s, 1, Time);
  }

  lemma TemperatureCells<N>(fl: Floats<N>, s: Sample<N>)
    requires Valid(s) && s.kind <= 11
    ensures Cell(fl, s, Temp0) == FloatText(fl, s.temperatures[0])
    ensures Cell(fl, s, Temp1) == FloatText(fl, s.temperatures[1])
    ensures Cell(fl, s, Temp2) == FloatText(fl, s.temperatures[2])
  {
    hide Decimal;
  }

  lemma MotionCell<N>(fl: Floats<N>, s: Sample<N>)
    requires Valid(s) && s.kind <= 11
    ensures [Cell(fl, s, MotionStatus)] == Motion(s)
  {
    hide Decimal, NumberText;
    LowHalf(s.motion);
  }

  lemma LowHalf(m: int)
    requires -128 <= m < 128
    ensures m % U32 == if m < 0 then 4294967296 + m else m
  {
    assert m < 0 ==> (m + U32) % U32 == m + U32;
  }

  lemma StatusInRow<N>(fl: Floats<N>, s: Sample<N>)
    requires Valid(s) && s.kind <= 11
    ensures Cells(fl, s)[39..42] == Temperatures(fl, s) && Cells(fl, s)[42..43] == Motion(s)
  {
    hide Cells, Cell, Motion, FloatText;
    TemperatureCells(fl, s);
    MotionCell(fl, s);
    CellAt(fl, s, 39, Temp0);
    CellAt(fl, s, 40, Temp1);
    CellAt(fl, s, 41, Temp2);
    CellAt(fl, s, 42, MotionStatus);
  }

  lemma SensorsInRow<N>(fl: Floats<N>, s: Sample<N>)
    requires Valid(s) && (s.kind <= 3 || 8 <= s.kind <= 11)
    ensures Cells(fl, s)[2..8] == Texts(fl, s, [Ax0, Ay0, Az0, Gx0, Gy0, Gz0])
    ensures Cells(fl, s)[8..14] == Texts(fl, s, [Ax1, Ay1, Az1, Gx1, Gy1, Gz1])
    ensures Cells(fl, s)[14..20] == Texts(fl, s, [Ax2, Ay2, Az2, Gx2, Gy2, Gz2])
  {
    hide Column, ColumnsAt, Texts, Cells;
    Sensor0Columns();
    Sensor1Columns();
    Sensor2Columns();
    NumbersInRow(fl, s, 2, [Ax0, Ay0, Az0, Gx0, Gy0, Gz0]);
    NumbersInRow(fl, s, 8, [Ax1, Ay1, Az1, Gx1, Gy1, Gz1]);
    NumbersInRow(fl, s, 14, [Ax2, Ay2, Az2, Gx2, Gy2, Gz2]);
  }

  lemma NoSensorsInRow<N>(fl: Floats<N>, s: Sample<N>)
    requires Valid(s) && (4 <= s.kind <= 7 || 12 <= s.kind)
    ensures Cells(fl, s)[2..8] == Blanks(6) && Cells(fl, s)[8..14] == Blanks(6) && Cells(fl, s)[14..20] == Blanks(6)
  {
    hide Column, ColumnsAt, Blanks, Cells;
    Sensor0Columns();
    Sensor1Columns();
    Sensor2Columns();
    BlanksInRow(fl, s, 2, [Ax0, Ay0, Az0, Gx0, Gy0, Gz0]);
    BlanksInRow(fl, s, 8, [Ax1, Ay1, Az1, Gx1, Gy1, Gz1]);
    BlanksInRow(fl, s, 14, [Ax2, Ay2, Az2, Gx2, Gy2, Gz2]);
  }

  lemma MotionInRow<N>(fl: Floats<N>, s: Sample<N>)
    requires Valid(s) && s.kind <= 11
    ensures Cells(fl, s)[20..24] == Texts(fl, s, [Q0, Q1, Q2, Q3])
    ensures Cells(fl, s)[24..27] == Texts(fl, s, [MagX, MagY, MagZ])
    ensures Cells(fl, s)[27..30] == Texts(fl, s, [OmegaX0, OmegaY0, OmegaZ0])
    ensures Cells(fl, s)[30..33] == Texts(fl, s, [AccX, AccY, AccZ])
  {
    hide Column, ColumnsAt, Texts, Cells;
    OrientationColumns();
    MagneticColumns();
    RateColumns();
    AccelerationColumns();
    NumbersInRow(fl, s, 20, [Q0, Q1, Q2, Q3]);
    NumbersInRow(fl, s, 24, [MagX, MagY, MagZ]);
    NumbersInRow(fl, s, 27, [OmegaX0, OmegaY0, OmegaZ0]);
    NumbersInRow(fl, s, 30, [AccX, AccY, AccZ]);
  }

  lemma PositionInRow<N>(fl: Floats<N>, s: Sample<N>)
    requires Valid(s)
    ensures 8 <= s.kind <= 11 ==>
      Cells(fl, s)[33..36] == Texts(fl, s, [Vx, Vy, Vz]) && Cells(fl, s)[36..39] == Texts(fl, s, [Rx, Ry, Rz])
    ensures s.kind < 8 || s.kind > 11 ==>
      Cells(fl, s)[33..36] == Blanks(3) && Cells(fl, s)[36..39] == Blanks(3)
  {
    hide Column, ColumnsAt, Texts, Blanks, Cells;
    VelocityColumns();
    PositionColumns();
    if 8 <= s.kind <= 11 {
      NumbersInRow(fl, s, 33, [Vx, Vy, Vz]);
      NumbersInRow(fl, s, 36, [Rx, Ry, Rz]);
    } else {
      BlanksInRow(fl, s, 33, [Vx, Vy, Vz]);
      BlanksInRow(fl, s, 36, [Rx, Ry, Rz]);
    }
  }

  /** Types 0 to 3: everything but velocity and position. */
  lemma CompositeRow<N>(fl: Floats<N>, s: Sample<N>)
    requires Valid(s) && s.kind <= 3
    ensures Row(fl, s) == Joined(
      Front(s)
      + Texts(fl, s, [Ax0, Ay0, Az0, Gx0, Gy0, Gz0])
      + Texts(fl, s, [Ax1, Ay1, Az1, Gx1, Gy1, Gz1])
      + Texts(fl, s, [Ax2, Ay2, Az2, Gx2, Gy2, Gz2])
      + Texts(fl, s, [Q0, Q1, Q2, Q3])
      + Texts(fl, s, [MagX, MagY, MagZ])
      + Texts(fl, s, [OmegaX0, OmegaY0, OmegaZ0])
      + Texts(fl, s, [AccX, AccY, AccZ])
      + Blanks(3) + Blanks(3)
      + Temperatures(fl, s)
      + Motion(s)) + [10]
  {
    hide Cells, Joined, Texts, Blanks, Front, Temperatures, Motion;
    FrontOfRow(fl, s);
    SensorsInRow(fl, s);
    MotionInRow(fl, s);
    PositionInRow(fl, s);
    StatusInRow(fl, s);
    InGroups(Cells(fl, s));
  }

  /** Types 4 to 7: no single sensors, no velocity and position. */
  lemma RegularRow<N>(fl: Floats<N>, s: Sample<N>)
    requires Valid(s) && 4 <= s.kind <= 7
    ensures Row(fl, s) == Joined(
      Front(s)
      + Blanks(6) + Blanks(6) + Blanks(6)
      + Texts(fl, s, [Q0, Q1, Q2, Q3])
      + Texts(fl, s, [MagX, MagY, MagZ])
      + Texts(fl, s, [OmegaX0, OmegaY0, OmegaZ0])
      + Texts(fl, s, [AccX, AccY, AccZ])
      + Blanks(3) + Blanks(3)
      + Temperatures(fl, s)
      + Motion(s)) + [10]
  {
    hide Cells, Joined, Texts, Blanks, Front, Temperatures, Motion;
    FrontOfRow(fl, s);
    NoSensorsInRow(fl, s);
    MotionInRow(fl, s);
    PositionInRow(fl, s);
    StatusInRow(fl, s);
    InGroups(Cells(fl, s));
  }

  /** Types 8 to 11: every column. */
  lemma Composite2Row<N>(fl: Floats<N>, s: Sample<N>)
    requires Valid(s) && 8 <= s.kind <= 11
    ensures Row(fl, s) == Joined(
      Front(s)
      + Texts(fl, s, [Ax0, Ay0, Az0, Gx0, Gy0, Gz0])
      + Texts(fl, s, [Ax1, Ay1, Az1, Gx1, Gy1, Gz1])
      + Texts(fl, s, [Ax2, Ay2, Az2, Gx2, Gy2, Gz2])
      + Texts(fl, s, [Q0, Q1, Q2, Q3])
      + Texts(fl, s, [MagX, MagY, MagZ])
      + Texts(fl, s, [OmegaX0, OmegaY0, OmegaZ0])
      + Texts(fl, s, [AccX, AccY, AccZ])
      + Texts(fl, s, [Vx, Vy, Vz]) + Texts(fl, s, [Rx, Ry, Rz])
      + Temperatures(fl, s)
      + Motion(s)) + [10]
  {
    hide Cells, Joined, Texts, Blanks, Front, Temperatures, Motion;
    FrontOfRow(fl, s);
    SensorsInRow(fl, s);
    MotionInRow(fl, s);
    PositionInRow(fl, s);
    StatusInRow(fl, s);
    InGroups(Cells(fl, s));
  }

  /** All other types, those with a 64-bit time among them: type, the low half of the time, and 41 empty cells. */
  lemma OtherRow<N>(fl: Floats<N>, s: Sample<N>)
    requires Valid(s) && s.kind > 11
    ensures Row(fl, s) == Joined(Front(s) + Blanks(41)) + [10]
  {
    var cells := Cells(fl, s);
    FrontOfRow(fl, s);
    forall c | 2 <= c < 43 ensures cells[c] == [] {
      NotInFront(c);
    }
    assert cells == cells[0..2] + Blanks(41);
  }

  lemma NotInFront(c: nat)
    requires 2 <= c < COLUMN_COUNT
    ensures Column(c) != Type && Column(c) != Time
  {
  }

  /** What is written of a row: its first 1023 bytes; the return value is the length of the whole row. */
  lemma WrittenRow<N>(fl: Floats<N>, s: Sample<N>)
    requires Valid(s)
    ensures FormatPacket(fl, s) == (if |Row(fl, s)| <= 1023 then Row(fl, s) else Row(fl, s)[..1023], |Row(fl, s)|)
  {
  }
}
