/** The columns of a recording: the header that the saver writes and how the replay reader maps header fields to
    packet members (write_header, fs_replay_parse_header). */
module Columns {
  import opened Bytes
  import opened Numbers
  import opened CsvText

  const MAX_COLUMNS: nat := 64 // FS_REPLAY_MAX_COLUMNS

  /** fs_field_id_t. */
  datatype FieldId =
    | NoField
    | Type | Time | Ax0 | Ay0 | Az0 | Gx0 | Gy0 | Gz0 | Ax1 | Ay1 | Az1 | Gx1 | Gy1 | Gz1 | Ax2 | Ay2 | Az2 | Gx2
    | Gy2 | Gz2 | Q0 | Q1 | Q2 | Q3 | OmegaX0 | OmegaY0 | OmegaZ0 | OmegaX1 | OmegaY1 | OmegaZ1 | AccX | AccY | AccZ
    | Vx | Vy | Vz | Rx | Ry | Rz | Reserved1 | Reserved2 | Reserved3 | MagX | MagY | MagZ | Temp0 | Temp1 | Temp2
    | DiagnosticFlag | BarometricPressure | MotionStatus

  // ----- header_map and the loop over it -----

  const HEADER_MAP_LENGTH: nat := 57 // map_count

  /** The entries of header_map, in order. */
  function HeaderMap(i: nat): (string, FieldId)
    requires i < HEADER_MAP_LENGTH
  {
    match i
    case 0 => ("type", Type)
    case 1 => ("packettype", Type)
    case 2 => ("time", Time)
    case 3 => ("ax0", Ax0)
    case 4 => ("ay0", Ay0)
    case 5 => ("az0", Az0)
    case 6 => ("gx0", Gx0)
    case 7 => ("gy0", Gy0)
    case 8 => ("gz0", Gz0)
    case 9 => ("ax1", Ax1)
    case 10 => ("ay1", Ay1)
    case 11 => ("az1", Az1)
    case 12 => ("gx1", Gx1)
    case 13 => ("gy1", Gy1)
    case 14 => ("gz1", Gz1)
    case 15 => ("ax2", Ax2)
    case 16 => ("ay2", Ay2)
    case 17 => ("az2", Az2)
    case 18 => ("gx2", Gx2)
    case 19 => ("gy2", Gy2)
    case 20 => ("gz2", Gz2)
    case 21 => ("q0", Q0)
    case 22 => ("q1", Q1)
    case 23 => ("q2", Q2)
    case 24 => ("q3", Q3)
    case 25 => ("omegax0", OmegaX0)
    case 26 => ("omegay0", OmegaY0)
    case 27 => ("omegaz0", OmegaZ0)
    case 28 => ("omegax1", OmegaX1)
    case 29 => ("omegay1", OmegaY1)
    case 30 => ("omegaz1", OmegaZ1)
    case 31 => ("accx", AccX)
    case 32 => ("accy", AccY)
    case 33 => ("accz", AccZ)
    case 34 => ("vx", Vx)
    case 35 => ("vy", Vy)
    case 36 => ("vz", Vz)
    case 37 => ("rx", Rx)
    case 38 => ("ry", Ry)
    case 39 => ("rz", Rz)
    case 40 => ("reserved0_1", Reserved1)
    case 41 => ("reserved0_2", Reserved2)
    case 42 => ("reserved0_3", Reserved3)
    case 43 => ("magx", MagX)
    case 44 => ("magy", MagY)
    case 45 => ("magz", MagZ)
    case 46 => ("mag_x", MagX)
    case 47 => ("mag_y", MagY)
    case 48 => ("mag_z", MagZ)
    case 49 => ("temp0", Temp0)
    case 50 => ("temp1", Temp1)
    case 51 => ("temp2", Temp2)
    case 52 => ("diagnosticflag", DiagnosticFlag)
    case 53 => ("barometricpressure", BarometricPressure)
    case 54 => ("baro", BarometricPressure)
    case 55 => ("devicemotionstatus", MotionStatus)
    case _ => ("label", MotionStatus)
  }

  /** The loop over header_map from entry i on: the first entry with the name decides. */
  function LookupFrom(i: nat, name: string): FieldId
    requires i <= HEADER_MAP_LENGTH
    decreases HEADER_MAP_LENGTH - i
  {
    if i == HEADER_MAP_LENGTH then NoField
    else if HeaderMap(i).0 == name then HeaderMap(i).1
    else LookupFrom(i + 1, name)
  }

  function Lookup(name: string): FieldId {
    LookupFrom(0, name)
  }

  ghost function Offset(c: char, a: char): int {
    c as int - a as int
  }

  /** The one entry of header_map that a name can be, by its length and a few of its letters. */
  ghost function Rank(s: string): int {
    match |s|
    case 2 =>
      if s[0] == 'q' then 21 + Offset(s[1], '0')
      else if s[0] == 'v' then 34 + Offset(s[1], 'x')
      else 37 + Offset(s[1], 'x')
    case 3 => 3 + 6 * Offset(s[2], '0') + (if s[0] == 'g' then 3 else 0) + Offset(s[1], 'x')
    case 4 =>
      if s == "type" then 0 else if s == "time" then 2 else if s == "baro" then 54
      else if s[0] == 'a' then 31 + Offset(s[3], 'x')
      else 43 + Offset(s[3], 'x')
    case 5 =>
      if s[0] == 'm' then 46 + Offset(s[4], 'x')
      else if s[0] == 't' then 49 + Offset(s[4], '0')
      else 56
    case 7 => 25 + 3 * Offset(s[6], '0') + Offset(s[5], 'x')
    case 10 => 1
    case 11 => 40 + Offset(s[10], '1')
    case 14 => 52
    case 18 => if s[0] == 'b' then 53 else 55
    case _ => -1
  }

  lemma EarlyRanks(i: nat)
    requires i < 19
    ensures Rank(HeaderMap(i).0) == i
  {
  }

  lemma MiddleRanks(i: nat)
    requires 19 <= i < 38
    ensures Rank(HeaderMap(i).0) == i
  {
  }

  lemma LateRanks(i: nat)
    requires 38 <= i < HEADER_MAP_LENGTH
    ensures Rank(HeaderMap(i).0) == i
  {
  }

  /** The names are distinct, as each has its own rank. */
  lemma RankOfEntry(i: nat)
    requires i < HEADER_MAP_LENGTH
    ensures Rank(HeaderMap(i).0) == i
  {
    if i < 19 {
      EarlyRanks(i);
    } else if i < 38 {
      MiddleRanks(i);
    } else {
      LateRanks(i);
    }
  }

  /** Every name of header_map is found at its own entry. */
  lemma {:induction false} EntryIsFound(i: nat, j: nat)
    requires i <= j < HEADER_MAP_LENGTH
    ensures LookupFrom(i, HeaderMap(j).0) == HeaderMap(j).1
    decreases j - i
  {
    RankOfEntry(i);
    RankOfEntry(j);
    if i < j {
      EntryIsFound(i + 1, j);
    }
  }

  lemma {:induction false} NotFound(i: nat, name: string)
    requires i <= HEADER_MAP_LENGTH && Rank(name) == -1
    ensures LookupFrom(i, name) == NoField
    decreases HEADER_MAP_LENGTH - i
  {
    if i < HEADER_MAP_LENGTH {
      RankOfEntry(i);
      NotFound(i + 1, name);
    }
  }

  // ----- write_header -----

  const COLUMN_COUNT: nat := 43

  /** The columns in the order in which write_header names them and format_packet prints them. */
  function Column(c: nat): FieldId
    requires c < COLUMN_COUNT
  {
    match c
    case 0 => Type
    case 1 => Time
    case 2 => Ax0
    case 3 => Ay0
    case 4 => Az0
    case 5 => Gx0
    case 6 => Gy0
    case 7 => Gz0
    case 8 => Ax1
    case 9 => Ay1
    case 10 => Az1
    case 11 => Gx1
    case 12 => Gy1
    case 13 => Gz1
    case 14 => Ax2
    case 15 => Ay2
    case 16 => Az2
    case 17 => Gx2
    case 18 => Gy2
    case 19 => Gz2
    case 20 => Q0
    case 21 => Q1
    case 22 => Q2
    case 23 => Q3
    case 24 => MagX
    case 25 => MagY
    case 26 => MagZ
    case 27 => OmegaX0
    case 28 => OmegaY0
    case 29 => OmegaZ0
    case 30 => AccX
    case 31 => AccY
    case 32 => AccZ
    case 33 => Vx
    case 34 => Vy
    case 35 => Vz
    case 36 => Rx
    case 37 => Ry
    case 38 => Rz
    case 39 => Temp0
    case 40 => Temp1
    case 41 => Temp2
    case _ => MotionStatus
  }

  /** The name that write_header gives a column. */
  function HeaderName(f: FieldId): string {
    match f
    case Type => "PacketType"
    case Time => "Time"
    case Ax0 => "Ax0"
    case Ay0 => "Ay0"
    case Az0 => "Az0"
    case Gx0 => "Gx0"
    case Gy0 => "Gy0"
    case Gz0 => "Gz0"
    case Ax1 => "Ax1"
    case Ay1 => "Ay1"
    case Az1 => "Az1"
    case Gx1 => "Gx1"
    case Gy1 => "Gy1"
    case Gz1 => "Gz1"
    case Ax2 => "Ax2"
    case Ay2 => "Ay2"
    case Az2 => "Az2"
    case Gx2 => "Gx2"
    case Gy2 => "Gy2"
    case Gz2 => "Gz2"
    case Q0 => "Q0"
    case Q1 => "Q1"
    case Q2 => "Q2"
    case Q3 => "Q3"
    case MagX => "MagX"
    case MagY => "MagY"
    case MagZ => "MagZ"
    case OmegaX0 => "OmegaX0"
    case OmegaY0 => "OmegaY0"
    case OmegaZ0 => "OmegaZ0"
    case AccX => "AccX"
    case AccY => "AccY"
    case AccZ => "AccZ"
    case Vx => "Vx"
    case Vy => "Vy"
    case Vz => "Vz"
    case Rx => "Rx"
    case Ry => "Ry"
    case Rz => "Rz"
    case Temp0 => "Temp_0"
    case Temp1 => "Temp_1"
    case Temp2 => "Temp_2"
    case MotionStatus => "DeviceMotionStatus"
    case _ => ""
  }

  function Ascii(s: string): (r: seq<byte>)
    ensures |r| == |s|
  {
    seq(|s|, i requires 0 <= i < |s| => if s[i] < 128 as char then s[i] as int else 0)
  }

  function Text(b: seq<byte>): (r: string)
    ensures |r| == |b|
  {
    seq(|b|, i requires 0 <= i < |b| => b[i] as char)
  }

  /** What the replay reader compares with header_map for a name. */
  function Known(name: string): string {
    Text(Lower(Ascii(name)))
  }

  // ----- the names of the saver in header_map -----

  /** Where header_map has the name that write_header gives a column. */
  function EntryOf(f: FieldId): (i: nat)
    ensures i < HEADER_MAP_LENGTH
  {
    match f
    case Type => 1
    case Time => 2
    case Ax0 => 3
    case Ay0 => 4
    case Az0 => 5
    case Gx0 => 6
    case Gy0 => 7
    case Gz0 => 8
    case Ax1 => 9
    case Ay1 => 10
    case Az1 => 11
    case Gx1 => 12
    case Gy1 => 13
    case Gz1 => 14
    case Ax2 => 15
    case Ay2 => 16
    case Az2 => 17
    case Gx2 => 18
    case Gy2 => 19
    case Gz2 => 20
    case Q0 => 21
    case Q1 => 22
    case Q2 => 23
    case Q3 => 24
    case MagX => 43
    case MagY => 44
    case MagZ => 45
    case OmegaX0 => 25
    case OmegaY0 => 26
    case OmegaZ0 => 27
    case AccX => 31
    case AccY => 32
    case AccZ => 33
    case Vx => 34
    case Vy => 35
    case Vz => 36
    case Rx => 37
    case Ry => 38
    case Rz => 39
    case MotionStatus => 55
    case _ => 0
  }

  predicate NamedBy(f: FieldId, i: nat)
    requires i < HEADER_MAP_LENGTH
  {
    HeaderMap(i).0 == Known(HeaderName(f)) && HeaderMap(i).1 == f
  }

  lemma KnownIs(name: string, low: string)
    requires |name| == |low|
    requires forall k :: 0 <= k < |name| ==> name[k] < 128 as char && LowerByte(name[k] as byte) == low[k] as int
    ensures Known(name) == low
  {
    var a := Ascii(name);
    forall k | 0 <= k < |name| ensures Known(name)[k] == low[k] {
      assert Lower(a)[k] == LowerByte(a[k]);
    }
  }

  lemma BasicEntry(f: FieldId)
    requires f == Type || f == Time
    ensures NamedBy(f, EntryOf(f))
  {
    hide Known;
    KnownIs(HeaderName(f), HeaderMap(EntryOf(f)).0);
  }

  lemma Sensor0Entry(f: FieldId)
    requires f == Ax0 || f == Ay0 || f == Az0 || f == Gx0 || f == Gy0 || f == Gz0
    ensures NamedBy(f, EntryOf(f))
  {
    hide Known;
    KnownIs(HeaderName(f), HeaderMap(EntryOf(f)).0);
  }

  lemma Sensor1Entry(f: FieldId)
    requires f == Ax1 || f == Ay1 || f == Az1 || f == Gx1 || f == Gy1 || f == Gz1
    ensures NamedBy(f, EntryOf(f))
  {
    hide Known;
    KnownIs(HeaderName(f), HeaderMap(EntryOf(f)).0);
  }

  lemma Sensor2Entry(f: FieldId)
    requires f == Ax2 || f == Ay2 || f == Az2 || f == Gx2 || f == Gy2 || f == Gz2
    ensures NamedBy(f, EntryOf(f))
  {
    hide Known;
    KnownIs(HeaderName(f), HeaderMap(EntryOf(f)).0);
  }

  lemma OrientationEntry(f: FieldId)
    requires f == Q0 || f == Q1 || f == Q2 || f == Q3
    ensures NamedBy(f, EntryOf(f))
  {
    hide Known;
    KnownIs(HeaderName(f), HeaderMap(EntryOf(f)).0);
  }

  lemma MagneticEntry(f: FieldId)
    requires f == MagX || f == MagY || f == MagZ
    ensures NamedBy(f, EntryOf(f))
  {
    hide Known;
    KnownIs(HeaderName(f), HeaderMap(EntryOf(f)).0);
  }

  lemma RateEntry(f: FieldId)
    requires f == OmegaX0 || f == OmegaY0 || f == OmegaZ0
    ensures NamedBy(f, EntryOf(f))
  {
    hide Known;
    KnownIs(HeaderName(f), HeaderMap(EntryOf(f)).0);
  }

  lemma AccelerationEntry(f: FieldId)
    requires f == AccX || f == AccY || f == AccZ
    ensures NamedBy(f, EntryOf(f))
  {
    hide Known;
    KnownIs(HeaderName(f), HeaderMap(EntryOf(f)).0);
  }

  lemma VelocityEntry(f: FieldId)
    requires f == Vx || f == Vy || f == Vz
    ensures NamedBy(f, EntryOf(f))
  {
    hide Known;
    KnownIs(HeaderName(f), HeaderMap(EntryOf(f)).0);
  }

  lemma PositionEntry(f: FieldId)
    requires f == Rx || f == Ry || f == Rz
    ensures NamedBy(f, EntryOf(f))
  {
    hide Known;
    KnownIs(HeaderName(f), HeaderMap(EntryOf(f)).0);
  }

  lemma StatusEntry(f: FieldId)
    requires f == MotionStatus
    ensures NamedBy(f, EntryOf(f))
  {
    hide Known;
    KnownIs(HeaderName(f), HeaderMap(EntryOf(f)).0);
  }

  predicate IsTemperature(f: FieldId) {
    f == Temp0 || f == Temp1 || f == Temp2
  }

  /** The columns of write_header. */
  predicate IsColumn(f: FieldId) {
    match f
    case NoField | OmegaX1 | OmegaY1 | OmegaZ1 | Reserved1 | Reserved2 | Reserved3 => false
    case DiagnosticFlag | BarometricPressure => false
    case _ => true
  }

  lemma EarlyColumnsAreNamed(c: nat)
    requires c < 22
    ensures IsColumn(Column(c))
  {
  }

  lemma LateColumnsAreNamed(c: nat)
    requires 22 <= c < COLUMN_COUNT
    ensures IsColumn(Column(c))
  {
  }

  lemma ColumnsAreNamed(c: nat)
    requires c < COLUMN_COUNT
    ensures IsColumn(Column(c))
  {
    hide IsColumn;
    if c < 22 {
      EarlyColumnsAreNamed(c);
    } else {
      LateColumnsAreNamed(c);
    }
  }

  lemma LastColumn(c: nat)
    requires c < COLUMN_COUNT
    ensures Column(0) == Type
    ensures Column(c) == MotionStatus <==> c == 42
  {
  }

  lemma TemperatureRank(f: FieldId)
    requires IsTemperature(f)
    ensures Rank(Known(HeaderName(f))) == -1
  {
    assert |HeaderName(f)| == 6;
  }

  lemma EntryNamesColumn(f: FieldId)
    requires IsColumn(f) && !IsTemperature(f)
    ensures NamedBy(f, EntryOf(f))
  {
    if f == Type || f == Time {
      BasicEntry(f);
    } else if f == Ax0 || f == Ay0 || f == Az0 || f == Gx0 || f == Gy0 || f == Gz0 {
      Sensor0Entry(f);
    } else if f == Ax1 || f == Ay1 || f == Az1 || f == Gx1 || f == Gy1 || f == Gz1 {
      Sensor1Entry(f);
    } else if f == Ax2 || f == Ay2 || f == Az2 || f == Gx2 || f == Gy2 || f == Gz2 {
      Sensor2Entry(f);
    } else if f == Q0 || f == Q1 || f == Q2 || f == Q3 {
      OrientationEntry(f);
    } else if f == MagX || f == MagY || f == MagZ {
      MagneticEntry(f);
    } else if f == OmegaX0 || f == OmegaY0 || f == OmegaZ0 {
      RateEntry(f);
    } else if f == AccX || f == AccY || f == AccZ {
      AccelerationEntry(f);
    } else if f == Vx || f == Vy || f == Vz {
      VelocityEntry(f);
    } else if f == Rx || f == Ry || f == Rz {
      PositionEntry(f);
    } else {
      StatusEntry(f);
    }
  }

  /** Every column name of the saver is known to the replay reader as the same column, except the temperatures:
      header_map spells them without the underscore, and no entry matches. */
  lemma ColumnIsKnown(f: FieldId)
    requires IsColumn(f)
    ensures Lookup(Known(HeaderName(f))) == if IsTemperature(f) then NoField else f
  {
    if IsTemperature(f) {
      TemperatureRank(f);
      NotFound(0, Known(HeaderName(f)));
    } else {
      EntryNamesColumn(f);
      EntryIsFound(0, EntryOf(f));
    }
  }

  // ----- fs_replay_parse_header -----

  /** What a table of names such as header_map is to the parser; the reader uses Lookup. */
  type Table = string -> FieldId

  /** The member that a header field selects. */
  function ColumnField(table: Table, field: seq<byte>): FieldId {
    table(Text(Normalized(Cut(field, FIELD_LIMIT), FIELD_LIMIT + 1)))
  }

  /** field_for_column after parsing a header line. */
  function HeaderFields(table: Table, line: seq<byte>): (fs: seq<FieldId>)
    ensures |fs| == MAX_COLUMNS
  {
    var cols := Fields(Cut(line, LINE_LIMIT));
    seq(MAX_COLUMNS, c requires 0 <= c < MAX_COLUMNS => if c < |cols| then ColumnField(table, cols[c]) else NoField)
  }

  lemma {:induction false} FirstField(rest: seq<byte>, comma: int)
    requires comma == FirstIndex(rest, COMMA)
    ensures comma == -1 ==> Fields(rest) == [rest]
    ensures comma >= 0 ==> Fields(rest)[0] == rest[..comma] && Fields(rest[comma + 1..]) == Fields(rest)[1..]
    ensures comma >= 0 <==> |Fields(rest)| > 1
  {
  }

  /** The first field of what is left of the header line, and what is left behind its comma. */
  method NextColumn(table: Table, rest: seq<byte>) returns (f: FieldId, more: bool, after: seq<byte>)
    ensures f == ColumnField(table, Fields(rest)[0])
    ensures more <==> |Fields(rest)| > 1
    ensures more ==> Fields(after) == Fields(rest)[1..]
  {
    var comma := FirstIndex(rest, COMMA);
    FirstField(rest, comma);
    var field := Cut(if comma == -1 then rest else rest[..comma], FIELD_LIMIT);
    var norm := NormalizeToken(field, FIELD_LIMIT + 1);
    f := table(Text(norm));
    more := comma != -1;
    after := if more then rest[comma + 1..] else [];
  }

  /** The first col columns of a table of fields, all others unknown. */
  ghost function UpTo(wanted: seq<FieldId>, col: nat): seq<FieldId>
    requires col <= |wanted|
  {
    wanted[..col] + seq(|wanted| - col, _ => NoField)
  }

  lemma NextKnown(wanted: seq<FieldId>, col: nat)
    requires col < |wanted|
    ensures UpTo(wanted, col)[col := wanted[col]] == UpTo(wanted, col + 1)
  {
  }

  lemma AllKnown(table: Table, line: seq<byte>, col: nat)
    requires col == MAX_COLUMNS || (col < MAX_COLUMNS && col == |Fields(Cut(line, LINE_LIMIT))|)
    ensures UpTo(HeaderFields(table, line), col) == HeaderFields(table, line)
  {
  }

  /** The first loop of fs_replay_parse_header. */
  method ForgetColumns(fieldForColumn: array<FieldId>, ghost wanted: seq<FieldId>)
    requires fieldForColumn.Length == |wanted| == MAX_COLUMNS
    modifies fieldForColumn
    ensures fieldForColumn[..] == UpTo(wanted, 0)
  {
    for i := 0 to MAX_COLUMNS
      invariant forall c :: 0 <= c < i ==> fieldForColumn[c] == NoField
    {
      fieldForColumn[i] := NoField;
    }
  }

  /** fs_replay_parse_header on a NUL-free line. */
  method ParseHeader(fieldForColumn: array<FieldId>, table: Table, line: seq<byte>)
    requires fieldForColumn.Length == MAX_COLUMNS
    modifies fieldForColumn
    ensures fieldForColumn[..] == HeaderFields(table, line)
  {
    ghost var wanted := HeaderFields(table, line);
    ForgetColumns(fieldForColumn, wanted);
    var rest := Cut(line, LINE_LIMIT);
    ghost var cols := Fields(rest);
    var col, more := 0, true;
    while col < MAX_COLUMNS && more
      invariant col <= MAX_COLUMNS && col <= |cols| && (!more ==> col == |cols|)
      invariant more ==> cols[col..] == Fields(rest)
      invariant fieldForColumn[..] == UpTo(wanted, col)
    {
      assert cols[col] == cols[col..][0];
      DropTwice(cols, col, 1);
      NextKnown(wanted, col);
      fieldForColumn[col], more, rest := NextColumn(table, rest);
      col := col + 1;
    }
    AllKnown(table, line, col);
  }

  /** A line end behind the last header field does not change what it selects. */
  lemma ColumnFieldWithEnd(table: Table, field: seq<byte>)
    requires COMMA !in field
    ensures ColumnField(table, field + [LF]) == ColumnField(table, field)
  {
    if |field| >= FIELD_LIMIT {
      TakeAppend(field, [LF], FIELD_LIMIT);
    } else {
      var s := SkipSpaces(field);
      SkipSpacesAppend(field, [LF]);
      SkipSpacesWithin(field);
      assert SkipSpaces([LF]) == [];
      if s != [] {
        LeadingAll(s, FIELD_LIMIT);
        LeadingAll(s + [LF], FIELD_LIMIT);
        TrimEndPush(s, LF);
      }
    }
  }

  /** The header line of a recording. */
  function HeaderNames(): (names: seq<seq<byte>>)
    ensures |names| == COLUMN_COUNT
  {
    seq(COLUMN_COUNT, c requires 0 <= c < COLUMN_COUNT => Ascii(HeaderName(Column(c))))
  }

  function HeaderLine(): seq<byte> {
    Joined(HeaderNames()) + [LF]
  }

  predicate IsNameChar(c: char) {
    c == '_' || '0' <= c <= '9' || 'A' <= c <= 'Z' || 'a' <= c <= 'z'
  }

  predicate PlainName(name: string) {
    && 0 < |name| <= 18
    && forall k :: 0 <= k < |name| ==> IsNameChar(name[k])
  }

  lemma AsciiIsPlain(name: string)
    requires PlainName(name)
    ensures forall k :: 0 <= k < |name| ==> !IsSpace(Ascii(name)[k])
    ensures COMMA !in Ascii(name) && LF !in Ascii(name) && NUL !in Ascii(name)
  {
  }

  lemma SensorNameIsPlain(f: FieldId)
    requires f in {Ax0, Ay0, Az0, Gx0, Gy0, Gz0, Ax1, Ay1, Az1, Gx1, Gy1, Gz1, Ax2, Ay2, Az2, Gx2, Gy2, Gz2}
    ensures PlainName(HeaderName(f)) && |HeaderName(f)| <= 10
  {
  }

  lemma MotionNameIsPlain(f: FieldId)
    requires f in {Q0, Q1, Q2, Q3, MagX, MagY, MagZ, AccX, AccY, AccZ, Vx, Vy, Vz, Rx, Ry, Rz}
    ensures PlainName(HeaderName(f)) && |HeaderName(f)| <= 10
  {
  }

  lemma OtherNameIsPlain(f: FieldId)
    requires f in {Type, Time, OmegaX0, OmegaY0, OmegaZ0, Temp0, Temp1, Temp2, MotionStatus}
    ensures PlainName(HeaderName(f)) && (f != MotionStatus ==> |HeaderName(f)| <= 10)
  {
  }

  lemma NameIsPlain(f: FieldId)
    requires IsColumn(f)
    ensures PlainName(HeaderName(f)) && (f != MotionStatus ==> |HeaderName(f)| <= 10)
  {
    match f
    case Type | Time | OmegaX0 | OmegaY0 | OmegaZ0 | Temp0 | Temp1 | Temp2 | MotionStatus => OtherNameIsPlain(f);
    case Q0 | Q1 | Q2 | Q3 | MagX | MagY | MagZ | AccX | AccY | AccZ | Vx | Vy | Vz | Rx | Ry | Rz =>
      MotionNameIsPlain(f);
    case _ => SensorNameIsPlain(f);
  }

  lemma {:induction false} JoinedBound(fs: seq<seq<byte>>, bound: nat, extra: nat)
    requires fs != [] && forall i :: 0 <= i < |fs| - 1 ==> |fs[i]| <= bound
    requires |fs[|fs| - 1]| <= bound + extra
    ensures |Joined(fs)| < (bound + 1) * |fs| + extra
  {
    if |fs| > 1 {
      JoinedBound(fs[1..], bound, extra);
    }
  }

  lemma HeaderNamePlain(c: nat)
    requires c < COLUMN_COUNT
    ensures var name := HeaderNames()[c];
      |name| <= (if c == 42 then 18 else 10) && COMMA !in name && LF !in name && NUL !in name
  {
    ColumnsAreNamed(c);
    LastColumn(c);
    NameIsPlain(Column(c));
    AsciiIsPlain(HeaderName(Column(c)));
  }

  /** The names as fields of the header line, the line end with the last one. */
  lemma HeaderLineFields()
    ensures |HeaderLine()| <= LINE_LIMIT && Fields(HeaderLine()) == WithEnd(HeaderNames(), [LF])
    ensures LF !in Joined(HeaderNames()) && NUL !in Joined(HeaderNames())
  {
    var names := HeaderNames();
    forall c | 0 <= c < |names|
      ensures |names[c]| <= (if c == 42 then 18 else 10) && COMMA !in names[c] && LF !in names[c] && NUL !in names[c]
    {
      HeaderNamePlain(c);
    }
    JoinedBound(names, 10, 8);
    JoinedWithEnd(names, [LF]);
    FieldsOfJoined(WithEnd(names, [LF]));
    InJoined(names, LF);
    InJoined(names, NUL);
  }

  /** A plain name selects what header_map has for it, whatever the case of its letters and with white space around
      it. */
  lemma NameSelects(table: Table, front: seq<byte>, name: string, end: seq<byte>)
    requires PlainName(name) && IsBlank(front) && IsBlank(end) && |front| + |end| <= 40
    ensures ColumnField(table, front + Ascii(name) + end) == table(Known(name))
  {
    AsciiIsPlain(name);
    NormalizedPadded(front, Ascii(name), end, FIELD_LIMIT + 1);
  }

  lemma NameSelectsColumn(table: Table, f: FieldId, end: seq<byte>)
    requires IsColumn(f) && (end == [] || end == [LF])
    ensures ColumnField(table, Ascii(HeaderName(f)) + end) == table(Known(HeaderName(f)))
  {
    NameIsPlain(f);
    assert [] + Ascii(HeaderName(f)) == Ascii(HeaderName(f));
    NameSelects(table, [], HeaderName(f), end);
  }

  /** What stands between the commas of the header line. */
  function HeaderText(c: nat): seq<byte>
    requires c < COLUMN_COUNT
  {
    Ascii(HeaderName(Column(c))) + if c + 1 == COLUMN_COUNT then [LF] else []
  }

  lemma HeaderTexts(c: nat)
    requires c < COLUMN_COUNT
    ensures WithEnd(HeaderNames(), [LF])[c] == HeaderText(c)
  {
  }

  lemma HeaderFieldAt(table: Table, line: seq<byte>, cols: seq<seq<byte>>, c: nat)
    requires c < MAX_COLUMNS && |line| <= LINE_LIMIT && cols == Fields(line)
    ensures HeaderFields(table, line)[c] == if c < |cols| then ColumnField(table, cols[c]) else NoField
  {
    hide Fields;
  }

  lemma HeaderSelects(table: Table, c: nat)
    requires c < MAX_COLUMNS
    ensures c < COLUMN_COUNT ==> HeaderFields(table, HeaderLine())[c] == ColumnField(table, HeaderText(c))
    ensures c >= COLUMN_COUNT ==> HeaderFields(table, HeaderLine())[c] == NoField
  {
    hide HeaderText, Column, HeaderFields, HeaderLine, Fields;
    HeaderLineFields();
    HeaderFieldAt(table, HeaderLine(), WithEnd(HeaderNames(), [LF]), c);
    if c < COLUMN_COUNT {
      HeaderTexts(c);
    }
  }

  /** The header that the saver writes is understood column by column, except the temperatures. */
  lemma HeaderIsUnderstood(c: nat)
    requires c < MAX_COLUMNS
    ensures c < COLUMN_COUNT && !IsTemperature(Column(c)) ==> HeaderFields(Lookup, HeaderLine())[c] == Column(c)
    ensures c >= COLUMN_COUNT || IsTemperature(Column(c)) ==> HeaderFields(Lookup, HeaderLine())[c] == NoField
  {
    HeaderSelects(Lookup, c);
    if c < COLUMN_COUNT {
      ColumnsAreNamed(c);
      NameSelectsColumn(Lookup, Column(c), if c + 1 == COLUMN_COUNT then [LF] else []);
      ColumnIsKnown(Column(c));
    }
  }
}
