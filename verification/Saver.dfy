/** The saver: printing packets as rows (format_packet), and what replaying the printed rows restores. */
module Saver {
  import opened Bytes
  import opened Numbers
  import opened CsvText
  import opened Columns
  import opened Rows

  /** A packet as format_packet reads it. The temperatures are read through the layout of the standard packet whatever
      the packet's own layout is, so they are given separately. */
  datatype Sample<N> = Sample(kind: byte, time: nat, floats: FieldId -> N, temperatures: seq<N>, motion: int)

  predicate Valid<N>(s: Sample<N>) {
    && s.time < (if s.kind < 100 then U32 else ULONG_MODULUS) && |s.temperatures| == 3
    && -128 <= s.motion < 128
  }

  /** The columns behind the time that a packet type has a text for; the other types leave them all empty. */
  predicate Prints(kind: byte, f: FieldId) {
    if kind <= 3 then !IsVelocityOrPosition(f)
    else if kind <= 7 then
      match f
      case Q0 | Q1 | Q2 | Q3 | MagX | MagY | MagZ | OmegaX0 | OmegaY0 | OmegaZ0 | AccX | AccY | AccZ => true
      case Temp0 | Temp1 | Temp2 | MotionStatus => true
      case _ => false
    else kind <= 11
  }

  /** A number in its 32-byte buffer. */
  function NumberText<N>(fl: Floats<N>, x: N): seq<byte> {
    Cut(fl.format(x), NUMBER_LIMIT)
  }

  /** The number that a column prints with %f. */
  function Printed<N>(s: Sample<N>, f: FieldId): N
    requires Valid(s)
  {
    if f == Temp0 then s.temperatures[0]
    else if f == Temp1 then s.temperatures[1]
    else if f == Temp2 then s.temperatures[2]
    else s.floats(f)
  }

  function Cell<N>(fl: Floats<N>, s: Sample<N>, f: FieldId): seq<byte>
    requires Valid(s)
  {
    if f == Type then Decimal(s.kind)
    else if f == Time then Decimal(s.time % U32) // read as the 32-bit time of the standard packet
    else if !Prints(s.kind, f) then []
    else if f == MotionStatus then Decimal(s.motion % U32) // %u
    else NumberText(fl, Printed(s, f))
  }

  function Cells<N>(fl: Floats<N>, s: Sample<N>): (cs: seq<seq<byte>>)
    requires Valid(s)
    ensures |cs| == COLUMN_COUNT
  {
    seq(COLUMN_COUNT, c requires 0 <= c < COLUMN_COUNT => Cell(fl, s, Column(c)))
  }

  /** The row of a packet. */
  function Row<N>(fl: Floats<N>, s: Sample<N>): seq<byte>
    requires Valid(s)
  {
    Joined(Cells(fl, s)) + [LF]
  }

  /** format_packet: what lands in the line buffer, and the return value of snprintf. */
  function FormatPacket<N>(fl: Floats<N>, s: Sample<N>): (seq<byte>, nat)
    requires Valid(s)
  {
    (Cut(Row(fl, s), ROW_LIMIT), |Row(fl, s)|)
  }

  // ----- the printed row as fields -----

  lemma NumberIsPlain<N(!new)>(fl: Floats<N>, x: N)
    requires Sane(fl)
    ensures COMMA !in NumberText(fl, x) && LF !in NumberText(fl, x) && NUL !in NumberText(fl, x)
  {
  }

  /** No cell holds a byte that would end the field, the line or the text. */
  lemma CellIsPlain<N(!new)>(fl: Floats<N>, s: Sample<N>, f: FieldId)
    requires Sane(fl) && Valid(s)
    ensures COMMA !in Cell(fl, s, f) && LF !in Cell(fl, s, f) && NUL !in Cell(fl, s, f)
  {
    NumberIsPlain(fl, Printed(s, f));
  }

  lemma CellsArePlain<N(!new)>(fl: Floats<N>, s: Sample<N>)
    requires Sane(fl) && Valid(s)
    ensures CommaFree(Cells(fl, s)) && LF !in Joined(Cells(fl, s)) && NUL !in Joined(Cells(fl, s))
  {
    var cells := Cells(fl, s);
    forall c | 0 <= c < |cells| ensures COMMA !in cells[c] && LF !in cells[c] && NUL !in cells[c] {
      CellIsPlain(fl, s, Column(c));
    }
    InJoined(cells, LF);
    InJoined(cells, NUL);
  }

  // ----- what replaying restores -----

  /** The value of a float member after its text has been read again. */
  function Reread<N>(fl: Floats<N>, s: Sample<N>, f: FieldId): Value<N> {
    var text := NumberText(fl, s.floats(f));
    Float(if IsPosition(f) then fl.strtod(text) else fl.strtof(text))
  }

  function RestoredMember<N>(fl: Floats<N>, s: Sample<N>, f: FieldId): Value<N> {
    if f == Time then Integer(s.time % U32)
    else if !Prints(s.kind, f) then Scan(fl, LayoutOf(s.kind), f, [])
    else if f == MotionStatus then Integer(s.motion)
    else Reread(fl, s, f)
  }

  function RestoredIn<N>(fl: Floats<N>, s: Sample<N>): FieldId -> Value<N> {
    f => RestoredMember(fl, s, f)
  }

  /** What the reader makes of a column of the saver. */
  function Seen(f: FieldId): FieldId {
    if IsTemperature(f) then NoField else f
  }

  function SeenColumns(): (cols: seq<FieldId>)
    ensures |cols| == COLUMN_COUNT
  {
    seq(COLUMN_COUNT, c requires 0 <= c < COLUMN_COUNT => Seen(Column(c)))
  }

  /** One member for each column that the layout has. */
  function Members<V>(cols: seq<FieldId>, stores: FieldId -> bool, member: FieldId -> V): map<FieldId, V> {
    map f | f in cols && stores(f) :: member(f)
  }

  /** The type, the low half of the time, the motion status and every printed member as its text reads, every other
      member with a column as an empty text reads; the temperatures, and members that have no column, stay zero. */
  function Restored<N>(fl: Floats<N>, s: Sample<N>): Packet<N> {
    Packet(s.kind, Members(SeenColumns(), StoresIn(LayoutOf(s.kind)), RestoredIn(fl, s)))
  }

  /** A member is restored exactly when the saver has a column for it other than a temperature and the layout has it. */
  lemma RestoredMembers<N>(fl: Floats<N>, s: Sample<N>, f: FieldId)
    ensures f in Restored(fl, s).members <==>
      Stores(LayoutOf(s.kind), f) && !IsTemperature(f) && exists c :: 0 <= c < COLUMN_COUNT && Column(c) == f
    ensures f in Restored(fl, s).members ==> Restored(fl, s).members[f] == RestoredMember(fl, s, f)
  {
    if f in SeenColumns() && f != NoField {
      var c :| 0 <= c < |SeenColumns()| && SeenColumns()[c] == f;
      assert Column(c) == f;
    }
    if c :| 0 <= c < COLUMN_COUNT && Column(c) == f && !IsTemperature(f) {
      assert SeenColumns()[c] == f;
    }
  }

  lemma NumberReads<N>(fl: Floats<N>, s: Sample<N>, layout: Layout, f: FieldId)
    requires Valid(s) && Prints(s.kind, f) && IsColumn(f) && !IsTemperature(f)
    requires f != Type && f != Time && f != MotionStatus
    ensures Scan(fl, layout, f, Cell(fl, s, f)) == Reread(fl, s, f)
  {
  }

  lemma TimeReads<N>(fl: Floats<N>, s: Sample<N>, layout: Layout)
    requires Valid(s)
    ensures Scan(fl, layout, Time, Cell(fl, s, Time)) == Integer(s.time % U32)
  {
    var n := s.time % U32;
    DecimalReads(n);
    assert n % U32 == n;
  }

  /** A status printed with %u, a negative one as a large number, reads back as the status. */
  lemma StatusWraps(m: int)
    requires -128 <= m < 128
    ensures m % U32 >= 0 && Signed(m % U32, 128) == m
  {
    if m < 0 {
      assert m % U32 == m + U32;
      assert (m + 128 + U32) % 256 == (m + 128) % 256;
    } else {
      assert m % U32 == m;
    }
  }

  lemma MotionReads<N>(fl: Floats<N>, s: Sample<N>, layout: Layout)
    requires Valid(s) && Prints(s.kind, MotionStatus)
    ensures Scan(fl, layout, MotionStatus, Cell(fl, s, MotionStatus)) == Integer(s.motion)
  {
    StatusWraps(s.motion);
    DecimalReads(s.motion % U32);
  }

  /** Reading the cell of a stored column gives the restored member. */
  lemma CellReads<N>(fl: Floats<N>, s: Sample<N>, layout: Layout, f: FieldId)
    requires Valid(s) && layout == LayoutOf(s.kind) && IsColumn(f) && Stores(layout, f) && !IsTemperature(f)
    ensures Scan(fl, layout, f, Cell(fl, s, f)) == RestoredMember(fl, s, f)
  {
    if f == Time {
      TimeReads(fl, s, layout);
    } else if Prints(s.kind, f) {
      if f == MotionStatus {
        MotionReads(fl, s, layout);
      } else {
        NumberReads(fl, s, layout, f);
      }
    }
  }

  // ----- save then replay -----

  /** The saver's header as the reader has it, and a printed row as tokens. */
  lemma SavedColumn<N(!new)>(fl: Floats<N>, s: Sample<N>, c: nat)
    requires Sane(fl) && Valid(s) && |Row(fl, s)| <= LINE_LIMIT && c < COLUMN_COUNT
    ensures Tokens(Row(fl, s)) == WithEnd(Cells(fl, s), [LF])
    ensures IsColumn(Column(c))
    ensures HeaderFields(Lookup, HeaderLine())[c] == if IsTemperature(Column(c)) then NoField else Column(c)
  {
    CellsArePlain(fl, s);
    TokensOf(Cells(fl, s), [LF]);
    ColumnsAreNamed(c);
    HeaderIsUnderstood(c);
  }

  lemma SavedKind<N(!new)>(fl: Floats<N>, s: Sample<N>)
    requires Sane(fl) && Valid(s) && |Row(fl, s)| <= LINE_LIMIT
    ensures KindIn(HeaderFields(Lookup, HeaderLine()), Tokens(Row(fl, s))) == s.kind
  {
    var fields, tokens := HeaderFields(Lookup, HeaderLine()), Tokens(Row(fl, s));
    SavedColumn(fl, s, 0);
    LastColumn(0);
    assert FirstColumn(fields, 1, Type) == 0;
    FirstStays(fields, 1, |tokens|, Type);
    TokenReads(fl, NoLayout, Cells(fl, s), [LF], Type, 0);
    DecimalReads(s.kind);
  }

  lemma SeenMembers<V>(stores: FieldId -> bool, read: (FieldId, seq<byte>) -> V, member: FieldId -> V,
                       cols: seq<FieldId>, fields: seq<FieldId>, tokens: seq<seq<byte>>)
    requires |cols| == |tokens| <= |fields| && fields[..|cols|] == cols
    requires forall c :: 0 <= c < |cols| && stores(cols[c]) ==> read(cols[c], tokens[c]) == member(cols[c])
    ensures Assigned(stores, read, fields, tokens, |cols|) == Members(cols, stores, member)
  {
    var m, r := Assigned(stores, read, fields, tokens, |cols|), Members(cols, stores, member);
    assert forall c :: 0 <= c < |cols| ==> fields[..|cols|][c] == fields[c];
    forall f ensures (f in m <==> f in r) && (f in m ==> m[f] == r[f]) {
      AssignedKeys(stores, read, fields, tokens, |cols|, f);
      if f in r {
        AssignedValue(stores, read, fields, tokens, |cols|, f, member(f));
      }
    }
  }

  /** The reader sees a column of the saver, and its token reads as the restored member. */
  lemma SavedCell<N(!new)>(fl: Floats<N>, s: Sample<N>, layout: Layout, c: nat)
    requires Sane(fl) && Valid(s) && |Row(fl, s)| <= LINE_LIMIT && c < COLUMN_COUNT && layout == LayoutOf(s.kind)
    ensures HeaderFields(Lookup, HeaderLine())[c] == SeenColumns()[c] && |Tokens(Row(fl, s))| == COLUMN_COUNT
    ensures Stores(layout, SeenColumns()[c]) ==>
      Scan(fl, layout, SeenColumns()[c], Tokens(Row(fl, s))[c]) == RestoredMember(fl, s, SeenColumns()[c])
  {
    var f := Column(c);
    SavedColumn(fl, s, c);
    TokenReads(fl, layout, Cells(fl, s), [LF], f, c);
    if Stores(layout, f) && !IsTemperature(f) {
      CellReads(fl, s, layout, f);
    }
  }

  ghost predicate ColumnsSeen<N>(fl: Floats<N>, s: Sample<N>, layout: Layout, cols: seq<FieldId>, fields: seq<FieldId>,
                                 tokens: seq<seq<byte>>)
  {
    && |cols| == |tokens| <= |fields| && fields[..|cols|] == cols
    && (forall c :: 0 <= c < |cols| && Stores(layout, cols[c]) ==>
          Scan(fl, layout, cols[c], tokens[c]) == RestoredMember(fl, s, cols[c]))
  }

  lemma SavedColumns<N(!new)>(fl: Floats<N>, s: Sample<N>, layout: Layout)
    requires Sane(fl) && Valid(s) && |Row(fl, s)| <= LINE_LIMIT && layout == LayoutOf(s.kind)
    ensures ColumnsSeen(fl, s, layout, SeenColumns(), HeaderFields(Lookup, HeaderLine()), Tokens(Row(fl, s)))
  {
    var cols, fields, tokens := SeenColumns(), HeaderFields(Lookup, HeaderLine()), Tokens(Row(fl, s));
    SavedCell(fl, s, layout, 0);
    forall c | 0 <= c < |cols|
      ensures fields[c] == cols[c]
      ensures Stores(layout, cols[c]) ==> Scan(fl, layout, cols[c], tokens[c]) == RestoredMember(fl, s, cols[c])
    {
      SavedCell(fl, s, layout, c);
    }
  }

  lemma SeenIsRestored<N(!new)>(fl: Floats<N>, s: Sample<N>, layout: Layout, cols: seq<FieldId>, fields: seq<FieldId>,
                                tokens: seq<seq<byte>>)
    requires ColumnsSeen(fl, s, layout, cols, fields, tokens)
    ensures Assigned(StoresIn(layout), ScanIn(fl, layout), fields, tokens, |tokens|)
         == Members(cols, StoresIn(layout), RestoredIn(fl, s))
  {
    SeenMembers(StoresIn(layout), ScanIn(fl, layout), RestoredIn(fl, s), cols, fields, tokens);
  }

  /** Replaying a printed row under the printed header, for all decoded families: the type, the low half of the time
      and every printed member but the temperatures come back; members that the saver leaves empty read as an empty
      text. */
  lemma SaveThenReplay<N(!new)>(fl: Floats<N>, s: Sample<N>)
    requires Sane(fl) && Valid(s) && |Row(fl, s)| <= LINE_LIMIT && !LayoutOf(s.kind).NoLayout?
    ensures Replayed(fl, HeaderLine(), Row(fl, s)) == Decoded(Restored(fl, s))
  {
    var layout := LayoutOf(s.kind);
    SavedKind(fl, s);
    SavedColumns(fl, s, layout);
    SeenIsRestored(fl, s, layout, SeenColumns(), HeaderFields(Lookup, HeaderLine()), Tokens(Row(fl, s)));
  }

  /** Which families survive: a restored member other than the time carries the packet's value exactly in the families
      with 32-bit time; in the families with 64-bit time it is the reading of an empty text. */
  lemma SurvivesIff<N>(fl: Floats<N>, s: Sample<N>, f: FieldId)
    requires Valid(s) && !LayoutOf(s.kind).NoLayout? && f in Restored(fl, s).members && f != Time
    ensures var v, layout := Restored(fl, s).members[f], LayoutOf(s.kind);
      && (Prints(s.kind, f) <==> layout.Composite? || layout.Composite2?)
      && (Prints(s.kind, f) ==> v == if f == MotionStatus then Integer(s.motion) else Reread(fl, s, f))
      && (!Prints(s.kind, f) ==> v == Scan(fl, layout, f, []))
  {
    hide Column;
    RestoredMembers(fl, s, f);
  }

  /** Of two packets of one type with 64-bit time that agree in the low half of their times the rows are the same. */
  lemma WideRowsLoseData<N>(fl: Floats<N>, s: Sample<N>, t: Sample<N>)
    requires Valid(s) && Valid(t) && s.kind == t.kind >= 100 && s.time % U32 == t.time % U32
    ensures Row(fl, s) == Row(fl, t)
  {
    hide Column;
    assert Cells(fl, s) == Cells(fl, t);
  }

  /** A saved row comes back as a packet exactly when its type is one of the four decoded families. */
  lemma OtherTypesAreRefused<N(!new)>(fl: Floats<N>, s: Sample<N>)
    requires Sane(fl) && Valid(s) && |Row(fl, s)| <= LINE_LIMIT
    ensures Replayed(fl, HeaderLine(), Row(fl, s)).Refused? <==> LayoutOf(s.kind).NoLayout?
  {
    SavedKind(fl, s);
  }
}
