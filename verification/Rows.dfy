/** The rows of a recording: how the saver prints a packet (format_packet) and how the replay reader decodes a row
    under a header (fs_replay_parse_packet). Printing and reading of floating-point numbers are parameters. */
module Rows {
  import opened Bytes
  import opened Numbers
  import opened CsvText
  import opened Columns

  const U32: nat := 0x1_0000_0000
  const NUMBER_LIMIT: nat := 31   // snprintf into a 32-byte number buffer
  const ROW_LIMIT: nat := 1023    // snprintf into the 1024-byte line buffer of the saver

  /** %f, strtof and strtod. */
  datatype Floats<!N> = Floats(format: N -> seq<byte>, strtof: seq<byte> -> N, strtod: seq<byte> -> N)

  /** Reading stops at the line end, printing writes neither separators nor terminators. */
  ghost predicate Sane<N(!new)>(fl: Floats<N>) {
    && (forall s :: fl.strtof(s + [LF]) == fl.strtof(s))
    && (forall s :: fl.strtod(s + [LF]) == fl.strtod(s))
    && (forall x :: COMMA !in fl.format(x) && LF !in fl.format(x) && NUL !in fl.format(x))
  }

  // ----- packet layouts -----

  /** The union members that rows are decoded into; the other packet types are refused. */
  datatype Layout = Composite | Composite2 | Composite64 | Composite64V2 | NoLayout

  function LayoutOf(kind: int): Layout {
    if 0 <= kind <= 2 then Composite
    else if 8 <= kind <= 10 then Composite2
    else if 100 <= kind <= 102 then Composite64
    else if 108 <= kind <= 110 then Composite64V2
    else NoLayout
  }

  predicate IsPosition(f: FieldId) {
    f == Rx || f == Ry || f == Rz
  }

  predicate IsVelocityOrPosition(f: FieldId) {
    f == Vx || f == Vy || f == Vz || IsPosition(f)
  }

  /** The fields that select a member in some layout. */
  predicate IsMember(f: FieldId) {
    match f
    case NoField | Type | OmegaX1 | OmegaY1 | OmegaZ1 | Reserved1 | Reserved2 | Reserved3 => false
    case _ => true
  }

  predicate Stores(layout: Layout, f: FieldId) {
    IsMember(f) && (IsVelocityOrPosition(f) ==> layout.Composite2? || layout.Composite64V2?)
  }

  datatype Value<N> = Integer(n: int) | Float(x: N)

  /** A decoded packet: its type and the members that some column assigned; all others are zero. */
  datatype Packet<N> = Packet(kind: int, members: map<FieldId, Value<N>>)

  /** Conversion to a signed type of half range `half`. */
  function Signed(n: int, half: nat): int
    requires half > 0
  {
    (n + half) % (2 * half) - half
  }

  /** The value that a token has for a member. */
  function Scan<N>(fl: Floats<N>, layout: Layout, f: FieldId, s: seq<byte>): Value<N> {
    match f
    case Time =>
      Integer(if layout.Composite64? || layout.Composite64V2? then Strtoul(s) else Strtoul(s) % U32)
    case Temp0 | Temp1 | Temp2 => Integer(Signed(Atoi(s), 0x8000))
    case DiagnosticFlag => Integer(Atoi(s) % 256)
    case MotionStatus => Integer(Signed(Atoi(s), 128))
    case Rx | Ry | Rz => Float(fl.strtod(s))
    case _ => Float(fl.strtof(s))
  }

  // ----- fs_replay_parse_packet -----

  datatype Decoded<N> = Decoded(packet: Packet<N>) | Refused

  /** At most the first 64 tokens are looked at. */
  function Tokens(line: seq<byte>): (ts: seq<seq<byte>>)
    ensures |ts| <= MAX_COLUMNS
  {
    var all := Fields(Cut(line, LINE_LIMIT));
    all[..Min(|all|, MAX_COLUMNS)]
  }

  /** The first of n columns that is mapped to f, or n. */
  function FirstColumn(fields: seq<FieldId>, n: nat, f: FieldId): (c: nat)
    requires n <= |fields|
    ensures c <= n && (c < n ==> fields[c] == f)
    ensures f in fields[..n] <==> c < n
  {
    if n == 0 then 0
    else
      var c := FirstColumn(fields, n - 1, f);
      assert fields[..n] == fields[..n - 1] + [fields[n - 1]];
      if c < n - 1 then c else if fields[n - 1] == f then n - 1 else n
  }

  /** The packet type: the number in the first column mapped to it, or zero. */
  function KindIn(fields: seq<FieldId>, tokens: seq<seq<byte>>): int
    requires |tokens| <= |fields|
  {
    var c := FirstColumn(fields, |tokens|, Type);
    if c < |tokens| then Atoi(tokens[c]) else 0
  }

  /** The members assigned by the first n columns, later columns overwriting earlier ones: `stores` tells which fields
      the layout has, `read` what a token means for a field. */
  function Assigned<V>(stores: FieldId -> bool, read: (FieldId, seq<byte>) -> V, fields: seq<FieldId>,
                       tokens: seq<seq<byte>>, n: nat): map<FieldId, V>
    requires n <= |tokens| <= |fields|
  {
    if n == 0 then map[]
    else
      var m := Assigned(stores, read, fields, tokens, n - 1);
      var f := fields[n - 1];
      if stores(f) then m[f := read(f, tokens[n - 1])] else m
  }

  function StoresIn(layout: Layout): FieldId -> bool {
    f => Stores(layout, f)
  }

  function ScanIn<N>(fl: Floats<N>, layout: Layout): (FieldId, seq<byte>) -> Value<N> {
    (f, s) => Scan(fl, layout, f, s)
  }

  function Decode<N>(fl: Floats<N>, fields: seq<FieldId>, tokens: seq<seq<byte>>): Decoded<N>
    requires |tokens| <= |fields|
  {
    var kind := KindIn(fields, tokens);
    var layout := LayoutOf(kind);
    if layout.NoLayout? then Refused
    else Decoded(Packet(kind, Assigned(StoresIn(layout), ScanIn(fl, layout), fields, tokens, |tokens|)))
  }

  /** A row under a header: what replaying them yields. */
  function Replayed<N>(fl: Floats<N>, header: seq<byte>, row: seq<byte>): Decoded<N> {
    Decode(fl, HeaderFields(Lookup, header), Tokens(row))
  }

  // ----- the reader's loops -----

  lemma TokensStep(line: seq<byte>, rest: seq<byte>, count: nat)
    requires count < |Fields(line)| && Fields(line)[count..] == Fields(rest)
    ensures Fields(line)[count] == Fields(rest)[0]
    ensures Fields(line)[count + 1..] == Fields(rest)[1..]
  {
    DropTwice(Fields(line), count, 1);
  }

  /** The loop that terminates the tokens in the copy of the row. */
  method SplitTokens(line: seq<byte>) returns (tokens: seq<seq<byte>>)
    ensures tokens == Tokens(line)
  {
    hide Fields, FirstIndex;
    var rest := Cut(line, LINE_LIMIT);
    ghost var whole := rest;
    ghost var all := Fields(rest);
    tokens := [];
    while |tokens| < MAX_COLUMNS
      invariant |tokens| <= MAX_COLUMNS && |tokens| < |all|
      invariant tokens == all[..|tokens|] && all[|tokens|..] == Fields(rest)
    {
      TokensStep(whole, rest, |tokens|);
      var comma := FirstIndex(rest, COMMA);
      FirstField(rest, comma);
      TakePush(all, |tokens|);
      if comma == -1 {
        tokens := tokens + [rest];
        return;
      }
      if |tokens| + 1 == MAX_COLUMNS {
        tokens := tokens + [rest[..comma]];
        return;
      }
      tokens, rest := tokens + [rest[..comma]], rest[comma + 1..];
    }
  }

  lemma TakePush<T>(s: seq<T>, n: nat)
    requires n < |s|
    ensures s[..n + 1] == s[..n] + [s[n]]
  {
  }

  /** The loop that looks for the type column. */
  method FindKind(fields: array<FieldId>, tokens: seq<seq<byte>>) returns (kind: int)
    requires |tokens| <= fields.Length
    ensures kind == KindIn(fields[..], tokens)
  {
    kind := 0;
    for col := 0 to |tokens|
      invariant FirstColumn(fields[..], col, Type) == col
    {
      if fields[col] == Type {
        FirstStays(fields[..], col + 1, |tokens|, Type);
        return Atoi(tokens[col]);
      }
    }
  }

  lemma {:induction false} FirstStays(fields: seq<FieldId>, n: nat, m: nat, f: FieldId)
    requires n <= m <= |fields| && FirstColumn(fields, n, f) < n
    ensures FirstColumn(fields, m, f) == FirstColumn(fields, n, f)
  {
    if n < m {
      FirstStays(fields, n, m - 1, f);
    }
  }

  /** One column more. */
  lemma AssignedStep<V>(stores: FieldId -> bool, read: (FieldId, seq<byte>) -> V, fields: seq<FieldId>,
                        tokens: seq<seq<byte>>, n: nat, m: map<FieldId, V>)
    requires n < |tokens| <= |fields| && m == Assigned(stores, read, fields, tokens, n)
    ensures Assigned(stores, read, fields, tokens, n + 1)
         == if stores(fields[n]) then m[fields[n] := read(fields[n], tokens[n])] else m
  {
  }

  /** fs_replay_parse_packet on a NUL-free line. */
  method ParsePacket<N>(fl: Floats<N>, fields: array<FieldId>, line: seq<byte>) returns (rc: int, packet: Packet<N>)
    requires fields.Length == MAX_COLUMNS
    ensures rc == 0 || rc == -2
    ensures Decode(fl, fields[..], Tokens(line)) == if rc == 0 then Decoded(packet) else Refused
  {
    hide Scan, Stores, Assigned, FirstColumn, Tokens;
    var tokens := SplitTokens(line);
    var kind := FindKind(fields, tokens);
    var layout := LayoutOf(kind);
    packet := Packet(kind, map[]);
    if layout.NoLayout? {
      return -2, packet;
    }
    NothingAssigned(StoresIn(layout), ScanIn(fl, layout), fields[..], tokens);
    for col := 0 to |tokens|
      invariant packet == Packet(kind, Assigned(StoresIn(layout), ScanIn(fl, layout), fields[..], tokens, col))
    {
      var f := fields[col];
      AssignedStep(StoresIn(layout), ScanIn(fl, layout), fields[..], tokens, col, packet.members);
      if Stores(layout, f) {
        packet := packet.(members := packet.members[f := Scan(fl, layout, f, tokens[col])]);
      }
    }
    return 0, packet;
  }

  lemma NothingAssigned<V>(stores: FieldId -> bool, read: (FieldId, seq<byte>) -> V, fields: seq<FieldId>,
                           tokens: seq<seq<byte>>)
    requires |tokens| <= |fields|
    ensures Assigned(stores, read, fields, tokens, 0) == map[]
  {
  }

  // ----- what a decoded packet holds -----

  /** The members of a decoded packet are those that some column is mapped to. */
  lemma {:induction false} AssignedKeys<V>(stores: FieldId -> bool, read: (FieldId, seq<byte>) -> V,
                                           fields: seq<FieldId>, tokens: seq<seq<byte>>, n: nat, f: FieldId)
    requires n <= |tokens| <= |fields|
    ensures f in Assigned(stores, read, fields, tokens, n) <==> stores(f) && f in fields[..n]
  {
    if n > 0 {
      TakePush(fields, n - 1);
      AssignedKeys(stores, read, fields, tokens, n - 1, f);
    }
  }

  /** When all columns mapped to a member read as the same value, the member has that value. */
  lemma {:induction false} AssignedValue<V>(stores: FieldId -> bool, read: (FieldId, seq<byte>) -> V,
                                            fields: seq<FieldId>, tokens: seq<seq<byte>>, n: nat, f: FieldId, v: V)
    requires n <= |tokens| <= |fields| && stores(f) && f in fields[..n]
    requires forall c :: 0 <= c < n && fields[c] == f ==> read(f, tokens[c]) == v
    ensures f in Assigned(stores, read, fields, tokens, n) && Assigned(stores, read, fields, tokens, n)[f] == v
  {
    AssignedKeys(stores, read, fields, tokens, n, f);
    TakePush(fields, n - 1);
    if fields[n - 1] != f {
      AssignedValue(stores, read, fields, tokens, n - 1, f, v);
    }
  }

  /** Of several columns for one member the last one counts. */
  lemma {:induction false} LastColumnDecides<V>(stores: FieldId -> bool, read: (FieldId, seq<byte>) -> V,
                                                fields: seq<FieldId>, tokens: seq<seq<byte>>, n: nat, c: nat)
    requires c < n <= |tokens| <= |fields| && stores(fields[c])
    requires forall j :: c < j < n ==> fields[j] != fields[c]
    ensures var m := Assigned(stores, read, fields, tokens, n);
      fields[c] in m && m[fields[c]] == read(fields[c], tokens[c])
  {
    AssignedStep(stores, read, fields, tokens, n - 1, Assigned(stores, read, fields, tokens, n - 1));
    if c < n - 1 {
      LastColumnDecides(stores, read, fields, tokens, n - 1, c);
    }
  }

  /** Of several columns for the type the first one counts; without any the type is 0. */
  lemma FirstTypeDecides(fields: seq<FieldId>, tokens: seq<seq<byte>>, c: nat)
    requires |tokens| <= |fields| && c <= |tokens| && forall j :: 0 <= j < c ==> fields[j] != Type
    ensures c < |tokens| && fields[c] == Type ==> KindIn(fields, tokens) == Atoi(tokens[c])
    ensures c == |tokens| ==> KindIn(fields, tokens) == 0
  {
    hide Atoi;
    NoTypeBefore(fields, c);
    if c < |tokens| && fields[c] == Type {
      assert FirstColumn(fields, c + 1, Type) == c;
      FirstStays(fields, c + 1, |tokens|, Type);
    }
  }

  lemma NoTypeBefore(fields: seq<FieldId>, c: nat)
    requires c <= |fields| && forall j :: 0 <= j < c ==> fields[j] != Type
    ensures FirstColumn(fields, c, Type) == c
  {
    assert Type !in fields[..c];
  }

  // ----- column order -----

  function Permuted<T>(s: seq<T>, p: seq<nat>): (r: seq<T>)
    requires |p| == |s| && forall i :: 0 <= i < |p| ==> p[i] < |s|
    ensures |r| == |s|
  {
    seq(|s|, i requires 0 <= i < |s| => s[p[i]])
  }

  /** p and q are inverse permutations. */
  predicate Inverse(p: seq<nat>, q: seq<nat>) {
    && |p| == |q|
    && (forall i :: 0 <= i < |p| ==> p[i] < |q| && q[p[i]] == i)
    && (forall i :: 0 <= i < |q| ==> q[i] < |p| && p[q[i]] == i)
  }

  predicate Matters(f: FieldId) {
    f == Type || IsMember(f)
  }

  /** No two of the first n columns are mapped to one field that matters. */
  predicate Distinct(fields: seq<FieldId>, n: nat)
    requires n <= |fields|
  {
    forall i, j :: 0 <= i < j < n && Matters(fields[i]) ==> fields[i] != fields[j]
  }

  /** The columns of b are those of a in another order. */
  predicate Reordered(a: seq<FieldId>, b: seq<FieldId>, p: seq<nat>, q: seq<nat>) {
    && Inverse(p, q) && |p| <= |a| && |p| <= |b| && Distinct(a, |p|)
    && forall i :: 0 <= i < |p| ==> b[i] == a[p[i]]
  }

  /** Tokens in the same other order read alike, up to the line end. */
  ghost predicate ReadAlike<V>(read: (FieldId, seq<byte>) -> V, s: seq<seq<byte>>, t: seq<seq<byte>>, p: seq<nat>)
    requires |s| == |t| == |p| && forall i :: 0 <= i < |p| ==> p[i] < |s|
  {
    forall i, f :: 0 <= i < |p| ==> read(f, t[i]) == read(f, s[p[i]])
  }

  lemma ReorderedIn(a: seq<FieldId>, b: seq<FieldId>, p: seq<nat>, q: seq<nat>, f: FieldId)
    requires Reordered(a, b, p, q)
    ensures f in a[..|p|] <==> f in b[..|p|]
  {
    if f in a[..|p|] {
      var c :| 0 <= c < |p| && a[c] == f;
      assert b[..|p|][q[c]] == f;
    }
    if f in b[..|p|] {
      var d :| 0 <= d < |p| && b[d] == f;
      assert a[..|p|][p[d]] == f;
    }
  }

  lemma ReorderedKind(a: seq<FieldId>, s: seq<seq<byte>>, b: seq<FieldId>, t: seq<seq<byte>>, p: seq<nat>, q: seq<nat>)
    requires Reordered(a, b, p, q) && |s| == |t| == |p|
    requires forall i :: 0 <= i < |p| ==> Atoi(t[i]) == Atoi(s[p[i]])
    ensures KindIn(b, t) == KindIn(a, s)
  {
    var c, d := FirstColumn(a, |s|, Type), FirstColumn(b, |t|, Type);
    ReorderedIn(a, b, p, q, Type);
    if c < |s| {
      assert a[p[d]] == Type;
    }
  }

  /** Under distinct columns every column that matters decides its member. */
  lemma AssignedAt<V>(stores: FieldId -> bool, read: (FieldId, seq<byte>) -> V, fields: seq<FieldId>,
                      tokens: seq<seq<byte>>, n: nat, c: nat)
    requires c < n <= |tokens| <= |fields| && Distinct(fields, n) && stores(fields[c]) && Matters(fields[c])
    ensures var m := Assigned(stores, read, fields, tokens, n);
      fields[c] in m && m[fields[c]] == read(fields[c], tokens[c])
  {
    assert fields[..n][c] == fields[c];
    AssignedValue(stores, read, fields, tokens, n, fields[c], read(fields[c], tokens[c]));
  }

  lemma ReorderedDistinct(a: seq<FieldId>, b: seq<FieldId>, p: seq<nat>, q: seq<nat>)
    requires Reordered(a, b, p, q)
    ensures Distinct(b, |p|)
  {
    forall i, j | 0 <= i < j < |p| && Matters(b[i]) ensures b[i] != b[j] {
      assert q[p[i]] == i && q[p[j]] == j;
      assert a[p[i]] == b[i] && a[p[j]] == b[j];
    }
  }

  lemma ReorderedMember<V>(stores: FieldId -> bool, read: (FieldId, seq<byte>) -> V, a: seq<FieldId>, s: seq<seq<byte>>,
                           b: seq<FieldId>, t: seq<seq<byte>>, p: seq<nat>, q: seq<nat>, f: FieldId)
    requires Reordered(a, b, p, q) && |s| == |t| == |p| && ReadAlike(read, s, t, p)
    requires stores(f) ==> Matters(f)
    ensures var m, k := Assigned(stores, read, a, s, |s|), Assigned(stores, read, b, t, |t|);
      (f in m <==> f in k) && (f in m ==> m[f] == k[f])
  {
    var n := |s|;
    AssignedKeys(stores, read, a, s, n, f);
    AssignedKeys(stores, read, b, t, n, f);
    ReorderedIn(a, b, p, q, f);
    if stores(f) && f in a[..n] {
      var c :| 0 <= c < n && a[c] == f;
      ReorderedDistinct(a, b, p, q);
      AssignedAt(stores, read, a, s, n, c);
      AssignedAt(stores, read, b, t, n, q[c]);
      assert read(f, t[q[c]]) == read(f, s[p[q[c]]]);
    }
  }

  lemma ReorderedAssigned<V>(stores: FieldId -> bool, read: (FieldId, seq<byte>) -> V, a: seq<FieldId>,
                             s: seq<seq<byte>>, b: seq<FieldId>, t: seq<seq<byte>>, p: seq<nat>, q: seq<nat>)
    requires Reordered(a, b, p, q) && |s| == |t| == |p| && ReadAlike(read, s, t, p)
    requires forall f :: stores(f) ==> Matters(f)
    ensures Assigned(stores, read, a, s, |s|) == Assigned(stores, read, b, t, |t|)
  {
    var m, k := Assigned(stores, read, a, s, |s|), Assigned(stores, read, b, t, |t|);
    forall f ensures (f in m <==> f in k) && (f in m ==> m[f] == k[f]) {
      ReorderedMember(stores, read, a, s, b, t, p, q, f);
    }
  }

  predicate IsEnd(end: seq<byte>) {
    end == [] || end == [LF]
  }

  /** A line cut into its fields again, the line end with the last one. */
  lemma LineFields(fs: seq<seq<byte>>, end: seq<byte>)
    requires fs != [] && CommaFree(fs) && IsEnd(end) && |Joined(fs) + end| <= LINE_LIMIT
    ensures Fields(Cut(Joined(fs) + end, LINE_LIMIT)) == WithEnd(fs, end)
  {
    JoinedWithEnd(fs, end);
    FieldsOfJoined(WithEnd(fs, end));
  }

  lemma HeaderField(table: Table, line: seq<byte>, fs: seq<seq<byte>>, c: nat)
    requires Fields(Cut(line, LINE_LIMIT)) == fs && c < |fs| <= MAX_COLUMNS
    ensures HeaderFields(table, line)[c] == ColumnField(table, fs[c])
  {
  }

  /** The line end changes neither what a header field selects nor what a token reads as. */
  lemma ColumnFieldAtEnd(table: Table, hs: seq<seq<byte>>, end: seq<byte>, c: nat)
    requires CommaFree(hs) && IsEnd(end) && c < |hs|
    ensures ColumnField(table, WithEnd(hs, end)[c]) == ColumnField(table, hs[c])
  {
    if c + 1 == |hs| {
      if end == [LF] {
        ColumnFieldWithEnd(table, hs[c]);
      } else {
        assert hs[c] + [] == hs[c];
      }
    }
  }

  lemma HeaderFieldsOf(table: Table, hs: seq<seq<byte>>, end: seq<byte>, c: nat)
    requires hs != [] && CommaFree(hs) && IsEnd(end) && |Joined(hs) + end| <= LINE_LIMIT
    requires c < |hs| <= MAX_COLUMNS
    ensures HeaderFields(table, Joined(hs) + end)[c] == ColumnField(table, hs[c])
  {
    LineFields(hs, end);
    HeaderField(table, Joined(hs) + end, WithEnd(hs, end), c);
    ColumnFieldAtEnd(table, hs, end, c);
  }

  /** What the fields of a header select. */
  function Selected(table: Table, hs: seq<seq<byte>>): (r: seq<FieldId>)
    ensures |r| == |hs|
  {
    seq(|hs|, c requires 0 <= c < |hs| => ColumnField(table, hs[c]))
  }

  lemma HeaderSelected(table: Table, hs: seq<seq<byte>>, end: seq<byte>)
    requires hs != [] && CommaFree(hs) && IsEnd(end) && |Joined(hs) + end| <= LINE_LIMIT && |hs| <= MAX_COLUMNS
    ensures HeaderFields(table, Joined(hs) + end)[..|hs|] == Selected(table, hs)
  {
    forall c | 0 <= c < |hs| ensures HeaderFields(table, Joined(hs) + end)[c] == Selected(table, hs)[c] {
      HeaderFieldsOf(table, hs, end, c);
    }
  }

  lemma SelectedPermuted(table: Table, hs: seq<seq<byte>>, p: seq<nat>)
    requires |p| == |hs| && forall i :: 0 <= i < |p| ==> p[i] < |hs|
    ensures Selected(table, Permuted(hs, p)) == Permuted(Selected(table, hs), p)
  {
  }

  lemma TokensOf(ts: seq<seq<byte>>, end: seq<byte>)
    requires ts != [] && CommaFree(ts) && IsEnd(end) && |Joined(ts) + end| <= LINE_LIMIT && |ts| <= MAX_COLUMNS
    ensures Tokens(Joined(ts) + end) == WithEnd(ts, end)
  {
    LineFields(ts, end);
    TakeAll(WithEnd(ts, end), |ts|);
  }

  lemma ScanEnd<N(!new)>(fl: Floats<N>, layout: Layout, f: FieldId, s: seq<byte>, end: seq<byte>)
    requires Sane(fl) && IsEnd(end)
    ensures Scan(fl, layout, f, s + end) == Scan(fl, layout, f, s) && Atoi(s + end) == Atoi(s)
  {
    if end == [] {
      assert s + end == s;
    } else {
      LineFeedIgnored(s);
    }
  }

  lemma TokenReads<N(!new)>(fl: Floats<N>, layout: Layout, ts: seq<seq<byte>>, end: seq<byte>, f: FieldId, i: nat)
    requires Sane(fl) && IsEnd(end) && i < |ts|
    ensures Scan(fl, layout, f, WithEnd(ts, end)[i]) == Scan(fl, layout, f, ts[i])
    ensures Atoi(WithEnd(ts, end)[i]) == Atoi(ts[i])
  {
    if i + 1 == |ts| {
      ScanEnd(fl, layout, f, ts[i], end);
    }
  }

  /** A header and a row with the same number of columns, at most 64, in lines that the reader takes in whole. */
  predicate SameColumns(hs: seq<seq<byte>>, ts: seq<seq<byte>>, he: seq<byte>, te: seq<byte>) {
    && 0 < |hs| == |ts| <= MAX_COLUMNS && CommaFree(hs) && CommaFree(ts) && IsEnd(he) && IsEnd(te)
    && |Joined(hs) + he| <= LINE_LIMIT && |Joined(ts) + te| <= LINE_LIMIT
  }

  lemma ReorderedColumns(x: seq<FieldId>, a: seq<FieldId>, b: seq<FieldId>, p: seq<nat>, q: seq<nat>)
    requires Inverse(p, q) && |x| == |p| <= |a| && |p| <= |b| && Distinct(x, |x|)
    requires a[..|p|] == x && b[..|p|] == Permuted(x, p)
    ensures Reordered(a, b, p, q)
  {
    assert forall i :: 0 <= i < |p| ==> a[i] == a[..|p|][i];
    assert forall i :: 0 <= i < |p| ==> b[i] == b[..|p|][i];
  }

  lemma PermutedTokens<N(!new)>(fl: Floats<N>, layout: Layout, ts: seq<seq<byte>>, te: seq<byte>, p: seq<nat>)
    requires Sane(fl) && IsEnd(te) && ts != [] && |p| == |ts| && forall i :: 0 <= i < |p| ==> p[i] < |ts|
    ensures ReadAlike(ScanIn(fl, layout), WithEnd(ts, te), WithEnd(Permuted(ts, p), te), p)
    ensures forall i :: 0 <= i < |p| ==> Atoi(WithEnd(Permuted(ts, p), te)[i]) == Atoi(WithEnd(ts, te)[p[i]])
  {
    var s, t, read := WithEnd(ts, te), WithEnd(Permuted(ts, p), te), ScanIn(fl, layout);
    forall i, f | 0 <= i < |p| ensures read(f, t[i]) == read(f, s[p[i]]) {
      TokenReads(fl, layout, Permuted(ts, p), te, f, i);
      TokenReads(fl, layout, ts, te, f, p[i]);
    }
    forall i | 0 <= i < |p| ensures Atoi(t[i]) == Atoi(s[p[i]]) {
      TokenReads(fl, layout, Permuted(ts, p), te, Type, i);
      TokenReads(fl, layout, ts, te, Type, p[i]);
    }
  }

  lemma ReorderedDecode<N(!new)>(fl: Floats<N>, a: seq<FieldId>, b: seq<FieldId>, ts: seq<seq<byte>>, te: seq<byte>,
                                 p: seq<nat>, q: seq<nat>)
    requires Sane(fl) && IsEnd(te) && ts != [] && |p| == |ts| && Reordered(a, b, p, q)
    ensures Decode(fl, b, WithEnd(Permuted(ts, p), te)) == Decode(fl, a, WithEnd(ts, te))
  {
    var s, t := WithEnd(ts, te), WithEnd(Permuted(ts, p), te);
    PermutedTokens(fl, NoLayout, ts, te, p);
    ReorderedKind(a, s, b, t, p, q);
    var layout := LayoutOf(KindIn(a, s));
    PermutedTokens(fl, layout, ts, te, p);
    ReorderedAssigned(StoresIn(layout), ScanIn(fl, layout), a, s, b, t, p, q);
  }

  /** The order of the columns does not matter: the same permutation of the header and of the row leaves the decoded
      packet unchanged, for every packet family and also for rows that are refused. */
  lemma ColumnOrderDoesNotMatter<N(!new)>(fl: Floats<N>, hs: seq<seq<byte>>, ts: seq<seq<byte>>, he: seq<byte>,
                                          te: seq<byte>, p: seq<nat>, q: seq<nat>)
    requires Sane(fl) && SameColumns(hs, ts, he, te) && |p| == |hs| && Inverse(p, q)
    requires SameColumns(Permuted(hs, p), Permuted(ts, p), he, te)
    requires Distinct(Selected(Lookup, hs), |hs|)
    ensures Replayed(fl, Joined(Permuted(hs, p)) + he, Joined(Permuted(ts, p)) + te)
         == Replayed(fl, Joined(hs) + he, Joined(ts) + te)
  {
    var a, b := HeaderFields(Lookup, Joined(hs) + he), HeaderFields(Lookup, Joined(Permuted(hs, p)) + he);
    TokensOf(ts, te);
    TokensOf(Permuted(ts, p), te);
    HeaderSelected(Lookup, hs, he);
    HeaderSelected(Lookup, Permuted(hs, p), he);
    SelectedPermuted(Lookup, hs, p);
    ReorderedColumns(Selected(Lookup, hs), a, b, p, q);
    ReorderedDecode(fl, a, b, ts, te, p, q);
  }
}
