/** The replay file: its sparse line index and reading by line number (fs_replay_open, fs_replay_read_next,
    fs_replay_read_line). */
module Replay {
  import opened Bytes
  import opened Columns
  import opened LineReader
  import opened Rows

  const LINE_BUFFER: nat := 512       // sizeof(linebuf)
  const UINT32_MAX: nat := U32 - 1   // line numbers are uint32_t
  const INITIAL_CAPACITY: nat := 4096

  // ----- the lines of a file -----

  /** The position of the k-th line after the header line. */
  function LineStart(data: seq<byte>, k: nat): (p: nat)
    ensures p <= |data|
  {
    if k == 0 then LineEnd(data, 0) else LineEnd(data, LineStart(data, k - 1))
  }

  function LineText(data: seq<byte>, k: nat): seq<byte> {
    data[LineStart(data, k)..LineEnd(data, LineStart(data, k))]
  }

  /** The k-th line exists and fits the line buffer. */
  predicate Readable(data: seq<byte>, k: nat) {
    LineStart(data, k) < LineStart(data, k + 1) < LineStart(data, k) + LINE_BUFFER
  }

  /** Lines lo to hi - 1 are readable. */
  predicate AllReadable(data: seq<byte>, lo: nat, hi: nat)
    decreases hi
  {
    hi <= lo || (AllReadable(data, lo, hi - 1) && Readable(data, hi - 1))
  }

  lemma {:induction false} AllReadableWithin(data: seq<byte>, lo: nat, hi: nat, i: nat, j: nat)
    requires AllReadable(data, lo, hi) && lo <= i < j <= hi
    ensures AllReadable(data, i, j) && Readable(data, i)
    decreases hi
  {
    if j < hi {
      AllReadableWithin(data, lo, hi - 1, i, j);
    } else if i < j - 1 {
      AllReadableWithin(data, lo, hi - 1, i, j - 1);
    }
  }

  lemma NotAllReadable(data: seq<byte>, lo: nat, hi: nat, i: nat)
    requires lo <= i < hi && !Readable(data, i)
    ensures !AllReadable(data, lo, hi)
  {
    if AllReadable(data, lo, hi) {
      AllReadableWithin(data, lo, hi, i, hi);
    }
  }

  /** n is the number of lines in front of the first one that is missing or too long. */
  predicate ReadableLines(data: seq<byte>, n: nat) {
    AllReadable(data, 0, n) && !Readable(data, n)
  }

  lemma ReadableLinesUnique(data: seq<byte>, n: nat, m: nat)
    requires ReadableLines(data, n) && ReadableLines(data, m)
    ensures n == m
  {
    if n < m {
      NotAllReadable(data, 0, m, n);
    } else if m < n {
      NotAllReadable(data, 0, n, m);
    }
  }

  predicate NoOverlongLine(data: seq<byte>) {
    forall i :: 0 <= i < |Lines(data, 0)| ==> |Lines(data, 0)[i]| < LINE_BUFFER
  }

  /** Lines are numbered as a linear scan finds them: the k-th data line is entry k + 1 of the lines of the file. */
  lemma {:induction false} LineIsScanned(data: seq<byte>, k: nat)
    ensures LineStart(data, k) < |data| ==>
      k + 1 < |Lines(data, 0)| && Lines(data, 0)[k + 1] == LineText(data, k)
      && Lines(data, 0)[k + 1..] == Lines(data, LineStart(data, k))
    ensures LineStart(data, k) == |data| ==> |Lines(data, 0)| <= k + 1
  {
    if k > 0 {
      LineIsScanned(data, k - 1);
      if LineStart(data, k - 1) < |data| {
        LinesAdvance(data, k, LineStart(data, k - 1));
      }
    } else if data != [] {
      LinesAdvance(data, 0, 0);
    }
  }

  lemma LinesAdvance(data: seq<byte>, k: nat, p: nat)
    requires p < |data| && k < |Lines(data, 0)| && Lines(data, 0)[k..] == Lines(data, p)
    ensures Lines(data, 0)[k + 1..] == Lines(data, LineEnd(data, p))
    ensures LineEnd(data, p) < |data| ==>
      k + 1 < |Lines(data, 0)| && Lines(data, 0)[k + 1] == data[LineEnd(data, p)..LineEnd(data, LineEnd(data, p))]
    ensures LineEnd(data, p) == |data| ==> |Lines(data, 0)| == k + 1
  {
    var all, e := Lines(data, 0), LineEnd(data, p);
    DropTwice(all, k, 1);
    assert Lines(data, p)[1..] == Lines(data, e);
    if e < |data| {
      assert all[k + 1..][0] == Lines(data, e)[0];
    } else {
      assert all[k + 1..] == [];
    }
  }

  /** In a file without overlong lines the readable lines are all the lines behind the header. */
  lemma ReadableLinesAreAll(data: seq<byte>, n: nat)
    requires NoOverlongLine(data) && ReadableLines(data, n) && data != []
    ensures |Lines(data, 0)| == n + 1
  {
    LineIsScanned(data, n);
    if n > 0 {
      assert Readable(data, n - 1);
      LineIsScanned(data, n - 1);
    }
  }

  lemma {:induction false} LineStartsIncrease(data: seq<byte>, j: nat, k: nat)
    requires j < k && LineStart(data, k - 1) < |data|
    ensures LineStart(data, j) < LineStart(data, k)
    decreases k
  {
    if j < k - 1 {
      LineStartsIncrease(data, j, k - 1);
    }
  }

  // ----- index arithmetic -----

  function Ceiling(a: nat, n: nat): nat
    requires n > 0
  {
    (a + n - 1) / n
  }

  /** lines fills `blocks` blocks of step lines, the last one perhaps not to the end. */
  predicate Fills(lines: nat, blocks: nat, step: nat)
    requires step > 0
  {
    if blocks == 0 then lines == 0 else (blocks - 1) * step < lines <= blocks * step
  }

  /** index holds the positions of the lines 0, step, 2 * step, ... below lines. */
  ghost predicate Indexes(data: seq<byte>, index: seq<nat>, step: nat, lines: nat)
    requires step > 0
  {
    && Fills(lines, |index|, step)
    && forall k :: 0 <= k < |index| ==> index[k] == LineStart(data, k * step)
  }

  lemma MulMonotone(a: int, b: int, n: nat)
    requires a <= b
    ensures a * n <= b * n
  {
  }

  lemma MulNext(a: int, n: nat)
    ensures (a + 1) * n == a * n + n
  {
  }

  /** The quotient is the one number of whole blocks: a product in the last block decides it. */
  lemma QuotientIs(a: nat, n: nat, q: nat)
    requires n > 0 && q * n <= a < (q + 1) * n
    ensures a / n == q && a % n == a - q * n
  {
    var p := a / n;
    assert a == p * n + a % n;
    if p < q {
      MulMonotone(p + 1, q, n);
      MulNext(p, n);
    } else if q < p {
      MulMonotone(q + 1, p, n);
    }
  }

  /** A line number is a multiple of step exactly when it opens a new block. */
  lemma OpensBlock(lines: nat, blocks: nat, step: nat)
    requires step > 0 && Fills(lines, blocks, step)
    ensures lines % step == 0 <==> lines == blocks * step
  {
    MulNext(blocks, step);
    MulNext(blocks - 1, step);
    QuotientIs(lines, step, if lines == blocks * step then blocks else blocks - 1);
  }

  lemma BlocksAreCeiling(lines: nat, blocks: nat, step: nat)
    requires step > 0 && Fills(lines, blocks, step)
    ensures blocks == Ceiling(lines, step)
  {
    MulNext(blocks, step);
    MulNext(blocks - 1, step);
    QuotientIs(lines + step - 1, step, blocks);
  }

  /** The largest array that doubling reaches from a capacity when the allocator has room for so many entries. */
  function Granted(capacity: nat, room: nat): (c: nat)
    requires 0 < capacity
    ensures capacity <= c
    decreases room - capacity
  {
    if 2 * capacity > room then capacity else Granted(2 * capacity, room)
  }

  function PowerOfTwo(k: nat): nat {
    if k == 0 then 1 else 2 * PowerOfTwo(k - 1)
  }

  /** It is the capacity doubled as often as there is room. */
  lemma {:induction false} GrantedIs(capacity: nat, room: nat) returns (k: nat)
    requires 0 < capacity <= room
    ensures Granted(capacity, room) == capacity * PowerOfTwo(k) <= room < 2 * capacity * PowerOfTwo(k)
    decreases room - capacity
  {
    k := 0;
    if 2 * capacity <= room {
      var j := GrantedIs(2 * capacity, room);
      k := j + 1;
      Regroup(capacity, PowerOfTwo(j));
    }
  }

  lemma Regroup(a: nat, p: nat)
    ensures a * (2 * p) == 2 * a * p && 2 * a * (2 * p) == 2 * (2 * a) * p
  {
  }

  /** More lines than fill a number of blocks need one block more. */
  lemma MoreBlocks(lines: nat, blocks: nat, step: nat)
    requires step > 0 && lines > blocks * step
    ensures Ceiling(lines, step) > blocks
  {
    var q := Ceiling(lines, step);
    assert lines + step - 1 == q * step + (lines + step - 1) % step;
    if q <= blocks {
      MulMonotone(q, blocks, step);
    }
  }

  lemma TooManyLines(data: seq<byte>, n: nat, blocks: nat, step: nat)
    requires step > 0 && ReadableLines(data, n) && AllReadable(data, 0, blocks * step + 1)
    ensures Ceiling(n, step) > blocks
  {
    if n <= blocks * step {
      NotAllReadable(data, 0, blocks * step + 1, n);
    }
    MoreBlocks(n, blocks, step);
  }

  /** The next line opens a block: its position is appended. */
  lemma ExtendIndex(data: seq<byte>, index: seq<nat>, step: nat, lines: nat)
    requires step > 0 && Indexes(data, index, step, lines) && lines == |index| * step
    ensures Indexes(data, index + [LineStart(data, lines)], step, lines + 1)
  {
    assert (|index| + 1) * step == |index| * step + step;
  }

  /** The two anchors of a line: the one at or before it always exists, the one behind it exists unless the line is in
      the last block. Its line number does not wrap when it exists. */
  lemma Anchors(lines: nat, blocks: nat, step: nat, i: nat)
    requires step > 0 && Fills(lines, blocks, step) && i < lines < U32
    ensures var b := i / step;
      && b < blocks && b * step <= i && i - b * step == i % step
      && (b + 1 < blocks ==>
            (b + 1) * step < lines && ((b + 1) * step) % U32 == (b + 1) * step
            && (b + 1) * step - i == step - i % step)
  {
    var b := i / step;
    assert i == b * step + i % step;
    MulNext(b, step);
    if b >= blocks {
      MulMonotone(blocks, b, step);
    } else if b + 1 < blocks {
      MulMonotone(b + 1, blocks - 1, step);
    }
  }

  function Later(a: nat, b: nat): nat {
    if a < b then b else a
  }

  /** The next indexed line is strictly closer to line i than the one at or before it. */
  predicate ForwardIsCloser(i: nat, step: nat, blocks: nat)
    requires step > 0
  {
    i / step + 1 < blocks && i % step > step - i % step
  }

  /** The line that reading starts at for line i. */
  function Anchor(i: nat, step: nat, blocks: nat): nat
    requires step > 0
  {
    if ForwardIsCloser(i, step, blocks) then (i / step + 1) * step else i / step * step
  }

  // ----- the index against a linear scan -----

  /** The k-th line starts behind everything that a linear scan reads before it: the header and k lines. */
  lemma {:induction false} LineStartIsScanned(data: seq<byte>, k: nat)
    requires k < |Lines(data, 0)|
    ensures LineStart(data, k) == |Concat(Lines(data, 0)[..k + 1])|
  {
    var all := Lines(data, 0);
    assert all[..k + 1] == all[..k] + [all[k]];
    ConcatAppend(all[..k], [all[k]]);
    ConcatOne(all[k]);
    if k > 0 {
      LineStartIsScanned(data, k - 1);
      LineIsScanned(data, k - 1);
    }
  }

  /** In a file without overlong lines the sparse index is exactly what a linear scan would note: one entry per
      started block of step lines, each the number of bytes in front of the first line of the block. */
  lemma IndexAgreesWithScan(data: seq<byte>, index: seq<nat>, step: nat, n: nat)
    requires NoOverlongLine(data) && data != [] && ReadableLines(data, n)
    requires step > 0 && Indexes(data, index, step, n)
    ensures |Lines(data, 0)| == n + 1 && |index| == Ceiling(n, step)
    ensures forall k :: 0 <= k < |index| ==>
      k * step < n && index[k] == |Concat(Lines(data, 0)[..k * step + 1])|
  {
    ReadableLinesAreAll(data, n);
    BlocksAreCeiling(n, |index|, step);
    forall k | 0 <= k < |index|
      ensures k * step < n && index[k] == |Concat(Lines(data, 0)[..k * step + 1])|
    {
      MulMonotone(k, |index| - 1, step);
      LineStartIsScanned(data, k * step);
    }
  }

  // ----- which line is delivered -----

  function Distance(a: int, b: int): nat {
    if a < b then b - a else a - b
  }

  /** Reading starts at the indexed line nearest to the wanted one; of two that are equally near, at the one in
      front of it. */
  lemma AnchorIsNearest(n: nat, step: nat, blocks: nat, i: nat)
    requires step > 0 && Fills(n, blocks, step) && i < n < U32
    ensures var a := Anchor(i, step, blocks);
      && (a == i / step * step || a == (i / step + 1) * step) && a < n
      && forall k :: 0 <= k < blocks ==>
           && Distance(a, i) <= Distance(k * step, i)
           && (a > i && k * step <= i ==> Distance(a, i) < Distance(k * step, i))
  {
    Anchors(n, blocks, step, i);
    var b, a := i / step, Anchor(i, step, blocks);
    MulNext(b, step);
    forall k | 0 <= k < blocks
      ensures Distance(a, i) <= Distance(k * step, i)
      ensures a > i && k * step <= i ==> Distance(a, i) < Distance(k * step, i)
    {
      if k <= b {
        MulMonotone(k, b, step);
      } else {
        MulMonotone(b + 1, k, step);
      }
    }
  }

  /** fs_replay_read_line delivers the line it was asked for, and leaves the cursor behind it, exactly when the
      backward anchor is chosen. Otherwise it delivers the first line of the next block. */
  lemma DeliversTheLine(data: seq<byte>, n: nat, step: nat, blocks: nat, i: nat)
    requires step > 0 && Fills(n, blocks, step) && ReadableLines(data, n) && i < n < U32
    ensures var d := Later(Anchor(i, step, blocks), i);
      && d < n
      && (d == i <==> !ForwardIsCloser(i, step, blocks))
      && (LineStart(data, d + 1) == LineStart(data, i + 1) <==> !ForwardIsCloser(i, step, blocks))
      && (ForwardIsCloser(i, step, blocks) ==> d == (i / step + 1) * step > i)
  {
    Anchors(n, blocks, step, i);
    MulNext(i / step, step);
    var d := Later(Anchor(i, step, blocks), i);
    if ForwardIsCloser(i, step, blocks) {
      AllReadableWithin(data, 0, n, d, n);
      LineStartsIncrease(data, i + 1, d + 1);
    }
  }

  /** Every line is delivered as asked for exactly when no block has a line strictly closer to the next block: steps 1
      and 2, or a file of at most one block. */
  lemma AllLinesDelivered(n: nat, step: nat, blocks: nat)
    requires step > 0 && Fills(n, blocks, step)
    ensures (forall i :: 0 <= i < n ==> !ForwardIsCloser(i, step, blocks)) <==> step <= 2 || n <= step
  {
    if step <= 2 {
    } else if n <= step {
      if blocks > 1 {
        MulMonotone(1, blocks - 1, step);
      }
    } else {
      if blocks <= 1 {
        MulMonotone(blocks, 1, step);
      }
      QuotientIs(step - 1, step, 0);
      assert ForwardIsCloser(step - 1, step, blocks);
    }
  }

  /** The backward anchor alone delivers every line: its entry exists, every line between it and the wanted one is
      readable, and reading on from it ends at the wanted line. */
  lemma BackwardAnchorSuffices(data: seq<byte>, index: seq<nat>, step: nat, n: nat, i: nat, b: nat)
    requires step > 0 && Indexes(data, index, step, n) && ReadableLines(data, n) && i < n < U32 && b == i / step
    ensures b < |index| && index[b] == LineStart(data, b * step)
    ensures Later(b * step, i) == i && AllReadable(data, b * step, i + 1)
  {
    Anchors(n, |index|, step, i);
    var from := b * step;
    AllReadableWithin(data, 0, n, from, i + 1);
  }

  // ----- the replay object -----

  class ReplayFile {
    const fp: File
    const linebuf: array<byte>
    var offsets: array<nat>
    var numLines: nat
    var numBlocks: nat
    var sparseStep: nat
    var hasIndex: bool
    const fieldForColumn: array<FieldId>

    ghost predicate Valid()
      reads this, fp
    {
      fp.Valid() && linebuf.Length == LINE_BUFFER && fieldForColumn.Length == MAX_COLUMNS
    }

    /** The index built by a successful open. */
    ghost predicate Indexed()
      reads this, fp, offsets
    {
      && Valid() && ReadableLines(fp.data, numLines)
      && sparseStep > 0 && numBlocks <= offsets.Length
      && Indexes(fp.data, offsets[..numBlocks], sparseStep, numLines)
      && hasIndex == (numBlocks > 0)
    }

    constructor (file: File)
      requires file.Valid()
      ensures Valid() && fp == file && fresh(linebuf) && fresh(offsets) && fresh(fieldForColumn)
    {
      fp := file;
      linebuf := new byte[LINE_BUFFER];
      offsets := new nat[0];
      fieldForColumn := new FieldId[MAX_COLUMNS](_ => NoField);
      numLines, numBlocks, sparseStep, hasIndex := 0, 0, 0, false;
    }

    /** offsets[block] = pos, with the array doubled when it is full; room is the number of entries that the allocator
        can provide. */
    method AppendOffset(block: nat, pos: nat, room: nat) returns (ok: bool)
      requires block <= offsets.Length && offsets.Length > 0
      modifies this`offsets, offsets
      ensures ok <==> block < old(offsets.Length) || 2 * old(offsets.Length) <= room
      ensures ok ==> block < offsets.Length && offsets[..block + 1] == old(offsets[..block]) + [pos]
      ensures !ok ==> offsets == old(offsets) && offsets[..] == old(offsets[..])
      ensures Granted(offsets.Length, room) == Granted(old(offsets.Length), room)
      ensures offsets == old(offsets) || fresh(offsets)
    {
      ghost var before := offsets[..block];
      if block == offsets.Length {
        if 2 * offsets.Length > room {
          return false;
        }
        var larger := new nat[2 * offsets.Length](_ => 0);
        for i := 0 to offsets.Length
          invariant offsets == old(offsets) && larger != offsets && offsets[..] == before
          invariant larger[..i] == before[..i]
        {
          larger[i] := offsets[i];
        }
        offsets := larger;
        assert offsets[..block] == before;
      }
      offsets[block] := pos;
      assert offsets[..block + 1] == before + [pos];
      return true;
    }

    /** fs_safe_fgets into the line buffer, and the C string that the buffer then holds. */
    method FetchLine() returns (got: int, line: seq<byte>)
      requires Valid()
      modifies fp, linebuf
      ensures Valid() && fp.pos == LineEnd(fp.data, old(fp.pos))
      ensures got == ReturnCode(NextLine(fp.data, old(fp.pos), LINE_BUFFER))
      ensures got > 0 ==> line == CString(fp.data[old(fp.pos)..fp.pos], LINE_BUFFER)
    {
      line := [];
      got := SafeFgets(fp, linebuf);
      if got > 0 {
        TerminatedCString(linebuf[..], fp.data[old(fp.pos)..fp.pos], LINE_BUFFER);
        line := CString(linebuf[..], LINE_BUFFER);
      }
    }

    /** The same for the line with number k. */
    method FetchNumbered(ghost k: nat) returns (got: bool, line: seq<byte>)
      requires Valid() && fp.pos == LineStart(fp.data, k)
      modifies fp, linebuf
      ensures Valid() && fp.pos == LineStart(fp.data, k + 1)
      ensures got == Readable(fp.data, k)
      ensures got ==> line == CString(LineText(fp.data, k), LINE_BUFFER)
    {
      var code;
      code, line := FetchLine();
      got := code > 0;
    }

    /** The header line, read and parsed. */
    method ReadHeader() returns (got: int)
      requires Valid() && fp.pos == 0
      modifies fp, linebuf, fieldForColumn
      ensures Valid() && fp.pos == LineStart(fp.data, 0) && got == ReturnCode(NextLine(fp.data, 0, LINE_BUFFER))
      ensures got > 0 ==>
        fieldForColumn[..] == HeaderFields(Lookup, CString(fp.data[..LineEnd(fp.data, 0)], LINE_BUFFER))
    {
      var header;
      got, header := FetchLine();
      if got > 0 {
        ParseHeader(fieldForColumn, Lookup, header);
      }
    }

    /** One line seen by the indexing loop: every step-th line gets an entry. */
    method NoteLine(step: nat, line: nat, block: nat, pos: nat, room: nat) returns (ok: bool, blocks: nat)
      requires step > 0 && 0 < offsets.Length && block <= offsets.Length && pos == LineStart(fp.data, line)
      requires Indexes(fp.data, offsets[..block], step, line)
      modifies this`offsets, offsets
      ensures 0 < offsets.Length && blocks <= offsets.Length && (offsets == old(offsets) || fresh(offsets))
      ensures Granted(offsets.Length, room) == Granted(old(offsets.Length), room)
      ensures ok ==> Indexes(fp.data, offsets[..blocks], step, line + 1)
      ensures !ok ==> blocks == block == Granted(offsets.Length, room) && line == block * step
    {
      OpensBlock(line, block, step);
      ok, blocks := true, block;
      if line % step == 0 {
        ExtendIndex(fp.data, offsets[..block], step, line);
        ok := AppendOffset(block, pos, room);
        if ok {
          blocks := block + 1;
        }
      }
    }

    /** The indexing loop of fs_replay_open: it reads lines until one is missing or too long, or until there is no
        room for another entry. */
    method BuildIndex(step: nat, room: nat) returns (ok: bool, line: nat, block: nat)
      requires Valid() && step > 0 && offsets.Length > 0 && fp.pos == LineStart(fp.data, 0)
      modifies this`offsets, fp, linebuf, offsets
      ensures Valid() && block <= offsets.Length <= Granted(old(offsets.Length), room)
      ensures ok ==> ReadableLines(fp.data, line) && Indexes(fp.data, offsets[..block], step, line)
      ensures !ok ==> block == Granted(old(offsets.Length), room) && AllReadable(fp.data, 0, block * step + 1)
      ensures offsets == old(offsets) || fresh(offsets)
    {
      ok, line, block := true, 0, 0;
      var pos := fp.pos;
      var more, last := FetchNumbered(0);
      ghost var index: seq<nat> := [];
      while more
        invariant Valid() && 0 < offsets.Length && block <= offsets.Length
        invariant offsets == old(offsets) || fresh(offsets)
        invariant Granted(offsets.Length, room) == Granted(old(offsets.Length), room)
        invariant pos == LineStart(fp.data, line) && fp.pos == LineStart(fp.data, line + 1)
        invariant more == Readable(fp.data, line)
        invariant AllReadable(fp.data, 0, line)
        invariant index == offsets[..block] && Indexes(fp.data, index, step, line)
        decreases |fp.data| - pos
      {
        ok, block := NoteLine(step, line, block, pos, room);
        if !ok {
          return;
        }
        index := offsets[..block];
        pos := fp.pos;
        line := line + 1;
        more, last := FetchNumbered(line);
      }
    }

    /** The index is built, and the cursor put back to the first line. */
    method MakeIndex(step: nat, room: nat) returns (ok: bool)
      requires Valid() && step > 0 && sparseStep == step && fp.pos == LineStart(fp.data, 0)
      modifies this`offsets, this`numLines, this`numBlocks, this`hasIndex, fp, linebuf
      ensures Valid() && fresh(offsets)
      ensures ok ==> Indexed() && numBlocks == Ceiling(numLines, step) <= Granted(INITIAL_CAPACITY, room)
      ensures ok && numBlocks > 0 ==> fp.pos == LineStart(fp.data, 0)
      ensures !ok ==> AllReadable(fp.data, 0, Granted(INITIAL_CAPACITY, room) * step + 1)
    {
      offsets := new nat[INITIAL_CAPACITY](_ => 0);
      var lines, blocks;
      ok, lines, blocks := BuildIndex(step, room);
      if !ok {
        return;
      }
      numLines, numBlocks := lines, blocks;
      hasIndex := numBlocks > 0;
      BlocksAreCeiling(numLines, numBlocks, step);
      if numBlocks > 0 {
        assert offsets[0] == offsets[..numBlocks][0];
        fp.Seek(offsets[0]);
      }
    }

    /** Whether fopen succeeds and how many entries the allocator can provide are parameters. */
    method Open(step: nat, canOpen: bool, room: nat) returns (rc: int)
      requires Valid() && fp.pos == 0 && step < U32
      modifies this, fp, linebuf, offsets, fieldForColumn
      ensures Valid()
      ensures rc == -1 <==> step == 0
      ensures rc == -2 <==> step > 0 && !canOpen
      ensures rc == -3 <==> step > 0 && canOpen && !NextLine(fp.data, 0, LINE_BUFFER).Line?
      ensures rc == -5 <==>
        step > 0 && canOpen && NextLine(fp.data, 0, LINE_BUFFER).Line? && room < INITIAL_CAPACITY
      ensures rc in {0, -1, -2, -3, -5, -6}
      ensures rc == -6 ==> forall n :: ReadableLines(fp.data, n) ==> Ceiling(n, step) > Granted(INITIAL_CAPACITY, room)
      ensures rc == 0 ==> Indexed() && sparseStep == step && numBlocks == Ceiling(numLines, step)
      ensures rc == 0 ==> forall n :: ReadableLines(fp.data, n) ==> n == numLines
      ensures rc == 0 ==> numBlocks <= Granted(INITIAL_CAPACITY, room)
      ensures rc == 0 ==>
        fieldForColumn[..] == HeaderFields(Lookup, CString(fp.data[..LineEnd(fp.data, 0)], LINE_BUFFER))
      ensures rc == 0 && numBlocks > 0 ==> fp.pos == LineStart(fp.data, 0)
      ensures offsets == old(offsets) || fresh(offsets)
    {
      if step == 0 {
        return -1;
      }
      numLines, numBlocks, hasIndex := 0, 0, false;
      sparseStep := step;
      if !canOpen {
        return -2;
      }
      var got := ReadHeader();
      if got <= 0 {
        return -3;
      }
      if room < INITIAL_CAPACITY {
        return -5;
      }
      var ok := MakeIndex(step, room);
      if !ok {
        forall n | ReadableLines(fp.data, n) ensures Ceiling(n, step) > Granted(INITIAL_CAPACITY, room) {
          TooManyLines(fp.data, n, Granted(INITIAL_CAPACITY, room), step);
        }
        return -6;
      }
      forall n | ReadableLines(fp.data, n) ensures n == numLines {
        ReadableLinesUnique(fp.data, n, numLines);
      }
      return 0;
    }

    /** What the caller gets for a line that was read: the decoded packet, or a refusal. */
    ghost predicate Yields<N>(fl: Floats<N>, text: seq<byte>, rc: int, packet: Packet<N>)
      requires Valid()
      reads this, fp, fieldForColumn
    {
      && (rc == 0 || rc == -2)
      && Decode(fl, fieldForColumn[..], Tokens(CString(text, LINE_BUFFER)))
         == if rc == 0 then Decoded(packet) else Refused
    }

    /** fs_replay_read_next. */
    method ReadNext<N>(fl: Floats<N>) returns (rc: int, packet: Packet<N>)
      requires Valid()
      modifies fp, linebuf
      ensures Valid() && fp.pos == LineEnd(fp.data, old(fp.pos))
      ensures var next := NextLine(fp.data, old(fp.pos), LINE_BUFFER);
        && (next.Line? ==> Yields(fl, next.text, rc, packet))
        && (next.Nothing? ==> rc == 1)
        && (next.TooLong? ==> rc == -2)
    {
      packet := Packet(0, map[]);
      var got, line := FetchLine();
      if got == 0 {
        return 1, packet;
      }
      if got < 0 {
        return -2, packet;
      }
      rc, packet := ParsePacket(fl, fieldForColumn, line);
    }

    /** Reading on from an indexed line: lines in front of the wanted one are skipped, and an anchor that lies behind
        the wanted line is returned itself. */
    method ReadFrom(startLine: nat, lineIndex: nat) returns (rc: int, line: seq<byte>)
      requires Valid() && fp.pos == LineStart(fp.data, startLine)
      modifies fp, linebuf
      ensures Valid()
      ensures rc == 0 <==> AllReadable(fp.data, startLine, Later(startLine, lineIndex) + 1)
      ensures rc == 0 ==> fp.pos == LineStart(fp.data, Later(startLine, lineIndex) + 1)
      ensures rc == 0 ==> line == CString(LineText(fp.data, Later(startLine, lineIndex)), LINE_BUFFER)
    {
      ghost var last := Later(startLine, lineIndex);
      var i := startLine;
      while i < lineIndex
        invariant Valid() && startLine <= i <= last && fp.pos == LineStart(fp.data, i)
        invariant AllReadable(fp.data, startLine, i)
      {
        var skipped, _ := FetchNumbered(i);
        if !skipped {
          NotAllReadable(fp.data, startLine, last + 1, i);
          return -5, [];
        }
        i := i + 1;
      }
      var got;
      got, line := FetchNumbered(i);
      if !got {
        return -6, line;
      }
      return 0, line;
    }

    /** The anchor of a line: the indexed line at or before it, or the next indexed one when that is strictly closer. */
    method ChooseAnchor(lineIndex: nat) returns (startLine: nat, startOffset: nat)
      requires Indexed() && lineIndex < numLines < U32
      ensures startLine == Anchor(lineIndex, sparseStep, numBlocks) < numLines
      ensures startOffset == LineStart(fp.data, startLine)
    {
      Anchors(numLines, numBlocks, sparseStep, lineIndex);
      var block := lineIndex / sparseStep;
      var blockStart := block * sparseStep;
      var nextBlock := block + 1;
      var nextStart := (nextBlock * sparseStep) % U32;
      var distBackward := lineIndex - blockStart;
      var distForward := if nextBlock < numBlocks && nextStart < numLines then nextStart - lineIndex else UINT32_MAX;
      ghost var index := offsets[..numBlocks];
      if distBackward <= distForward {
        startLine, startOffset := blockStart, offsets[block];
        assert startOffset == index[block];
      } else {
        startLine, startOffset := nextStart, offsets[nextBlock];
        assert startOffset == index[nextBlock];
      }
    }

    /** fs_replay_read_line up to the parse of the line. */
    method FetchIndexed(lineIndex: nat) returns (rc: int, line: seq<byte>)
      requires Indexed() && lineIndex < U32 && numLines < U32
      modifies fp, linebuf
      ensures Valid()
      ensures !hasIndex ==> rc == -2
      ensures hasIndex && lineIndex >= numLines ==> rc == -3
      ensures lineIndex >= numLines ==> fp.pos == old(fp.pos)
      ensures lineIndex < numLines ==>
        var delivered := Later(Anchor(lineIndex, sparseStep, numBlocks), lineIndex);
        && rc == 0 && line == CString(LineText(fp.data, delivered), LINE_BUFFER)
        && fp.pos == LineStart(fp.data, delivered + 1)
    {
      line := [];
      if !hasIndex {
        return -2, line;
      }
      if lineIndex >= numLines {
        return -3, line;
      }
      var startLine, startOffset := ChooseAnchor(lineIndex);
      AllReadableWithin(fp.data, 0, numLines, startLine, Later(startLine, lineIndex) + 1);
      fp.Seek(startOffset);
      rc, line := ReadFrom(startLine, lineIndex);
    }

    /** fs_replay_read_line. */
    method ReadLine<N>(lineIndex: nat, fl: Floats<N>) returns (rc: int, packet: Packet<N>)
      requires Indexed() && lineIndex < U32 && numLines < U32
      modifies fp, linebuf
      ensures Valid()
      ensures !hasIndex ==> rc == -2
      ensures hasIndex && lineIndex >= numLines ==> rc == -3
      ensures lineIndex >= numLines ==> fp.pos == old(fp.pos)
      ensures lineIndex < numLines ==>
        var delivered := Later(Anchor(lineIndex, sparseStep, numBlocks), lineIndex);
        Yields(fl, LineText(fp.data, delivered), rc, packet) && fp.pos == LineStart(fp.data, delivered + 1)
    {
      var line;
      packet := Packet(0, map[]);
      rc, line := FetchIndexed(lineIndex);
      if rc == 0 {
        rc, packet := ParsePacket(fl, fieldForColumn, line);
      }
    }
  }
}
