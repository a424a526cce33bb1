/** fs_safe_fgets: bounded reading of lines from a file. */
module LineReader {
  import opened Bytes

  /** A file opened for reading: its bytes and a cursor. */
  class File {
    const data: seq<byte>
    var pos: nat

    ghost predicate Valid()
      reads this
    {
      pos <= |data|
    }

    constructor (bytes: seq<byte>)
      ensures Valid() && data == bytes && pos == 0
    {
      data := bytes;
      pos := 0;
    }

    /** fgetc: the next byte, or EOF. */
    method Getc() returns (c: int)
      requires Valid()
      modifies this
      ensures Valid()
      ensures old(pos) < |data| ==> c == data[old(pos)] && pos == old(pos) + 1
      ensures old(pos) == |data| ==> c == EOF && pos == old(pos)
    {
      if pos < |data| {
        c := data[pos];
        pos := pos + 1;
      } else {
        c := EOF;
      }
    }

    /** fseek(fp, offset, SEEK_SET) inside the file. */
    method Seek(offset: nat)
      requires offset <= |data|
      modifies this
      ensures Valid() && pos == offset
    {
      pos := offset;
    }
  }

  const EOF: int := -1

  // ----- lines of a byte string -----

  /** The position behind the line that starts at pos: behind its line feed, or the end of the data. */
  function LineEnd(data: seq<byte>, pos: nat): (e: nat)
    requires pos <= |data|
    ensures pos <= e <= |data|
    ensures pos < |data| ==> pos < e
    decreases |data| - pos
  {
    if pos == |data| then pos
    else if data[pos] == LF then pos + 1
    else LineEnd(data, pos + 1)
  }

  /** A line holds a line feed at most at its end, and ends with one unless it is the last. */
  lemma {:induction false} LineEndMeaning(data: seq<byte>, pos: nat)
    requires pos <= |data|
    ensures var e := LineEnd(data, pos);
      && (forall k :: pos <= k < e - 1 ==> data[k] != LF)
      && (pos < e < |data| ==> data[e - 1] == LF)
    decreases |data| - pos
  {
    if pos < |data| && data[pos] != LF {
      LineEndMeaning(data, pos + 1);
    }
  }

  /** All lines from pos on. */
  function Lines(data: seq<byte>, pos: nat): seq<seq<byte>>
    requires pos <= |data|
    decreases |data| - pos
  {
    if pos == |data| then [] else [data[pos..LineEnd(data, pos)]] + Lines(data, LineEnd(data, pos))
  }

  /** The lines partition the data: put together again they are the file. */
  lemma {:induction false} LinesPartition(data: seq<byte>, pos: nat)
    requires pos <= |data|
    ensures Concat(Lines(data, pos)) == data[pos..]
    decreases |data| - pos
  {
    if pos < |data| {
      var e := LineEnd(data, pos);
      LinesPartition(data, e);
      DropAppend([data[pos..e]], Lines(data, e), 1);
      SliceThenDrop(data, pos, e);
    }
  }

  lemma SliceThenDrop<T>(s: seq<T>, i: nat, j: nat)
    requires i <= j <= |s|
    ensures s[i..j] + s[j..] == s[i..]
  {
  }

  // ----- fs_safe_fgets -----

  datatype Fgets = Line(text: seq<byte>) | Nothing | TooLong(start: seq<byte>)

  /** What one call finds at pos with room for size - 1 characters. */
  function NextLine(data: seq<byte>, pos: nat, size: nat): Fgets
    requires pos <= |data| && size >= 2
  {
    var line := data[pos..LineEnd(data, pos)];
    if line == [] then Nothing
    else if |line| < size then Line(line)
    else TooLong(line[..size - 1])
  }

  function ReturnCode(r: Fgets): int {
    match r
    case Line(_) => 1
    case Nothing => 0
    case TooLong(_) => -1
  }

  /** Skips to the next line or the end of the file. */
  method DiscardLine(fp: File, first: int, ghost start: nat)
    requires fp.Valid() && start < fp.pos && first == fp.data[fp.pos - 1]
    requires LineEnd(fp.data, start) == LineEnd(fp.data, fp.pos - 1)
    modifies fp
    ensures fp.Valid() && fp.pos == LineEnd(fp.data, start)
  {
    var c := first;
    while c != LF as int && c != EOF
      invariant fp.Valid() && start < fp.pos
      invariant c == EOF ==> fp.pos == |fp.data| == LineEnd(fp.data, start)
      invariant c != EOF ==> c == fp.data[fp.pos - 1] && LineEnd(fp.data, start) == LineEnd(fp.data, fp.pos - 1)
      decreases |fp.data| - fp.pos, if c == EOF then 0 else 1
    {
      c := fp.Getc();
    }
  }

  /** fs_safe_fgets: whatever the line, the buffer ends with a terminator inside its bounds and the cursor stands at
      the start of the next line or at the end of the file. */
  method SafeFgets(fp: File, buf: array<byte>) returns (rc: int)
    requires fp.Valid()
    modifies fp, buf
    ensures fp.Valid()
    ensures buf.Length < 2 ==> rc == -2 && fp.pos == old(fp.pos) && buf[..] == old(buf[..])
    ensures buf.Length >= 2 ==> fp.pos == LineEnd(fp.data, old(fp.pos))
    ensures buf.Length >= 2 ==>
      var r := NextLine(fp.data, old(fp.pos), buf.Length);
      && rc == ReturnCode(r)
      && (r.Line? ==> |r.text| < buf.Length && buf[..|r.text|] == r.text && buf[|r.text|] == NUL)
      && (r.Nothing? ==> buf[..] == old(buf[..]))
      && (r.TooLong? ==> buf[..buf.Length - 1] == r.start && buf[buf.Length - 1] == NUL)
  {
    if buf.Length < 2 {
      return -2;
    }
    ghost var start := fp.pos;
    ghost var e := LineEnd(fp.data, start);
    var idx := 0;
    var c := fp.Getc();
    while c != EOF
      invariant fp.Valid() && 0 <= idx <= buf.Length - 1 && start + idx <= |fp.data|
      invariant buf[..idx] == fp.data[start..start + idx]
      invariant c == EOF ==> start + idx == |fp.data| == fp.pos == e
      invariant c != EOF ==>
        fp.pos == start + idx + 1 && c == fp.data[start + idx] && e == LineEnd(fp.data, start + idx)
      invariant idx == 0 ==> buf[..] == old(buf[..])
      decreases |fp.data| - fp.pos, if c == EOF then 0 else 1
    {
      if idx < buf.Length - 1 {
        ghost var read := buf[..idx];
        buf[idx] := c;
        assert buf[..idx + 1] == read + [c];
        SlicePush(fp.data, start, idx);
        idx := idx + 1;
      } else {
        DiscardLine(fp, c, start + idx);
        LongLine(fp.data, start, idx);
        buf[buf.Length - 1] := NUL;
        return -1;
      }
      if c == LF as int {
        break;
      }
      c := fp.Getc();
    }
    if idx == 0 && c == EOF {
      return 0;
    }
    buf[idx] := NUL;
    return 1;
  }

  lemma SlicePush<T>(s: seq<T>, from: nat, n: nat)
    requires from + n < |s|
    ensures s[from..from + n + 1] == s[from..from + n] + [s[from + n]]
  {
  }

  lemma LongLine(data: seq<byte>, start: nat, idx: nat)
    requires start + idx < |data| && LineEnd(data, start) == LineEnd(data, start + idx)
    ensures LineEnd(data, start) > start + idx
    ensures data[start..LineEnd(data, start)][..idx] == data[start..start + idx]
  {
    SlicePrefix(data, start, LineEnd(data, start), idx);
    DropSlice(data, start, idx);
  }
}
