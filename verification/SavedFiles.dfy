/** A recording from end to end: the file that the saver writes, read back by the replay reader. */
module SavedFiles {
  import opened Bytes
  import opened Columns
  import opened CsvText
  import opened LineReader
  import opened Replay
  import opened Rows
  import opened Saver
  import SaveThread

  // ----- lines inside a file -----

  /** A complete line: one line feed, at its end. */
  predicate IsLine(l: seq<byte>) {
    l != [] && l[|l| - 1] == LF && LF !in l[..|l| - 1]
  }

  lemma {:induction false} LineEndFound(data: seq<byte>, pos: nat, e: nat)
    requires pos < e <= |data| && data[e - 1] == LF && LF !in data[pos..e - 1]
    ensures LineEnd(data, pos) == e
    decreases e - pos
  {
    if pos < e - 1 {
      assert data[pos..e - 1][0] == data[pos];
      assert data[pos..e - 1][1..] == data[pos + 1..e - 1];
      LineEndFound(data, pos + 1, e);
    }
  }

  lemma {:induction false} LineGoesOn(data: seq<byte>, pos: nat, e: nat)
    requires pos <= e <= |data| && LF !in data[pos..e]
    ensures LineEnd(data, pos) >= e
    decreases e - pos
  {
    if pos < e {
      assert data[pos..e][0] == data[pos];
      assert data[pos..e][1..] == data[pos + 1..e];
      LineGoesOn(data, pos + 1, e);
    }
  }

  lemma LineInside(data: seq<byte>, front: seq<byte>, l: seq<byte>, back: seq<byte>)
    requires data == front + l + back && IsLine(l)
    ensures LineEnd(data, |front|) == |front| + |l| && data[|front|..|front| + |l|] == l
  {
    var n, e := |front|, |front| + |l|;
    assert data[n..e] == l;
    assert data[n..e - 1] == l[..|l| - 1];
    assert data[e - 1] == l[|l| - 1];
    LineEndFound(data, n, e);
  }

  lemma TextInside(data: seq<byte>, front: seq<byte>, t: seq<byte>, back: seq<byte>)
    requires data == front + t + back && LF !in t
    ensures LineEnd(data, |front|) >= |front| + |t|
  {
    assert data[|front|..|front| + |t|] == t;
    LineGoesOn(data, |front|, |front| + |t|);
  }

  // ----- the file that the saver writes -----

  predicate AllValid<N>(samples: seq<Sample<N>>) {
    forall k :: 0 <= k < |samples| ==> Saver.Valid(samples[k])
  }

  /** The saver's format_packet as the drain loop uses it: what fits the line buffer is written. */
  function Formatter<N>(fl: Floats<N>): Sample<N> -> seq<byte> {
    s => if Saver.Valid(s) then FormatPacket(fl, s).0 else []
  }

  function TextsOf<N>(fl: Floats<N>, samples: seq<Sample<N>>): (ts: seq<seq<byte>>)
    ensures |ts| == |samples|
  {
    SaveThread.Texts(Formatter(fl), samples)
  }

  /** The header and the text of every packet that was popped. */
  function SavedFile<N>(fl: Floats<N>, samples: seq<Sample<N>>): seq<byte> {
    HeaderLine() + Concat(TextsOf(fl, samples))
  }

  function RowsOf<N>(fl: Floats<N>, samples: seq<Sample<N>>): (rows: seq<seq<byte>>)
    requires AllValid(samples)
    ensures |rows| == |samples|
  {
    seq(|samples|, k requires 0 <= k < |samples| => Row(fl, samples[k]))
  }

  /** One row per packet, whatever its length. */
  function Recording<N>(fl: Floats<N>, samples: seq<Sample<N>>): seq<byte>
    requires AllValid(samples)
  {
    HeaderLine() + Concat(RowsOf(fl, samples))
  }

  /** Every row fits the saver's line buffer. */
  predicate RowsAreWhole<N>(fl: Floats<N>, samples: seq<Sample<N>>) {
    AllValid(samples) && forall k :: 0 <= k < |samples| ==> |Row(fl, samples[k])| <= ROW_LIMIT
  }

  lemma TextIsRow<N>(fl: Floats<N>, s: Sample<N>)
    requires Saver.Valid(s)
    ensures Formatter(fl)(s) == Cut(Row(fl, s), ROW_LIMIT)
    ensures |Formatter(fl)(s)| <= |Row(fl, s)|
    ensures |Row(fl, s)| <= ROW_LIMIT <==> |Formatter(fl)(s)| == |Row(fl, s)|
    ensures |Row(fl, s)| <= ROW_LIMIT ==> Formatter(fl)(s) == Row(fl, s)
  {
  }

  lemma {:induction false} ConcatLengths(ts: seq<seq<byte>>, rows: seq<seq<byte>>)
    requires |ts| == |rows| && forall k :: 0 <= k < |ts| ==> |ts[k]| <= |rows[k]|
    ensures |Concat(ts)| <= |Concat(rows)|
    ensures |Concat(ts)| == |Concat(rows)| ==> forall k :: 0 <= k < |ts| ==> |ts[k]| == |rows[k]|
  {
    if ts != [] {
      ConcatLengths(ts[1..], rows[1..]);
      if |Concat(ts)| == |Concat(rows)| {
        forall k | 0 <= k < |ts| ensures |ts[k]| == |rows[k]| {
          assert k > 0 ==> ts[k] == ts[1..][k - 1] && rows[k] == rows[1..][k - 1];
        }
      }
    }
  }

  lemma {:induction false} CutsAgreeIff(head: seq<byte>, ts: seq<seq<byte>>, rows: seq<seq<byte>>, limit: nat)
    requires |ts| == |rows| && forall k :: 0 <= k < |ts| ==> ts[k] == Cut(rows[k], limit)
    ensures head + Concat(ts) == head + Concat(rows) <==> forall k :: 0 <= k < |rows| ==> |rows[k]| <= limit
  {
    ConcatLengths(ts, rows);
    if forall k :: 0 <= k < |rows| ==> |rows[k]| <= limit {
      assert ts == rows;
    } else {
      assert |Concat(ts)| != |Concat(rows)|;
      assert |head + Concat(ts)| != |head + Concat(rows)|;
    }
  }

  /** The saver writes exactly one row per packet if and only if every row fits its line buffer; a longer one is cut
      and loses its line end. */
  lemma {:induction false} SavedIsRecordingIff<N>(fl: Floats<N>, samples: seq<Sample<N>>)
    requires AllValid(samples)
    ensures SavedFile(fl, samples) == Recording(fl, samples) <==> RowsAreWhole(fl, samples)
  {
    hide Row, FormatPacket, Concat, Cut, HeaderLine;
    var ts, rows := TextsOf(fl, samples), RowsOf(fl, samples);
    forall k | 0 <= k < |samples| ensures ts[k] == Cut(rows[k], ROW_LIMIT) {
      TextIsRow(fl, samples[k]);
    }
    CutsAgreeIff(HeaderLine(), ts, rows, ROW_LIMIT);
    assert forall k :: 0 <= k < |samples| ==> rows[k] == Row(fl, samples[k]);
  }

  // ----- the lines of that file -----

  lemma RowIsLine(text: seq<byte>)
    requires LF !in text && NUL !in text
    ensures IsLine(text + [LF]) && NUL !in text + [LF]
  {
    assert (text + [LF])[..|text|] == text;
  }

  lemma SavedRow<N(!new)>(fl: Floats<N>, s: Sample<N>)
    requires Sane(fl) && Saver.Valid(s)
    ensures IsLine(Row(fl, s)) && NUL !in Row(fl, s)
  {
    CellsArePlain(fl, s);
    RowIsLine(Joined(Cells(fl, s)));
  }

  lemma SavedHeader()
    ensures IsLine(HeaderLine()) && NUL !in HeaderLine() && |HeaderLine()| <= LINE_LIMIT
  {
    HeaderLineFields();
    RowIsLine(Joined(HeaderNames()));
  }

  /** The file in front of the text of packet k. */
  function Before<N>(fl: Floats<N>, samples: seq<Sample<N>>, k: nat): seq<byte>
    requires k <= |samples|
  {
    HeaderLine() + Concat(TextsOf(fl, samples)[..k])
  }

  lemma FileAt<N>(fl: Floats<N>, samples: seq<Sample<N>>, k: nat) returns (back: seq<byte>)
    requires k < |samples|
    ensures SavedFile(fl, samples) == Before(fl, samples, k) + Formatter(fl)(samples[k]) + back
    ensures Before(fl, samples, k + 1) == Before(fl, samples, k) + Formatter(fl)(samples[k])
  {
    hide HeaderLine, Concat, FormatPacket, Row;
    var ts := TextsOf(fl, samples);
    back := Concat(ts[k + 1..]);
    assert ts == ts[..k] + ([ts[k]] + ts[k + 1..]) && ts[..k + 1] == ts[..k] + [ts[k]];
    ConcatAppend(ts[..k], [ts[k]] + ts[k + 1..]);
    ConcatAppend(ts[..k], [ts[k]]);
    ConcatOne(ts[k]);
    ConcatAppend([ts[k]], ts[k + 1..]);
    Assoc(HeaderLine(), Concat(ts[..k]), ts[k] + back);
    Assoc(HeaderLine() + Concat(ts[..k]), ts[k], back);
    Assoc(HeaderLine(), Concat(ts[..k]), ts[k]);
  }

  /** Line k is the row of packet k, if that row is whole, too. */
  lemma {:induction false} WholeLine<N(!new)>(fl: Floats<N>, samples: seq<Sample<N>>, k: nat)
    requires Sane(fl) && AllValid(samples) && k < |samples| && |Row(fl, samples[k])| <= ROW_LIMIT
    requires LineStart(SavedFile(fl, samples), k) == |Before(fl, samples, k)|
    ensures LineStart(SavedFile(fl, samples), k + 1) == |Before(fl, samples, k + 1)|
    ensures LineText(SavedFile(fl, samples), k) == Row(fl, samples[k])
    ensures Readable(SavedFile(fl, samples), k) <==> |Row(fl, samples[k])| <= LINE_LIMIT
  {
    var data, front, row := SavedFile(fl, samples), Before(fl, samples, k), Row(fl, samples[k]);
    SavedRow(fl, samples[k]);
    TextIsRow(fl, samples[k]);
    var back := FileAt(fl, samples, k);
    LineInside(data, front, row, back);
  }

  lemma {:induction false} FirstLineStart<N>(fl: Floats<N>, samples: seq<Sample<N>>)
    ensures LineStart(SavedFile(fl, samples), 0) == |HeaderLine()| == |Before(fl, samples, 0)|
    ensures SavedFile(fl, samples)[..|HeaderLine()|] == HeaderLine()
  {
    hide HeaderLine, FormatPacket, LineEnd;
    var data, later := SavedFile(fl, samples), Concat(TextsOf(fl, samples));
    SavedHeader();
    assert data == [] + HeaderLine() + later;
    LineInside(data, [], HeaderLine(), later);
    assert TextsOf(fl, samples)[..0] == [];
  }

  lemma {:induction false} FrontIsWhole<N>(fl: Floats<N>, samples: seq<Sample<N>>, k: nat)
    requires AllValid(samples) && k <= |samples| && forall i :: 0 <= i < k ==> |Row(fl, samples[i])| <= ROW_LIMIT
    ensures RowsAreWhole(fl, samples[..k])
  {
    assert forall i :: 0 <= i < k ==> samples[..k][i] == samples[i];
  }

  lemma {:induction false} LastIsWhole<N>(fl: Floats<N>, samples: seq<Sample<N>>, k: nat)
    requires AllValid(samples) && 0 < k <= |samples| && RowsAreWhole(fl, samples[..k])
    ensures RowsAreWhole(fl, samples[..k - 1]) && |Row(fl, samples[k - 1])| <= ROW_LIMIT
  {
    assert forall i :: 0 <= i < k - 1 ==> samples[..k - 1][i] == samples[..k][i];
    assert samples[..k][k - 1] == samples[k - 1];
  }

  /** As long as the rows in front of it are whole, line k starts where the text of packet k does. */
  lemma {:induction false} LineStartsAt<N(!new)>(fl: Floats<N>, samples: seq<Sample<N>>, k: nat)
    requires Sane(fl) && AllValid(samples) && k <= |samples| && RowsAreWhole(fl, samples[..k])
    ensures LineStart(SavedFile(fl, samples), k) == |Before(fl, samples, k)|
  {
    hide SavedFile, Before, RowsAreWhole, Row, LineStart, Sane;
    if k == 0 {
      FirstLineStart(fl, samples);
    } else {
      LastIsWhole(fl, samples, k);
      LineStartsAt(fl, samples, k - 1);
      WholeLine(fl, samples, k - 1);
    }
  }

  /** A row that was cut has no line end: its line is overlong, whatever follows. */
  lemma {:induction false} CutLine<N(!new)>(fl: Floats<N>, samples: seq<Sample<N>>, k: nat)
    requires Sane(fl) && AllValid(samples) && k < |samples| && |Row(fl, samples[k])| > ROW_LIMIT
    requires LineStart(SavedFile(fl, samples), k) == |Before(fl, samples, k)|
    ensures LineEnd(SavedFile(fl, samples), LineStart(SavedFile(fl, samples), k))
         >= LineStart(SavedFile(fl, samples), k) + ROW_LIMIT
    ensures !Readable(SavedFile(fl, samples), k)
  {
    var data, front, row := SavedFile(fl, samples), Before(fl, samples, k), Row(fl, samples[k]);
    SavedRow(fl, samples[k]);
    TextIsRow(fl, samples[k]);
    assert row[..|row| - 1][..ROW_LIMIT] == row[..ROW_LIMIT];
    var back := FileAt(fl, samples, k);
    TextInside(data, front, row[..ROW_LIMIT], back);
  }

  lemma {:induction false} FileEnds<N>(fl: Floats<N>, samples: seq<Sample<N>>)
    requires LineStart(SavedFile(fl, samples), |samples|) == |Before(fl, samples, |samples|)|
    ensures !Readable(SavedFile(fl, samples), |samples|)
  {
    assert TextsOf(fl, samples)[..|samples|] == TextsOf(fl, samples);
    assert SavedFile(fl, samples) == Before(fl, samples, |samples|);
  }

  // ----- what the reader counts -----

  /** The rows in front of the first one that does not fit the reader's line buffer. */
  function RowsThatFit<N>(fl: Floats<N>, samples: seq<Sample<N>>): (n: nat)
    requires AllValid(samples)
    ensures n <= |samples|
  {
    if samples == [] || |Row(fl, samples[0])| > LINE_LIMIT then 0 else 1 + RowsThatFit(fl, samples[1..])
  }

  predicate FitsUpTo<N>(fl: Floats<N>, samples: seq<Sample<N>>, n: nat)
    requires AllValid(samples)
  {
    && n <= |samples| && (forall k :: 0 <= k < n ==> |Row(fl, samples[k])| <= LINE_LIMIT)
    && (n < |samples| ==> |Row(fl, samples[n])| > LINE_LIMIT)
  }

  lemma {:induction false} RowsThatFitFit<N>(fl: Floats<N>, samples: seq<Sample<N>>)
    requires AllValid(samples)
    ensures FitsUpTo(fl, samples, RowsThatFit(fl, samples))
  {
    var n := RowsThatFit(fl, samples);
    if samples != [] && |Row(fl, samples[0])| <= LINE_LIMIT {
      RowsThatFitFit(fl, samples[1..]);
      forall k | 0 <= k < n ensures |Row(fl, samples[k])| <= LINE_LIMIT {
        assert k > 0 ==> samples[k] == samples[1..][k - 1];
      }
      assert n < |samples| ==> samples[n] == samples[1..][n - 1];
    }
  }

  lemma {:induction false} AllReadableIf(data: seq<byte>, n: nat)
    requires forall k :: 0 <= k < n ==> Readable(data, k)
    ensures AllReadable(data, 0, n)
  {
    if n > 0 {
      AllReadableIf(data, n - 1);
    }
  }

  lemma {:induction false} FittingRowsAreReadable<N(!new)>(fl: Floats<N>, samples: seq<Sample<N>>, n: nat)
    requires Sane(fl) && AllValid(samples) && FitsUpTo(fl, samples, n)
    ensures ReadableLines(SavedFile(fl, samples), n)
  {
    var data := SavedFile(fl, samples);
    forall k | 0 <= k < n ensures Readable(data, k) {
      FrontIsWhole(fl, samples, k);
      LineStartsAt(fl, samples, k);
      WholeLine(fl, samples, k);
    }
    AllReadableIf(data, n);
    FrontIsWhole(fl, samples, n);
    LineStartsAt(fl, samples, n);
    if n == |samples| {
      FileEnds(fl, samples);
    } else if |Row(fl, samples[n])| <= ROW_LIMIT {
      WholeLine(fl, samples, n);
    } else {
      CutLine(fl, samples, n);
    }
  }

  /** The reader opens whatever the saver has written: the header is its first line, and it counts exactly the packets
      in front of the first row of more than 511 bytes. The rest is out of reach of fs_replay_read_line. */
  lemma SavedFileOpens<N(!new)>(fl: Floats<N>, samples: seq<Sample<N>>, data: seq<byte>)
    requires Sane(fl) && AllValid(samples) && data == SavedFile(fl, samples)
    ensures NextLine(data, 0, LINE_BUFFER) == Line(HeaderLine())
    ensures FitsUpTo(fl, samples, RowsThatFit(fl, samples))
    ensures forall n :: ReadableLines(data, n) <==> n == RowsThatFit(fl, samples)
  {
    var fit := RowsThatFit(fl, samples);
    RowsThatFitFit(fl, samples);
    FittingRowsAreReadable(fl, samples, fit);
    forall n | ReadableLines(data, n) ensures n == fit {
      ReadableLinesUnique(data, n, fit);
    }
    HeaderFirst(fl, samples);
  }

  lemma {:induction false} HeaderFirst<N>(fl: Floats<N>, samples: seq<Sample<N>>)
    ensures LineEnd(SavedFile(fl, samples), 0) == |HeaderLine()|
    ensures SavedFile(fl, samples)[..|HeaderLine()|] == HeaderLine()
    ensures NextLine(SavedFile(fl, samples), 0, LINE_BUFFER) == Line(HeaderLine())
  {
    SavedHeader();
    FirstLineStart(fl, samples);
  }

  // ----- what the reader gets -----

  lemma WholeText(text: seq<byte>)
    requires NUL !in text && |text| <= LINE_LIMIT
    ensures CString(text, LINE_BUFFER) == text
  {
    TakeAll(text, |text|);
  }

  /** Line k, behind whole rows, is delivered by fs_replay_read_next exactly when its row has at most 511 bytes;
      otherwise it is refused as overlong. */
  lemma LineIsDeliveredIff<N(!new)>(fl: Floats<N>, samples: seq<Sample<N>>, data: seq<byte>, k: nat)
    requires Sane(fl) && AllValid(samples) && data == SavedFile(fl, samples)
    requires k < |samples| && RowsAreWhole(fl, samples[..k])
    ensures var next := NextLine(data, LineStart(data, k), LINE_BUFFER);
      && (|Row(fl, samples[k])| <= LINE_LIMIT ==> next == Line(Row(fl, samples[k])))
      && (|Row(fl, samples[k])| > LINE_LIMIT ==> next.TooLong?)
  {
    LineStartsAt(fl, samples, k);
    if |Row(fl, samples[k])| <= ROW_LIMIT {
      WholeLine(fl, samples, k);
    } else {
      CutLine(fl, samples, k);
    }
  }

  /** Saving packets of the decoded families and replaying the file gives them back, packet by packet: line k, behind
      whole rows and fitting the reader's buffer, read as the reader reads it under the header as the reader has it,
      decodes to packet k with what its family restores. */
  lemma SavedFileReplays<N(!new)>(fl: Floats<N>, samples: seq<Sample<N>>, data: seq<byte>, k: nat)
    requires Sane(fl) && AllValid(samples) && data == SavedFile(fl, samples)
    requires k < |samples| && RowsAreWhole(fl, samples[..k]) && |Row(fl, samples[k])| <= LINE_LIMIT
    requires !LayoutOf(samples[k].kind).NoLayout?
    ensures Replayed(fl, CString(data[..LineEnd(data, 0)], LINE_BUFFER), CString(LineText(data, k), LINE_BUFFER))
         == Decoded(Restored(fl, samples[k]))
  {
    HeaderFirst(fl, samples);
    LineStartsAt(fl, samples, k);
    WholeLine(fl, samples, k);
    SavedRow(fl, samples[k]);
    WholeText(Row(fl, samples[k]));
    SavedHeader();
    WholeText(HeaderLine());
    SaveThenReplay(fl, samples[k]);
  }
}
