/** fs_scan_delimiters and the frame choice that the serial loop makes from its result. */
module Delimiters {
  import opened Bytes

  /** fs_delimiter_indices_t: an index, or -1 when the delimiter was not found. */
  datatype Delimiters = Delimiters(colon: int, binary: int, exclam: int, semicolon: int)

  /** The first footer that has header h somewhere before it, or -1. */
  function FirstClosed(w: seq<byte>, h: byte): (e: int)
    ensures -1 <= e < |w|
  {
    if w == [] then -1
    else
      var r := FirstClosed(w[..|w| - 1], h);
      if r != -1 then r
      else if w[|w| - 1] == BANG && h in w[..|w| - 1] then |w| - 1
      else -1
  }

  predicate Closes(w: seq<byte>, h: byte, e: nat)
    requires e < |w|
  {
    w[e] == BANG && h in w[..e]
  }

  lemma {:induction false} FirstClosedSpec(w: seq<byte>, h: byte)
    ensures var e := FirstClosed(w, h);
      && (e >= 0 ==> Closes(w, h, e))
      && forall k :: 0 <= k < (if e == -1 then |w| else e) ==> !Closes(w, h, k)
  {
    if w != [] {
      var init := w[..|w| - 1];
      FirstClosedSpec(init, h);
      forall k | 0 <= k < |init| ensures Closes(init, h, k) == Closes(w, h, k) {
        assert init[..k] == w[..k];
      }
    }
  }

  /** The last h before the first footer that has an h before it, or -1. */
  function HeaderIndex(w: seq<byte>, h: byte): (i: int)
    ensures -1 <= i < |w|
  {
    var e := FirstClosed(w, h);
    if e == -1 then -1 else LastIndex(w[..e], h)
  }

  /** What the scan is for, delimiter by delimiter. */
  function Scan(w: seq<byte>): Delimiters {
    Delimiters(HeaderIndex(w, COLON), HeaderIndex(w, AT), FirstIndex(w, BANG), FirstIndex(w, SEMICOLON))
  }

  lemma FirstClosedUnique(w: seq<byte>, h: byte, e: nat)
    requires e < |w| && Closes(w, h, e)
    requires forall k :: 0 <= k < e ==> !Closes(w, h, k)
    ensures FirstClosed(w, h) == e
  {
    FirstClosedSpec(w, h);
  }

  /** A delimiter found in a prefix is found at the same place in the whole window. */
  lemma FirstPrefix(u: seq<byte>, v: seq<byte>, b: byte)
    requires b in u
    ensures FirstIndex(u + v, b) == FirstIndex(u, b)
  {
    var i := FirstIndex(u, b);
    assert (u + v)[..i] == u[..i];
    FirstIndexUnique(u + v, b, i);
  }

  lemma ClosedPrefix(u: seq<byte>, v: seq<byte>, h: byte)
    requires FirstClosed(u, h) != -1
    ensures FirstClosed(u + v, h) == FirstClosed(u, h)
  {
    var w := u + v;
    FirstClosedSpec(u, h);
    forall k | 0 <= k < |u| ensures Closes(u, h, k) == Closes(w, h, k) {
      assert u[..k] == w[..k];
    }
    FirstClosedUnique(w, h, FirstClosed(u, h));
  }

  lemma HeaderPrefix(u: seq<byte>, v: seq<byte>, h: byte)
    requires HeaderIndex(u, h) != -1
    ensures HeaderIndex(u + v, h) == HeaderIndex(u, h)
  {
    ClosedPrefix(u, v, h);
    var e := FirstClosed(u, h);
    assert (u + v)[..e] == u[..e];
  }

  /** How one more byte changes the position of a first occurrence. */
  lemma FirstStep(u: seq<byte>, c: byte, b: byte)
    ensures FirstIndex(u + [c], b) == if FirstIndex(u, b) == -1 && c == b then |u| else FirstIndex(u, b)
  {
    if b in u {
      FirstPrefix(u, [c], b);
    } else if c == b {
      assert (u + [c])[..|u|] == u;
      FirstIndexUnique(u + [c], b, |u|);
    }
  }

  /** How one more byte moves a candidate and turns it into a result: the body of the scan loop. */
  lemma HeaderStep(u: seq<byte>, c: byte, h: byte)
    ensures LastIndex(u + [c], h) == if c == h then |u| else LastIndex(u, h)
    ensures HeaderIndex(u + [c], h) ==
      if HeaderIndex(u, h) == -1 && c == BANG then LastIndex(u, h) else HeaderIndex(u, h)
  {
    var w := u + [c];
    assert w[..|w| - 1] == u;
    var r := FirstClosed(u, h);
    FirstClosedSpec(u, h);
    if r != -1 {
      HeaderPrefix(u, [c], h);
    } else {
      assert FirstClosed(w, h) == if c == BANG && h in u then |u| else -1;
    }
  }

  /** All four found: nothing later can change the result, so the early exit is harmless. */
  lemma ScanDone(w: seq<byte>, i: nat)
    requires i <= |w|
    requires var d := Scan(w[..i]); d.colon != -1 && d.binary != -1 && d.exclam != -1 && d.semicolon != -1
    ensures Scan(w) == Scan(w[..i])
  {
    var seen, rest := w[..i], w[i..];
    assert w == seen + rest;
    FirstPrefix(seen, rest, BANG);
    FirstPrefix(seen, rest, SEMICOLON);
    HeaderPrefix(seen, rest, COLON);
    HeaderPrefix(seen, rest, AT);
  }

  /** How the scan state moves past one byte, given the last header of each kind in front of it. */
  function Advance(d: Delimiters, b64Candidate: int, binCandidate: int, c: byte, i: nat): Delimiters {
    if c == COLON || c == AT then d
    else if c == BANG then
      Delimiters(if d.colon == -1 then b64Candidate else d.colon, if d.binary == -1 then binCandidate else d.binary,
                 if d.exclam == -1 then i else d.exclam, d.semicolon)
    else if c == SEMICOLON && d.semicolon == -1 then d.(semicolon := i)
    else d
  }

  lemma ScanStep(w: seq<byte>, i: nat)
    requires i < |w|
    ensures Scan(w[..i + 1]) == Advance(Scan(w[..i]), LastIndex(w[..i], COLON), LastIndex(w[..i], AT), w[i], i)
    ensures LastIndex(w[..i + 1], COLON) == if w[i] == COLON then i else LastIndex(w[..i], COLON)
    ensures LastIndex(w[..i + 1], AT) == if w[i] == AT then i else LastIndex(w[..i], AT)
  {
    assert w[..i + 1] == w[..i] + [w[i]];
    FirstStep(w[..i], w[i], BANG);
    FirstStep(w[..i], w[i], SEMICOLON);
    HeaderStep(w[..i], w[i], COLON);
    HeaderStep(w[..i], w[i], AT);
  }

  /** The if-chain in the body of the scan loop: from the results on the first i bytes to those on one byte more. */
  method ScanByte(d: Delimiters, b64: int, bin: int, c: byte, i: nat, ghost w: seq<byte>)
    returns (result: Delimiters, b64Candidate: int, binCandidate: int)
    requires i < |w| && c == w[i] && d == Scan(w[..i])
    requires b64 == LastIndex(w[..i], COLON) && bin == LastIndex(w[..i], AT)
    ensures result == Scan(w[..i + 1])
    ensures b64Candidate == LastIndex(w[..i + 1], COLON) && binCandidate == LastIndex(w[..i + 1], AT)
  {
    ScanStep(w, i);
    result, b64Candidate, binCandidate := d, b64, bin;
    if c == COLON {
      b64Candidate := i;
    } else if c == AT {
      binCandidate := i;
    } else if c == BANG {
      if result.exclam == -1 {
        result := result.(exclam := i);
      }
      if result.colon == -1 && b64Candidate != -1 {
        result := result.(colon := b64Candidate);
      }
      if result.binary == -1 && binCandidate != -1 {
        result := result.(binary := binCandidate);
      }
    } else if c == SEMICOLON && result.semicolon == -1 {
      result := result.(semicolon := i);
    }
  }

  /** The one-pass scan, with its early exit once everything has been found. */
  method ScanDelimiters(buffer: array<byte>, len: nat) returns (result: Delimiters)
    requires len <= buffer.Length
    ensures result == Scan(buffer[..len])
  {
    result := Delimiters(-1, -1, -1, -1);
    var b64Candidate, binCandidate := -1, -1;
    ghost var w := buffer[..len];
    for i := 0 to len
      invariant b64Candidate == LastIndex(w[..i], COLON)
      invariant binCandidate == LastIndex(w[..i], AT)
      invariant result == Scan(w[..i])
    {
      result, b64Candidate, binCandidate := ScanByte(result, b64Candidate, binCandidate, buffer[i], i, w);
      if result.colon != -1 && result.binary != -1 && result.exclam != -1 && result.semicolon != -1 {
        ScanDone(w, i + 1);
        return;
      }
    }
    assert w[..len] == w;
  }

  // ----- the choice -----

  datatype Action =
    | BinaryFrame(start: nat, bang: nat)   // '@' at start, '!' at bang
    | Base64Frame(start: nat, bang: nat)   // ':' at start, '!' at bang
    | CommandBlock(end: nat)               // first ';'
    | Wait

  /** The if-chain of the serial loop on the scan result. */
  function Choose(d: Delimiters): Action {
    if d.binary >= 0 && d.exclam > d.binary then BinaryFrame(d.binary, d.exclam)
    else if d.colon >= 0 && d.exclam > d.colon then Base64Frame(d.colon, d.exclam)
    else if d.semicolon >= 0 then CommandBlock(d.semicolon)
    else Wait
  }

  /** The same choice said through the bytes up to the first footer. */
  function Classify(w: seq<byte>): (a: Action)
    ensures a.BinaryFrame? ==> a.start < a.bang < |w| && w[a.start] == AT && w[a.bang] == BANG
    ensures a.Base64Frame? ==> a.start < a.bang < |w| && w[a.start] == COLON && w[a.bang] == BANG
    ensures a.CommandBlock? ==> a.end < |w| && w[a.end] == SEMICOLON
  {
    var e := FirstIndex(w, BANG);
    if e >= 0 && AT in w[..e] then BinaryFrame(LastIndex(w[..e], AT), e)
    else if e >= 0 && COLON in w[..e] then Base64Frame(LastIndex(w[..e], COLON), e)
    else if SEMICOLON in w then CommandBlock(FirstIndex(w, SEMICOLON))
    else Wait
  }

  predicate IsFrame(a: Action) {
    a.BinaryFrame? || a.Base64Frame?
  }

  /** A header index lies before the first footer exactly when such a header occurs there. */
  lemma HeaderBeforeFooter(w: seq<byte>, h: byte)
    requires h != BANG
    ensures var e := FirstIndex(w, BANG);
      if e >= 0 && h in w[..e] then HeaderIndex(w, h) == LastIndex(w[..e], h)
      else HeaderIndex(w, h) == -1 || e < HeaderIndex(w, h)
  {
    var e := FirstIndex(w, BANG);
    var f := FirstClosed(w, h);
    FirstClosedSpec(w, h);
    if e >= 0 && h in w[..e] {
      assert forall k :: 0 <= k < e ==> w[k] in w[..e];
      FirstClosedUnique(w, h, e);
    } else if f >= 0 {
      var i := LastIndex(w[..f], h);
      assert w[f] == BANG && e <= f;
      assert w[..f][i] == w[i] == h;
    }
  }

  /** The code's index comparisons decide exactly the simple rule. */
  lemma ChooseIsClassify(w: seq<byte>)
    ensures Choose(Scan(w)) == Classify(w)
  {
    HeaderBeforeFooter(w, AT);
    HeaderBeforeFooter(w, COLON);
  }

  /** A frame choice depends only on the bytes through the first footer. */
  lemma FrameChoiceIsLocal(u: seq<byte>, v: seq<byte>)
    requires BANG in u
    ensures IsFrame(Classify(u)) || IsFrame(Classify(u + v)) ==> Classify(u + v) == Classify(u)
  {
    var e := FirstIndex(u, BANG);
    FirstPrefix(u, v, BANG);
    assert (u + v)[..e] == u[..e];
  }
}
