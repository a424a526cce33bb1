/** Comma-separated text: cutting a line into fields, and the normalised form of a header field. */
module CsvText {
  import opened Bytes
  import opened Numbers

  const LINE_LIMIT: nat := 511  // strncpy into a 512-byte copy, then terminated
  const FIELD_LIMIT: nat := 63  // likewise for a 64-byte header field

  function Cut(s: seq<byte>, limit: nat): (r: seq<byte>)
    ensures |r| == Min(|s|, limit) && r == s[..|r|]
    ensures |s| <= limit ==> r == s
  {
    if |s| <= limit then s else s[..limit]
  }

  // ----- fields -----

  /** A line cut at its commas; there is always at least one field. */
  function Fields(line: seq<byte>): (fs: seq<seq<byte>>)
    ensures fs != []
    decreases |line|
  {
    var i := FirstIndex(line, COMMA);
    if i == -1 then [line] else [line[..i]] + Fields(line[i + 1..])
  }

  function Joined(fs: seq<seq<byte>>): seq<byte>
    requires fs != []
  {
    if |fs| == 1 then fs[0] else fs[0] + ([COMMA] + Joined(fs[1..]))
  }

  predicate CommaFree(fs: seq<seq<byte>>) {
    forall i :: 0 <= i < |fs| ==> COMMA !in fs[i]
  }

  lemma FieldsStep(f: seq<byte>, line: seq<byte>)
    requires COMMA !in f
    ensures Fields(f + ([COMMA] + line)) == [f] + Fields(line)
  {
    var whole := f + ([COMMA] + line);
    SplitAt(f, [COMMA] + line);
    assert whole[|f|] == COMMA && whole[|f| + 1..] == line;
    FirstIndexUnique(whole, COMMA, |f|);
  }

  /** Cutting is the inverse of joining ... */
  lemma {:induction false} FieldsOfJoined(fs: seq<seq<byte>>)
    requires fs != [] && CommaFree(fs)
    ensures Fields(Joined(fs)) == fs
  {
    HeadTail(fs);
    if |fs| > 1 {
      FieldsOfJoined(fs[1..]);
      FieldsStep(fs[0], Joined(fs[1..]));
    } else {
      assert fs == [fs[0]];
    }
  }

  lemma JoinedCons(f: seq<byte>, rest: seq<seq<byte>>)
    requires rest != []
    ensures Joined([f] + rest) == f + ([COMMA] + Joined(rest))
    ensures COMMA !in f && CommaFree(rest) ==> CommaFree([f] + rest)
  {
    SplitAt([f], rest);
  }

  /** ... and joining the inverse of cutting, which leaves no comma in a field. */
  lemma {:induction false} JoinedFields(line: seq<byte>)
    ensures CommaFree(Fields(line)) && Joined(Fields(line)) == line
    decreases |line|
  {
    var i := FirstIndex(line, COMMA);
    if i >= 0 {
      JoinedFields(line[i + 1..]);
      CutAt(line, i);
      JoinedCons(line[..i], Fields(line[i + 1..]));
    }
  }

  /** The line end belongs to the last field. */
  function WithEnd(fs: seq<seq<byte>>, end: seq<byte>): (r: seq<seq<byte>>)
    requires fs != []
    ensures |r| == |fs|
  {
    fs[|fs| - 1 := fs[|fs| - 1] + end]
  }

  lemma {:induction false} JoinedWithEnd(fs: seq<seq<byte>>, end: seq<byte>)
    requires fs != []
    ensures Joined(WithEnd(fs, end)) == Joined(fs) + end
  {
    if |fs| > 1 {
      JoinedWithEnd(fs[1..], end);
      assert WithEnd(fs, end)[1..] == WithEnd(fs[1..], end);
      Assoc([COMMA], Joined(fs[1..]), end);
      Assoc(fs[0], [COMMA] + Joined(fs[1..]), end);
    }
  }

  /** A byte other than a comma is in the joined line exactly when it is in one of the fields. */
  lemma {:induction false} InJoined(fs: seq<seq<byte>>, b: byte)
    requires fs != [] && b != COMMA && forall i :: 0 <= i < |fs| ==> b !in fs[i]
    ensures b !in Joined(fs)
  {
    if |fs| > 1 {
      InJoined(fs[1..], b);
    }
  }

  // ----- fs_normalize_token -----

  function LowerByte(b: byte): byte {
    if 65 <= b <= 90 then b + 32 else b
  }

  function Lower(s: seq<byte>): (r: seq<byte>)
    ensures |r| == |s|
  {
    seq(|s|, k requires 0 <= k < |s| => LowerByte(s[k]))
  }

  function TrimEnd(s: seq<byte>): (r: seq<byte>)
    ensures |r| <= |s|
  {
    if s != [] && IsSpace(s[|s| - 1]) then TrimEnd(s[..|s| - 1]) else s
  }

  /** The text in front of the first comma, at most limit bytes of it. */
  function Leading(s: seq<byte>, limit: nat): seq<byte> {
    if s == [] || s[0] == COMMA || limit == 0 then [] else [s[0]] + Leading(s[1..], limit - 1)
  }

  function Normalized(text: seq<byte>, size: nat): seq<byte>
    requires size > 0
  {
    Lower(TrimEnd(Leading(SkipSpaces(text), size - 1)))
  }

  /** One character more: white space is only kept when something else follows it. */
  lemma TrimEndPush(s: seq<byte>, c: byte)
    ensures TrimEnd(s + [c]) == if IsSpace(c) then TrimEnd(s) else s + [c]
  {
    assert (s + [c])[..|s|] == s;
  }

  /** The loop that skips white space in front of the token. */
  method SkipLeading(text: seq<byte>) returns (p: nat)
    ensures p <= |text| && text[p..] == SkipSpaces(text)
  {
    p := 0;
    while p < |text| && IsSpace(text[p])
      invariant p <= |text| && SkipSpaces(text[p..]) == SkipSpaces(text)
    {
      DropTwice(text, p, 1);
      p := p + 1;
    }
  }

  /** The loop that copies the token in lower case and remembers the end of its last character that is not white
      space. */
  method CopyLowered(s: seq<byte>, size: nat) returns (out: seq<byte>, last: nat)
    requires size > 0
    ensures out == Lower(Leading(s, size - 1)) && last == |TrimEnd(Leading(s, size - 1))|
  {
    var len := 0;
    out, last := [], 0;
    ghost var body: seq<byte> := [];
    while len < |s| && s[len] != COMMA && len + 1 < size
      invariant len == |body| <= |s| && len < size
      invariant body + Leading(s[len..], size - 1 - len) == Leading(s, size - 1)
      invariant out == Lower(body) && last == |TrimEnd(body)|
    {
      TrimEndPush(body, s[len]);
      LowerPush(body, s[len]);
      LeadingStep(body, s, len, size - 1 - len);
      body := body + [s[len]];
      out := out + [LowerByte(s[len])];
      if !IsSpace(s[len]) {
        last := len + 1;
      }
      len := len + 1;
    }
    assert Leading(s[len..], size - 1 - len) == [];
    assert body == Leading(s, size - 1);
  }

  /** fs_normalize_token on a NUL-free text. */
  method NormalizeToken(text: seq<byte>, size: nat) returns (out: seq<byte>)
    requires size > 0
    ensures out == Normalized(text, size)
  {
    var p := SkipLeading(text);
    var copied, last := CopyLowered(text[p..], size);
    ghost var body := Leading(text[p..], size - 1);
    TrimEndIsPrefix(body);
    LowerTake(body, last);
    out := copied[..last];
  }

  lemma {:induction false} TrimEndIsPrefix(s: seq<byte>)
    ensures TrimEnd(s) == s[..|TrimEnd(s)|]
  {
    if s != [] && IsSpace(s[|s| - 1]) {
      TrimEndIsPrefix(s[..|s| - 1]);
    }
  }

  lemma LeadingStep(done: seq<byte>, s: seq<byte>, len: nat, limit: nat)
    requires len < |s| && s[len] != COMMA && limit > 0
    ensures done + Leading(s[len..], limit) == done + [s[len]] + Leading(s[len + 1..], limit - 1)
  {
    DropTwice(s, len, 1);
    Assoc(done, [s[len]], Leading(s[len + 1..], limit - 1));
  }

  lemma {:induction false} LeadingAll(s: seq<byte>, limit: nat)
    requires COMMA !in s && |s| <= limit
    ensures Leading(s, limit) == s
  {
    if s != [] {
      LeadingAll(s[1..], limit - 1);
    }
  }

  lemma LowerPush(s: seq<byte>, c: byte)
    ensures Lower(s + [c]) == Lower(s) + [LowerByte(c)]
  {
  }

  lemma LowerTake(s: seq<byte>, n: nat)
    requires n <= |s|
    ensures Lower(s)[..n] == Lower(s[..n])
  {
  }

  /** Blank, tab, line feed, vertical tab, form feed and carriage return. */
  const BLANKS: set<byte> := {32, 9, 10, 11, 12, 13}

  predicate IsBlank(s: seq<byte>) {
    forall b :: b in s ==> b in BLANKS
  }

  lemma {:induction false} SkipBlanks(front: seq<byte>, rest: seq<byte>)
    requires IsBlank(front) && (rest != [] ==> !IsSpace(rest[0]))
    ensures SkipSpaces(front + rest) == rest
  {
    if front == [] {
      assert front + rest == rest;
    } else {
      assert front[0] in front;
      DropAppend(front, rest, 1);
      SkipBlanks(front[1..], rest);
    }
  }

  /** White space in front of a name and behind it and the case of its letters do not matter, as long as the name and
      what follows it fit. */
  lemma NormalizedPadded(front: seq<byte>, name: seq<byte>, end: seq<byte>, size: nat)
    requires name != [] && COMMA !in name && |name| + |end| < size
    requires IsBlank(front) && IsBlank(end) && name[0] !in BLANKS && name[|name| - 1] !in BLANKS
    ensures Normalized(front + name + end, size) == Lower(name)
  {
    assert COMMA !in name + end;
    Assoc(front, name, end);
    SkipBlanks(front, name + end);
    LeadingAll(name + end, size - 1);
    assert forall k :: 0 <= k < |end| ==> end[k] in end;
    TrimSpaces(name, end);
  }

  lemma {:induction false} TrimSpaces(name: seq<byte>, end: seq<byte>)
    requires name != [] ==> !IsSpace(name[|name| - 1])
    requires forall k :: 0 <= k < |end| ==> IsSpace(end[k])
    ensures TrimEnd(name + end) == name
  {
    if end == [] {
      assert name + end == name;
    } else {
      var n := |end| - 1;
      assert name + end == name + end[..n] + [end[n]];
      TrimEndPush(name + end[..n], end[n]);
      TrimSpaces(name, end[..n]);
    }
  }
}
