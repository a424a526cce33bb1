/** Bytes, the characters that frame the serial stream, and the sequence vocabulary shared by all modules. */
module Bytes {

  type byte = b: int | 0 <= b < 256

  const BANG: byte := 33      // '!'  PACKET_FOOTER
  const COMMA: byte := 44     // ','
  const COLON: byte := 58     // ':'  PACKET_HEADER
  const SEMICOLON: byte := 59 // ';'  CMD_TERMINATOR
  const EQUALS: byte := 61    // '='
  const AT: byte := 64        // '@'  PACKET_HEADER_V2
  const NUL: byte := 0
  const LF: byte := 10
  const CR: byte := 13

  const MAX_DATA_LENGTH: nat := 512   // FS_MAX_DATA_LENGTH
  const SIZE_MODULUS: nat := 0x1_0000_0000_0000_0000 // size_t arithmetic wraps here

  function Min(a: int, b: int): int {
    if a < b then a else b
  }

  /** The last n elements of s, or all of s when it is shorter: what an overwriting ring of n cells keeps. */
  function LastN<T>(s: seq<T>, n: nat): (r: seq<T>)
    ensures |r| == Min(|s|, n)
  {
    if |s| <= n then s else s[|s| - n..]
  }

  lemma LastNAppend<T>(a: seq<T>, b: seq<T>, n: nat)
    ensures LastN(LastN(a, n) + b, n) == LastN(a + b, n)
  {
  }

  // ----- laws of sequences, one at a time -----

  lemma Assoc<T>(a: seq<T>, b: seq<T>, c: seq<T>)
    ensures a + b + c == a + (b + c)
  {
  }

  lemma HeadTail<T>(s: seq<T>)
    requires s != []
    ensures [s[0]] + s[1..] == s
  {
  }

  /** Moving the first element of a list to the end of an accumulator. */
  lemma Shift<T>(done: seq<T>, s: seq<T>)
    requires s != []
    ensures done + [s[0]] + s[1..] == done + s
  {
  }

  lemma SplitAt<T>(p: seq<T>, rest: seq<T>)
    ensures (p + rest)[..|p|] == p && (p + rest)[|p|..] == rest
  {
  }

  lemma DropAppend<T>(u: seq<T>, v: seq<T>, k: nat)
    requires k <= |u|
    ensures (u + v)[k..] == u[k..] + v
  {
  }

  lemma SliceAppend<T>(u: seq<T>, v: seq<T>, from: nat, to: nat)
    requires from <= to <= |u|
    ensures (u + v)[from..to] == u[from..to]
  {
  }

  lemma TakeAppend<T>(u: seq<T>, v: seq<T>, k: nat)
    requires k <= |u|
    ensures (u + v)[..k] == u[..k]
  {
  }

  lemma CutAt<T>(t: seq<T>, i: nat)
    requires i < |t|
    ensures t == t[..i] + ([t[i]] + t[i + 1..])
  {
  }

  lemma SlicePrefix<T>(s: seq<T>, from: nat, to: nat, n: nat)
    requires from + n <= to <= |s|
    ensures s[from..][..n] == s[from..to][..n]
  {
  }

  lemma DropSlice<T>(s: seq<T>, from: nat, n: nat)
    requires from + n <= |s|
    ensures s[from..][..n] == s[from..from + n] && s[from..][n..] == s[from + n..]
  {
  }

  lemma TakeSlice<T>(s: seq<T>, m: nat, from: nat, to: nat)
    requires from <= to <= m <= |s|
    ensures s[..m][from..to] == s[from..to]
  {
  }

  lemma TakeAll<T>(s: seq<T>, n: nat)
    requires n == |s|
    ensures s[..n] == s
  {
  }

  lemma DropTwice<T>(s: seq<T>, i: nat, j: nat)
    requires i + j <= |s|
    ensures s[i..][j..] == s[i + j..]
  {
  }

  lemma TakeDrop<T>(s: seq<T>, from: nat, to: nat)
    requires from <= to <= |s|
    ensures s[..to][from..] == s[from..to]
  {
  }

  /** One element more: append while there is room, otherwise the oldest element goes. */
  lemma LastNPush<T>(s: seq<T>, x: T, n: nat)
    requires |s| <= n && 0 < n
    ensures LastN(s + [x], n) == if |s| < n then s + [x] else s[1..] + [x]
  {
  }

  function Concat<T>(ps: seq<seq<T>>): seq<T> {
    if ps == [] then [] else ps[0] + Concat(ps[1..])
  }

  lemma ConcatOne<T>(p: seq<T>)
    ensures Concat([p]) == p
  {
    assert Concat<T>([p][1..]) == [];
  }

  lemma {:induction false} ConcatAppend<T>(ps: seq<seq<T>>, qs: seq<seq<T>>)
    ensures Concat(ps + qs) == Concat(ps) + Concat(qs)
  {
    if ps == [] {
      assert ps + qs == qs;
    } else {
      ConcatAppend(ps[1..], qs);
      DropAppend(ps, qs, 1);
      Assoc(ps[0], Concat(ps[1..]), Concat(qs));
    }
  }

  /** Position of the first b in s, or -1. */
  function FirstIndex(s: seq<byte>, b: byte): (i: int)
    ensures -1 <= i < |s|
    ensures i == -1 <==> b !in s
    ensures i >= 0 ==> s[i] == b && b !in s[..i]
  {
    if s == [] then -1
    else if s[0] == b then 0
    else
      var r := FirstIndex(s[1..], b);
      assert s == [s[0]] + s[1..];
      assert r >= 0 ==> s[..r + 1] == [s[0]] + s[1..][..r];
      if r == -1 then -1 else r + 1
  }

  /** Position of the last b in s, or -1. */
  function LastIndex(s: seq<byte>, b: byte): (i: int)
    ensures -1 <= i < |s|
    ensures i == -1 <==> b !in s
    ensures i >= 0 ==> s[i] == b && b !in s[i + 1..]
  {
    if s == [] then -1
    else if s[|s| - 1] == b then |s| - 1
    else
      var r := LastIndex(s[..|s| - 1], b);
      assert s == s[..|s| - 1] + [s[|s| - 1]];
      assert r >= 0 ==> s[r + 1..] == s[..|s| - 1][r + 1..] + [s[|s| - 1]];
      r
  }

  lemma FirstIndexUnique(s: seq<byte>, b: byte, i: nat)
    requires i < |s| && s[i] == b && b !in s[..i]
    ensures FirstIndex(s, b) == i
  {
  }

  lemma LastIndexUnique(s: seq<byte>, b: byte, i: nat)
    requires i < |s| && s[i] == b && b !in s[i + 1..]
    ensures LastIndex(s, b) == i
  {
  }

  /** The C string stored in a buffer of at most limit bytes: everything before the first NUL. */
  function CString(s: seq<byte>, limit: nat): (t: seq<byte>)
    ensures |t| <= |s| && |t| <= limit && t == s[..|t|] && NUL !in t
    ensures |t| < |s| && |t| < limit ==> s[|t|] == NUL
  {
    var window := s[..Min(|s|, limit)];
    var n := FirstIndex(window, NUL);
    if n == -1 then window else window[..n]
  }

  /** Writing the terminator behind a body makes the body's C string the string of the memory. */
  lemma TerminatedCString(memory: seq<byte>, body: seq<byte>, limit: nat)
    requires |body| < |memory| && |body| < limit && memory[..|body|] == body && memory[|body|] == NUL
    ensures CString(memory, limit) == CString(body, limit) && NUL in memory
  {
    var i := FirstIndex(body, NUL);
    var window := memory[..Min(|memory|, limit)];
    assert body[..Min(|body|, limit)] == body;
    if i == -1 {
      assert window[..|body|] == body;
      FirstIndexUnique(window, NUL, |body|);
    } else {
      assert window[..i] == body[..i] && window[i] == body[i];
      FirstIndexUnique(window, NUL, i);
    }
  }

  /** fs_safe_strnlen: the counting loop computes the length of the C string. */
  method SafeStrnlen(s: seq<byte>, maxlen: nat) returns (n: nat)
    requires |s| < maxlen ==> NUL in s
    ensures n == |CString(s, maxlen)|
  {
    var window := s[..Min(|s|, maxlen)];
    n := 0;
    while n < maxlen && s[n] != NUL
      invariant n <= |window|
      invariant NUL !in window[..n]
      invariant window[n..] == s[n..|window|]
    {
      assert window[..n + 1] == window[..n] + [s[n]];
      n := n + 1;
    }
    if n < maxlen {
      FirstIndexUnique(window, NUL, n);
    } else {
      assert window[..n] == window;
    }
  }

  /** A NUL-free text in front of a NUL is the C string of the buffer. */
  lemma StoredString(memory: seq<byte>, text: seq<byte>)
    requires |text| < |memory| && memory[..|text|] == text && memory[|text|] == NUL && NUL !in text
    ensures CString(memory, |memory|) == text
  {
    FirstIndexUnique(memory, NUL, |text|);
    TakeAll(memory, |memory|);
  }

  /** fs_safe_strncpy: copies a C string into dest, at most maxlen - 1 characters, and terminates it. */
  method SafeStrncpy(dest: array<byte>, src: seq<byte>, maxlen: nat)
    requires 0 < maxlen <= dest.Length
    requires |src| < maxlen - 1 ==> NUL in src
    modifies dest
    ensures CString(dest[..], dest.Length) == CString(src, maxlen - 1)
  {
    var n := CString(src, maxlen - 1);
    var i := 0;
    while i < maxlen - 1 && src[i] != NUL
      invariant i <= |n|
      invariant dest[..i] == n[..i]
    {
      dest[i] := src[i];
      assert dest[..i + 1] == dest[..i] + [src[i]];
      i := i + 1;
    }
    dest[i] := NUL;
    assert dest[..i] == n;
    StoredString(dest[..], n);
  }
}
