/** The Base64 codec: fs_base64_encode, fs_base64_decode, base64_char_to_value. */
module Base64 {
  import opened Bytes

  type sextet = v: int | 0 <= v < 64

  /** base64_chars */
  function EncodeChar(v: sextet): byte {
    if v < 26 then 65 + v          // 'A'..'Z'
    else if v < 52 then 97 + v - 26 // 'a'..'z'
    else if v < 62 then 48 + v - 52 // '0'..'9'
    else if v == 62 then 43         // '+'
    else 47                         // '/'
  }

  /** base64_lookup: the value of a character of the alphabet, -1 for every other byte. */
  function CharValue(c: byte): (v: int)
    ensures -1 <= v < 64
  {
    if 65 <= c <= 90 then c - 65
    else if 97 <= c <= 122 then c - 97 + 26
    else if 48 <= c <= 57 then c - 48 + 52
    else if c == 43 then 62
    else if c == 47 then 63
    else -1
  }

  /** The 64 characters in the order of their values. */
  const UPPER: string := "ABCDEFGHIJKLMNOPQRSTUVWXYZ"
  const LOWER: string := "abcdefghijklmnopqrstuvwxyz"
  const OTHERS: string := "0123456789+/"
  const CHARACTERS: string := UPPER + LOWER + OTHERS

  lemma UpperCharacter(v: sextet)
    requires v < 26
    ensures |UPPER| == 26 && UPPER[v] as int == EncodeChar(v)
  {
  }

  lemma LowerCharacter(v: sextet)
    requires 26 <= v < 52
    ensures |LOWER| == 26 && LOWER[v - 26] as int == EncodeChar(v)
  {
  }

  lemma OtherCharacter(v: sextet)
    requires 52 <= v
    ensures |OTHERS| == 12 && OTHERS[v - 52] as int == EncodeChar(v)
  {
  }

  /** The character of v is the v-th of the alphabet. */
  lemma CharacterAt(v: sextet)
    ensures |CHARACTERS| == 64 && CHARACTERS[v] as int == EncodeChar(v)
  {
    hide EncodeChar;
    if v < 26 {
      UpperCharacter(v);
    } else if v < 52 {
      LowerCharacter(v);
    } else {
      OtherCharacter(v);
    }
  }

  /** The value of a byte is its position in the alphabet, and -1 exactly when it does not occur there. */
  lemma PositionIsValue(c: byte)
    ensures |CHARACTERS| == 64 && (CharValue(c) >= 0 ==> CHARACTERS[CharValue(c)] == c as char)
    ensures CharValue(c) == -1 <==> c as char !in CHARACTERS
  {
    CharacterAt(0);
    if CharValue(c) >= 0 {
      CharacterAt(CharValue(c));
      AlphabetInverse(0, c);
    }
    if c as char in CHARACTERS {
      var k :| 0 <= k < |CHARACTERS| && CHARACTERS[k] == c as char;
      CharacterAt(k);
      AlphabetInverse(k, c);
    }
  }

  /** Alphabet and lookup table are inverse to each other, and framing characters are outside the alphabet. */
  lemma AlphabetInverse(v: sextet, c: byte)
    ensures CharValue(EncodeChar(v)) == v
    ensures CharValue(c) >= 0 ==> EncodeChar(CharValue(c)) == c
    ensures EncodeChar(v) !in [NUL, BANG, COLON, SEMICOLON, EQUALS, AT, COMMA]
  {
  }

  predicate Alphabet(t: seq<byte>) {
    forall k :: 0 <= k < |t| ==> CharValue(t[k]) >= 0
  }

  predicate ValidText(t: seq<byte>) {
    |t| % 4 == 0 && Alphabet(t)
  }

  // ----- one group -----

  /** The four 6-bit digits of three octets. */
  function Digits(a: byte, b: byte, c: byte): (q: seq<sextet>)
    ensures |q| == 4
  {
    [a / 4, a % 4 * 16 + b / 16, b % 16 * 4 + c / 64, c % 64]
  }

  /** The three octets made of four 6-bit digits. */
  function Octets(q: seq<sextet>): (t: seq<byte>)
    requires |q| == 4
    ensures |t| == 3
  {
    var w: int, x: int, y: int, z: int := q[0], q[1], q[2], q[3];
    [w * 4 + x / 16, x % 16 * 16 + y / 4, y % 4 * 64 + z]
  }

  /** The 24-bit number that four digits spell. */
  function Number(q: seq<sextet>): int
    requires |q| == 4
  {
    (q[0] as int) * 0x4_0000 + (q[1] as int) * 0x1000 + (q[2] as int) * 0x40 + q[3]
  }

  lemma DigitsInverse(a: byte, b: byte, c: byte)
    ensures Octets(Digits(a, b, c)) == [a, b, c]
  {
  }

  lemma OctetsInverse(q: seq<sextet>)
    requires |q| == 4
    ensures var t := Octets(q); Digits(t[0], t[1], t[2]) == q
  {
    var w: int, x: int, y: int, z: int := q[0], q[1], q[2], q[3];
    var t := Octets(q);
    assert t[0] / 4 == w && t[0] % 4 == x / 16;
    assert t[1] / 16 == x % 16 && t[1] % 16 == y / 4;
    assert t[2] / 64 == y % 4 && t[2] % 64 == z;
  }

  /** Shifting and masking a 24-bit number picks out its 6-bit digits. */
  lemma ShiftSixes(w: int, x: int, y: int, z: int)
    requires 0 <= w < 64 && 0 <= x < 64 && 0 <= y < 64 && 0 <= z < 64
    ensures var t := w * 0x4_0000 + x * 0x1000 + y * 0x40 + z;
      t / 0x4_0000 % 64 == w && t / 0x1000 % 64 == x && t / 0x40 % 64 == y && t % 64 == z
  {
    var t := w * 0x4_0000 + x * 0x1000 + y * 0x40 + z;
    assert t / 0x4_0000 == w;
    assert t / 0x1000 == w * 64 + x;
    assert t / 0x40 == w * 0x1000 + x * 64 + y;
  }

  /** Shifting and masking a 24-bit number picks out its octets. */
  lemma ShiftEights(a: int, b: int, c: int)
    requires 0 <= a < 256 && 0 <= b < 256 && 0 <= c < 256
    ensures var t := a * 0x1_0000 + b * 0x100 + c;
      t / 0x1_0000 % 256 == a && t / 0x100 % 256 == b && t % 256 == c
  {
    var t := a * 0x1_0000 + b * 0x100 + c;
    assert t / 0x1_0000 == a;
    assert t / 0x100 == a * 256 + b;
  }

  /** The octets and the digits of a group spell the same number. */
  lemma SameNumber(a: byte, b: byte, c: byte)
    ensures Number(Digits(a, b, c)) == (a as int) * 0x1_0000 + (b as int) * 0x100 + c
  {
  }

  /** The encoder's arithmetic on the triple yields the digits. */
  lemma ShiftedDigits(a: byte, b: byte, c: byte)
    ensures var t := (a as int) * 0x1_0000 + (b as int) * 0x100 + c;
      [t / 0x4_0000 % 64, t / 0x1000 % 64, t / 0x40 % 64, t % 64] == Digits(a, b, c)
  {
    var d := Digits(a, b, c);
    SameNumber(a, b, c);
    ShiftSixes(d[0], d[1], d[2], d[3]);
  }

  /** The decoder's arithmetic on the triple yields the octets. */
  lemma ShiftedOctets(q: seq<sextet>)
    requires |q| == 4
    ensures var t := Number(q); [t / 0x1_0000 % 256, t / 0x100 % 256, t % 256] == Octets(q)
  {
    var o := Octets(q);
    OctetsInverse(q);
    SameNumber(o[0], o[1], o[2]);
    ShiftEights(o[0], o[1], o[2]);
  }

  function Chars(q: seq<sextet>): (t: seq<byte>)
    ensures |t| == |q|
  {
    seq(|q|, i requires 0 <= i < |q| => EncodeChar(q[i]))
  }

  function Values(t: seq<byte>): (q: seq<sextet>)
    requires Alphabet(t)
    ensures |q| == |t|
  {
    seq(|t|, i requires 0 <= i < |t| => CharValue(t[i]))
  }

  lemma CharsInverse(q: seq<sextet>)
    ensures Alphabet(Chars(q)) && Values(Chars(q)) == q
  {
    forall i | 0 <= i < |q| ensures CharValue(Chars(q)[i]) == q[i] {
      AlphabetInverse(q[i], 0);
    }
  }

  lemma ValuesInverse(t: seq<byte>)
    requires Alphabet(t)
    ensures Chars(Values(t)) == t
  {
    forall i | 0 <= i < |t| ensures Chars(Values(t))[i] == t[i] {
      AlphabetInverse(0, t[i]);
    }
  }

  /** Three octets as four characters. */
  function Quad(a: byte, b: byte, c: byte): (q: seq<byte>)
    ensures |q| == 4
  {
    Chars(Digits(a, b, c))
  }

  /** Four characters as three octets. */
  function Group(q: seq<byte>): (t: seq<byte>)
    requires |q| == 4 && Alphabet(q)
    ensures |t| == 3
  {
    Octets(Values(q))
  }

  lemma QuadThenGroup(a: byte, b: byte, c: byte)
    ensures Alphabet(Quad(a, b, c)) && Group(Quad(a, b, c)) == [a, b, c]
  {
    CharsInverse(Digits(a, b, c));
    DigitsInverse(a, b, c);
  }

  lemma GroupThenQuad(q: seq<byte>)
    requires |q| == 4 && Alphabet(q)
    ensures var t := Group(q); Quad(t[0], t[1], t[2]) == q
  {
    OctetsInverse(Values(q));
    ValuesInverse(q);
  }

  // ----- whole texts -----

  function OrZero(d: seq<byte>, i: nat): byte {
    if i < |d| then d[i] else 0
  }

  /** Groups of three octets from the left; octets missing from the last group count as zero. */
  function Encode(d: seq<byte>): (t: seq<byte>)
    ensures |t| == (|d| + 2) / 3 * 4
  {
    if d == [] then []
    else Quad(d[0], OrZero(d, 1), OrZero(d, 2)) + Encode(d[Min(3, |d|)..])
  }

  /** The octets of a valid text. */
  function DecodeBytes(t: seq<byte>): (d: seq<byte>)
    requires ValidText(t)
    ensures |d| == |t| / 4 * 3
  {
    if t == [] then [] else Group(t[..4]) + DecodeBytes(t[4..])
  }

  /** d zero-extended to a multiple of three. */
  function ZeroExtended(d: seq<byte>): (e: seq<byte>)
    ensures |e| == (|d| + 2) / 3 * 3
  {
    d + seq((|d| + 2) / 3 * 3 - |d|, _ => 0)
  }

  predicate Frameless(t: seq<byte>) {
    forall c | c in [NUL, BANG, COLON, SEMICOLON, EQUALS, AT] :: c !in t
  }

  lemma AlphabetConcat(t: seq<byte>, u: seq<byte>)
    requires Alphabet(t) && Alphabet(u)
    ensures Alphabet(t + u)
  {
  }

  lemma AlphabetIsFrameless(t: seq<byte>)
    requires Alphabet(t)
    ensures Frameless(t)
  {
    forall c | c in [NUL, BANG, COLON, SEMICOLON, EQUALS, AT] ensures c !in t {
      assert CharValue(c) == -1;
    }
  }

  lemma EmptyAlphabet()
    ensures Alphabet([])
  {
  }

  lemma {:induction false} EncodeIsAlphabet(d: seq<byte>)
    ensures Alphabet(Encode(d))
  {
    hide Quad, Alphabet;
    EmptyAlphabet();
    if d != [] {
      QuadThenGroup(d[0], OrZero(d, 1), OrZero(d, 2));
      EncodeIsAlphabet(d[Min(3, |d|)..]);
      AlphabetConcat(Quad(d[0], OrZero(d, 1), OrZero(d, 2)), Encode(d[Min(3, |d|)..]));
    }
  }

  /** Encoded text never contains a terminator, a framing character or '='. */
  lemma EncodeIsFrameless(d: seq<byte>)
    ensures ValidText(Encode(d)) && Frameless(Encode(d))
  {
    hide Encode, Alphabet, Frameless;
    EncodeIsAlphabet(d);
    AlphabetIsFrameless(Encode(d));
  }

  /** Decoding an encoding gives the data back, zero-extended to whole groups. */
  lemma {:induction false} DecodeAfterEncode(d: seq<byte>)
    ensures ValidText(Encode(d)) && DecodeBytes(Encode(d)) == ZeroExtended(d)
  {
    EncodeIsFrameless(d);
    if d != [] {
      var head, tail := Quad(d[0], OrZero(d, 1), OrZero(d, 2)), d[Min(3, |d|)..];
      QuadThenGroup(d[0], OrZero(d, 1), OrZero(d, 2));
      DecodeAfterEncode(tail);
      assert Encode(d)[..4] == head && Encode(d)[4..] == Encode(tail);
      assert [d[0], OrZero(d, 1), OrZero(d, 2)] + ZeroExtended(tail) == ZeroExtended(d);
    }
  }

  /** Every valid text is the encoding of what it decodes to: with DecodeAfterEncode, a bijection between
      data of length 3k and alphabet texts of length 4k. */
  lemma {:induction false} EncodeAfterDecode(t: seq<byte>)
    requires ValidText(t)
    ensures Encode(DecodeBytes(t)) == t
  {
    if t != [] {
      var g, rest := Group(t[..4]), DecodeBytes(t[4..]);
      var d := DecodeBytes(t);
      GroupThenQuad(t[..4]);
      EncodeAfterDecode(t[4..]);
      assert d[0] == g[0] && OrZero(d, 1) == g[1] && OrZero(d, 2) == g[2];
      assert d[3..] == rest;
      assert t == t[..4] + t[4..];
    }
  }

  // ----- the texts, character by character -----

  /** The 24-bit number of the g-th group of three bytes. */
  function Triple(e: seq<byte>, g: nat): (n: int)
    requires 3 * g + 2 < |e|
    ensures 0 <= n < 0x100_0000
  {
    (e[3 * g] as int) * 65536 + (e[3 * g + 1] as int) * 256 + e[3 * g + 2]
  }

  /** The j-th six bits of a 24-bit number, from the top. */
  function SixBits(n: int, j: nat): (v: sextet)
    requires j < 4
  {
    match j
    case 0 => n / 262144 % 64
    case 1 => n / 4096 % 64
    case 2 => n / 64 % 64
    case _ => n % 64
  }

  lemma DigitsAreSixBits(a: byte, b: byte, c: byte, j: nat)
    requires j < 4
    ensures Digits(a, b, c)[j] == SixBits((a as int) * 65536 + (b as int) * 256 + c, j)
  {
    hide Digits;
    ShiftedDigits(a, b, c);
    var n := (a as int) * 65536 + (b as int) * 256 + c;
    var d := Digits(a, b, c);
    assert d == [n / 262144 % 64, n / 4096 % 64, n / 64 % 64, n % 64];
  }

  lemma QuadCharacter(a: byte, b: byte, c: byte, j: nat)
    requires j < 4
    ensures |CHARACTERS| == 64
    ensures Quad(a, b, c)[j] == CHARACTERS[SixBits((a as int) * 65536 + (b as int) * 256 + c, j)] as int
  {
    hide EncodeChar, SixBits, Digits;
    DigitsAreSixBits(a, b, c, j);
    CharacterAt(Digits(a, b, c)[j]);
  }

  lemma ExtendedTail(d: seq<byte>)
    requires d != []
    ensures |ZeroExtended(d)| >= 3
    ensures Triple(ZeroExtended(d), 0) == (d[0] as int) * 65536 + (OrZero(d, 1) as int) * 256 + OrZero(d, 2)
    ensures ZeroExtended(d)[3..] == ZeroExtended(d[Min(3, |d|)..])
  {
    assert ZeroExtended(d)[..3] == [d[0], OrZero(d, 1), OrZero(d, 2)];
  }

  /** Character k of an encoding: the six bits that RFC 4648, section 4, takes for it from a group of three bytes, the
      data extended with zeros, looked up in the alphabet. */
  lemma {:induction false} EncodedCharacter(d: seq<byte>, k: nat)
    requires k < |Encode(d)|
    ensures k / 4 * 3 + 2 < |ZeroExtended(d)| && |CHARACTERS| == 64
    ensures Encode(d)[k] == CHARACTERS[SixBits(Triple(ZeroExtended(d), k / 4), k % 4)] as int
  {
    hide Encode, EncodeChar, Quad, SixBits, ZeroExtended, CHARACTERS, Triple, OrZero;
    var tail, e := d[Min(3, |d|)..], ZeroExtended(d);
    ExtendedTail(d);
    EncodeUnfolds(d, k);
    QuadCharacter(d[0], OrZero(d, 1), OrZero(d, 2), k % 4);
    if k >= 4 {
      EncodedCharacter(tail, k - 4);
      NextGroup(e, k / 4);
    }
  }

  lemma {:induction false} EncodeUnfolds(d: seq<byte>, k: nat)
    requires k < |Encode(d)|
    ensures d != []
    ensures k < 4 ==> Encode(d)[k] == Quad(d[0], OrZero(d, 1), OrZero(d, 2))[k]
    ensures k >= 4 ==> k - 4 < |Encode(d[Min(3, |d|)..])| && Encode(d)[k] == Encode(d[Min(3, |d|)..])[k - 4]
  {
    hide Quad;
  }

  lemma NextGroup(e: seq<byte>, g: nat)
    requires 0 < g && 3 * g + 2 < |e|
    ensures Triple(e[3..], g - 1) == Triple(e, g)
  {
  }

  // ----- the encoder -----

  lemma {:induction false} EncodeAppend(d: seq<byte>, e: seq<byte>)
    requires |d| % 3 == 0
    ensures Encode(d + e) == Encode(d) + Encode(e)
  {
    if d == [] {
      assert d + e == e;
    } else {
      EncodeAppend(d[3..], e);
      DropAppend(d, e, 3);
      Assoc(Quad(d[0], d[1], d[2]), Encode(d[3..]), Encode(e));
    }
  }

  /** One pass of the encoding loop appends one group. */
  lemma EncodeStep(d: seq<byte>, i: nat)
    requires i < |d| && i % 3 == 0
    ensures Encode(d[..Min(i + 3, |d|)]) == Encode(d[..i]) + Quad(d[i], OrZero(d, i + 1), OrZero(d, i + 2))
  {
    hide Encode, Quad;
    var next := Min(i + 3, |d|);
    var last := d[i..next];
    EncodeAppend(d[..i], last);
    assert d[..next] == d[..i] + last;
    OneGroup(last);
  }

  /** The output has room for another group. */
  lemma EncodeRoom(d: seq<byte>, i: nat)
    requires i < |d| && i % 3 == 0
    ensures |Encode(d[..i])| + 4 <= |Encode(d)|
  {
    GroupsGrow(i, |d|);
  }

  lemma GroupsGrow(i: nat, n: nat)
    requires i < n && i % 3 == 0
    ensures (i + 2) / 3 * 4 + 4 <= (n + 2) / 3 * 4
  {
    var k := i / 3;
    assert (i + 2) / 3 == k && (n + 2) / 3 >= k + 1;
  }

  lemma OneGroup(d: seq<byte>)
    requires 0 < |d| <= 3
    ensures Encode(d) == Quad(d[0], OrZero(d, 1), OrZero(d, 2))
  {
    var t := Encode(d[Min(3, |d|)..]);
    assert t == [];
  }

  /** One pass of the encoding loop: the four characters of a triple. */
  method WriteQuad(output: array<byte>, j: nat, a: byte, b: byte, c: byte)
    requires j + 4 <= output.Length
    modifies output
    ensures output[..j + 4] == old(output[..j]) + Quad(a, b, c)
    ensures forall k :: j + 4 <= k < output.Length ==> output[k] == old(output[k])
  {
    var triple: int := (a as int) * 0x1_0000 + (b as int) * 0x100 + c;
    ShiftedDigits(a, b, c);
    ghost var d := Digits(a, b, c);
    assert Quad(a, b, c) == [EncodeChar(d[0]), EncodeChar(d[1]), EncodeChar(d[2]), EncodeChar(d[3])];
    output[j] := EncodeChar(triple / 0x4_0000 % 64);
    output[j + 1] := EncodeChar(triple / 0x1000 % 64);
    output[j + 2] := EncodeChar(triple / 0x40 % 64);
    output[j + 3] := EncodeChar(triple % 64);
  }

  lemma WholeGroups(i: nat, groups: nat, n: nat)
    requires i == Min(3 * groups, n) && i < n
    ensures i % 3 == 0 && Min(i + 3, n) == Min(3 * (groups + 1), n)
  {
  }

  method Base64Encode(data: seq<byte>, output: array<byte>) returns (rc: int)
    modifies output
    ensures rc == if output.Length < 4 * ((|data| + 2) / 3) + 1 then -1 else 0
    ensures rc == -1 ==> output[..] == old(output[..])
    ensures rc == 0 ==> output[..|Encode(data)|] == Encode(data) && output[|Encode(data)|] == NUL
    ensures rc == 0 ==> forall k :: |Encode(data)| < k < output.Length ==> output[k] == old(output[k])
  {
    hide Quad, EncodeChar, Encode;
    if output.Length < 4 * ((|data| + 2) / 3) + 1 {
      return -1;
    }
    var i, j := 0, 0;
    assert |Encode([])| == 0;
    ghost var groups, total := 0, |Encode(data)|;
    while i < |data|
      invariant 0 <= i <= |data| && j == |Encode(data[..i])|
      invariant i == Min(3 * groups, |data|)
      invariant output[..j] == Encode(data[..i])
      invariant forall k :: total <= k < output.Length ==> output[k] == old(output[k])
    {
      WholeGroups(i, groups, |data|);
      EncodeStep(data, i);
      EncodeRoom(data, i);
      var a, b, c := data[i], OrZero(data, i + 1), OrZero(data, i + 2);
      WriteQuad(output, j, a, b, c);
      i := Min(i + 3, |data|);
      j := j + 4;
      groups := groups + 1;
    }
    assert data[..i] == data;
    // Four characters per group were written, so the padding loop of the code has no iteration left.
    assert 4 * ((|data| + 2) / 3) - j == 0;
    output[j] := NUL;
    return 0;
  }

  // ----- the decoder: when it stops -----

  /** The size check counts '=' only in the last two places. */
  function Padding(t: seq<byte>): nat {
    (if |t| >= 1 && t[|t| - 1] == EQUALS then 1 else 0) + (if |t| >= 2 && t[|t| - 2] == EQUALS then 1 else 0)
  }

  /** buffer_size < 3 * (input_length / 4) - padding, in wrapping size_t arithmetic. */
  predicate TooSmall(t: seq<byte>, size: nat) {
    size < (3 * (|t| / 4) - Padding(t)) % SIZE_MODULUS
  }

  function CharAt(t: seq<byte>, i: nat): byte {
    if i < |t| then t[i] else NUL
  }

  /** One read of the decoder: '=' yields zero and, as the code is written, does not advance. */
  function ReadSextet(t: seq<byte>, i: nat): (int, nat) {
    var c := CharAt(t, i);
    if c == EQUALS then (0, i) else (CharValue(c), i + 1)
  }

  datatype Cursor = Running(i: nat) | Finished | Failed

  /** One pass of the decoding loop, as far as the input cursor is concerned. */
  function Pass(t: seq<byte>, c: Cursor): Cursor {
    if !c.Running? then c
    else if c.i >= |t| then Finished
    else
      var (a, i1) := ReadSextet(t, c.i);
      var (b, i2) := ReadSextet(t, i1);
      var (d, i3) := ReadSextet(t, i2);
      var (e, i4) := ReadSextet(t, i3);
      if a == -1 || b == -1 || d == -1 || e == -1 then Failed else Running(i4)
  }

  function AfterPasses(t: seq<byte>, n: nat): Cursor {
    if n == 0 then Running(0) else Pass(t, AfterPasses(t, n - 1))
  }

  /** The first character outside the alphabet is '='. */
  predicate StopsAtEquals(t: seq<byte>) {
    EQUALS in t && Alphabet(t[..FirstIndex(t, EQUALS)])
  }

  /** Before '=' every read advances by one; at '=' no read advances. */
  lemma ReadTowardsEquals(t: seq<byte>, i: nat)
    requires StopsAtEquals(t) && i <= FirstIndex(t, EQUALS)
    ensures var (v, next) := ReadSextet(t, i); v >= 0 && next == Min(i + 1, FirstIndex(t, EQUALS))
  {
    var e := FirstIndex(t, EQUALS);
    if i < e {
      assert t[..e][i] == t[i];
    }
  }

  lemma PassTowardsEquals(t: seq<byte>, i: nat)
    requires StopsAtEquals(t) && i <= FirstIndex(t, EQUALS)
    ensures Pass(t, Running(i)) == Running(Min(i + 4, FirstIndex(t, EQUALS)))
  {
    ReadTowardsEquals(t, i);
    var i1 := ReadSextet(t, i).1;
    ReadTowardsEquals(t, i1);
    var i2 := ReadSextet(t, i1).1;
    ReadTowardsEquals(t, i2);
    ReadTowardsEquals(t, ReadSextet(t, i2).1);
  }

  lemma FourMore(n: nat, e: nat)
    requires n > 0
    ensures Min(Min(4 * (n - 1), e) + 4, e) == Min(4 * n, e)
  {
  }

  lemma {:induction false} ReachesEquals(t: seq<byte>, n: nat, e: nat)
    requires StopsAtEquals(t) && e == FirstIndex(t, EQUALS)
    ensures AfterPasses(t, n) == Running(Min(4 * n, e))
  {
    hide StopsAtEquals, FirstIndex, Pass;
    if n > 0 {
      ReachesEquals(t, n - 1, e);
      PassTowardsEquals(t, Min(4 * (n - 1), e));
      FourMore(n, e);
    }
  }

  lemma {:induction false} LeavesLoop(t: seq<byte>, n: nat)
    requires !StopsAtEquals(t)
    ensures AfterPasses(t, n).Running? ==>
      AfterPasses(t, n).i == 4 * n && 4 * n <= |t| && Alphabet(t[..4 * n])
  {
    if n > 0 {
      LeavesLoop(t, n - 1);
      var c := AfterPasses(t, n - 1);
      if c.Running? && AfterPasses(t, n).Running? {
        QuartetAdvances(t, c.i);
      }
    }
  }

  /** Without '=' at the front of trouble, a pass that continues has read four alphabet characters. */
  lemma QuartetAdvances(t: seq<byte>, i: nat)
    requires !StopsAtEquals(t) && i <= |t| && Alphabet(t[..i])
    requires Pass(t, Running(i)).Running?
    ensures i + 4 <= |t| && Alphabet(t[..i + 4]) && Pass(t, Running(i)) == Running(i + 4)
  {
    assert forall k :: 0 <= k < i ==> CharValue(t[k]) == CharValue(t[..i][k]) >= 0;
    assert CharValue(EQUALS) == CharValue(NUL) == -1;
    NoEqualsAfterAlphabet(t, i);
    if CharValue(CharAt(t, i)) >= 0 {
      NoEqualsAfterAlphabet(t, i + 1);
      if CharValue(CharAt(t, i + 1)) >= 0 {
        NoEqualsAfterAlphabet(t, i + 2);
        if CharValue(CharAt(t, i + 2)) >= 0 {
          NoEqualsAfterAlphabet(t, i + 3);
        }
      }
    }
  }

  lemma NoEqualsAfterAlphabet(t: seq<byte>, i: nat)
    requires !StopsAtEquals(t)
    requires forall k :: 0 <= k < i ==> k < |t| && CharValue(t[k]) >= 0
    ensures CharAt(t, i) != EQUALS
  {
    assert forall k :: 0 <= k < i && k < |t| ==> t[k] != EQUALS;
    assert i < |t| ==> Alphabet(t[..i]);
    if i < |t| && t[i] == EQUALS {
      FirstIndexUnique(t, EQUALS, i);
    }
  }

  lemma LoopIsLeft(t: seq<byte>, n: nat)
    requires !StopsAtEquals(t) && n == |t| + 1
    ensures !AfterPasses(t, n).Running?
  {
    hide StopsAtEquals, AfterPasses;
    LeavesLoop(t, n);
  }

  /** The decoding loop runs forever exactly when the first character outside the alphabet is '='. */
  lemma LoopsForeverIff(t: seq<byte>)
    ensures (forall n: nat :: AfterPasses(t, n).Running?) <==> StopsAtEquals(t)
  {
    hide AfterPasses;
    if StopsAtEquals(t) {
      forall n: nat ensures AfterPasses(t, n).Running? {
        ReachesEquals(t, n, FirstIndex(t, EQUALS));
      }
    } else {
      var n: nat := |t| + 1;
      LoopIsLeft(t, n);
    }
  }

  /** The decoder never returns on t: the size check lets it in and the loop sticks at '='. */
  predicate Hangs(t: seq<byte>, size: nat) {
    !TooSmall(t, size) && StopsAtEquals(t)
  }

  // ----- the decoder: what it computes -----

  datatype Decoded = Rejected(buffer: seq<byte>) | Accepted(buffer: seq<byte>, length: nat)

  /** bytes written over buffer from position j on, as far as they fit. */
  function Overlay(buffer: seq<byte>, j: nat, bytes: seq<byte>): (r: seq<byte>)
    requires j <= |buffer|
    ensures |r| == |buffer|
  {
    var k := Min(|bytes|, |buffer| - j);
    buffer[..j] + bytes[..k] + buffer[j + k..]
  }

  /** The passes of the loop over the remaining text t. A rejected text leaves what was written so far. */
  function DecodeText(t: seq<byte>, buffer: seq<byte>, j: nat, length: nat): (r: Decoded)
    requires j <= |buffer|
    ensures |r.buffer| == |buffer|
    decreases |t|
  {
    if t == [] then Accepted(buffer, length)
    else if |t| < 4 || !Alphabet(t[..4]) then Rejected(buffer)
    else DecodeText(t[4..], Overlay(buffer, j, Group(t[..4])), Min(j + 3, |buffer|), length + 3)
  }

  /** fs_base64_decode on a C string. */
  function Decode(t: seq<byte>, buffer: seq<byte>): (r: Decoded)
    ensures |r.buffer| == |buffer|
  {
    if TooSmall(t, |buffer|) then Rejected(buffer) else DecodeText(t, buffer, 0, 0)
  }

  lemma OverlayTwice(buffer: seq<byte>, j: nat, a: seq<byte>, b: seq<byte>)
    requires j <= |buffer|
    ensures Overlay(Overlay(buffer, j, a), Min(j + |a|, |buffer|), b) == Overlay(buffer, j, a + b)
  {
  }

  lemma ValidByQuartets(t: seq<byte>)
    requires |t| >= 4
    ensures ValidText(t) <==> Alphabet(t[..4]) && ValidText(t[4..])
  {
    assert forall k :: 0 <= k < 4 ==> t[..4][k] == t[k];
    assert forall k :: 4 <= k < |t| ==> t[4..][k - 4] == t[k];
  }

  /** A text is accepted exactly when it is a whole number of alphabet quartets, and then the buffer starts with
      the decoded bytes; in particular '='-free text whose length is not a multiple of four is rejected. */
  lemma {:induction false} AcceptedIffValid(t: seq<byte>, buffer: seq<byte>, j: nat, length: nat)
    requires j <= |buffer|
    ensures DecodeText(t, buffer, j, length).Accepted? <==> ValidText(t)
    ensures ValidText(t) ==>
      DecodeText(t, buffer, j, length) == Accepted(Overlay(buffer, j, DecodeBytes(t)), length + |DecodeBytes(t)|)
    decreases |t|
  {
    if t == [] {
      assert Overlay(buffer, j, []) == buffer;
    } else if |t| >= 4 {
      ValidByQuartets(t);
      if Alphabet(t[..4]) {
        var g := Group(t[..4]);
        AcceptedIffValid(t[4..], Overlay(buffer, j, g), Min(j + 3, |buffer|), length + 3);
        if ValidText(t) {
          OverlayTwice(buffer, j, g, DecodeBytes(t[4..]));
        }
      }
    }
  }

  /** The round trip through the code's buffers: whatever the buffer held, it then starts with the data. */
  lemma DecodeOfEncode(d: seq<byte>, buffer: seq<byte>)
    requires |Encode(d)| / 4 * 3 <= |buffer|
    ensures Decode(Encode(d), buffer) == Accepted(Overlay(buffer, 0, ZeroExtended(d)), |ZeroExtended(d)|)
    ensures |d| <= |buffer| && Decode(Encode(d), buffer).buffer[..|d|] == d
  {
    var t := Encode(d);
    EncodeIsFrameless(d);
    NoPadding(t);
    SmallModulus(3 * (|t| / 4), |buffer|);
    AcceptedIffValid(t, buffer, 0, 0);
    DecodeAfterEncode(d);
    OverlayPrefix(buffer, ZeroExtended(d), |d|);
  }

  /** A text is accepted exactly when it is valid and its bytes fit the buffer. */
  lemma AcceptedIffFits(t: seq<byte>, buffer: seq<byte>)
    requires |t| <= 512
    ensures Decode(t, buffer).Accepted? <==> ValidText(t) && 3 * |t| / 4 <= |buffer|
  {
    hide DecodeText;
    AcceptedIffValid(t, buffer, 0, 0);
    if ValidText(t) {
      NoPadding(t);
      SmallSize(3 * (|t| / 4));
    }
  }

  lemma SmallSize(n: nat)
    requires n <= 512
    ensures n % SIZE_MODULUS == n
  {
  }

  lemma NegativeSize(n: int, size: nat)
    requires -2 <= n < 0 && size <= 0xFFFF_FFFF
    ensures size < n % SIZE_MODULUS
  {
    assert n % SIZE_MODULUS == n + SIZE_MODULUS;
  }

  /** Alphabet characters and then at least one '=': the decoder sticks exactly when the text has at least four
      characters and the bytes that the size check expects of it fit. */
  lemma PaddedTextSticksIff(u: seq<byte>, p: nat, size: nat)
    requires Alphabet(u) && p > 0 && |u| + p <= 512 && size <= 0xFFFF_FFFF
    ensures var t := u + seq(p, _ => 61);
      Hangs(t, size) <==> |t| >= 4 && |t| / 4 * 3 - (if p == 1 then 1 else 2) <= size
  {
    hide Padding, TooSmall, StopsAtEquals;
    var t := u + seq(p, _ => 61);
    StopsBehind(u, p, t);
    PaddingIs(u, p, t);
    SizeDecides(t, size, if p == 1 then 1 else 2);
  }

  lemma StopsBehind(u: seq<byte>, p: nat, t: seq<byte>)
    requires Alphabet(u) && p > 0 && t == u + seq(p, _ => 61)
    ensures StopsAtEquals(t)
  {
    assert t[|u|] == EQUALS && t[..|u|] == u;
    AlphabetIsFrameless(u);
    FirstIndexUnique(t, EQUALS, |u|);
  }

  lemma SizeDecides(t: seq<byte>, size: nat, padding: nat)
    requires 0 < |t| <= 512 && padding == Padding(t) && 0 < padding && size <= 0xFFFF_FFFF
    ensures !TooSmall(t, size) <==> |t| >= 4 && |t| / 4 * 3 - padding <= size
  {
    if |t| >= 4 {
      SmallSize(3 * (|t| / 4) - padding);
    } else {
      NegativeSize(0 - padding as int, size);
    }
  }

  lemma PaddingIs(u: seq<byte>, p: nat, t: seq<byte>)
    requires Alphabet(u) && p > 0 && t == u + seq(p, _ => 61)
    ensures Padding(t) == if p == 1 then 1 else 2
  {
    assert t[|t| - 1] == EQUALS;
    if p == 1 {
      assert |u| > 0 ==> t[|t| - 2] == u[|u| - 1];
    } else {
      assert t[|t| - 2] == EQUALS;
    }
  }

  lemma OverlayPrefix(buffer: seq<byte>, bytes: seq<byte>, n: nat)
    requires n <= |bytes| <= |buffer|
    ensures Overlay(buffer, 0, bytes)[..n] == bytes[..n]
  {
  }

  lemma SmallModulus(x: nat, bound: nat)
    requires x <= bound
    ensures x % SIZE_MODULUS <= bound
  {
  }

  /** One pass of the decoding loop on four alphabet characters: three bytes, as far as they fit. */
  method WriteTriple(output: array<byte>, start: nat, a: sextet, b: sextet, c: sextet, d: sextet) returns (j: nat)
    requires start <= output.Length
    modifies output
    ensures j == Min(start + 3, output.Length)
    ensures output[..] == Overlay(old(output[..]), start, Octets([a, b, c, d]))
  {
    var triple: int := (a as int) * 0x4_0000 + (b as int) * 0x1000 + (c as int) * 0x40 + d;
    ShiftedOctets([a, b, c, d]);
    j := start;
    if j < output.Length {
      output[j] := triple / 0x1_0000 % 256;
      j := j + 1;
    }
    if j < output.Length {
      output[j] := triple / 0x100 % 256;
      j := j + 1;
    }
    if j < output.Length {
      output[j] := triple % 256;
      j := j + 1;
    }
  }

  /** fs_base64_decode. input is the memory from the string's first byte on. Inputs on which the code loops
      forever are excluded; LoopsForeverIff says which they are. */
  method Base64Decode(input: seq<byte>, output: array<byte>) returns (rc: int, decodedLength: nat)
    requires |input| < MAX_DATA_LENGTH ==> NUL in input
    requires !Hangs(CString(input, MAX_DATA_LENGTH), output.Length)
    modifies output
    ensures var r := Decode(CString(input, MAX_DATA_LENGTH), old(output[..]));
      && output[..] == r.buffer
      && rc == (if r.Accepted? then 0 else -1)
      && (r.Accepted? ==> decodedLength == r.length)
  {
    var inputLength := SafeStrnlen(input, MAX_DATA_LENGTH);
    var t := input[..inputLength];
    var padding := CountPadding(t);
    if output.Length < (3 * (inputLength / 4) - padding) % SIZE_MODULUS {
      return -1, 0;
    }
    rc, decodedLength := DecodeLoop(t, output);
    if rc == 0 {
      AcceptedIffValid(t, old(output[..]), 0, 0);
      NoPadding(t);
      decodedLength := decodedLength - padding;
    }
  }

  method CountPadding(t: seq<byte>) returns (padding: nat)
    ensures padding == Padding(t)
  {
    padding := 0;
    if |t| >= 1 && t[|t| - 1] == EQUALS {
      padding := padding + 1;
    }
    if |t| >= 2 && t[|t| - 2] == EQUALS {
      padding := padding + 1;
    }
  }

  /** The loop of fs_base64_decode over the C string t. */
  method DecodeLoop(t: seq<byte>, output: array<byte>) returns (rc: int, decodedLength: nat)
    requires !StopsAtEquals(t)
    modifies output
    ensures var r := DecodeText(t, old(output[..]), 0, 0);
      && output[..] == r.buffer
      && rc == (if r.Accepted? then 0 else -1)
      && (r.Accepted? ==> decodedLength == r.length)
  {
    decodedLength := 0;
    ghost var r := DecodeText(t, output[..], 0, 0);
    var i, j := 0, 0;
    assert t[..0] == [] && t[0..] == t;
    while i < |t|
      invariant 0 <= i <= |t| && 0 <= j <= output.Length && Alphabet(t[..i])
      invariant r == DecodeText(t[i..], output[..], j, decodedLength)
    {
      PassDecodes(t, i, output[..], j, decodedLength);
      var (a, i1) := ReadSextet(t, i);
      var (b, i2) := ReadSextet(t, i1);
      var (c, i3) := ReadSextet(t, i2);
      var (d, i4) := ReadSextet(t, i3);
      if a == -1 || b == -1 || c == -1 || d == -1 {
        return -1, decodedLength;
      }
      i := i4;
      j := WriteTriple(output, j, a, b, c, d);
      decodedLength := decodedLength + 3;
    }
    return 0, decodedLength;
  }

  lemma NoPadding(t: seq<byte>)
    requires Alphabet(t)
    ensures Padding(t) == 0
  {
  }

  /** One pass of the loop is one step of the specification. */
  lemma PassDecodes(t: seq<byte>, i: nat, buffer: seq<byte>, j: nat, length: nat)
    requires !StopsAtEquals(t) && i < |t| && Alphabet(t[..i]) && j <= |buffer|
    ensures Pass(t, Running(i)).Failed? ==> DecodeText(t[i..], buffer, j, length) == Rejected(buffer)
    ensures !Pass(t, Running(i)).Failed? ==>
      && Pass(t, Running(i)) == Running(i + 4) && i + 4 <= |t| && Alphabet(t[..i + 4])
      && var (a, i1) := ReadSextet(t, i); var (b, i2) := ReadSextet(t, i1);
         var (c, i3) := ReadSextet(t, i2); var (d, i4) := ReadSextet(t, i3);
      && a >= 0 && b >= 0 && c >= 0 && d >= 0 && a < 64 && b < 64 && c < 64 && d < 64
      && DecodeText(t[i..], buffer, j, length)
         == DecodeText(t[i + 4..], Overlay(buffer, j, Octets([a, b, c, d])), Min(j + 3, |buffer|), length + 3)
  {
    PassDecides(t, i);
    if !Pass(t, Running(i)).Failed? {
      var q := t[i..][..4];
      assert t[i..][4..] == t[i + 4..];
      assert Values(q) == [CharValue(t[i]), CharValue(t[i + 1]), CharValue(t[i + 2]), CharValue(t[i + 3])];
    }
  }

  /** A pass fails exactly when the next quartet is short or leaves the alphabet. */
  lemma PassDecides(t: seq<byte>, i: nat)
    requires !StopsAtEquals(t) && i < |t| && Alphabet(t[..i])
    ensures Pass(t, Running(i)).Failed? <==> |t[i..]| < 4 || !Alphabet(t[i..][..4])
    ensures !Pass(t, Running(i)).Failed? ==> Alphabet(t[..i + 4]) && Pass(t, Running(i)) == Running(i + 4)
    ensures !Pass(t, Running(i)).Failed? ==>
      && ReadSextet(t, i) == (CharValue(t[i]), i + 1) && ReadSextet(t, i + 1) == (CharValue(t[i + 1]), i + 2)
      && ReadSextet(t, i + 2) == (CharValue(t[i + 2]), i + 3) && ReadSextet(t, i + 3) == (CharValue(t[i + 3]), i + 4)
  {
    if !Pass(t, Running(i)).Failed? {
      QuartetAdvances(t, i);
      assert forall k :: 0 <= k < 4 ==> t[i..][..4][k] == t[..i + 4][i + k];
    }
    if i + 4 <= |t| && Alphabet(t[i..][..4]) {
      assert forall k :: 0 <= k < 4 ==> t[i..][..4][k] == t[i + k];
      assert CharValue(t[i]) >= 0 && CharValue(t[i + 1]) >= 0 && CharValue(t[i + 2]) >= 0 && CharValue(t[i + 3]) >= 0;
      assert forall k :: 0 <= k < i + 4 ==> t[..i + 4][k] == if k < i then t[..i][k] else t[i..][..4][k - i];
    }
  }
}
