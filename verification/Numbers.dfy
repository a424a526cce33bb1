/** Decimal numbers as text: what printf writes and what atoi, strtoul and strtoull read. */
module Numbers {
  import opened Bytes

  const ULONG_MODULUS: nat := 0x1_0000_0000_0000_0000 // unsigned long and unsigned long long

  predicate IsSpace(b: byte) {
    b == 32 || 9 <= b <= 13
  }

  predicate IsDigit(b: byte) {
    48 <= b <= 57
  }

  function SkipSpaces(s: seq<byte>): (r: seq<byte>)
    ensures |r| <= |s|
    ensures r != [] ==> !IsSpace(r[0])
  {
    if s != [] && IsSpace(s[0]) then SkipSpaces(s[1..]) else s
  }

  function Digits(s: seq<byte>, acc: nat): nat
    decreases |s|
  {
    if s != [] && IsDigit(s[0]) then Digits(s[1..], 10 * acc + s[0] - 48) else acc
  }

  /** atoi, on unbounded integers. */
  function Atoi(s: seq<byte>): int {
    var t := SkipSpaces(s);
    if t != [] && t[0] == 45 then 0 - Digits(t[1..], 0) as int
    else if t != [] && t[0] == 43 then Digits(t[1..], 0)
    else Digits(t, 0)
  }

  /** strtoul and strtoull with 64 bits: a sign negates modulo the width, and overflow saturates. */
  function Strtoul(s: seq<byte>): nat {
    var n := Atoi(s);
    if n + ULONG_MODULUS <= 0 || ULONG_MODULUS <= n then ULONG_MODULUS - 1
    else if n < 0 then ULONG_MODULUS + n
    else n
  }

  /** %u and %llu. */
  function Decimal(n: nat): (s: seq<byte>)
    ensures s != [] && forall k :: 0 <= k < |s| ==> IsDigit(s[k])
  {
    if n < 10 then [48 + n] else Decimal(n / 10) + [48 + n % 10]
  }

  lemma {:induction false} DigitsOfDecimal(n: nat, tail: seq<byte>)
    ensures Digits(Decimal(n) + tail, 0) == Digits(tail, n)
  {
    var d: seq<byte> := [48 + n % 10];
    assert (d + tail)[1..] == tail;
    if n >= 10 {
      Assoc(Decimal(n / 10), d, tail);
      DigitsOfDecimal(n / 10, d + tail);
    }
  }

  /** Reading undoes printing, whatever follows the number as long as it is not another digit. */
  lemma AtoiOfDecimal(n: nat, tail: seq<byte>)
    requires tail != [] ==> !IsDigit(tail[0])
    ensures Atoi(Decimal(n) + tail) == n
    ensures n < ULONG_MODULUS ==> Strtoul(Decimal(n) + tail) == n
  {
    var text := Decimal(n) + tail;
    assert IsDigit(text[0]);
    DigitsOfDecimal(n, tail);
  }

  lemma DecimalReads(n: nat)
    ensures Atoi(Decimal(n)) == n
    ensures n < ULONG_MODULUS ==> Strtoul(Decimal(n)) == n
  {
    AtoiOfDecimal(n, []);
    assert Decimal(n) + [] == Decimal(n);
  }

  /** A minus sign in front of the digits negates. */
  lemma NegativeReads(n: nat)
    ensures Atoi([45] + Decimal(n)) == 0 - n as int
  {
    var s: seq<byte> := [45] + Decimal(n);
    assert SkipSpaces(s) == s && s[1..] == Decimal(n);
    DigitsOfDecimal(n, []);
    assert Decimal(n) + [] == Decimal(n);
  }

  /** Neither the end of the line nor any other character that is not a digit is part of a number. */
  lemma {:induction false} DigitsStop(s: seq<byte>, tail: seq<byte>, acc: nat)
    requires tail != [] ==> !IsDigit(tail[0])
    ensures Digits(s + tail, acc) == Digits(s, acc)
    decreases |s|
  {
    if s == [] {
      assert s + tail == tail;
    } else {
      DropAppend(s, tail, 1);
      if IsDigit(s[0]) {
        DigitsStop(s[1..], tail, 10 * acc + s[0] - 48);
      }
    }
  }

  lemma {:induction false} SkipSpacesAppend(s: seq<byte>, tail: seq<byte>)
    ensures SkipSpaces(s) != [] ==> SkipSpaces(s + tail) == SkipSpaces(s) + tail
    ensures SkipSpaces(s) == [] ==> SkipSpaces(s + tail) == SkipSpaces(tail)
  {
    if s == [] {
      assert s + tail == tail;
    } else if IsSpace(s[0]) {
      DropAppend(s, tail, 1);
      SkipSpacesAppend(s[1..], tail);
    }
  }

  /** A line feed behind a number is not read. */
  lemma LineFeedIgnored(s: seq<byte>)
    ensures Atoi(s + [LF]) == Atoi(s) && Strtoul(s + [LF]) == Strtoul(s)
  {
    SkipSpacesAppend(s, [LF]);
    var t := SkipSpaces(s);
    DigitsStop(t, [LF], 0);
    if t == [] {
      assert SkipSpaces([LF]) == [];
    } else {
      DropAppend(t, [LF], 1);
      DigitsStop(t[1..], [LF], 0);
    }
  }

  lemma {:induction false} SkipSpacesWithin(s: seq<byte>)
    ensures forall b :: b in SkipSpaces(s) ==> b in s
  {
    if s != [] && IsSpace(s[0]) {
      SkipSpacesWithin(s[1..]);
    }
  }

  function PowerOfTen(k: nat): (p: nat)
    ensures p > 0
  {
    if k == 0 then 1 else 10 * PowerOfTen(k - 1)
  }

  /** A number below 10^k has at most k digits. */
  lemma {:induction false} DigitCount(n: nat, k: nat)
    requires n < PowerOfTen(k) && k > 0
    ensures |Decimal(n)| <= k
    decreases k
  {
    if n >= 10 {
      DigitCount(n / 10, k - 1);
    }
  }

  lemma DecimalLength(n: nat, k: nat)
    requires n < ULONG_MODULUS && k == 20
    ensures |Decimal(n)| <= k
  {
    assert PowerOfTen(10) == 10000000000;
    assert PowerOfTen(20) == 100000000000000000000;
    DigitCount(n, 20);
  }

  // ----- what a text of digits is worth -----

  predicate AllDigits(s: seq<byte>) {
    forall k :: 0 <= k < |s| ==> 48 <= s[k] <= 57
  }

  /** Every digit counts ten times as much as the one behind it. */
  function PlaceValue(s: seq<byte>): nat
    requires AllDigits(s)
  {
    if s == [] then 0 else (s[0] as int - 48) * PowerOfTen(|s| - 1) + PlaceValue(s[1..])
  }

  lemma {:induction false} DigitsArePlaceValue(s: seq<byte>, acc: nat)
    requires AllDigits(s)
    ensures Digits(s, acc) == acc * PowerOfTen(|s|) + PlaceValue(s)
    decreases |s|
  {
    if s != [] {
      var d, p := s[0] as int - 48, PowerOfTen(|s| - 1);
      DigitsArePlaceValue(s[1..], 10 * acc + d);
      Distribute(acc, d, p);
    }
  }

  lemma Distribute(acc: int, d: int, p: int)
    ensures (10 * acc + d) * p == acc * (10 * p) + d * p
  {
  }

  predicate IsWhite(s: seq<byte>) {
    forall k :: 0 <= k < |s| ==> s[k] in [32, 9, 10, 11, 12, 13]
  }

  lemma {:induction false} SkipWhiteSpace(front: seq<byte>, s: seq<byte>)
    requires IsWhite(front)
    ensures SkipSpaces(front + s) == SkipSpaces(s)
  {
    if front == [] {
      assert front + s == s;
    } else {
      DropAppend(front, s, 1);
      SkipWhiteSpace(front[1..], s);
    }
  }

  /** A number of digits, with a sign or without, as the text behind the white space. */
  lemma SignedDigits(s: seq<byte>, t: seq<byte>)
    requires s != [] && IsDigit(s[0])
    ensures t == s ==> Atoi(t) == Digits(s, 0)
    ensures t == [43] + s ==> Atoi(t) == Digits(s, 0)
    ensures t == [45] + s ==> Atoi(t) == 0 - Digits(s, 0) as int
  {
    hide Digits;
    assert t == [43] + s ==> t[1..] == s;
    assert t == [45] + s ==> t[1..] == s;
  }

  lemma AtoiSkips(front: seq<byte>, s: seq<byte>)
    requires IsWhite(front)
    ensures Atoi(front + s) == Atoi(s)
  {
    hide Digits;
    SkipWhiteSpace(front, s);
  }

  lemma DigitsWorth(digits: seq<byte>, tail: seq<byte>)
    requires AllDigits(digits) && digits != [] && (tail != [] ==> !(48 <= tail[0] <= 57))
    ensures Digits(digits + tail, 0) == PlaceValue(digits) && IsDigit((digits + tail)[0])
  {
    DigitsArePlaceValue(digits, 0);
    DigitsStop(digits, tail, 0);
  }

  /** White space, a sign and digits, and then something that is not a digit: atoi yields what the digits are worth in
      base ten, with the sign. */
  lemma AtoiReads(front: seq<byte>, digits: seq<byte>, tail: seq<byte>)
    requires IsWhite(front) && AllDigits(digits) && digits != [] && (tail != [] ==> !(48 <= tail[0] <= 57))
    ensures Atoi(front + (digits + tail)) == PlaceValue(digits)
    ensures Atoi(front + ([43] + (digits + tail))) == PlaceValue(digits)
    ensures Atoi(front + ([45] + (digits + tail))) == 0 - PlaceValue(digits) as int
  {
    hide PlaceValue, Digits, Atoi;
    var s := digits + tail;
    DigitsWorth(digits, tail);
    AtoiSkips(front, s);
    AtoiSkips(front, [43] + s);
    AtoiSkips(front, [45] + s);
    SignedDigits(s, s);
    SignedDigits(s, [43] + s);
    SignedDigits(s, [45] + s);
  }

  /** strtoul and strtoull likewise; a negative number modulo 2^64, and 2^64 - 1 when it is too large. */
  lemma StrtoulReads(front: seq<byte>, digits: seq<byte>, tail: seq<byte>)
    requires IsWhite(front) && AllDigits(digits) && digits != [] && (tail != [] ==> !(48 <= tail[0] <= 57))
    ensures var n, plain := PlaceValue(digits), Strtoul(front + (digits + tail));
      plain == if n < 0x1_0000_0000_0000_0000 then n else 0xFFFF_FFFF_FFFF_FFFF
    ensures var n, negative := PlaceValue(digits), Strtoul(front + ([45] + (digits + tail)));
      && (n == 0 ==> negative == 0)
      && (0 < n < 0x1_0000_0000_0000_0000 ==> negative == 0x1_0000_0000_0000_0000 - n)
      && (n >= 0x1_0000_0000_0000_0000 ==> negative == 0xFFFF_FFFF_FFFF_FFFF)
  {
    hide PlaceValue, Digits, Atoi;
    AtoiReads(front, digits, tail);
  }
}
