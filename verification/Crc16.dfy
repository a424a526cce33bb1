/** CRC-16 (polynomial 0x1021, start value 0xFFFF) and frame validation: compute_crc16, validate_crc16. */
module Crc16 {

  type octet = bv8
  type crc = bv16

  const START: crc := 0xFFFF

  /** One turn of the inner loop. */
  function BitStep(x: crc): crc {
    if x & 0x8000 != 0 then (x << 1) ^ 0x1021 else x << 1
  }

  /** The eight turns of the inner loop. */
  function Bits8(x: crc): crc {
    BitStep(BitStep(BitStep(BitStep(BitStep(BitStep(BitStep(BitStep(x))))))))
  }

  /** A data byte enters at the top of the register. */
  function Mix(x: crc, b: octet): crc {
    x ^ (b as bv16 << 8)
  }

  function ByteStep(x: crc, b: octet): crc {
    Bits8(Mix(x, b))
  }

  /** The register after data, for any way of taking in one byte. */
  function Fold<C, O>(step: (C, O) -> C, x: C, data: seq<O>): C
    decreases |data|
  {
    if data == [] then x else step(Fold(step, x, data[..|data| - 1]), data[|data| - 1])
  }

  function Crc(data: seq<octet>): crc {
    Fold(ByteStep, START, data)
  }

  /** The eight-bit loop counter of compute_crc16 after n increments. */
  function Counter(n: nat): (i: nat)
    ensures i < 256
  {
    if n == 0 then 0 else (Counter(n - 1) + 1) % 256
  }

  lemma {:induction false} CountsUp(n: nat)
    requires n < 256
    ensures Counter(n) == n
  {
    if n > 0 {
      CountsUp(n - 1);
    }
  }

  /** The loop of compute_crc16 ends exactly on fewer than 256 bytes, and then after one turn for each. */
  lemma LoopEndsIff(length: nat)
    ensures (exists n: nat :: Counter(n) >= length) <==> length < 256
    ensures length < 256 ==>
      Counter(length) == length && forall n: nat :: n < length ==> Counter(n) == n < length
  {
    if length < 256 {
      CountsUp(length);
      forall n: nat | n < length ensures Counter(n) == n {
        CountsUp(n);
      }
    }
  }

  /** compute_crc16 where its loop ends. */
  method ComputeCrc16(data: seq<octet>) returns (x: crc)
    requires |data| < 256
    ensures x == Crc(data)
  {
    x := START;
    for i := 0 to |data|
      invariant x == Fold(ByteStep, START, data[..i])
    {
      assert data[..i + 1][..i] == data[..i];
      x := TakeIn(x, data[i]);
    }
    assert data[..|data|] == data;
  }

  function BitSteps(x: crc, n: nat): crc {
    if n == 0 then x else BitStep(BitSteps(x, n - 1))
  }

  /** The body of the outer loop. */
  method TakeIn(start: crc, b: octet) returns (x: crc)
    ensures x == ByteStep(start, b)
  {
    x := start ^ (b as bv16 << 8);
    ghost var mixed := x;
    for i := 0 to 8
      invariant x == BitSteps(mixed, i)
    {
      x := Shift(x);
    }
    EightBits(mixed);
  }

  /** The body of the inner loop. */
  method Shift(start: crc) returns (x: crc)
    ensures x == BitStep(start)
  {
    x := start;
    if x & 0x8000 != 0 {
      x := (x << 1) ^ 0x1021;
    } else {
      x := x << 1;
    }
  }

  lemma EightBits(x: crc)
    ensures BitSteps(x, 8) == Bits8(x)
  {
    var s2, s4, s6 := BitSteps(x, 2), BitSteps(x, 4), BitSteps(x, 6);
    TwoMore(x, 0);
    TwoMore(x, 2);
    TwoMore(x, 4);
    TwoMore(x, 6);
  }

  lemma TwoMore(x: crc, n: nat)
    ensures BitSteps(x, n + 2) == BitStep(BitStep(BitSteps(x, n)))
    ensures BitSteps(x, 0) == x
  {
  }

  // ----- laws of any additive register -----

  function Zip<O>(plus: (O, O) -> O, d: seq<O>, e: seq<O>): (r: seq<O>)
    requires |d| == |e|
    ensures |r| == |d|
  {
    seq(|d|, i requires 0 <= i < |d| => plus(d[i], e[i]))
  }

  /** If each step is additive, registers and data may be combined before or after the whole computation. */
  lemma {:induction false} FoldAdditive<C(!new), O(!new)>(
      step: (C, O) -> C, plus: (C, C) -> C, also: (O, O) -> O, x: C, y: C, d: seq<O>, e: seq<O>)
    requires |d| == |e|
    requires forall x, y, a, b :: step(plus(x, y), also(a, b)) == plus(step(x, a), step(y, b))
    ensures plus(Fold(step, x, d), Fold(step, y, e)) == Fold(step, plus(x, y), Zip(also, d, e))
    decreases |d|
  {
    if d != [] {
      var n := |d| - 1;
      FoldAdditive(step, plus, also, x, y, d[..n], e[..n]);
      assert Zip(also, d, e)[..n] == Zip(also, d[..n], e[..n]);
    }
  }

  /** Idle bytes keep a register at rest, and keep it away from rest. */
  lemma {:induction false} FoldIdle<C(!new), O(!new)>(step: (C, O) -> C, rest: C, idle: O, x: C, d: seq<O>)
    requires forall x :: step(x, idle) == rest <==> x == rest
    requires forall i :: 0 <= i < |d| ==> d[i] == idle
    ensures Fold(step, x, d) == rest <==> x == rest
    decreases |d|
  {
    if d != [] {
      FoldIdle(step, rest, idle, x, d[..|d| - 1]);
    }
  }

  lemma {:induction false} FoldAppend<C, O>(step: (C, O) -> C, x: C, d: seq<O>, e: seq<O>)
    ensures Fold(step, x, d + e) == Fold(step, Fold(step, x, d), e)
    decreases |e|
  {
    if e == [] {
      assert d + e == d;
    } else {
      var n := |e| - 1;
      assert (d + e)[..|d + e| - 1] == d + e[..n];
      FoldAppend(step, x, d, e[..n]);
    }
  }

  /** A disturbance between idle stretches leaves the register away from rest exactly when it does so by itself. */
  lemma FoldIsolated<C(!new), O(!new)>(step: (C, O) -> C, rest: C, idle: O, before: seq<O>, mid: seq<O>, after: seq<O>)
    requires forall x :: step(x, idle) == rest <==> x == rest
    requires forall i :: 0 <= i < |before| ==> before[i] == idle
    requires forall i :: 0 <= i < |after| ==> after[i] == idle
    ensures Fold(step, rest, before + mid + after) == rest <==> Fold(step, rest, mid) == rest
  {
    FoldIdle(step, rest, idle, rest, before);
    FoldAppend(step, rest, before, mid);
    FoldAppend(step, rest, before + mid, after);
    FoldIdle(step, rest, idle, Fold(step, rest, before + mid), after);
  }

  // ----- this register is additive -----

  function Xor16(x: crc, y: crc): crc {
    x ^ y
  }

  function Xor8(a: octet, b: octet): octet {
    a ^ b
  }

  lemma BothHigh(x: crc, y: crc)
    requires x & 0x8000 != 0 && y & 0x8000 != 0
    ensures BitStep(Xor16(x, y)) == Xor16(BitStep(x), BitStep(y))
  {
  }

  lemma OneHigh(x: crc, y: crc)
    requires x & 0x8000 != 0 && y & 0x8000 == 0
    ensures BitStep(Xor16(x, y)) == Xor16(BitStep(x), BitStep(y))
    ensures BitStep(Xor16(y, x)) == Xor16(BitStep(y), BitStep(x))
  {
  }

  lemma NoneHigh(x: crc, y: crc)
    requires x & 0x8000 == 0 && y & 0x8000 == 0
    ensures BitStep(Xor16(x, y)) == Xor16(BitStep(x), BitStep(y))
  {
  }

  lemma BitStepXor(x: crc, y: crc)
    ensures BitStep(Xor16(x, y)) == Xor16(BitStep(x), BitStep(y))
  {
    if x & 0x8000 != 0 && y & 0x8000 != 0 {
      BothHigh(x, y);
    } else if x & 0x8000 != 0 {
      OneHigh(x, y);
    } else if y & 0x8000 != 0 {
      OneHigh(y, x);
    } else {
      NoneHigh(x, y);
    }
  }

  lemma FourBitsXor(x: crc, y: crc)
    ensures BitStep(BitStep(BitStep(BitStep(Xor16(x, y)))))
         == Xor16(BitStep(BitStep(BitStep(BitStep(x)))), BitStep(BitStep(BitStep(BitStep(y)))))
  {
    BitStepXor(x, y);
    BitStepXor(BitStep(x), BitStep(y));
    BitStepXor(BitStep(BitStep(x)), BitStep(BitStep(y)));
    BitStepXor(BitStep(BitStep(BitStep(x))), BitStep(BitStep(BitStep(y))));
  }

  lemma Bits8Xor(x: crc, y: crc)
    ensures Bits8(Xor16(x, y)) == Xor16(Bits8(x), Bits8(y))
  {
    FourBitsXor(x, y);
    FourBitsXor(BitStep(BitStep(BitStep(BitStep(x)))), BitStep(BitStep(BitStep(BitStep(y)))));
  }

  lemma MixXor(x: crc, y: crc, a: octet, b: octet)
    ensures Mix(Xor16(x, y), Xor8(a, b)) == Xor16(Mix(x, a), Mix(y, b))
  {
  }

  lemma ByteStepXor(x: crc, y: crc, a: octet, b: octet)
    ensures ByteStep(Xor16(x, y), Xor8(a, b)) == Xor16(ByteStep(x, a), ByteStep(y, b))
  {
    MixXor(x, y, a, b);
    Bits8Xor(Mix(x, a), Mix(y, b));
  }

  lemma ByteStepZero(x: crc)
    ensures ByteStep(x, 0) == 0 <==> x == 0
  {
  }

  lemma EqualIff(x: crc, y: crc)
    ensures x == y <==> Xor16(x, y) == 0
  {
    assert Xor16(x, x) == 0;
    assert Xor16(Xor16(x, y), y) == x && Xor16(0, y) == y;
  }

  /** Two checksums of equal length agree exactly when the difference of the data drives a zero register to zero. */
  lemma ChecksumsAgreeIff(d: seq<octet>, e: seq<octet>)
    requires |d| == |e|
    ensures Crc(d) == Crc(e) <==> Fold(ByteStep, 0, Zip(Xor8, d, e)) == 0
  {
    forall x, y, a, b ensures ByteStep(Xor16(x, y), Xor8(a, b)) == Xor16(ByteStep(x, a), ByteStep(y, b)) {
      ByteStepXor(x, y, a, b);
    }
    FoldAdditive(ByteStep, Xor16, Xor8, START, START, d, e);
    EqualIff(Crc(d), Crc(e));
    EqualIff(START, START);
  }

  // ----- bursts -----

  /** Error bits in three adjacent bytes, not all zero, that lie within sixteen consecutive bits: at most the low s
      bits of the first byte and the high 8 - s bits of the last. */
  predicate IsBurst(b: seq<octet>, s: nat) {
    && |b| == 3 && s <= 8 && b[0] >> s == 0 && b[2] << (8 - s) == 0
    && (b[0] != 0 || b[1] != 0 || b[2] != 0)
  }

  function Three(a: octet, b: octet, c: octet): crc {
    ByteStep(ByteStep(ByteStep(0, a), b), c)
  }

  /** No burst of at most sixteen bits drives a zero register to zero. */
  lemma BurstIsNotZero(b: seq<octet>, s: nat)
    requires IsBurst(b, s)
    ensures Three(b[0], b[1], b[2]) != 0
  {
  }

  lemma FoldOfThree(b: seq<octet>)
    requires |b| == 3
    ensures Fold(ByteStep, 0, b) == Three(b[0], b[1], b[2])
  {
    assert b[..2][..1] == b[..1] && b[..1][..0] == [];
    assert Fold(ByteStep, 0, b[..1]) == ByteStep(0, b[0]);
    assert Fold(ByteStep, 0, b[..2]) == ByteStep(ByteStep(0, b[0]), b[1]);
  }

  /** Two payloads of one length differ exactly by the three bytes b at byte k. */
  ghost predicate DiffersBy(d: seq<octet>, e: seq<octet>, k: nat, b: seq<octet>)
    requires |b| == 3
  {
    && |d| == |e|
    && (forall i :: 0 <= i < |d| ==> Xor8(d[i], e[i]) == if k <= i < k + 3 then b[i - k] else 0)
    && (forall j :: 0 <= j < 3 && k + j >= |d| ==> b[j] == 0)
  }

  function ZeroBytes(n: nat): (r: seq<octet>)
    ensures |r| == n
  {
    seq(n, _ => 0)
  }

  /** The difference, padded, is the disturbance between zero bytes. */
  lemma DifferenceLayout(d: seq<octet>, e: seq<octet>, k: nat, b: seq<octet>)
    requires |b| == 3 && DiffersBy(d, e, k, b)
    ensures Zip(Xor8, d, e) + ZeroBytes(k + 3) == ZeroBytes(k) + b + ZeroBytes(|d|)
  {
  }

  /** Every error confined to sixteen consecutive bits changes the checksum. */
  lemma BurstChangesCrc(d: seq<octet>, e: seq<octet>, k: nat, b: seq<octet>, s: nat)
    requires IsBurst(b, s) && DiffersBy(d, e, k, b)
    ensures Crc(d) != Crc(e)
  {
    BurstIsNotZero(b, s);
    DisturbanceChangesCrc(d, e, k, b);
  }

  lemma DisturbanceChangesCrc(d: seq<octet>, e: seq<octet>, k: nat, b: seq<octet>)
    requires |b| == 3 && DiffersBy(d, e, k, b) && Three(b[0], b[1], b[2]) != 0
    ensures Crc(d) != Crc(e)
  {
    var x := Zip(Xor8, d, e);
    forall r ensures ByteStep(r, 0) == 0 <==> r == 0 {
      ByteStepZero(r);
    }
    DifferenceLayout(d, e, k, b);
    FoldIsolated(ByteStep, 0, 0, ZeroBytes(k), b, ZeroBytes(|d|));
    FoldOfThree(b);
    FoldAppend(ByteStep, 0, x, ZeroBytes(k + 3));
    FoldIdle(ByteStep, 0, 0, Fold(ByteStep, 0, x), ZeroBytes(k + 3));
    ChecksumsAgreeIff(d, e);
  }

  // ----- odd numbers of errors -----

  function Bit(x: crc, mask: crc): nat {
    if x & mask != 0 then 1 else 0
  }

  /** The number of bits set. */
  function Ones(x: crc): nat {
    Bit(x, 0x1) + Bit(x, 0x2) + Bit(x, 0x4) + Bit(x, 0x8)
    + Bit(x, 0x10) + Bit(x, 0x20) + Bit(x, 0x40) + Bit(x, 0x80)
    + Bit(x, 0x100) + Bit(x, 0x200) + Bit(x, 0x400) + Bit(x, 0x800)
    + Bit(x, 0x1000) + Bit(x, 0x2000) + Bit(x, 0x4000) + Bit(x, 0x8000)
  }

  /** The number of bits set in data. */
  function OnesIn(d: seq<octet>): nat {
    if d == [] then 0 else OnesIn(d[..|d| - 1]) + Ones(d[|d| - 1] as bv16)
  }

  lemma BitXor(x: crc, y: crc, mask: crc)
    requires mask & (mask - 1) == 0
    ensures Bit(x ^ y, mask) + 2 * Bit(x & y, mask) == Bit(x, mask) + Bit(y, mask)
  {
  }

  /** Bits set in both operands cancel. */
  lemma OnesXor(x: crc, y: crc)
    ensures Ones(x ^ y) + 2 * Ones(x & y) == Ones(x) + Ones(y)
  {
    hide Bit;
    BitXor(x, y, 0x1);
    BitXor(x, y, 0x2);
    BitXor(x, y, 0x4);
    BitXor(x, y, 0x8);
    BitXor(x, y, 0x10);
    BitXor(x, y, 0x20);
    BitXor(x, y, 0x40);
    BitXor(x, y, 0x80);
    BitXor(x, y, 0x100);
    BitXor(x, y, 0x200);
    BitXor(x, y, 0x400);
    BitXor(x, y, 0x800);
    BitXor(x, y, 0x1000);
    BitXor(x, y, 0x2000);
    BitXor(x, y, 0x4000);
    BitXor(x, y, 0x8000);
  }

  lemma BitShifted(x: crc, mask: crc)
    ensures mask & 0x8000 == 0 ==> Bit(x << 1, mask << 1) == Bit(x, mask)
    ensures Bit(x << 1, 1) == 0
  {
  }

  /** Shifting loses no bit but the highest. */
  lemma OnesShifted(x: crc)
    ensures Ones(x << 1) + Bit(x, 0x8000) == Ones(x)
  {
    hide Bit;
    BitShifted(x, 0x1);
    BitShifted(x, 0x2);
    BitShifted(x, 0x4);
    BitShifted(x, 0x8);
    BitShifted(x, 0x10);
    BitShifted(x, 0x20);
    BitShifted(x, 0x40);
    BitShifted(x, 0x80);
    BitShifted(x, 0x100);
    BitShifted(x, 0x200);
    BitShifted(x, 0x400);
    BitShifted(x, 0x800);
    BitShifted(x, 0x1000);
    BitShifted(x, 0x2000);
    BitShifted(x, 0x4000);
  }

  lemma OnesOfConstants()
    ensures Ones(0) == 0 && Ones(0x1021) == 3
  {
  }

  /** The polynomial has an even number of terms, so a step keeps the parity of the register. */
  lemma StepKeepsParity(x: crc)
    ensures Ones(BitStep(x)) % 2 == Ones(x) % 2
  {
    hide Ones;
    OnesShifted(x);
    OnesXor(x << 1, 0x1021);
    OnesOfConstants();
  }

  lemma Bits8KeepParity(x: crc)
    ensures Ones(Bits8(x)) % 2 == Ones(x) % 2
  {
    hide BitStep, Ones;
    var a := BitStep(BitStep(x));
    var b := BitStep(BitStep(a));
    var c := BitStep(BitStep(b));
    StepKeepsParity(x);
    StepKeepsParity(BitStep(x));
    StepKeepsParity(a);
    StepKeepsParity(BitStep(a));
    StepKeepsParity(b);
    StepKeepsParity(BitStep(b));
    StepKeepsParity(c);
    StepKeepsParity(BitStep(c));
  }

  lemma BitRaised(b: octet, mask: crc)
    requires mask & 0xFF00 == 0
    ensures Bit(b as bv16 << 8, mask << 8) == Bit(b as bv16, mask)
    ensures Bit(b as bv16 << 8, mask) == 0 && Bit(b as bv16, mask << 8) == 0
  {
  }

  lemma OnesOfByte(b: octet)
    ensures Ones(b as bv16 << 8) == Ones(b as bv16)
  {
    hide Bit;
    BitRaised(b, 0x1);
    BitRaised(b, 0x2);
    BitRaised(b, 0x4);
    BitRaised(b, 0x8);
    BitRaised(b, 0x10);
    BitRaised(b, 0x20);
    BitRaised(b, 0x40);
    BitRaised(b, 0x80);
  }

  lemma MixIs(x: crc, b: octet, y: crc)
    requires y == b as bv16 << 8
    ensures Mix(x, b) == x ^ y
  {
  }

  lemma RaisedParity(x: crc, b: octet, y: crc)
    requires y == b as bv16 << 8
    ensures Ones(x ^ y) % 2 == (Ones(x) + Ones(b as bv16)) % 2
  {
    hide Ones;
    OnesXor(x, y);
    OnesOfByte(b);
  }

  lemma ByteStepParity(x: crc, b: octet)
    ensures Ones(ByteStep(x, b)) % 2 == (Ones(x) + Ones(b as bv16)) % 2
  {
    hide Ones, Bits8, Mix;
    var y := b as bv16 << 8;
    MixIs(x, b, y);
    RaisedParity(x, b, y);
    Bits8KeepParity(Mix(x, b));
  }

  /** The parity of the register is that of the data. */
  lemma {:induction false} FoldParity(d: seq<octet>)
    ensures Ones(Fold(ByteStep, 0, d)) % 2 == OnesIn(d) % 2
    decreases |d|
  {
    hide Ones, ByteStep;
    if d == [] {
      OnesOfConstants();
    } else {
      FoldParity(d[..|d| - 1]);
      ByteStepParity(Fold(ByteStep, 0, d[..|d| - 1]), d[|d| - 1]);
    }
  }

  /** Every error with an odd number of flipped bits changes the checksum. */
  lemma OddErrorChangesCrc(d: seq<octet>, e: seq<octet>)
    requires |d| == |e| && OnesIn(Zip(Xor8, d, e)) % 2 == 1
    ensures Crc(d) != Crc(e)
  {
    FoldParity(Zip(Xor8, d, e));
    OnesOfConstants();
    ChecksumsAgreeIff(d, e);
  }

  // ----- frames -----

  /** Start byte, length byte, payload, checksum with the low byte first. */
  function Frame(start: octet, length: octet, payload: seq<octet>, low: octet, high: octet): seq<octet> {
    [start, length] + payload + [low, high]
  }

  function Low(x: crc): octet {
    (x & 0xFF) as octet
  }

  function High(x: crc): octet {
    ((x >> 8) & 0xFF) as octet
  }

  function Join(low: octet, high: octet): crc {
    low as bv16 | (high as bv16 << 8)
  }

  lemma JoinOfParts(x: crc)
    ensures Join(Low(x), High(x)) == x
  {
  }

  lemma PartsOfJoin(low: octet, high: octet)
    ensures Low(Join(low, high)) == low && High(Join(low, high)) == high
  {
  }

  /** What a valid frame is, without wrap-around: the length byte counts the payload, and the checksum is right. */
  predicate IsValid(frame: seq<octet>) {
    && |frame| >= 4 && frame[1] as int == |frame| - 4
    && Join(frame[|frame| - 2], frame[|frame| - 1]) == Crc(frame[2..|frame| - 2])
  }

  lemma ExpectedTotal(n: int, total: int)
    requires 0 <= n < 256 && 4 <= total
    ensures (1 + 1 + n + 2) % 256 == total ==> n == total - 4
    ensures n == total - 4 && n <= 251 ==> (1 + 1 + n + 2) % 256 == total
  {
  }

  /** What the code accepts: its expected total is kept in eight bits, so more than 251 payload bytes never pass. */
  predicate Validates(frame: seq<octet>) {
    IsValid(frame) && |frame| <= 255
  }

  /** validate_crc16, with its expected total kept in eight bits. */
  method ValidateCrc16(frame: seq<octet>) returns (valid: bool)
    ensures valid <==> Validates(frame)
  {
    var total := |frame|;
    if total < 4 {
      return false;
    }
    var payloadLen := frame[1] as int;
    ExpectedTotal(payloadLen, total);
    var expectedTotal := (1 + 1 + payloadLen + 2) % 256;
    if expectedTotal != total {
      return false;
    }
    var received := frame[total - 2] as bv16 | (frame[total - 1] as bv16 << 8);
    assert received == Join(frame[total - 2], frame[total - 1]);
    var computed := ComputeCrc16(frame[2..2 + payloadLen]);
    return received == computed;
  }

  /** A frame of these parts is valid exactly when the length byte is the payload length and the checksum matches. */
  lemma ValidIff(start: octet, length: octet, payload: seq<octet>, low: octet, high: octet)
    ensures IsValid(Frame(start, length, payload, low, high))
       <==> length as int == |payload| && Join(low, high) == Crc(payload)
  {
    var f := Frame(start, length, payload, low, high);
    assert f[2..|f| - 2] == payload;
  }

  /** A frame built from its payload is valid, and the code accepts it exactly up to 251 payload bytes. */
  lemma WellFormedValidates(start: octet, length: octet, payload: seq<octet>)
    requires length as int == |payload|
    ensures var x := Crc(payload); var f := Frame(start, length, payload, Low(x), High(x));
      IsValid(f) && (Validates(f) <==> |payload| <= 251)
  {
    var x := Crc(payload);
    JoinOfParts(x);
    ValidIff(start, length, payload, Low(x), High(x));
  }

  /** Error detection: no burst of up to sixteen bits in the payload, no odd number of flipped bits in it, no change
      of the length byte and no change of the checksum bytes of a valid frame gives a valid frame. */
  lemma ErrorsDetected(start: octet, length: octet, payload: seq<octet>, low: octet, high: octet)
    requires IsValid(Frame(start, length, payload, low, high))
    ensures forall e: seq<octet>, k: nat, b: seq<octet>, s: nat :: IsBurst(b, s) && DiffersBy(payload, e, k, b) ==>
      !IsValid(Frame(start, length, e, low, high))
    ensures forall e: seq<octet> :: |e| == |payload| && OnesIn(Zip(Xor8, payload, e)) % 2 == 1 ==>
      !IsValid(Frame(start, length, e, low, high))
    ensures forall l: octet :: l != length ==> !IsValid(Frame(start, l, payload, low, high))
    ensures forall l: octet, h: octet :: l != low || h != high ==> !IsValid(Frame(start, length, payload, l, h))
  {
    ValidIff(start, length, payload, low, high);
    forall e: seq<octet>, k: nat, b: seq<octet>, s: nat | IsBurst(b, s) && DiffersBy(payload, e, k, b)
      ensures !IsValid(Frame(start, length, e, low, high))
    {
      BurstChangesCrc(payload, e, k, b, s);
      ValidIff(start, length, e, low, high);
    }
    forall e: seq<octet> | |e| == |payload| && OnesIn(Zip(Xor8, payload, e)) % 2 == 1
      ensures !IsValid(Frame(start, length, e, low, high))
    {
      OddErrorChangesCrc(payload, e);
      ValidIff(start, length, e, low, high);
    }
    forall l: octet | l != length ensures !IsValid(Frame(start, l, payload, low, high)) {
      ValidIff(start, l, payload, low, high);
      DifferentLengths(l, length);
    }
    forall l: octet, h: octet | l != low || h != high ensures !IsValid(Frame(start, length, payload, l, h)) {
      ValidIff(start, length, payload, l, h);
      PartsOfJoin(low, high);
      PartsOfJoin(l, h);
    }
  }

  lemma DifferentLengths(a: octet, b: octet)
    requires a != b
    ensures a as int != b as int
  {
  }

  /** The start byte is outside the checksum: changing it is never noticed. */
  lemma StartByteUnprotected(start: octet, other: octet, length: octet, payload: seq<octet>, low: octet, high: octet)
    ensures IsValid(Frame(start, length, payload, low, high)) <==> IsValid(Frame(other, length, payload, low, high))
  {
    ValidIff(start, length, payload, low, high);
    ValidIff(other, length, payload, low, high);
  }
}
