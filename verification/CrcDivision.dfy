/** What compute_crc16 computes: the remainder of a polynomial division over the two-element field, bit by bit. */
module CrcDivision {
  import opened Bytes
  import opened Crc16

  // ----- long division of bit strings, highest power first -----

  /** x^16 + x^12 + x^5 + 1 */
  const DIVISOR: seq<bool> := [true, false, false, false, true, false, false, false, false, false, false, true, false,
                               false, false, false, true]

  /** m with r added at its front. */
  function Plus(m: seq<bool>, r: seq<bool>): (p: seq<bool>)
    ensures |p| == |m|
  {
    seq(|m|, i requires 0 <= i < |m| => if i < |r| then m[i] != r[i] else m[i])
  }

  /** The divisor is subtracted wherever the highest remaining coefficient is one, until sixteen are left. */
  function Remainder(m: seq<bool>): (r: seq<bool>)
    requires |m| >= 16
    ensures |r| == 16
    decreases |m|
  {
    if |m| == 16 then m else Remainder((if m[0] then Plus(m, DIVISOR) else m)[1..])
  }

  function Zeros(n: nat): (z: seq<bool>)
    ensures |z| == n
  {
    seq(n, _ => false)
  }

  /** Sixteen coefficients one. */
  function AllOnes(): (o: seq<bool>)
    ensures |o| == 16
  {
    seq(16, _ => true)
  }

  function ByteBits(b: octet): (m: seq<bool>)
    ensures |m| == 8
  {
    [b & 0x80 != 0, b & 0x40 != 0, b & 0x20 != 0, b & 0x10 != 0,
     b & 0x08 != 0, b & 0x04 != 0, b & 0x02 != 0, b & 0x01 != 0]
  }

  /** The bits of a message, highest bit of the first byte first. */
  function MessageBits(d: seq<octet>): (m: seq<bool>)
    ensures |m| == 8 * |d|
  {
    if d == [] then [] else MessageBits(d[..|d| - 1]) + ByteBits(d[|d| - 1])
  }

  // ----- the register as bits -----

  predicate IsSet(x: crc, mask: crc) {
    x & mask != 0
  }

  /** The i-th bit from the top. */
  function Mask(i: nat): crc
    requires i < 16
  {
    match i
    case 0 => 0x8000
    case 1 => 0x4000
    case 2 => 0x2000
    case 3 => 0x1000
    case 4 => 0x0800
    case 5 => 0x0400
    case 6 => 0x0200
    case 7 => 0x0100
    case 8 => 0x0080
    case 9 => 0x0040
    case 10 => 0x0020
    case 11 => 0x0010
    case 12 => 0x0008
    case 13 => 0x0004
    case 14 => 0x0002
    case _ => 0x0001
  }

  function RegisterBits(x: crc): (m: seq<bool>)
    ensures |m| == 16
  {
    seq(16, i requires 0 <= i < 16 => IsSet(x, Mask(i)))
  }

  /** One turn on the bits: shifted, and the divisor without its leading one added if a one was shifted out. */
  function StepBits(r: seq<bool>): (s: seq<bool>)
    requires |r| == 16
    ensures |s| == 16
  {
    if r[0] then Plus(r[1..] + [false], DIVISOR[1..]) else r[1..] + [false]
  }

  lemma ShiftedBit(x: crc, mask: crc, half: crc)
    requires half & 0x8000 == 0 && mask == half << 1
    ensures IsSet(x << 1, mask) == IsSet(x, half)
  {
  }

  lemma AddedBit(x: crc, y: crc, mask: crc)
    requires mask & (mask - 1) == 0
    ensures IsSet(x ^ y, mask) == (IsSet(x, mask) != IsSet(y, mask))
  {
  }

  lemma LowestBit(x: crc)
    ensures !IsSet(x << 1, 1)
  {
  }

  lemma OneBitEach(i: nat)
    requires i < 16
    ensures Mask(i) & (Mask(i) - 1) == 0
  {
  }

  lemma NextMask(i: nat)
    requires i < 15
    ensures Mask(i + 1) & 0x8000 == 0 && Mask(i) == Mask(i + 1) << 1
  {
  }

  lemma ShiftedBits(x: crc)
    ensures RegisterBits(x << 1) == RegisterBits(x)[1..] + [false]
  {
    hide IsSet;
    forall i | 0 <= i < 15 ensures RegisterBits(x << 1)[i] == RegisterBits(x)[1..][i] {
      NextMask(i);
      ShiftedBit(x, Mask(i), Mask(i + 1));
    }
    LowestBit(x);
  }

  lemma AddedBits(x: crc, y: crc)
    ensures RegisterBits(x ^ y) == Plus(RegisterBits(x), RegisterBits(y))
  {
    hide IsSet, Mask;
    forall i | 0 <= i < 16 ensures RegisterBits(x ^ y)[i] == (RegisterBits(x)[i] != RegisterBits(y)[i]) {
      OneBitEach(i);
      AddedBit(x, y, Mask(i));
    }
  }

  lemma PolynomialBits()
    ensures RegisterBits(0x1021) == DIVISOR[1..]
  {
  }

  lemma BitStepIs(x: crc)
    ensures BitStep(x) == if IsSet(x, 0x8000) then (x << 1) ^ 0x1021 else x << 1
  {
  }

  /** A turn of the code's inner loop is a turn on the bits. */
  lemma TurnOnBits(x: crc)
    ensures RegisterBits(BitStep(x)) == StepBits(RegisterBits(x))
  {
    hide IsSet, Plus, BitStep;
    BitStepIs(x);
    ShiftedBits(x);
    AddedBits(x << 1, 0x1021);
    PolynomialBits();
  }

  // ----- one bit of the message -----

  lemma OneBitAdded(r: seq<bool>, u: seq<bool>, m: seq<bool>, g: seq<bool>)
    requires |r| == 16 && |u| >= 16 && |g| == 17 && m == Plus([false] + u, r)
    ensures Plus(m, g)[1..] == Plus(u, Plus(r[1..] + [false], g[1..]))
  {
    forall i | 0 <= i < |u| ensures Plus(m, g)[1..][i] == Plus(u, Plus(r[1..] + [false], g[1..]))[i] {
      assert ([false] + u)[i + 1] == u[i];
    }
  }

  lemma OneBitKept(r: seq<bool>, u: seq<bool>, m: seq<bool>)
    requires |r| == 16 && |u| >= 16 && m == Plus([false] + u, r)
    ensures m[1..] == Plus(u, r[1..] + [false])
  {
    forall i | 0 <= i < |u| ensures m[1..][i] == Plus(u, r[1..] + [false])[i] {
      assert ([false] + u)[i + 1] == u[i];
    }
  }

  lemma DivisorLength()
    ensures |DIVISOR| == 17
  {
  }

  /** A turn takes one bit off the front of what is to be divided. */
  lemma OneBit(r: seq<bool>, u: seq<bool>)
    requires |r| == 16 && |u| >= 16
    ensures Remainder(Plus([false] + u, r)) == Remainder(Plus(u, StepBits(r)))
  {
    hide Remainder;
    var m := Plus([false] + u, r);
    assert m[0] == r[0];
    DivisorLength();
    Turned(m);
    if r[0] {
      OneBitAdded(r, u, m, DIVISOR);
    } else {
      OneBitKept(r, u, m);
    }
  }

  lemma Turned(m: seq<bool>)
    requires |m| > 16
    ensures m[0] ==> Remainder(m) == Remainder(Plus(m, DIVISOR)[1..])
    ensures !m[0] ==> Remainder(m) == Remainder(m[1..])
  {
    hide Plus;
  }

  lemma TurnTaken(x: crc, u: seq<bool>)
    requires |u| >= 16
    ensures Remainder(Plus([false] + u, RegisterBits(x))) == Remainder(Plus(u, RegisterBits(BitStep(x))))
  {
    hide Remainder, Plus, StepBits, RegisterBits, BitStep;
    OneBit(RegisterBits(x), u);
    TurnOnBits(x);
  }

  lemma {:induction false} TurnsTaken(x: crc, n: nat, tail: seq<bool>)
    requires |tail| >= 16
    ensures Remainder(Plus(Zeros(n) + tail, RegisterBits(x))) == Remainder(Plus(tail, RegisterBits(BitSteps(x, n))))
  {
    hide Remainder, Plus, RegisterBits, BitStep;
    if n == 0 {
      assert Zeros(0) + tail == tail;
    } else {
      var u := [false] + tail;
      assert Zeros(n) + tail == Zeros(n - 1) + u;
      TurnsTaken(x, n - 1, u);
      TurnTaken(BitSteps(x, n - 1), tail);
    }
  }

  // ----- one byte of the message -----

  lemma RaisedBit(b: octet, mask: octet)
    ensures IsSet(b as bv16 << 8, mask as bv16 << 8) == (b & mask != 0)
  {
  }

  lemma RaisedLow(b: octet, mask: crc)
    requires mask & 0xFF00 == 0
    ensures !IsSet(b as bv16 << 8, mask)
  {
  }

  lemma HighMask(i: nat, b: octet, y: crc)
    requires i < 8 && y == b as bv16 << 8
    ensures IsSet(y, Mask(i)) == ByteBits(b)[i]
  {
    hide IsSet;
    RaisedBit(b, 0x80);
    RaisedBit(b, 0x40);
    RaisedBit(b, 0x20);
    RaisedBit(b, 0x10);
    RaisedBit(b, 0x08);
    RaisedBit(b, 0x04);
    RaisedBit(b, 0x02);
    RaisedBit(b, 0x01);
  }

  lemma LowMask(i: nat)
    requires 8 <= i < 16
    ensures Mask(i) & 0xFF00 == 0
  {
  }

  lemma RaisedBits(b: octet, y: crc)
    requires y == b as bv16 << 8
    ensures RegisterBits(y) == ByteBits(b) + Zeros(8)
  {
    hide IsSet, Mask, ByteBits;
    forall i | 0 <= i < 16 ensures RegisterBits(y)[i] == (ByteBits(b) + Zeros(8))[i] {
      if i < 8 {
        HighMask(i, b, y);
      } else {
        LowMask(i);
        RaisedLow(b, Mask(i));
      }
    }
  }

  /** Adding a byte to the register is having it at the front of the message. */
  lemma MixedFront(r: seq<bool>, bits: seq<bool>, tail: seq<bool>)
    requires |r| == 16 && |bits| == 8 && |tail| >= 16
    ensures Plus(Zeros(8) + tail, Plus(r, bits + Zeros(8))) == Plus(bits + tail, r)
  {
  }

  lemma MixedBits(x: crc, b: octet, y: crc)
    requires y == b as bv16 << 8
    ensures RegisterBits(Mix(x, b)) == Plus(RegisterBits(x), ByteBits(b) + Zeros(8))
  {
    hide RegisterBits, Plus, Mix, ByteBits, Zeros;
    MixIs(x, b, y);
    AddedBits(x, y);
    RaisedBits(b, y);
  }

  lemma ByteTaken(x: crc, b: octet, tail: seq<bool>)
    requires |tail| >= 16
    ensures Remainder(Plus(ByteBits(b) + tail, RegisterBits(x)))
         == Remainder(Plus(tail, RegisterBits(ByteStep(x, b))))
  {
    hide Remainder, Plus, RegisterBits, ByteBits, Zeros, Bits8, Mix, BitSteps;
    var z := Mix(x, b);
    MixedBits(x, b, b as bv16 << 8);
    MixedFront(RegisterBits(x), ByteBits(b), tail);
    TurnsTaken(z, 8, tail);
    EightBits(z);
  }

  lemma {:induction false} DataTaken(x: crc, d: seq<octet>, tail: seq<bool>)
    requires |tail| >= 16
    ensures Remainder(Plus(MessageBits(d) + tail, RegisterBits(x)))
         == Remainder(Plus(tail, RegisterBits(Fold(ByteStep, x, d))))
    decreases |d|
  {
    hide Remainder, Plus, RegisterBits, ByteBits, ByteStep;
    if d == [] {
      assert MessageBits(d) + tail == tail;
    } else {
      var n := |d| - 1;
      Assoc(MessageBits(d[..n]), ByteBits(d[n]), tail);
      DataTaken(x, d[..n], ByteBits(d[n]) + tail);
      ByteTaken(Fold(ByteStep, x, d[..n]), d[n], tail);
    }
  }

  lemma StartBits()
    ensures RegisterBits(START) == AllOnes()
  {
  }

  lemma PlusZeros(r: seq<bool>)
    requires |r| == 16
    ensures Plus(Zeros(16), r) == r
  {
  }

  /** The checksum of every message: the message followed by sixteen zero bits, its first sixteen bits complemented,
      modulo x^16 + x^12 + x^5 + 1. */
  lemma CrcIsRemainder(d: seq<octet>)
    ensures RegisterBits(Crc(d)) == Remainder(Plus(MessageBits(d) + Zeros(16), AllOnes()))
  {
    hide Plus, RegisterBits, ByteStep, Zeros, AllOnes;
    DataTaken(START, d, Zeros(16));
    StartBits();
    PlusZeros(RegisterBits(Crc(d)));
  }

  // ----- what a valid frame is, in bits -----

  lemma NoBitSet(z: crc)
    requires z & 0x8000 == 0 && z & 0x4000 == 0 && z & 0x2000 == 0 && z & 0x1000 == 0
    requires z & 0x0800 == 0 && z & 0x0400 == 0 && z & 0x0200 == 0 && z & 0x0100 == 0
    requires z & 0x0080 == 0 && z & 0x0040 == 0 && z & 0x0020 == 0 && z & 0x0010 == 0
    requires z & 0x0008 == 0 && z & 0x0004 == 0 && z & 0x0002 == 0 && z & 0x0001 == 0
    ensures z == 0
  {
  }

  lemma ClearBits(z: crc)
    requires forall i :: 0 <= i < 16 ==> !RegisterBits(z)[i]
    ensures z == 0
  {
    assert !RegisterBits(z)[0] && !RegisterBits(z)[1] && !RegisterBits(z)[2] && !RegisterBits(z)[3];
    assert !RegisterBits(z)[4] && !RegisterBits(z)[5] && !RegisterBits(z)[6] && !RegisterBits(z)[7];
    assert !RegisterBits(z)[8] && !RegisterBits(z)[9] && !RegisterBits(z)[10] && !RegisterBits(z)[11];
    assert !RegisterBits(z)[12] && !RegisterBits(z)[13] && !RegisterBits(z)[14] && !RegisterBits(z)[15];
    NoBitSet(z);
  }

  /** The bits determine the register. */
  lemma BitsDetermine(x: crc, y: crc)
    requires RegisterBits(x) == RegisterBits(y)
    ensures x == y
  {
    hide RegisterBits;
    AddedBits(x, y);
    ClearBits(x ^ y);
    Cancelled(x, y);
  }

  lemma Cancelled(x: crc, y: crc)
    requires x ^ y == 0
    ensures x == y
  {
  }

  lemma LowByteBits(b: octet, x: crc)
    requires x == b as bv16
    ensures RegisterBits(x) == Zeros(8) + ByteBits(b)
  {
    hide ByteBits;
    forall i | 0 <= i < 16 ensures RegisterBits(x)[i] == (Zeros(8) + ByteBits(b))[i] {
      if i < 8 {
        HighMaskOfByte(i, b, x);
      } else {
        LowMaskOfByte(i, b, x);
      }
    }
  }

  lemma HighMaskOfByte(i: nat, b: octet, x: crc)
    requires i < 8 && x == b as bv16
    ensures !IsSet(x, Mask(i))
  {
  }

  lemma LowMaskOfByte(i: nat, b: octet, x: crc)
    requires 8 <= i < 16 && x == b as bv16
    ensures IsSet(x, Mask(i)) == ByteBits(b)[i - 8]
  {
  }

  lemma JoinIsSum(low: octet, high: octet)
    ensures Join(low, high) == (low as bv16) ^ (high as bv16 << 8)
  {
  }

  lemma SumOfParts(l: seq<bool>, h: seq<bool>)
    requires |l| == 8 && |h| == 8
    ensures Plus(Zeros(8) + l, h + Zeros(8)) == h + l
  {
  }

  lemma JoinedBits(low: octet, high: octet)
    ensures RegisterBits(Join(low, high)) == ByteBits(high) + ByteBits(low)
  {
    hide RegisterBits, Join, Plus, ByteBits;
    var x, y := low as bv16, high as bv16 << 8;
    JoinIsSum(low, high);
    AddedBits(x, y);
    LowByteBits(low, x);
    RaisedBits(high, y);
    SumOfParts(ByteBits(low), ByteBits(high));
  }

  /** A frame is valid exactly when its second byte counts the bytes between it and the last two, and the remainder of
      those, as above, is the last byte followed by the one in front of it. The code accepts it if it has at most 255
      bytes. */
  lemma ValidFrameIff(frame: seq<octet>)
    requires |frame| >= 4
    ensures IsValid(frame) <==>
      && frame[1] as int == |frame| - 4
      && Remainder(Plus(MessageBits(frame[2..|frame| - 2]) + Zeros(16), AllOnes()))
         == ByteBits(frame[|frame| - 1]) + ByteBits(frame[|frame| - 2])
    ensures Validates(frame) <==> IsValid(frame) && |frame| <= 255
  {
    hide Crc, RegisterBits, Join, Plus, ByteBits, Remainder, MessageBits;
    var payload, low, high := frame[2..|frame| - 2], frame[|frame| - 2], frame[|frame| - 1];
    CrcIsRemainder(payload);
    JoinedBits(low, high);
    if RegisterBits(Join(low, high)) == RegisterBits(Crc(payload)) {
      BitsDetermine(Join(low, high), Crc(payload));
    }
  }
}
