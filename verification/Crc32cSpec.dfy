/** The CRC-32C register as a linear machine over GF(2).

  `BitStep` shifts one zero bit through the reflected register; `Feed` runs a whole buffer
  through it.  Everything the fast implementations rely on follows from two facts about
  `BitStep`: it is linear, and it is injective.  The lemmas here lift these to buffers.

  The bit-vector operators are wrapped in small functions, which most proofs hide: an
  induction needs the laws of exclusive-or, not its bits. */
module Crc32cSpec {

  /** The CRC-32C generator in reversed bit order. */
  const POLY: bv32 := 0x82f63b78

  const ONES: bv32 := 0xffffffff

  type Bytes = seq<bv8>

  function Weight(on: bool, w: nat): nat { if on then w else 0 }

  function Nibble(a: bool, b: bool, c: bool, d: bool): (n: nat)
    ensures n < 16
  {
    Weight(a, 1) + Weight(b, 2) + Weight(c, 4) + Weight(d, 8)
  }

  /** The number a byte stands for, by its bits, and the byte for a number. */
  function ByteValue(b: bv8): (n: nat)
    ensures n < 256
  {
    Nibble(b & 1 != 0, b & 2 != 0, b & 4 != 0, b & 8 != 0)
    + 16 * Nibble(b & 16 != 0, b & 32 != 0, b & 64 != 0, b & 128 != 0)
  }

  function Bit(n: nat, w: nat, b: bv8): bv8
    requires w > 0
  {
    if n / w % 2 == 1 then b else 0
  }

  function ByteOf(n: nat): bv8
    requires n < 256
  {
    Bit(n, 1, 1) | Bit(n, 2, 2) | Bit(n, 4, 4) | Bit(n, 8, 8)
    | Bit(n, 16, 16) | Bit(n, 32, 32) | Bit(n, 64, 64) | Bit(n, 128, 128)
  }

  /** The bits of a byte are the binary digits of its number. */
  lemma BitsOfByte(n: nat)
    requires n < 256
    ensures var b := ByteOf(n);
            && (b & 1 != 0 <==> n / 1 % 2 == 1) && (b & 2 != 0 <==> n / 2 % 2 == 1)
            && (b & 4 != 0 <==> n / 4 % 2 == 1) && (b & 8 != 0 <==> n / 8 % 2 == 1)
            && (b & 16 != 0 <==> n / 16 % 2 == 1) && (b & 32 != 0 <==> n / 32 % 2 == 1)
            && (b & 64 != 0 <==> n / 64 % 2 == 1) && (b & 128 != 0 <==> n / 128 % 2 == 1)
  {}

  function Digit(n: nat, w: nat): nat
    requires w > 0
  {
    n / w % 2
  }

  lemma DigitStep(n: nat, w: nat)
    requires w in {1, 2, 4, 8, 16, 32, 64}
    ensures n / w == Digit(n, w) + 2 * (n / (2 * w)) && Digit(n, w) < 2
  {}

  lemma SumOfBits(n: nat)
    requires n < 256
    ensures n == Digit(n, 1) + 2 * Digit(n, 2) + 4 * Digit(n, 4) + 8 * Digit(n, 8)
                 + 16 * Digit(n, 16) + 32 * Digit(n, 32) + 64 * Digit(n, 64) + 128 * Digit(n, 128)
  {
    DigitStep(n, 1);
    DigitStep(n, 2);
    DigitStep(n, 4);
    DigitStep(n, 8);
    DigitStep(n, 16);
    DigitStep(n, 32);
    DigitStep(n, 64);
    assert n / 1 == n && n / 128 < 2 && Digit(n, 128) == n / 128;
    hide Digit;
  }

  lemma WeighedDigits(n: nat)
    requires n < 256
    ensures var b := ByteOf(n);
            && Weight(b & 1 != 0, 1) == Digit(n, 1) && Weight(b & 2 != 0, 2) == 2 * Digit(n, 2)
            && Weight(b & 4 != 0, 4) == 4 * Digit(n, 4) && Weight(b & 8 != 0, 8) == 8 * Digit(n, 8)
            && Weight(b & 16 != 0, 1) == Digit(n, 16) && Weight(b & 32 != 0, 2) == 2 * Digit(n, 32)
            && Weight(b & 64 != 0, 4) == 4 * Digit(n, 64) && Weight(b & 128 != 0, 8) == 8 * Digit(n, 128)
  {
    BitsOfByte(n);
    hide ByteOf;
  }

  lemma ValueOfByte(n: nat)
    requires n < 256
    ensures ByteValue(ByteOf(n)) == n
  {
    WeighedDigits(n);
    SumOfBits(n);
    hide ByteOf, Weight, Digit;
  }

  lemma ByteValueInjective(a: bv8, b: bv8)
    requires ByteValue(a) == ByteValue(b)
    ensures a == b
  {
    assert a & 128 == b & 128;
    assert a & 64 == b & 64;
    assert a & 32 == b & 32;
    assert a & 16 == b & 16;
    assert a & 8 == b & 8;
    assert a & 4 == b & 4;
    assert a & 2 == b & 2;
    assert a & 1 == b & 1;
  }

  lemma ByteOfValue(b: bv8)
    ensures ByteOf(ByteValue(b)) == b
  {
    hide ByteOf, ByteValue;
    ValueOfByte(ByteValue(b));
    ByteValueInjective(ByteOf(ByteValue(b)), b);
  }

  lemma ByteNumbered(n: nat)
    requires n < 256
    ensures forall b: bv8 {:trigger ByteValue(b)} :: ByteValue(b) == n <==> b == ByteOf(n)
  {
    hide ByteOf, ByteValue;
    ValueOfByte(n);
    forall b: bv8
      ensures ByteOf(ByteValue(b)) == b
    {
      ByteOfValue(b);
    }
  }

  function Xor(a: bv32, b: bv32): bv32 { a ^ b }

  function Half(x: bv32): bv32 { x >> 1 }

  /** `row` if the low bit of `x` is set, else zero. */
  function Pick(x: bv32, row: bv32): bv32 { if x & 1 == 1 then row else 0 }

  function Wide(b: bv8): bv32 { b as bv32 }

  function BitStep(x: bv32): bv32 {
    Xor(Half(x), Pick(x, POLY))
  }

  function BitSteps(x: bv32, n: nat): bv32
    decreases n
  {
    if n == 0 then x else BitSteps(BitStep(x), n - 1)
  }

  /** One byte through the register, least significant bit first. */
  function ByteStep(crc: bv32, b: bv8): bv32 {
    BitSteps(Xor(crc, Wide(b)), 8)
  }

  function Feed(crc: bv32, s: Bytes): bv32
    decreases |s|
  {
    if s == [] then crc else Feed(ByteStep(crc, s[0]), s[1..])
  }

  /** The checksum of a buffer, continuing from the checksum `crc` of what came before. */
  function Crc32c(crc: bv32, s: Bytes): bv32 {
    Xor(Feed(Xor(crc, ONES), s), ONES)
  }

  // ----- Laws of exclusive-or

  lemma XorIs(a: bv32, b: bv32, c: bv32)
    ensures Xor(a, b) == a ^ b
    ensures Xor(a ^ b, c) == Xor(a, b ^ c)
  {}

  lemma XorAssoc(a: bv32, b: bv32, c: bv32)
    ensures Xor(Xor(a, b), c) == Xor(a, Xor(b, c))
  {
    hide Xor;
    XorIs(a, b, c);
    XorIs(b, c, a);
  }

  lemma XorComm(a: bv32, b: bv32)
    ensures Xor(a, b) == Xor(b, a)
  {}

  lemma XorUnit(a: bv32)
    ensures Xor(a, 0) == a && Xor(0, a) == a && Xor(a, a) == 0
  {}

  lemma XorCancel(a: bv32, b: bv32)
    ensures Xor(Xor(a, b), b) == a
    ensures Xor(a, b) == 0 <==> a == b
  {
    hide Xor;
    XorAssoc(a, b, b);
    XorUnit(a);
    XorUnit(b);
  }

  /** Two sums of two, regrouped. */
  lemma XorExchange(a: bv32, b: bv32, c: bv32, d: bv32)
    ensures Xor(Xor(a, b), Xor(c, d)) == Xor(Xor(a, c), Xor(b, d))
  {
    hide Xor;
    XorAssoc(a, b, Xor(c, d));
    XorAssoc(b, c, d);
    XorComm(b, c);
    XorAssoc(c, b, d);
    XorAssoc(a, c, Xor(b, d));
  }

  // ----- The bit step is linear and injective

  lemma HalfLinear(a: bv32, b: bv32)
    ensures Half(Xor(a, b)) == Xor(Half(a), Half(b))
  {}

  lemma PickLinear(a: bv32, b: bv32, row: bv32)
    ensures Pick(Xor(a, b), row) == Xor(Pick(a, row), Pick(b, row))
  {
    assert (a ^ b) & 1 == (a & 1) ^ (b & 1);
    assert a & 1 == 0 || a & 1 == 1;
    assert b & 1 == 0 || b & 1 == 1;
  }

  lemma BitStepLinear(a: bv32, b: bv32)
    ensures BitStep(Xor(a, b)) == Xor(BitStep(a), BitStep(b))
  {
    hide Xor, Half, Pick;
    HalfLinear(a, b);
    PickLinear(a, b, POLY);
    XorExchange(Half(a), Half(b), Pick(a, POLY), Pick(b, POLY));
  }

  lemma BitStepInjective(a: bv32, b: bv32)
    requires BitStep(a) == BitStep(b)
    ensures a == b
  {}

  lemma {:induction false} BitStepsLinear(a: bv32, b: bv32, n: nat)
    ensures BitSteps(Xor(a, b), n) == Xor(BitSteps(a, n), BitSteps(b, n))
    decreases n
  {
    hide BitStep, Xor;
    if n > 0 {
      BitStepLinear(a, b);
      BitStepsLinear(BitStep(a), BitStep(b), n - 1);
    }
  }

  lemma {:induction false} BitStepsInjective(a: bv32, b: bv32, n: nat)
    requires BitSteps(a, n) == BitSteps(b, n)
    ensures a == b
    decreases n
  {
    hide BitStep;
    if n > 0 {
      BitStepsInjective(BitStep(a), BitStep(b), n - 1);
      BitStepInjective(a, b);
    }
  }

  lemma {:induction false} BitStepsAdd(x: bv32, m: nat, n: nat)
    ensures BitSteps(x, m + n) == BitSteps(BitSteps(x, m), n)
    decreases m
  {
    hide BitStep;
    if m > 0 {
      BitStepsAdd(BitStep(x), m - 1, n);
    }
  }

  // ----- Buffers

  lemma {:induction false} FeedConcat(crc: bv32, s: Bytes, t: Bytes)
    ensures Feed(crc, s + t) == Feed(Feed(crc, s), t)
    decreases |s|
  {
    hide ByteStep;
    if s == [] {
      assert s + t == t;
    } else {
      assert (s + t)[1..] == s[1..] + t;
      FeedConcat(ByteStep(crc, s[0]), s[1..], t);
    }
  }

  lemma FeedSnoc(crc: bv32, s: Bytes, b: bv8)
    ensures Feed(crc, s + [b]) == ByteStep(Feed(crc, s), b)
  {
    hide ByteStep;
    FeedConcat(crc, s, [b]);
    var c := Feed(crc, s);
    assert Feed(c, [b]) == Feed(ByteStep(c, b), []);
  }

  /** Superposition: the seed and the message travel through the register independently. */
  lemma {:induction false} FeedSuperpose(a: bv32, b: bv32, s: Bytes)
    ensures Feed(Xor(a, b), s) == Xor(BitSteps(a, 8 * |s|), Feed(b, s))
    decreases |s|
  {
    hide Xor, Wide, BitStep;
    if s != [] {
      XorAssoc(a, b, Wide(s[0]));
      BitStepsLinear(a, Xor(b, Wide(s[0])), 8);
      FeedSuperpose(BitSteps(a, 8), ByteStep(b, s[0]), s[1..]);
      BitStepsAdd(a, 8, 8 * |s[1..]|);
      assert 8 + 8 * |s[1..]| == 8 * |s|;
    }
  }

  lemma FeedFromZero(crc: bv32, s: Bytes)
    ensures Feed(crc, s) == Xor(BitSteps(crc, 8 * |s|), Feed(0, s))
  {
    hide Xor, Feed, BitSteps;
    XorUnit(crc);
    FeedSuperpose(crc, 0, s);
  }

  /** For a fixed buffer, distinct registers stay distinct. */
  lemma FeedInjective(a: bv32, b: bv32, s: Bytes)
    requires Feed(a, s) == Feed(b, s)
    ensures a == b
  {
    hide Xor, Feed, BitSteps;
    FeedFromZero(a, s);
    FeedFromZero(b, s);
    XorCancel(BitSteps(a, 8 * |s|), Feed(0, s));
    XorCancel(BitSteps(b, 8 * |s|), Feed(0, s));
    BitStepsInjective(a, b, 8 * |s|);
  }

  function Zeros(n: nat): (s: Bytes)
    ensures |s| == n
  {
    seq(n, _ => 0)
  }

  /** Feeding zero bytes is the zeros operator. */
  lemma {:induction false} FeedZeros(crc: bv32, n: nat)
    ensures Feed(crc, Zeros(n)) == BitSteps(crc, 8 * n)
    decreases n
  {
    hide Xor, BitStep;
    if n > 0 {
      assert Zeros(n)[1..] == Zeros(n - 1);
      XorUnit(crc);
      FeedZeros(BitSteps(crc, 8), n - 1);
      BitStepsAdd(crc, 8, 8 * (n - 1));
    }
  }

  /** A checksum may be computed piecewise, empty pieces included. */
  lemma Crc32cStreams(crc: bv32, s: Bytes, t: Bytes)
    ensures Crc32c(Crc32c(crc, s), t) == Crc32c(crc, s + t)
    ensures Crc32c(crc, []) == crc
  {
    hide Xor, ByteStep;
    FeedConcat(Xor(crc, ONES), s, t);
    XorCancel(Feed(Xor(crc, ONES), s), ONES);
    XorCancel(crc, ONES);
  }

  // ----- The low byte decides the next eight steps

  predicate Even(z: bv32) { z & 1 == 0 }

  function Halves(z: bv32, n: nat): bv32
    decreases n
  {
    if n == 0 then z else Halves(Half(z), n - 1)
  }

  ghost predicate AllEven(z: bv32, n: nat)
    decreases n
  {
    n > 0 ==> Even(z) && AllEven(Half(z), n - 1)
  }

  lemma EvenStep(z: bv32)
    requires Even(z)
    ensures BitStep(z) == Half(z)
  {}

  lemma {:induction false} EvenSteps(z: bv32, n: nat)
    requires AllEven(z, n)
    ensures BitSteps(z, n) == Halves(z, n)
    decreases n
  {
    hide Even, Half, BitStep;
    if n > 0 {
      EvenStep(z);
      EvenSteps(Half(z), n - 1);
    }
  }

  function LowByte(x: bv32): bv32 { x & 0xff }

  function HighBytes(x: bv32): bv32 { x & 0xffffff00 }

  function ShiftByte(x: bv32): bv32 { x >> 8 }

  function Half4(z: bv32): bv32 { Half(Half(Half(Half(z)))) }

  lemma EightHalves(z: bv32)
    ensures Halves(z, 8) == Half4(Half4(z))
  {
    hide Half;
    assert Halves(z, 8) == Halves(Half(Half(z)), 6) == Halves(Half4(z), 4);
    assert Halves(Half4(z), 4) == Halves(Half(Half(Half4(z))), 2);
  }

  lemma HighBytesShift(x: bv32)
    ensures Half4(Half4(HighBytes(x))) == ShiftByte(x)
  {}

  lemma HighBytesEven(x: bv32)
    ensures AllEven(HighBytes(x), 8)
  {
    hide Even, Half, HighBytes;
    var z := HighBytes(x);
    var y := Half4(z);
    HighBytesBits(x);
    assert AllEven(y, 4) by {
      assert AllEven(Half(Half(y)), 2);
    }
    assert AllEven(Half(Half(z)), 6);
  }

  lemma HighBytesBits(x: bv32)
    ensures var z := HighBytes(x); var y := Half4(z);
            && Even(z) && Even(Half(z)) && Even(Half(Half(z))) && Even(Half(Half(Half(z))))
            && Even(y) && Even(Half(y)) && Even(Half(Half(y))) && Even(Half(Half(Half(y))))
  {}

  lemma SplitLowByte(x: bv32)
    ensures x == Xor(LowByte(x), HighBytes(x))
  {}

  /** Eight steps need a table of the low byte only: the rest just shifts down. */
  lemma LowByteDecides(x: bv32)
    ensures BitSteps(x, 8) == Xor(BitSteps(LowByte(x), 8), ShiftByte(x))
  {
    hide BitSteps, Xor, LowByte, HighBytes, ShiftByte, Halves, AllEven, Half4;
    SplitLowByte(x);
    BitStepsLinear(LowByte(x), HighBytes(x), 8);
    EightHalves(HighBytes(x));
    HighBytesShift(x);
    HighBytesEven(x);
    EvenSteps(HighBytes(x), 8);
  }
}
