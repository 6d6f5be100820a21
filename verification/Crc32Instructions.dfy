/** The two hardware instructions of the fast checksum: `crc32b` runs eight bit steps,
  `crc32q` runs sixty-four on a little-endian quadword.  Both read the low half of a
  64-bit register and clear its high half. */
module Crc32Instructions {
  import opened Crc32cSpec

  function Xor64(a: bv64, b: bv64): bv64 { a ^ b }

  function Half64(x: bv64): bv64 { x >> 1 }

  function Pick64(x: bv64): bv64 { if x & 1 == 1 then POLY as bv64 else 0 }

  function Extend(x: bv32): bv64 { x as bv64 }

  function Low32(x: bv64): bv32 { (x & 0xffff_ffff) as bv32 }

  function Wide64(b: bv8): bv64 { b as bv64 }

  function ShiftUp(x: bv64): bv64 { x << 8 }

  function BitStep64(x: bv64): bv64 {
    Xor64(Half64(x), Pick64(x))
  }

  function BitSteps64(x: bv64, n: nat): bv64
    decreases n
  {
    if n == 0 then x else BitSteps64(BitStep64(x), n - 1)
  }

  /** The bytes of `s` as a little-endian number. */
  function LittleEndian(s: Bytes): bv64
    decreases |s|
  {
    if s == [] then 0 else Wide64(s[0]) | ShiftUp(LittleEndian(s[1..]))
  }

  function Crc32b(reg: bv64, b: bv8): bv64 {
    Extend(ByteStep(Low32(reg), b))
  }

  function Crc32q(reg: bv64, quad: bv64): bv64 {
    Extend(Low32(BitSteps64(Xor64(Extend(Low32(reg)), quad), 64)))
  }

  // ----- Word-level facts

  lemma Xor64Is(a: bv64, b: bv64, c: bv64)
    ensures Xor64(a, b) == a ^ b
    ensures Xor64(a ^ b, c) == Xor64(a, b ^ c)
  {}

  lemma Xor64Assoc(a: bv64, b: bv64, c: bv64)
    ensures Xor64(Xor64(a, b), c) == Xor64(a, Xor64(b, c))
  {
    hide Xor64;
    Xor64Is(a, b, c);
    Xor64Is(b, c, a);
  }

  lemma Xor64Comm(a: bv64, b: bv64)
    ensures Xor64(a, b) == Xor64(b, a)
  {}

  lemma Xor64Exchange(a: bv64, b: bv64, c: bv64, d: bv64)
    ensures Xor64(Xor64(a, b), Xor64(c, d)) == Xor64(Xor64(a, c), Xor64(b, d))
  {
    hide Xor64;
    Xor64Assoc(a, b, Xor64(c, d));
    Xor64Assoc(b, c, d);
    Xor64Comm(b, c);
    Xor64Assoc(c, b, d);
    Xor64Assoc(a, c, Xor64(b, d));
  }

  lemma Xor64Zero(a: bv64)
    ensures Xor64(a, 0) == a
  {}

  lemma Half64Linear(a: bv64, b: bv64)
    ensures Half64(Xor64(a, b)) == Xor64(Half64(a), Half64(b))
  {}

  lemma Pick64Linear(a: bv64, b: bv64)
    ensures Pick64(Xor64(a, b)) == Xor64(Pick64(a), Pick64(b))
  {
    assert (a ^ b) & 1 == (a & 1) ^ (b & 1);
    assert a & 1 == 0 || a & 1 == 1;
    assert b & 1 == 0 || b & 1 == 1;
  }

  lemma BitStep64Linear(a: bv64, b: bv64)
    ensures BitStep64(Xor64(a, b)) == Xor64(BitStep64(a), BitStep64(b))
  {
    hide Xor64, Half64, Pick64;
    Half64Linear(a, b);
    Pick64Linear(a, b);
    Xor64Exchange(Half64(a), Half64(b), Pick64(a), Pick64(b));
  }

  lemma {:induction false} BitSteps64Linear(a: bv64, b: bv64, n: nat)
    ensures BitSteps64(Xor64(a, b), n) == Xor64(BitSteps64(a, n), BitSteps64(b, n))
    decreases n
  {
    hide BitStep64, Xor64;
    if n > 0 {
      BitStep64Linear(a, b);
      BitSteps64Linear(BitStep64(a), BitStep64(b), n - 1);
    }
  }

  lemma {:induction false} BitSteps64Add(x: bv64, m: nat, n: nat)
    ensures BitSteps64(x, m + n) == BitSteps64(BitSteps64(x, m), n)
    decreases m
  {
    hide BitStep64;
    if m > 0 {
      BitSteps64Add(BitStep64(x), m - 1, n);
    }
  }

  lemma ExtendHalf(x: bv32)
    ensures Half64(Extend(x)) == Extend(Half(x))
  {
    hide Half, Half64;
    HalfOfWide(x);
  }

  lemma HalfOfWide(x: bv32)
    ensures Half64(x as bv64) == Half(x) as bv64
  {}

  lemma ExtendPick(x: bv32)
    ensures Pick64(Extend(x)) == Extend(Pick(x, POLY))
  {
    assert (x as bv64) & 1 == 1 <==> x & 1 == 1;
  }

  lemma ExtendXor(x: bv32, y: bv32)
    ensures Xor64(Extend(x), Extend(y)) == Extend(Xor(x, y))
  {}

  lemma BitStep64Extends(x: bv32)
    ensures BitStep64(Extend(x)) == Extend(BitStep(x))
  {
    hide Xor64, Half64, Pick64, Extend, Xor, Half, Pick;
    ExtendHalf(x);
    ExtendPick(x);
    ExtendXor(Half(x), Pick(x, POLY));
  }

  /** A 32-bit register runs through the 64-bit datapath unchanged. */
  lemma {:induction false} BitSteps64Extends(x: bv32, n: nat)
    ensures BitSteps64(Extend(x), n) == Extend(BitSteps(x, n))
    decreases n
  {
    hide BitStep64, Extend, BitStep;
    if n > 0 {
      BitStep64Extends(x);
      BitSteps64Extends(BitStep(x), n - 1);
    }
  }

  lemma ExtendLow(x: bv32)
    ensures Low32(Extend(x)) == x
  {}

  lemma ExtendWide(b: bv8)
    ensures Wide64(b) == Extend(Wide(b))
  {}

  // ----- Sixty-four steps on a quadword are eight byte steps

  function HighMask(k: nat): bv64 {
    if k == 0 then 0xffff_ffff_ffff_ffff else ShiftUp(HighMask(k - 1))
  }

  function And64(a: bv64, b: bv64): bv64 { a & b }

  lemma MaskShift(w: bv64, b: bv8, mask: bv64)
    requires And64(w, mask) == 0
    ensures And64(Wide64(b) | ShiftUp(w), ShiftUp(mask)) == 0
  {}

  lemma MaskZero(mask: bv64)
    ensures And64(0, mask) == 0
  {}

  lemma {:induction false} LittleEndianBounded(s: Bytes, k: nat)
    requires |s| <= k
    ensures And64(LittleEndian(s), HighMask(k)) == 0
    decreases |s|
  {
    hide And64, ShiftUp, Wide64;
    if s == [] {
      MaskZero(HighMask(k));
    } else {
      LittleEndianBounded(s[1..], k - 1);
      MaskShift(LittleEndian(s[1..]), s[0], HighMask(k - 1));
    }
  }

  lemma HighMaskSeven()
    ensures HighMask(7) == 0xff00_0000_0000_0000
  {
    assert HighMask(2) == 0xffff_ffff_ffff_0000;
    assert HighMask(4) == 0xffff_ffff_0000_0000;
    assert HighMask(6) == 0xffff_0000_0000_0000;
  }

  predicate Even64(z: bv64) { z & 1 == 0 }

  function Quarter64(z: bv64): bv64 { Half64(Half64(z)) }

  lemma EvenStep64(z: bv64)
    requires Even64(z)
    ensures BitStep64(z) == Half64(z)
  {}

  lemma TwoEvenSteps64(z: bv64)
    requires Even64(z) && Even64(Half64(z))
    ensures BitSteps64(z, 2) == Quarter64(z)
  {
    hide Even64, Half64, BitStep64;
    EvenStep64(z);
    EvenStep64(Half64(z));
    assert BitSteps64(z, 2) == BitSteps64(BitStep64(z), 1);
  }

  lemma ShiftedBits(w: bv64)
    requires And64(w, 0xff00_0000_0000_0000) == 0
    ensures var z := ShiftUp(w);
            && Even64(z) && Even64(Half64(z))
            && Even64(Quarter64(z)) && Even64(Half64(Quarter64(z)))
            && Even64(Quarter64(Quarter64(z))) && Even64(Half64(Quarter64(Quarter64(z))))
            && Even64(Quarter64(Quarter64(Quarter64(z))))
            && Even64(Half64(Quarter64(Quarter64(Quarter64(z)))))
            && Quarter64(Quarter64(Quarter64(Quarter64(z)))) == w
  {}

  /** Eight steps move the next byte of a quadword into place. */
  lemma NextByte(w: bv64)
    requires And64(w, 0xff00_0000_0000_0000) == 0
    ensures BitSteps64(ShiftUp(w), 8) == w
  {
    hide And64, ShiftUp, Even64, Half64, Quarter64, BitSteps64;
    ShiftedBits(w);
    var z := ShiftUp(w);
    var q1 := Quarter64(z);
    var q2 := Quarter64(q1);
    var q3 := Quarter64(q2);
    TwoEvenSteps64(z);
    TwoEvenSteps64(q1);
    TwoEvenSteps64(q2);
    TwoEvenSteps64(q3);
    BitSteps64Add(z, 2, 6);
    BitSteps64Add(q1, 2, 4);
    BitSteps64Add(q2, 2, 2);
  }

  lemma OrIsXor(w: bv64, b: bv8)
    ensures Wide64(b) | ShiftUp(w) == Xor64(Wide64(b), ShiftUp(w))
  {}

  lemma {:induction false} QuadIsBytes(c: bv32, s: Bytes)
    requires |s| <= 8
    ensures BitSteps64(Xor64(Extend(c), LittleEndian(s)), 8 * |s|) == Extend(Feed(c, s))
    decreases |s|
  {
    hide Xor64, Extend, ShiftUp, Wide64, Wide, Xor, And64, BitSteps64, BitSteps;
    if s == [] {
      Xor64Zero(Extend(c));
      NoSteps64(Extend(c));
    } else {
      var w, x := LittleEndian(s[1..]), Xor(c, Wide(s[0]));
      OrIsXor(w, s[0]);
      Xor64Assoc(Extend(c), Wide64(s[0]), ShiftUp(w));
      ExtendWide(s[0]);
      ExtendXor(c, Wide(s[0]));
      var start := Xor64(Extend(x), ShiftUp(w));
      BitSteps64Add(start, 8, 8 * |s[1..]|);
      BitSteps64Linear(Extend(x), ShiftUp(w), 8);
      BitSteps64Extends(x, 8);
      LittleEndianBounded(s[1..], 7);
      HighMaskSeven();
      NextByte(w);
      QuadIsBytes(ByteStep(c, s[0]), s[1..]);
      assert 8 + 8 * |s[1..]| == 8 * |s|;
    }
  }

  lemma NoSteps64(x: bv64)
    ensures BitSteps64(x, 0) == x
  {}

  /** One `crc32q` is eight byte steps on the bytes it loads. */
  lemma Crc32qFeeds(c: bv32, s: Bytes)
    requires |s| == 8
    ensures Crc32q(Extend(c), LittleEndian(s)) == Extend(Feed(c, s))
  {
    hide Xor64, Extend, Low32, LittleEndian, BitSteps64, Feed;
    ExtendLow(c);
    QuadIsBytes(c, s);
    ExtendLow(Feed(c, s));
  }

  lemma Crc32bFeeds(c: bv32, b: bv8)
    ensures Crc32b(Extend(c), b) == Extend(ByteStep(c, b))
  {
    hide Extend, Low32, ByteStep;
    ExtendLow(c);
  }
}
