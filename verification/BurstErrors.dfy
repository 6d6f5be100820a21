/** Which transmission errors the checksum misses: exactly the multiples of the generator,
  hence no burst of up to 32 bits, and some burst of 33. */
module BurstErrors {
  import opened Crc32cSpec
  import opened Crc32cEngine
  import opened KnownAnswers
  import opened Gf2Matrix
  import opened PolyDivision

  // ----- Words and buffers are determined by their bits

  function PackWord(m: Poly): bv32
    decreases |m|
  {
    if m == [] then 0 else Xor(BitWord(m[0]), Double(PackWord(m[1..])))
  }

  lemma {:induction false} WordBitsInjective(x: bv32, y: bv32, n: nat)
    requires Fits(x, n) && Fits(y, n) && WordBits(x, n) == WordBits(y, n)
    ensures x == y
    decreases n
  {
    hide Half, LowBit, Xor, BitWord, Double;
    if n > 0 {
      WordBitsHead(x, n);
      WordBitsHead(y, n);
      WordBitsInjective(Half(x), Half(y), n - 1);
      LowBitApart(x);
      LowBitApart(y);
    }
  }

  lemma WordBitsHead(x: bv32, n: nat)
    requires n > 0
    ensures WordBits(x, n)[0] == LowBit(x) && WordBits(x, n)[1..] == WordBits(Half(x), n - 1)
  {}

  lemma WideInjective(a: bv8, b: bv8)
    requires Wide(a) == Wide(b)
    ensures a == b
  {}

  lemma {:induction false} MessageBitsInjective(s: Bytes, t: Bytes)
    requires |s| == |t| && MessageBits(s) == MessageBits(t)
    ensures s == t
    decreases |s|
  {
    hide WordBits, Wide, Fits;
    if s != [] {
      var a, b := WordBits(Wide(s[0]), 8), WordBits(Wide(t[0]), 8);
      assert MessageBits(s)[..8] == a && MessageBits(s)[8..] == MessageBits(s[1..]);
      assert MessageBits(t)[..8] == b && MessageBits(t)[8..] == MessageBits(t[1..]);
      WideFits(s[0]);
      WideFits(t[0]);
      WordBitsInjective(Wide(s[0]), Wide(t[0]), 8);
      WideInjective(s[0], t[0]);
      MessageBitsInjective(s[1..], t[1..]);
      assert s == [s[0]] + s[1..] && t == [t[0]] + t[1..];
    }
  }

  lemma {:induction false} MessageBitsConcat(s: Bytes, t: Bytes)
    ensures MessageBits(s + t) == MessageBits(s) + MessageBits(t)
    decreases |s|
  {
    hide WordBits, Wide;
    if s == [] {
      assert s + t == t;
    } else {
      assert (s + t)[1..] == s[1..] + t;
      MessageBitsConcat(s[1..], t);
    }
  }

  // ----- A window of at most 32 bits

  lemma PackBit(b: bool, x: bv32)
    ensures Half(Xor(BitWord(b), Double(x))) == Half(Double(x))
    ensures LowBit(Xor(BitWord(b), Double(x))) == b
  {}

  lemma {:induction false} HalvesAdd(x: bv32, m: nat, n: nat)
    ensures Halves(x, m + n) == Halves(Halves(x, m), n)
    decreases m
  {
    hide Half;
    if m > 0 {
      HalvesAdd(Half(x), m - 1, n);
    }
  }

  lemma SevenHalves(x: bv32)
    ensures Halves(x, 7) == Half(Half(Half(Half4(x))))
  {
    hide Half, Half4;
    HalvesAdd(x, 4, 3);
    WordBitsFour(x);
    assert Halves(Half4(x), 3) == Halves(Half(Half4(x)), 2) == Halves(Half(Half(Half4(x))), 1);
  }

  lemma TopBitGone(x: bv32)
    requires Half(Half(Half(Half4(ShiftByte(ShiftByte(ShiftByte(x))))))) == 0
    ensures Half(Double(x)) == x
  {}

  lemma FitsDoubles(x: bv32)
    requires Fits(x, 31)
    ensures Half(Double(x)) == x
  {
    hide Half, Half4, ShiftByte, Double, Halves;
    FitsHalves(x, 31);
    HalvesAdd(x, 8, 23); EightHalves(x); EightHalvesShift(x);
    var y := ShiftByte(x);
    HalvesAdd(y, 8, 15); EightHalves(y); EightHalvesShift(y);
    var z := ShiftByte(y);
    HalvesAdd(z, 8, 7); EightHalves(z); EightHalvesShift(z);
    SevenHalves(ShiftByte(z));
    TopBitGone(x);
  }

  lemma {:induction false} FitsMore(x: bv32, n: nat, k: nat)
    requires Fits(x, n) && n <= k
    ensures Fits(x, k)
    decreases k
  {
    hide Half;
    if n > 0 {
      FitsMore(Half(x), n - 1, k - 1);
    } else if k > 0 {
      assert Half(0) == 0 by { HalfZero(); }
      FitsMore(0, 0, k - 1);
    }
  }

  /** A window of at most 32 bits is the bits of one register. */
  lemma {:induction false} PackedBits(m: Poly)
    requires |m| <= 32
    ensures WordBits(PackWord(m), |m|) == m && Fits(PackWord(m), |m|)
    decreases |m|
  {
    hide Xor, Double, BitWord, Half, LowBit;
    if m != [] {
      var x := PackWord(m[1..]);
      PackedBits(m[1..]);
      FitsMore(x, |m| - 1, 31);
      FitsDoubles(x);
      PackBit(m[0], x);
      assert m == [m[0]] + m[1..];
    }
  }

  lemma {:induction false} FeedBitsInjective(a: bv32, b: bv32, m: Poly)
    requires FeedBits(a, m) == FeedBits(b, m)
    ensures a == b
    decreases |m|
  {
    hide BitStep, Xor, BitWord;
    if m != [] {
      var w := BitWord(m[0]);
      FeedBitsInjective(BitStep(Xor(a, w)), BitStep(Xor(b, w)), m[1..]);
      BitStepInjective(Xor(a, w), Xor(b, w));
      XorCancel(a, w);
      XorCancel(b, w);
    }
  }

  /** From one register, different windows of at most 32 bits lead to different registers. */
  lemma WindowInjective(c: bv32, m: Poly, n: Poly)
    requires |m| == |n| <= 32
    requires FeedBits(c, m) == FeedBits(c, n)
    ensures m == n
  {
    hide Xor, FeedBits, WordBits, PackWord, BitSteps, Fits;
    var x, y := PackWord(m), PackWord(n);
    PackedBits(m);
    PackedBits(n);
    FeedWordBits(c, x, |m|);
    FeedWordBits(c, y, |m|);
    BitStepsInjective(Xor(c, x), Xor(c, y), |m|);
    XorComm(c, x);
    XorComm(c, y);
    XorCancel(x, c);
    XorCancel(y, c);
  }

  /** The buffers agree except in the `width` bits that start at bit `at`. */
  ghost predicate DifferInWindow(s: Bytes, t: Bytes, at: nat, width: nat) {
    && |s| == |t| && at + width <= 8 * |s|
    && MessageBits(s)[..at] == MessageBits(t)[..at]
    && MessageBits(s)[at + width..] == MessageBits(t)[at + width..]
  }

  lemma WindowFeeds(c: bv32, m: Poly, at: nat, width: nat)
    requires at + width <= |m|
    ensures FeedBits(c, m) == FeedBits(FeedBits(FeedBits(c, m[..at]), m[at..at + width]), m[at + width..])
  {
    hide FeedBits;
    FeedBitsConcat(c, m[..at], m[at..]);
    FeedBitsConcat(FeedBits(c, m[..at]), m[at..at + width], m[at + width..]);
    assert m == m[..at] + m[at..];
    assert m[at..] == m[at..at + width] + m[at + width..];
  }

  lemma FeedDetectsBurst(c: bv32, s: Bytes, t: Bytes, at: nat, width: nat)
    requires width <= 32 && DifferInWindow(s, t, at, width)
    ensures Feed(c, s) == Feed(c, t) <==> s == t
  {
    hide Feed, FeedBits, MessageBits;
    if Feed(c, s) == Feed(c, t) {
      var m, n := MessageBits(s), MessageBits(t);
      FeedMessageBits(c, s);
      FeedMessageBits(c, t);
      WindowFeeds(c, m, at, width);
      WindowFeeds(c, n, at, width);
      var d := FeedBits(c, m[..at]);
      FeedBitsInjective(FeedBits(d, m[at..at + width]), FeedBits(d, n[at..at + width]), m[at + width..]);
      WindowInjective(d, m[at..at + width], n[at..at + width]);
      assert m == m[..at] + m[at..at + width] + m[at + width..];
      assert n == n[..at] + n[at..at + width] + n[at + width..];
      MessageBitsInjective(s, t);
    }
  }

  /** No error confined to 32 consecutive bits leaves the checksum unchanged. */
  lemma BurstDetected(crc: bv32, s: Bytes, t: Bytes, at: nat, width: nat)
    requires width <= 32 && DifferInWindow(s, t, at, width) && s != t
    ensures Crc32c(crc, s) != Crc32c(crc, t)
  {
    hide Xor, Feed, DifferInWindow;
    var c := Xor(crc, ONES);
    FeedDetectsBurst(c, s, t, at, width);
    XorCancel(Feed(c, s), ONES);
    XorCancel(Feed(c, t), ONES);
  }

  // ----- Exactly which errors are missed

  lemma {:induction false} MulDistributes(a: Poly, b: Poly, g: Poly)
    requires |a| == |b| && g != []
    ensures Mul(Add(a, b), g) == Add(Mul(a, g), Mul(b, g))
    decreases |a|
  {
    if a == [] {
      AddPointwise(Nought(|g| - 1), Nought(|g| - 1), Nought(|g| - 1));
      assert Add(a, b) == [];
    } else {
      MulDistributes(a[1..], b[1..], g);
      assert Add(a, b)[1..] == Add(a[1..], b[1..]);
      MulDistributesStep(a, b, g);
    }
  }

  lemma MulDistributesStep(a: Poly, b: Poly, g: Poly)
    requires |a| == |b| && g != [] && a != []
    requires Mul(Add(a[1..], b[1..]), g) == Add(Mul(a[1..], g), Mul(b[1..], g))
    requires Add(a, b)[1..] == Add(a[1..], b[1..])
    ensures Mul(Add(a, b), g) == Add(Mul(a, g), Mul(b, g))
  {
    hide Mul;
    var p, q := Mul(a[1..], g), Mul(b[1..], g);
    MulUnfold(a, g);
    MulUnfold(b, g);
    MulUnfold(Add(a, b), g);
    ScaleDistributes(a[0], b[0], g, |a| - 1);
    AddFour(Scale(a[0], g) + Nought(|a| - 1), [false] + p, Scale(b[0], g) + Nought(|a| - 1), [false] + q);
    assert [false] + Add(p, q) == Add([false] + p, [false] + q);
    hide Scale, Nought;
  }

  lemma ScaleDistributes(x: bool, y: bool, g: Poly, n: nat)
    ensures Scale(x != y, g) + Nought(n) == Add(Scale(x, g) + Nought(n), Scale(y, g) + Nought(n))
  {}

  lemma MulUnfold(q: Poly, g: Poly)
    requires q != [] && g != []
    ensures Mul(q, g) == Add(Scale(q[0], g) + Nought(|q| - 1), [false] + Mul(q[1..], g))
  {}

  lemma AddFour(a: Poly, b: Poly, c: Poly, d: Poly)
    requires |a| == |b| == |c| == |d|
    ensures Add(Add(a, b), Add(c, d)) == Add(Add(a, c), Add(b, d))
  {}

  lemma DividendDifference(c: bv32, m: Poly, n: Poly)
    requires |m| == |n|
    ensures Add(Dividend(c, m), Dividend(c, n)) == Add(m, n) + Nought(32)
  {
    hide WordBits;
  }

  /** The difference of two messages is a sum of a multiple of the generator and the
    difference of their registers. */
  lemma DifferenceDivides(c: bv32, s: Bytes, t: Bytes) returns (q: Poly)
    requires |s| == |t|
    ensures |q| == 8 * |s|
    ensures Add(MessageBits(s), MessageBits(t)) + Nought(32) ==
            Add(Mul(q, GENERATOR), Nought(|q|) + Add(WordBits(Feed(c, s), 32), WordBits(Feed(c, t), 32)))
  {
    hide Dividend, WordBits, Feed, Mul, Add, Quotient, Remainder, MessageBits;
    var m, n := MessageBits(s), MessageBits(t);
    var p, p' := Dividend(c, m), Dividend(c, n);
    FeedMessageBits(c, s);
    FeedMessageBits(c, t);
    RegisterIsRemainder(c, m);
    RegisterIsRemainder(c, n);
    DivisionLaw(p);
    DivisionLaw(p');
    DividendDifference(c, m, n);
    q := Add(Quotient(p), Quotient(p'));
    MulDistributes(Quotient(p), Quotient(p'), GENERATOR);
    AddFour(Mul(Quotient(p), GENERATOR), Nought(|q|) + Remainder(p),
            Mul(Quotient(p'), GENERATOR), Nought(|q|) + Remainder(p'));
    AddPadded(|q|, Remainder(p), Remainder(p'));
  }

  lemma AddPadded(k: nat, a: Poly, b: Poly)
    requires |a| == |b|
    ensures Add(Nought(k) + a, Nought(k) + b) == Nought(k) + Add(a, b)
  {}

  lemma AddSelf(a: Poly, b: Poly)
    requires |a| == |b|
    ensures Add(a, b) == Nought(|a|) <==> a == b
  {
    if Add(a, b) == Nought(|a|) {
      forall i | 0 <= i < |a|
        ensures a[i] == b[i]
      {
        assert Add(a, b)[i] == Nought(|a|)[i];
      }
    }
    if a == b {
      assert Add(a, a) == Nought(|a|);
    }
  }

  /** An error goes unnoticed if and only if the error polynomial, shifted to its place in front
    of the checksum, is a multiple of the generator. */
  lemma MissedIffMultiple(crc: bv32, s: Bytes, t: Bytes)
    requires |s| == |t|
    ensures Crc32c(crc, s) == Crc32c(crc, t) <==>
            exists q: Poly :: |q| == 8 * |s| &&
              Add(MessageBits(s), MessageBits(t)) + Nought(32) == Mul(q, GENERATOR)
  {
    hide Xor, Feed, WordBits, Mul, Add, MessageBits, Fits;
    var c := Xor(crc, ONES);
    var x, y := Feed(c, s), Feed(c, t);
    XorCancel(x, ONES);
    XorCancel(y, ONES);
    var q := DifferenceDivides(c, s, t);
    AddSelf(WordBits(x, 32), WordBits(y, 32));
    ZeroRemainder(q);
    if Crc32c(crc, s) == Crc32c(crc, t) {
      assert Add(MessageBits(s), MessageBits(t)) + Nought(32) == Mul(q, GENERATOR);
    }
    if q': Poly :| |q'| == 8 * |s| && Add(MessageBits(s), MessageBits(t)) + Nought(32) == Mul(q', GENERATOR) {
      ZeroRemainder(q');
      DivisionUnique(q, Add(WordBits(x, 32), WordBits(y, 32)), q', Nought(32));
      AllBitsInjective(x, y);
    }
  }

  lemma ZeroRemainder(q: Poly)
    ensures Add(Mul(q, GENERATOR), Nought(|q|) + Nought(32)) == Mul(q, GENERATOR)
  {
    hide Mul;
    AddNothing(Mul(q, GENERATOR), |q|);
  }

  lemma AddNothing(p: Poly, n: nat)
    requires |p| == n + 32
    ensures Add(p, Nought(n) + Nought(32)) == p
  {}

  lemma ComplementInjective(a: bv32, b: bv32)
    requires a ^ 0xffff_ffff == b ^ 0xffff_ffff
    ensures a == b
  {}

  lemma AllBitsInjective(a: bv32, b: bv32)
    requires WordBits(a, 32) == WordBits(b, 32)
    ensures a == b
  {
    hide WordBits, Fits;
    EveryWordFits(a);
    EveryWordFits(b);
    WordBitsInjective(a, b, 32);
  }

  /** There is no other checksum. */
  lemma OnlyChecksum(crc: bv32, s: Bytes, r: bv32)
    ensures IsChecksum(crc, s, r) <==> r == Crc32c(crc, s)
  {
    hide WordBits, Remainder, Dividend, MessageBits, Crc32c;
    var d := Crc32c(crc, s);
    ChecksumRemainder(crc, s);
    if IsChecksum(crc, s, r) {
      AllBitsInjective(r ^ 0xffff_ffff, d ^ 0xffff_ffff);
      ComplementInjective(r, d);
    }
  }

  // ----- A 33-bit burst that is missed: the generator itself

  const GENERATOR_BYTES: Bytes := [0xf1, 0x76, 0xec, 0x05, 0x01]

  lemma GeneratorByteBits()
    ensures WordBits(Wide(0xf1), 8) == [true] + TAPS_1E[..7]
    ensures WordBits(Wide(0x76), 8) == TAPS_1E[7..] + TAPS_DC[..7]
  {
    hide WordBits;
    EightBits(0xf1);
    EightBits(0x76);
  }

  lemma GeneratorByteBitsRest()
    ensures WordBits(Wide(0xec), 8) == TAPS_DC[7..] + TAPS_6F[..7]
    ensures WordBits(Wide(0x05), 8) == TAPS_6F[7..] + TAPS_41[..7]
    ensures WordBits(Wide(0x01), 8) == TAPS_41[7..] + Nought(7)
  {
    hide WordBits;
    EightBits(0xec);
    EightBits(0x05);
    EightBits(0x01);
  }

  lemma JoinSevens(a: Poly, b: Poly, c: Poly, d: Poly, e: Poly)
    requires |a| == |b| == |c| == |d| == 8
    ensures ([true] + a[..7]) + (a[7..] + b[..7]) + (b[7..] + c[..7]) + (c[7..] + d[..7]) + (d[7..] + e) ==
            [true] + (a + b + c + d) + e
  {}

  lemma GeneratorBits()
    ensures MessageBits(GENERATOR_BYTES) == GENERATOR + Nought(7)
  {
    hide WordBits, MessageBits, Wide;
    var s := GENERATOR_BYTES;
    MessageBitsConcat(s[..4], s[4..]);
    assert s == s[..4] + s[4..];
    FourBytesBits(s[..4]);
    SingleByteBits(s[4..]);
    GeneratorByteBits();
    GeneratorByteBitsRest();
    JoinSevens(TAPS_1E, TAPS_DC, TAPS_6F, TAPS_41, Nought(7));
  }

  lemma ZeroBits()
    ensures MessageBits(Zeros(5)) == Nought(40)
  {
    hide WordBits;
    WordBitsZero(8);
    ZeroMessageBits(5);
  }

  lemma {:induction false} ZeroMessageBits(n: nat)
    ensures MessageBits(Zeros(n)) == Nought(8 * n)
    decreases n
  {
    hide WordBits;
    if n > 0 {
      WordBitsZero(8);
      assert Zeros(n)[1..] == Zeros(n - 1);
      ZeroMessageBits(n - 1);
    }
  }

  lemma {:induction false} MulNought(n: nat, g: Poly)
    requires g != []
    ensures Mul(Nought(n), g) == Nought(n + |g| - 1)
    decreases n
  {
    if n > 0 {
      assert Nought(n)[1..] == Nought(n - 1);
      MulNought(n - 1, g);
    }
  }

  lemma MulLeading(n: nat, g: Poly)
    requires g != []
    ensures Mul([true] + Nought(n), g) == g + Nought(n)
  {
    MulNought(n, g);
    assert ([true] + Nought(n))[1..] == Nought(n);
  }

  /** Width 32 is the limit: for every seed the generator collides with five zero bytes, and
    the two differ in 33 consecutive bits. */
  lemma BurstOf33Missed(crc: bv32)
    ensures Crc32c(crc, GENERATOR_BYTES) == Crc32c(crc, Zeros(5))
    ensures GENERATOR_BYTES != Zeros(5)
    ensures DifferInWindow(GENERATOR_BYTES, Zeros(5), 0, 33)
  {
    hide Crc32c, Mul, MessageBits;
    GeneratorBits();
    ZeroBits();
    assert GENERATOR_BYTES[0] != Zeros(5)[0];
    var q := [true] + Nought(39);
    MulLeading(39, GENERATOR);
    NoughtPieces(GENERATOR);
    MissedIffMultiple(crc, GENERATOR_BYTES, Zeros(5));
  }

  lemma NoughtPieces(g: Poly)
    requires |g| == 33
    ensures Add(g + Nought(7), Nought(40)) + Nought(32) == g + Nought(39)
    ensures (g + Nought(7))[33..] == Nought(40)[33..]
  {}

  // ----- Checked messages: a buffer followed by its checksum, low byte first

  function DigestBytes(d: bv32): (s: Bytes)
    ensures |s| == 4
  {
    [Byte0(d), Byte1(d), Byte2(d), Byte3(d)]
  }

  const RESIDUE: bv32 := 0xb798b438

  lemma ResidueIs()
    ensures BitSteps(ONES, 32) == RESIDUE
  {
    FourZeroBytes();
  }

  lemma Bytes123(d: bv32)
    ensures Byte1(d) == Byte0(ShiftByte(d))
    ensures Byte2(d) == Byte0(ShiftByte(ShiftByte(d)))
    ensures Byte3(d) == Byte0(ShiftByte(ShiftByte(ShiftByte(d))))
  {}

  lemma ByteZeroBits(x: bv32)
    ensures WordBits(Wide(Byte0(x)), 8) == WordBits(x, 8)
  {
    hide WordBits, Wide, Byte0, LowByte;
    LowByteIsByte0(x);
    LowBits(x);
    EightBits(x);
    EightBits(LowByte(x));
  }

  lemma LowBits(x: bv32)
    ensures FourBits(LowByte(x)) == FourBits(x) && FourBits(Half4(LowByte(x))) == FourBits(Half4(x))
  {}

  lemma DigestBits(d: bv32)
    ensures MessageBits(DigestBytes(d)) == WordBits(d, 32)
  {
    hide WordBits, Wide, Byte0, Byte1, Byte2, Byte3, ShiftByte;
    var d1 := ShiftByte(d);
    var d2 := ShiftByte(d1);
    var d3 := ShiftByte(d2);
    Bytes123(d);
    NextWordByte(d, 24);
    NextWordByte(d1, 16);
    NextWordByte(d2, 8);
    ByteZeroBits(d);
    ByteZeroBits(d1);
    ByteZeroBits(d2);
    ByteZeroBits(d3);
    FourBytesBits(DigestBytes(d));
  }

  lemma SingleByteBits(s: Bytes)
    requires |s| == 1
    ensures MessageBits(s) == WordBits(Wide(s[0]), 8)
  {
    hide WordBits, Wide;
    assert MessageBits(s[1..]) == [];
  }

  lemma TwoBytesBits(s: Bytes)
    requires |s| == 2
    ensures MessageBits(s) == WordBits(Wide(s[0]), 8) + WordBits(Wide(s[1]), 8)
  {
    hide WordBits, Wide, MessageBits;
    MessageBitsConcat(s[..1], s[1..]);
    SingleByteBits(s[..1]);
    SingleByteBits(s[1..]);
    assert s == s[..1] + s[1..];
  }

  lemma FourBytesBits(s: Bytes)
    requires |s| == 4
    ensures MessageBits(s) == WordBits(Wide(s[0]), 8) + WordBits(Wide(s[1]), 8) +
                              WordBits(Wide(s[2]), 8) + WordBits(Wide(s[3]), 8)
  {
    hide WordBits, Wide, MessageBits;
    MessageBitsConcat(s[..2], s[2..]);
    TwoBytesBits(s[..2]);
    TwoBytesBits(s[2..]);
    assert s == s[..2] + s[2..];
  }

  /** A buffer followed by a digest checks if and only if the register, started with ones, ends at
    0xb798b438. */
  lemma ChecksIffResidue(s: Bytes, d: bv32)
    ensures d == Crc32c(0, s) <==> Feed(0xffff_ffff, s + DigestBytes(d)) == 0xb798b438
  {
    ResidueIs();
    hide Xor, Feed, FeedBits, WordBits, BitSteps, DigestBytes, MessageBits, Fits;
    var x := Feed(ONES, s);
    FeedConcat(ONES, s, DigestBytes(d));
    FeedMessageBits(x, DigestBytes(d));
    DigestBits(d);
    EveryWordFits(d);
    FeedWordBits(x, d, 32);
    XorUnit(ONES);
    if Feed(ONES, s + DigestBytes(d)) == RESIDUE {
      BitStepsInjective(Xor(x, d), ONES, 32);
    }
    XorComm(x, d);
    XorCancel(d, x);
    XorComm(x, ONES);
    XorCancel(ONES, x);
    XorAssoc(x, x, ONES);
    XorUnit(x);
    XorAssoc(x, ONES, x);
    XorComm(ONES, x);
  }

  /** A burst of at most 32 bits anywhere in a checked message, digest included, never yields
    another checked message. */
  lemma CheckedMessageBurst(s: Bytes, s': Bytes, d': bv32, at: nat, width: nat)
    requires |s| == |s'| && width <= 32
    requires DifferInWindow(s + DigestBytes(Crc32c(0, s)), s' + DigestBytes(d'), at, width)
    ensures d' == Crc32c(0, s') <==> s' == s && DigestBytes(d') == DigestBytes(Crc32c(0, s))
  {
    hide Crc32c, Feed, DifferInWindow, DigestBytes;
    var d := Crc32c(0, s);
    ChecksIffResidue(s, d);
    ChecksIffResidue(s', d');
    var u, v := s + DigestBytes(d), s' + DigestBytes(d');
    FeedDetectsBurst(ONES, u, v, at, width);
    if u == v {
      assert s == u[..|s|] && s' == v[..|s|];
      assert DigestBytes(d) == u[|s|..] && DigestBytes(d') == v[|s|..];
    }
  }
}
