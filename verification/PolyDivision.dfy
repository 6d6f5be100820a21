/** Polynomials over GF(2), the school-book division by the CRC32C generator of
  section 12.1 of RFC 3720, and the proof that the register computes its remainder. */
module PolyDivision {
  import opened Crc32cSpec
  import opened Gf2Matrix

  /** Coefficients, highest power first. */
  type Poly = seq<bool>

  /** x^32 plus the powers of the generator 0x11EDC6F41. */
  const GENERATOR: Poly := [true] + TAPS

  const TAPS: Poly := TAPS_1E + TAPS_DC + TAPS_6F + TAPS_41

  const TAPS_1E: Poly := [false, false, false, true, true, true, true, false]
  const TAPS_DC: Poly := [true, true, false, true, true, true, false, false]
  const TAPS_6F: Poly := [false, true, true, false, true, true, true, true]
  const TAPS_41: Poly := [false, true, false, false, false, false, false, true]

  function Nought(n: nat): (p: Poly)
    ensures |p| == n
  {
    seq(n, _ => false)
  }

  function Add(a: Poly, b: Poly): (s: Poly)
    requires |a| == |b|
    ensures |s| == |a|
  {
    seq(|a|, i requires 0 <= i < |a| => a[i] != b[i])
  }

  function Scale(c: bool, a: Poly): (s: Poly)
    ensures |s| == |a|
  {
    if c then a else Nought(|a|)
  }

  /** `a` added to the highest coefficients of `p`. */
  function AddTop(p: Poly, a: Poly): (s: Poly)
    requires |a| <= |p|
    ensures |s| == |p|
  {
    Add(p[..|a|], a) + p[|a|..]
  }

  function Mul(q: Poly, g: Poly): (p: Poly)
    requires g != []
    ensures |p| == |q| + |g| - 1
    decreases |q|
  {
    if q == [] then Nought(|g| - 1)
    else Add(Scale(q[0], g) + Nought(|q| - 1), [false] + Mul(q[1..], g))
  }

  /** One step of the division: cancel the leading coefficient and drop it. */
  function Reduce(p: Poly): (r: Poly)
    requires |p| > 32
    ensures |r| == |p| - 1
  {
    AddTop(p[1..], Scale(p[0], TAPS))
  }

  function Remainder(p: Poly): (r: Poly)
    requires |p| >= 32
    ensures |r| == 32
    decreases |p|
  {
    if |p| == 32 then p else Remainder(Reduce(p))
  }

  function Quotient(p: Poly): (q: Poly)
    requires |p| >= 32
    ensures |q| == |p| - 32
    decreases |p|
  {
    if |p| == 32 then [] else [p[0]] + Quotient(Reduce(p))
  }

  // ----- Division with remainder, and its uniqueness

  lemma AddPointwise(a: Poly, b: Poly, c: Poly)
    requires |a| == |b| == |c|
    ensures Add(a, b) == Add(b, a)
    ensures Add(Add(a, b), c) == Add(a, Add(b, c))
    ensures Add(Add(a, b), b) == a
    ensures Add(a, Nought(|a|)) == a
  {}

  lemma ReduceStep(p: Poly)
    requires |p| > 32
    ensures p == Add(Scale(p[0], GENERATOR) + Nought(|p| - 33), [false] + Reduce(p))
  {
    var lhs, rhs := p, Add(Scale(p[0], GENERATOR) + Nought(|p| - 33), [false] + Reduce(p));
    forall i | 0 <= i < |p|
      ensures lhs[i] == rhs[i]
    {
      if 0 < i < 33 {
        assert GENERATOR[i] == TAPS[i - 1];
        assert Reduce(p)[i - 1] == (p[i] != Scale(p[0], TAPS)[i - 1]);
      } else if i >= 33 {
        assert Reduce(p)[i - 1] == p[i];
      }
    }
  }

  lemma AddNested(a: Poly, m: Poly, r: Poly)
    requires |a| == |m| + 1 == |r| + 1
    ensures Add(a, [false] + Add(m, r)) == Add(Add(a, [false] + m), [false] + r)
  {}

  lemma {:induction false} DivisionLaw(p: Poly)
    requires |p| >= 32
    ensures p == Add(Mul(Quotient(p), GENERATOR), Nought(|p| - 32) + Remainder(p))
    decreases |p|
  {
    hide Add, Reduce, Scale;
    if |p| == 32 {
      assert Nought(0) + p == p;
      AddPointwise(p, Nought(32), p);
    } else {
      var p', q' := Reduce(p), Quotient(Reduce(p));
      var m, r := Mul(q', GENERATOR), Nought(|p'| - 32) + Remainder(p');
      var top := Scale(p[0], GENERATOR) + Nought(|p| - 33);
      ReduceStep(p);
      DivisionLaw(p');
      AddNested(top, m, r);
      assert Quotient(p) == [p[0]] + q' && Quotient(p)[1..] == q';
      assert [false] + r == Nought(|p| - 32) + Remainder(p);
    }
  }

  /** A representation `q * GENERATOR + r` has only one remainder. */
  lemma {:induction false} DivisionUnique(q: Poly, r: Poly, q': Poly, r': Poly)
    requires |q| == |q'| && |r| == |r'| == 32
    requires Add(Mul(q, GENERATOR), Nought(|q|) + r) == Add(Mul(q', GENERATOR), Nought(|q|) + r')
    ensures q == q' && r == r'
    decreases |q|
  {
    var a, b := Add(Mul(q, GENERATOR), Nought(|q|) + r), Add(Mul(q', GENERATOR), Nought(|q|) + r');
    if q == [] {
      forall i | 0 <= i < 32
        ensures r[i] == r'[i]
      {
        assert a[i] == r[i] && b[i] == r'[i];
      }
    } else {
      assert a[0] == q[0] && b[0] == q'[0];
      TailOfProduct(q, GENERATOR, r);
      TailOfProduct(q', GENERATOR, r');
      var top := (Scale(q[0], GENERATOR) + Nought(|q| - 1))[1..];
      CancelAdd(top, Add(Mul(q[1..], GENERATOR), Nought(|q| - 1) + r),
                Add(Mul(q'[1..], GENERATOR), Nought(|q| - 1) + r'));
      DivisionUnique(q[1..], r, q'[1..], r');
      assert q == [q[0]] + q[1..] && q' == [q'[0]] + q'[1..];
    }
  }

  lemma TailOfProduct(q: Poly, g: Poly, r: Poly)
    requires q != [] && |r| + 1 == |g|
    ensures Add(Mul(q, g), Nought(|q|) + r)[1..] ==
            Add((Scale(q[0], g) + Nought(|q| - 1))[1..], Add(Mul(q[1..], g), Nought(|q| - 1) + r))
  {
    hide Add, Scale;
    TailOfAdd(Scale(q[0], g) + Nought(|q| - 1), Mul(q[1..], g), Nought(|q| - 1) + r);
    assert Nought(|q|) + r == [false] + (Nought(|q| - 1) + r);
  }

  lemma TailOfAdd(g: Poly, m: Poly, r: Poly)
    requires |g| == |m| + 1 == |r| + 1
    ensures Add(Add(g, [false] + m), [false] + r)[1..] == Add(g[1..], Add(m, r))
  {}

  lemma CancelAdd(t: Poly, a: Poly, b: Poly)
    requires |t| == |a| == |b|
    requires Add(t, a) == Add(t, b)
    ensures a == b
  {
    forall i | 0 <= i < |a|
      ensures a[i] == b[i]
    {
      assert Add(t, a)[i] == Add(t, b)[i];
    }
  }

  // ----- The register as a polynomial

  function LowBit(x: bv32): bool { x & 1 == 1 }

  function BitWord(b: bool): bv32 { if b then 1 else 0 }

  /** The low `n` bits of a register, least significant first. */
  function WordBits(x: bv32, n: nat): (p: Poly)
    ensures |p| == n
    decreases n
  {
    if n == 0 then [] else [LowBit(x)] + WordBits(Half(x), n - 1)
  }

  /** The bits of a message in the order in which they are transmitted. */
  function MessageBits(s: Bytes): (p: Poly)
    ensures |p| == 8 * |s|
    decreases |s|
  {
    if s == [] then [] else WordBits(Wide(s[0]), 8) + MessageBits(s[1..])
  }

  function FeedBits(c: bv32, m: Poly): bv32
    decreases |m|
  {
    if m == [] then c else FeedBits(BitStep(Xor(c, BitWord(m[0]))), m[1..])
  }

  lemma {:induction false} FeedBitsConcat(c: bv32, m: Poly, n: Poly)
    ensures FeedBits(c, m + n) == FeedBits(FeedBits(c, m), n)
    decreases |m|
  {
    hide BitStep, Xor, BitWord;
    if m == [] {
      assert m + n == n;
    } else {
      assert (m + n)[1..] == m[1..] + n;
      FeedBitsConcat(BitStep(Xor(c, BitWord(m[0]))), m[1..], n);
    }
  }

  lemma LowBitApart(w: bv32)
    ensures Xor(BitWord(LowBit(w)), Double(Half(w))) == w
    ensures BitStep(Double(Half(w))) == Half(w)
  {}

  /** Bits fed one at a time, or added to the register together and stepped through. */
  lemma {:induction false} FeedWordBits(c: bv32, w: bv32, n: nat)
    requires Fits(w, n)
    ensures FeedBits(c, WordBits(w, n)) == BitSteps(Xor(c, w), n)
    decreases n
  {
    hide Xor, BitStep, Half, Double, BitWord, LowBit;
    if n == 0 {
      XorUnit(c);
    } else {
      var low, high := BitWord(LowBit(w)), Double(Half(w));
      FeedWordBits(BitStep(Xor(c, low)), Half(w), n - 1);
      assert WordBits(w, n)[1..] == WordBits(Half(w), n - 1);
      LowBitApart(w);
      XorAssoc(c, low, high);
      BitStepLinear(Xor(c, low), high);
    }
  }

  lemma WideFits(b: bv8)
    ensures Fits(Wide(b), 8)
  {
    hide Half, Wide, Half4;
    EightHalves(Wide(b));
    EightHalvesShift(Wide(b));
    WideIsLow(b);
    FitsAfter(Wide(b), 8, 0);
  }

  lemma WideIsLow(b: bv8)
    ensures ShiftByte(Wide(b)) == 0
  {}

  lemma {:induction false} FeedMessageBits(c: bv32, s: Bytes)
    ensures FeedBits(c, MessageBits(s)) == Feed(c, s)
    decreases |s|
  {
    hide BitSteps, WordBits;
    if s != [] {
      WideFits(s[0]);
      FeedWordBits(c, Wide(s[0]), 8);
      FeedBitsConcat(c, WordBits(Wide(s[0]), 8), MessageBits(s[1..]));
      FeedMessageBits(ByteStep(c, s[0]), s[1..]);
    }
  }

  lemma LowBitXor(a: bv32, b: bv32)
    ensures LowBit(Xor(a, b)) == (LowBit(a) != LowBit(b))
  {
    assert (a ^ b) & 1 == (a & 1) ^ (b & 1);
    assert a & 1 == 0 || a & 1 == 1;
    assert b & 1 == 0 || b & 1 == 1;
  }

  lemma {:induction false} WordBitsXor(a: bv32, b: bv32, n: nat)
    ensures WordBits(Xor(a, b), n) == Add(WordBits(a, n), WordBits(b, n))
    decreases n
  {
    hide Xor, Half, LowBit;
    if n > 0 {
      HalfLinear(a, b);
      LowBitXor(a, b);
      WordBitsXor(Half(a), Half(b), n - 1);
    }
  }

  lemma {:induction false} WordBitsZero(n: nat)
    ensures WordBits(0, n) == Nought(n)
    decreases n
  {
    if n > 0 {
      assert Half(0) == 0;
      WordBitsZero(n - 1);
    }
  }

  lemma {:induction false} WordBitsSplit(x: bv32, m: nat, n: nat)
    ensures WordBits(x, m + n) == WordBits(x, m) + WordBits(Halves(x, m), n)
    decreases m
  {
    hide Half, LowBit;
    if m > 0 {
      WordBitsSplit(Half(x), m - 1, n);
    }
  }

  function FourBits(x: bv32): Poly {
    [LowBit(x), LowBit(Half(x)), LowBit(Half(Half(x))), LowBit(Half(Half(Half(x))))]
  }

  lemma WordBitsFour(x: bv32)
    ensures WordBits(x, 4) == FourBits(x) && Halves(x, 4) == Half4(x)
  {
    hide Half, LowBit;
    var h := Half(Half(x));
    assert Halves(x, 4) == Halves(h, 2) == Half4(x);
    assert WordBits(h, 2) == [LowBit(h), LowBit(Half(h))] + WordBits(Half(Half(h)), 0);
  }

  lemma EightBits(x: bv32)
    ensures WordBits(x, 8) == FourBits(x) + FourBits(Half4(x))
  {
    hide Half, LowBit, Half4, FourBits, WordBits;
    WordBitsSplit(x, 4, 4);
    WordBitsFour(x);
    WordBitsFour(Half4(x));
  }

  lemma NextWordByte(x: bv32, n: nat)
    ensures WordBits(x, 8 + n) == WordBits(x, 8) + WordBits(ShiftByte(x), n)
  {
    hide WordBits, Halves, Half4, ShiftByte;
    WordBitsSplit(x, 8, n);
    EightHalves(x);
    EightHalvesShift(x);
  }

  /** The register's polynomial is the generator without its leading term. */
  lemma PolyIsTaps()
    ensures WordBits(POLY, 32) == TAPS
  {
    hide WordBits;
    NextWordByte(0x82f63b78, 24);
    NextWordByte(0x82f63b, 16);
    NextWordByte(0x82f6, 8);
    PolyByte0();
    PolyByte1();
    PolyByte2();
    PolyByte3();
  }

  lemma PolyByte0()
    ensures WordBits(0x82f63b78, 8) == TAPS_1E
  {
    hide WordBits;
    EightBits(0x82f63b78);
  }

  lemma PolyByte1()
    ensures WordBits(0x82f63b, 8) == TAPS_DC
  {
    hide WordBits;
    EightBits(0x82f63b);
  }

  lemma PolyByte2()
    ensures WordBits(0x82f6, 8) == TAPS_6F
  {
    hide WordBits;
    EightBits(0x82f6);
  }

  lemma PolyByte3()
    ensures WordBits(0x82, 8) == TAPS_41
  {
    hide WordBits;
    EightBits(0x82);
  }

  // ----- The register computes the remainder

  /** The dividend: the message, shifted up by 32, with the seed added to its top. */
  function Dividend(c: bv32, m: Poly): (p: Poly)
    ensures |p| == |m| + 32
  {
    AddTop(m + Nought(32), WordBits(c, 32))
  }

  /** Feeding the next bit is one step of the division. */
  lemma DivisionStep(c: bv32, m: Poly)
    requires m != []
    ensures Reduce(Dividend(c, m)) == Dividend(BitStep(Xor(c, BitWord(m[0]))), m[1..])
  {
    hide Xor, BitWord, Half, Pick, LowBit, WordBits, AddTop, Add, Scale, Dividend;
    var x := Xor(c, BitWord(m[0]));
    var p, h, t := Dividend(c, m), WordBits(Half(x), 32), m[1..] + Nought(32);
    FirstBit(c, m[0]);
    LeadingBit(c, m);
    WordBitsXor(Half(x), Pick(x, POLY), 32);
    PickBits(x);
    ShiftedDividend(c, x, m);
    AddTopTwice(t, h, Scale(p[0], TAPS));
    DividendIs(BitStep(x), m[1..]);
  }

  lemma DividendIs(c: bv32, m: Poly)
    ensures Dividend(c, m) == AddTop(m + Nought(32), WordBits(c, 32))
  {}

  lemma LeadingBit(c: bv32, m: Poly)
    requires m != []
    ensures Dividend(c, m)[0] == (LowBit(c) != m[0])
  {
    hide LowBit;
    assert WordBits(c, 32)[0] == LowBit(c);
  }

  lemma FirstBit(c: bv32, b: bool)
    ensures LowBit(Xor(c, BitWord(b))) == (LowBit(c) != b)
    ensures Half(Xor(c, BitWord(b))) == Half(c)
  {}

  lemma HalfTopBit(x: bv32)
    ensures WordBits(Half(x), 32) == WordBits(x, 32)[1..] + [false]
  {
    hide WordBits, Half;
    WordBitsSplit(Half(x), 31, 1);
    assert WordBits(x, 32)[1..] == WordBits(Half(x), 31) by { WordBitsTail(x, 32); }
    TopBitClear(x);
  }

  lemma WordBitsTail(x: bv32, n: nat)
    requires n > 0
    ensures WordBits(x, n)[1..] == WordBits(Half(x), n - 1)
  {}

  lemma TopBitClear(x: bv32)
    ensures WordBits(Halves(Half(x), 31), 1) == [false]
  {
    hide Half, Halves, Half4, ShiftByte, Fits;
    EveryWordFits(x);
    FitsHalves(x, 32);
    assert Halves(Half(x), 31) == 0 by { HalvesUnfold(x, 32); }
    WordBitsZero(1);
  }

  lemma HalvesUnfold(x: bv32, n: nat)
    requires n > 0
    ensures Halves(x, n) == Halves(Half(x), n - 1)
  {}

  lemma {:induction false} FitsHalves(x: bv32, n: nat)
    requires Fits(x, n)
    ensures Halves(x, n) == 0
    decreases n
  {
    hide Half;
    if n > 0 {
      FitsHalves(Half(x), n - 1);
    }
  }

  lemma PickBits(x: bv32)
    ensures WordBits(Pick(x, POLY), 32) == Scale(LowBit(x), TAPS)
  {
    hide WordBits;
    PolyIsTaps();
    WordBitsZero(32);
  }

  lemma ShiftedDividend(c: bv32, x: bv32, m: Poly)
    requires m != [] && Half(x) == Half(c)
    ensures Dividend(c, m)[1..] == AddTop(m[1..] + Nought(32), WordBits(Half(x), 32))
  {
    hide WordBits, Half;
    WordBitsTail(c, 32);
    HalfTopBit(c);
    var w := WordBits(c, 32);
    var lhs, rhs := Dividend(c, m)[1..], AddTop(m[1..] + Nought(32), w[1..] + [false]);
    forall i | 0 <= i < |m| + 31
      ensures lhs[i] == rhs[i]
    {
      assert lhs[i] == Dividend(c, m)[i + 1];
    }
  }

  lemma AddTopTwice(p: Poly, a: Poly, b: Poly)
    requires |a| == |b| <= |p|
    ensures AddTop(AddTop(p, a), b) == AddTop(p, Add(a, b))
  {}

  lemma {:induction false} RegisterIsRemainder(c: bv32, m: Poly)
    ensures WordBits(FeedBits(c, m), 32) == Remainder(Dividend(c, m))
    decreases |m|
  {
    hide WordBits, BitStep, Xor, BitWord, Reduce, Dividend;
    if m == [] {
      EmptyDividend(c);
    } else {
      DivisionStep(c, m);
      RegisterIsRemainder(BitStep(Xor(c, BitWord(m[0]))), m[1..]);
    }
  }

  lemma EmptyDividend(c: bv32)
    ensures Dividend(c, []) == WordBits(c, 32)
  {
    hide WordBits;
    AddPointwise(Nought(32), WordBits(c, 32), Nought(32));
    assert [] + Nought(32) == Nought(32);
    assert Nought(32)[..32] == Nought(32);
    AddPointwise(WordBits(c, 32), Nought(32), Nought(32));
  }

  /** The checksum register is the remainder of the message under division by the generator,
    and the only one. */
  lemma FeedIsRemainder(c: bv32, s: Bytes, q: Poly, r: Poly)
    requires |q| == 8 * |s| && |r| == 32
    ensures Dividend(c, MessageBits(s)) == Add(Mul(q, GENERATOR), Nought(|q|) + r) <==>
            q == Quotient(Dividend(c, MessageBits(s))) && r == WordBits(Feed(c, s), 32)
  {
    hide WordBits, Dividend, Feed, Mul, Add, Quotient, Remainder, MessageBits;
    var p := Dividend(c, MessageBits(s));
    FeedMessageBits(c, s);
    RegisterIsRemainder(c, MessageBits(s));
    DivisionLaw(p);
    if p == Add(Mul(q, GENERATOR), Nought(|q|) + r) {
      DivisionUnique(q, r, Quotient(p), Remainder(p));
    }
  }

  /** So is the checksum, but for the complement taken of its seed and of its result. */
  lemma ChecksumIsRemainder(crc: bv32, s: Bytes, q: Poly, r: Poly)
    requires |q| == 8 * |s| && |r| == 32
    ensures var p := Dividend(crc ^ 0xffff_ffff, MessageBits(s));
            p == Add(Mul(q, GENERATOR), Nought(|q|) + r) <==>
            q == Quotient(p) && r == WordBits(Crc32c(crc, s) ^ 0xffff_ffff, 32)
  {
    hide WordBits, Dividend, Feed, Mul, Add, Quotient, MessageBits;
    Complemented(crc, s);
    FeedIsRemainder(crc ^ 0xffff_ffff, s, q, r);
  }

  lemma Complemented(crc: bv32, s: Bytes)
    ensures Crc32c(crc, s) ^ 0xffff_ffff == Feed(crc ^ 0xffff_ffff, s)
  {
    hide Feed;
    XorCancel(Feed(crc ^ 0xffff_ffff, s), 0xffff_ffff);
  }

  /** `r` is the checksum as section 12.1 of RFC 3720 has it: its complement is the remainder that the
    message leaves with the complement of the seed added at its front. */
  ghost predicate IsChecksum(crc: bv32, s: Bytes, r: bv32) {
    WordBits(r ^ 0xffff_ffff, 32) == Remainder(Dividend(crc ^ 0xffff_ffff, MessageBits(s)))
  }

  lemma ChecksumRemainder(crc: bv32, s: Bytes)
    ensures IsChecksum(crc, s, Crc32c(crc, s))
  {
    hide WordBits, Dividend, Feed, FeedBits, Remainder, MessageBits;
    Complemented(crc, s);
    FeedMessageBits(crc ^ 0xffff_ffff, s);
    RegisterIsRemainder(crc ^ 0xffff_ffff, MessageBits(s));
  }
}
