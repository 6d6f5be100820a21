/** Four bytes can steer the checksum to any value.  A header can therefore have any digest, and one
  whose digest word a two-bit error turns to zero is accepted in a changed form. */
module SteeredDigest {
  import opened Crc32cSpec
  import opened Crc32cEngine
  import opened Gf2Matrix
  import opened PolyDivision
  import opened BurstErrors
  import opened PduHeader
  import opened PduStream

  /** Undoes one bit step. */
  function BitUnstep(y: bv32): bv32 {
    if TopBit(y) then Xor(Double(Xor(y, POLY)), 1) else Double(y)
  }

  predicate TopBit(y: bv32) { y & 0x8000_0000 != 0 }

  function BitUnsteps(y: bv32, n: nat): bv32
    decreases n
  {
    if n == 0 then y else BitUnstep(BitUnsteps(y, n - 1))
  }

  lemma UndoubledEven(z: bv32)
    requires !TopBit(z)
    ensures Half(Double(z)) == z && Pick(Double(z), POLY) == 0
  {}

  lemma UndoubledOdd(z: bv32)
    requires !TopBit(z)
    ensures Half(Xor(Double(z), 1)) == z && Pick(Xor(Double(z), 1), POLY) == POLY
  {}

  lemma TopBitCleared(y: bv32)
    requires TopBit(y)
    ensures !TopBit(Xor(y, POLY))
  {}

  lemma UnstepStep(y: bv32)
    ensures BitStep(BitUnstep(y)) == y
  {
    hide Half, Double, Pick, Xor, TopBit;
    if TopBit(y) {
      TopBitCleared(y);
      UndoubledOdd(Xor(y, POLY));
      XorCancel(y, POLY);
    } else {
      UndoubledEven(y);
      XorUnit(y);
    }
  }

  /** Bit steps are onto: every register can be reached. */
  lemma {:induction false} StepsReach(y: bv32, n: nat)
    ensures BitSteps(BitUnsteps(y, n), n) == y
    decreases n
  {
    hide BitStep, BitUnstep;
    if n > 0 {
      UnstepStep(BitUnsteps(y, n - 1));
      StepsReach(y, n - 1);
    }
  }

  /** The four bytes that take the register of `s` to `target`. */
  function Steering(s: Bytes, digest: bv32): (t: Bytes)
    ensures |t| == 4
  {
    DigestBytes(Xor(Feed(Xor(0, ONES), s), BitUnsteps(Xor(digest, ONES), 32)))
  }

  lemma FeedDigestBytes(c: bv32, d: bv32)
    ensures Feed(c, DigestBytes(d)) == BitSteps(Xor(c, d), 32)
  {
    hide Feed, FeedBits, DigestBytes, MessageBits, WordBits, Fits, BitSteps, Xor;
    FeedMessageBits(c, DigestBytes(d));
    DigestBits(d);
    EveryWordFits(d);
    FeedWordBits(c, d, 32);
  }

  /** Every message can be extended by four bytes to have any given digest. */
  lemma FourBytesSteer(s: Bytes, digest: bv32)
    ensures Crc32c(0, s + Steering(s, digest)) == digest
  {
    hide Feed, DigestBytes, BitSteps, BitUnsteps, Xor;
    var c, target := Feed(Xor(0, ONES), s), Xor(digest, ONES);
    var x := BitUnsteps(target, 32);
    FeedConcat(Xor(0, ONES), s, Steering(s, digest));
    FeedDigestBytes(c, Xor(c, x));
    XorAssoc(c, c, x);
    XorUnit(c);
    XorUnit(x);
    StepsReach(target, 32);
    XorCancel(digest, ONES);
  }

  // ----- A changed header that is accepted

  /** Flips the last bit of a header in transmission order. */
  function FlipLast(h: Header): (r: Header)
    ensures r != h
  {
    FlipTopDiffers(h[47]);
    var r := h[47 := FlipTop(h[47])];
    assert r[47] != h[47];
    r
  }

  function FlipTop(b: bv8): bv8 { b ^ 0x80 }

  lemma FlipTopDiffers(b: bv8)
    ensures FlipTop(b) != b
  {}

  lemma FlipTopBits(b: bv8)
    ensures FourBits(Wide(FlipTop(b))) == FourBits(Wide(b))
    ensures FourBits(Half4(Wide(FlipTop(b))))[..3] == FourBits(Half4(Wide(b)))[..3]
  {}

  lemma FlippedByte(b: bv8)
    ensures WordBits(Wide(FlipTop(b)), 8)[..7] == WordBits(Wide(b), 8)[..7]
  {
    hide FourBits, WordBits, Wide, Half4, FlipTop;
    EightBits(Wide(b));
    EightBits(Wide(FlipTop(b)));
    FlipTopBits(b);
    FourLong(Wide(b));
    FourLong(Wide(FlipTop(b)));
  }

  lemma FourLong(x: bv32)
    ensures |FourBits(x)| == 4
  {}

  lemma OneThenZeros()
    ensures WordBits(1, 32)[1..] == Nought(32)[1..]
  {
    WordBitsTail(1, 32);
    assert Half(1) == 0;
    WordBitsZero(31);
  }

  lemma ZerosOnWire()
    ensures DigestBytes(0) == Zeros(4)
  {}

  lemma JoinBits(a: Poly, b: Poly, b': Poly, c: Poly, c': Poly)
    requires |a| == 376 && |b| == |b'| == 8 && |c| == |c'| == 32
    requires b[..7] == b'[..7] && c[1..] == c'[1..]
    ensures (a + b + c)[..383] == (a + b' + c')[..383]
    ensures (a + b + c)[385..] == (a + b' + c')[385..]
  {
    assert (a + b + c)[..383] == a + b[..7] && (a + b' + c')[..383] == a + b'[..7];
    assert (a + b + c)[385..] == c[1..] && (a + b' + c')[385..] == c'[1..];
  }

  lemma HeaderBits(h: Header, d: bv32)
    ensures MessageBits(h + DigestBytes(d)) == MessageBits(h[..47]) + WordBits(Wide(h[47]), 8) + WordBits(d, 32)
  {
    hide MessageBits, WordBits, DigestBytes, Wide;
    assert h == h[..47] + [h[47]];
    MessageBitsConcat(h, DigestBytes(d));
    MessageBitsConcat(h[..47], [h[47]]);
    SingleByteBits([h[47]]);
    DigestBits(d);
  }

  lemma TwoBitsApart(h: Header)
    ensures DifferInWindow(h + DigestBytes(1), FlipLast(h) + Zeros(4), 383, 2)
  {
    hide MessageBits, WordBits, DigestBytes, Wide, FlipTop;
    var h' := FlipLast(h);
    assert h'[..47] == h[..47];
    HeaderBits(h, 1);
    HeaderBits(h', 0);
    ZerosOnWire();
    FlippedByte(h[47]);
    OneThenZeros();
    WordBitsZero(32);
    JoinBits(MessageBits(h[..47]), WordBits(Wide(h[47]), 8), WordBits(Wide(h'[47]), 8),
             WordBits(1, 32), WordBits(0, 32));
  }

  /** Every beginning of 44 bytes belongs to a header whose digest is 1.  Sent with its digest and hit by
    a burst of two bits, that header arrives changed, its digest word zero, and is accepted. */
  lemma ChangedHeaderAccepted(start: Bytes, pre: Bytes, rest: Bytes)
    requires |start| == 44
    ensures var h: Header := start + Steering(start, 1);
            var got := FlipLast(h) + Zeros(4);
            && DifferInWindow(h + Digest(true, h), got, 383, 2)
            && FlipLast(h) != h
            && ReadHeader(pre + got + rest, |pre|, true) == Accepted(FlipLast(h), |pre| + 52)
  {
    hide Crc32c, Steering, FlipLast, DigestBytes, DifferInWindow, DigestWord, Available;
    var h: Header := start + Steering(start, 1);
    var h' := FlipLast(h);
    FourBytesSteer(start, 1);
    TwoBitsApart(h);
    AvailableMiddle(pre, h' + Zeros(4), rest);
    ZeroWord();
    assert (h' + Zeros(4))[..HEADER_SIZE] == h' && (h' + Zeros(4))[HEADER_SIZE..] == Zeros(4);
  }
}
