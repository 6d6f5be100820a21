/** The register run on zero bytes, down to numbers: the residue, and a published answer. */
module KnownAnswers {
  import opened Crc32cSpec

  lemma FourSteps(x: bv32)
    ensures BitSteps(x, 4) == BitStep(BitStep(BitStep(BitStep(x))))
  {
    hide BitStep;
    var y := BitStep(BitStep(x));
    assert BitSteps(x, 4) == BitSteps(y, 2) == BitSteps(BitStep(y), 1);
  }

  predicate FourStepsLead(x: bv32, y: bv32) { BitStep(BitStep(BitStep(BitStep(x)))) == y }

  lemma TwoZeroBytes(a: bv32, b: bv32, c: bv32, d: bv32, e: bv32)
    requires FourStepsLead(a, b) && FourStepsLead(b, c) && FourStepsLead(c, d) && FourStepsLead(d, e)
    ensures BitSteps(a, 16) == e
  {
    hide BitStep, BitSteps;
    FourSteps(a);
    FourSteps(b);
    FourSteps(c);
    FourSteps(d);
    BitStepsAdd(a, 4, 4);
    BitStepsAdd(a, 8, 4);
    BitStepsAdd(a, 12, 4);
  }

  /** What four zero bytes make of a register of ones. */
  lemma FourZeroBytes()
    ensures BitSteps(0xffffffff, 32) == 0xb798b438
  {
    hide BitSteps;
    TwoZeroBytes(0xffffffff, 0xfc91908a, 0xad82acae, 0xe9e882d0, 0x0e9e882d);
    TwoZeroBytes(0x0e9e882d, 0xd33a0929, 0x9f9b5c85, 0x58dc6f1b, 0xb798b438);
    BitStepsAdd(0xffffffff, 16, 16);
  }

  lemma NextTwelveZeroBytes()
    ensures BitSteps(0xb798b438, 96) == 0xbd8f6515
  {
    hide BitSteps;
    TwoZeroBytes(0xb798b438, 0x898fb03b, 0xba8d89ca, 0xa9e36d3a, 0xa8d58375);
    TwoZeroBytes(0xa8d58375, 0x5ba882e4, 0x44c19592, 0x24f19787, 0x73d74d75);
    TwoZeroBytes(0x73d74d75, 0x5618ae04, 0x441a975c, 0xc7cc8fb1, 0x1c220f94);
    TwoZeroBytes(0x1c220f94, 0x40b93d45, 0x552e4907, 0x74cab09d, 0xd49f4aa2);
    TwoZeroBytes(0xd49f4aa2, 0x2df47a74, 0x43a45a1b, 0xb62f3768, 0x8994c80e);
    TwoZeroBytes(0x8994c80e, 0xeba9e49a, 0xacf12bef, 0xf9a17dcb, 0xbd8f6515);
    BitStepsAdd(0xb798b438, 16, 16);
    BitStepsAdd(0xb798b438, 32, 16);
    BitStepsAdd(0xb798b438, 48, 16);
    BitStepsAdd(0xb798b438, 64, 16);
    BitStepsAdd(0xb798b438, 80, 16);
  }

  lemma LastSixteenZeroBytes()
    ensures BitSteps(0xbd8f6515, 128) == 0x756ec955
  {
    hide BitSteps;
    TwoZeroBytes(0xbd8f6515, 0x5afd2c82, 0x25125c16, 0x6397b6a3, 0x36da32db);
    TwoZeroBytes(0x36da32db, 0xb178d1e4, 0x4a6c90a2, 0x241b47d4, 0x433aa9c1);
    TwoZeroBytes(0x433aa9c1, 0x146d6df3, 0x31a59f6e, 0xe02af1ec, 0xcd8f89da);
    TwoZeroBytes(0xcd8f89da, 0xae934d3b, 0xb8fc461a, 0xa9c471c7, 0x7b041311);
    TwoZeroBytes(0x7b041311, 0x17ee865e, 0xe24e407f, 0xfd4a8b72, 0x2f692669);
    TwoZeroBytes(0x2f692669, 0x905e6e71, 0x195b2188, 0x83638960, 0x08363896);
    TwoZeroBytes(0x08363896, 0x6145f0eb, 0xb4012dc7, 0x7ad846d1, 0x17f34302);
    TwoZeroBytes(0x17f34302, 0x21c2baee, 0xe12c83b4, 0x4f69d587, 0x756ec955);
    BitStepsAdd(0xbd8f6515, 16, 16);
    BitStepsAdd(0xbd8f6515, 32, 16);
    BitStepsAdd(0xbd8f6515, 48, 16);
    BitStepsAdd(0xbd8f6515, 64, 16);
    BitStepsAdd(0xbd8f6515, 80, 16);
    BitStepsAdd(0xbd8f6515, 96, 16);
    BitStepsAdd(0xbd8f6515, 112, 16);
  }

  /** The answer that appendix B.4 of RFC 3720 gives for 32 zero bytes. */
  lemma ThirtyTwoZeros()
    ensures Crc32c(0, Zeros(32)) == 0x8a9136aa
  {
    hide Feed, BitSteps;
    FourZeroBytes();
    NextTwelveZeroBytes();
    LastSixteenZeroBytes();
    BitStepsAdd(0xffffffff, 32, 96);
    BitStepsAdd(0xffffffff, 128, 128);
    FeedZeros(0xffffffff, 32);
  }
}
