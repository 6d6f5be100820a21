/** The 48-byte basic header segment as the driver handles it: a block of memory into which
  fields are stored at fixed offsets, byte-swapped from a little-endian host. */
module PduHeader {
  import opened Words
  import opened Crc32cSpec

  const HEADER_SIZE := 48

  type Header = h: Bytes | |h| == HEADER_SIZE witness Zeros(48)

  // Byte offsets of the fields used here.
  const FLAGS := 1
  const DATA_LENGTH := 5
  const LUN := 8
  const TASK_TAG := 16
  const TRANSFER_TAG := 20
  const TRANSFER_LENGTH := 20
  const CMD_SN := 24
  const STAT_SN := 24
  const EXP_STAT_SN := 28
  const EXP_CMD_SN := 28
  const MAX_CMD_SN := 32
  const CDB := 32
  const DATA_SN := 36
  const BUFFER_OFFSET := 40
  const DESIRED_LENGTH := 44

  const OP_NOP_OUT: bv8 := 0x00
  const OP_SCSI_CMD: bv8 := 0x01
  const OP_DATA_OUT: bv8 := 0x05
  const OP_NOP_IN: bv8 := 0x20
  const OP_SCSI_RSP: bv8 := 0x21
  const OP_DATA_IN: bv8 := 0x25
  const OP_R2T: bv8 := 0x31
  const OP_ASYNC_MSG: bv8 := 0x32
  const OP_REJECT: bv8 := 0x3f

  const IMMEDIATE: bv8 := 0x40
  const FINAL: bv8 := 0x80
  const RESERVED_TAG: Bytes := [0xff, 0xff, 0xff, 0xff]

  // ----- Words in host memory

  /** The memory image of a word on a little-endian host. */
  function Le32(n: u32): (s: Bytes)
    ensures |s| == 4
  {
    [ByteOf(n % 256), ByteOf(n / 256 % 256), ByteOf(n / 65536 % 256), ByteOf(n / 16777216)]
  }

  /** The word with the given digits to the base 256, lowest first. */
  function Join4(a: nat, b: nat, c: nat, d: nat): u32
    requires a < 256 && b < 256 && c < 256 && d < 256
  {
    a + 256 * b + 65536 * c + 16777216 * d
  }

  function FromLe32(s: Bytes): u32
    requires |s| == 4
  {
    Join4(ByteValue(s[0]), ByteValue(s[1]), ByteValue(s[2]), ByteValue(s[3]))
  }

  function Reverse4(s: Bytes): (r: Bytes)
    requires |s| == 4
    ensures |r| == 4
  {
    [s[3], s[2], s[1], s[0]]
  }

  /** The byte swap between host and network order. */
  function Swap32(n: u32): u32 { FromLe32(Reverse4(Le32(n))) }

  lemma SumOfDigits(n: u32)
    ensures n % 256 + 256 * (n / 256 % 256) + 65536 * (n / 65536 % 256) + 16777216 * (n / 16777216) == n
    ensures n / 16777216 < 256
    ensures n % 0x100_0000 == n - 16777216 * (n / 16777216)
  {
    var a, b, c := n / 256, n / 65536, n / 16777216;
    assert a / 256 == b && b / 256 == c;
    assert n == n % 256 + 256 * a && a == a % 256 + 256 * b && b == b % 256 + 256 * c;
  }

  lemma Le32RoundTrip(n: u32)
    ensures FromLe32(Le32(n)) == n
  {
    hide ByteOf, ByteValue;
    SumOfDigits(n);
    ValueOfByte(n % 256);
    ValueOfByte(n / 256 % 256);
    ValueOfByte(n / 65536 % 256);
    ValueOfByte(n / 16777216);
  }

  lemma LowestDigit(a: nat, m: nat)
    requires a < 256
    ensures (a + 256 * m) % 256 == a && (a + 256 * m) / 256 == m
  {}

  lemma DivideInSteps(n: nat)
    ensures n / 65536 == n / 256 / 256 && n / 16777216 == n / 256 / 256 / 256
  {
    var q := n / 256;
    assert n / 65536 == q / 256;
    assert n / 16777216 == n / 65536 / 256;
  }

  lemma DigitsOf(a: nat, b: nat, c: nat, d: nat)
    requires a < 256 && b < 256 && c < 256 && d < 256
    ensures var n := a + 256 * b + 65536 * c + 16777216 * d;
            n % 256 == a && n / 256 % 256 == b && n / 65536 % 256 == c && n / 16777216 == d
  {
    var n := a + 256 * b + 65536 * c + 16777216 * d;
    var m := b + 256 * c + 65536 * d;
    LowestDigit(a, m);
    assert n == a + 256 * m;
    LowestDigit(b, c + 256 * d);
    assert m == b + 256 * (c + 256 * d);
    LowestDigit(c, d);
    DivideInSteps(n);
  }

  lemma FromLe32RoundTrip(s: Bytes)
    requires |s| == 4
    ensures Le32(FromLe32(s)) == s
  {
    hide ByteOf, ByteValue;
    ByteOfValue(s[0]);
    ByteOfValue(s[1]);
    ByteOfValue(s[2]);
    ByteOfValue(s[3]);
    DigitsOf(ByteValue(s[0]), ByteValue(s[1]), ByteValue(s[2]), ByteValue(s[3]));
  }

  lemma SwapImage(n: u32)
    ensures Le32(Swap32(n)) == Reverse4(Le32(n))
  {
    hide Le32, FromLe32;
    FromLe32RoundTrip(Reverse4(Le32(n)));
  }

  lemma SwapTwice(n: u32)
    ensures Swap32(Swap32(n)) == n
  {
    SwapImage(n);
    Le32RoundTrip(n);
    assert Reverse4(Reverse4(Le32(n))) == Le32(n);
  }

  // ----- Fields

  function Put(h: Header, at: nat, s: Bytes): Header
    requires at + |s| <= HEADER_SIZE
  {
    h[..at] + s + h[at + |s|..]
  }

  function Field(h: Header, at: nat, n: nat): Bytes
    requires at + n <= HEADER_SIZE
  {
    h[at..at + n]
  }

  lemma FieldIs(h: Header, at: nat, n: nat)
    requires at + n <= HEADER_SIZE
    ensures Field(h, at, n) == h[at..at + n]
  {}

  lemma FieldOfPut(h: Header, at: nat, s: Bytes, at': nat, n: nat)
    requires at + |s| <= HEADER_SIZE && at' + n <= HEADER_SIZE
    ensures at == at' && n == |s| ==> Field(Put(h, at, s), at', n) == s
    ensures at' + n <= at || at + |s| <= at' ==> Field(Put(h, at, s), at', n) == Field(h, at', n)
  {
    var p := Put(h, at, s);
    if at == at' && n == |s| {
      assert p[at..at + n] == s;
    }
    if at' + n <= at || at + |s| <= at' {
      forall i | at' <= i < at' + n
        ensures p[i] == h[i]
      {
        if at + |s| <= i {
          assert p[i] == h[at + |s|..][i - (at + |s|)];
        }
      }
    }
  }

  lemma SubSlice(s: Bytes, t: Bytes, i: nat, j: nat, from: nat, to: nat)
    requires i <= from <= to <= j <= |s| && |s| == |t| && s[i..j] == t[i..j]
    ensures s[from..to] == t[from..to]
  {
    forall k | from <= k < to
      ensures s[k] == t[k]
    {
      assert s[k] == s[i..j][k - i] && t[k] == t[i..j][k - i];
    }
  }

  lemma PutBetween(a: Bytes, b: Bytes, c: Bytes, s: Bytes)
    requires |a| + |b| + |c| == HEADER_SIZE && |s| == |b|
    ensures Put(a + b + c, |a|, s) == a + s + c
  {}

  function PutWord(h: Header, at: nat, n: u32): Header
    requires at + 4 <= HEADER_SIZE
  {
    Put(h, at, Le32(Swap32(n)))
  }

  function Word(h: Header, at: nat): u32
    requires at + 4 <= HEADER_SIZE
  {
    Swap32(FromLe32(Field(h, at, 4)))
  }

  lemma WordOfPut(h: Header, at: nat, n: u32)
    requires at + 4 <= HEADER_SIZE
    ensures Word(PutWord(h, at, n), at) == n
  {
    hide Le32, FromLe32, Swap32, Put, Field;
    FieldOfPut(h, at, Le32(Swap32(n)), at, 4);
    Le32RoundTrip(Swap32(n));
    SwapTwice(n);
  }

  /** A stored word is in network order on the wire. */
  lemma WordOnWire(h: Header, at: nat, n: u32)
    requires at + 4 <= HEADER_SIZE
    ensures Field(PutWord(h, at, n), at, 4) ==
            [ByteOf(n / 16777216), ByteOf(n / 65536 % 256), ByteOf(n / 256 % 256), ByteOf(n % 256)]
  {
    hide Swap32, Put, Field;
    FieldOfPut(h, at, Le32(Swap32(n)), at, 4);
    SwapImage(n);
  }

  /** Four bytes as a number in network order, the most significant first. */
  function BigEndian(s: Bytes): u32
    requires |s| == 4
  {
    ((ByteValue(s[0]) * 256 + ByteValue(s[1])) * 256 + ByteValue(s[2])) * 256 + ByteValue(s[3])
  }

  /** Reading a word is reading four bytes in network order. */
  lemma WordIsBigEndian(h: Header, at: nat)
    requires at + 4 <= HEADER_SIZE
    ensures Word(h, at) == BigEndian(h[at..at + 4])
  {
    hide ByteOf, ByteValue;
    FromLe32RoundTrip(Field(h, at, 4));
  }

  lemma StoredBigEndian(n: u32)
    ensures BigEndian(Le32(Swap32(n))) == n
  {
    hide ByteOf, ByteValue;
    SwapImage(n);
    Le32RoundTrip(n);
  }

  // ----- The 24-bit data segment length

  function SetDataLength(h: Header, length: u32): Header {
    Put(h, DATA_LENGTH, Le32(Swap32(length) / 256)[..3])
  }

  /** A word shifted left by a byte; the top byte falls out. */
  function ShiftedByte(n: u32): u32 { n % 0x100_0000 * 256 }

  function DataLength(h: Header): u32 {
    Swap32(ShiftedByte(FromLe32(Field(h, DATA_LENGTH, 3) + [ByteOf(0)])))
  }

  lemma ImageAfterShift(n: u32)
    ensures Le32(n / 256)[..3] == Le32(n)[1..]
  {
    hide ByteOf;
    assert (n / 256) % 256 == n / 256 % 256;
    assert (n / 256) / 256 % 256 == n / 65536 % 256;
    assert (n / 256) / 65536 % 256 == n / 16777216;
  }

  lemma ShiftedSum(a: nat, b: nat, c: nat)
    requires a < 256 && b < 256 && c < 256
    ensures ShiftedByte(Join4(a, b, c, 0)) == Join4(0, a, b, c)
  {
    SmallRemainder(Join4(a, b, c, 0));
  }

  lemma SmallRemainder(n: nat)
    ensures n < 0x100_0000 ==> n % 0x100_0000 == n
  {}

  lemma ImageAfterShiftBack(s: Bytes)
    requires |s| == 3
    ensures Le32(ShiftedByte(FromLe32(s + [ByteOf(0)]))) == [ByteOf(0)] + s
  {
    hide Le32, ByteOf, ByteValue, Join4;
    ValueOfByte(0);
    var t := [ByteOf(0)] + s;
    ShiftedSum(ByteValue(s[0]), ByteValue(s[1]), ByteValue(s[2]));
    assert ShiftedByte(FromLe32(s + [ByteOf(0)])) == FromLe32(t);
    FromLe32RoundTrip(t);
  }

  /** The length on the wire is the low 24 bits in network order, and is read back as such. */
  lemma DataLengthRoundTrip(h: Header, length: u32)
    ensures SetDataLength(h, length)[5..8] ==
            [ByteOf(length / 65536 % 256), ByteOf(length / 256 % 256), ByteOf(length % 256)]
    ensures DataLength(SetDataLength(h, length)) == length % 0x100_0000
  {
    hide ByteOf, ByteValue, Field, Put, FromLe32, ShiftedByte;
    var s := Le32(Swap32(length) / 256)[..3];
    FieldOfPut(h, DATA_LENGTH, s, DATA_LENGTH, 3);
    FieldIs(SetDataLength(h, length), DATA_LENGTH, 3);
    ImageAfterShift(Swap32(length));
    SwapImage(length);
    assert s == [Le32(length)[2], Le32(length)[1], Le32(length)[0]];
    ImageAfterShiftBack(s);
    ReadBack(length);
  }

  lemma ReadBack(length: u32)
    ensures FromLe32([ByteOf(length % 256), ByteOf(length / 256 % 256), ByteOf(length / 65536 % 256), ByteOf(0)])
            == length % 0x100_0000
  {
    hide ByteOf, ByteValue;
    SumOfDigits(length);
    ValueOfByte(length % 256);
    ValueOfByte(length / 256 % 256);
    ValueOfByte(length / 65536 % 256);
    ValueOfByte(0);
  }
}
