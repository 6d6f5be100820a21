/** The two implementations of the checksum: the portable table loop, and the three-way
  interleaved form that recombines partial checksums through the zeros operator. */
module Crc32cEngine {
  import opened Crc32cSpec
  import opened Crc32Instructions
  import opened Gf2Matrix
  import opened PolyDivision

  const LONG := 8192
  const SHORT := 256

  // ----- Bytes of a word

  function Byte0(x: bv32): bv8 { (x & 0xff) as bv8 }
  function Byte1(x: bv32): bv8 { ((x >> 8) & 0xff) as bv8 }
  function Byte2(x: bv32): bv8 { ((x >> 16) & 0xff) as bv8 }
  function Byte3(x: bv32): bv8 { (x >> 24) as bv8 }

  function Place1(x: bv32): bv32 { x << 8 }
  function Place2(x: bv32): bv32 { x << 16 }
  function Place3(x: bv32): bv32 { x << 24 }

  lemma ReassembleWord(x: bv32)
    ensures Xor(Xor(Xor(Wide(Byte0(x)), Place1(Wide(Byte1(x)))), Place2(Wide(Byte2(x)))),
                Place3(Wide(Byte3(x)))) == x
  {}

  lemma LowByteIsByte0(x: bv32)
    ensures LowByte(x) == Wide(Byte0(x))
  {}

  // ----- Tables

  /** Column `n` holds the zeros operator applied to the four placements of `w`. */
  ghost predicate Column(zeros: array2<bv32>, n: nat, w: bv32, bits: nat)
    requires zeros.Length0 == 4 && zeros.Length1 == 256 && n < 256
    reads zeros
  {
    && zeros[0, n] == BitSteps(w, bits)
    && zeros[1, n] == BitSteps(Place1(w), bits)
    && zeros[2, n] == BitSteps(Place2(w), bits)
    && zeros[3, n] == BitSteps(Place3(w), bits)
  }

  ghost predicate IsShiftTable(zeros: array2<bv32>, bits: nat)
    reads zeros
  {
    && zeros.Length0 == 4 && zeros.Length1 == 256
    && forall b: bv8 {:trigger ByteValue(b)} :: Column(zeros, ByteValue(b), Wide(b), bits)
  }

  ghost predicate IsByteTable(table: array<bv32>)
    reads table
  {
    && table.Length == 256
    && forall b: bv8 {:trigger ByteValue(b)} :: table[ByteValue(b)] == BitSteps(Wide(b), 8)
  }

  /** Four lookups that apply a zeros operator to a register. */
  function Shift(zeros: array2<bv32>, crc: bv32): bv32
    requires zeros.Length0 == 4 && zeros.Length1 == 256
    reads zeros
  {
    Xor(Xor(Xor(zeros[0, ByteValue(Byte0(crc))], zeros[1, ByteValue(Byte1(crc))]),
            zeros[2, ByteValue(Byte2(crc))]), zeros[3, ByteValue(Byte3(crc))])
  }

  lemma ShiftIsZeros(zeros: array2<bv32>, crc: bv32, bits: nat)
    requires IsShiftTable(zeros, bits)
    ensures Shift(zeros, crc) == BitSteps(crc, bits)
  {
    hide Xor, Wide, ByteValue, Byte0, Byte1, Byte2, Byte3, Place1, Place2, Place3, BitSteps;
    var a, b := Wide(Byte0(crc)), Place1(Wide(Byte1(crc)));
    var c, d := Place2(Wide(Byte2(crc))), Place3(Wide(Byte3(crc)));
    ReassembleWord(crc);
    BitStepsLinear(a, b, bits);
    BitStepsLinear(Xor(a, b), c, bits);
    BitStepsLinear(Xor(Xor(a, b), c), d, bits);
  }

  method FillColumn(zeros: array2<bv32>, op: array<bv32>, n: nat, w: bv32, ghost bits: nat)
    requires zeros.Length0 == 4 && zeros.Length1 == 256 && n < 256
    requires IsZerosOperator(op[..], bits)
    modifies zeros
    ensures Column(zeros, n, w, bits)
    ensures forall i, j :: 0 <= i < 4 && 0 <= j < 256 && j != n ==> zeros[i, j] == old(zeros[i, j])
  {
    hide Place1, Place2, Place3, BitSteps, Times, Fits;
    EveryWordFits(w);
    EveryWordFits(Place1(w));
    EveryWordFits(Place2(w));
    EveryWordFits(Place3(w));
    zeros[0, n] := MatrixTimes(op, w);
    zeros[1, n] := MatrixTimes(op, Place1(w));
    zeros[2, n] := MatrixTimes(op, Place2(w));
    zeros[3, n] := MatrixTimes(op, Place3(w));
  }

  /** Builds the four tables that skip a register over `len` zero bytes. */
  method ZeroTables(zeros: array2<bv32>, len: nat)
    requires zeros.Length0 == 4 && zeros.Length1 == 256
    modifies zeros
    ensures IsShiftTable(zeros, 8 * FloorPow2(len))
  {
    hide Wide, ByteValue, ByteOf, BitSteps, FloorPow2, Place1, Place2, Place3;
    var op := new bv32[32];
    ZerosOp(op, len);
    ghost var m, bits := op[..], 8 * FloorPow2(len);
    for n := 0 to 256
      invariant op[..] == m
      invariant forall b: bv8 {:trigger ByteValue(b)} :: ByteValue(b) < n ==> Column(zeros, ByteValue(b), Wide(b), bits)
    {
      ByteNumbered(n);
      FillColumn(zeros, op, n, Wide(ByteOf(n)), bits);
    }
  }

  lemma MaskedStep(val: bv32)
    ensures (val >> 1) ^ (POLY & (0 - (val & 1))) == BitStep(val)
  {}

  method TableEntry(w: bv32) returns (val: bv32)
    ensures val == BitSteps(w, 8)
  {
    hide BitSteps, BitStep;
    val := w;
    for k := 0 to 8
      invariant BitSteps(val, 8 - k) == BitSteps(w, 8)
    {
      OneMoreStep(val, 8 - k);
      MaskedStep(val);
      val := (val >> 1) ^ (POLY & (0 - (val & 1)));
    }
    OneMoreStep(val, 0);
  }

  method ByteTable(table: array<bv32>)
    requires table.Length == 256
    modifies table
    ensures IsByteTable(table)
  {
    hide Wide, ByteValue, ByteOf, BitSteps;
    for n := 0 to 256
      invariant forall b: bv8 {:trigger ByteValue(b)} ::
                    ByteValue(b) < n ==> table[ByteValue(b)] == BitSteps(Wide(b), 8)
    {
      ByteNumbered(n);
      table[n] := TableEntry(Wide(ByteOf(n)));
    }
  }

  lemma OneMoreStep(x: bv32, n: nat)
    ensures BitSteps(x, n) == if n == 0 then x else BitSteps(BitStep(x), n - 1)
  {}

  // ----- Recombining partial checksums

  lemma Recombine(c: bv32, s: Bytes, t: Bytes)
    ensures Xor64(Extend(BitSteps(Feed(c, s), 8 * |t|)), Extend(Feed(0, t))) == Extend(Feed(c, s + t))
  {
    hide Xor64, Extend, Xor, Feed, BitSteps;
    FeedConcat(c, s, t);
    FeedFromZero(Feed(c, s), t);
    ExtendXor(BitSteps(Feed(c, s), 8 * |t|), Feed(0, t));
  }

  lemma Slices(buf: Bytes, i: nat, j: nat, k: nat)
    requires i <= j <= k <= |buf|
    ensures buf[i..j] + buf[j..k] == buf[i..k]
    ensures buf[..j] + buf[j..k] == buf[..k]
  {}

  /** A `crc32q` on the quadword at `j` extends the checksum of `buf[i..j]`. */
  lemma QuadExtends(c: bv32, buf: Bytes, i: nat, j: nat)
    requires i <= j && j + 8 <= |buf|
    ensures Crc32q(Extend(Feed(c, buf[i..j])), LittleEndian(buf[j..j + 8])) == Extend(Feed(c, buf[i..j + 8]))
  {
    hide Extend, Feed, Crc32q, LittleEndian;
    Crc32qFeeds(Feed(c, buf[i..j]), buf[j..j + 8]);
    FeedConcat(c, buf[i..j], buf[j..j + 8]);
    Slices(buf, i, j, j + 8);
  }

  lemma ByteExtends(c: bv32, buf: Bytes, j: nat)
    requires j < |buf|
    ensures Crc32b(Extend(Feed(c, buf[..j])), buf[j]) == Extend(Feed(c, buf[..j + 1]))
  {
    hide Extend, Feed, Crc32b, ByteStep;
    Crc32bFeeds(Feed(c, buf[..j]), buf[j]);
    FeedSnoc(c, buf[..j], buf[j]);
    assert buf[..j + 1] == buf[..j] + [buf[j]];
  }

  /** One set of three blocks: three independent registers, recombined with two shifts. */
  method ThreeBlocks(zeros: array2<bv32>, block: nat, ghost seed: bv32, buf: Bytes, from: nat, reg: bv64)
    returns (out: bv64)
    requires block > 0 && block % 8 == 0
    requires IsShiftTable(zeros, 8 * block)
    requires from + 3 * block <= |buf|
    requires reg == Extend(Feed(seed, buf[0..from]))
    ensures out == Extend(Feed(seed, buf[0..from + 3 * block]))
  {
    hide Feed, Extend, Crc32q, LittleEndian, Xor64, Shift, Low32, BitSteps;
    var crc0, crc1: bv64, crc2: bv64 := reg, Extend(0), Extend(0);
    var next, end := from, from + block;
    EmptyFeeds(buf, end);
    EmptyFeeds(buf, end + block);
    while true
      invariant from <= next < end && (end - next) % 8 == 0
      invariant crc0 == Extend(Feed(seed, buf[0..next]))
      invariant crc1 == Extend(Feed(0, buf[end..next + block]))
      invariant crc2 == Extend(Feed(0, buf[end + block..next + 2 * block]))
      decreases end - next
    {
      QuadExtends(seed, buf, 0, next);
      QuadExtends(0, buf, end, next + block);
      QuadExtends(0, buf, end + block, next + 2 * block);
      crc0 := Crc32q(crc0, LittleEndian(buf[next..next + 8]));
      crc1 := Crc32q(crc1, LittleEndian(buf[next + block..next + block + 8]));
      crc2 := Crc32q(crc2, LittleEndian(buf[next + 2 * block..next + 2 * block + 8]));
      next := next + 8;
      if next >= end {
        break;
      }
    }
    crc0 := ShiftAndAdd(zeros, block, seed, buf, end, crc0, crc1);
    out := ShiftAndAdd(zeros, block, seed, buf, end + block, crc0, crc2);
  }

  lemma EmptyFeeds(buf: Bytes, i: nat)
    requires i <= |buf|
    ensures Feed(0, buf[i..i]) == 0
  {}

  method ShiftAndAdd(zeros: array2<bv32>, block: nat, ghost seed: bv32, buf: Bytes, mid: nat,
                     crc0: bv64, crc1: bv64) returns (out: bv64)
    requires IsShiftTable(zeros, 8 * block)
    requires mid + block <= |buf|
    requires crc0 == Extend(Feed(seed, buf[0..mid]))
    requires crc1 == Extend(Feed(0, buf[mid..mid + block]))
    ensures out == Extend(Feed(seed, buf[0..mid + block]))
  {
    hide Feed, Extend, Xor64, Shift, Low32, BitSteps;
    out := Xor64(Extend(Shift(zeros, Low32(crc0))), crc1);
    ExtendLow(Feed(seed, buf[0..mid]));
    ShiftIsZeros(zeros, Low32(crc0), 8 * block);
    Recombine(seed, buf[0..mid], buf[mid..mid + block]);
    Slices(buf, 0, mid, mid + block);
  }

  lemma PowersOfTwo()
    ensures FloorPow2(8192) == 8192 == LONG && FloorPow2(256) == 256 == SHORT
  {
    assert FloorPow2(16) == 16;
    assert FloorPow2(SHORT) == SHORT;
    assert FloorPow2(1024) == 4 * FloorPow2(SHORT);
    assert FloorPow2(LONG) == 8 * FloorPow2(1024);
  }

  /** The tables, and the checksum in both of its forms. */
  class Engine {
    const long: array2<bv32>
    const short: array2<bv32>
    const table: array<bv32>

    ghost predicate Shaped() {
      && long != short
      && long.Length0 == short.Length0 == 4
      && long.Length1 == short.Length1 == table.Length == 256
    }

    ghost predicate Valid()
      reads long, short, table
    {
      && Shaped()
      && IsShiftTable(long, 8 * LONG)
      && IsShiftTable(short, 8 * SHORT)
      && IsByteTable(table)
    }

    constructor ()
      ensures Shaped() && fresh(long) && fresh(short) && fresh(table)
    {
      long := new bv32[4, 256];
      short := new bv32[4, 256];
      table := new bv32[256];
    }

    method Init()
      requires Shaped()
      modifies long, short, table
      ensures Valid()
    {
      hide IsByteTable;
      PowersOfTwo();
      ZeroTables(long, LONG);
      ZeroTables(short, SHORT);
      ByteTable(table);
    }

    /** The table loop, one byte at a time. */
    method Portable(crc: bv32, buf: Bytes) returns (r: bv32)
      requires Valid()
      ensures r == Crc32c(crc, buf)
      ensures IsChecksum(crc, buf, r)
    {
      ChecksumRemainder(crc, buf);
      hide Feed, BitSteps, Xor, Wide, ByteValue, Byte0, ShiftByte, LowByte, IsChecksum;
      EmptyBuffer(crc);
      if |buf| == 0 {
        return crc;
      }
      ghost var seed := Xor(crc, ONES);
      var val := Xor(crc, ONES);
      EmptyFeed(seed);
      for i := 0 to |buf|
        invariant val == Feed(seed, buf[..i])
      {
        var x := Xor(val, Wide(buf[i]));
        LowByteIsByte0(x);
        LowByteDecides(x);
        FeedSnoc(seed, buf[..i], buf[i]);
        assert buf[..i + 1] == buf[..i] + [buf[i]];
        ShiftIgnoresByte(val, buf[i]);
        val := Xor(table[ByteValue(Byte0(x))], ShiftByte(val));
      }
      assert buf[..|buf|] == buf;
      r := Xor(val, ONES);
    }

    /** The interleaved form; `addr` is the address the buffer starts at. */
    method Fast(crc: bv32, addr: nat, buf: Bytes) returns (r: bv32)
      requires Valid()
      ensures r == Crc32c(crc, buf)
      ensures IsChecksum(crc, buf, r)
    {
      ChecksumRemainder(crc, buf);
      hide Feed, BitSteps, Xor, Extend, Low32, Crc32b, Crc32q, LittleEndian, IsShiftTable, IsByteTable, IsChecksum;
      EmptyBuffer(crc);
      if |buf| == 0 {
        return crc;
      }
      ghost var seed := Xor(crc, ONES);
      var reg := Extend(Xor(crc, ONES));
      var next, len: nat := 0, |buf|;
      EmptyFeed(seed);
      while len != 0 && (addr + next) % 8 != 0
        invariant next + len == |buf|
        invariant reg == Extend(Feed(seed, buf[0..next]))
      {
        ByteExtends(seed, buf, next);
        reg := Crc32b(reg, buf[next]);
        next, len := next + 1, len - 1;
      }
      while len >= 3 * LONG
        invariant next + len == |buf|
        invariant reg == Extend(Feed(seed, buf[0..next]))
      {
        reg := ThreeBlocks(long, LONG, seed, buf, next, reg);
        next, len := next + 3 * LONG, len - 3 * LONG;
      }
      while len >= 3 * SHORT
        invariant next + len == |buf|
        invariant reg == Extend(Feed(seed, buf[0..next]))
      {
        reg := ThreeBlocks(short, SHORT, seed, buf, next, reg);
        next, len := next + 3 * SHORT, len - 3 * SHORT;
      }
      reg := Tail(seed, buf, next, reg);
      ExtendLow(Feed(seed, buf));
      r := Xor(Low32(reg), ONES);
    }
  }

  /** The rest of the buffer: eight bytes at a time, then one at a time. */
  method Tail(ghost seed: bv32, buf: Bytes, start: nat, before: bv64) returns (reg: bv64)
    requires start <= |buf| && before == Extend(Feed(seed, buf[0..start]))
    ensures reg == Extend(Feed(seed, buf))
  {
    hide Feed, BitSteps, Xor, Extend, Low32, Crc32b, Crc32q, LittleEndian;
    var next, len: nat := start, |buf| - start;
    reg := before;
    var end := next + (len - len % 8);
    while next < end
      invariant next <= end && (end - next) % 8 == 0 && end + len % 8 == |buf|
      invariant reg == Extend(Feed(seed, buf[0..next]))
    {
      QuadExtends(seed, buf, 0, next);
      reg := Crc32q(reg, LittleEndian(buf[next..next + 8]));
      next := next + 8;
    }
    len := len % 8;
    while len != 0
      invariant next + len == |buf|
      invariant reg == Extend(Feed(seed, buf[0..next]))
    {
      ByteExtends(seed, buf, next);
      reg := Crc32b(reg, buf[next]);
      next, len := next + 1, len - 1;
    }
    assert buf[0..next] == buf;
  }

  lemma EmptyFeed(c: bv32)
    ensures Feed(c, []) == c
  {}

  lemma EmptyBuffer(crc: bv32)
    ensures Crc32c(crc, []) == crc
  {
    Crc32cStreams(crc, [], []);
  }

  lemma ShiftIgnoresByte(x: bv32, b: bv8)
    ensures ShiftByte(Xor(x, Wide(b))) == ShiftByte(x)
  {}
}
