/** Matrices over GF(2) stored as 32 columns in machine words, and the operator that
  advances a CRC register over a run of zero bytes. */
module Gf2Matrix {
  import opened Crc32cSpec

  type Matrix = seq<bv32>

  /** The product: the exclusive-or of the columns that the bits of `v` select. */
  function Times(m: Matrix, v: bv32): bv32
    decreases |m|
  {
    if m == [] then 0 else Xor(Pick(v, m[0]), Times(m[1..], Half(v)))
  }

  /** `v` has no bit set at position `n` or above. */
  predicate Fits(v: bv32, n: nat)
    decreases n
  {
    if n == 0 then v == 0 else Fits(Half(v), n - 1)
  }

  function Map(f: bv32 -> bv32, m: Matrix): Matrix {
    seq(|m|, i requires 0 <= i < |m| => f(m[i]))
  }

  ghost predicate Linear(f: bv32 -> bv32) {
    forall a: bv32, b: bv32 {:trigger f(Xor(a, b))} :: f(Xor(a, b)) == Xor(f(a), f(b))
  }

  ghost predicate IsZerosOperator(m: Matrix, bits: nat) {
    && |m| == 32
    && forall v: bv32 {:trigger Times(m, v)} :: Times(m, v) == BitSteps(v, bits)
  }

  /** The largest power of two not above `n`, and 1 for 0. */
  function FloorPow2(n: nat): (p: nat)
    ensures n >= 1 ==> p <= n < 2 * p
    ensures p >= 1
  {
    if n < 2 then 1 else 2 * FloorPow2(n / 2)
  }

  // ----- Words

  lemma HalfZero()
    ensures Half(0) == 0 && forall row: bv32 {:trigger Pick(0, row)} :: Pick(0, row) == 0
  {}

  lemma {:induction false} FitsAfter(v: bv32, k: nat, n: nat)
    requires Fits(Halves(v, k), n)
    ensures Fits(v, k + n)
    decreases k
  {
    hide Half;
    if k > 0 {
      FitsAfter(Half(v), k - 1, n);
    }
  }

  lemma EightHalvesShift(v: bv32)
    ensures Half4(Half4(v)) == ShiftByte(v)
  {}

  lemma FourShifts(v: bv32)
    ensures ShiftByte(ShiftByte(ShiftByte(ShiftByte(v)))) == 0
  {}

  lemma EveryWordFits(v: bv32)
    ensures Fits(v, 32)
  {
    hide Half, Half4, ShiftByte;
    var a := ShiftByte(v);
    var b := ShiftByte(a);
    var c := ShiftByte(b);
    EightHalves(v); EightHalvesShift(v);
    EightHalves(a); EightHalvesShift(a);
    EightHalves(b); EightHalvesShift(b);
    EightHalves(c); EightHalvesShift(c);
    FourShifts(v);
    FitsAfter(c, 8, 0);
    FitsAfter(b, 8, 8);
    FitsAfter(a, 8, 16);
    FitsAfter(v, 8, 24);
  }

  // ----- The product

  lemma {:induction false} TimesZero(m: Matrix)
    ensures Times(m, 0) == 0
    decreases |m|
  {
    hide Xor, Pick, Half;
    if m != [] {
      HalfZero();
      assert Pick(0, m[0]) == 0;
      XorUnit(0);
      TimesZero(m[1..]);
    }
  }

  lemma {:induction false} TimesLinear(m: Matrix, a: bv32, b: bv32)
    ensures Times(m, Xor(a, b)) == Xor(Times(m, a), Times(m, b))
    decreases |m|
  {
    hide Xor, Pick, Half;
    if m == [] {
      XorUnit(0);
    } else {
      HalfLinear(a, b);
      PickLinear(a, b, m[0]);
      TimesLinear(m[1..], Half(a), Half(b));
      XorExchange(Pick(a, m[0]), Pick(b, m[0]), Times(m[1..], Half(a)), Times(m[1..], Half(b)));
    }
  }

  lemma LinearZero(f: bv32 -> bv32)
    requires Linear(f)
    ensures f(0) == 0
  {
    hide Xor;
    XorUnit(0);
    XorUnit(f(0));
    assert f(Xor(0, 0)) == Xor(f(0), f(0));
  }

  lemma PickMap(f: bv32 -> bv32, v: bv32, row: bv32)
    requires f(0) == 0
    ensures Pick(v, f(row)) == f(Pick(v, row))
  {}

  /** A linear map applied to every column is the map applied after the product. */
  lemma {:induction false} TimesMap(f: bv32 -> bv32, m: Matrix, v: bv32)
    requires Linear(f)
    ensures Times(Map(f, m), v) == f(Times(m, v))
    decreases |m|
  {
    hide Xor, Pick, Half;
    LinearZero(f);
    if m != [] {
      assert Map(f, m)[1..] == Map(f, m[1..]);
      TimesMap(f, m[1..], Half(v));
      PickMap(f, v, m[0]);
      assert f(Xor(Pick(v, m[0]), Times(m[1..], Half(v)))) ==
             Xor(f(Pick(v, m[0])), f(Times(m[1..], Half(v))));
    }
  }

  function Square(m: Matrix): Matrix {
    Map(v => Times(m, v), m)
  }

  lemma SquareIsTwice(m: Matrix, v: bv32)
    ensures Times(Square(m), v) == Times(m, Times(m, v))
  {
    hide Times, Xor;
    var f := (v: bv32) => Times(m, v);
    forall a: bv32, b: bv32
      ensures f(Xor(a, b)) == Xor(f(a), f(b))
    {
      TimesLinear(m, a, b);
    }
    TimesMap(f, m, v);
  }

  lemma SquareDoubles(m: Matrix, bits: nat)
    requires IsZerosOperator(m, bits)
    ensures IsZerosOperator(Square(m), 2 * bits)
  {
    hide Times, BitSteps;
    forall v: bv32
      ensures Times(Square(m), v) == BitSteps(v, 2 * bits)
    {
      SquareIsTwice(m, v);
      BitStepsAdd(v, bits, bits);
    }
  }

  // ----- The operator for one zero bit

  function Double(x: bv32): bv32 { x << 1 }

  function Bit(i: nat): bv32 {
    if i == 0 then 1 else Double(Bit(i - 1))
  }

  function UnitRows(n: nat): Matrix {
    seq(n, i requires 0 <= i < n => Bit(i))
  }

  lemma DoubleLinear(a: bv32, b: bv32)
    ensures Double(Xor(a, b)) == Xor(Double(a), Double(b))
  {}

  lemma LowBitAndRest(v: bv32)
    ensures Xor(Pick(v, 1), Double(Half(v))) == v
  {}

  lemma UnitRowsShape(n: nat)
    ensures n == 0 ==> UnitRows(n) == []
    ensures n > 0 ==> |UnitRows(n)| == n && UnitRows(n)[0] == 1
    ensures n > 0 ==> UnitRows(n)[1..] == Map(Double, UnitRows(n - 1))
  {
    hide Double;
    if n > 0 {
      forall i | 0 <= i < n - 1
        ensures UnitRows(n)[1..][i] == Map(Double, UnitRows(n - 1))[i]
      {
        assert Bit(i + 1) == Double(Bit(i));
      }
    }
  }

  lemma TimesDouble(m: Matrix, v: bv32)
    ensures Times(Map(Double, m), v) == Double(Times(m, v))
  {
    hide Xor, Times, Map, Double;
    forall a: bv32, b: bv32
      ensures Double(Xor(a, b)) == Xor(Double(a), Double(b))
    {
      DoubleLinear(a, b);
    }
    TimesMap(Double, m, v);
  }

  lemma {:induction false} UnitRowsIdentity(n: nat, v: bv32)
    requires Fits(v, n)
    ensures Times(UnitRows(n), v) == v
    decreases n
  {
    hide Xor, Pick, Half, Double, UnitRows, Map;
    UnitRowsShape(n);
    if n > 0 {
      TimesDouble(UnitRows(n - 1), Half(v));
      UnitRowsIdentity(n - 1, Half(v));
      LowBitAndRest(v);
    }
  }

  function BitMatrix(): Matrix {
    [POLY] + UnitRows(31)
  }

  lemma BitMatrixSteps()
    ensures IsZerosOperator(BitMatrix(), 1)
  {
    hide Xor, Pick, Half;
    forall v: bv32
      ensures Times(BitMatrix(), v) == BitSteps(v, 1)
    {
      EveryWordFits(v);
      assert Fits(Half(v), 31);
      assert BitMatrix()[1..] == UnitRows(31);
      UnitRowsIdentity(31, Half(v));
      XorComm(Pick(v, POLY), Half(v));
      assert BitSteps(v, 1) == BitSteps(BitStep(v), 0);
    }
  }

  // ----- The in-place algorithms

  method MatrixTimes(mat: array<bv32>, vec: bv32) returns (sum: bv32)
    requires Fits(vec, mat.Length)
    ensures sum == Times(mat[..], vec)
  {
    hide Xor, Pick, Half;
    sum := 0;
    var v, i := vec, 0;
    XorUnit(Times(mat[..], vec));
    assert mat[0..] == mat[..];
    while v != 0
      invariant i <= mat.Length && Fits(v, mat.Length - i)
      invariant Xor(sum, Times(mat[i..], v)) == Times(mat[..], vec)
      decreases mat.Length - i
    {
      assert mat[i..][1..] == mat[i + 1..];
      XorAssoc(sum, Pick(v, mat[i]), Times(mat[i + 1..], Half(v)));
      PickUnit(v, mat[i], sum);
      if v & 1 == 1 {
        sum := Xor(sum, mat[i]);
      }
      v := Half(v);
      i := i + 1;
    }
    TimesZero(mat[i..]);
    XorUnit(sum);
  }

  lemma PickUnit(v: bv32, row: bv32, sum: bv32)
    ensures v & 1 == 1 ==> Pick(v, row) == row
    ensures v & 1 != 1 ==> Xor(sum, Pick(v, row)) == sum
  {}

  method MatrixSquare(square: array<bv32>, mat: array<bv32>)
    requires square != mat && square.Length == mat.Length == 32
    modifies square
    ensures square[..] == Square(mat[..])
  {
    hide Times;
    for n := 0 to 32
      invariant square[..n] == Square(mat[..])[..n]
    {
      EveryWordFits(mat[n]);
      square[n] := MatrixTimes(mat, mat[n]);
      assert square[..n + 1] == square[..n] + [square[n]];
    }
  }

  /** Builds the operator for the largest power of two not above `len` zero bytes. */
  method ZerosOp(even: array<bv32>, len: nat)
    requires even.Length == 32
    modifies even
    ensures IsZerosOperator(even[..], 8 * FloorPow2(len))
  {
    hide Times, BitSteps, Square, FloorPow2;
    var odd := new bv32[32];
    FillBitMatrix(odd);
    SquareDoubles(odd[..], 1);
    MatrixSquare(even, odd);
    SquareDoubles(even[..], 2);
    MatrixSquare(odd, even);

    var rest := len;
    ghost var p: nat := 1;
    while true
      invariant IsZerosOperator(odd[..], 4 * p)
      invariant p * FloorPow2(rest) == FloorPow2(len)
      decreases rest
    {
      SquareDoubles(odd[..], 4 * p);
      MatrixSquare(even, odd);
      HalveFloorPow2(p, rest);
      rest := rest / 2;
      if rest == 0 {
        assert 2 * (4 * p) == 8 * FloorPow2(len);
        return;
      }
      SquareDoubles(even[..], 8 * p);
      MatrixSquare(odd, even);
      p := 2 * p;
      HalveFloorPow2(p, rest);
      rest := rest / 2;
      if rest == 0 {
        assert 2 * (4 * p) == 8 * FloorPow2(len);
        break;
      }
      p := 2 * p;
    }
    ghost var answer := odd[..];
    for n := 0 to 32
      invariant odd[..] == answer && even[..n] == answer[..n]
    {
      even[n] := odd[n];
      assert even[..n + 1] == even[..n] + [even[n]];
    }
    assert even[..] == answer;
  }

  lemma HalveFloorPow2(p: nat, rest: nat)
    ensures rest / 2 == 0 ==> p * FloorPow2(rest) == p
    ensures rest / 2 > 0 ==> (2 * p) * FloorPow2(rest / 2) == p * FloorPow2(rest)
  {
    var q := FloorPow2(rest / 2);
    if rest / 2 > 0 {
      assert FloorPow2(rest) == 2 * q;
      RegroupProduct(p, q);
    }
  }

  lemma RegroupProduct(p: nat, q: nat)
    ensures (2 * p) * q == p * (2 * q)
  {}

  /** The operator for one zero bit, column by column. */
  method FillBitMatrix(odd: array<bv32>)
    requires odd.Length == 32
    modifies odd
    ensures IsZerosOperator(odd[..], 1)
  {
    hide Double;
    odd[0] := POLY;
    var row: bv32 := 1;
    for n := 1 to 32
      invariant odd[0] == POLY && row == Bit(n - 1)
      invariant forall k :: 1 <= k < n ==> odd[k] == Bit(k - 1)
    {
      odd[n] := row;
      row := Double(row);
    }
    assert odd[..] == BitMatrix();
    BitMatrixSteps();
  }
}
