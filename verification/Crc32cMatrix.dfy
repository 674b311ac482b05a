/**
 The operators that append zeros to a register, as 32 by 32 matrices over GF(2) and as
 byte-indexed tables: `gf2_matrix_times`, `gf2_matrix_square`, `crc32c_zeros_op`,
 `crc32c_zeros` and `crc32c_shift`.
 */
module Crc32cMatrix {
  import opened Words
  import opened ShiftRegister
  import opened Crc32c

  /** The binary digits of a number, lowest first. */
  function Digits(v: nat): seq<bool> { if v == 0 then [] else [v % 2 == 1] + Digits(v / 2) }

  lemma {:induction false} DigitsFit(v: nat, n: nat)
    requires Shr(v, n) == 0
    ensures |Digits(v)| <= n
    decreases n
  {
    if v != 0 && n > 0 { DigitsFit(v / 2, n - 1); }
  }

  function Unit(j: nat): nat { Shl(1, j) }

  function Units(lo: nat, hi: nat): (s: seq<nat>)
    requires lo <= hi
    ensures |s| == hi - lo
    decreases hi - lo
  {
    if lo == hi then [] else [Unit(lo)] + Units(lo + 1, hi)
  }

  lemma {:induction false} UnitsAt(lo: nat, hi: nat, j: nat)
    requires lo + j < hi
    ensures Units(lo, hi)[j] == Unit(lo + j)
    decreases j
  {
    if j > 0 { UnitsAt(lo + 1, hi, j - 1); }
  }

  function Twice(x: nat): nat { 2 * x }

  /** Words under exclusive or, shifted up a bit at a time. */
  const DOUBLING := Register(Xor, Twice)

  lemma XorTwice(x: nat, y: nat)
    ensures DOUBLING.step(DOUBLING.add(x, y)) == DOUBLING.add(DOUBLING.step(x), DOUBLING.step(y))
  {
    var z := Xor(Twice(x), Twice(y));
    XorStep(Twice(x), Twice(y));
    assert Twice(x) / 2 == x && Twice(y) / 2 == y;
    assert z / 2 == Xor(x, y) && z % 2 == 0;
  }

  lemma DoublingAdd(a: nat, b: nat, c: nat)
    ensures DOUBLING.add(DOUBLING.add(a, b), c) == DOUBLING.add(a, DOUBLING.add(b, c))
  {
    XorAssoc(a, b, c);
  }

  lemma DoublingAdditive()
    ensures Additive(DOUBLING)
  {
    forall a, b { XorTwice(a, b); }
    forall a, b, c { DoublingAdd(a, b, c); }
  }

  lemma {:induction false} ShlIsDoubling(x: nat, n: nat)
    ensures Shl(x, n) == Bits(DOUBLING, x, n)
    decreases n
  {
    if n > 0 {
      ShlIsDoubling(2 * x, n - 1);
      ShlAdd(x, n - 1);
    }
  }

  lemma XorShl(a: nat, b: nat, n: nat)
    ensures Xor(Shl(a, n), Shl(b, n)) == Shl(Xor(a, b), n)
  {
    DoublingAdditive();
    BitsAdditive(DOUBLING, a, b, n);
    ShlIsDoubling(a, n);
    ShlIsDoubling(b, n);
    ShlIsDoubling(Xor(a, b), n);
  }

  lemma LastDigit(v: nat)
    ensures v == Xor(v % 2, 2 * (v / 2))
  {
    LoAndShr(v, 1);
    assert Lo(v, 1) == v % 2 && Shr(v, 1) == v / 2 && Shl(v / 2, 1) == 2 * (v / 2);
  }

  lemma {:induction false} ShlAdd(x: nat, n: nat)
    ensures Shl(2 * x, n) == Shl(x, n + 1)
  {
    if n > 0 { ShlAdd(x, n - 1); }
  }

  lemma {:induction false} ShlZero(n: nat)
    ensures Shl(0, n) == 0
  {
    if n > 0 { ShlZero(n - 1); }
  }

  lemma AddDigit(acc: nat, v: nat, lo: nat)
    ensures Xor(if v % 2 == 1 then Xor(acc, Unit(lo)) else acc, Shl(v / 2, lo + 1)) == Xor(acc, Shl(v, lo))
  {
    var w := Shl(v / 2, lo + 1);
    LastDigit(v);
    XorShl(v % 2, 2 * (v / 2), lo);
    ShlAdd(v / 2, lo);
    assert Shl(v, lo) == Xor(Shl(v % 2, lo), w);
    if v % 2 == 1 { XorAssoc(acc, Unit(lo), w); } else { ShlZero(lo); }
  }

  /** The number with these digits, the lowest first. */
  function Number(bits: seq<bool>): nat { if bits == [] then 0 else (if bits[0] then 1 else 0) + 2 * Number(bits[1..]) }

  lemma {:induction false} DigitsBack(v: nat)
    ensures Number(Digits(v)) == v
  {
    if v > 0 {
      assert Digits(v)[1..] == Digits(v / 2);
      DigitsBack(v / 2);
    }
  }

  lemma Halved(bit: bool, h: nat)
    ensures var v := (if bit then 1 else 0) + 2 * h; v / 2 == h && v % 2 == if bit then 1 else 0
  {
  }

  lemma AddBit(acc: nat, bit: bool, h: nat, v: nat, lo: nat)
    requires v == (if bit then 1 else 0) + 2 * h
    ensures Xor(if bit then Xor(acc, Unit(lo)) else acc, Shl(h, lo + 1)) == Xor(acc, Shl(v, lo))
  {
    Halved(bit, h);
    AddDigit(acc, v, lo);
  }

  /** Marks where the second law of `AddsUp` is used. */
  ghost predicate Here<V>(a: V, bits: seq<bool>, k: nat) { true }

  /** What bits add up to from `a` on, the first of them standing for the unit `k`. */
  ghost predicate AddsUp<V(!new)>(r: Register<V>, unit: nat -> V, sum: (V, seq<bool>, nat) -> V) {
    && (forall a: V, k: nat {:trigger sum(a, [], k)} :: sum(a, [], k) == a)
    && forall a: V, bits: seq<bool>, k: nat {:trigger Here(a, bits, k)} :: bits != [] ==> sum(a, bits, k) == sum(if bits[0] then r.add(a, unit(k)) else a, bits[1..], k + 1)
  }

  lemma {:induction false} BitsAddUp<V(!new)>(r: Register<V>, unit: nat -> V, sum: (V, seq<bool>, nat) -> V, acc: V, bits: seq<bool>, lo: nat, rows: seq<V>)
    requires AddsUp(r, unit, sum) && |bits| <= |rows| && forall j :: 0 <= j < |rows| ==> rows[j] == unit(lo + j)
    ensures Combine(r, acc, rows, bits) == sum(acc, bits, lo)
    decreases |bits|
  {
    if bits != [] {
      assert Here(acc, bits, lo);
      BitsAddUp(r, unit, sum, if bits[0] then r.add(acc, unit(lo)) else acc, bits[1..], lo + 1, rows[1..]);
    }
  }

  function Sum(a: nat, bits: seq<bool>, k: nat): nat { Xor(a, Shl(Number(bits), k)) }

  lemma SumAddsUp()
    ensures AddsUp(CRC, Unit, Sum)
  {
    forall a: nat, k: nat ensures Sum(a, [], k) == a { ShlZero(k); }
    forall a: nat, bits: seq<bool>, k: nat | bits != []
      ensures Sum(a, bits, k) == Sum(if bits[0] then CRC.add(a, Unit(k)) else a, bits[1..], k + 1)
    {
      AddBit(a, bits[0], Number(bits[1..]), Number(bits), k);
    }
  }

  /** Adding up the units a number has digits for gives the number. */
  lemma UnitsAddUp(acc: nat, v: nat, lo: nat, hi: nat)
    requires lo <= hi && |Digits(v)| <= hi - lo
    ensures Combine(CRC, acc, Units(lo, hi), Digits(v)) == Xor(acc, Shl(v, lo))
  {
    forall j | 0 <= j < hi - lo ensures Units(lo, hi)[j] == Unit(lo + j) { UnitsAt(lo, hi, j); }
    SumAddsUp();
    BitsAddUp(CRC, Unit, Sum, acc, Digits(v), lo, Units(lo, hi));
    DigitsBack(v);
  }

  /** `mat` is the operator that appends `n` zero bits. */
  ghost predicate Appends(mat: seq<nat>, n: nat) {
    |mat| == 32 && forall j :: 0 <= j < 32 ==> mat[j] == Zeros(Unit(j), n)
  }

  function Times(mat: seq<nat>, v: nat): nat
    requires |mat| == 32 && |Digits(v)| <= 32
  {
    Combine(CRC, 0, mat, Digits(v))
  }

  lemma CrcCombineShifted(acc: nat, rows: seq<nat>, mat: seq<nat>, bits: seq<bool>, n: nat)
    requires |bits| <= |rows| == |mat|
    requires forall j :: 0 <= j < |rows| ==> mat[j] == Bits(CRC, rows[j], n)
    ensures Combine(CRC, Bits(CRC, acc, n), mat, bits) == Bits(CRC, Combine(CRC, acc, rows, bits), n)
  {
    CrcAdditive();
    CombineShifted(CRC, acc, rows, mat, bits, n);
  }

  lemma ZerosOfZero(n: nat)
    ensures Zeros(0, n) == 0
  {
    CrcAdditive();
    BitsAdditive(CRC, 0, 0, n);
    XorSelf(Zeros(0, n));
  }

  lemma UnitsGiveBack(v: nat, hi: nat)
    requires |Digits(v)| <= hi
    ensures Combine(CRC, 0, Units(0, hi), Digits(v)) == v
  {
    UnitsAddUp(0, v, 0, hi);
    assert Shl(v, 0) == v;
  }

  lemma UnitsAppend(mat: seq<nat>, v: nat, n: nat, hi: nat)
    requires |mat| == hi && |Digits(v)| <= hi
    requires forall j :: 0 <= j < hi ==> mat[j] == Zeros(Unit(j), n)
    ensures Combine(CRC, 0, mat, Digits(v)) == Zeros(v, n)
  {
    UnitsGiveBack(v, hi);
    ZerosOfZero(n);
    forall j | 0 <= j < hi ensures Units(0, hi)[j] == Unit(j) { UnitsAt(0, hi, j); }
    CrcCombineShifted(0, Units(0, hi), mat, Digits(v), n);
  }

  /** Multiplying by such a matrix appends the zeros. */
  lemma TimesAppends(mat: seq<nat>, v: nat, n: nat)
    requires Appends(mat, n) && |Digits(v)| <= 32
    ensures Times(mat, v) == Zeros(v, n)
  {
    UnitsAppend(mat, v, n, |mat|);
  }

  // ---- The operators --------------------------------------------------------------------

  /** A matrix times a vector. */
  method MatrixTimes(mat: array<nat>, vec: nat) returns (sum: nat)
    requires mat.Length == 32 && |Digits(vec)| <= 32
    ensures sum == Times(mat[..], vec)
  {
    sum := 0;
    var v, i := vec, 0;
    assert mat[0..] == mat[..];
    while v != 0
      invariant 0 <= i <= 32 && |Digits(v)| <= 32 - i
      invariant Combine(CRC, sum, mat[i..], Digits(v)) == Times(mat[..], vec)
    {
      assert mat[i..][1..] == mat[i + 1..] && Digits(v)[1..] == Digits(v / 2);
      if v % 2 == 1 { sum := Xor(sum, mat[i]); }
      v := v / 2;
      i := i + 1;
    }
  }

  lemma UnitIs32(j: nat)
    requires j < 32
    ensures Is32(Unit(j))
  {
    ShrOfUnit(j, 32);
  }

  lemma {:induction false} ShrOfUnit(j: nat, n: nat)
    requires j < n
    ensures Shr(Unit(j), n) == 0
    decreases j
  {
    if j == 0 {
      ShrZero(n - 1);
    } else {
      ShlStep(1, j);
      ShrOfUnit(j - 1, n - 1);
    }
  }

  lemma ColumnFits(mat: seq<nat>, j: nat, n: nat)
    requires Appends(mat, n) && j < 32
    ensures |Digits(mat[j])| <= 32
  {
    UnitIs32(j);
    ZerosIs32(Unit(j), n);
    DigitsFit(mat[j], 32);
  }

  /** Squaring doubles the zeros appended. */
  method MatrixSquare(square: array<nat>, mat: array<nat>, ghost n: nat)
    requires square != mat && square.Length == 32 && Appends(mat[..], n)
    modifies square
    ensures Appends(square[..], 2 * n)
  {
    var i := 0;
    while i < 32
      invariant 0 <= i <= 32 && mat[..] == old(mat[..])
      invariant forall j :: 0 <= j < i ==> square[j] == Zeros(Unit(j), 2 * n)
    {
      ColumnFits(mat[..], i, n);
      TimesAppends(mat[..], mat[i], n);
      ZerosAdd(Unit(i), n, n);
      square[i] := MatrixTimes(mat, mat[i]);
      i := i + 1;
    }
  }

  /** The operator for a single zero bit. */
  method OneBit(odd: array<nat>)
    requires odd.Length == 32
    modifies odd
    ensures Appends(odd[..], 1)
  {
    odd[0] := POLY;
    ZerosStep(1, 1);
    assert odd[0] == Zeros(Unit(0), 1);
    var row, n := 1, 1;
    while n < 32
      invariant 1 <= n <= 32 && row == Unit(n - 1)
      invariant forall j :: 0 <= j < n ==> odd[j] == Zeros(Unit(j), 1)
    {
      ShlStep(1, n);
      ZerosStep(Unit(n), 1);
      odd[n] := row;
      row := 2 * row;
      n := n + 1;
    }
  }

  /** `p` doubled as often as `len` can be halved. */
  function Doubled(p: nat, len: nat): nat
    decreases len
  {
    if len < 2 then p else Doubled(2 * p, len / 2)
  }

  /** The bytes an operator is built for: the largest power of two up to `len`, or one. */
  function PowerOfTwo(len: nat): nat { Doubled(1, len) }

  /** Two to the `e`. */
  function Power(e: nat): nat { if e == 0 then 1 else 2 * Power(e - 1) }

  /** How often `len` can be halved. */
  function Halvings(len: nat): nat { if len < 2 then 0 else 1 + Halvings(len / 2) }

  lemma {:induction false} DoubledIs(e: nat, len: nat)
    ensures Doubled(Power(e), len) == Power(e + Halvings(len))
    decreases len
  {
    if len >= 2 { DoubledIs(e + 1, len / 2); }
  }

  /** `PowerOfTwo(len)` is a power of two, the largest up to `len`, and one where `len` is 0. */
  lemma {:induction false} PowerOfTwoIs(len: nat)
    ensures PowerOfTwo(len) == Power(Halvings(len))
    ensures if len == 0 then PowerOfTwo(len) == 1 else PowerOfTwo(len) <= len < 2 * PowerOfTwo(len)
    decreases len
  {
    DoubledIs(0, len);
    if len >= 2 { PowerOfTwoIs(len / 2); }
  }

  /** The operator that appends `PowerOfTwo(len)` zero bytes, by repeated squaring of that for a bit. */
  method ZerosOp(even: array<nat>, len: nat)
    requires even.Length == 32
    modifies even
    ensures Appends(even[..], 8 * PowerOfTwo(len))
  {
    var odd := new nat[32];
    OneBit(odd);
    MatrixSquare(even, odd, 1);
    MatrixSquare(odd, even, 2);
    var l := len;
    ghost var p: nat := 1;
    var more := true;
    while more
      invariant if more then Appends(odd[..], 4 * p) && Doubled(p, l) == PowerOfTwo(len) else Appends(odd[..], 8 * PowerOfTwo(len))
      decreases more, l
    {
      MatrixSquare(even, odd, 4 * p);
      l := l / 2;
      if l == 0 { return; }
      MatrixSquare(odd, even, 8 * p);
      l := l / 2;
      p, more := 4 * p, l != 0;
    }
    CopyMatrix(even, odd);
  }

  method CopyMatrix(even: array<nat>, odd: array<nat>)
    requires even != odd && even.Length == odd.Length == 32
    modifies even
    ensures even[..] == odd[..]
  {
    var i := 0;
    while i < 32
      invariant 0 <= i <= 32 && odd[..] == old(odd[..])
      invariant forall j :: 0 <= j < i ==> even[j] == odd[j]
    {
      even[i] := odd[i];
      i := i + 1;
    }
  }

  // ---- The operators as tables ------------------------------------------------------------

  /** The tables of the operator that appends `n` zero bits, a row for each byte of the register. */
  ghost predicate Tabulates(zeros: array2<nat>, n: nat)
    reads zeros
  {
    && zeros.Length0 == 4 && zeros.Length1 == 256
    && forall k, b {:trigger zeros[k, b]} :: 0 <= k < 4 && 0 <= b < 256 ==> zeros[k, b] == Zeros(Shl(b, 8 * k), n)
  }

  method TimesByte(op: array<nat>, b: nat, k: nat, x: nat, ghost n: nat) returns (r: nat)
    requires Appends(op[..], n) && b < 256 && k < 4 && x == Shl(b, 8 * k)
    ensures r == Zeros(x, n)
  {
    ShiftedByteIs32(b, k);
    DigitsFit(x, 32);
    TimesAppends(op[..], x, n);
    r := MatrixTimes(op, x);
  }

  lemma ShiftedByteIs32(b: nat, k: nat)
    requires b < 256 && k < 4
    ensures Is32(Shl(b, 8 * k))
  {
    Eight(b);
    ShrOfShl(b, 8 * k, 32);
    ShrAdd(b, 8, 24 - 8 * k);
    ShrZero(24 - 8 * k);
  }

  lemma {:induction false} ShrOfShl(x: nat, m: nat, n: nat)
    requires m <= n
    ensures Shr(Shl(x, m), n) == Shr(x, n - m)
    decreases m
  {
    if m > 0 {
      ShlStep(x, m);
      ShrOfShl(x, m - 1, n - 1);
    }
  }

  method ZerosTables(len: nat) returns (zeros: array2<nat>)
    ensures fresh(zeros) && Tabulates(zeros, 8 * PowerOfTwo(len))
  {
    zeros := new nat[4, 256];
    var op := new nat[32];
    ZerosOp(op, len);
    ghost var n := 8 * PowerOfTwo(len);
    var b := 0;
    while b < 256
      invariant 0 <= b <= 256 && Appends(op[..], n)
      invariant forall k, i {:trigger zeros[k, i]} :: 0 <= k < 4 && 0 <= i < b ==> zeros[k, i] == Zeros(Shl(i, 8 * k), n)
    {
      FillShifts(zeros, op, b, n);
      b := b + 1;
    }
  }

  lemma Byteshifts(b: nat)
    ensures Shl(b, 0) == b && Shl(b, 8) == 256 * b && Shl(b, 16) == 0x1_0000 * b && Shl(b, 24) == 0x100_0000 * b
  {
    Eight(b);
    Four(b, 16);
    Four(b, 12);
    Four(b, 24);
    Four(b, 20);
  }

  method FillShifts(zeros: array2<nat>, op: array<nat>, b: nat, ghost n: nat)
    requires zeros.Length0 == 4 && zeros.Length1 == 256 && b < 256 && Appends(op[..], n)
    requires zeros as object != op
    modifies zeros
    ensures forall k, i {:trigger zeros[k, i]} :: 0 <= k < 4 && 0 <= i < 256 && i != b ==> zeros[k, i] == old(zeros[k, i])
    ensures forall k {:trigger zeros[k, b]} :: 0 <= k < 4 ==> zeros[k, b] == Zeros(Shl(b, 8 * k), n)
  {
    Byteshifts(b);
    var z0 := TimesByte(op, b, 0, b, n);
    var z1 := TimesByte(op, b, 1, 0x100 * b, n);
    var z2 := TimesByte(op, b, 2, 0x1_0000 * b, n);
    var z3 := TimesByte(op, b, 3, 0x100_0000 * b, n);
    zeros[0, b], zeros[1, b], zeros[2, b], zeros[3, b] := z0, z1, z2, z3;
  }

  lemma ZerosAdditive(a: nat, b: nat, n: nat)
    ensures Zeros(Xor(a, b), n) == Xor(Zeros(a, n), Zeros(b, n))
  {
    CrcAdditive();
    BitsAdditive(CRC, a, b, n);
  }

  lemma {:induction false} ShlJoin(x: nat, m: nat, n: nat)
    ensures Shl(Shl(x, m), n) == Shl(x, m + n)
    decreases n
  {
    if n > 0 { ShlJoin(x, m, n - 1); }
  }

  lemma ShiftSplit(c: nat, lo: nat, hi: nat, n: nat)
    requires c == Xor(lo, Shl(hi, 8))
    ensures Shl(c, n) == Xor(Shl(lo, n), Shl(hi, 8 + n))
  {
    XorShl(lo, Shl(hi, 8), n);
    ShlJoin(hi, 8, n);
  }

  lemma LowByteBelow(c: nat)
    ensures c == Xor(c % 256, Shl(c / 256, 8))
  {
    LowByteAndRest(c);
    Eight(c / 256);
  }

  /** `n` zero bits appended to `x` shifted `m` bits up. */
  function ZerosAfter(x: nat, m: nat, n: nat): nat { Zeros(Shl(x, m), n) }

  /** A byte split off what is left of the register. */
  lemma ZerosSplit(c: nat, lo: nat, hi: nat, m: nat, m8: nat, n: nat)
    requires lo == c % 256 && hi == c / 256 && m8 == 8 + m
    ensures ZerosAfter(c, m, n) == Xor(ZerosAfter(lo, m, n), ZerosAfter(hi, m8, n))
  {
    LowByteBelow(c);
    ShiftSplit(c, lo, hi, m);
    ZerosAdditive(Shl(lo, m), Shl(hi, m8), n);
  }

  lemma Regroup(z: nat, z1: nat, z2: nat, a: nat, b: nat, c: nat, d: nat)
    requires z == Xor(a, z1) && z1 == Xor(b, z2) && z2 == Xor(c, d)
    ensures z == Xor(Xor(Xor(a, b), c), d)
  {
    XorAssoc(a, b, z2);
    XorAssoc(Xor(a, b), c, d);
  }

  /** `crc32c_shift`: four look-ups append the zeros. */
  method Shift(zeros: array2<nat>, crc: nat, ghost n: nat) returns (r: nat)
    requires Tabulates(zeros, n) && Is32(crc)
    ensures r == Zeros(crc, n)
  {
    var c1 := crc / 256;
    var c2 := c1 / 256;
    var c3 := c2 / 256;
    Is32Shifts(crc);
    var z0 := LookUp(zeros, 0, crc % 256, 0, n);
    var z1 := LookUp(zeros, 1, c1 % 256, 8, n);
    var z2 := LookUp(zeros, 2, c2 % 256, 16, n);
    var z3 := LookUp(zeros, 3, c3, 24, n);
    FourSlices(crc, c1, c2, c3, z0, z1, z2, z3, n);
    r := Xor(Xor(Xor(z0, z1), z2), z3);
  }

  method LookUp(zeros: array2<nat>, k: nat, b: nat, ghost m: nat, ghost n: nat) returns (z: nat)
    requires Tabulates(zeros, n) && k < 4 && b < 256 && m == 8 * k
    ensures z == ZerosAfter(b, m, n)
  {
    z := zeros[k, b];
  }

  lemma FourSlices(c: nat, c1: nat, c2: nat, c3: nat, z0: nat, z1: nat, z2: nat, z3: nat, n: nat)
    requires c1 == c / 256 && c2 == c1 / 256 && c3 == c2 / 256
    requires z0 == ZerosAfter(c % 256, 0, n) && z1 == ZerosAfter(c1 % 256, 8, n)
    requires z2 == ZerosAfter(c2 % 256, 16, n) && z3 == ZerosAfter(c3, 24, n)
    ensures Zeros(c, n) == Xor(Xor(Xor(z0, z1), z2), z3)
  {
    var m0, m1, m2, m3 := 0, 8, 16, 24;
    ZerosSplit(c, c % 256, c1, m0, m1, n);
    ZerosSplit(c1, c1 % 256, c2, m1, m2, n);
    ZerosSplit(c2, c2 % 256, c3, m2, m3, n);
    Regroup(ZerosAfter(c, m0, n), ZerosAfter(c1, m1, n), ZerosAfter(c2, m2, n), z0, z1, z2, z3);
  }
}
