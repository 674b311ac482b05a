/** CRC-32C, the polynomial of section 12.1 of RFC 3720 with its bits reversed, bit by bit. */
module Crc32c {
  import B = Bytes
  import opened Words
  import opened ShiftRegister

  const POLY := 0x82f63b78
  const ONES := 0xffffffff

  /** One zero bit shifted through the register. */
  function Shift1(c: nat): nat { if c % 2 == 1 then Xor(c / 2, POLY) else c / 2 }

  const CRC: Register<nat> := Register(Xor, Shift1)

  /** The register after the bytes of `s`. */
  function Crc(c: nat, s: B.bytes): nat { Feed(CRC, c, s) }

  /** The register after `n` zero bits. */
  function Zeros(c: nat, n: nat): nat { Bits(CRC, c, n) }

  /** The checksum: the register is inverted on the way in and on the way out. */
  function Checksum(crci: nat, s: B.bytes): nat { Xor(Crc(Xor(crci, ONES), s), ONES) }

  // ---- The laws of the register -----------------------------------------------------

  lemma Shift1Additive(a: nat, b: nat)
    ensures Shift1(Xor(a, b)) == Xor(Shift1(a), Shift1(b))
  {
    var x, y := a / 2, b / 2;
    XorStep(a, b);
    XorAssoc(x, y, POLY);
    XorAssoc(x, POLY, y);
    XorComm(y, POLY);
    XorAssoc(x, POLY, Xor(y, POLY));
    XorAssoc(POLY, POLY, y);
    XorSelf(POLY);
  }

  lemma StepLaw(a: nat, b: nat)
    ensures CRC.step(CRC.add(a, b)) == CRC.add(CRC.step(a), CRC.step(b))
  {
    Shift1Additive(a, b);
  }

  lemma AddLaw(a: nat, b: nat, c: nat)
    ensures CRC.add(CRC.add(a, b), c) == CRC.add(a, CRC.add(b, c))
  {
    XorAssoc(a, b, c);
  }

  lemma CrcAdditive()
    ensures Additive(CRC)
  {
    forall a, b { StepLaw(a, b); }
    forall a, b, c { AddLaw(a, b, c); }
  }

  function LowByte(x: nat): nat { x % 256 }
  function AboveByte(x: nat): nat { 256 * (x / 256) }
  function DropByte(x: nat): nat { x / 256 }
  function JoinByte(b: nat, w: nat): nat { b + 256 * w }
  predicate IsByte(b: nat) { b < 256 }

  const BYTES: Bytes<nat> := Bytes(0, LowByte, AboveByte, DropByte, JoinByte, IsByte)

  lemma {:induction false} EmptyLowBits(x: nat, n: nat)
    ensures Zeros(Shl(x, n), n) == x
    decreases n
  {
    if n > 0 {
      ShlStep(x, n);
      assert Shift1(Shl(x, n)) == Shl(x, n - 1);
      EmptyLowBits(x, n - 1);
    }
  }

  lemma LowAndAbove(c: nat)
    ensures c == CRC.add(BYTES.low(c), BYTES.up(c))
  {
    LowByteAndRest(c);
  }

  lemma AboveMovesDown(c: nat)
    ensures Bits(CRC, BYTES.up(c), 8) == BYTES.down(c)
  {
    EmptyLowBits(c / 256, 8);
    Eight(c / 256);
  }

  lemma AddSwaps(a: nat, b: nat)
    ensures CRC.add(a, b) == CRC.add(b, a)
  {
    XorComm(a, b);
  }

  lemma JoinSplits(c: nat, b: nat, w: nat)
    ensures JoinLaw(CRC, BYTES, c, b, w)
  {
    if b < 256 { XorWords(c, b, w, BYTES.join(b, w)); }
  }

  lemma CrcSplits()
    ensures Splits(CRC, BYTES)
  {
    forall c { LowAndAbove(c); }
    forall c { AboveMovesDown(c); }
  }

  lemma AddZero(c: nat)
    ensures CRC.add(c, BYTES.zero) == c
  {
  }

  lemma CrcSwaps()
    ensures Swaps(CRC, BYTES)
  {
    forall c, b { AddSwaps(BYTES.up(c), b); }
    forall c { AddZero(c); }
  }

  lemma CrcJoins()
    ensures Joins(CRC, BYTES)
  {
    forall c, b, w { JoinSplits(c, b, w); }
  }

  lemma CrcBytewise()
    ensures Bytewise(CRC, BYTES)
  {
    CrcAdditive();
    CrcSplits();
    CrcSwaps();
    CrcJoins();
  }

  // ---- Bytes through the register ----------------------------------------------------

  lemma CrcAppend(c: nat, s: B.bytes, t: B.bytes)
    ensures Crc(c, s + t) == Crc(Crc(c, s), t)
  {
    FeedAppend(CRC, c, s, t);
  }

  /** Checksums chain: the checksum of a part is the starting value for the next. */
  lemma ChecksumAppend(crci: nat, s: B.bytes, t: B.bytes)
    ensures Checksum(Checksum(crci, s), t) == Checksum(crci, s + t)
  {
    CrcAppend(Xor(crci, ONES), s, t);
    XorCancel(Crc(Xor(crci, ONES), s), ONES);
  }

  /** What `c` contributes comes out shifted past the bytes. */
  lemma CrcSplit(c: nat, s: B.bytes)
    ensures Crc(c, s) == Xor(Zeros(c, 8 * |s|), Crc(0, s))
  {
    CrcAdditive();
    FeedAdditive(CRC, c, 0, s);
  }

  lemma CrcPeelOne(c: nat, b: B.byte)
    ensures Feed(CRC, c, [b]) == CRC.add(Bits(CRC, CRC.add(BYTES.low(c), b), 8), BYTES.down(c))
  {
    CrcBytewise();
    PeelOne(CRC, BYTES, c, b);
  }

  lemma OneByte(c: nat, b: B.byte)
    ensures Crc(c, [b]) == Xor(Zeros(Xor(c, b) % 256, 8), c / 256)
  {
    CrcPeelOne(c, b);
    XorLowByte(c, b);
  }

  lemma CrcZeroByte(c: nat)
    ensures Bits(CRC, c, 8) == CRC.add(Bits(CRC, BYTES.low(c), 8), BYTES.down(c))
  {
    CrcBytewise();
    ZeroByte(CRC, BYTES, c);
  }

  /** Eight zero bits act through the low byte only. */
  lemma ZeroEight(c: nat)
    ensures Zeros(c, 8) == Xor(Zeros(c % 256, 8), c / 256)
  {
    CrcZeroByte(c);
  }

  lemma ZerosStep(c: nat, n: nat)
    requires n > 0
    ensures Zeros(c, n) == Zeros(Shift1(c), n - 1)
  {
  }

  lemma ZerosAdd(c: nat, m: nat, n: nat)
    ensures Zeros(Zeros(c, m), n) == Zeros(c, m + n)
  {
    BitsAdd(CRC, c, m, n);
  }

  // ---- Eight bytes at once -------------------------------------------------------------

  /** Little-endian. */
  function LittleEndian(s: B.bytes): nat {
    if s == [] then 0 else s[0] as nat + 256 * LittleEndian(s[1..])
  }

  lemma {:induction false} LittleEndianIsWord(s: B.bytes)
    ensures LittleEndian(s) == Word(BYTES, s)
  {
    if s != [] { LittleEndianIsWord(s[1..]); }
  }

  /** Byte `b` followed by `k` - 1 others. */
  function Slice(b: nat, k: nat): nat { Zeros(b, 8 * k) }

  lemma SliceStep(acc: nat, x: nat, k: nat)
    requires k > 0
    ensures SlicesFrom(CRC, BYTES, acc, x, k) == SlicesFrom(CRC, BYTES, Xor(acc, Slice(x % 256, k)), x / 256, k - 1)
  {
  }

  lemma CrcSlicingLeft(c: nat, s: B.bytes)
    requires s != []
    ensures var x, k := CRC.add(c, Word(BYTES, s)), |s|;
            Feed(CRC, c, s) == SlicesFrom(CRC, BYTES, Bits(CRC, BYTES.low(x), 8 * k), BYTES.down(x), k - 1)
  {
    CrcBytewise();
    SlicingLeft(CRC, BYTES, c, s);
  }

  lemma SliceFirst(c: nat, s: B.bytes, x: nat)
    requires s != [] && x == Xor(c, LittleEndian(s))
    ensures Crc(c, s) == SlicesFrom(CRC, BYTES, Slice(x % 256, |s|), x / 256, |s| - 1)
  {
    LittleEndianIsWord(s);
    CrcSlicingLeft(c, s);
  }

  /** `x` and its seven successive shifts by a byte; the last is a byte itself. */
  ghost predicate Shifts(x: nat, x1: nat, x2: nat, x3: nat, x4: nat, x5: nat, x6: nat, x7: nat) {
    && x1 == x / 256 && x2 == x1 / 256 && x3 == x2 / 256 && x4 == x3 / 256
    && x5 == x4 / 256 && x6 == x5 / 256 && x7 == x6 / 256
  }

  lemma LittleEndianStep(s: B.bytes, w: nat) returns (b: nat)
    requires s != [] && w == LittleEndian(s[1..])
    ensures b < 256 && LittleEndian(s) == b + 256 * w
  {
    b := s[0];
  }

  lemma XorLittleEndian(c: nat, s: B.bytes)
    requires s != []
    ensures Xor(c, LittleEndian(s)) / 256 == Xor(c / 256, LittleEndian(s[1..]))
  {
    var w := LittleEndian(s[1..]);
    var b := LittleEndianStep(s, w);
    XorWords(c, b, w, LittleEndian(s));
  }

  lemma Is32Shifts(c: nat)
    requires Is32(c)
    ensures c / 256 / 256 / 256 / 256 == 0
  {
    ShrByte(c, 24);
    ShrByte(c / 256, 16);
    ShrByte(c / 256 / 256, 8);
    Eight(c / 256 / 256 / 256);
  }

  lemma FourShifts(c: nat, s: B.bytes, x: nat)
    requires |s| >= 4 && x == Xor(c, LittleEndian(s))
    ensures x / 256 / 256 / 256 / 256 == Xor(c / 256 / 256 / 256 / 256, LittleEndian(s[4..]))
  {
    var s1, s2, s3, s4 := s[1..], s[2..], s[3..], s[4..];
    assert s1[1..] == s2 && s2[1..] == s3 && s3[1..] == s4;
    XorLittleEndian(c, s);
    XorLittleEndian(c / 256, s1);
    XorLittleEndian(c / 256 / 256, s2);
    XorLittleEndian(c / 256 / 256 / 256, s3);
  }

  lemma LastShift(c: nat, s: B.bytes, x: nat)
    requires Is32(c) && |s| == 8 && x == Xor(c, LittleEndian(s))
    ensures x / 256 / 256 / 256 / 256 / 256 / 256 / 256 < 256
  {
    var s4 := s[4..];
    var x4 := x / 256 / 256 / 256 / 256;
    FourShifts(c, s, x);
    Is32Shifts(c);
    FourShifts(0, s4, x4);
    assert s4[4..] == [];
  }

  lemma NoSlices(a: nat)
    ensures SlicesFrom(CRC, BYTES, a, 0, 0) == a
  {
  }

  /** Slicing by eight: the register and eight bytes through one look-up per byte. */
  lemma EightBytes(c: nat, s: B.bytes, x: nat, x1: nat, x2: nat, x3: nat, x4: nat, x5: nat, x6: nat, x7: nat)
    requires Is32(c) && |s| == 8 && x == Xor(c, LittleEndian(s)) && Shifts(x, x1, x2, x3, x4, x5, x6, x7)
    ensures x7 < 256
    ensures Crc(c, s) ==
      Xor(Xor(Xor(Xor(Xor(Xor(Xor(Slice(x % 256, 8), Slice(x1 % 256, 7)), Slice(x2 % 256, 6)), Slice(x3 % 256, 5)),
        Slice(x4 % 256, 4)), Slice(x5 % 256, 3)), Slice(x6 % 256, 2)), Slice(x7, 1))
  {
    LastShift(c, s, x);
    SliceFirst(c, s, x);
    var a1 := Slice(x % 256, 8);
    SliceStep(a1, x1, 7);
    var a2 := Xor(a1, Slice(x1 % 256, 7));
    SliceStep(a2, x2, 6);
    var a3 := Xor(a2, Slice(x2 % 256, 6));
    SliceStep(a3, x3, 5);
    var a4 := Xor(a3, Slice(x3 % 256, 5));
    SliceStep(a4, x4, 4);
    var a5 := Xor(a4, Slice(x4 % 256, 4));
    SliceStep(a5, x5, 3);
    var a6 := Xor(a5, Slice(x5 % 256, 3));
    SliceStep(a6, x6, 2);
    var a7 := Xor(a6, Slice(x6 % 256, 2));
    SliceStep(a7, x7, 1);
    NoSlices(Xor(a7, Slice(x7, 1)));
  }

  // ---- The register stays a 32-bit word ----------------------------------------------------

  lemma Shift1Is32(c: nat)
    requires Is32(c)
    ensures Is32(Shift1(c))
  {
    Below32(POLY);
    ShrAdd(c, 1, 32);
    ShrAdd(c, 32, 1);
    XorIs32(c / 2, POLY);
  }

  lemma {:induction false} ZerosIs32(c: nat, n: nat)
    requires Is32(c)
    ensures Is32(Zeros(c, n))
    decreases n
  {
    if n > 0 {
      Shift1Is32(c);
      ZerosIs32(Shift1(c), n - 1);
    }
  }

  lemma {:induction false} CrcIs32(c: nat, s: B.bytes)
    requires Is32(c)
    ensures Is32(Crc(c, s))
    decreases |s|
  {
    if s != [] {
      Below32(s[0]);
      XorIs32(c, s[0]);
      ZerosIs32(Xor(c, s[0]), 8);
      CrcIs32(Zeros(Xor(c, s[0]), 8), s[1..]);
    }
  }

  // ---- Feeding a buffer ---------------------------------------------------------------

  /** The register has been fed the first `next` bytes. */
  ghost predicate Fed(start: nat, buf: B.bytes, next: nat, crc: nat) {
    next <= |buf| && Is32(crc) && crc == Crc(start, buf[..next])
  }

  lemma FedMore(start: nat, buf: B.bytes, next: nat, crc: nat, n: nat)
    requires Fed(start, buf, next, crc) && next + n <= |buf|
    ensures Fed(start, buf, next + n, Crc(crc, buf[next..next + n]))
  {
    assert buf[..next + n] == buf[..next] + buf[next..next + n];
    CrcAppend(start, buf[..next], buf[next..next + n]);
    CrcIs32(crc, buf[next..next + n]);
  }

  lemma Inverted(crci: nat)
    requires crci < 0x1_0000_0000
    ensures Is32(Xor(crci, ONES))
  {
    Below32(crci);
    Below32(ONES);
    XorIs32(crci, ONES);
  }
}
