/**
 The checksum by the processor's own instructions: three stretches of a block are fed to three
 registers at once, and the tables of zeros put the three together. `crc32c_hw`.
 */
module Crc32cHardware {
  import opened Bytes
  import opened Words
  import opened Crc32c
  import opened Crc32cMatrix

  const LONG := 8192
  const SHORT := 256

  /** The instruction `crc32b`. */
  method StepByte(crc: nat, b: byte) returns (r: nat)
    requires Is32(crc)
    ensures r == Crc(crc, [b]) && Is32(r)
  {
    CrcIs32(crc, [b]);
    r := Crc(crc, [b]);
  }

  /** The instruction `crc32q`. */
  method StepEight(crc: nat, s: bytes) returns (r: nat)
    requires Is32(crc) && |s| == 8
    ensures r == Crc(crc, s) && Is32(r)
  {
    CrcIs32(crc, s);
    r := Crc(crc, s);
  }

  method FeedWord(crc: nat, buf: bytes, next: nat, ghost start: nat) returns (r: nat)
    requires Fed(start, buf, next, crc) && next + 8 <= |buf|
    ensures Fed(start, buf, next + 8, r)
  {
    FedMore(start, buf, next, crc, 8);
    r := StepEight(crc, buf[next..next + 8]);
  }

  /** A register moved past a stretch of zeros, plus the stretch fed to a register of its own. */
  lemma Stitch(c: nat, s: bytes, t: bytes)
    ensures Crc(c, s + t) == Xor(Zeros(Crc(c, s), 8 * |t|), Crc(0, t))
  {
    CrcAppend(c, s, t);
    CrcSplit(Crc(c, s), t);
  }

  /** The next stretch, fed to its own register, added to those before it. */
  method Join(zeros: array2<nat>, crc: nat, part: nat, ghost n: nat) returns (r: nat)
    requires Tabulates(zeros, n) && Is32(crc) && Is32(part)
    ensures r == Xor(Zeros(crc, n), part) && Is32(r)
  {
    var shifted := Shift(zeros, crc, n);
    ZerosIs32(crc, n);
    XorIs32(shifted, part);
    r := Xor(shifted, part);
  }

  /** Three registers, each fed the first `i` bytes of its own stretch. */
  ghost predicate FedStretches(crc: nat, s: bytes, t: bytes, u: bytes, i: nat, crc0: nat, crc1: nat, crc2: nat) {
    Fed(crc, s, i, crc0) && Fed(0, t, i, crc1) && Fed(0, u, i, crc2)
  }

  lemma NothingFed(crc: nat, s: bytes, t: bytes, u: bytes)
    requires Is32(crc)
    ensures FedStretches(crc, s, t, u, 0, crc, 0, 0)
  {
    ShrZero(32);
    assert s[..0] == t[..0] == u[..0] == [];
  }

  method FeedWords(ghost crc: nat, s: bytes, t: bytes, u: bytes, i: nat, c0: nat, c1: nat, c2: nat)
    returns (crc0: nat, crc1: nat, crc2: nat)
    requires i + 8 <= |s| == |t| == |u| && FedStretches(crc, s, t, u, i, c0, c1, c2)
    ensures FedStretches(crc, s, t, u, i + 8, crc0, crc1, crc2)
  {
    crc0 := FeedWord(c0, s, i, crc);
    crc1 := FeedWord(c1, t, i, 0);
    crc2 := FeedWord(c2, u, i, 0);
  }

  /** Three stretches of the same number of words, a word of each at a time. */
  method FeedStretches(crc: nat, s: bytes, t: bytes, u: bytes, words: nat) returns (crc0: nat, crc1: nat, crc2: nat)
    requires |s| == |t| == |u| == 8 * words && Is32(crc)
    ensures FedStretches(crc, s, t, u, 8 * words, crc0, crc1, crc2)
  {
    crc0, crc1, crc2 := crc, 0, 0;
    NothingFed(crc, s, t, u);
    var k := 0;
    while k < words
      invariant 0 <= k <= words
      invariant FedStretches(crc, s, t, u, 8 * k, crc0, crc1, crc2)
    {
      crc0, crc1, crc2 := FeedWords(crc, s, t, u, 8 * k, crc0, crc1, crc2);
      k := k + 1;
    }
  }

  lemma ThreeStretches(crc: nat, s: bytes, t: bytes, u: bytes, n: nat, crc0: nat, crc1: nat, crc2: nat, crc01: nat, r: nat)
    requires 8 * |t| == 8 * |u| == n && crc0 == Crc(crc, s) && crc1 == Crc(0, t) && crc2 == Crc(0, u)
    requires crc01 == Xor(Zeros(crc0, n), crc1) && r == Xor(Zeros(crc01, n), crc2)
    ensures r == Crc(crc, s + t + u)
  {
    Stitch(crc, s, t);
    Stitch(crc, s + t, u);
  }

  lemma WholeStretches(crc: nat, s: bytes, t: bytes, u: bytes, n: nat, crc0: nat, crc1: nat, crc2: nat)
    requires |s| == |t| == |u| == n && FedStretches(crc, s, t, u, n, crc0, crc1, crc2)
    ensures crc0 == Crc(crc, s) && crc1 == Crc(0, t) && crc2 == Crc(0, u) && Is32(crc0) && Is32(crc1) && Is32(crc2)
  {
    assert s[..n] == s && t[..n] == t && u[..n] == u;
  }

  /** A block of three stretches of `words` eight-byte words. */
  method ThreeWay(zeros: array2<nat>, crc: nat, s: bytes, t: bytes, u: bytes, words: nat) returns (r: nat)
    requires |s| == |t| == |u| == 8 * words && Tabulates(zeros, 64 * words) && Is32(crc)
    ensures r == Crc(crc, s + t + u)
  {
    ghost var n: nat := 64 * words;
    var crc0, crc1, crc2 := FeedStretches(crc, s, t, u, words);
    WholeStretches(crc, s, t, u, 8 * words, crc0, crc1, crc2);
    var crc01 := Join(zeros, crc0, crc1, n);
    r := Join(zeros, crc01, crc2, n);
    ThreeStretches(crc, s, t, u, n, crc0, crc1, crc2, crc01, r);
  }

  lemma ThreeSlices(buf: bytes, next: nat, i: nat, j: nat, k: nat)
    requires next <= i <= j <= k <= |buf|
    ensures buf[next..k] == buf[next..i] + buf[i..j] + buf[j..k]
  {
  }

  method FeedBlock(zeros: array2<nat>, words: nat, crc: nat, buf: bytes, next: nat, ghost start: nat) returns (r: nat)
    requires Tabulates(zeros, 64 * words) && Fed(start, buf, next, crc) && next + 24 * words <= |buf|
    ensures Fed(start, buf, next + 24 * words, r)
  {
    r := CrcOfBlock(zeros, words, crc, buf, next);
    ghost var n: nat := 24 * words;
    FedMore(start, buf, next, crc, n);
  }

  method CrcOfBlock(zeros: array2<nat>, words: nat, crc: nat, buf: bytes, next: nat) returns (r: nat)
    requires Tabulates(zeros, 64 * words) && Is32(crc) && next + 24 * words <= |buf|
    ensures r == Crc(crc, buf[next..next + 24 * words])
  {
    var i := next + 8 * words;
    var j, k := i + 8 * words, next + 24 * words;
    ThreeSlices(buf, next, i, j, k);
    r := ThreeWay(zeros, crc, buf[next..i], buf[i..j], buf[j..k], words);
  }

  /** Whole blocks, as long as there is one. */
  method FeedBlocks(zeros: array2<nat>, words: nat, crc0: nat, buf: bytes, next0: nat, ghost start: nat) returns (crc: nat, next: nat)
    requires Tabulates(zeros, 64 * words) && words > 0 && Fed(start, buf, next0, crc0)
    ensures Fed(start, buf, next, crc) && |buf| - next < 24 * words
  {
    crc, next := crc0, next0;
    while |buf| - next >= 24 * words
      invariant Fed(start, buf, next, crc)
    {
      crc := FeedBlock(zeros, words, crc, buf, next, start);
      next := next + 24 * words;
    }
  }

  method FeedByte(crc: nat, buf: bytes, next: nat, ghost start: nat) returns (r: nat)
    requires Fed(start, buf, next, crc) && next < |buf|
    ensures Fed(start, buf, next + 1, r)
  {
    FedMore(start, buf, next, crc, 1);
    OneTaken(buf, next);
    r := StepByte(crc, buf[next]);
  }

  method FeedUnaligned(start: nat, buf: bytes, addr: nat) returns (crc: nat, next: nat)
    requires Is32(start)
    ensures Fed(start, buf, next, crc)
  {
    crc, next := start, 0;
    assert buf[..0] == [];
    while next < |buf| && (addr + next) % 8 != 0
      invariant Fed(start, buf, next, crc)
    {
      crc := FeedByte(crc, buf, next, start);
      next := next + 1;
    }
  }

  method TailWords(crc0: nat, buf: bytes, next0: nat, ghost start: nat) returns (crc: nat, next: nat)
    requires Fed(start, buf, next0, crc0)
    ensures Fed(start, buf, next, crc)
  {
    crc, next := crc0, next0;
    while |buf| - next >= 8
      invariant Fed(start, buf, next, crc)
    {
      crc := FeedWord(crc, buf, next, start);
      next := next + 8;
    }
  }

  /** Words as long as there is one, then bytes. */
  method FeedTail(crc0: nat, buf: bytes, next0: nat, ghost start: nat) returns (crc: nat)
    requires Fed(start, buf, next0, crc0)
    ensures Fed(start, buf, |buf|, crc)
  {
    var next;
    crc, next := TailWords(crc0, buf, next0, start);
    while next < |buf|
      invariant Fed(start, buf, next, crc)
    {
      crc := FeedByte(crc, buf, next, start);
      next := next + 1;
    }
  }

  /** The tables for both block sizes, which are powers of two, so the operators built are exact. */
  method Tables() returns (long: array2<nat>, short: array2<nat>)
    ensures Tabulates(long, 64 * (LONG / 8)) && Tabulates(short, 64 * (SHORT / 8))
  {
    long := ZerosTables(LONG);
    short := ZerosTables(SHORT);
    assert PowerOfTwo(LONG) == LONG && PowerOfTwo(SHORT) == SHORT;
  }

  /** The checksum of a buffer at address `addr`. */
  method ChecksumHw(crci: nat, buf: bytes, addr: nat) returns (r: nat)
    requires crci < 0x1_0000_0000
    ensures r == Checksum(crci, buf)
  {
    var long, short := Tables();
    Inverted(crci);
    var start := Xor(crci, ONES);
    var crc, next := FeedUnaligned(start, buf, addr);
    crc, next := FeedBlocks(long, LONG / 8, crc, buf, next, start);
    crc, next := FeedBlocks(short, SHORT / 8, crc, buf, next, start);
    crc := FeedTail(crc, buf, next, start);
    assert buf[..|buf|] == buf;
    r := Xor(crc, ONES);
  }
}
