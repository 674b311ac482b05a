/** `crc32c_sw`: the eight look-up tables and the slicing-by-eight loop, against the bitwise definition. */
module Crc32cSoftware {
  import opened B = Bytes
  import opened Words
  import opened Crc32c

  /** Row `k` holds what each byte comes to when followed by `k` more. */
  ghost predicate Right(t: array2<nat>)
    reads t
  {
    && t.Length0 == 8 && t.Length1 == 256
    && forall k, n {:trigger t[k, n]} :: 0 <= k < 8 && 0 <= n < 256 ==> t[k, n] == Slice(n, k + 1)
  }

  lemma EightShifts(c: nat)
    ensures Zeros(c, 8) == Shift1(Shift1(Shift1(Shift1(Shift1(Shift1(Shift1(Shift1(c))))))))
  {
    var c1 := Shift1(c);
    var c2 := Shift1(c1);
    var c3 := Shift1(c2);
    var c4 := Shift1(c3);
    var c5 := Shift1(c4);
    var c6 := Shift1(c5);
    var c7 := Shift1(c6);
    ZerosStep(c, 8);
    ZerosStep(c1, 7);
    ZerosStep(c2, 6);
    ZerosStep(c3, 5);
    ZerosStep(c4, 4);
    ZerosStep(c5, 3);
    ZerosStep(c6, 2);
    ZerosStep(c7, 1);
  }

  /** One more byte behind a slice. */
  lemma NextRow(n: nat, k: nat, crc: nat)
    requires crc == Slice(n, k)
    ensures Xor(Slice(crc % 256, 1), crc / 256) == Slice(n, k + 1)
  {
    ZeroEight(crc);
    ZerosAdd(n, 8 * k, 8);
  }

  method InitTables() returns (t: array2<nat>)
    ensures fresh(t) && Right(t)
  {
    t := new nat[8, 256];
    FillFirst(t);
    var n := 0;
    while n < 256
      invariant 0 <= n <= 256
      invariant forall i :: 0 <= i < 256 ==> t[0, i] == Slice(i, 1)
      invariant forall k, i {:trigger t[k, i]} :: 0 <= k < 8 && 0 <= i < n ==> t[k, i] == Slice(i, k + 1)
    {
      FillColumn(t, n);
      n := n + 1;
    }
  }

  /** The first row: each byte on its own. */
  method FillFirst(t: array2<nat>)
    requires t.Length0 == 8 && t.Length1 == 256
    modifies t
    ensures forall i :: 0 <= i < 256 ==> t[0, i] == Slice(i, 1)
  {
    var n := 0;
    while n < 256
      invariant 0 <= n <= 256
      invariant forall i :: 0 <= i < n ==> t[0, i] == Slice(i, 1)
    {
      t[0, n] := ShiftByte(n);
      n := n + 1;
    }
  }

  method ShiftByte(n: nat) returns (crc: nat)
    ensures crc == Slice(n, 1)
  {
    EightShifts(n);
    crc := Shift1(n);
    crc := Shift1(crc);
    crc := Shift1(crc);
    crc := Shift1(crc);
    crc := Shift1(crc);
    crc := Shift1(crc);
    crc := Shift1(crc);
    crc := Shift1(crc);
  }

  /** The rows below the first, for one byte. */
  method FillColumn(t: array2<nat>, n: nat)
    requires t.Length0 == 8 && t.Length1 == 256 && n < 256
    requires forall i :: 0 <= i < 256 ==> t[0, i] == Slice(i, 1)
    modifies t
    ensures forall k, i {:trigger t[k, i]} :: 0 <= k < 8 && 0 <= i < 256 && i != n ==> t[k, i] == old(t[k, i])
    ensures forall k {:trigger t[k, n]} :: 0 <= k < 8 ==> t[k, n] == Slice(n, k + 1)
  {
    var crc := t[0, n];
    var k := 1;
    while k < 8
      invariant 1 <= k <= 8 && crc == Slice(n, k)
      invariant forall j {:trigger t[j, n]} :: 0 <= j < k ==> t[j, n] == Slice(n, j + 1)
      invariant forall i :: 0 <= i < 256 ==> t[0, i] == Slice(i, 1)
      invariant forall j, i {:trigger t[j, i]} :: 0 <= j < 8 && 0 <= i < 256 && i != n ==> t[j, i] == old(t[j, i])
    {
      NextRow(n, k, crc);
      crc := Xor(t[0, crc % 256], crc / 256);
      t[k, n] := crc;
      k := k + 1;
    }
  }

  method StepByte(t: array2<nat>, crc: nat, b: byte) returns (r: nat)
    requires Right(t) && Is32(crc)
    ensures r == Crc(crc, [b]) && Is32(r)
  {
    OneByte(crc, b);
    CrcIs32(crc, [b]);
    r := Xor(t[0, Xor(crc, b) % 256], crc / 256);
  }

  method StepEight(t: array2<nat>, crc: nat, s: bytes) returns (r: nat)
    requires Right(t) && Is32(crc) && |s| == 8
    ensures r == Crc(crc, s) && Is32(r)
  {
    var x := Xor(crc, LittleEndian(s));
    var x1 := x / 256;
    var x2 := x1 / 256;
    var x3 := x2 / 256;
    var x4 := x3 / 256;
    var x5 := x4 / 256;
    var x6 := x5 / 256;
    var x7 := x6 / 256;
    EightBytes(crc, s, x, x1, x2, x3, x4, x5, x6, x7);
    CrcIs32(crc, s);
    r := Xor(Xor(Xor(Xor(Xor(Xor(Xor(t[7, x % 256], t[6, x1 % 256]), t[5, x2 % 256]), t[4, x3 % 256]),
           t[3, x4 % 256]), t[2, x5 % 256]), t[1, x6 % 256]), t[0, x7]);
  }

  method FeedByte(t: array2<nat>, crc: nat, buf: bytes, next: nat, ghost start: nat) returns (r: nat)
    requires Right(t) && Fed(start, buf, next, crc) && next < |buf|
    ensures Fed(start, buf, next + 1, r)
  {
    FedMore(start, buf, next, crc, 1);
    OneTaken(buf, next);
    r := StepByte(t, crc, buf[next]);
  }

  method FeedEight(t: array2<nat>, crc: nat, buf: bytes, next: nat, ghost start: nat) returns (r: nat)
    requires Right(t) && Fed(start, buf, next, crc) && next + 8 <= |buf|
    ensures Fed(start, buf, next + 8, r)
  {
    FedMore(start, buf, next, crc, 8);
    r := StepEight(t, crc, buf[next..next + 8]);
  }

  /** Single bytes up to an eight-byte boundary. */
  method FeedUnaligned(t: array2<nat>, start: nat, buf: bytes, addr: nat) returns (crc: nat, next: nat)
    requires Right(t) && Is32(start)
    ensures Fed(start, buf, next, crc)
  {
    crc, next := start, 0;
    assert buf[..0] == [];
    while next < |buf| && (addr + next) % 8 != 0
      invariant Fed(start, buf, next, crc)
    {
      crc := FeedByte(t, crc, buf, next, start);
      next := next + 1;
    }
  }

  method FeedEights(t: array2<nat>, crc0: nat, buf: bytes, next0: nat, ghost start: nat) returns (crc: nat, next: nat)
    requires Right(t) && Fed(start, buf, next0, crc0)
    ensures Fed(start, buf, next, crc)
  {
    crc, next := crc0, next0;
    while |buf| - next >= 8
      invariant Fed(start, buf, next, crc)
    {
      crc := FeedEight(t, crc, buf, next, start);
      next := next + 8;
    }
  }

  method FeedRest(t: array2<nat>, crc0: nat, buf: bytes, next0: nat, ghost start: nat) returns (crc: nat)
    requires Right(t) && Fed(start, buf, next0, crc0)
    ensures Fed(start, buf, |buf|, crc)
  {
    crc := crc0;
    var next := next0;
    while next < |buf|
      invariant Fed(start, buf, next, crc)
    {
      crc := FeedByte(t, crc, buf, next, start);
      next := next + 1;
    }
    assert next == |buf|;
  }

  /** The table-driven checksum of a buffer at address `addr` is the bitwise one, at every alignment. */
  method ChecksumSw(t: array2<nat>, crci: nat, buf: bytes, addr: nat) returns (r: nat)
    requires Right(t) && crci < 0x1_0000_0000
    ensures r == Checksum(crci, buf)
  {
    Inverted(crci);
    var crc, next := FeedUnaligned(t, Xor(crci, ONES), buf, addr);
    crc, next := FeedEights(t, crc, buf, next, Xor(crci, ONES));
    crc := FeedRest(t, crc, buf, next, Xor(crci, ONES));
    assert buf[..|buf|] == buf;
    r := Xor(crc, ONES);
  }
}
