/**
 The compressor's search for a match: hash-table probes at growing strides.  The table is
 only ever a hint, so little is assumed of the hash but its range.  `SearchEarlier` says a
 match found lies strictly before the position it is found for, which needs a stride that
 never drops to zero; `StrideExact` says which accelerations keep one.
 */
module Lz4Search {
  import opened Bytes

  const MAX_INPUT_SIZE := 0x7E000000
  const LIMIT_64K := 65536 + 11
  const MAX_DISTANCE := 65535
  const MF_END := 12
  const U32 := 0x1_0000_0000

  datatype TableType = ByU32 | ByU16

  /** What a table entry keeps of a position. */
  function Stored(tt: TableType, p: nat): nat {
    if tt.ByU16? then p % 65536 else p % U32
  }

  /** An arbitrary hash of the position, of which only the range is known. */
  ghost predicate Hashes(hash: nat -> nat, size: nat) { forall p: nat :: hash(p) < size }

  /** A hash reads eight bytes at its position. */
  function HashAt(hash: nat -> nat, n: nat, p: nat): nat
    requires p + 8 <= n
  {
    hash(p)
  }

  ghost predicate Fits(tt: TableType, n: nat) {
    13 <= n <= MAX_INPUT_SIZE && (tt.ByU16? ==> n < LIMIT_64K)
  }

  ghost predicate AllUpTo(table: seq<nat>, p: nat) { forall i :: 0 <= i < |table| ==> table[i] <= p }

  ghost predicate AllBelow(table: seq<nat>, p: nat) { forall i :: 0 <= i < |table| ==> table[i] < p }

  predicate SameFour(src: bytes, i: nat, j: nat)
    requires i + 4 <= |src| && j + 4 <= |src|
  {
    src[i..i + 4] == src[j..j + 4]
  }

  predicate Accepts(src: bytes, tt: TableType, m: nat, ip: nat)
    requires m <= ip && ip + 4 <= |src|
  {
    (tt.ByU16? || m + MAX_DISTANCE >= ip) && SameFour(src, m, ip)
  }

  datatype SearchResult = NotFound | Found(ip: nat, mtch: nat, table: seq<nat>)

  /** The probes from `ip` on; `nb` counts them and sets the stride. */
  ghost function Search(src: bytes, hash: nat -> nat, tt: TableType, table: seq<nat>, ip: nat, step: nat, nb: nat): (r: SearchResult)
    requires Hashes(hash, |table|) && Fits(tt, |src|)
    requires ip + 8 <= |src| && AllUpTo(table, ip)
    decreases |src| - ip, if table[hash(ip)] == ip then 0 else 1
  {
    var h, next := HashAt(hash, |src|, ip), ip + step;
    if next + MF_END > |src| then NotFound
    else
      var m, table' := table[h], table[h := Stored(tt, ip)];
      if Accepts(src, tt, m, ip) then Found(ip, m, table')
      else Search(src, hash, tt, table', next, nb / 64, (nb + 1) % U32)
  }

  lemma SearchStep(src: bytes, hash: nat -> nat, tt: TableType, table: seq<nat>, ip: nat, step: nat, nb: nat)
    requires Hashes(hash, |table|) && Fits(tt, |src|)
    requires ip + step + MF_END <= |src| && AllUpTo(table, ip)
    ensures var m, table' := table[hash(ip)], table[hash(ip) := Stored(tt, ip)];
            && AllUpTo(table', ip + step) && table'[hash(ip)] == ip && (m == ip ==> Accepts(src, tt, m, ip))
            && Search(src, hash, tt, table, ip, step, nb) ==
               if Accepts(src, tt, m, ip) then Found(ip, m, table')
               else Search(src, hash, tt, table', ip + step, nb / 64, (nb + 1) % U32)
  {
  }

  /** The search as the compressor starts it, the acceleration shifted in 32 bits. */
  ghost function SearchFrom(src: bytes, hash: nat -> nat, tt: TableType, table: seq<nat>, ip: nat, acceleration: nat): SearchResult
    requires Hashes(hash, |table|) && Fits(tt, |src|)
    requires ip + 8 <= |src| && AllUpTo(table, ip)
  {
    Search(src, hash, tt, table, ip, 1, acceleration * 64 % U32)
  }

  /** The accelerations whose shifted value does not vanish. */
  predicate KeepsStride(acceleration: nat) { acceleration % 0x400_0000 != 0 }

  /** A match found from `ip` on repeats four bytes within the window, and the table knows no later position. */
  ghost predicate FoundFrom(src: bytes, size: nat, ip: nat, r: SearchResult) {
    r.Found? ==>
      && ip <= r.ip && r.ip + MF_END <= |src| && r.mtch <= r.ip && r.ip - r.mtch <= MAX_DISTANCE
      && SameFour(src, r.mtch, r.ip) && |r.table| == size && AllUpTo(r.table, r.ip)
  }

  lemma {:induction false} SearchFound(src: bytes, hash: nat -> nat, tt: TableType, table: seq<nat>, ip: nat, step: nat, nb: nat)
    requires Hashes(hash, |table|) && Fits(tt, |src|)
    requires ip + 8 <= |src| && AllUpTo(table, ip)
    ensures FoundFrom(src, |table|, ip, Search(src, hash, tt, table, ip, step, nb))
    decreases |src| - ip, if table[hash(ip)] == ip then 0 else 1
  {
    if ip + step + MF_END <= |src| {
      var m, table' := table[hash(ip)], table[hash(ip) := Stored(tt, ip)];
      SearchStep(src, hash, tt, table, ip, step, nb);
      if Accepts(src, tt, m, ip) {
        AcceptedFound(src, tt, |table|, m, ip, table');
      } else {
        SearchFound(src, hash, tt, table', ip + step, nb / 64, (nb + 1) % U32);
      }
    }
  }

  lemma AcceptedFound(src: bytes, tt: TableType, size: nat, m: nat, ip: nat, table: seq<nat>)
    requires Fits(tt, |src|) && m <= ip && ip + MF_END <= |src| && Accepts(src, tt, m, ip) && |table| == size && AllUpTo(table, ip)
    ensures FoundFrom(src, size, ip, Found(ip, m, table))
  {
  }

  lemma ProductAtLeast(c: nat, a: nat)
    requires c >= 1 && a >= 1
    ensures c * a >= c + a - 1
  {
    assert (c - 1) * (a - 1) >= 0;
  }

  lemma Scaled(c: nat, a: nat)
    ensures (64 * c - 1) * a == 64 * (c * a) - a
  {
  }

  /** The probe counter cannot wrap before the stride has left the input. */
  lemma NoWrap(a: nat, k: nat)
    requires 1 <= a < 0x400_0000 && 64 * a + k + 1 == U32
    ensures k * a > MAX_INPUT_SIZE
  {
    var c := 0x400_0000 - a;
    ProductAtLeast(c, a);
    Scaled(c, a);
    assert k == 64 * c - 1;
  }

  /** The strides taken by `k` probes, each of at least `a` behind the first. */
  ghost predicate Strides(a: nat, k: nat, ip: nat, step: nat) {
    && 1 <= a < 0x400_0000 && 64 * a + k < U32
    && if k == 0 then step == 1 else step >= a && ip >= (k - 1) * a
  }

  lemma StridesNext(a: nat, k: nat, ip: nat, step: nat)
    requires Strides(a, k, ip, step) && ip + step <= MAX_INPUT_SIZE
    ensures step >= 1 && (64 * a + k + 1) % U32 == 64 * a + k + 1
    ensures Strides(a, k + 1, ip + step, (64 * a + k) / 64)
  {
    if k > 0 { assert k * a == (k - 1) * a + a; }
    assert ip + step >= k * a;
    if 64 * a + k + 1 == U32 { NoWrap(a, k); }
  }

  lemma {:induction false} SearchEarlierFrom(src: bytes, hash: nat -> nat, tt: TableType, table: seq<nat>, ip: nat, step: nat, a: nat, k: nat)
    requires Hashes(hash, |table|) && Fits(tt, |src|)
    requires ip + 8 <= |src| && AllBelow(table, ip) && Strides(a, k, ip, step)
    ensures match Search(src, hash, tt, table, ip, step, 64 * a + k)
            case NotFound => true
            case Found(ip', m, _) => m < ip'
    decreases |src| - ip
  {
    var h, next, nb := hash(ip), ip + step, 64 * a + k;
    if next + MF_END <= |src| {
      var m, table' := table[h], table[h := Stored(tt, ip)];
      SearchStep(src, hash, tt, table, ip, step, nb);
      if !Accepts(src, tt, m, ip) {
        StridesNext(a, k, ip, step);
        SearchEarlierFrom(src, hash, tt, table', next, nb / 64, a, k + 1);
      }
    }
  }

  /** A match lies strictly before the position it is found for. */
  lemma SearchEarlier(src: bytes, hash: nat -> nat, tt: TableType, table: seq<nat>, ip: nat, acceleration: nat)
    requires Hashes(hash, |table|) && Fits(tt, |src|)
    requires ip + 8 <= |src| && AllBelow(table, ip) && KeepsStride(acceleration)
    ensures match SearchFrom(src, hash, tt, table, ip, acceleration)
            case NotFound => true
            case Found(ip', m, _) => m < ip'
  {
    var a := acceleration % 0x400_0000;
    assert acceleration * 64 % U32 == 64 * a;
    SearchEarlierFrom(src, hash, tt, table, ip, 1, a, 0);
  }

  // ---- The hash of the compressor --------------------------------------------------------

  function Read32(src: bytes, p: nat): nat
    requires p + 4 <= |src|
  {
    var b0: int, b1: int, b2: int, b3: int := src[p], src[p + 1], src[p + 2], src[p + 3];
    b0 + 0x100 * b1 + 0x1_0000 * b2 + 0x100_0000 * b3
  }

  function Read64(src: bytes, p: nat): nat
    requires p + 8 <= |src|
  {
    Read32(src, p) + U32 * Read32(src, p + 4)
  }

  /** `LZ4_hashPosition` on a 64-bit little-endian machine: five bytes, or four in a 16-bit table. */
  function HashPosition(src: bytes, p: nat, tt: TableType): (h: nat)
    requires p + 8 <= |src|
    ensures h < TableSize(tt)
  {
    match tt
    case ByU16 => Read32(src, p) * 2654435761 % U32 / 0x8_0000
    case ByU32 => (Read64(src, p) * 0x100_0000 % 0x1_0000_0000_0000_0000) * 889523592379 % 0x1_0000_0000_0000_0000 / 0x10_0000_0000_0000
  }

  function TableSize(tt: TableType): nat { if tt.ByU16? then 8192 else 4096 }

  /** The same for every position, also those too near to the end to be asked for. */
  function HashOf(src: bytes, tt: TableType): (hash: nat -> nat)
    ensures Hashes(hash, TableSize(tt))
  {
    (p: nat) => if p + 8 <= |src| then HashPosition(src, p, tt) else 0
  }

  // ---- A stride of zero ------------------------------------------------------------------

  /** No four bytes up to `ip` are those at `ip`. */
  ghost predicate NewAt(src: bytes, ip: nat)
    requires ip + 4 <= |src|
  {
    forall m: nat :: m < ip ==> !SameFour(src, m, ip)
  }

  /**
   The other accelerations: once two probes in a row fail, the third is made at the position
   of the second and finds that position itself, at distance zero.
   */
  lemma ZeroStride(src: bytes, hash: nat -> nat, tt: TableType, table: seq<nat>, ip: nat, acceleration: nat)
    requires Hashes(hash, |table|) && Fits(tt, |src|)
    requires ip + 1 + MF_END <= |src| && AllBelow(table, ip) && !KeepsStride(acceleration)
    requires NewAt(src, ip) && NewAt(src, ip + 1)
    ensures var r := SearchFrom(src, hash, tt, table, ip, acceleration);
            r.Found? && r.ip == r.mtch == ip + 1
  {
    assert acceleration * 64 % U32 == 0;
    SearchStep(src, hash, tt, table, ip, 1, 0);
    StaysPut(src, hash, tt, table[hash(ip) := Stored(tt, ip)], ip + 1);
  }

  /** A probe that fails and is followed by another at the same position. */
  lemma StaysPut(src: bytes, hash: nat -> nat, tt: TableType, table: seq<nat>, ip: nat)
    requires Hashes(hash, |table|) && Fits(tt, |src|) && ip + MF_END <= |src| && AllUpTo(table, ip) && table[hash(ip)] < ip && NewAt(src, ip)
    ensures var r := Search(src, hash, tt, table, ip, 0, 1); r.Found? && r.ip == r.mtch == ip
  {
    SearchStep(src, hash, tt, table, ip, 0, 1);
    SearchStep(src, hash, tt, table[hash(ip) := Stored(tt, ip)], ip, 0, 2);
  }

  /** A search as the compressor starts it. */
  ghost predicate Starts(src: bytes, tt: TableType, table: seq<nat>, ip: nat) {
    |table| == TableSize(tt) && Fits(tt, |src|) && ip + 8 <= |src| && AllBelow(table, ip)
  }

  ghost predicate FindsEarlier(src: bytes, tt: TableType, table: seq<nat>, ip: nat, acceleration: nat)
    requires Starts(src, tt, table, ip)
  {
    var r := SearchFrom(src, HashOf(src, tt), tt, table, ip, acceleration);
    r.Found? ==> r.mtch < r.ip
  }

  /** The bytes 0 to 13. */
  const COUNTING: bytes := [0, 1, 2, 3, 4, 5, 6, 7, 8, 9, 10, 11, 12, 13]

  lemma CountingIsNew(ip: nat)
    requires ip <= 10
    ensures NewAt(COUNTING, ip)
  {
    forall m: nat | m < ip ensures !SameFour(COUNTING, m, ip) {
      assert COUNTING[m..m + 4][0] == COUNTING[m] == m;
      assert COUNTING[ip..ip + 4][0] == COUNTING[ip] == ip;
    }
  }

  function Zeros(n: nat): (t: seq<nat>)
    ensures |t| == n && AllBelow(t, 1)
  {
    seq(n, _ => 0)
  }

  /** The first search of the compressor over the bytes 0 to 13: the third probe of a zero stride matches itself. */
  lemma ZeroStrideExample(acceleration: nat, table: seq<nat>)
    requires !KeepsStride(acceleration) && |table| == TableSize(ByU16) && AllBelow(table, 1)
    ensures Starts(COUNTING, ByU16, table, 1)
    ensures var r := SearchFrom(COUNTING, HashOf(COUNTING, ByU16), ByU16, table, 1, acceleration);
            r.Found? && r.ip == r.mtch == 2
  {
    CountingIsNew(1);
    CountingIsNew(2);
    ZeroStride(COUNTING, HashOf(COUNTING, ByU16), ByU16, table, 1, acceleration);
  }

  /** Exactly the accelerations that keep a stride find only earlier positions, on every input. */
  lemma StrideExact(acceleration: nat)
    ensures KeepsStride(acceleration) <==>
            forall src: bytes, tt: TableType, table: seq<nat>, ip: nat ::
              Starts(src, tt, table, ip) ==> FindsEarlier(src, tt, table, ip, acceleration)
  {
    if KeepsStride(acceleration) {
      forall src: bytes, tt: TableType, table: seq<nat>, ip: nat | Starts(src, tt, table, ip)
        ensures FindsEarlier(src, tt, table, ip, acceleration)
      {
        SearchEarlier(src, HashOf(src, tt), tt, table, ip, acceleration);
      }
    } else {
      ZeroStrideExample(acceleration, Zeros(TableSize(ByU16)));
      assert !FindsEarlier(COUNTING, ByU16, Zeros(TableSize(ByU16)), 1, acceleration);
    }
  }
}
