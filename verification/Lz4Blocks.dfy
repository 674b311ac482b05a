/**
 What the greedy compressor makes of a source, as a function of the source, the hash and the
 acceleration: match by match, from a search or straight behind the match before.  Whatever the
 hash, the block ends as the format asks and can be decoded; it stands for its source exactly
 when the stride of the search never vanishes.
 */
module Lz4Blocks {
  import opened Bytes
  import opened Lz4Format
  import opened Lz4Search
  import Lz4DecodeSpec

  // ---- Matches -----------------------------------------------------------------------

  /** The bytes from `lo` to `hi` repeat those `off` before them. */
  ghost predicate Repeated(src: bytes, off: nat, lo: nat, hi: nat) {
    off <= lo <= hi <= |src| && src[lo..hi] == src[lo - off..hi - off]
  }

  lemma Joined(src: bytes, off: nat, lo: nat, mid: nat, hi: nat)
    requires Repeated(src, off, lo, mid) && Repeated(src, off, mid, hi)
    ensures Repeated(src, off, lo, hi)
  {
    Adjacent(src, lo, mid, hi);
    Adjacent(src, lo - off, mid - off, hi - off);
  }

  lemma OneRepeated(src: bytes, off: nat, ip: nat)
    requires off <= ip < |src| && src[ip] == src[ip - off]
    ensures Repeated(src, off, ip, ip + 1)
  {
    OneTaken(src, ip);
    OneTaken(src, ip - off);
  }

  lemma OneMoreRepeated(src: bytes, off: nat, ip: nat, end: nat)
    requires off <= ip < |src| && src[ip] == src[ip - off] && Repeated(src, off, ip + 1, end)
    ensures Repeated(src, off, ip, end)
  {
    OneRepeated(src, off, ip);
    Joined(src, off, ip, ip + 1, end);
  }

  lemma Shorter(src: bytes, off: nat, lo: nat, mid: nat, hi: nat)
    requires Repeated(src, off, lo, hi) && lo <= mid <= hi
    ensures Repeated(src, off, lo, mid)
  {
    assert src[lo..mid] == src[lo..hi][..mid - lo];
    assert src[lo - off..mid - off] == src[lo - off..hi - off][..mid - lo];
  }

  /** The match reaches at least as far as it is known to. */
  lemma ReachesBeyond(src: bytes, off: nat, ip: nat, known: nat, end: nat)
    requires Repeated(src, off, ip, known) && known + LAST_LITERALS <= |src| && ip <= end
    requires end + LAST_LITERALS < |src| ==> src[end] != src[end - off]
    requires end + LAST_LITERALS <= |src| && off <= end
    ensures known <= end
  {
  }

  /** The four bytes probed and those counted make one match, which reaches at least `top` + 4. */
  lemma WholeMatch(src: bytes, off: nat, ip: nat, top: nat, extra: nat)
    requires ip <= top && top + MF_LIMIT <= |src| && Repeated(src, off, ip, top + MIN_MATCH)
    requires ip + MIN_MATCH + extra + LAST_LITERALS <= |src|
    requires Repeated(src, off, ip + MIN_MATCH, ip + MIN_MATCH + extra)
    requires ip + MIN_MATCH + extra + LAST_LITERALS < |src| ==> src[ip + MIN_MATCH + extra] != src[ip + MIN_MATCH + extra - off]
    ensures Repeated(src, off, ip, ip + MIN_MATCH + extra) && top <= ip + extra
  {
    Shorter(src, off, ip, ip + MIN_MATCH, top + MIN_MATCH);
    Joined(src, off, ip, ip + MIN_MATCH, ip + MIN_MATCH + extra);
    ReachesBeyond(src, off, ip, top + MIN_MATCH, ip + MIN_MATCH + extra);
  }

  /** Where a match of `ip` at distance `off` begins once it is extended backwards, up to `anchor`. */
  function CaughtUp(src: bytes, ip: nat, off: nat, anchor: nat): (r: nat)
    requires anchor <= ip <= |src| && off <= ip
    ensures anchor <= r <= ip && off <= r
  {
    if ip > anchor && ip - off > 0 && src[ip - 1] == src[ip - off - 1] then CaughtUp(src, ip - 1, off, anchor) else ip
  }

  lemma {:induction false} CaughtUpRepeats(src: bytes, ip: nat, off: nat, anchor: nat, end: nat)
    requires anchor <= ip && Repeated(src, off, ip, end)
    ensures Repeated(src, off, CaughtUp(src, ip, off, anchor), end)
    decreases ip
  {
    if ip > anchor && ip - off > 0 && src[ip - 1] == src[ip - off - 1] {
      OneMoreRepeated(src, off, ip - 1, end);
      CaughtUpRepeats(src, ip - 1, off, anchor, end);
    }
  }

  /** How far from `ip` on the bytes repeat those `off` before them, up to `limit`. */
  function RunLength(src: bytes, ip: nat, off: nat, limit: nat): (n: nat)
    requires off <= ip <= limit <= |src|
    ensures ip + n <= limit
    ensures ip + n < limit ==> src[ip + n] != src[ip + n - off]
    decreases limit - ip
  {
    if ip < limit && src[ip] == src[ip - off] then 1 + RunLength(src, ip + 1, off, limit) else 0
  }

  lemma {:induction false} RunLengthRepeats(src: bytes, ip: nat, off: nat, limit: nat)
    requires off <= ip <= limit <= |src|
    ensures Repeated(src, off, ip, ip + RunLength(src, ip, off, limit))
    decreases limit - ip
  {
    if ip < limit && src[ip] == src[ip - off] {
      RunLengthRepeats(src, ip + 1, off, limit);
      OneMoreRepeated(src, off, ip, ip + RunLength(src, ip, off, limit));
    }
  }

  /** A run that ends at the limit or at a difference is the whole run. */
  lemma {:induction false} RunLengthIs(src: bytes, ip: nat, off: nat, limit: nat, n: nat)
    requires ip + n <= limit <= |src| && Repeated(src, off, ip, ip + n)
    requires ip + n < limit ==> src[ip + n] != src[ip + n - off]
    ensures n == RunLength(src, ip, off, limit)
    decreases n
  {
    if n > 0 {
      assert src[ip..ip + n][0] == src[ip - off..ip + n - off][0];
      assert src[ip + 1..ip + n] == src[ip..ip + n][1..];
      assert src[ip + 1 - off..ip + n - off] == src[ip - off..ip + n - off][1..];
      RunLengthIs(src, ip + 1, off, limit, n - 1);
    }
  }

  // ---- From match to match -----------------------------------------------------------

  /** The sequences still to come, and where the closing literals begin. */
  datatype Rest = Rest(sequences: seq<Sequence>, anchor: nat)

  /** A match of `ip` at distance `off`, known to reach `top` + 4, with every table entry at most `top`. */
  ghost predicate Pending(src: bytes, table: seq<nat>, anchor: nat, ip: nat, off: nat, top: nat) {
    && anchor <= ip <= top && off <= MAX_DISTANCE
    && top + MF_LIMIT <= |src| && Repeated(src, off, ip, top + MIN_MATCH)
    && AllUpTo(table, top)
  }

  /** How much longer than the minimum a match of `ip` is. */
  function Extra(src: bytes, ip: nat, off: nat): nat
    requires off <= ip && ip + MF_LIMIT <= |src|
  {
    RunLength(src, ip + MIN_MATCH, off, |src| - LAST_LITERALS)
  }

  /** Where a match of `ip` ends. */
  function End(src: bytes, ip: nat, off: nat): nat
    requires off <= ip && ip + MF_LIMIT <= |src|
  {
    ip + MIN_MATCH + Extra(src, ip, off)
  }

  lemma EndReaches(src: bytes, table: seq<nat>, anchor: nat, ip: nat, off: nat, top: nat)
    requires Pending(src, table, anchor, ip, off, top)
    ensures top + MIN_MATCH <= End(src, ip, off) <= |src| - LAST_LITERALS && AllBelow(table, End(src, ip, off))
    ensures Repeated(src, off, ip, End(src, ip, off))
  {
    RunLengthRepeats(src, ip + MIN_MATCH, off, |src| - LAST_LITERALS);
    WholeMatch(src, off, ip, top, Extra(src, ip, off));
  }

  /** The table once the end of a match and a position in it are remembered. */
  function Remembered(hash: nat -> nat, table: seq<nat>, ip: nat): (t: seq<nat>)
    requires ip >= 2 && hash(ip - 2) < |table| && hash(ip) < |table|
    ensures |t| == |table|
  {
    table[hash(ip - 2) := ip - 2][hash(ip) := ip]
  }

  /** What the table says about the end of a match before it is remembered. */
  function Recalled(hash: nat -> nat, table: seq<nat>, ip: nat): nat
    requires ip >= 2 && hash(ip - 2) < |table| && hash(ip) < |table|
  {
    table[hash(ip - 2) := ip - 2][hash(ip)]
  }

  /** Whether another match follows at once. */
  ghost predicate Follows(src: bytes, hash: nat -> nat, table: seq<nat>, ip: nat)
    requires ip >= 2 && Hashes(hash, |table|) && ip + MF_LIMIT <= |src| && AllBelow(table, ip)
  {
    var m := Recalled(hash, table, ip);
    m + MAX_DISTANCE >= ip && SameFour(src, m, ip)
  }

  /** What a search may come to: a match found is pending from where it begins. */
  ghost predicate Finding(src: bytes, hash: nat -> nat, anchor: nat, r: SearchResult) {
    anchor <= |src| && (r.Found? ==>
      && anchor <= r.ip <= |src| && r.mtch <= r.ip && Hashes(hash, |r.table|)
      && Pending(src, r.table, anchor, CaughtUp(src, r.ip, r.ip - r.mtch, anchor), r.ip - r.mtch, r.ip))
  }

  lemma SearchIsFinding(src: bytes, hash: nat -> nat, tt: TableType, table: seq<nat>, a: nat, anchor: nat, ip: nat)
    requires Hashes(hash, |table|) && Fits(tt, |src|) && anchor <= ip && ip + 8 <= |src| && AllBelow(table, ip)
    ensures Finding(src, hash, anchor, SearchFrom(src, hash, tt, table, ip, a))
  {
    SearchFound(src, hash, tt, table, ip, 1, a * 64 % U32);
    var r := SearchFrom(src, hash, tt, table, ip, a);
    if r.Found? { FoundPending(src, |table|, hash, anchor, ip, r); }
  }

  lemma FoundPending(src: bytes, size: nat, hash: nat -> nat, anchor: nat, ip: nat, r: SearchResult)
    requires Hashes(hash, size) && anchor <= ip && FoundFrom(src, size, ip, r) && r.Found?
    ensures Finding(src, hash, anchor, r)
  {
    CaughtUpRepeats(src, r.ip, r.ip - r.mtch, anchor, r.ip + MIN_MATCH);
  }

  /** What comes of a pending match. */
  ghost function AfterMatch(src: bytes, hash: nat -> nat, tt: TableType, table: seq<nat>, a: nat, anchor: nat, ip: nat, off: nat, top: nat): Rest
    requires Hashes(hash, |table|) && Fits(tt, |src|) && Pending(src, table, anchor, ip, off, top)
    decreases |src| - anchor, 0
  {
    EndReaches(src, table, anchor, ip, off, top);
    var s := Sequence(src[anchor..ip], off, Extra(src, ip, off));
    var rest := AfterEnd(src, hash, tt, table, a, End(src, ip, off));
    Rest([s] + rest.sequences, rest.anchor)
  }

  /** What comes behind the end of a match. */
  ghost function AfterEnd(src: bytes, hash: nat -> nat, tt: TableType, table: seq<nat>, a: nat, ip: nat): Rest
    requires Hashes(hash, |table|) && Fits(tt, |src|) && 2 <= ip <= |src| && AllBelow(table, ip)
    decreases |src| - ip, 3
  {
    if ip + MF_LIMIT > |src| then Rest([], ip)
    else if Follows(src, hash, table, ip) then
      AfterMatch(src, hash, tt, Remembered(hash, table, ip), a, ip, ip, ip - Recalled(hash, table, ip), ip)
    else AfterSearch(src, hash, tt, Remembered(hash, table, ip), a, ip, ip + 1)
  }

  /** What comes of a search from `ip` on. */
  ghost function AfterSearch(src: bytes, hash: nat -> nat, tt: TableType, table: seq<nat>, a: nat, anchor: nat, ip: nat): Rest
    requires Hashes(hash, |table|) && Fits(tt, |src|) && anchor <= ip && ip + 8 <= |src| && AllBelow(table, ip)
    decreases |src| - anchor, 2
  {
    SearchIsFinding(src, hash, tt, table, a, anchor, ip);
    AfterFinding(src, hash, tt, a, anchor, SearchFrom(src, hash, tt, table, ip, a))
  }

  /** What comes of what a search has found. */
  ghost function AfterFinding(src: bytes, hash: nat -> nat, tt: TableType, a: nat, anchor: nat, r: SearchResult): Rest
    requires Fits(tt, |src|) && Finding(src, hash, anchor, r)
    decreases |src| - anchor, 1
  {
    if r.NotFound? then Rest([], anchor)
    else AfterMatch(src, hash, tt, r.table, a, anchor, CaughtUp(src, r.ip, r.ip - r.mtch, anchor), r.ip - r.mtch, r.ip)
  }

  /** The block the compressor makes of a source that is not too large. */
  ghost function BlockOf(src: bytes, hash: nat -> nat, tt: TableType, table: seq<nat>, a: nat): Block
    requires Hashes(hash, |table|) && AllUpTo(table, 0) && |src| <= MAX_INPUT_SIZE && (tt.ByU16? ==> |src| < LIMIT_64K)
  {
    if |src| < MF_LIMIT + 1 then Block([], src, 0)
    else
      var rest := AfterSearch(src, hash, tt, table[hash(0) := 0], a, 0, 1);
      Block(rest.sequences, if rest.anchor <= |src| then src[rest.anchor..] else [], 0)
  }

  // ---- What the block stands for -----------------------------------------------------

  ghost predicate OffsetsInWindow(ss: seq<Sequence>) {
    forall i :: 0 <= i < |ss| ==> 1 <= ss[i].offset <= MAX_DISTANCE
  }

  /** Behind `out`, the rest of the block can be decoded and ends well; `exact` when it stands for the source. */
  ghost predicate Completes(src: bytes, out: bytes, rest: Rest, exact: bool) {
    && rest.anchor <= |src| && |ExpandAll(out, rest.sequences)| == rest.anchor
    && Decodable(out, rest.sequences) && EndsWell(rest.sequences, src[rest.anchor..])
    && (exact ==> ExpandAll(out, rest.sequences) == src[..rest.anchor] && OffsetsInWindow(rest.sequences))
  }

  lemma ExpandsTo(src: bytes, anchor: nat, ip: nat, off: nat, extra: nat)
    requires anchor <= ip && 0 < off && Repeated(src, off, ip, ip + MIN_MATCH + extra)
    ensures Expand(src[..anchor], Sequence(src[anchor..ip], off, extra)) == src[..ip + MIN_MATCH + extra]
  {
    var end := ip + MIN_MATCH + extra;
    assert src[..anchor] + src[anchor..ip] == src[..ip];
    forall i, j | ip <= j < end && i == j - off ensures src[i] == src[j] {
      assert src[ip..end][j - ip] == src[ip - off..end - off][j - ip];
    }
    DistantCopy(src[..end], src[..ip], off);
  }

  /** One sequence in front keeps the block decodable, its offsets in the window and its meaning that of the source. */
  lemma OneMore(src: bytes, out: bytes, anchor: nat, ip: nat, off: nat, extra: nat, rest: Rest, exact: bool)
    requires Upto(src, out, anchor, exact) && anchor <= ip && off <= MAX_DISTANCE && (exact ==> off >= 1)
    requires ip + MF_LIMIT <= |src| && Repeated(src, off, ip, ip + MIN_MATCH + extra) && ip + MIN_MATCH + extra + LAST_LITERALS <= |src|
    requires Completes(src, Expand(out, Sequence(src[anchor..ip], off, extra)), rest, exact)
    ensures Completes(src, out, Rest([Sequence(src[anchor..ip], off, extra)] + rest.sequences, rest.anchor), exact)
  {
    var s := Sequence(src[anchor..ip], off, extra);
    var ss := [s] + rest.sequences;
    assert ss[1..] == rest.sequences;
    if rest.sequences != [] { assert ss[|ss| - 1] == rest.sequences[|rest.sequences| - 1]; }
  }

  /** Where the expansion has got to. */
  ghost predicate Upto(src: bytes, out: bytes, anchor: nat, exact: bool) {
    anchor <= |src| && |out| == anchor && (exact ==> out == src[..anchor])
  }

  lemma NothingCompletes(src: bytes, out: bytes, anchor: nat, exact: bool)
    requires Upto(src, out, anchor, exact)
    ensures Completes(src, out, Rest([], anchor), exact)
  {
  }

  lemma {:induction false} MatchCompletes(src: bytes, hash: nat -> nat, tt: TableType, table: seq<nat>, a: nat, anchor: nat, ip: nat, off: nat, top: nat, out: bytes, exact: bool, rest: Rest)
    requires Hashes(hash, |table|) && Fits(tt, |src|) && Pending(src, table, anchor, ip, off, top)
    requires Upto(src, out, anchor, exact) && (exact ==> KeepsStride(a) && off >= 1)
    requires rest == AfterMatch(src, hash, tt, table, a, anchor, ip, off, top)
    ensures Completes(src, out, rest, exact)
    decreases |src| - anchor, 0
  {
    EndReaches(src, table, anchor, ip, off, top);
    var extra, end := Extra(src, ip, off), End(src, ip, off);
    var s := Sequence(src[anchor..ip], off, extra);
    var more := AfterEnd(src, hash, tt, table, a, end);
    if exact { ExpandsTo(src, anchor, ip, off, extra); }
    EndCompletes(src, hash, tt, table, a, end, Expand(out, s), exact, more);
    OneMore(src, out, anchor, ip, off, extra, more, exact);
  }

  lemma {:induction false} EndCompletes(src: bytes, hash: nat -> nat, tt: TableType, table: seq<nat>, a: nat, ip: nat, out: bytes, exact: bool, rest: Rest)
    requires Hashes(hash, |table|) && Fits(tt, |src|) && 2 <= ip <= |src| && AllBelow(table, ip)
    requires Upto(src, out, ip, exact) && (exact ==> KeepsStride(a))
    requires rest == AfterEnd(src, hash, tt, table, a, ip)
    ensures Completes(src, out, rest, exact)
    decreases |src| - ip, 3
  {
    if ip + MF_LIMIT > |src| {
      NothingCompletes(src, out, ip, exact);
    } else if Follows(src, hash, table, ip) {
      MatchCompletes(src, hash, tt, Remembered(hash, table, ip), a, ip, ip, ip - Recalled(hash, table, ip), ip, out, exact, rest);
    } else {
      SearchCompletes(src, hash, tt, Remembered(hash, table, ip), a, ip, ip + 1, out, exact, rest);
    }
  }

  lemma {:induction false} SearchCompletes(src: bytes, hash: nat -> nat, tt: TableType, table: seq<nat>, a: nat, anchor: nat, ip: nat, out: bytes, exact: bool, rest: Rest)
    requires Hashes(hash, |table|) && Fits(tt, |src|) && anchor <= ip && ip + 8 <= |src| && AllBelow(table, ip)
    requires Upto(src, out, anchor, exact) && (exact ==> KeepsStride(a))
    requires rest == AfterSearch(src, hash, tt, table, a, anchor, ip)
    ensures Completes(src, out, rest, exact)
    decreases |src| - anchor, 2
  {
    var r, at, off := SearchEnds(src, hash, tt, table, a, anchor, ip);
    if r.NotFound? {
      NothingCompletes(src, out, anchor, exact);
    } else {
      if exact { SearchEarlier(src, hash, tt, table, ip, a); }
      MatchCompletes(src, hash, tt, r.table, a, anchor, at, off, r.ip, out, exact, rest);
    }
  }

  /** A search leads to the closing literals, or to the match it finds. */
  lemma SearchEnds(src: bytes, hash: nat -> nat, tt: TableType, table: seq<nat>, a: nat, anchor: nat, ip: nat)
    returns (r: SearchResult, at: nat, off: nat)
    requires Hashes(hash, |table|) && Fits(tt, |src|) && anchor <= ip && ip + 8 <= |src| && AllBelow(table, ip)
    ensures r == SearchFrom(src, hash, tt, table, ip, a)
    ensures r.NotFound? ==> AfterSearch(src, hash, tt, table, a, anchor, ip) == Rest([], anchor)
    ensures r.Found? ==> off == r.ip - r.mtch && Hashes(hash, |r.table|) && Pending(src, r.table, anchor, at, off, r.ip)
    ensures r.Found? ==> AfterSearch(src, hash, tt, table, a, anchor, ip) == AfterMatch(src, hash, tt, r.table, a, anchor, at, off, r.ip)
  {
    r := SearchFrom(src, hash, tt, table, ip, a);
    SearchIsFinding(src, hash, tt, table, a, anchor, ip);
    at, off := FindingEnds(src, hash, tt, a, anchor, r);
  }

  lemma FindingEnds(src: bytes, hash: nat -> nat, tt: TableType, a: nat, anchor: nat, r: SearchResult) returns (at: nat, off: nat)
    requires Fits(tt, |src|) && Finding(src, hash, anchor, r)
    ensures r.NotFound? ==> AfterFinding(src, hash, tt, a, anchor, r) == Rest([], anchor)
    ensures r.Found? ==> r.mtch <= r.ip && off == r.ip - r.mtch && Hashes(hash, |r.table|) && Pending(src, r.table, anchor, at, off, r.ip)
    ensures r.Found? ==> AfterFinding(src, hash, tt, a, anchor, r) == AfterMatch(src, hash, tt, r.table, a, anchor, at, off, r.ip)
  {
    at, off := 0, 0;
    if r.Found? {
      off := r.ip - r.mtch;
      at := CaughtUp(src, r.ip, off, anchor);
    }
  }

  /** `b` is a conforming block as long as `src`; `exact` when it stands for `src`. */
  ghost predicate StandsFor(src: bytes, b: Block, exact: bool) {
    && b.spare == 0 && Conforming(b) && |Meaning(b)| == |src|
    && (exact ==> Meaning(b) == src && OffsetsInWindow(b.sequences))
  }

  lemma BlockStands(src: bytes, hash: nat -> nat, tt: TableType, table: seq<nat>, a: nat)
    requires Hashes(hash, |table|) && AllUpTo(table, 0) && |src| <= MAX_INPUT_SIZE && (tt.ByU16? ==> |src| < LIMIT_64K)
    ensures StandsFor(src, BlockOf(src, hash, tt, table, a), KeepsStride(a))
  {
    if |src| >= MF_LIMIT + 1 {
      var exact := KeepsStride(a);
      var rest := AfterSearch(src, hash, tt, table[hash(0) := 0], a, 0, 1);
      SearchCompletes(src, hash, tt, table[hash(0) := 0], a, 0, 1, [], exact, rest);
      assert exact ==> src[..rest.anchor] + src[rest.anchor..] == src;
    }
  }

  // ---- The compressor as it is called ------------------------------------------------

  function TypeFor(n: nat): TableType { if n < LIMIT_64K then ByU16 else ByU32 }

  /** The block for a source, with the hash of the compressor and its table cleared. */
  ghost function CompressedBlock(src: bytes, a: nat): Block
    requires |src| <= MAX_INPUT_SIZE
  {
    var tt := TypeFor(|src|);
    BlockOf(src, HashOf(src, tt), tt, Zeros(TableSize(tt)), a)
  }

  /** Whatever the acceleration, the block is conforming and decodes to its meaning, in any buffer large enough. */
  lemma Decodes(src: bytes, a: nat, cap: nat)
    requires |src| <= MAX_INPUT_SIZE && |src| <= cap
    ensures var b := CompressedBlock(src, a);
            StandsFor(src, b, KeepsStride(a)) && Lz4DecodeSpec.Decode(Encode(b), cap) == Lz4DecodeSpec.Decoded(Meaning(b))
  {
    var tt := TypeFor(|src|);
    BlockStands(src, HashOf(src, tt), tt, Zeros(TableSize(tt)), a);
    Lz4DecodeSpec.DecodeComplete(CompressedBlock(src, a), cap);
  }

  /** Decoding what was compressed gives the source. */
  ghost predicate ComesBack(src: bytes, a: nat)
    requires |src| <= MAX_INPUT_SIZE
  {
    Lz4DecodeSpec.Decode(Encode(CompressedBlock(src, a)), |src|) == Lz4DecodeSpec.Decoded(src)
  }

  /** With a stride of zero, the bytes 0 to 13 become nine bytes repeating themselves at distance zero. */
  lemma CountingBlock(a: nat)
    requires !KeepsStride(a)
    ensures CompressedBlock(COUNTING, a) == Block([Sequence([], 0, 5)], COUNTING[9..], 0)
  {
    var hash, table := HashOf(COUNTING, ByU16), Zeros(TableSize(ByU16));
    var table1 := table[hash(0) := 0];
    ZeroStrideExample(a, table1);
    var r := SearchFrom(COUNTING, hash, ByU16, table1, 1, a);
    assert CaughtUp(COUNTING, 2, 0, 0) == CaughtUp(COUNTING, 1, 0, 0) == CaughtUp(COUNTING, 0, 0, 0) == 0;
    RunLengthIs(COUNTING, 4, 0, 9, 5);
    assert COUNTING[0..0] == [] && [Sequence([], 0, 5)] + [] == [Sequence([], 0, 5)];
  }

  /** A match at distance zero in front of any literals means zeros. */
  lemma MeansZero(n: nat, last: bytes)
    ensures Meaning(Block([Sequence([], 0, n)], last, 0)) == Zeros(n + MIN_MATCH) + last
  {
    var s := Sequence([], 0, n);
    var out := Expand([], s);
    assert [s][1..] == [] && ExpandAll([], [s]) == ExpandAll(out, []) == out;
    CopyMatchIsCopy([], 0, n + MIN_MATCH);
    assert [] + s.literals == [];
    forall i | 0 <= i < |out| ensures out[i] == 0 { assert out[i] == Referenced(out[..i], 0) == 0; }
  }

  /** The bytes 0 to 13 come back as nine zeros and the last five. */
  lemma CountingLost(a: nat)
    requires !KeepsStride(a)
    ensures Lz4DecodeSpec.Decode(Encode(CompressedBlock(COUNTING, a)), |COUNTING|) == Lz4DecodeSpec.Decoded(Zeros(9) + COUNTING[9..])
    ensures !ComesBack(COUNTING, a)
  {
    var last := COUNTING[9..];
    Decodes(COUNTING, a, |COUNTING|);
    CountingBlock(a);
    MeansZero(5, last);
    NotCounting(last);
  }

  lemma NotCounting(last: bytes)
    ensures Zeros(9) + last != COUNTING
  {
    assert (Zeros(9) + last)[1] == 0 && COUNTING[1] == 1;
  }

  /** Every source comes back if and only if the acceleration is not a multiple of 2^26. */
  lemma RoundTripExact(a: nat)
    ensures KeepsStride(a) <==> forall src: bytes | |src| <= MAX_INPUT_SIZE :: ComesBack(src, a)
  {
    if KeepsStride(a) {
      forall src: bytes | |src| <= MAX_INPUT_SIZE ensures ComesBack(src, a) { Decodes(src, a, |src|); }
    } else {
      CountingLost(a);
    }
  }
}
