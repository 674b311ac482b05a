/**
 `LZ4_compress_fast_extState` in its unlimited, no-dictionary form: the greedy compressor
 over an output array of `LZ4_COMPRESSBOUND` bytes.  Whatever the hash and the table do, the
 output is the wire form of the block that `Lz4Blocks` describes, and every write (the wild
 copies included) stays inside the output array.
 */
module Lz4Compress {
  import opened Bytes
  import opened Lz4Format
  import opened Lz4Search
  import opened Lz4Blocks
  import opened Lz4Memory
  import Lz4DecodeSpec

  function CompressBound(n: nat): nat {
    if n > MAX_INPUT_SIZE then 0 else n + n / 255 + 16
  }

  /** The room `CompressBound` grants, without the division. */
  ghost predicate Roomy(n: nat, cap: nat) { 255 * cap >= 256 * n + 3825 }

  // ---- Emitting ---------------------------------------------------------------

  /** A length as the literal loop writes it, one 255 at a time. */
  method EmitLength(dest: array<byte>, op0: nat, n: nat) returns (op: nat)
    requires op0 + |LenBytes(n)| <= dest.Length
    modifies dest
    ensures op == op0 + |LenBytes(n)| && dest[..op] == old(dest[..op0]) + LenBytes(n)
  {
    var len: nat := n;
    op := op0;
    while len >= 255
      invariant op0 <= op && op + |LenBytes(len)| == op0 + |LenBytes(n)|
      invariant dest[..op] + LenBytes(len) == old(dest[..op0]) + LenBytes(n)
    {
      dest[op] := 255;
      op, len := op + 1, len - 255;
      assert dest[..op] == dest[..op - 1] + [255];
    }
    dest[op] := len;
    op := op + 1;
    assert dest[..op] == dest[..op - 1] + [len];
  }

  lemma {:induction false} LenBytesForm(n: nat)
    ensures |LenBytes(n)| == n / 255 + 1 && LenBytes(n)[n / 255] == n % 255
    ensures forall i :: 0 <= i < n / 255 ==> LenBytes(n)[i] == 255
  {
    if n >= 255 { LenBytesForm(n - 255); }
  }

  /** `LZ4_write32` of all ones. */
  method WriteOnes(dest: array<byte>, op: nat)
    requires op + 4 <= dest.Length
    modifies dest
    ensures forall j :: 0 <= j < dest.Length ==> dest[j] == if op <= j < op + 4 then 255 else old(dest[j])
  {
    dest[op], dest[op + 1], dest[op + 2], dest[op + 3] := 255, 255, 255, 255;
  }

  /** A length as the match code writes it, four 255s at a time and up to three bytes ahead. */
  method EmitMatchLength(dest: array<byte>, op0: nat, n: nat) returns (op: nat)
    requires op0 + |LenBytes(n)| + 3 <= dest.Length
    modifies dest
    ensures op == op0 + |LenBytes(n)| && dest[..op] == old(dest[..op0]) + LenBytes(n)
  {
    LenBytesForm(n);
    var code: nat := n;
    op := op0;
    WriteOnes(dest, op);
    while code >= 4 * 255
      invariant 4 * (n - code) == 1020 * (op - op0)
      invariant op0 <= op && op + 4 <= dest.Length
      invariant forall j :: op0 <= j < op + 4 ==> dest[j] == 255
      invariant forall j :: 0 <= j < op0 ==> dest[j] == old(dest[j])
    {
      op := op + 4;
      WriteOnes(dest, op);
      code := code - 4 * 255;
    }
    op := op + code / 255;
    dest[op] := code % 255;
    op := op + 1;
    assert op == op0 + n / 255 + 1;
  }

  /** The token and its length bytes for `n` literals, the low half of the token still zero. */
  method EmitToken(dest: array<byte>, op0: nat, n: nat) returns (op: nat)
    requires op0 + 1 + |LengthTail(n)| <= dest.Length
    modifies dest
    ensures op == op0 + 1 + |LengthTail(n)|
    ensures dest[..op] == old(dest[..op0]) + [Token(n, 0)] + LengthTail(n)
  {
    op := op0 + 1;
    dest[op0] := if n >= 15 then 15 * 16 else n * 16;
    assert dest[..op] == old(dest[..op0]) + [Token(n, 0)];
    if n >= 15 { op := EmitLength(dest, op, n - 15); }
  }

  lemma LiteralsAssoc(before: bytes, lits: bytes, extra: nat)
    ensures before + [Token(|lits|, extra)] + LengthTail(|lits|) + lits == before + EncodeLiterals(lits, extra)
    ensures |EncodeLiterals(lits, extra)| == 1 + |LengthTail(|lits|)| + |lits|
  {
  }

  method EmitLiterals(src: bytes, dest: array<byte>, op0: nat, anchor: nat, ip: nat) returns (op: nat)
    requires anchor <= ip && ip + 8 <= |src|
    requires op0 + 1 + |LengthTail(ip - anchor)| + (ip - anchor) + 8 <= dest.Length
    modifies dest
    ensures op == op0 + |EncodeLiterals(src[anchor..ip], 0)|
    ensures dest[..op] == old(dest[..op0]) + EncodeLiterals(src[anchor..ip], 0)
  {
    LiteralsAssoc(dest[..op0], src[anchor..ip], 0);
    op := EmitToken(dest, op0, ip - anchor);
    WildCopy(dest, op, src, anchor, ip - anchor);
    op := op + (ip - anchor);
  }

  method EmitLast(src: bytes, dest: array<byte>, op0: nat, anchor: nat) returns (op: nat)
    requires anchor <= |src|
    requires op0 + 1 + |LengthTail(|src| - anchor)| + (|src| - anchor) <= dest.Length
    modifies dest
    ensures op == op0 + |EncodeLiterals(src[anchor..], 0)|
    ensures dest[..op] == old(dest[..op0]) + EncodeLiterals(src[anchor..], 0)
  {
    LiteralsAssoc(dest[..op0], src[anchor..], 0);
    op := EmitToken(dest, op0, |src| - anchor);
    CopyIn(dest, op, src, anchor, |src| - anchor);
    op := op + (|src| - anchor);
    assert src[anchor..anchor + (|src| - anchor)] == src[anchor..];
  }

  // ---- Comparing -----------------------------------------------------------------

  /** The bytes two words have in common, low address first: `LZ4_NbCommonBytes` of their difference. */
  function CommonBytes(x: bytes, y: bytes): (r: nat)
    requires |x| == |y|
    ensures r <= |x| && x[..r] == y[..r] && (r < |x| ==> x[r] != y[r])
  {
    if x == [] || x[0] != y[0] then 0 else 1 + CommonBytes(x[1..], y[1..])
  }

  /** The length of the common run at `ip0` and `off` before it, up to `limit`. */
  method Count(src: bytes, ip0: nat, off: nat, limit: nat) returns (n: nat)
    requires off <= ip0 <= limit <= |src|
    ensures n == RunLength(src, ip0, off, limit)
  {
    var more;
    n, more := CountWords(src, ip0, off, limit);
    if more {
      var c := CountTail(src, ip0 + n, off, limit);
      Joined(src, off, ip0, ip0 + n, ip0 + n + c);
      n := n + c;
    }
    RunLengthIs(src, ip0, off, limit, n);
  }

  method CountWords(src: bytes, ip0: nat, off: nat, limit: nat) returns (n: nat, more: bool)
    requires off <= ip0 <= limit <= |src|
    ensures ip0 + n <= limit && Repeated(src, off, ip0, ip0 + n)
    ensures if more then limit - (ip0 + n) < 8 else ip0 + n < limit && src[ip0 + n] != src[ip0 + n - off]
  {
    var ip := ip0;
    while ip + 7 < limit
      invariant ip0 <= ip <= limit
      invariant Repeated(src, off, ip0, ip)
    {
      var c := NbCommonBytes(src, ip, off);
      Joined(src, off, ip0, ip, ip + c);
      if c < 8 { return ip - ip0 + c, false; }
      ip := ip + 8;
    }
    return ip - ip0, true;
  }

  /** Fewer than eight bytes left: four, two, then one at a time. */
  function TailCount(x: bytes, y: bytes): (r: nat)
    requires |x| == |y| < 8
    ensures r <= |x| && x[..r] == y[..r] && (r < |x| ==> x[r] != y[r])
  {
    var a := if |x| > 3 && x[0] == y[0] && x[1] == y[1] && x[2] == y[2] && x[3] == y[3] then 4 else 0;
    var b := if |x| > a + 1 && x[a] == y[a] && x[a + 1] == y[a + 1] then a + 2 else a;
    if |x| > b && x[b] == y[b] then b + 1 else b
  }

  method CountTail(src: bytes, ip: nat, off: nat, limit: nat) returns (n: nat)
    requires off <= ip <= limit <= |src| && limit - ip < 8
    ensures ip + n <= limit && Repeated(src, off, ip, ip + n)
    ensures ip + n < limit ==> src[ip + n] != src[ip + n - off]
  {
    n := TailCount(src[ip..limit], src[ip - off..limit - off]);
    CommonWord(src, ip, off, limit, n);
  }

  method NbCommonBytes(src: bytes, ip: nat, off: nat) returns (c: nat)
    requires off <= ip && ip + 8 <= |src|
    ensures c <= 8 && Repeated(src, off, ip, ip + c) && (c < 8 ==> src[ip + c] != src[ip + c - off])
  {
    c := CommonBytes(src[ip..ip + 8], src[ip - off..ip + 8 - off]);
    CommonWord(src, ip, off, ip + 8, c);
  }

  lemma SliceTake(src: bytes, lo: nat, hi: nat, c: nat)
    requires lo + c <= hi <= |src|
    ensures src[lo..hi][..c] == src[lo..lo + c]
    ensures lo + c < hi ==> src[lo..hi][c] == src[lo + c]
  {
  }

  lemma CommonWord(src: bytes, ip: nat, off: nat, limit: nat, c: nat)
    requires off <= ip && ip + c <= limit <= |src| && src[ip..limit][..c] == src[ip - off..limit - off][..c]
    ensures Repeated(src, off, ip, ip + c)
    ensures ip + c < limit ==> src[ip..limit][c] == src[ip + c] && src[ip - off..limit - off][c] == src[ip + c - off]
  {
    SliceTake(src, ip, limit, c);
    SliceTake(src, ip - off, limit - off, c);
  }

  /** Extending a match backwards over the pending literals, at the same distance. */
  method CatchUp(src: bytes, ip0: nat, off: nat, anchor: nat) returns (ip: nat)
    requires anchor <= ip0 <= |src| && off <= ip0
    ensures ip == CaughtUp(src, ip0, off, anchor)
  {
    ip := ip0;
    while ip > anchor && ip - off > 0 && src[ip - 1] == src[ip - off - 1]
      invariant anchor <= ip <= ip0 && off <= ip && CaughtUp(src, ip, off, anchor) == CaughtUp(src, ip0, off, anchor)
    {
      ip := ip - 1;
    }
  }

  // ---- One sequence ----------------------------------------------------------------

  lemma SetAt(before: bytes, a: byte, b: byte, tail: bytes, rest: bytes)
    ensures var w := before + ([a] + tail) + rest;
      |before| < |w| && w[|before|] == a && w[|before| := b] == before + ([b] + tail) + rest
  {
  }

  lemma SetToken(w: bytes, before: bytes, lits: bytes, extra: nat, rest: bytes)
    requires w == before + EncodeLiterals(lits, 0) + rest
    ensures |before| < |w| && w[|before|] == Token(|lits|, 0)
    ensures w[|before| := Token(|lits|, extra)] == before + EncodeLiterals(lits, extra) + rest
  {
    SetAt(before, Token(|lits|, 0), Token(|lits|, extra), LengthTail(|lits|) + lits, rest);
  }

  method PatchToken(dest: array<byte>, op: nat, token: nat, extra: nat, ghost before: bytes, ghost lits: bytes, ghost rest: bytes)
    requires op <= dest.Length && token == |before| && dest[..op] == before + EncodeLiterals(lits, 0) + rest
    modifies dest
    ensures dest[..op] == before + EncodeLiterals(lits, extra) + rest
  {
    ghost var w := dest[..op];
    SetToken(w, before, lits, extra, rest);
    assert dest[token] == w[token];
    dest[token] := dest[token] + Nibble(extra);
    assert dest[..op] == w[token := Token(|lits|, extra)];
  }

  method PutOffset(dest: array<byte>, op: nat, off: nat)
    requires op + 2 <= dest.Length && off <= MAX_DISTANCE
    modifies dest
    ensures dest[..op + 2] == old(dest[..op]) + [off % 256, off / 256 % 256]
  {
    var u16 := off % 65536;
    dest[op], dest[op + 1] := u16 % 256, u16 / 256;
  }

  /** Offset, match length and the low half of the token, for a match at distance `off`. */
  method EmitMatch(src: bytes, dest: array<byte>, op0: nat, token: nat, ip: nat, off: nat, ghost before: bytes, ghost lits: bytes)
    returns (op: nat, extra: nat)
    requires off <= ip && off <= MAX_DISTANCE && ip + MF_LIMIT <= |src|
    requires op0 <= dest.Length && token == |before| && dest[..op0] == before + EncodeLiterals(lits, 0)
    requires 255 * op0 + (|src| - ip) + 2040 <= 255 * dest.Length
    modifies dest
    ensures op <= dest.Length && extra == Extra(src, ip, off)
    ensures dest[..op] == before + EncodeSequence(Sequence(lits, off, extra))
  {
    PutOffset(dest, op0, off);
    op := op0 + 2;
    ghost var rest := [off % 256, off / 256 % 256];
    extra := Count(src, ip + MIN_MATCH, off, |src| - LAST_LITERALS);
    PatchToken(dest, op, token, extra, before, lits, rest);
    TailBound(extra);
    if extra >= 15 { op := EmitMatchLength(dest, op, extra - 15); }
    SequenceAssoc(before, Sequence(lits, off, extra));
  }

  lemma SequenceAssoc(before: bytes, s: Sequence)
    ensures before + EncodeLiterals(s.literals, s.extra) + [s.offset % 256, s.offset / 256 % 256] + LengthTail(s.extra)
         == before + EncodeSequence(s)
  {
  }

  // ---- The whole block ---------------------------------------------------------------

  lemma SequenceCost(s: Sequence)
    ensures 255 * |EncodeSequence(s)| <= 256 * (|s.literals| + s.extra + MIN_MATCH)
  {
    TailBound(|s.literals|);
    TailBound(s.extra);
  }

  /** The pending literals in front of `ip` fit, with the scratch space of a wild copy. */
  lemma RoomForLiterals(n: nat, cap: nat, op: nat, anchor: nat, ip: nat)
    requires Roomy(n, cap) && 255 * op <= 256 * anchor && anchor <= ip && ip + MF_LIMIT <= n
    ensures op + 1 + |LengthTail(ip - anchor)| + (ip - anchor) + 8 <= cap
    ensures var op' := op + 1 + |LengthTail(ip - anchor)| + (ip - anchor);
            255 * op' + (n - ip) + 2040 <= 255 * cap
  {
    TailBound(ip - anchor);
  }

  lemma RoomForLast(n: nat, cap: nat, op: nat, anchor: nat)
    requires Roomy(n, cap) && 255 * op <= 256 * anchor && anchor <= n
    ensures 255 * (op + 1 + |LengthTail(n - anchor)| + (n - anchor)) <= 256 * n + 510
  {
    TailBound(n - anchor);
  }

  /** What slot `h` remembers, replaced by `ip`, and whether it is a match for `ip`. */
  method Probe(src: bytes, tt: TableType, table: array<nat>, h: nat, ip: nat) returns (m: nat, hit: bool)
    requires h < table.Length && ip + 4 <= |src| && AllUpTo(table[..], ip)
    modifies table
    ensures table[..] == old(table[..])[h := Stored(tt, ip)]
    ensures m == old(table[..])[h] <= ip && hit == Accepts(src, tt, m, ip)
  {
    m := table[h];
    assert m == table[..][h];
    table[h] := Stored(tt, ip);
    hit := Accepts(src, tt, m, ip);
  }

  /** Probing from `ip0` on; the table is left as the search leaves it. */
  method FindMatch(src: bytes, hash: nat -> nat, tt: TableType, table: array<nat>, ip0: nat, acceleration: nat)
    returns (found: bool, ip: nat, m: nat)
    requires Hashes(hash, table.Length) && Fits(tt, |src|)
    requires ip0 + 8 <= |src| && AllUpTo(table[..], ip0)
    modifies table
    ensures match SearchFrom(src, hash, tt, old(table[..]), ip0, acceleration)
            case NotFound => !found
            case Found(ip', m', table') => found && ip == ip' && m == m' && table[..] == table'
  {
    var forwardIp: nat, step: nat, nb: nat := ip0, 1, acceleration * 64 % U32;
    var forwardH := HashAt(hash, |src|, forwardIp);
    found, ip, m := false, ip0, 0;
    ghost var stuck := false;  // the stride was zero: the next probe meets its own position
    ghost var want := SearchFrom(src, hash, tt, table[..], ip0, acceleration);
    while !found
      invariant !found ==> forwardIp + 8 <= |src| && AllUpTo(table[..], forwardIp) && forwardH == hash(forwardIp)
      invariant !found ==> want == Search(src, hash, tt, table[..], forwardIp, step, nb)
      invariant found ==> want == Found(ip, m, table[..])
      invariant stuck && !found ==> table[forwardH] == forwardIp
      decreases !found, |src| - forwardIp, !stuck
    {
      var h := forwardH;
      ghost var step0, nb0 := step, nb;
      ip := forwardIp;
      forwardIp := forwardIp + step;
      step, nb := nb / 64, (nb + 1) % U32;
      if forwardIp + MF_LIMIT > |src| { return; }
      forwardH, m, found := ProbeNext(src, hash, tt, table, h, ip, forwardIp, step0, nb0, want);
      stuck := forwardIp == ip;
    }
  }

  /** One probe at `ip`, with the hash for the next one taken before. */
  method ProbeNext(src: bytes, hash: nat -> nat, tt: TableType, table: array<nat>, h: nat, ip: nat, next: nat,
                   ghost step: nat, ghost nb: nat, ghost want: SearchResult)
    returns (forwardH: nat, m: nat, found: bool)
    requires Hashes(hash, table.Length) && Fits(tt, |src|) && next == ip + step && next + MF_LIMIT <= |src|
    requires AllUpTo(table[..], ip) && h == hash(ip) && want == Search(src, hash, tt, table[..], ip, step, nb)
    modifies table
    ensures forwardH == hash(next) && AllUpTo(table[..], next)
    ensures table[..][h] == ip && (old(table[..])[h] == ip ==> found)
    ensures want == if found then Found(ip, m, table[..]) else Search(src, hash, tt, table[..], next, nb / 64, (nb + 1) % U32)
  {
    SearchStep(src, hash, tt, table[..], ip, step, nb);
    forwardH := HashAt(hash, |src|, next);
    m, found := Probe(src, tt, table, h, ip);
  }

  /** What has been written for the first `anchor` bytes, at its cost, and the room for more. */
  ghost predicate Between(src: bytes, w: bytes, cap: nat, anchor: nat) {
    anchor <= |src| && 255 * |w| <= 256 * anchor && |w| <= cap && Roomy(|src|, cap)
  }

  /** The whole output, once the rest of the block is behind what has been written. */
  ghost function Output(src: bytes, w: bytes, rest: Rest): Option<bytes> {
    if rest.anchor <= |src| then Some(w + (EncodeAll(rest.sequences) + EncodeLiterals(src[rest.anchor..], 0))) else None
  }

  method Put(tt: TableType, table: array<nat>, hash: nat -> nat, p: nat, n: nat)
    requires Hashes(hash, table.Length) && Fits(tt, n) && p + 8 <= n && (tt.ByU16? ==> p < 65536)
    modifies table
    ensures table[..] == old(table[..])[hash(p) := p]
  {
    table[HashAt(hash, n, p)] := Stored(tt, p);
  }

  /** The token and the literals pending in front of `ip`; behind another match there are none. */
  method EmitPending(src: bytes, dest: array<byte>, op0: nat, anchor: nat, ip: nat, first: bool) returns (op: nat)
    requires anchor <= ip && ip + MF_LIMIT <= |src| && (!first ==> anchor == ip)
    requires op0 <= dest.Length && 255 * op0 <= 256 * anchor && Roomy(|src|, dest.Length)
    modifies dest
    ensures op <= dest.Length && dest[..op] == old(dest[..op0]) + EncodeLiterals(src[anchor..ip], 0)
    ensures 255 * op + (|src| - ip) + 2040 <= 255 * dest.Length
  {
    RoomForLiterals(|src|, dest.Length, op0, anchor, ip);
    LiteralsAssoc(dest[..op0], src[anchor..ip], 0);
    if first {
      op := EmitLiterals(src, dest, op0, anchor, ip);
    } else {
      assert src[anchor..ip] == [] && LengthTail(0) == [];
      op := EmitToken(dest, op0, 0);
      Assoc(old(dest[..op0]), [Token(0, 0)], []);
    }
  }

  /** One sequence: the literals pending in front of `ip`, then its match at distance `off`. */
  method EmitSequence(src: bytes, dest: array<byte>, op0: nat, anchor: nat, ip: nat, off: nat, first: bool)
    returns (op: nat, extra: nat)
    requires anchor <= ip && ip + MF_LIMIT <= |src| && (!first ==> anchor == ip)
    requires op0 <= dest.Length && 255 * op0 <= 256 * anchor && Roomy(|src|, dest.Length)
    requires off <= ip && off <= MAX_DISTANCE
    modifies dest
    ensures op <= dest.Length && extra == Extra(src, ip, off)
    ensures dest[..op] == old(dest[..op0]) + EncodeSequence(Sequence(src[anchor..ip], off, extra))
  {
    ghost var before, lits := dest[..op0], src[anchor..ip];
    op := EmitPending(src, dest, op0, anchor, ip, first);
    op, extra := EmitMatch(src, dest, op, op0, ip, off, before, lits);
  }

  /** One sequence emitted: `anchor` bytes of the source are done. */
  method EmitTurn(src: bytes, dest: array<byte>, op0: nat, anchor0: nat, ip: nat, off: nat, first: bool, ghost top: nat)
    returns (op: nat, anchor: nat)
    requires op0 <= dest.Length && Between(src, dest[..op0], dest.Length, anchor0)
    requires Pending(src, [], anchor0, ip, off, top) && (!first ==> anchor0 == ip)
    modifies dest
    ensures op <= dest.Length && anchor == End(src, ip, off) && Between(src, dest[..op], dest.Length, anchor)
    ensures dest[..op] == old(dest[..op0]) + EncodeSequence(Sequence(src[anchor0..ip], off, Extra(src, ip, off)))
  {
    EndReaches(src, [], anchor0, ip, off, top);
    var extra;
    op, extra := EmitSequence(src, dest, op0, anchor0, ip, off, first);
    anchor := ip + MIN_MATCH + extra;
    SequenceCost(Sequence(src[anchor0..ip], off, extra));
  }

  /** The end of a match: remembered, and tried for a match of its own. */
  method NextMatch(src: bytes, hash: nat -> nat, tt: TableType, table: array<nat>, ip: nat) returns (more: bool, off: nat)
    requires Hashes(hash, table.Length) && Fits(tt, |src|)
    requires ip >= 2 && ip + MF_LIMIT <= |src| && AllBelow(table[..], ip)
    modifies table
    ensures table[..] == Remembered(hash, old(table[..]), ip)
    ensures more == Follows(src, hash, old(table[..]), ip) && off == ip - Recalled(hash, old(table[..]), ip)
  {
    Put(tt, table, hash, ip - 2, |src|);
    var m := table[HashAt(hash, |src|, ip)];
    assert m == table[..][hash(ip)];
    Put(tt, table, hash, ip, |src|);
    more, off := m + MAX_DISTANCE >= ip && SameFour(src, m, ip), ip - m;
  }

  // ---- What the output comes to ------------------------------------------------------

  /** With a match to be emitted. */
  ghost function Matching(src: bytes, hash: nat -> nat, tt: TableType, a: nat, table: seq<nat>, w: bytes, anchor: nat, ip: nat, off: nat, top: nat): Option<bytes> {
    if Hashes(hash, |table|) && Fits(tt, |src|) && Pending(src, table, anchor, ip, off, top) then
      Output(src, w, AfterMatch(src, hash, tt, table, a, anchor, ip, off, top))
    else None
  }

  /** Behind a match. */
  ghost function Ending(src: bytes, hash: nat -> nat, tt: TableType, a: nat, table: seq<nat>, w: bytes, ip: nat): Option<bytes> {
    if Hashes(hash, |table|) && Fits(tt, |src|) && 2 <= ip <= |src| && AllBelow(table, ip) then
      Output(src, w, AfterEnd(src, hash, tt, table, a, ip))
    else None
  }

  /** With a search to be made from `ip` on. */
  ghost function Searching(src: bytes, hash: nat -> nat, tt: TableType, a: nat, table: seq<nat>, w: bytes, anchor: nat, ip: nat): Option<bytes> {
    if Hashes(hash, |table|) && Fits(tt, |src|) && anchor <= ip && ip + 8 <= |src| && AllBelow(table, ip) then
      Output(src, w, AfterSearch(src, hash, tt, table, a, anchor, ip))
    else None
  }

  /** The same by name only, for the loops. */
  datatype Plan = Plan(
    matching: (seq<nat>, bytes, nat, nat, nat, nat) -> Option<bytes>,
    ending: (seq<nat>, bytes, nat) -> Option<bytes>,
    searching: (seq<nat>, bytes, nat, nat) -> Option<bytes>)

  ghost predicate Planned(plan: Plan, src: bytes, hash: nat -> nat, tt: TableType, a: nat) {
    && (forall table, w, anchor, ip, off, top {:trigger Matching(src, hash, tt, a, table, w, anchor, ip, off, top)} ::
          plan.matching(table, w, anchor, ip, off, top) == Matching(src, hash, tt, a, table, w, anchor, ip, off, top))
    && (forall table, w, ip {:trigger Ending(src, hash, tt, a, table, w, ip)} ::
          plan.ending(table, w, ip) == Ending(src, hash, tt, a, table, w, ip))
    && (forall table, w, anchor, ip {:trigger Searching(src, hash, tt, a, table, w, anchor, ip)} ::
          plan.searching(table, w, anchor, ip) == Searching(src, hash, tt, a, table, w, anchor, ip))
  }

  ghost function PlanOf(src: bytes, hash: nat -> nat, tt: TableType, a: nat): (plan: Plan)
    ensures Planned(plan, src, hash, tt, a)
  {
    Plan(
      (table, w, anchor, ip, off, top) => Matching(src, hash, tt, a, table, w, anchor, ip, off, top),
      (table, w, ip) => Ending(src, hash, tt, a, table, w, ip),
      (table, w, anchor, ip) => Searching(src, hash, tt, a, table, w, anchor, ip))
  }

  /** Behind a match: the block is closed, another match follows at once, or the search goes on. */
  ghost function Onward(plan: Plan, src: bytes, table: seq<nat>, w: bytes, anchor: nat, more: bool, off: nat): Option<bytes> {
    if anchor + MF_LIMIT > |src| then Output(src, w, Rest([], anchor))
    else if more then plan.matching(table, w, anchor, anchor, off, anchor)
    else plan.searching(table, w, anchor, anchor + 1)
  }

  lemma OutputOne(src: bytes, w: bytes, s: Sequence, rest: Rest)
    requires rest.anchor <= |src|
    ensures Output(src, w, Rest([s] + rest.sequences, rest.anchor)) == Output(src, w + EncodeSequence(s), rest)
  {
    assert ([s] + rest.sequences)[1..] == rest.sequences;
    var last := EncodeLiterals(src[rest.anchor..], 0);
    Assoc(EncodeSequence(s), EncodeAll(rest.sequences), last);
    Assoc(w, EncodeSequence(s), EncodeAll(rest.sequences) + last);
  }

  lemma MatchLeads(plan: Plan, src: bytes, hash: nat -> nat, tt: TableType, a: nat, table: seq<nat>, w: bytes, anchor: nat, ip: nat, off: nat, top: nat, goal: bytes)
    requires Planned(plan, src, hash, tt, a) && plan.matching(table, w, anchor, ip, off, top) == Some(goal)
    ensures Pending(src, [], anchor, ip, off, top) && top + MIN_MATCH <= End(src, ip, off) <= |src|
    ensures plan.ending(table, w + EncodeSequence(Sequence(src[anchor..ip], off, Extra(src, ip, off))), End(src, ip, off)) == Some(goal)
  {
    assert Matching(src, hash, tt, a, table, w, anchor, ip, off, top) == Some(goal);
    EndReaches(src, table, anchor, ip, off, top);
    var s, end := Sequence(src[anchor..ip], off, Extra(src, ip, off)), End(src, ip, off);
    OutputOne(src, w, s, AfterEnd(src, hash, tt, table, a, end));
    assert Ending(src, hash, tt, a, table, w + EncodeSequence(s), end) == Some(goal);
  }

  /** What is remembered leaves the table usable, and a match that follows is pending. */
  lemma RememberedNext(src: bytes, hash: nat -> nat, table: seq<nat>, ip: nat)
    requires ip >= 2 && Hashes(hash, |table|) && ip + MF_LIMIT <= |src| && AllBelow(table, ip)
    ensures Hashes(hash, |Remembered(hash, table, ip)|) && AllUpTo(Remembered(hash, table, ip), ip) && Recalled(hash, table, ip) <= ip
    ensures Follows(src, hash, table, ip) ==> Pending(src, Remembered(hash, table, ip), ip, ip, ip - Recalled(hash, table, ip), ip)
  {
  }

  lemma EndLeads(plan: Plan, src: bytes, hash: nat -> nat, tt: TableType, a: nat, table: seq<nat>, w: bytes, ip: nat, goal: bytes)
    requires Planned(plan, src, hash, tt, a) && plan.ending(table, w, ip) == Some(goal)
    ensures Hashes(hash, |table|) && Fits(tt, |src|) && 2 <= ip <= |src| && AllBelow(table, ip)
    ensures ip + MF_LIMIT > |src| ==> Output(src, w, Rest([], ip)) == Some(goal)
    ensures ip + MF_LIMIT <= |src| ==> Recalled(hash, table, ip) <= ip
    ensures ip + MF_LIMIT <= |src| ==>
      Onward(plan, src, Remembered(hash, table, ip), w, ip, Follows(src, hash, table, ip), ip - Recalled(hash, table, ip)) == Some(goal)
  {
    assert Ending(src, hash, tt, a, table, w, ip) == Some(goal);
    if ip + MF_LIMIT <= |src| {
      RememberedNext(src, hash, table, ip);
      var t := Remembered(hash, table, ip);
      if Follows(src, hash, table, ip) {
        assert Matching(src, hash, tt, a, t, w, ip, ip, ip - Recalled(hash, table, ip), ip) == Some(goal);
      } else {
        assert Searching(src, hash, tt, a, t, w, ip, ip + 1) == Some(goal);
      }
    }
  }

  lemma SearchLeads(plan: Plan, src: bytes, hash: nat -> nat, tt: TableType, a: nat, table: seq<nat>, w: bytes, anchor: nat, ip: nat, goal: bytes)
    returns (r: SearchResult)
    requires Planned(plan, src, hash, tt, a) && plan.searching(table, w, anchor, ip) == Some(goal)
    ensures Hashes(hash, |table|) && Fits(tt, |src|) && anchor <= ip && ip + 8 <= |src| && AllUpTo(table, ip)
    ensures r == SearchFrom(src, hash, tt, table, ip, a) && (r.Found? ==> ip <= r.ip)
    ensures Finding(src, hash, anchor, r) && Output(src, w, AfterFinding(src, hash, tt, a, anchor, r)) == Some(goal)
  {
    assert Searching(src, hash, tt, a, table, w, anchor, ip) == Some(goal);
    r := SearchFrom(src, hash, tt, table, ip, a);
    SearchIsFinding(src, hash, tt, table, a, anchor, ip);
    SearchFound(src, hash, tt, table, ip, 1, a * 64 % U32);
  }

  lemma FindingLeads(plan: Plan, src: bytes, hash: nat -> nat, tt: TableType, a: nat, w: bytes, anchor: nat, r: SearchResult, goal: bytes)
    requires Planned(plan, src, hash, tt, a) && Fits(tt, |src|) && Finding(src, hash, anchor, r)
    requires Output(src, w, AfterFinding(src, hash, tt, a, anchor, r)) == Some(goal)
    ensures r.NotFound? ==> Output(src, w, Rest([], anchor)) == Some(goal)
    ensures r.Found? ==> plan.matching(r.table, w, anchor, CaughtUp(src, r.ip, r.ip - r.mtch, anchor), r.ip - r.mtch, r.ip) == Some(goal)
  {
    if r.Found? {
      assert Matching(src, hash, tt, a, r.table, w, anchor, CaughtUp(src, r.ip, r.ip - r.mtch, anchor), r.ip - r.mtch, r.ip) == Some(goal);
    }
  }

  lemma SearchComesTo(plan: Plan, src: bytes, hash: nat -> nat, tt: TableType, a: nat, table: seq<nat>, w: bytes, anchor: nat, ip: nat, goal: bytes)
    returns (r: SearchResult)
    requires Planned(plan, src, hash, tt, a) && plan.searching(table, w, anchor, ip) == Some(goal)
    ensures Hashes(hash, |table|) && Fits(tt, |src|) && anchor <= ip && ip + 8 <= |src| && AllUpTo(table, ip)
    ensures r == SearchFrom(src, hash, tt, table, ip, a)
    ensures r.NotFound? ==> Output(src, w, Rest([], anchor)) == Some(goal)
    ensures r.Found? ==> ip <= r.ip <= |src| && r.mtch <= r.ip
    ensures r.Found? ==> plan.matching(r.table, w, anchor, CaughtUp(src, r.ip, r.ip - r.mtch, anchor), r.ip - r.mtch, r.ip) == Some(goal)
  {
    r := SearchLeads(plan, src, hash, tt, a, table, w, anchor, ip, goal);
    FindingLeads(plan, src, hash, tt, a, w, anchor, r, goal);
  }

  // ---- The loops ---------------------------------------------------------------------

  /** The end of a match, and what comes behind it. */
  method TryNext(src: bytes, hash: nat -> nat, tt: TableType, table: array<nat>, ghost a: nat, ghost plan: Plan, ghost w: bytes, anchor: nat, ghost goal: bytes)
    returns (more: bool, off: nat)
    requires Planned(plan, src, hash, tt, a) && plan.ending(table[..], w, anchor) == Some(goal)
    modifies table
    ensures anchor <= |src| && Onward(plan, src, table[..], w, anchor, more, off) == Some(goal) && (more ==> anchor + MF_LIMIT <= |src|)
  {
    EndLeads(plan, src, hash, tt, a, table[..], w, anchor, goal);
    more, off := false, 0;
    if anchor + MF_LIMIT <= |src| { more, off := NextMatch(src, hash, tt, table, anchor); }
  }

  /** One match: emitted, and the position behind it tried for another. */
  method MatchTurn(src: bytes, hash: nat -> nat, tt: TableType, table: array<nat>, dest: array<byte>, ghost a: nat, ghost plan: Plan,
                   op0: nat, anchor0: nat, ip: nat, off0: nat, first: bool, ghost top: nat, ghost goal: bytes)
    returns (op: nat, anchor: nat, more: bool, off: nat)
    requires table as object != dest && op0 <= dest.Length && Between(src, dest[..op0], dest.Length, anchor0)
    requires Planned(plan, src, hash, tt, a) && plan.matching(table[..], dest[..op0], anchor0, ip, off0, top) == Some(goal)
    requires !first ==> anchor0 == ip
    modifies table, dest
    ensures op <= dest.Length && Between(src, dest[..op], dest.Length, anchor) && top + MIN_MATCH <= anchor
    ensures Onward(plan, src, table[..], dest[..op], anchor, more, off) == Some(goal) && (more ==> anchor + MF_LIMIT <= |src|)
  {
    MatchLeads(plan, src, hash, tt, a, table[..], dest[..op0], anchor0, ip, off0, top, goal);
    op, anchor := EmitTurn(src, dest, op0, anchor0, ip, off0, first, top);
    more, off := TryNext(src, hash, tt, table, a, plan, dest[..op], anchor, goal);
  }

  /** The sequence of a match found for `ip0`, and as many as follow it at once (`_next_match`). */
  method EmitRun(src: bytes, hash: nat -> nat, tt: TableType, table: array<nat>, dest: array<byte>, ghost a: nat, ghost plan: Plan,
                 op0: nat, anchor0: nat, ip0: nat, m0: nat, ghost goal: bytes)
    returns (op: nat, anchor: nat)
    requires table as object != dest && op0 <= dest.Length && Between(src, dest[..op0], dest.Length, anchor0)
    requires Planned(plan, src, hash, tt, a) && anchor0 <= ip0 <= |src| && m0 <= ip0
    requires plan.matching(table[..], dest[..op0], anchor0, CaughtUp(src, ip0, ip0 - m0, anchor0), ip0 - m0, ip0) == Some(goal)
    modifies table, dest
    ensures op <= dest.Length && Between(src, dest[..op], dest.Length, anchor) && anchor >= ip0 + MIN_MATCH
    ensures Onward(plan, src, table[..], dest[..op], anchor, false, 0) == Some(goal)
  {
    var ip := CatchUp(src, ip0, ip0 - m0, anchor0);
    var more, off;
    op, anchor, more, off := MatchTurn(src, hash, tt, table, dest, a, plan, op0, anchor0, ip, ip0 - m0, true, ip0, goal);
    while more
      invariant op <= dest.Length && Between(src, dest[..op], dest.Length, anchor) && anchor >= ip0 + MIN_MATCH
      invariant Onward(plan, src, table[..], dest[..op], anchor, more, off) == Some(goal) && (more ==> anchor + MF_LIMIT <= |src|)
      decreases more, |src| - anchor
    {
      op, anchor, more, off := MatchTurn(src, hash, tt, table, dest, a, plan, op, anchor, anchor, off, false, anchor, goal);
    }
  }

  /** `w` is the wire form of a block for `src`; `exact` when it stands for `src`. */
  ghost predicate Compressed(src: bytes, w: bytes, b: Block, exact: bool) { w == Encode(b) && StandsFor(src, b, exact) }

  /** The closing literals complete the output. */
  method CloseBlock(src: bytes, dest: array<byte>, op: nat, anchor: nat, ghost goal: bytes) returns (r: nat)
    requires op <= dest.Length && Between(src, dest[..op], dest.Length, anchor) && Output(src, dest[..op], Rest([], anchor)) == Some(goal)
    modifies dest
    ensures 1 <= r <= dest.Length && 255 * r <= 256 * |src| + 510 && dest[..r] == goal
  {
    RoomForLast(|src|, dest.Length, op, anchor);
    LiteralsAssoc([], src[anchor..], 0);
    assert EncodeAll([]) + EncodeLiterals(src[anchor..], 0) == EncodeLiterals(src[anchor..], 0);
    r := EmitLast(src, dest, op, anchor);
  }

  /** A search, by what the output comes to. */
  method FindNext(src: bytes, hash: nat -> nat, tt: TableType, table: array<nat>, a: nat, ghost plan: Plan, ghost w: bytes, anchor: nat, ip: nat, ghost goal: bytes)
    returns (found: bool, ip1: nat, m: nat)
    requires Planned(plan, src, hash, tt, a) && plan.searching(table[..], w, anchor, ip) == Some(goal)
    modifies table
    ensures !found ==> Output(src, w, Rest([], anchor)) == Some(goal)
    ensures found ==> ip <= ip1 <= |src| && anchor <= ip1 && m <= ip1
    ensures found ==> plan.matching(table[..], w, anchor, CaughtUp(src, ip1, ip1 - m, anchor), ip1 - m, ip1) == Some(goal)
  {
    ghost var r := SearchComesTo(plan, src, hash, tt, a, table[..], w, anchor, ip, goal);
    found, ip1, m := FindMatch(src, hash, tt, table, ip, a);
    assert found ==> r == Found(ip1, m, table[..]);
  }

  /** A search and what follows from it; `open` when there is more to search. */
  method SearchTurn(src: bytes, hash: nat -> nat, tt: TableType, table: array<nat>, dest: array<byte>, a: nat, ghost plan: Plan,
                    op0: nat, anchor0: nat, ip: nat, ghost goal: bytes)
    returns (op: nat, anchor: nat, open: bool)
    requires table as object != dest && op0 <= dest.Length && Between(src, dest[..op0], dest.Length, anchor0)
    requires Planned(plan, src, hash, tt, a) && plan.searching(table[..], dest[..op0], anchor0, ip) == Some(goal)
    modifies table, dest
    ensures op <= dest.Length && Between(src, dest[..op], dest.Length, anchor)
    ensures open ==> ip < anchor <= |src| && plan.searching(table[..], dest[..op], anchor, anchor + 1) == Some(goal)
    ensures !open ==> Output(src, dest[..op], Rest([], anchor)) == Some(goal)
  {
    var found, ip1, m := FindNext(src, hash, tt, table, a, plan, dest[..op0], anchor0, ip, goal);
    op, anchor, open := op0, anchor0, false;
    if found {
      op, anchor := EmitRun(src, hash, tt, table, dest, a, plan, op, anchor, ip1, m, goal);
      open := anchor + MF_LIMIT <= |src|;
    }
  }

  /** The search loop over a source that is not too short, up to the closing literals. */
  method CompressLong(src: bytes, dest: array<byte>, tt: TableType, table: array<nat>, hash: nat -> nat, a: nat, ghost plan: Plan, ghost goal: bytes)
    returns (op: nat, anchor: nat)
    requires table as object != dest && Hashes(hash, table.Length) && Fits(tt, |src|) && Roomy(|src|, dest.Length)
    requires Planned(plan, src, hash, tt, a) && plan.searching(table[..][hash(0) := 0], [], 0, 1) == Some(goal)
    modifies table, dest
    ensures op <= dest.Length && Between(src, dest[..op], dest.Length, anchor) && Output(src, dest[..op], Rest([], anchor)) == Some(goal)
  {
    Put(tt, table, hash, 0, |src|);
    var open;
    op, anchor, open := SearchTurn(src, hash, tt, table, dest, a, plan, 0, 0, 1, goal);
    while open
      invariant op <= dest.Length && Between(src, dest[..op], dest.Length, anchor)
      invariant open ==> plan.searching(table[..], dest[..op], anchor, anchor + 1) == Some(goal)
      invariant !open ==> Output(src, dest[..op], Rest([], anchor)) == Some(goal)
      decreases open, |src| - anchor
    {
      op, anchor, open := SearchTurn(src, hash, tt, table, dest, a, plan, op, anchor, anchor + 1, goal);
    }
  }

  lemma ShortStarts(src: bytes, hash: nat -> nat, tt: TableType, table: seq<nat>, a: nat)
    requires Hashes(hash, |table|) && AllUpTo(table, 0) && |src| < MF_LIMIT + 1
    ensures Output(src, [], Rest([], 0)) == Some(Encode(BlockOf(src, hash, tt, table, a)))
  {
    assert src[0..] == src;
    var w := EncodeAll([]) + EncodeLiterals(src, 0);
    assert [] + w == w;
  }

  lemma LongStarts(plan: Plan, src: bytes, hash: nat -> nat, tt: TableType, table: seq<nat>, a: nat)
    requires Planned(plan, src, hash, tt, a) && Hashes(hash, |table|) && AllUpTo(table, 0) && Fits(tt, |src|)
    ensures plan.searching(table[hash(0) := 0], [], 0, 1) == Some(Encode(BlockOf(src, hash, tt, table, a)))
  {
    var t := table[hash(0) := 0];
    var rest := AfterSearch(src, hash, tt, t, a, 0, 1);
    SearchCompletes(src, hash, tt, t, a, 0, 1, [], false, rest);
    var w := EncodeAll(rest.sequences) + EncodeLiterals(src[rest.anchor..], 0);
    assert [] + w == w;
    assert Searching(src, hash, tt, a, t, [], 0, 1) == Some(w);
  }

  method CompressInto(src: bytes, dest: array<byte>, tt: TableType, table: array<nat>, hash: nat -> nat, a: nat, ghost b: Block) returns (r: nat)
    requires table as object != dest && Hashes(hash, table.Length) && AllUpTo(table[..], 0) && Roomy(|src|, dest.Length)
    requires |src| <= MAX_INPUT_SIZE && (tt.ByU16? ==> |src| < LIMIT_64K) && b == BlockOf(src, hash, tt, table[..], a)
    modifies table, dest
    ensures 1 <= r <= dest.Length && 255 * r <= 256 * |src| + 510 && dest[..r] == Encode(b)
  {
    var op: nat, anchor: nat := 0, 0;
    ghost var goal, plan := Encode(b), PlanOf(src, hash, tt, a);
    if |src| >= MF_LIMIT + 1 {
      LongStarts(plan, src, hash, tt, table[..], a);
      op, anchor := CompressLong(src, dest, tt, table, hash, a, plan, goal);
    } else {
      ShortStarts(src, hash, tt, table[..], a);
    }
    r := CloseBlock(src, dest, op, anchor, goal);
  }

  method CompressGeneric(src: bytes, dest: array<byte>, tt: TableType, table: array<nat>, hash: nat -> nat, acceleration: nat)
    returns (r: nat, ghost b: Block)
    requires table as object != dest && Hashes(hash, table.Length) && AllUpTo(table[..], 0)
    requires dest.Length >= CompressBound(|src|)
    modifies table, dest
    ensures |src| > MAX_INPUT_SIZE || (tt.ByU16? && |src| >= LIMIT_64K) ==> r == 0
    ensures |src| <= MAX_INPUT_SIZE && (tt.ByU16? ==> |src| < LIMIT_64K) ==>
              && 1 <= r <= |src| + |src| / 255 + 2 <= dest.Length
              && b == BlockOf(src, hash, tt, old(table[..]), acceleration)
              && Compressed(src, dest[..r], b, KeepsStride(acceleration))
  {
    b := Block([], [], 0);
    if |src| > MAX_INPUT_SIZE { return 0, b; }
    if tt.ByU16? && |src| >= LIMIT_64K { return 0, b; }
    b := BlockOf(src, hash, tt, table[..], acceleration);
    BlockStands(src, hash, tt, table[..], acceleration);
    r := CompressInto(src, dest, tt, table, hash, acceleration, b);
  }

  // ---- The entry point --------------------------------------------------------------------

  /** An acceleration below one stands for one. */
  function Effective(acceleration: int): nat { if acceleration < 1 then 1 else acceleration }

  /** Compression into a destination of at least `CompressBound` bytes; 0 for an oversized source. */
  method CompressFast(src: bytes, dest: array<byte>, acceleration: int) returns (r: nat, ghost b: Block)
    requires dest.Length >= CompressBound(|src|)
    modifies dest
    ensures |src| > MAX_INPUT_SIZE ==> r == 0
    ensures |src| <= MAX_INPUT_SIZE ==>
              && 1 <= r <= |src| + |src| / 255 + 2 <= dest.Length
              && b == CompressedBlock(src, Effective(acceleration))
              && Compressed(src, dest[..r], b, KeepsStride(Effective(acceleration)))
  {
    var accel := Effective(acceleration);
    var tt := TypeFor(|src|);
    var table := new nat[TableSize(tt)](_ => 0);
    assert table[..] == Zeros(TableSize(tt));
    r, b := CompressGeneric(src, dest, tt, table, HashOf(src, tt), accel);
  }

  /** What compression leaves decodes, into any buffer of at least the source's size, to the source. */
  lemma RoundTrip(src: bytes, w: bytes, b: Block, cap: nat)
    requires Compressed(src, w, b, true) && |src| <= cap
    ensures Lz4DecodeSpec.Decode(w, cap) == Lz4DecodeSpec.Decoded(src)
  {
    Lz4DecodeSpec.DecodeComplete(b, cap);
  }
}
