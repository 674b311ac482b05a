/**
 The LZ4 block format, independently of how it is produced or read: a block is a
 list of sequences (literals, then a back reference) closed by a run of literals.
 `Encode` is its wire form and `Meaning` the bytes it stands for.
 */
module Lz4Format {
  import opened Bytes

  const MIN_MATCH := 4
  const LAST_LITERALS := 5
  const MF_LIMIT := 12

  /** `extra` is the match length beyond the minimum of four. */
  datatype Sequence = Sequence(literals: bytes, offset: nat, extra: nat)

  /** `spare` is the low half of the last token, which no reader looks at. */
  datatype Block = Block(sequences: seq<Sequence>, last: bytes, spare: nat)

  // ---- Meaning ------------------------------------------------------------

  /** One byte of an overlapping copy; offset 0 stands for a run of zero bytes. */
  function Referenced(out: bytes, offset: nat): byte {
    if offset == 0 || offset > |out| then 0 else out[|out| - offset]
  }

  /** The overlapping, one-byte-at-a-time copy of `n` bytes from `offset` back. */
  function CopyMatch(out: bytes, offset: nat, n: nat): (r: bytes)
    ensures |r| == |out| + n && out <= r
  {
    if n == 0 then out
    else
      var r := CopyMatch(out, offset, n - 1);
      r + [Referenced(r, offset)]
  }

  function Expand(out: bytes, s: Sequence): (r: bytes)
    ensures out <= r && |r| == |out| + |s.literals| + s.extra + MIN_MATCH
  {
    CopyMatch(out + s.literals, s.offset, s.extra + MIN_MATCH)
  }

  function ExpandAll(out: bytes, ss: seq<Sequence>): (r: bytes)
    ensures out <= r
    decreases |ss|
  {
    if ss == [] then out else ExpandAll(Expand(out, ss[0]), ss[1..])
  }

  function Meaning(b: Block): bytes { ExpandAll([], b.sequences) + b.last }

  /** Every back reference points at bytes already produced. */
  ghost predicate Decodable(out: bytes, ss: seq<Sequence>)
    decreases |ss|
  {
    ss != [] ==>
      && ss[0].offset < 65536
      && ss[0].offset <= |out| + |ss[0].literals|
      && Decodable(Expand(out, ss[0]), ss[1..])
  }

  /** The end-of-block restrictions: five last literals, and twelve bytes from the last match start on. */
  ghost predicate EndsWell(ss: seq<Sequence>, last: bytes) {
    ss != [] ==>
      && |last| >= LAST_LITERALS
      && ss[|ss| - 1].extra + MIN_MATCH + |last| >= MF_LIMIT
  }

  ghost predicate Conforming(b: Block) {
    Decodable([], b.sequences) && EndsWell(b.sequences, b.last)
  }

  /** What an overlapping copy looks like from the outside. */
  ghost predicate IsCopy(r: bytes, out: bytes, offset: nat) {
    && out <= r
    && forall j {:trigger r[..j]} :: |out| <= j < |r| ==> r[j] == Referenced(r[..j], offset)
  }

  lemma {:induction false} CopyMatchUnique(r: bytes, out: bytes, offset: nat)
    requires IsCopy(r, out, offset)
    ensures r == CopyMatch(out, offset, |r| - |out|)
    decreases |r|
  {
    if |r| > |out| {
      var m := |r| - 1;
      assert forall j :: |out| <= j < m ==> r[..m][..j] == r[..j];
      CopyMatchUnique(r[..m], out, offset);
      assert r == r[..m] + [r[m]];
    }
  }

  lemma {:induction false} CopyMatchIsCopy(out: bytes, offset: nat, n: nat)
    ensures IsCopy(CopyMatch(out, offset, n), out, offset)
  {
    if n > 0 {
      CopyMatchIsCopy(out, offset, n - 1);
      var q, r := CopyMatch(out, offset, n - 1), CopyMatch(out, offset, n);
      assert forall j :: 0 <= j <= |q| ==> r[..j] == q[..j];
    }
  }

  lemma DistantCopy(r: bytes, out: bytes, off: nat)
    requires out <= r && 0 < off <= |out|
    requires forall i, j :: |out| <= j < |r| && i == j - off ==> r[i] == r[j]
    ensures r == CopyMatch(out, off, |r| - |out|)
  {
    forall j | |out| <= j < |r| ensures r[j] == Referenced(r[..j], off) {
      assert r[..j][j - off] == r[j - off];
    }
    CopyMatchUnique(r, out, off);
  }

  // ---- Wire form ----------------------------------------------------------

  function Nibble(n: nat): (r: nat)
    ensures r <= 15
  {
    if n < 15 then n else 15
  }

  /** A length's run of 255s closed by a smaller byte. */
  function LenBytes(n: nat): (r: bytes)
    ensures r != []
  {
    if n < 255 then [n] else [255] + LenBytes(n - 255)
  }

  function LengthTail(n: nat): bytes {
    if n < 15 then [] else LenBytes(n - 15)
  }

  lemma {:induction false} LenBytesBound(n: nat)
    ensures 255 * |LenBytes(n)| <= n + 255
  {
    if n >= 255 { LenBytesBound(n - 255); }
  }

  lemma TailBound(n: nat)
    ensures 255 * |LengthTail(n)| <= n + 240
  {
    if n >= 15 { LenBytesBound(n - 15); }
  }

  function Token(lits: nat, extra: nat): byte { Nibble(lits) * 16 + Nibble(extra) }

  lemma TokenOf(t: byte, lits: nat, extra: nat)
    requires t / 16 == Nibble(lits) && t % 16 == Nibble(extra)
    ensures t == Token(lits, extra)
  {
  }

  lemma TokenHalves(lits: nat, extra: nat)
    ensures Token(lits, extra) / 16 == Nibble(lits) && Token(lits, extra) % 16 == Nibble(extra)
  {
  }

  function EncodeLiterals(lits: bytes, extra: nat): bytes {
    [Token(|lits|, extra)] + (LengthTail(|lits|) + lits)
  }

  function EncodeMatch(offset: nat, extra: nat): bytes {
    [offset % 256, offset / 256 % 256] + LengthTail(extra)
  }

  function EncodeSequence(s: Sequence): bytes {
    EncodeLiterals(s.literals, s.extra) + EncodeMatch(s.offset, s.extra)
  }

  function EncodeAll(ss: seq<Sequence>): bytes {
    if ss == [] then [] else EncodeSequence(ss[0]) + EncodeAll(ss[1..])
  }

  function Encode(b: Block): bytes {
    EncodeAll(b.sequences) + EncodeLiterals(b.last, b.spare)
  }
}
