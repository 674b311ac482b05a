/**
 What `LZ4_decompress_safe` accepts and produces, on every input: the decoder's own
 tests, with every copy written as the plain overlapping copy.  `DecodeSound` says that
 whatever is accepted is the wire form of a block and yields its meaning;
 `DecodeComplete` says that every conforming block is accepted.
 */
module Lz4DecodeSpec {
  import opened Bytes
  import opened Lz4Format

  datatype Outcome = Refused | Decoded(out: bytes)

  /** A length read off the input, and the input left behind it. */
  datatype Length = Cut | Length(len: nat, rest: bytes)

  function ReadLitLen(w: bytes, acc: nat): (r: Length)
    ensures r.Length? ==> |r.rest| < |w|
  {
    if w == [] then Cut
    else if |w| - 1 > 15 && w[0] == 255 then ReadLitLen(w[1..], acc + 255)
    else Length(acc + w[0], w[1..])
  }

  function ReadMatchLen(w: bytes, acc: nat): (r: Length)
    ensures r.Length? ==> LAST_LITERALS <= |r.rest| < |w|
  {
    if |w| <= LAST_LITERALS then Cut
    else if w[0] == 255 then ReadMatchLen(w[1..], acc + 255)
    else Length(acc + w[0], w[1..])
  }

  function LiteralLength(token: byte, w: bytes): (r: Length)
    ensures r.Length? ==> |r.rest| <= |w|
  {
    if token / 16 == 15 then ReadLitLen(w, 15) else Length(token / 16, w)
  }

  function MatchLength(token: byte, w: bytes): (r: Length)
    ensures r.Length? ==> |r.rest| <= |w|
  {
    if token % 16 == 15 then ReadMatchLen(w, 15) else Length(token % 16, w)
  }

  /** One turn of the decoder's loop: it ends, or goes on behind one more sequence. */
  datatype Step = Halt(outcome: Outcome) | Go(seqn: Sequence, rest: bytes)

  /** The decoder's shortcut: enough room on both sides, short lengths, a distant match. */
  predicate TakesShortcut(token: byte, w: bytes, cap: nat, op: nat) {
    && 14 + 2 <= |w|
    && op + 14 + 18 <= cap
    && token < 15 * 16
    && token % 16 != 15
    && var ll := token / 16; 18 <= LE16(w[ll], w[ll + 1]) <= op + ll
  }

  function MatchStep(token: byte, w: bytes, lits: bytes, cap: nat, op: nat): (r: Step)
    requires |w| >= 2
    ensures r.Go? ==> |r.rest| < |w|
  {
    var off := LE16(w[0], w[1]);
    if off > op + |lits| then Halt(Refused)
    else
      match MatchLength(token, w[2..])
      case Cut => Halt(Refused)
      case Length(extra, rest) =>
        if op + |lits| + extra + MIN_MATCH + LAST_LITERALS > cap then Halt(Refused)
        else Go(Sequence(lits, off, extra), rest)
  }

  function LiteralStep(token: byte, l: Length, cap: nat, out: bytes): (r: Step)
    ensures r.Go? ==> l.Length? && |r.rest| < |l.rest|
  {
    match l
    case Cut => Halt(Refused)
    case Length(len, w) =>
      if |out| + len + MF_LIMIT > cap || len + 8 > |w| then
        Halt(if len != |w| || |out| + len > cap then Refused else Decoded(out + w))
      else
        MatchStep(token, w[len..], w[..len], cap, |out|)
  }

  function DecodeStep(w: bytes, cap: nat, out: bytes): (r: Step)
    ensures r.Go? ==> |r.rest| < |w|
  {
    if w == [] then Halt(Refused)
    else
      var token, w1 := w[0], w[1..];
      if TakesShortcut(token, w1, cap, |out|) then
        var ll := token / 16;
        Go(Sequence(w1[..ll], LE16(w1[ll], w1[ll + 1]), token % 16), w1[ll + 2..])
      else
        LiteralStep(token, LiteralLength(token, w1), cap, out)
  }

  function DecodeFrom(w: bytes, cap: nat, out: bytes): Outcome
    decreases |w|
  {
    match DecodeStep(w, cap, out)
    case Halt(outcome) => outcome
    case Go(s, rest) => DecodeFrom(rest, cap, Expand(out, s))
  }

  function Decode(src: bytes, cap: nat): Outcome {
    if cap == 0 then (if src == [0] then Decoded([]) else Refused)
    else DecodeFrom(src, cap, [])
  }

  // ---- Whatever is accepted is a block -------------------------------------

  lemma {:induction false} ReadLitLenSound(w: bytes, acc: nat)
    requires acc >= 15 && var r := ReadLitLen(w, acc); r.Length? && r.len <= |r.rest|
    ensures var r := ReadLitLen(w, acc); r.len >= acc && w == LenBytes(r.len - acc) + r.rest
    decreases |w|
  {
    assert w == [w[0]] + w[1..];
    if |w| - 1 > 15 && w[0] == 255 {
      ReadLitLenSound(w[1..], acc + 255);
      var r := ReadLitLen(w, acc);
      Assoc([255], LenBytes(r.len - acc - 255), r.rest);
    }
  }

  lemma {:induction false} ReadMatchLenSound(w: bytes, acc: nat)
    requires ReadMatchLen(w, acc).Length?
    ensures var r := ReadMatchLen(w, acc); r.len >= acc && w == LenBytes(r.len - acc) + r.rest
    decreases |w|
  {
    assert w == [w[0]] + w[1..];
    if w[0] == 255 {
      ReadMatchLenSound(w[1..], acc + 255);
      var r := ReadMatchLen(w, acc);
      Assoc([255], LenBytes(r.len - acc - 255), r.rest);
    }
  }

  lemma LiteralLengthSound(token: byte, w: bytes, l: Length)
    requires l == LiteralLength(token, w) && l.Length? && l.len <= |l.rest|
    ensures token / 16 == Nibble(l.len) && w == LengthTail(l.len) + l.rest
  {
    if token / 16 == 15 { ReadLitLenSound(w, 15); }
  }

  lemma LiteralsSound(w: bytes, l: Length, extra: nat)
    requires w != [] && w[0] % 16 == Nibble(extra)
    requires l == LiteralLength(w[0], w[1..]) && l.Length? && l.len <= |l.rest|
    ensures w == EncodeLiterals(l.rest[..l.len], extra) + l.rest[l.len..]
  {
    LiteralLengthSound(w[0], w[1..], l);
    TokenOf(w[0], l.len, extra);
    var lits, rest := l.rest[..l.len], l.rest[l.len..];
    assert w == [w[0]] + w[1..] && l.rest == lits + rest;
    Assoc(LengthTail(l.len), lits, rest);
    Assoc([w[0]], LengthTail(l.len) + lits, rest);
  }

  lemma MatchSound(token: byte, w: bytes, m: Length)
    requires |w| >= 2 && m == MatchLength(token, w[2..]) && m.Length?
    ensures token % 16 == Nibble(m.len) && w == EncodeMatch(LE16(w[0], w[1]), m.len) + m.rest
  {
    MatchLengthSound(token, w[2..], m);
    EncodeMatchOf(w[0], w[1], m.len);
    assert w == [w[0], w[1]] + w[2..];
  }

  lemma EncodeMatchOf(lo: byte, hi: byte, extra: nat)
    ensures EncodeMatch(LE16(lo, hi), extra) == [lo, hi] + LengthTail(extra)
  {
    LE16Bytes(lo, hi);
  }

  lemma MatchLengthSound(token: byte, w: bytes, m: Length)
    requires m == MatchLength(token, w) && m.Length?
    ensures token % 16 == Nibble(m.len) && w == LengthTail(m.len) + m.rest
  {
    if token % 16 == 15 { ReadMatchLenSound(w, 15); }
  }

  /** Literals at `l` and a match at `m` make a sequence in front of the rest. */
  lemma SequenceSound(w: bytes, l: Length, m: Length)
    requires w != [] && l == LiteralLength(w[0], w[1..]) && l.Length? && l.len + 2 <= |l.rest|
    requires m == MatchLength(w[0], l.rest[l.len..][2..]) && m.Length?
    ensures var w2 := l.rest[l.len..];
            w == EncodeSequence(Sequence(l.rest[..l.len], LE16(w2[0], w2[1]), m.len)) + m.rest
  {
    var w2 := l.rest[l.len..];
    MatchSound(w[0], w2, m);
    LiteralsSound(w, l, m.len);
  }

  /** A turn that goes on has read one more sequence, whose reference is in range. */
  lemma GoSound(w: bytes, cap: nat, out: bytes)
    requires DecodeStep(w, cap, out).Go? && |out| <= cap
    ensures var r := DecodeStep(w, cap, out);
            && w == EncodeSequence(r.seqn) + r.rest
            && r.seqn.offset < 65536 && r.seqn.offset <= |out| + |r.seqn.literals|
            && |Expand(out, r.seqn)| <= cap
  {
    var token, w1 := w[0], w[1..];
    var l := LiteralLength(token, w1);
    var w2 := l.rest[l.len..];
    if TakesShortcut(token, w1, cap, |out|) {
      assert l == Length(token / 16, w1);
      assert w2[2..] == w1[token / 16 + 2..];
    }
    SequenceSound(w, l, MatchLength(token, w2[2..]));
  }

  ghost predicate Reads(w: bytes, out: bytes, b: Block, result: bytes) {
    && Decodable(out, b.sequences)
    && w == Encode(b)
    && result == ExpandAll(out, b.sequences) + b.last
  }

  lemma HaltSound(w: bytes, cap: nat, out: bytes) returns (b: Block)
    requires var r := DecodeStep(w, cap, out); r.Halt? && r.outcome.Decoded?
    ensures var r := DecodeStep(w, cap, out); Reads(w, out, b, r.outcome.out) && |r.outcome.out| <= cap
  {
    var l := LiteralLength(w[0], w[1..]);
    LiteralsSound(w, l, w[0] % 16);
    b := Block([], l.rest, w[0] % 16);
    assert l.rest[..l.len] == l.rest;
  }

  lemma ReadsCons(s: Sequence, rest: bytes, out: bytes, b': Block, result: bytes) returns (b: Block)
    requires Reads(rest, Expand(out, s), b', result)
    requires s.offset < 65536 && s.offset <= |out| + |s.literals|
    ensures Reads(EncodeSequence(s) + rest, out, b, result)
  {
    b := Block([s] + b'.sequences, b'.last, b'.spare);
    assert b.sequences[1..] == b'.sequences;
    assert Encode(b) == EncodeSequence(s) + Encode(b');
  }

  lemma {:induction false} DecodeFromSound(w: bytes, cap: nat, out: bytes) returns (b: Block)
    requires DecodeFrom(w, cap, out).Decoded? && |out| <= cap
    ensures Reads(w, out, b, DecodeFrom(w, cap, out).out)
    ensures |DecodeFrom(w, cap, out).out| <= cap
    decreases |w|
  {
    match DecodeStep(w, cap, out)
    case Halt(_) =>
      b := HaltSound(w, cap, out);
    case Go(s, rest) =>
      GoSound(w, cap, out);
      var b' := DecodeFromSound(rest, cap, Expand(out, s));
      b := ReadsCons(s, rest, out, b', DecodeFrom(w, cap, out).out);
  }

  /** Whatever the decoder accepts is the wire form of a block, and it yields that block's meaning. */
  lemma DecodeSound(src: bytes, cap: nat) returns (b: Block)
    requires Decode(src, cap).Decoded?
    ensures Reads(src, [], b, Decode(src, cap).out) && |Decode(src, cap).out| <= cap
  {
    if cap == 0 {
      b := Block([], [], 0);
    } else {
      b := DecodeFromSound(src, cap, []);
    }
  }

  // ---- Every conforming block is accepted -----------------------------------

  lemma {:induction false} ReadLitLenComplete(n: nat, acc: nat, w: bytes)
    requires acc >= 15 && acc + n <= |w|
    ensures ReadLitLen(LenBytes(n) + w, acc) == Length(acc + n, w)
    decreases n
  {
    if n < 255 {
      assert ([n] + w)[1..] == w;
    } else {
      assert (LenBytes(n) + w)[1..] == LenBytes(n - 255) + w;
      ReadLitLenComplete(n - 255, acc + 255, w);
    }
  }

  lemma {:induction false} ReadMatchLenComplete(n: nat, acc: nat, w: bytes)
    requires |w| >= LAST_LITERALS
    ensures ReadMatchLen(LenBytes(n) + w, acc) == Length(acc + n, w)
    decreases n
  {
    if n < 255 {
      assert ([n] + w)[1..] == w;
    } else {
      assert (LenBytes(n) + w)[1..] == LenBytes(n - 255) + w;
      ReadMatchLenComplete(n - 255, acc + 255, w);
    }
  }

  lemma LiteralsComplete(lits: bytes, extra: nat, w: bytes)
    ensures var e := EncodeLiterals(lits, extra) + w;
            && e[0] == Token(|lits|, extra)
            && LiteralLength(e[0], e[1..]) == Length(|lits|, lits + w)
  {
    var n, e := |lits|, EncodeLiterals(lits, extra) + w;
    TokenHalves(n, extra);
    assert e[1..] == LengthTail(n) + (lits + w);
    if n >= 15 { ReadLitLenComplete(n - 15, 15, lits + w); } else { assert e[1..] == lits + w; }
  }

  lemma MatchComplete(token: byte, offset: nat, extra: nat, w: bytes)
    requires offset < 65536 && token % 16 == Nibble(extra) && |w| >= LAST_LITERALS
    ensures var e := EncodeMatch(offset, extra) + w;
            && LE16(e[0], e[1]) == offset
            && MatchLength(token, e[2..]) == Length(extra, w)
  {
    var e := EncodeMatch(offset, extra) + w;
    assert e[2..] == LengthTail(extra) + w;
    if extra >= 15 { ReadMatchLenComplete(extra - 15, 15, w); } else { assert e[2..] == w; }
  }

  /** The slow path reads a sequence back. */
  lemma SlowGoes(s: Sequence, m: bytes, w: bytes, cap: nat, out: bytes, token: byte)
    requires s.offset < 65536 && s.offset <= |out| + |s.literals|
    requires |w| >= 1 + LAST_LITERALS && m == EncodeMatch(s.offset, s.extra) + w
    requires |out| + |s.literals| + MF_LIMIT <= cap
    requires |Expand(out, s)| + LAST_LITERALS <= cap
    requires token == Token(|s.literals|, s.extra)
    ensures LiteralStep(token, Length(|s.literals|, s.literals + m), cap, out) == Go(s, w)
  {
    TokenHalves(|s.literals|, s.extra);
    MatchComplete(token, s.offset, s.extra, w);
    var lm := s.literals + m;
    assert lm[|s.literals|..] == m && lm[..|s.literals|] == s.literals;
  }

  /** A sequence followed by enough input and room is read in one turn. */
  lemma GoComplete(s: Sequence, w: bytes, cap: nat, out: bytes)
    requires s.offset < 65536 && s.offset <= |out| + |s.literals|
    requires |w| >= 1 + LAST_LITERALS
    requires |out| + |s.literals| + MF_LIMIT <= cap
    requires |Expand(out, s)| + LAST_LITERALS <= cap
    ensures DecodeStep(EncodeSequence(s) + w, cap, out) == Go(s, w)
  {
    var e, m := EncodeSequence(s) + w, EncodeMatch(s.offset, s.extra) + w;
    assert e == EncodeLiterals(s.literals, s.extra) + m;
    LiteralsComplete(s.literals, s.extra, m);
    var token, w1 := e[0], e[1..];
    TokenHalves(|s.literals|, s.extra);
    SlowGoes(s, m, w, cap, out, token);
    if TakesShortcut(token, w1, cap, |out|) {
      ShortcutAgrees(s, m, w, token, w1);
    }
  }

  /** On a well-formed sequence the shortcut reads the same fields as the slow path. */
  lemma ShortcutAgrees(s: Sequence, m: bytes, w: bytes, token: byte, w1: bytes)
    requires token < 15 * 16 && token % 16 != 15 && token == Token(|s.literals|, s.extra)
    requires s.offset < 65536 && m == EncodeMatch(s.offset, s.extra) + w
    requires LiteralLength(token, w1) == Length(|s.literals|, s.literals + m)
    ensures var ll := token / 16;
            && ll + 2 <= |w1|
            && Sequence(w1[..ll], LE16(w1[ll], w1[ll + 1]), token % 16) == s
            && w1[ll + 2..] == w
  {
    TokenHalves(|s.literals|, s.extra);
    assert w1 == s.literals + m;
    assert m == [s.offset % 256, s.offset / 256 % 256] + w;
  }

  lemma RoomForMatch(ss: seq<Sequence>, last: bytes, out: bytes)
    requires ss != [] && EndsWell(ss, last)
    ensures var total := |ExpandAll(out, ss)| + |last|;
            && |out| + |ss[0].literals| + MF_LIMIT <= total
            && |Expand(out, ss[0])| + LAST_LITERALS <= total
  {
    var out', ss' := Expand(out, ss[0]), ss[1..];
    if ss' != [] {
      assert Expand(out', ss'[0]) <= ExpandAll(out', ss');
    }
  }

  lemma {:induction false} DecodeFromComplete(b: Block, cap: nat, out: bytes)
    requires Decodable(out, b.sequences) && EndsWell(b.sequences, b.last)
    requires |ExpandAll(out, b.sequences)| + |b.last| <= cap
    ensures DecodeFrom(Encode(b), cap, out) == Decoded(ExpandAll(out, b.sequences) + b.last)
    decreases |b.sequences|
  {
    var ss := b.sequences;
    if ss == [] {
      LiteralsComplete(b.last, b.spare, []);
      assert Encode(b) == EncodeLiterals(b.last, b.spare) + [];
      assert b.last + [] == b.last;
    } else {
      var b' := Block(ss[1..], b.last, b.spare);
      assert Encode(b) == EncodeSequence(ss[0]) + Encode(b');
      RoomForMatch(ss, b.last, out);
      GoComplete(ss[0], Encode(b'), cap, out);
      DecodeFromComplete(b', cap, Expand(out, ss[0]));
    }
  }

  /** Every conforming block that fits decodes to its meaning. */
  lemma DecodeComplete(b: Block, cap: nat)
    requires Conforming(b) && |Meaning(b)| <= cap
    requires cap == 0 ==> b.spare == 0
    ensures Decode(Encode(b), cap) == Decoded(Meaning(b))
  {
    DecodeFromComplete(b, cap, []);
  }
}
