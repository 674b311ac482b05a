/**
 `LZ4_decompress_safe`: the decoding loop over an output array, with its shortcut, its
 eight-byte wild copies and its table-driven handling of small offsets.  Every write is
 inside the output array, on every input, and the result is the one `Decode` describes.
 */
module Lz4Decompress {
  import opened Bytes
  import opened Lz4Format
  import opened Lz4DecodeSpec
  import opened Lz4Memory

  const INC32 := [0, 1, 2, 1, 0, 4, 4, 4]
  const DEC64 := [0, 0, 0, -1, -4, 1, 2, 3]

  /** `memcpy` within the output, source before target. */
  method CopyWithin(dst: array<byte>, d: nat, s: nat, n: nat)
    requires s + n <= d && d + n <= dst.Length
    modifies dst
    ensures forall j :: 0 <= j < d ==> dst[j] == old(dst[j])
    ensures forall j :: d <= j < d + n ==> dst[j] == old(dst[j - d + s])
    ensures forall j :: d + n <= j < dst.Length ==> dst[j] == old(dst[j])
  {
    forall i | 0 <= i < n { dst[d + i] := dst[s + i]; }
  }

  // ---- The match copy -------------------------------------------------------

  /** From `first` on, the ideal output repeats at distance `dist`. */
  ghost predicate Repeats(full: bytes, first: nat, dist: nat) {
    forall i, j :: first <= j < |full| && 0 <= i == j - dist ==> full[i] == full[j]
  }

  lemma RepeatsAtOffset(full: bytes, out: bytes, offset: nat)
    requires IsCopy(full, out, offset) && 0 < offset <= |out|
    ensures Repeats(full, |out|, offset)
  {
    forall j | |out| <= j < |full| && offset <= j
      ensures full[j] == full[j - offset]
    {
      assert full[..j][j - offset] == full[j - offset];
    }
  }

  lemma {:induction false} RepeatsMultiple(full: bytes, op: nat, offset: nat, k: nat)
    requires Repeats(full, op, offset) && 0 < offset <= op && k > 0
    ensures (k - 1) * offset >= 0 && k * offset >= 0
    ensures Repeats(full, op + (k - 1) * offset, k * offset)
    decreases k
  {
    if k > 1 {
      RepeatsMultiple(full, op, offset, k - 1);
      assert (k - 1) * offset == (k - 2) * offset + offset && k * offset == (k - 1) * offset + offset;
      forall j | op + (k - 1) * offset <= j < |full| && k * offset <= j
        ensures full[j] == full[j - k * offset]
      {
        assert full[j] == full[j - (k - 1) * offset];
        assert full[j - (k - 1) * offset] == full[j - (k - 1) * offset - offset];
      }
    }
  }

  /** How many periods back the small-offset tables point, four and eight bytes into the match. */
  const PERIODS4 := [1, 4, 2, 2, 2, 1, 1, 1]
  const PERIODS8 := [1, 8, 4, 3, 2, 2, 2, 2]

  lemma TableDistances(offset: nat)
    requires 0 < offset < 8
    ensures 4 + offset - INC32[offset] == PERIODS4[offset] * offset
    ensures 8 + offset - INC32[offset] + DEC64[offset] == PERIODS8[offset] * offset
    ensures (PERIODS4[offset] - 1) * offset <= 4 && (PERIODS8[offset] - 1) * offset <= 8
  {
    assert offset in [1, 2, 3, 4, 5, 6, 7];
  }

  lemma RepeatsFrom(full: bytes, op: nat, offset: nat, k: nat, n: nat)
    requires Repeats(full, op, offset) && 0 < offset <= op && k > 0 && (k - 1) * offset <= n
    ensures k * offset >= 0 && Repeats(full, op + n, k * offset)
  {
    RepeatsMultiple(full, op, offset, k);
  }

  lemma RepeatsZero(full: bytes, out: bytes)
    requires IsCopy(full, out, 0)
    ensures Repeats(full, |out| + 4, 4) && Repeats(full, |out| + 8, 8)
    ensures forall j :: |out| <= j < |full| ==> full[j] == 0
  {
    forall j | |out| <= j < |full| ensures full[j] == 0 { assert Referenced(full[..j], 0) == 0; }
  }

  /** The two distances used by the small-offset path: four bytes in, and eight bytes in. */
  lemma SmallOffset(full: bytes, out: bytes, offset: nat)
    requires IsCopy(full, out, offset) && offset < 8 && offset <= |out|
    ensures Repeats(full, |out| + 4, 4 + offset - INC32[offset])
    ensures Repeats(full, |out| + 8, 8 + offset - INC32[offset] + DEC64[offset])
    ensures 0 <= offset - INC32[offset] <= |out| && 0 <= offset - INC32[offset] + DEC64[offset] <= |out|
  {
    if offset == 0 {
      RepeatsZero(full, out);
    } else {
      RepeatsAtOffset(full, out, offset);
      TableDistances(offset);
      RepeatsFrom(full, |out|, offset, PERIODS4[offset], 4);
      RepeatsFrom(full, |out|, offset, PERIODS8[offset], 8);
    }
  }

  ghost predicate Agrees(dst: array<byte>, full: bytes, upto: nat)
    reads dst
  {
    upto <= |full| == dst.Length && forall j :: 0 <= j < upto ==> dst[j] == full[j]
  }

  /** Eight-byte steps at a distance of at least eight reproduce the ideal output. */
  method WildCopyWithin(dst: array<byte>, op: nat, dist: nat, end: nat, ghost full: bytes)
    requires 8 <= dist <= op < end && end + 7 <= dst.Length
    requires Agrees(dst, full, op) && Repeats(full, op, dist)
    modifies dst
    ensures Agrees(dst, full, end)
  {
    var d := op;
    while d < end
      invariant op <= d < end + 8
      invariant Agrees(dst, full, d)
    {
      CopyWithin(dst, d, d - dist, 8);
      d := d + 8;
    }
  }

  /** The first eight bytes of a match; the result is the distance used from there on. */
  method CopyFirst8(dst: array<byte>, op: nat, offset: nat, ghost full: bytes) returns (dist: nat)
    requires offset <= op && op + 8 <= dst.Length == |full|
    requires Agrees(dst, full, op) && IsCopy(full, full[..op], offset)
    requires offset == 0 ==> Agrees(dst, full, op + 4)
    modifies dst
    ensures Agrees(dst, full, op + 8)
    ensures 8 <= dist <= op + 8 && Repeats(full, op + 8, dist)
  {
    var mtch := op - offset;
    if offset < 8 {
      SmallOffset(full, full[..op], offset);
      CopyFirst4(dst, op, offset, full);
      mtch := mtch + INC32[offset];
      CopyWithin(dst, op + 4, mtch, 4);
      dist := op + 8 - (mtch - DEC64[offset]);
    } else {
      RepeatsAtOffset(full, full[..op], offset);
      CopyWithin(dst, op, mtch, 8);
      dist := op + 8 - (mtch + 8);
    }
  }

  method CopyFirst4(dst: array<byte>, op: nat, offset: nat, ghost full: bytes)
    requires offset <= op && op + 4 <= dst.Length == |full|
    requires Agrees(dst, full, op) && IsCopy(full, full[..op], offset)
    requires offset == 0 ==> Agrees(dst, full, op + 4)
    modifies dst
    ensures Agrees(dst, full, op + 4)
  {
    var mtch := op - offset;
    if offset > 0 {
      RepeatsAtOffset(full, full[..op], offset);
      assert full[op] == full[mtch] && full[op + 1] == full[mtch + 1];
      assert full[op + 2] == full[mtch + 2] && full[op + 3] == full[mtch + 3];
    }
    dst[op] := dst[mtch];
    dst[op + 1] := dst[mtch + 1];
    dst[op + 2] := dst[mtch + 2];
    dst[op + 3] := dst[mtch + 3];
  }

  /** Within twelve bytes of the end: wild copies while they fit, then single bytes. */
  method CopyNearEnd(dst: array<byte>, op: nat, dist: nat, cpy: nat, ghost full: bytes)
    requires 8 <= dist <= op <= dst.Length && 7 <= dst.Length && cpy + LAST_LITERALS <= dst.Length
    requires Agrees(dst, full, op) && Repeats(full, op, dist)
    modifies dst
    ensures cpy <= |full| == dst.Length && Agrees(dst, full, cpy)
  {
    var o, copyLimit := op, dst.Length - 7;
    if o < copyLimit {
      WildCopyWithin(dst, o, dist, copyLimit, full);
      o := copyLimit;
    }
    while o < cpy
      invariant op <= o && Agrees(dst, full, o)
      decreases cpy - o
    {
      dst[o] := dst[o - dist];
      o := o + 1;
    }
  }

  /** The whole match: refused exactly when fewer than five bytes would be left for literals. */
  method CopyMatchInto(dst: array<byte>, op: nat, offset: nat, length: nat, ghost full: bytes) returns (ok: bool)
    requires offset <= op && op + MF_LIMIT <= dst.Length == |full| && length >= MIN_MATCH
    requires Agrees(dst, full, op) && IsCopy(full, full[..op], offset)
    requires offset == 0 ==> Agrees(dst, full, op + 4)
    modifies dst
    ensures ok <==> op + length + LAST_LITERALS <= dst.Length
    ensures ok ==> Agrees(dst, full, op + length)
  {
    var cpy := op + length;
    var dist := CopyFirst8(dst, op, offset, full);
    if cpy + 12 > dst.Length {
      if cpy + LAST_LITERALS > dst.Length { return false; }
      CopyNearEnd(dst, op + 8, dist, cpy, full);
    } else {
      CopyWithin(dst, op + 8, op + 8 - dist, 8);
      if length > 16 { WildCopyWithin(dst, op + 16, dist, cpy, full); }
    }
    ok := true;
  }

  method CopyMatchFast(dst: array<byte>, op: nat, offset: nat, length: nat) returns (ok: bool)
    requires offset <= op && op + MF_LIMIT <= dst.Length && length >= MIN_MATCH
    requires offset == 0 ==> dst[op] == dst[op + 1] == dst[op + 2] == dst[op + 3] == 0
    modifies dst
    ensures ok <==> op + length + LAST_LITERALS <= dst.Length
    ensures ok ==> dst[..op + length] == CopyMatch(old(dst[..op]), offset, length)
  {
    ghost var out := dst[..op];
    ghost var full := CopyMatch(out, offset, dst.Length - op);
    CopyMatchIsCopy(out, offset, dst.Length - op);
    assert full[..op] == out;
    if offset == 0 { RepeatsZero(full, out); }
    ok := CopyMatchInto(dst, op, offset, length, full);
    if ok {
      assert dst[..op + length] == full[..op + length];
      PrefixOfCopy(full, out, offset, op + length);
    }
  }

  lemma PrefixOfCopy(full: bytes, out: bytes, offset: nat, n: nat)
    requires IsCopy(full, out, offset) && |out| <= n <= |full|
    ensures full[..n] == CopyMatch(out, offset, n - |out|)
  {
    assert forall j :: 0 <= j <= n ==> full[..n][..j] == full[..j];
    CopyMatchUnique(full[..n], out, offset);
  }

  // ---- The loop -------------------------------------------------------------

  /** The input and the memory behind it, at which a truncated input makes the decoder glance. */
  function At(src: bytes, beyond: nat -> byte, i: nat): byte {
    if i < |src| then src[i] else beyond(i)
  }

  /** The literal length; a position past the end reports an input cut short. */
  method ReadLiteralLength(src: bytes, beyond: nat -> byte, token: byte, ip0: nat) returns (length: nat, ip: nat)
    ensures ip >= ip0
    ensures ip0 <= |src| ==>
      match LiteralLength(token, src[ip0..])
      case Cut => ip > |src|
      case Length(len, rest) => ip <= |src| && length == len && rest == src[ip..]
  {
    length, ip := token / 16, ip0;
    if length == 15 {
      var s := At(src, beyond, ip);
      ip, length := ip + 1, length + s;
      while ip + 15 < |src| && s == 255
        invariant ip > ip0
        invariant ip0 <= |src| ==>
          ip <= |src| + 1 && (ip > |src| <==> ip0 == |src|)
        invariant ip0 <= |src| && ip <= |src| ==>
          LiteralLength(token, src[ip0..]) ==
          if ip + 15 < |src| && s == 255 then ReadLitLen(src[ip..], length) else Length(length, src[ip..])
      {
        assert src[ip..][1..] == src[ip + 1..];
        s := At(src, beyond, ip);
        ip, length := ip + 1, length + s;
      }
    }
  }

  /** The match length; refused when the five last literals would be eaten into. */
  method ReadMatchLength(src: bytes, token: byte, ip0: nat) returns (ok: bool, extra: nat, ip: nat)
    requires ip0 + LAST_LITERALS < |src|
    ensures match MatchLength(token, src[ip0..])
            case Cut => !ok
            case Length(len, rest) => ok && ip <= |src| && extra == len && rest == src[ip..]
  {
    ok, extra, ip := true, token % 16, ip0;
    if extra == 15 {
      var s: byte := 255;
      while s == 255
        invariant ip + LAST_LITERALS <= |src|
        invariant MatchLength(token, src[ip0..]) ==
          if s == 255 then ReadMatchLen(src[ip..], extra) else Length(extra, src[ip..])
        decreases |src| - ip, s == 255
      {
        s := src[ip];
        assert src[ip..][1..] == src[ip + 1..];
        ip := ip + 1;
        if ip + LAST_LITERALS > |src| { return false, extra, ip; }
        extra := extra + s;
      }
    }
  }

  /** Both halves of a short sequence by two fixed-size copies. */
  method Shortcut(src: bytes, dst: array<byte>, ip: nat, op: nat, ll: nat, off: nat, extra: nat)
    requires ll <= 14 && extra <= 14 && ip + 16 <= |src| && op + 14 + 18 <= dst.Length
    requires 18 <= off <= op + ll
    modifies dst
    ensures dst[..op + ll + extra + MIN_MATCH] == Expand(old(dst[..op]), Sequence(src[ip..ip + ll], off, extra))
  {
    CopyIn(dst, op, src, ip, 16);
    ghost var mid := dst[..op + 16];
    CopyWithin(dst, op + ll, op + ll - off, 18);
    ShortcutResult(old(dst[..op]), src[ip..ip + 16], mid, dst[..op + ll + extra + MIN_MATCH], ll, off);
    assert src[ip..ip + 16][..ll] == src[ip..ip + ll];
  }

  lemma ShortcutResult(before: bytes, lits: bytes, mid: bytes, r: bytes, ll: nat, off: nat)
    requires mid == before + lits && ll <= |lits| && 0 < off <= |before| + ll <= |r|
    requires forall j :: 0 <= j < |before| + ll ==> r[j] == mid[j]
    requires forall i, j :: |before| + ll <= j < |r| && i == j - off ==> r[i] == r[j]
    ensures r == CopyMatch(before + lits[..ll], off, |r| - |before| - ll)
  {
    DistantCopy(r, before + lits[..ll], off);
  }

  /** The slow path behind the literals: offset, match length and the copy. */
  method DecodeMatch(src: bytes, dst: array<byte>, token: byte, ip0: nat, op0: nat) returns (ok: bool, ip: nat, op: nat)
    requires ip0 + 8 <= |src| && op0 + MF_LIMIT <= dst.Length
    modifies dst
    ensures match MatchStep(token, src[ip0..], [], dst.Length, op0)
            case Halt(_) => !ok
            case Go(s, rest) =>
              && ok && ip <= |src| && op <= dst.Length && rest == src[ip..]
              && dst[..op] == Expand(old(dst[..op0]), s)
  {
    var offset := LE16(src[ip0], src[ip0 + 1]);
    ip, op := ip0 + 2, op0;
    assert src[ip0..][2..] == src[ip..];
    if offset > op { return false, ip, op; }
    dst[op], dst[op + 1], dst[op + 2], dst[op + 3] := offset % 256, offset / 256, 0, 0;
    var extra;
    ok, extra, ip := ReadMatchLength(src, token, ip);
    if !ok { return; }
    assert dst[..op] == old(dst[..op0]) == old(dst[..op0]) + [];
    ok := CopyMatchFast(dst, op, offset, extra + MIN_MATCH);
    op := op + extra + MIN_MATCH;
  }

  lemma LiteralsFirst(out: bytes, lits: bytes, off: nat, extra: nat)
    ensures Expand(out, Sequence(lits, off, extra)) == Expand(out + lits, Sequence([], off, extra))
  {
    assert out + lits + [] == out + lits;
  }

  lemma LiteralsFirstAll(out: bytes, lits: bytes)
    ensures forall off: nat, extra: nat ::
      Expand(out, Sequence(lits, off, extra)) == Expand(out + lits, Sequence([], off, extra))
  {
    forall off: nat, extra: nat { LiteralsFirst(out, lits, off, extra); }
  }

  /** What a turn leaves behind, against the step it stands for. */
  ghost predicate Realizes(step: Step, out0: bytes, src: bytes, dst: array<byte>, done: bool, r: int, ip: nat, op: nat)
    reads dst
  {
    match step
    case Halt(outcome) => done && Ends(outcome, dst, r)
    case Go(s, rest) =>
      && !done && ip <= |src| && op <= dst.Length && rest == src[ip..]
      && dst[..op] == Expand(out0, s)
  }

  /** The return value and the output array of a finished decoding. */
  ghost predicate Ends(outcome: Outcome, dst: array<byte>, r: int)
    reads dst
  {
    match outcome
    case Refused => r < 0
    case Decoded(out) => r == |out| <= dst.Length && dst[..r] == out
  }

  /** The turn behind the token, off the shortcut. */
  method SlowTurn(src: bytes, dst: array<byte>, token: byte, length: nat, ip0: nat, op0: nat)
    returns (done: bool, r: int, ip: nat, op: nat)
    requires op0 <= dst.Length
    modifies dst
    ensures ip0 > |src| ==> done && r < 0
    ensures ip0 <= |src| ==>
      Realizes(LiteralStep(token, Length(length, src[ip0..]), dst.Length, old(dst[..op0])),
               old(dst[..op0]), src, dst, done, r, ip, op)
  {
    done, r, ip, op := true, -1 - ip0, ip0, op0;
    ghost var out0 := dst[..op0];
    var cpy := op + length;
    if cpy + MF_LIMIT > dst.Length || ip + length + 8 > |src| {
      if ip + length != |src| || cpy > dst.Length { return; }
      CopyIn(dst, op, src, ip, length);
      assert src[ip..ip + length] == src[ip..];
      r := cpy;
    } else {
      WildCopy(dst, op, src, ip, length);
      ghost var lits := src[ip..ip + length];
      assert src[ip..][length..] == src[ip + length..] && src[ip..][..length] == lits;
      LiteralsFirstAll(out0, lits);
      var ok;
      ok, ip, op := DecodeMatch(src, dst, token, ip + length, cpy);
      done := !ok;
    }
  }

  /** One turn of the loop; `done` with a negative `r` is the error exit. */
  method Turn(src: bytes, beyond: nat -> byte, dst: array<byte>, ip0: nat, op0: nat)
    returns (done: bool, r: int, ip: nat, op: nat)
    requires ip0 <= |src| && op0 <= dst.Length
    modifies dst
    ensures Realizes(DecodeStep(src[ip0..], dst.Length, old(dst[..op0])), old(dst[..op0]), src, dst, done, r, ip, op)
  {
    done, r, ip, op := false, -1, ip0, op0;
    var token := At(src, beyond, ip);
    ip := ip + 1;
    assert ip0 < |src| ==> src[ip0..][1..] == src[ip..];
    var short := TestShortcut(src, token, ip, dst.Length, op);
    if short {
      ip, op := ShortTurn(src, dst, token, ip, op);
    } else {
      var length;
      length, ip := ReadLiteralLength(src, beyond, token, ip);
      done, r, ip, op := SlowTurn(src, dst, token, length, ip, op);
    }
  }

  method ShortTurn(src: bytes, dst: array<byte>, token: byte, ip0: nat, op0: nat) returns (ip: nat, op: nat)
    requires ip0 <= |src| && TakesShortcut(token, src[ip0..], dst.Length, op0)
    modifies dst
    ensures ip <= |src| && op <= dst.Length
    ensures var ll, w := token / 16, src[ip0..];
      && dst[..op] == Expand(old(dst[..op0]), Sequence(w[..ll], LE16(w[ll], w[ll + 1]), token % 16))
      && w[ll + 2..] == src[ip..]
  {
    var ll := token / 16;
    Shortcut(src, dst, ip0, op0, ll, LE16(src[ip0 + ll], src[ip0 + ll + 1]), token % 16);
    assert src[ip0..][..ll] == src[ip0..ip0 + ll] && src[ip0..][ll + 2..] == src[ip0 + ll + 2..];
    ip, op := ip0 + ll + 2, op0 + ll + token % 16 + MIN_MATCH;
  }

  method TestShortcut(src: bytes, token: byte, ip: nat, cap: nat, op: nat) returns (short: bool)
    ensures short <==> ip <= |src| && TakesShortcut(token, src[ip..], cap, op)
  {
    short := ip + 14 + 2 <= |src| && op + 14 + 18 <= cap && token < 15 * 16 && token % 16 != 15;
    if short {
      var ll := token / 16;
      var off := LE16(src[ip + ll], src[ip + ll + 1]);
      assert src[ip..][ll] == src[ip + ll] && src[ip..][ll + 1] == src[ip + ll + 1];
      short := off >= 18 && off <= op + ll;
    }
  }

  /** The bytes decoded into `dst`, or a negative number; nothing outside `dst` is written. */
  method DecompressSafe(src: bytes, beyond: nat -> byte, dst: array<byte>) returns (r: int)
    modifies dst
    ensures Ends(Decode(src, dst.Length), dst, r)
  {
    r := -1;
    if dst.Length == 0 { return if |src| == 1 && src[0] == 0 then 0 else -1; }
    var ip: nat, op: nat, done := 0, 0, false;
    assert src[0..] == src && dst[..0] == [];
    while !done
      invariant ip <= |src| && op <= dst.Length
      invariant !done ==> Decode(src, dst.Length) == DecodeFrom(src[ip..], dst.Length, dst[..op])
      invariant done ==> Ends(Decode(src, dst.Length), dst, r)
      decreases |src| - ip, !done
    {
      var ip', op';
      done, r, ip', op' := Turn(src, beyond, dst, ip, op);
      if !done { ip, op := ip', op'; }
    }
  }
}
