/** Unsigned LEB128 (section 7.6 of DWARF 4) and lists of 64-bit values stored as differences. */
module Varint {
  import opened Bytes

  /** Seven bits at a time, the lowest first, the last byte below 128. */
  function Put(v: nat): bytes { if v < 128 then [v] else [128 + v % 128] + Put(v / 128) }

  datatype Got = Got(value: nat, rest: bytes)

  /** Reads on after the bits in `acc`; the next seven weigh `scale`. */
  function Get(w: bytes, acc: nat, scale: nat): Option<Got>
    decreases |w|
  {
    if w == [] then None
    else
      var acc' := (acc + w[0] % 128 * scale) % TWO64;
      if w[0] < 128 then Some(Got(acc', w[1..])) else Get(w[1..], acc', scale * 128)
  }

  lemma ModTwice(a: nat, b: nat)
    ensures (a % TWO64 + b) % TWO64 == (a + b) % TWO64
  {
    var q, r := a / TWO64, a % TWO64;
    var s := (r + b) / TWO64;
    assert a + b == TWO64 * (q + s) + (r + b) % TWO64;
    ModIs(a + b, q + s, (r + b) % TWO64);
  }

  lemma SevenBits(v: nat, scale: nat)
    ensures v % 128 * scale + v / 128 * (scale * 128) == v * scale
  {
    var h, l := v / 128, v % 128;
    assert v == 128 * h + l;
    assert h * (scale * 128) == 128 * h * scale;
    assert (128 * h + l) * scale == 128 * h * scale + l * scale;
  }

  lemma OneByteLess(acc: nat, v: nat, scale: nat, h: nat, scale': nat, acc': nat)
    requires h == v / 128 && scale' == scale * 128 && acc' == (acc + v % 128 * scale) % TWO64
    ensures (acc' + h * scale') % TWO64 == (acc + v * scale) % TWO64
  {
    SevenBits(v, scale);
    ModTwice(acc + v % 128 * scale, h * scale');
  }

  lemma {:induction false} GetPutFrom(v: nat, rest: bytes, acc: nat, scale: nat)
    ensures Get(Put(v) + rest, acc, scale) == Some(Got((acc + v * scale) % TWO64, rest))
    decreases v
  {
    if v < 128 {
      GetLast(v, rest, acc, scale);
    } else {
      var h, scale', acc' := v / 128, scale * 128, (acc + v % 128 * scale) % TWO64;
      GetOne(v, rest, acc, scale);
      GetPutFrom(h, rest, acc', scale');
      OneByteLess(acc, v, scale, h, scale', acc');
    }
  }

  lemma GetLast(v: nat, rest: bytes, acc: nat, scale: nat)
    requires v < 128
    ensures Get(Put(v) + rest, acc, scale) == Some(Got((acc + v * scale) % TWO64, rest))
  {
    assert (Put(v) + rest)[1..] == rest;
  }

  lemma GetOne(v: nat, rest: bytes, acc: nat, scale: nat)
    requires v >= 128
    ensures Get(Put(v) + rest, acc, scale) == Get(Put(v / 128) + rest, (acc + v % 128 * scale) % TWO64, scale * 128)
  {
    var w := Put(v) + rest;
    assert w[1..] == Put(v / 128) + rest && w[0] == 128 + v % 128;
    assert w[0] % 128 == v % 128;
  }

  /** A value written is read back, and exactly its own bytes are used. */
  lemma GetPut(v: nat, rest: bytes)
    requires v < TWO64
    ensures Get(Put(v) + rest, 0, 1) == Some(Got(v, rest))
  {
    GetPutFrom(v, rest, 0, 1);
    ModIs(v, 0, v);
  }

  // ---- Differences -----------------------------------------------------------------------------

  function Minus(x: nat, prev: nat): nat { (x + TWO64 - prev % TWO64) % TWO64 }

  function Plus(prev: nat, delta: nat): nat { (prev + delta) % TWO64 }

  lemma PlusMinus(x: nat, prev: nat)
    requires x < TWO64 && prev < TWO64
    ensures Plus(prev, Minus(x, prev)) == x && Minus(x, prev) < TWO64
  {
    ModIs(prev, 0, prev);
    var d := x + TWO64 - prev;
    ModTwice(d, prev);
    ModIs(x + TWO64, 1, x);
  }

  /** The bytes of a list whose last value before it was `prev`. */
  function Stored(xs: seq<nat>, prev: nat): bytes {
    if xs == [] then [] else Put(Minus(xs[0], prev)) + Stored(xs[1..], xs[0])
  }

  function Last(xs: seq<nat>, prev: nat): nat { if xs == [] then prev else xs[|xs| - 1] }

  lemma {:induction false} StoredSnoc(xs: seq<nat>, prev: nat, x: nat)
    ensures Stored(xs + [x], prev) == Stored(xs, prev) + Put(Minus(x, Last(xs, prev)))
    decreases |xs|
  {
    if xs == [] {
      assert xs + [x] == [x] && [x][1..] == [];
      assert Put(Minus(x, prev)) + [] == Put(Minus(x, prev));
    } else {
      assert (xs + [x])[1..] == xs[1..] + [x];
      StoredSnoc(xs[1..], xs[0], x);
      Assoc(Put(Minus(xs[0], prev)), Stored(xs[1..], xs[0]), Put(Minus(x, Last(xs, prev))));
    }
  }

  /** The first value of a stored list, and the bytes of the others. */
  lemma StoredFirst(xs: seq<nat>, prev: nat, rest: bytes)
    requires xs != [] && xs[0] < TWO64 && prev < TWO64
    ensures var g := Get(Stored(xs, prev) + rest, 0, 1);
      g.Some? && Plus(prev, g.value.value) == xs[0] && g.value.rest == Stored(xs[1..], xs[0]) + rest
  {
    PlusMinus(xs[0], prev);
    Assoc(Put(Minus(xs[0], prev)), Stored(xs[1..], xs[0]), rest);
    GetPut(Minus(xs[0], prev), Stored(xs[1..], xs[0]) + rest);
  }
}
