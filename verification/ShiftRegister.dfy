/**
 A shift register over GF(2): what follows from its step being additive, whatever the
 polynomial and however its contents are represented.
 */
module ShiftRegister {
  /** `step` is what one zero bit does to the contents; `add` is their sum. */
  datatype Register<!V> = Register(add: (V, V) -> V, step: V -> V)

  ghost predicate Additive<V(!new)>(r: Register<V>) {
    && (forall a, b {:trigger r.step(r.add(a, b))} :: r.step(r.add(a, b)) == r.add(r.step(a), r.step(b)))
    && (forall a, b, c {:trigger r.add(r.add(a, b), c)} :: r.add(r.add(a, b), c) == r.add(a, r.add(b, c)))
  }

  /** `n` zero bits shifted through the register. */
  function Bits<V>(r: Register<V>, c: V, n: nat): V
    decreases n, c
  {
    if n == 0 then c else Bits(r, r.step(c), n - 1)
  }

  /** The register after the bits of each value of `s` are added and shifted out, eight at a time. */
  function Feed<V>(r: Register<V>, c: V, s: seq<V>): V
    decreases |s|
  {
    if s == [] then c else Feed(r, Bits(r, r.add(c, s[0]), 8), s[1..])
  }

  lemma {:induction false} BitsAdditive<V(!new)>(r: Register<V>, a: V, b: V, n: nat)
    requires Additive(r)
    ensures Bits(r, r.add(a, b), n) == r.add(Bits(r, a, n), Bits(r, b, n))
    decreases n
  {
    if n > 0 { BitsAdditive(r, r.step(a), r.step(b), n - 1); }
  }

  lemma {:induction false} BitsAdd<V>(r: Register<V>, c: V, m: nat, n: nat)
    ensures Bits(r, Bits(r, c, m), n) == Bits(r, c, m + n)
    decreases m
  {
    if m > 0 { BitsAdd(r, r.step(c), m - 1, n); }
  }

  /** What is added to the start comes out shifted past the input. */
  lemma {:induction false} FeedAdditive<V(!new)>(r: Register<V>, a: V, c: V, s: seq<V>)
    requires Additive(r)
    ensures Feed(r, r.add(a, c), s) == r.add(Bits(r, a, 8 * |s|), Feed(r, c, s))
    decreases |s|
  {
    if s != [] {
      var y := r.add(c, s[0]);
      assert r.add(r.add(a, c), s[0]) == r.add(a, y);
      BitsAdditive(r, a, y, 8);
      FeedAdditive(r, Bits(r, a, 8), Bits(r, y, 8), s[1..]);
      BitsAdd(r, a, 8, 8 * |s[1..]|);
    }
  }

  lemma {:induction false} FeedAppend<V>(r: Register<V>, c: V, s: seq<V>, t: seq<V>)
    ensures Feed(r, c, s + t) == Feed(r, Feed(r, c, s), t)
    decreases |s|
  {
    if s == [] {
      assert s + t == t;
    } else {
      assert (s + t)[1..] == s[1..] + t;
      FeedAppend(r, Bits(r, r.add(c, s[0]), 8), s[1..], t);
    }
  }

  // ---- Eight bits at a time -------------------------------------------------------------

  /**
   How contents fall into bytes: `low` and `down` are the lowest byte and what is above it moved
   down, `up` is what is above it left in place, and `join` puts a byte under a value.
   */
  datatype Bytes<!V> = Bytes(zero: V, low: V -> V, up: V -> V, down: V -> V, join: (V, V) -> V, isByte: V -> bool)

  ghost predicate Splits<V(!new)>(r: Register<V>, y: Bytes<V>) {
    && (forall c {:trigger y.low(c)} :: c == r.add(y.low(c), y.up(c)))
    && (forall c {:trigger y.up(c)} :: Bits(r, y.up(c), 8) == y.down(c))
  }

  ghost predicate Swaps<V(!new)>(r: Register<V>, y: Bytes<V>) {
    && (forall c, b {:trigger r.add(y.up(c), b)} :: r.add(y.up(c), b) == r.add(b, y.up(c)))
    && (forall c {:trigger r.add(c, y.zero)} :: r.add(c, y.zero) == c)
  }

  ghost predicate JoinLaw<V>(r: Register<V>, y: Bytes<V>, c: V, b: V, w: V) {
    y.isByte(b) ==>
      && y.low(r.add(c, y.join(b, w))) == r.add(y.low(c), b)
      && y.down(r.add(c, y.join(b, w))) == r.add(y.down(c), w)
  }

  ghost predicate Joins<V(!new)>(r: Register<V>, y: Bytes<V>) {
    forall c, b, w {:trigger r.add(c, y.join(b, w))} :: JoinLaw(r, y, c, b, w)
  }

  ghost predicate Bytewise<V(!new)>(r: Register<V>, y: Bytes<V>) {
    Additive(r) && Splits(r, y) && Swaps(r, y) && Joins(r, y)
  }

  lemma SplitFirst<V(!new)>(r: Register<V>, y: Bytes<V>, c: V, b: V)
    requires Bytewise(r, y)
    ensures r.add(c, b) == r.add(r.add(y.low(c), b), y.up(c)) && Bits(r, y.up(c), 8) == y.down(c)
  {
    var lo, hi := y.low(c), y.up(c);
    assert r.add(r.add(lo, hi), b) == r.add(lo, r.add(hi, b));
    assert r.add(r.add(lo, b), hi) == r.add(lo, r.add(b, hi));
  }

  lemma FeedFirst<V(!new)>(r: Register<V>, c: V, b: V, t: seq<V>, x: V, hi: V)
    requires Additive(r) && r.add(c, b) == r.add(x, hi)
    ensures Feed(r, c, [b] + t) == r.add(Bits(r, x, 8 * (|t| + 1)), Feed(r, Bits(r, hi, 8), t))
  {
    BitsAdditive(r, x, hi, 8);
    assert ([b] + t)[1..] == t;
    FeedAdditive(r, Bits(r, x, 8), Bits(r, hi, 8), t);
    BitsAdd(r, x, 8, 8 * |t|);
  }

  /** The first byte peeled off, together with the low byte of the register. */
  lemma Peel<V(!new)>(r: Register<V>, y: Bytes<V>, c: V, b: V, t: seq<V>)
    requires Bytewise(r, y)
    ensures Feed(r, c, [b] + t) == r.add(Bits(r, r.add(y.low(c), b), 8 * (|t| + 1)), Feed(r, y.down(c), t))
  {
    SplitFirst(r, y, c, b);
    FeedFirst(r, c, b, t, r.add(y.low(c), b), y.up(c));
  }

  lemma PeelOne<V(!new)>(r: Register<V>, y: Bytes<V>, c: V, b: V)
    requires Bytewise(r, y)
    ensures Feed(r, c, [b]) == r.add(Bits(r, r.add(y.low(c), b), 8), y.down(c))
  {
    Peel(r, y, c, b, []);
    assert [b] + [] == [b];
  }

  /** Eight zero bits act through the low byte only. */
  lemma ZeroByte<V(!new)>(r: Register<V>, y: Bytes<V>, c: V)
    requires Bytewise(r, y)
    ensures Bits(r, c, 8) == r.add(Bits(r, y.low(c), 8), y.down(c))
  {
    assert c == r.add(y.low(c), y.up(c));
    BitsAdditive(r, y.low(c), y.up(c), 8);
  }

  function Word<V>(y: Bytes<V>, s: seq<V>): V {
    if s == [] then y.zero else y.join(s[0], Word(y, s[1..]))
  }

  /** The sum of what each byte of `x` comes to when the lowest is followed by `k` - 1 more. */
  function Slices<V>(r: Register<V>, y: Bytes<V>, x: V, k: nat): V
    decreases k, x
  {
    if k == 0 then x else r.add(Bits(r, y.low(x), 8 * k), Slices(r, y, y.down(x), k - 1))
  }

  /** Feeding bytes is slicing the sum of the register and the word they make. */
  lemma {:induction false} Slicing<V(!new)>(r: Register<V>, y: Bytes<V>, c: V, s: seq<V>)
    requires Bytewise(r, y) && forall b | b in s :: y.isByte(b)
    ensures Feed(r, c, s) == Slices(r, y, r.add(c, Word(y, s)), |s|)
    decreases |s|
  {
    if s != [] {
      var b, t := s[0], s[1..];
      assert s == [b] + t;
      Peel(r, y, c, b, t);
      Slicing(r, y, y.down(c), t);
    }
  }

  /** The slices added up from the left, as an expression lists them. */
  function SlicesFrom<V>(r: Register<V>, y: Bytes<V>, acc: V, x: V, k: nat): V
    decreases k, x
  {
    if k == 0 then r.add(acc, x) else SlicesFrom(r, y, r.add(acc, Bits(r, y.low(x), 8 * k)), y.down(x), k - 1)
  }

  lemma {:induction false} SlicesLeft<V(!new)>(r: Register<V>, y: Bytes<V>, acc: V, x: V, k: nat)
    requires Additive(r)
    ensures SlicesFrom(r, y, acc, x, k) == r.add(acc, Slices(r, y, x, k))
    decreases k
  {
    if k > 0 { SlicesLeft(r, y, r.add(acc, Bits(r, y.low(x), 8 * k)), y.down(x), k - 1); }
  }

  lemma SlicingLeft<V(!new)>(r: Register<V>, y: Bytes<V>, c: V, s: seq<V>)
    requires Bytewise(r, y) && s != [] && forall b | b in s :: y.isByte(b)
    ensures var x, k := r.add(c, Word(y, s)), |s|;
            Feed(r, c, s) == SlicesFrom(r, y, Bits(r, y.low(x), 8 * k), y.down(x), k - 1)
  {
    var x, k := r.add(c, Word(y, s)), |s|;
    Slicing(r, y, c, s);
    SlicesLeft(r, y, Bits(r, y.low(x), 8 * k), y.down(x), k - 1);
  }

  // ---- Operators as matrices -----------------------------------------------------------

  /** `acc` and the rows of `mat` that `bits` selects, added up. */
  function Combine<V>(r: Register<V>, acc: V, mat: seq<V>, bits: seq<bool>): V
    requires |bits| <= |mat|
    decreases |bits|
  {
    if bits == [] then acc
    else Combine(r, if bits[0] then r.add(acc, mat[0]) else acc, mat[1..], bits[1..])
  }

  /** Rows shifted by `n` combine to what the rows combine to, shifted by `n`. */
  lemma {:induction false} CombineShifted<V(!new)>(r: Register<V>, acc: V, rows: seq<V>, mat: seq<V>, bits: seq<bool>, n: nat)
    requires Additive(r) && |bits| <= |rows| == |mat|
    requires forall j :: 0 <= j < |rows| ==> mat[j] == Bits(r, rows[j], n)
    ensures Combine(r, Bits(r, acc, n), mat, bits) == Bits(r, Combine(r, acc, rows, bits), n)
    decreases |bits|
  {
    if bits != [] {
      BitsAdditive(r, acc, rows[0], n);
      CombineShifted(r, if bits[0] then r.add(acc, rows[0]) else acc, rows[1..], mat[1..], bits[1..], n);
    }
  }
}
