/** The hash under which the index keeps strings: Dan Bernstein's djb2, modulo 2^64. */
module StringTools {
  import opened Bytes

  const SEED := 5381

  function Djb2Step(h: nat, b: byte): nat { (h * 33 + Signed(b)) % TWO64 }

  function Djb2From(h: nat, w: bytes): nat
    decreases |w|
  {
    if w == [] then h else Djb2From(Djb2Step(h, w[0]), w[1..])
  }

  function Djb2(w: bytes): nat { Djb2From(SEED, w) }

  /** `StringTools::hash`. */
  method Hash(w: bytes) returns (h: nat)
    ensures h == Djb2(w)
  {
    h := SEED;
    var i := 0;
    assert w[0..] == w;
    while i < |w|
      invariant 0 <= i <= |w| && Djb2From(h, w[i..]) == Djb2(w)
    {
      assert w[i..][1..] == w[i + 1..];
      h := (h * 33 + Signed(w[i])) % TWO64;
      i := i + 1;
    }
  }

  lemma {:induction false} Djb2Plus(h: nat, x: bytes, y: bytes)
    ensures Djb2From(h, x + y) == Djb2From(Djb2From(h, x), y)
    decreases |x|
  {
    if x == [] {
      assert x + y == y;
    } else {
      assert (x + y)[1..] == x[1..] + y;
      Djb2Plus(Djb2Step(h, x[0]), x[1..], y);
    }
  }

  lemma TwoSteps(h: nat, b: byte, c: byte)
    ensures Djb2Step(Djb2Step(h, b), c) == (h * 1089 + Signed(b) * 33 + Signed(c)) % TWO64
  {
    var x := h * 33 + Signed(b);
    ModShift(x % TWO64 * 33 + Signed(c), x / TWO64 * 33);
    assert x % TWO64 * 33 + Signed(c) + TWO64 * (x / TWO64 * 33) == x * 33 + Signed(c);
  }

  const AZ: bytes := [0x61, 0x7a]
  const BY: bytes := [0x62, 0x59]

  /** Texts that differ only in ending with `az` or with `bY` have the same hash. */
  lemma AlwaysCollide(x: bytes)
    ensures x + AZ != x + BY && Djb2(x + AZ) == Djb2(x + BY)
  {
    Djb2Plus(SEED, x, AZ);
    Djb2Plus(SEED, x, BY);
    TwoSteps(Djb2(x), AZ[0], AZ[1]);
    TwoSteps(Djb2(x), BY[0], BY[1]);
    assert AZ[1..][1..] == [] && BY[1..][1..] == [];
    assert (x + AZ)[|x|] != (x + BY)[|x|];
  }
}
