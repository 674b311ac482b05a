/** Machine words as natural numbers: exclusive or, and how it meets shifts and masks. */
module Words {
  function Xor(a: nat, b: nat): nat
    decreases a + b
  {
    if a == 0 then b
    else if b == 0 then a
    else 2 * Xor(a / 2, b / 2) + (if a % 2 == b % 2 then 0 else 1)
  }

  lemma XorStep(a: nat, b: nat)
    ensures Xor(a, b) / 2 == Xor(a / 2, b / 2)
    ensures Xor(a, b) % 2 == if a % 2 == b % 2 then 0 else 1
  {
  }

  /** A number is its half and its last bit. */
  lemma SameHalves(x: nat, y: nat)
    requires x / 2 == y / 2 && x % 2 == y % 2
    ensures x == y
  {
  }

  lemma {:induction false} XorComm(a: nat, b: nat)
    ensures Xor(a, b) == Xor(b, a)
    decreases a + b
  {
    if a != 0 && b != 0 { XorComm(a / 2, b / 2); }
  }

  lemma {:induction false} XorAssoc(a: nat, b: nat, c: nat)
    ensures Xor(Xor(a, b), c) == Xor(a, Xor(b, c))
    decreases a + b + c
  {
    if a != 0 && b != 0 && c != 0 {
      XorAssoc(a / 2, b / 2, c / 2);
      XorStep(a, b);
      XorStep(b, c);
      XorStep(Xor(a, b), c);
      XorStep(a, Xor(b, c));
      SameHalves(Xor(Xor(a, b), c), Xor(a, Xor(b, c)));
    }
  }

  lemma {:induction false} XorSelf(a: nat)
    ensures Xor(a, a) == 0
  {
    if a != 0 { XorSelf(a / 2); }
  }

  lemma XorCancel(a: nat, b: nat)
    ensures Xor(Xor(a, b), b) == a
  {
    XorAssoc(a, b, b);
    XorSelf(b);
  }

  // ---- Bits of a word -------------------------------------------------------------

  /** `x >> n`. */
  function Shr(x: nat, n: nat): nat
    decreases n, x
  {
    if n == 0 then x else Shr(x / 2, n - 1)
  }

  /** The low `n` bits of `x`. */
  function Lo(x: nat, n: nat): nat
    decreases n, x
  {
    if n == 0 then 0 else 2 * Lo(x / 2, n - 1) + x % 2
  }

  /** `x << n`. */
  function Shl(x: nat, n: nat): nat
    decreases n, x
  {
    if n == 0 then x else 2 * Shl(x, n - 1)
  }

  lemma {:induction false} XorShr(a: nat, b: nat, n: nat)
    ensures Shr(Xor(a, b), n) == Xor(Shr(a, n), Shr(b, n))
    decreases n
  {
    if n > 0 {
      XorStep(a, b);
      XorShr(a / 2, b / 2, n - 1);
    }
  }

  lemma LoStep(x: nat, n: nat)
    requires n > 0
    ensures Lo(x, n) / 2 == Lo(x / 2, n - 1) && Lo(x, n) % 2 == x % 2
  {
  }

  lemma ShlStep(x: nat, n: nat)
    requires n > 0
    ensures Shl(x, n) / 2 == Shl(x, n - 1) && Shl(x, n) % 2 == 0
  {
  }

  lemma {:induction false} XorLo(a: nat, b: nat, n: nat)
    ensures Lo(Xor(a, b), n) == Xor(Lo(a, n), Lo(b, n))
    decreases n
  {
    if n > 0 {
      XorStep(a, b);
      XorLo(a / 2, b / 2, n - 1);
      LoStep(a, n);
      LoStep(b, n);
      LoStep(Xor(a, b), n);
      XorStep(Lo(a, n), Lo(b, n));
      SameHalves(Lo(Xor(a, b), n), Xor(Lo(a, n), Lo(b, n)));
    }
  }

  lemma {:induction false} LoAndShr(x: nat, n: nat)
    ensures x == Xor(Lo(x, n), Shl(Shr(x, n), n))
    decreases n
  {
    if n > 0 {
      LoAndShr(x / 2, n - 1);
      LoStep(x, n);
      ShlStep(Shr(x, n), n);
      XorStep(Lo(x, n), Shl(Shr(x, n), n));
      SameHalves(x, Xor(Lo(x, n), Shl(Shr(x, n), n)));
    }
  }

  lemma Two(x: nat, n: nat)
    requires n >= 2
    ensures Shr(x, n) == Shr(x / 4, n - 2) && Lo(x, n) == 4 * Lo(x / 4, n - 2) + x % 4 && Shl(x, n) == 4 * Shl(x, n - 2)
  {
    assert Shr(x, n) == Shr(x / 2, n - 1) == Shr(x / 2 / 2, n - 2);
    assert Lo(x, n) == 2 * Lo(x / 2, n - 1) + x % 2;
    assert Lo(x / 2, n - 1) == 2 * Lo(x / 2 / 2, n - 2) + x / 2 % 2;
    assert Shl(x, n) == 2 * Shl(x, n - 1) == 2 * (2 * Shl(x, n - 2));
  }

  lemma Four(x: nat, n: nat)
    requires n >= 4
    ensures Shr(x, n) == Shr(x / 16, n - 4) && Lo(x, n) == 16 * Lo(x / 16, n - 4) + x % 16 && Shl(x, n) == 16 * Shl(x, n - 4)
  {
    Two(x, n);
    Two(x / 4, n - 2);
    Two(x, n - 2);
  }

  lemma Eight(x: nat)
    ensures Shr(x, 8) == x / 256 && Lo(x, 8) == x % 256 && Shl(x, 8) == 256 * x
  {
    Four(x, 8);
    Four(x / 16, 4);
    Four(x, 4);
  }

  /** Shifting a byte out, and the byte shifted out, both distribute over the sum. */
  lemma XorByte(a: nat, b: nat)
    ensures Xor(a, b) / 256 == Xor(a / 256, b / 256) && Xor(a, b) % 256 == Xor(a % 256, b % 256)
  {
    XorShr(a, b, 8);
    XorLo(a, b, 8);
    Eight(a);
    Eight(b);
    Eight(Xor(a, b));
  }

  lemma XorLowByte(c: nat, b: nat)
    requires b < 256
    ensures Xor(c, b) % 256 == Xor(c % 256, b)
  {
    XorByte(c, b);
  }

  lemma Parts(b: nat, w: nat, x: nat)
    requires b < 256 && x == b + 256 * w
    ensures x % 256 == b && x / 256 == w
  {
  }

  lemma XorWords(c: nat, b: nat, w: nat, x: nat)
    requires b < 256 && x == b + 256 * w
    ensures Xor(c, x) % 256 == Xor(c % 256, b) && Xor(c, x) / 256 == Xor(c / 256, w)
  {
    Parts(b, w, x);
    XorByte(c, x);
  }

  lemma LowByteAndRest(x: nat)
    ensures x == Xor(x % 256, 256 * (x / 256))
  {
    LoAndShr(x, 8);
    Eight(x);
    Eight(x / 256);
  }

  // ---- Widths ------------------------------------------------------------------------

  lemma {:induction false} ShrAdd(x: nat, m: nat, n: nat)
    ensures Shr(Shr(x, m), n) == Shr(x, m + n)
    decreases m
  {
    if m > 0 { ShrAdd(x / 2, m - 1, n); }
  }

  lemma {:induction false} ShrZero(n: nat)
    ensures Shr(0, n) == 0
  {
    if n > 0 { ShrZero(n - 1); }
  }

  lemma ShrByte(x: nat, n: nat)
    ensures Shr(x, 8 + n) == Shr(x / 256, n)
  {
    ShrAdd(x, 8, n);
    Eight(x);
  }

  /** `x` is a 32-bit word: nothing is left above bit 31. */
  predicate Is32(x: nat) { Shr(x, 32) == 0 }

  lemma Below32(x: nat)
    requires x < 0x1_0000_0000
    ensures Is32(x)
  {
    var x1 := x / 256;
    var x2 := x1 / 256;
    var x3 := x2 / 256;
    Eight(x);
    Eight(x1);
    Eight(x2);
    Eight(x3);
    ShrAdd(x, 8, 24);
    ShrAdd(x1, 8, 16);
    ShrAdd(x2, 8, 8);
    assert x3 / 256 == 0;
  }

  lemma XorIs32(a: nat, b: nat)
    requires Is32(a) && Is32(b)
    ensures Is32(Xor(a, b))
  {
    XorShr(a, b, 32);
  }
}
