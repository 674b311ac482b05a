/** Bytes, little-endian reads and optional values, shared by all modules. */
module Bytes {
  type byte = x: int | 0 <= x < 256

  type bytes = seq<byte>

  const TWO64 := 0x1_0000_0000_0000_0000
  const EQUALS: byte := 0x3d

  datatype Option<+T> = None | Some(value: T)

  /** A byte as a signed character. */
  function Signed(b: byte): int { if b < 128 then b else b - 256 }

  function LE16(lo: byte, hi: byte): (r: nat)
    ensures r < 65536
  {
    lo + 256 * hi
  }

  lemma LE16Bytes(lo: byte, hi: byte)
    ensures LE16(lo, hi) % 256 == lo && LE16(lo, hi) / 256 == hi
  {
  }

  lemma ModIs(x: int, q: int, r: int)
    requires x == TWO64 * q + r && 0 <= r < TWO64
    ensures x % TWO64 == r
  {
    assert TWO64 * (x / TWO64 - q) == r - x % TWO64;
  }

  /** A multiple of the modulus more or less does not show. */
  lemma ModShift(x: int, q: int)
    ensures x % TWO64 == (x + TWO64 * q) % TWO64
  {
    ModIs(x + TWO64 * q, x / TWO64 + q, x % TWO64);
  }

  lemma NothingBefore<T>(s: seq<T>)
    ensures [] + s == s
  {
  }

  lemma TwoParts<T>(s: seq<T>, i: nat)
    requires i <= |s|
    ensures s == s[..i] + s[i..]
  {
  }

  /** What lies in the first part of a sum is found there. */
  lemma InFirst<T>(s: seq<T>, t: seq<T>, i: nat, j: nat)
    requires i <= j <= |s|
    ensures (s + t)[i..j] == s[i..j] && (s + t)[i..] == s[i..] + t
  {
  }

  lemma Adjacent<T>(s: seq<T>, i: nat, j: nat, k: nat)
    requires i <= j <= k <= |s|
    ensures s[i..j] + s[j..k] == s[i..k]
  {
  }

  /** What lies in a beginning that two sequences share is the same in both. */
  lemma InBeginning<T>(s: seq<T>, t: seq<T>, n: nat, i: nat, j: nat)
    requires i <= j <= n <= |s| && n <= |t| && s[..n] == t[..n]
    ensures s[i..j] == t[i..j]
  {
    assert s[i..j] == s[..n][i..j] && t[i..j] == t[..n][i..j];
  }

  lemma OneMoreTaken<T>(s: seq<T>, k: nat)
    requires k < |s|
    ensures s[..k + 1] == s[..k] + [s[k]]
  {
  }

  lemma OneTaken<T>(s: seq<T>, i: nat)
    requires i < |s|
    ensures s[i..i + 1] == [s[i]]
  {
  }

  lemma FirstAndRest<T>(s: seq<T>)
    requires s != []
    ensures [s[0]] + s[1..] == s
  {
  }

  lemma ThreeParts<T>(s: seq<T>, i: nat, k: nat)
    requires i + k <= |s|
    ensures s == s[..i] + (s[i..][..k] + s[i..][k..])
  {
  }

  lemma Assoc<T>(a: seq<T>, b: seq<T>, c: seq<T>)
    ensures (a + b) + c == a + (b + c)
  {
  }
}
