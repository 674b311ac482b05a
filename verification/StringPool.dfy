/** Strings kept end to end in bins and named by where they start: `StringPool`. */
module StringPools {
  import opened Bytes

  const MAX_BIN_SIZE := 0x1000 * 0x1000

  /** What `strlen` finds: the bytes before the first zero. */
  function UpToZero(w: bytes): bytes { if w == [] || w[0] == 0 then [] else [w[0]] + UpToZero(w[1..]) }

  lemma {:induction false} UpToZeroOf(s: bytes, rest: bytes)
    ensures UpToZero(s + [0] + rest) == UpToZero(s)
    ensures 0 !in s ==> UpToZero(s) == s
    decreases |s|
  {
    if s == [] {
      assert (s + [0] + rest)[0] == 0;
    } else {
      assert (s + [0] + rest)[1..] == s[1..] + [0] + rest;
      UpToZeroOf(s[1..], rest);
    }
  }

  /** A string is found again exactly when it has no zero in it. */
  lemma {:induction false} FoundAgain(s: bytes)
    ensures UpToZero(s) == s <==> 0 !in s
  {
    if s != [] { FoundAgain(s[1..]); }
  }

  /** Bin numbers count from one. */
  function Id(bin: nat, offset: nat): nat { bin * MAX_BIN_SIZE + offset }

  lemma IdParts(bin: nat, offset: nat)
    requires offset < MAX_BIN_SIZE
    ensures Id(bin, offset) / MAX_BIN_SIZE == bin && Id(bin, offset) % MAX_BIN_SIZE == offset
  {
  }

  ghost predicate Holds(pool: seq<bytes>, id: nat, s: bytes) {
    var bin, offset := id / MAX_BIN_SIZE, id % MAX_BIN_SIZE;
    1 <= bin <= |pool| && offset + |s| < |pool[bin - 1]| && pool[bin - 1][offset..offset + |s| + 1] == s + [0]
  }

  /** Bytes behind those of a bin leave what the pool holds where it is. */
  lemma StillHolds(pool: seq<bytes>, pool': seq<bytes>, id: nat, s: bytes)
    requires Holds(pool, id, s) && |pool| <= |pool'| && forall i :: 0 <= i < |pool| ==> pool[i] <= pool'[i]
    ensures Holds(pool', id, s)
  {
    var bin, offset := id / MAX_BIN_SIZE, id % MAX_BIN_SIZE;
    var b, b' := pool[bin - 1], pool'[bin - 1];
    assert b <= b';
    assert b'[..|b|] == b;
    assert b'[offset..offset + |s| + 1] == b[offset..offset + |s| + 1];
  }

  /** Below every id still to be given. */
  ghost predicate Below(pool: seq<bytes>, id: nat) {
    id < Id(|pool| + 1, 0) && (pool != [] ==> id < Id(|pool|, |pool[|pool| - 1]|))
  }

  /** Every string ever added is where its id says. */
  ghost predicate Kept(pool: seq<bytes>, given: map<nat, bytes>) {
    forall id :: id in given ==> Holds(pool, id, given[id]) && Below(pool, id)
  }

  lemma KeptInNewBin(pool: seq<bytes>, given: map<nat, bytes>)
    requires Kept(pool, given)
    ensures Kept(pool + [[]], given)
  {
    forall id | id in given ensures Holds(pool + [[]], id, given[id]) && Below(pool + [[]], id) {
      StillHolds(pool, pool + [[]], id, given[id]);
    }
  }

  lemma NewHeld(pool: seq<bytes>, s: bytes, id: nat)
    requires pool != [] && id == Id(|pool|, |pool[|pool| - 1]|) && |pool[|pool| - 1]| < MAX_BIN_SIZE
    ensures var pool' := pool[|pool| - 1 := pool[|pool| - 1] + s + [0]]; Holds(pool', id, s) && Below(pool', id)
  {
    var bin := pool[|pool| - 1];
    IdParts(|pool|, |bin|);
    assert (bin + s + [0])[|bin|..|bin| + |s| + 1] == s + [0];
  }

  lemma KeptMore(pool: seq<bytes>, given: map<nat, bytes>, s: bytes, id: nat)
    requires Kept(pool, given) && pool != [] && id == Id(|pool|, |pool[|pool| - 1]|) && |pool[|pool| - 1]| < MAX_BIN_SIZE
    ensures Kept(pool[|pool| - 1 := pool[|pool| - 1] + s + [0]], given[id := s])
    ensures forall i :: i in given ==> i < id
  {
    var pool' := pool[|pool| - 1 := pool[|pool| - 1] + s + [0]];
    NewHeld(pool, s, id);
    forall i | i in given ensures Holds(pool', i, given[i]) && Below(pool', i) && i < id {
      StillHolds(pool, pool', i, given[i]);
    }
  }

  class StringPool {
    var pool: seq<bytes>
    var counter: nat
    ghost var given: map<nat, bytes>

    ghost predicate Valid()
      reads this
    {
      Kept(pool, given)
    }

    constructor ()
      ensures Valid() && given == map[] && counter == 0
    {
      pool, counter, given := [], 0, map[];
    }

    method NewBin()
      requires Valid()
      modifies this`pool
      ensures Valid() && pool == old(pool) + [[]]
    {
      KeptInNewBin(pool, given);
      pool := pool + [[]];
    }

    /** Ids are not zero and only grow; strings added before stay. */
    method Add(s: bytes) returns (id: nat)
      requires Valid() && s != []
      modifies this
      ensures Valid() && id != 0 && (forall i :: i in old(given) ==> i < id)
      ensures given == old(given)[id := s] && counter == old(counter) + 1
    {
      if pool == [] { NewBin(); }
      var bin := pool[|pool| - 1];
      if |bin| + |s| + 1 > MAX_BIN_SIZE {
        NewBin();
        bin := [];
      }
      id := Id(|pool|, |bin|);
      KeptMore(pool, given, s, id);
      pool := pool[|pool| - 1 := bin + s + [0]];
      counter := counter + 1;
      given := given[id := s];
    }

    /** `str`: nothing for an id outside the pool. */
    method Str(id: nat) returns (found: bool, s: bytes)
      requires id >= MAX_BIN_SIZE
      ensures found <==> id / MAX_BIN_SIZE <= |pool| && id % MAX_BIN_SIZE < |pool[id / MAX_BIN_SIZE - 1]|
      ensures Valid() && id in given ==> found && s == UpToZero(given[id])
      ensures !found ==> s == []
    {
      var ix, offset := id / MAX_BIN_SIZE, id % MAX_BIN_SIZE;
      if ix <= |pool| && offset < |pool[ix - 1]| {
        s := StrLen(pool[ix - 1], offset);
        if Valid() && id in given { HeldString(pool, id, given[id]); }
        return true, s;
      }
      return false, [];
    }

    method StrLen(bin: bytes, offset: nat) returns (s: bytes)
      requires offset <= |bin|
      ensures s == UpToZero(bin[offset..])
    {
      var i := offset;
      while i < |bin| && bin[i] != 0
        invariant offset <= i <= |bin|
        invariant UpToZero(bin[offset..]) == bin[offset..i] + UpToZero(bin[i..])
      {
        assert bin[i..][1..] == bin[i + 1..];
        Assoc(bin[offset..i], [bin[i]], UpToZero(bin[i + 1..]));
        assert bin[offset..i] + [bin[i]] == bin[offset..i + 1];
        i := i + 1;
      }
      assert bin[offset..i] + [] == bin[offset..i];
      s := bin[offset..i];
    }
  }

  lemma HeldString(pool: seq<bytes>, id: nat, s: bytes)
    requires Holds(pool, id, s)
    ensures UpToZero(pool[id / MAX_BIN_SIZE - 1][id % MAX_BIN_SIZE..]) == UpToZero(s)
  {
    var b, offset := pool[id / MAX_BIN_SIZE - 1], id % MAX_BIN_SIZE;
    var rest := b[offset + |s| + 1..];
    assert b[offset..] == b[offset..offset + |s| + 1] + rest;
    UpToZeroOf(s, rest);
  }
}
