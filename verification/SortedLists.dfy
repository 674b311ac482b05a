/** The set algorithms over lists in order, as they walk them, and what they select. */
module SortedLists {
  function Meet(a: seq<nat>, b: seq<nat>): seq<nat>
    decreases |a| + |b|
  {
    if a == [] || b == [] then []
    else if a[0] < b[0] then Meet(a[1..], b)
    else if b[0] < a[0] then Meet(a, b[1..])
    else [a[0]] + Meet(a[1..], b[1..])
  }

  function Join(a: seq<nat>, b: seq<nat>): seq<nat>
    decreases |a| + |b|
  {
    if a == [] then b
    else if b == [] then a
    else if b[0] < a[0] then [b[0]] + Join(a, b[1..])
    else if a[0] < b[0] then [a[0]] + Join(a[1..], b)
    else [a[0]] + Join(a[1..], b[1..])
  }

  function Without(a: seq<nat>, b: seq<nat>): seq<nat>
    decreases |a| + |b|
  {
    if a == [] then []
    else if b == [] then a
    else if a[0] < b[0] then [a[0]] + Without(a[1..], b)
    else if b[0] < a[0] then Without(a, b[1..])
    else Without(a[1..], b[1..])
  }

  /** Each run of equal values once. */
  function Unique(a: seq<nat>): seq<nat> {
    if |a| <= 1 then a else if a[0] == a[1] then Unique(a[1..]) else [a[0]] + Unique(a[1..])
  }

  // ---- What they select ------------------------------------------------------------------------

  predicate Increasing(a: seq<nat>) { forall i, j :: 0 <= i < j < |a| ==> a[i] < a[j] }

  /** In order, with values possibly repeated. */
  predicate Rising(a: seq<nat>) { forall i, j :: 0 <= i < j < |a| ==> a[i] <= a[j] }

  /** All of `a` is above `x`. */
  ghost predicate Above(x: nat, a: seq<nat>) { forall y :: y in a ==> x < y }

  /** None of `a` is below `x`. */
  ghost predicate From(x: nat, a: seq<nat>) { forall y :: y in a ==> x <= y }

  lemma FirstIsLeast(a: seq<nat>)
    requires a != [] && Increasing(a)
    ensures Above(a[0], a[1..]) && Increasing(a[1..]) && a == [a[0]] + a[1..]
  {
  }

  lemma FirstIsLow(a: seq<nat>)
    requires a != [] && Rising(a)
    ensures From(a[0], a[1..]) && Rising(a[1..]) && a == [a[0]] + a[1..]
  {
  }

  lemma PutInFront(x: nat, a: seq<nat>)
    requires From(x, a) && Rising(a)
    ensures Rising([x] + a)
  {
    assert forall i :: 0 <= i < |a| ==> a[i] in a;
  }

  lemma PutBelow(x: nat, a: seq<nat>)
    requires Above(x, a) && Increasing(a)
    ensures Increasing([x] + a)
  {
    assert forall i :: 0 <= i < |a| ==> a[i] in a;
  }

  lemma NotBelow(x: nat, y: nat, a: seq<nat>)
    requires x <= y && Above(y, a)
    ensures x !in a && Above(x, a)
  {
  }

  lemma Lower(x: nat, y: nat, a: seq<nat>)
    requires x < y && From(y, a)
    ensures x !in a && Above(x, a)
  {
  }

  /** Members of both. */
  lemma {:induction false} MeetIs(a: seq<nat>, b: seq<nat>)
    requires Rising(a) && Rising(b)
    ensures Rising(Meet(a, b)) && forall x :: x in Meet(a, b) <==> x in a && x in b
    decreases |a| + |b|
  {
    if a != [] && b != [] {
      var x, y, a', b' := a[0], b[0], a[1..], b[1..];
      FirstIsLow(a);
      FirstIsLow(b);
      if x < y {
        MeetIs(a', b);
        Lower(x, y, b');
      } else if y < x {
        MeetIs(a, b');
        Lower(y, x, a');
      } else {
        MeetIs(a', b');
        PutInFront(x, Meet(a', b'));
      }
    }
  }

  lemma IncreasingRises(a: seq<nat>)
    requires Increasing(a)
    ensures Rising(a)
  {
  }

  /** No value is repeated if one list repeats none: the first. */
  lemma {:induction false} MeetOnce(a: seq<nat>, b: seq<nat>)
    requires Increasing(a) && Rising(b)
    ensures Increasing(Meet(a, b))
    decreases |a| + |b|
  {
    if a != [] && b != [] {
      var x, y, a', b' := a[0], b[0], a[1..], b[1..];
      FirstIsLeast(a);
      FirstIsLow(b);
      IncreasingRises(a');
      if x < y {
        MeetOnce(a', b);
      } else if y < x {
        MeetOnce(a, b');
      } else {
        MeetOnce(a', b');
        MeetIs(a', b');
        PutBelow(x, Meet(a', b'));
      }
    }
  }

  lemma {:induction false} MeetSwaps(a: seq<nat>, b: seq<nat>)
    ensures Meet(a, b) == Meet(b, a)
    decreases |a| + |b|
  {
    if a != [] && b != [] {
      if a[0] < b[0] { MeetSwaps(a[1..], b); } else if b[0] < a[0] { MeetSwaps(a, b[1..]); } else { MeetSwaps(a[1..], b[1..]); }
    }
  }

  /** Members of either. */
  lemma {:induction false} JoinIs(a: seq<nat>, b: seq<nat>)
    requires Rising(a) && Rising(b)
    ensures Rising(Join(a, b)) && forall x :: x in Join(a, b) <==> x in a || x in b
    decreases |a| + |b|
  {
    if a != [] && b != [] {
      var x, y, a', b' := a[0], b[0], a[1..], b[1..];
      FirstIsLow(a);
      FirstIsLow(b);
      if y < x {
        JoinIs(a, b');
        PutInFront(y, Join(a, b'));
      } else if x < y {
        JoinIs(a', b);
        PutInFront(x, Join(a', b));
      } else {
        JoinIs(a', b');
        PutInFront(x, Join(a', b'));
      }
    }
  }

  /** Members of the first that are not in the second. */
  lemma {:induction false} WithoutIs(a: seq<nat>, b: seq<nat>)
    requires Increasing(a) && Rising(b)
    ensures Increasing(Without(a, b)) && forall x :: x in Without(a, b) <==> x in a && x !in b
    decreases |a| + |b|
  {
    if a != [] && b != [] {
      var x, y, a', b' := a[0], b[0], a[1..], b[1..];
      FirstIsLeast(a);
      FirstIsLow(b);
      if x < y {
        WithoutIs(a', b);
        Lower(x, y, b');
        PutBelow(x, Without(a', b));
      } else if y < x {
        WithoutIs(a, b');
        NotBelow(y, x, a');
      } else {
        WithoutIs(a', b');
        NotBelow(x, x, a');
      }
    }
  }

  /** The same members, each once. */
  lemma {:induction false} UniqueIs(a: seq<nat>)
    requires Rising(a)
    ensures Increasing(Unique(a)) && forall x :: x in Unique(a) <==> x in a
  {
    if |a| > 1 {
      var x, b := a[0], a[1..];
      FirstIsLow(a);
      UniqueIs(b);
      if x != b[0] {
        FirstIsLow(b);
        Lower(x, b[0], b[1..]);
        PutBelow(x, Unique(b));
      }
    }
  }

  /** Two increasing lists with the same members are the same list. */
  lemma {:induction false} SameMembers(a: seq<nat>, b: seq<nat>)
    requires Increasing(a) && Increasing(b) && forall x :: x in a <==> x in b
    ensures a == b
    decreases |a|
  {
    if a == [] {
      assert forall i :: 0 <= i < |b| ==> b[i] in b;
    } else {
      assert a[0] in a;
      FirstIsLeast(a);
      FirstIsLeast(b);
      assert b[0] in b;
      if a[0] < b[0] { NotBelow(a[0], b[0], b[1..]); }
      if b[0] < a[0] { NotBelow(b[0], a[0], a[1..]); }
      NotBelow(a[0], a[0], a[1..]);
      NotBelow(b[0], b[0], b[1..]);
      forall x ensures x in a[1..] <==> x in b[1..] {
        assert x in a[1..] <==> x in a && x != a[0];
        assert x in b[1..] <==> x in b && x != b[0];
      }
      SameMembers(a[1..], b[1..]);
    }
  }
}
