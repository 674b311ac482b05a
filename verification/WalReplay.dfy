/** Recovery of rescue points from the write-ahead log: newer lists replace older ones, and replaying changes nothing. */
module WalReplay {
  import opened Bytes

  /** The addresses from which a column can be opened again. */
  type Points = seq<nat>

  function Max(a: Points): nat
    requires a != []
  {
    if |a| == 1 then a[0] else var m := Max(a[1..]); if a[0] < m then m else a[0]
  }

  /** As many addresses, and none of the old above the highest new one. */
  predicate NotOlder(d: Points, c: Points)
    requires d != [] && c != []
  {
    |c| <= |d| && Max(c) <= Max(d)
  }

  /** Whether a record of the log replaces what is known of a column; `top` is the end of the block store. */
  predicate Replaces(top: nat, cur: Option<Points>, d: Points) {
    cur.None? || (d != [] && (cur.value == [] || (NotOlder(d, cur.value) && Max(d) < top)))
  }

  function Apply(top: nat, cur: Option<Points>, d: Points): Option<Points> { if Replaces(top, cur, d) then Some(d) else cur }

  /** All records of one column. */
  function ApplyAll(top: nat, cur: Option<Points>, ds: seq<Points>): Option<Points>
    decreases |ds|
  {
    if ds == [] then cur else Apply(top, ApplyAll(top, cur, ds[..|ds| - 1]), ds[|ds| - 1])
  }

  // ---- Lists only grow -------------------------------------------------------------------------

  /** A list that is not empty gives way only to one that is not older. */
  ghost predicate Grows(cur: Option<Points>, cur': Option<Points>) {
    cur.Some? ==> cur'.Some? && (cur.value != [] ==> cur'.value != [] && NotOlder(cur'.value, cur.value))
  }

  lemma {:induction false} Monotone(top: nat, cur: Option<Points>, ds: seq<Points>)
    ensures Grows(cur, ApplyAll(top, cur, ds))
    decreases |ds|
  {
    if ds != [] { Monotone(top, cur, ds[..|ds| - 1]); }
  }

  // ---- Replaying changes nothing ---------------------------------------------------------------

  /** A record that has been seen does not say more than what is known. */
  ghost predicate Covered(top: nat, e: Points, f: Option<Points>) {
    f.Some? && (e == [] || (f.value != [] && (NotOlder(e, f.value) && Max(e) < top ==> NotOlder(f.value, e))))
  }

  lemma CoveredStays(top: nat, e: Points, g: Option<Points>, d: Points)
    requires Covered(top, e, g)
    ensures Covered(top, e, Apply(top, g, d))
  {
  }

  lemma {:induction false} AllCovered(top: nat, cur: Option<Points>, ds: seq<Points>, e: Points)
    requires e in ds
    ensures Covered(top, e, ApplyAll(top, cur, ds))
    decreases |ds|
  {
    var es, d := ds[..|ds| - 1], ds[|ds| - 1];
    var g := ApplyAll(top, cur, es);
    if e in es {
      AllCovered(top, cur, es, e);
      CoveredStays(top, e, g, d);
    } else {
      assert e == d;
    }
  }

  /** As good as `f`: the same, or of the same size and height and below the top. */
  ghost predicate Like(top: nat, s: Option<Points>, f: Option<Points>) {
    s == f || (s.Some? && f.Some? && s.value != [] && f.value != [] && NotOlder(s.value, f.value) && NotOlder(f.value, s.value) && Max(f.value) < top)
  }

  lemma {:induction false} LikeStays(top: nat, s: Option<Points>, f: Option<Points>, es: seq<Points>)
    requires Like(top, s, f) && forall e :: e in es ==> Covered(top, e, f)
    ensures Like(top, ApplyAll(top, s, es), f)
    decreases |es|
  {
    if es != [] {
      LikeStays(top, s, f, es[..|es| - 1]);
      assert Covered(top, es[|es| - 1], f);
    }
  }

  /** The same records once more leave a column as it is. */
  lemma {:induction false} Idempotent(top: nat, cur: Option<Points>, ds: seq<Points>)
    ensures ApplyAll(top, ApplyAll(top, cur, ds), ds) == ApplyAll(top, cur, ds)
    decreases |ds|
  {
    if ds != [] {
      var es, d := ds[..|ds| - 1], ds[|ds| - 1];
      var g := ApplyAll(top, cur, es);
      var f := Apply(top, g, d);
      Idempotent(top, cur, es);
      if Replaces(top, g, d) {
        forall e | e in es ensures Covered(top, e, f) {
          AllCovered(top, cur, es, e);
          CoveredStays(top, e, g, d);
        }
        LikeStays(top, f, f, es);
        if g.None? { NothingSeen(top, cur, es); }
      }
    }
  }

  /** Nothing is known of a column only if there was no record of it. */
  lemma NothingSeen(top: nat, cur: Option<Points>, es: seq<Points>)
    requires ApplyAll(top, cur, es).None?
    ensures es == []
  {
  }

  // ---- The log ---------------------------------------------------------------------------------

  type Mapping = map<nat, Points>

  datatype Row = Row(id: nat, points: Points)

  function At(m: Mapping, id: nat): Option<Points> { if id in m then Some(m[id]) else None }

  /** One row: skipped if its series does not exist. */
  function Visit(top: nat, known: set<nat>, m: Mapping, r: Row): Mapping {
    if r.id in known && Replaces(top, At(m, r.id), r.points) then m[r.id := r.points] else m
  }

  function Replay(top: nat, known: set<nat>, m: Mapping, log: seq<Row>): Mapping
    decreases |log|
  {
    if log == [] then m else Visit(top, known, Replay(top, known, m, log[..|log| - 1]), log[|log| - 1])
  }

  /** The records of one column. */
  function RowsOf(log: seq<Row>, id: nat): seq<Points>
    decreases |log|
  {
    if log == [] then []
    else RowsOf(log[..|log| - 1], id) + (if log[|log| - 1].id == id then [log[|log| - 1].points] else [])
  }

  /** Replay works on each known column by itself and leaves the others alone. */
  lemma {:induction false} ReplayAt(top: nat, known: set<nat>, m: Mapping, log: seq<Row>, id: nat)
    ensures At(Replay(top, known, m, log), id) == if id in known then ApplyAll(top, At(m, id), RowsOf(log, id)) else At(m, id)
    decreases |log|
  {
    if log != [] {
      var rest, r := log[..|log| - 1], log[|log| - 1];
      ReplayAt(top, known, m, rest, id);
      var ds := RowsOf(rest, id);
      if r.id == id {
        assert (ds + [r.points])[..|ds|] == ds;
      } else {
        assert ds + [] == ds;
      }
    }
  }

  /** Over any log, the list of a column that is not empty never shrinks and its highest address never falls. */
  lemma ReplayMonotone(top: nat, known: set<nat>, m: Mapping, log: seq<Row>, id: nat)
    requires id in m && m[id] != []
    ensures var m' := Replay(top, known, m, log); id in m' && m'[id] != [] && |m[id]| <= |m'[id]| && Max(m[id]) <= Max(m'[id])
  {
    ReplayAt(top, known, m, log, id);
    Monotone(top, At(m, id), RowsOf(log, id));
  }

  /** Replaying a log on its own result changes nothing. */
  lemma ReplayIdempotent(top: nat, known: set<nat>, m: Mapping, log: seq<Row>)
    ensures Replay(top, known, Replay(top, known, m, log), log) == Replay(top, known, m, log)
  {
    var m1 := Replay(top, known, m, log);
    var m2 := Replay(top, known, m1, log);
    forall id ensures At(m2, id) == At(m1, id) {
      ReplayAt(top, known, m, log, id);
      ReplayAt(top, known, m1, log, id);
      Idempotent(top, At(m, id), RowsOf(log, id));
    }
    SameMap(m1, m2);
  }

  lemma SameMap(a: Mapping, b: Mapping)
    requires forall id :: At(a, id) == At(b, id)
    ensures a == b
  {
    forall id ensures id in a <==> id in b { assert At(a, id) == At(b, id); }
    forall id | id in a ensures a[id] == b[id] { assert At(a, id) == At(b, id); }
  }

  // ---- In place --------------------------------------------------------------------------------

  method MaxElement(a: Points) returns (m: nat)
    requires a != []
    ensures m == Max(a)
  {
    var i := |a| - 1;
    m := a[i];
    while i > 0
      invariant 0 <= i < |a| && m == Max(a[i..])
    {
      i := i - 1;
      assert a[i..][1..] == a[i + 1..];
      if m <= a[i] { m := a[i]; }
    }
    assert a[0..] == a;
  }

  class Recovery {
    const top: nat
    const known: set<nat>
    var mapping: Mapping

    constructor (t: nat, k: set<nat>, m: Mapping)
      ensures top == t && known == k && mapping == m
    {
      top, known, mapping := t, k, m;
    }

    /** The visitor of recovery records. */
    method VisitRow(r: Row)
      modifies this
      ensures mapping == Visit(top, known, old(mapping), r)
    {
      if r.id !in known { return; }
      if r.id in mapping {
        var current := mapping[r.id];
        if r.points == [] { return; }
        if current != [] {
          if |current| > |r.points| { return; }
          var currMax := MaxElement(current);
          var dataMax := MaxElement(r.points);
          if dataMax >= top || currMax > dataMax { return; }
        }
      }
      mapping := mapping[r.id := r.points];
    }

    method Recover(log: seq<Row>)
      modifies this
      ensures mapping == Replay(top, known, old(mapping), log)
    {
      var i := 0;
      while i < |log|
        invariant 0 <= i <= |log| && mapping == Replay(top, known, old(mapping), log[..i])
      {
        assert log[..i + 1][..i] == log[..i];
        VisitRow(log[i]);
        i := i + 1;
      }
      assert log[..|log|] == log;
    }
  }
}
