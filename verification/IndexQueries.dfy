/** Queries over posting lists, and the scan over all names that they stand for. */
module IndexQueries {
  import opened Bytes
  import opened SortedLists

  /** A stored series: its id in the string pool and the parts of its name. */
  datatype Stored = Stored(id: nat, metric: bytes, tags: seq<bytes>)

  type Hash = bytes -> nat

  // ---- Posting lists ---------------------------------------------------------------------------

  function Repeat(id: nat, n: nat): seq<nat> { if n == 0 then [] else [id] + Repeat(id, n - 1) }

  /** How many tags fall on a key. */
  function Hits(hash: Hash, tags: seq<bytes>, key: nat): nat {
    if tags == [] then 0 else (if hash(tags[0]) == key then 1 else 0) + Hits(hash, tags[1..], key)
  }

  /** What appending all names has left under a key: an id for each tag that falls on it. */
  function TagPosting(hash: Hash, names: seq<Stored>, key: nat): seq<nat> {
    if names == [] then []
    else
      var n := names[|names| - 1];
      TagPosting(hash, names[..|names| - 1], key) + Repeat(n.id, Hits(hash, n.tags, key))
  }

  function MetricPosting(hash: Hash, names: seq<Stored>, key: nat): seq<nat> {
    if names == [] then []
    else
      var n := names[|names| - 1];
      MetricPosting(hash, names[..|names| - 1], key) + (if hash(n.metric) == key then [n.id] else [])
  }

  // ---- The scan --------------------------------------------------------------------------------

  type Select = Stored -> bool

  /** The ids of the names that `want` selects, in the order in which they were stored. */
  function Scan(names: seq<Stored>, want: Select): seq<nat> {
    if names == [] then []
    else
      var n := names[|names| - 1];
      Scan(names[..|names| - 1], want) + (if want(n) then [n.id] else [])
  }

  predicate IdsIncrease(names: seq<Stored>) { forall i, j :: 0 <= i < j < |names| ==> names[i].id < names[j].id }

  /** Appended at the end of an increasing list. */
  lemma IncreasingSnoc(a: seq<nat>, x: nat)
    requires Increasing(a) && forall y :: y in a ==> y < x
    ensures Increasing(a + [x])
  {
    assert forall i :: 0 <= i < |a| ==> a[i] in a;
  }

  ghost predicate Selected(names: seq<Stored>, want: Select, id: nat) {
    exists i :: 0 <= i < |names| && names[i].id == id && want(names[i])
  }

  lemma SelectedSnoc(names: seq<Stored>, want: Select, id: nat)
    requires names != []
    ensures var n := |names| - 1; Selected(names, want, id) <==> Selected(names[..n], want, id) || (names[n].id == id && want(names[n]))
  {
    var n := |names| - 1;
    if Selected(names[..n], want, id) {
      var i :| 0 <= i < n && names[..n][i].id == id && want(names[..n][i]);
      assert names[i] == names[..n][i];
    }
    if Selected(names, want, id) && !(names[n].id == id && want(names[n])) {
      var i :| 0 <= i < |names| && names[i].id == id && want(names[i]);
      assert names[..n][i] == names[i];
    }
  }

  /** The scan is an increasing list of the ids selected. */
  lemma {:induction false} ScanIs(names: seq<Stored>, want: Select)
    requires IdsIncrease(names)
    ensures Increasing(Scan(names, want)) && forall id :: id in Scan(names, want) <==> Selected(names, want, id)
  {
    if names != [] {
      var n := |names| - 1;
      ScanIs(names[..n], want);
      forall id { SelectedSnoc(names, want, id); }
      var a := Scan(names[..n], want);
      forall y | y in a ensures y < names[n].id {
        var i :| 0 <= i < n && names[..n][i].id == y && want(names[..n][i]);
      }
      if want(names[n]) { IncreasingSnoc(a, names[n].id); } else { assert a + [] == a; }
    }
  }

  /** A list with the members of a scan is the scan. */
  lemma IsScan(names: seq<Stored>, want: Select, a: seq<nat>)
    requires IdsIncrease(names) && Increasing(a) && forall id :: id in a <==> Selected(names, want, id)
    ensures a == Scan(names, want)
  {
    ScanIs(names, want);
    SameMembers(a, Scan(names, want));
  }

  // ---- What a posting list lists ---------------------------------------------------------------

  /** A tag of the name falls on the key of `p`. */
  function Touches(hash: Hash, p: bytes): Select { (n: Stored) => Hits(hash, n.tags, hash(p)) > 0 }

  function HasHash(hash: Hash, key: nat): Select { (n: Stored) => hash(n.metric) == key }

  lemma {:induction false} TagTouches(hash: Hash, tags: seq<bytes>, p: bytes)
    requires p in tags
    ensures Hits(hash, tags, hash(p)) > 0
  {
    if tags[0] != p { TagTouches(hash, tags[1..], p); }
  }

  lemma {:induction false} RepeatIs(id: nat, n: nat)
    ensures |Repeat(id, n)| == n && forall i :: 0 <= i < n ==> Repeat(id, n)[i] == id
  {
    if n > 0 { RepeatIs(id, n - 1); }
  }

  lemma RepeatBehind(a: seq<nat>, id: nat, n: nat)
    requires Rising(a) && forall x :: x in a ==> x < id
    ensures Rising(a + Repeat(id, n)) && forall x :: x in a + Repeat(id, n) <==> x in a || (x == id && n > 0)
  {
    RepeatIs(id, n);
    var r := Repeat(id, n);
    assert forall i :: 0 <= i < |a| ==> a[i] in a;
    assert n > 0 ==> r[0] in r;
    assert forall x :: x in r ==> x == id;
  }

  /** A list holds, in order, the ids of the names with a tag under its key. */
  lemma {:induction false} TagPostingIs(hash: Hash, names: seq<Stored>, p: bytes)
    requires IdsIncrease(names)
    ensures var a := TagPosting(hash, names, hash(p));
      Rising(a) && forall id :: id in a <==> Selected(names, Touches(hash, p), id)
  {
    if names != [] {
      var k := |names| - 1;
      var n, a := names[k], TagPosting(hash, names[..k], hash(p));
      TagPostingIs(hash, names[..k], p);
      forall id ensures Selected(names, Touches(hash, p), id) <==> Selected(names[..k], Touches(hash, p), id) || (n.id == id && Touches(hash, p)(n)) {
        SelectedSnoc(names, Touches(hash, p), id);
      }
      RepeatBehind(a, n.id, Hits(hash, n.tags, hash(p)));
    }
  }

  lemma {:induction false} MetricPostingIs(hash: Hash, names: seq<Stored>, key: nat)
    ensures MetricPosting(hash, names, key) == Scan(names, HasHash(hash, key))
  {
    if names != [] { MetricPostingIs(hash, names[..|names| - 1], key); }
  }

  // ---- Filters ---------------------------------------------------------------------------------

  type Check = nat -> bool

  function Keep(ids: seq<nat>, check: Check): seq<nat> {
    if ids == [] then [] else (if check(ids[0]) then [ids[0]] else []) + Keep(ids[1..], check)
  }

  predicate AllPass(ids: seq<nat>, check: Check) { forall i :: 0 <= i < |ids| ==> check(ids[i]) }

  lemma OneMorePasses(ids: seq<nat>, i: nat, check: Check)
    requires i < |ids| && AllPass(ids[..i], check)
    ensures AllPass(ids[..i + 1], check) <==> check(ids[i])
    ensures AllPass(ids, check) ==> check(ids[i])
  {
    OneMoreTaken(ids, i);
  }

  /** `filter` with one thing to check: the list is only written again if something does not pass. */
  function FilterOne(ids: seq<nat>, check: Check): seq<nat> { if AllPass(ids, check) then ids else Keep(ids, check) }

  /** `filter` with several: if anything passes none of them, the list that is written again stays empty. */
  function FilterAny(ids: seq<nat>, check: Check): seq<nat> { if AllPass(ids, check) then ids else [] }

  lemma {:induction false} KeepIs(ids: seq<nat>, check: Check)
    requires Increasing(ids)
    ensures Increasing(Keep(ids, check)) && forall x :: x in Keep(ids, check) <==> x in ids && check(x)
  {
    if ids != [] {
      FirstIsLeast(ids);
      KeepIs(ids[1..], check);
      PutInFront(ids[0], Keep(ids[1..], check));
    }
  }

  lemma FilterOneIs(ids: seq<nat>, check: Check)
    requires Increasing(ids)
    ensures Increasing(FilterOne(ids, check)) && forall x :: x in FilterOne(ids, check) <==> x in ids && check(x)
  {
    KeepIs(ids, check);
  }

  /** The name stored under an id. */
  function Lookup(names: seq<Stored>, id: nat): seq<Stored> {
    if names == [] then [] else if names[|names| - 1].id == id then [names[|names| - 1]] else Lookup(names[..|names| - 1], id)
  }

  lemma {:induction false} LookupIs(names: seq<Stored>, i: nat)
    requires IdsIncrease(names) && i < |names|
    ensures Lookup(names, names[i].id) == [names[i]]
    decreases |names|
  {
    if i < |names| - 1 {
      assert names[..|names| - 1][i] == names[i];
      LookupIs(names[..|names| - 1], i);
    }
  }

  /** What a check of the stored text finds. */
  function Passes(names: seq<Stored>, want: Select): Check { (id: nat) => |Lookup(names, id)| == 1 && want(Lookup(names, id)[0]) }

  // ---- Lists that select -----------------------------------------------------------------------

  /** `a` lists, in order and possibly more than once, exactly the ids of the names that `want` selects. */
  ghost predicate Lists(names: seq<Stored>, a: seq<nat>, want: Select) {
    && Rising(a)
    && (forall x :: x in a ==> exists i :: 0 <= i < |names| && names[i].id == x)
    && (forall i :: 0 <= i < |names| ==> (names[i].id in a <==> want(names[i])))
  }

  /** Each of them once. */
  ghost predicate Picks(names: seq<Stored>, a: seq<nat>, want: Select) { Increasing(a) && Lists(names, a, want) }

  lemma SelectedLists(names: seq<Stored>, a: seq<nat>, want: Select)
    requires IdsIncrease(names) && Rising(a) && forall id :: id in a <==> Selected(names, want, id)
    ensures Lists(names, a, want)
  {
    forall i | 0 <= i < |names| ensures names[i].id in a <==> want(names[i]) {
      if Selected(names, want, names[i].id) {
        var j :| 0 <= j < |names| && names[j].id == names[i].id && want(names[j]);
        assert i == j;
      }
    }
  }

  lemma ScanPicks(names: seq<Stored>, want: Select)
    requires IdsIncrease(names)
    ensures Picks(names, Scan(names, want), want)
  {
    ScanIs(names, want);
    SelectedLists(names, Scan(names, want), want);
  }

  /** Such a list is what the scan gives. */
  lemma PicksIsScan(names: seq<Stored>, a: seq<nat>, want: Select)
    requires IdsIncrease(names) && Picks(names, a, want)
    ensures a == Scan(names, want)
  {
    forall id ensures id in a <==> Selected(names, want, id) {
      if id in a {
        var i :| 0 <= i < |names| && names[i].id == id;
        assert want(names[i]);
      }
    }
    IsScan(names, want, a);
  }

  ghost predicate Same(names: seq<Stored>, v: Select, w: Select) { forall i :: 0 <= i < |names| ==> v(names[i]) == w(names[i]) }

  function Both(v: Select, w: Select): Select { (n: Stored) => v(n) && w(n) }

  function Either(v: Select, w: Select): Select { (n: Stored) => v(n) || w(n) }

  function ButNot(v: Select, w: Select): Select { (n: Stored) => v(n) && !w(n) }

  lemma MeetLists(names: seq<Stored>, a: seq<nat>, v: Select, b: seq<nat>, w: Select)
    requires Lists(names, a, v) && Lists(names, b, w)
    ensures Lists(names, Meet(a, b), Both(v, w))
  {
    MeetIs(a, b);
  }

  lemma MeetPicks(names: seq<Stored>, a: seq<nat>, v: Select, b: seq<nat>, w: Select)
    requires Picks(names, a, v) && Lists(names, b, w)
    ensures Picks(names, Meet(a, b), Both(v, w))
  {
    MeetLists(names, a, v, b, w);
    MeetOnce(a, b);
  }

  lemma JoinPicks(names: seq<Stored>, a: seq<nat>, v: Select, b: seq<nat>, w: Select)
    requires Lists(names, a, v) && Lists(names, b, w)
    ensures Picks(names, Unique(Join(a, b)), Either(v, w))
  {
    JoinIs(a, b);
    UniqueIs(Join(a, b));
  }

  lemma WithoutPicks(names: seq<Stored>, a: seq<nat>, v: Select, b: seq<nat>, w: Select)
    requires Picks(names, a, v) && Lists(names, b, w)
    ensures Picks(names, Without(a, b), ButNot(v, w))
  {
    WithoutIs(a, b);
  }

  lemma PassesIs(names: seq<Stored>, i: nat, want: Select)
    requires IdsIncrease(names) && i < |names|
    ensures Passes(names, want)(names[i].id) == want(names[i])
  {
    LookupIs(names, i);
  }

  lemma FilterPicks(names: seq<Stored>, a: seq<nat>, v: Select, want: Select)
    requires IdsIncrease(names) && Picks(names, a, v)
    ensures Picks(names, FilterOne(a, Passes(names, want)), Both(v, want))
  {
    FilterOneIs(a, Passes(names, want));
    forall i | 0 <= i < |names| { PassesIs(names, i, want); }
  }

  lemma ListsSame(names: seq<Stored>, a: seq<nat>, v: Select, w: Select)
    requires Lists(names, a, v) && Same(names, v, w)
    ensures Lists(names, a, w)
  {
  }

  /** Two scans give the same if and only if they select the same. */
  lemma SameScan(names: seq<Stored>, v: Select, w: Select)
    requires IdsIncrease(names)
    ensures Scan(names, v) == Scan(names, w) <==> Same(names, v, w)
  {
    ScanPicks(names, v);
    ScanPicks(names, w);
    if Same(names, v, w) {
      ListsSame(names, Scan(names, v), v, w);
      PicksIsScan(names, Scan(names, v), w);
    }
  }

  function Nothing(): Select { (n: Stored) => false }

  lemma {:induction false} ScanOfNothing(names: seq<Stored>)
    ensures Scan(names, Nothing()) == []
  {
    if names != [] { ScanOfNothing(names[..|names| - 1]); }
  }

  // ---- The last filter -------------------------------------------------------------------------

  /** A name that was found, but passes none of the checks. */
  ghost predicate Stray(names: seq<Stored>, found: Select, any: Select) { exists i :: 0 <= i < |names| && found(names[i]) && !any(names[i]) }

  /** The last filter lets everything through, or nothing. */
  lemma AllOrNothing(names: seq<Stored>, a: seq<nat>, found: Select, any: Select)
    requires IdsIncrease(names) && Picks(names, a, found)
    ensures FilterAny(a, Passes(names, any)) == if Stray(names, found, any) then [] else a
  {
    if Stray(names, found, any) {
      var i :| 0 <= i < |names| && found(names[i]) && !any(names[i]);
      PassesIs(names, i, any);
      var k :| 0 <= k < |a| && a[k] == names[i].id;
      assert !Passes(names, any)(a[k]);
    } else {
      forall k | 0 <= k < |a| ensures Passes(names, any)(a[k]) {
        assert a[k] in a;
        var i :| 0 <= i < |names| && names[i].id == a[k];
        PassesIs(names, i, any);
      }
    }
  }

  /**
   Where the lists find `found` and the scan selects `want`, the two agree: without a stray if all that is found is
   wanted, and with one if nothing is wanted.
   */
  ghost predicate Agree(names: seq<Stored>, found: Select, any: Select, want: Select) {
    if Stray(names, found, any) then Same(names, want, Nothing()) else Same(names, found, want)
  }

  lemma FilteredExact(names: seq<Stored>, a: seq<nat>, found: Select, any: Select, want: Select)
    requires IdsIncrease(names) && Picks(names, a, found)
    ensures FilterAny(a, Passes(names, any)) == Scan(names, want) <==> Agree(names, found, any, want)
  {
    AllOrNothing(names, a, found, any);
    PicksIsScan(names, a, found);
    SameScan(names, found, want);
    SameScan(names, want, Nothing());
    ScanOfNothing(names);
  }

  lemma TagLists(hash: Hash, names: seq<Stored>, p: bytes)
    requires IdsIncrease(names)
    ensures Lists(names, TagPosting(hash, names, hash(p)), Touches(hash, p))
  {
    TagPostingIs(hash, names, p);
    SelectedLists(names, TagPosting(hash, names, hash(p)), Touches(hash, p));
  }

  lemma MetricPicks(hash: Hash, names: seq<Stored>, m: bytes)
    requires IdsIncrease(names)
    ensures Picks(names, MetricPosting(hash, names, hash(m)), HasHash(hash, hash(m)))
  {
    MetricPostingIs(hash, names, hash(m));
    ScanPicks(names, HasHash(hash, hash(m)));
  }

  // ---- The queries -----------------------------------------------------------------------------

  function HasMetric(m: bytes): Select { (n: Stored) => n.metric == m }

  function HasAll(pairs: seq<bytes>): Select { (n: Stored) => forall p <- pairs :: p in n.tags }

  function HasAny(pairs: seq<bytes>): Select { (n: Stored) => exists p <- pairs :: p in n.tags }

  function TouchesAll(hash: Hash, pairs: seq<bytes>): Select { (n: Stored) => forall p <- pairs :: Touches(hash, p)(n) }

  function TouchesAny(hash: Hash, pairs: seq<bytes>): Select { (n: Stored) => exists p <- pairs :: Touches(hash, p)(n) }

  function MeetAll(hash: Hash, names: seq<Stored>, r: seq<nat>, pairs: seq<bytes>): seq<nat>
    decreases |pairs|
  {
    if pairs == [] then r else MeetAll(hash, names, Meet(r, TagPosting(hash, names, hash(pairs[0]))), pairs[1..])
  }

  /** `IncludeIfAllTagsMatch`. */
  function AllTags(hash: Hash, names: seq<Stored>, m: bytes, pairs: seq<bytes>): seq<nat> {
    var r := MeetAll(hash, names, MetricPosting(hash, names, hash(m)), pairs);
    FilterAny(FilterOne(r, Passes(names, HasMetric(m))), Passes(names, HasAny(pairs)))
  }

  lemma {:induction false} MeetAllPicks(hash: Hash, names: seq<Stored>, r: seq<nat>, v: Select, pairs: seq<bytes>)
    requires IdsIncrease(names) && Picks(names, r, v)
    ensures Picks(names, MeetAll(hash, names, r, pairs), Both(v, TouchesAll(hash, pairs)))
    decreases |pairs|
  {
    if pairs != [] {
      var p, rest := pairs[0], pairs[1..];
      var t, all := Touches(hash, p), TouchesAll(hash, rest);
      assert p in pairs && forall q :: q in pairs <==> q == p || q in rest;
      TagLists(hash, names, p);
      MeetPicks(names, r, v, TagPosting(hash, names, hash(p)), t);
      MeetAllPicks(hash, names, Meet(r, TagPosting(hash, names, hash(p))), Both(v, t), rest);
      ListsSame(names, MeetAll(hash, names, r, pairs), Both(Both(v, t), all), Both(v, TouchesAll(hash, pairs)));
    }
  }

  /** What the query finds by keys: all of it, or nothing if some name that is found has none of the pairs. */
  lemma AllTagsGives(hash: Hash, names: seq<Stored>, m: bytes, pairs: seq<bytes>)
    requires IdsIncrease(names)
    ensures var found := Both(HasMetric(m), TouchesAll(hash, pairs));
      AllTags(hash, names, m, pairs) == if Stray(names, found, HasAny(pairs)) then [] else Scan(names, found)
  {
    var found := Both(HasMetric(m), TouchesAll(hash, pairs));
    var f := AllTagsFound(hash, names, m, pairs);
    AllOrNothing(names, f, found, HasAny(pairs));
    PicksIsScan(names, f, found);
  }

  lemma AllTagsFound(hash: Hash, names: seq<Stored>, m: bytes, pairs: seq<bytes>) returns (f: seq<nat>)
    requires IdsIncrease(names)
    ensures f == FilterOne(MeetAll(hash, names, MetricPosting(hash, names, hash(m)), pairs), Passes(names, HasMetric(m)))
    ensures Picks(names, f, Both(HasMetric(m), TouchesAll(hash, pairs)))
  {
    var keyed, all := HasHash(hash, hash(m)), TouchesAll(hash, pairs);
    MetricPicks(hash, names, m);
    MeetAllPicks(hash, names, MetricPosting(hash, names, hash(m)), keyed, pairs);
    var r := MeetAll(hash, names, MetricPosting(hash, names, hash(m)), pairs);
    FilterPicks(names, r, Both(keyed, all), HasMetric(m));
    f := FilterOne(r, Passes(names, HasMetric(m)));
    ListsSame(names, f, Both(Both(keyed, all), HasMetric(m)), Both(HasMetric(m), all));
  }

  /** The query gives what the scan gives if and only if names that share keys do not get in the way. */
  lemma AllTagsExact(hash: Hash, names: seq<Stored>, m: bytes, pairs: seq<bytes>)
    requires IdsIncrease(names)
    ensures AllTags(hash, names, m, pairs) == Scan(names, Both(HasMetric(m), HasAll(pairs))) <==>
            Agree(names, Both(HasMetric(m), TouchesAll(hash, pairs)), HasAny(pairs), Both(HasMetric(m), HasAll(pairs)))
  {
    var found := Both(HasMetric(m), TouchesAll(hash, pairs));
    var f := AllTagsFound(hash, names, m, pairs);
    FilteredExact(names, f, found, HasAny(pairs), Both(HasMetric(m), HasAll(pairs)));
  }

  /** No tag of a stored name falls on the key of a pair but the pair itself. */
  ghost predicate NoCollision(hash: Hash, names: seq<Stored>, pairs: seq<bytes>) {
    forall i, p :: 0 <= i < |names| && p in pairs && Touches(hash, p)(names[i]) ==> p in names[i].tags
  }

  lemma TouchesIsHas(hash: Hash, names: seq<Stored>, pairs: seq<bytes>, p: bytes, i: nat)
    requires NoCollision(hash, names, pairs) && p in pairs && i < |names|
    ensures Touches(hash, p)(names[i]) <==> p in names[i].tags
  {
    if p in names[i].tags { TagTouches(hash, names[i].tags, p); }
  }

  /** Without collisions, a query for at least one pair gives what the scan gives; metrics may collide. */
  lemma AllTagsIsScan(hash: Hash, names: seq<Stored>, m: bytes, pairs: seq<bytes>)
    requires IdsIncrease(names) && NoCollision(hash, names, pairs) && pairs != []
    ensures AllTags(hash, names, m, pairs) == Scan(names, Both(HasMetric(m), HasAll(pairs)))
  {
    forall i, p | 0 <= i < |names| && p in pairs ensures Touches(hash, p)(names[i]) <==> p in names[i].tags {
      TouchesIsHas(hash, names, pairs, p, i);
    }
    assert pairs[0] in pairs;
    AllTagsExact(hash, names, m, pairs);
  }

  /** Without a pair, the query gives nothing. */
  lemma AllTagsOfNone(hash: Hash, names: seq<Stored>, m: bytes)
    ensures AllTags(hash, names, m, []) == []
  {
    var f := FilterOne(MetricPosting(hash, names, hash(m)), Passes(names, HasMetric(m)));
    if f != [] { assert !Passes(names, HasAny([]))(f[0]); }
  }

  function WithoutAll(hash: Hash, names: seq<Stored>, r: seq<nat>, pairs: seq<bytes>): seq<nat>
    decreases |pairs|
  {
    if pairs == [] then r else WithoutAll(hash, names, Without(r, TagPosting(hash, names, hash(pairs[0]))), pairs[1..])
  }

  /** `ExcludeTags`. */
  function Exclude(hash: Hash, names: seq<Stored>, m: bytes, pairs: seq<bytes>): seq<nat> {
    FilterOne(WithoutAll(hash, names, MetricPosting(hash, names, hash(m)), pairs), Passes(names, HasMetric(m)))
  }

  lemma {:induction false} WithoutAllPicks(hash: Hash, names: seq<Stored>, r: seq<nat>, v: Select, pairs: seq<bytes>)
    requires IdsIncrease(names) && Picks(names, r, v)
    ensures Picks(names, WithoutAll(hash, names, r, pairs), ButNot(v, TouchesAny(hash, pairs)))
    decreases |pairs|
  {
    if pairs != [] {
      var p, rest := pairs[0], pairs[1..];
      var t, any := Touches(hash, p), TouchesAny(hash, rest);
      assert p in pairs && forall q :: q in pairs <==> q == p || q in rest;
      TagLists(hash, names, p);
      WithoutPicks(names, r, v, TagPosting(hash, names, hash(p)), t);
      WithoutAllPicks(hash, names, Without(r, TagPosting(hash, names, hash(p))), ButNot(v, t), rest);
      ListsSame(names, WithoutAll(hash, names, r, pairs), ButNot(ButNot(v, t), any), ButNot(v, TouchesAny(hash, pairs)));
    }
  }

  /** What the query leaves: the names under none of the keys. */
  lemma ExcludeGives(hash: Hash, names: seq<Stored>, m: bytes, pairs: seq<bytes>)
    requires IdsIncrease(names)
    ensures Exclude(hash, names, m, pairs) == Scan(names, ButNot(HasMetric(m), TouchesAny(hash, pairs)))
  {
    var keyed, any, left := HasHash(hash, hash(m)), TouchesAny(hash, pairs), ButNot(HasMetric(m), TouchesAny(hash, pairs));
    MetricPicks(hash, names, m);
    WithoutAllPicks(hash, names, MetricPosting(hash, names, hash(m)), keyed, pairs);
    var r := WithoutAll(hash, names, MetricPosting(hash, names, hash(m)), pairs);
    FilterPicks(names, r, ButNot(keyed, any), HasMetric(m));
    var f := Exclude(hash, names, m, pairs);
    ListsSame(names, f, Both(ButNot(keyed, any), HasMetric(m)), left);
    PicksIsScan(names, f, left);
  }

  /** The query gives what the scan gives if and only if each name it leaves out by a key has one of the pairs. */
  lemma ExcludeExact(hash: Hash, names: seq<Stored>, m: bytes, pairs: seq<bytes>)
    requires IdsIncrease(names)
    ensures Exclude(hash, names, m, pairs) == Scan(names, ButNot(HasMetric(m), HasAny(pairs))) <==>
            forall i :: 0 <= i < |names| && names[i].metric == m && TouchesAny(hash, pairs)(names[i]) ==> HasAny(pairs)(names[i])
  {
    ExcludeGives(hash, names, m, pairs);
    SameScan(names, ButNot(HasMetric(m), TouchesAny(hash, pairs)), ButNot(HasMetric(m), HasAny(pairs)));
    forall i | 0 <= i < |names| && HasAny(pairs)(names[i]) ensures TouchesAny(hash, pairs)(names[i]) { AnyTouches(hash, names[i], pairs); }
  }

  lemma AnyTouches(hash: Hash, n: Stored, pairs: seq<bytes>)
    requires HasAny(pairs)(n)
    ensures TouchesAny(hash, pairs)(n)
  {
    var p :| p in pairs && p in n.tags;
    TagTouches(hash, n.tags, p);
  }

  lemma ExcludeIsScan(hash: Hash, names: seq<Stored>, m: bytes, pairs: seq<bytes>)
    requires IdsIncrease(names) && NoCollision(hash, names, pairs)
    ensures Exclude(hash, names, m, pairs) == Scan(names, ButNot(HasMetric(m), HasAny(pairs)))
  {
    ExcludeExact(hash, names, m, pairs);
  }

  // ---- Many to many ----------------------------------------------------------------------------

  /** A tag and the values it may have. */
  datatype Group = Group(tag: bytes, values: seq<bytes>)

  function Pairs(g: Group): (ps: seq<bytes>)
    ensures |ps| == |g.values|
    decreases |g.values|
  {
    if g.values == [] then [] else [g.tag + [EQUALS] + g.values[0]] + Pairs(Group(g.tag, g.values[1..]))
  }

  function JoinAll(hash: Hash, names: seq<Stored>, r: seq<nat>, pairs: seq<bytes>): seq<nat>
    decreases |pairs|
  {
    if pairs == [] then r else JoinAll(hash, names, Unique(Join(r, TagPosting(hash, names, hash(pairs[0])))), pairs[1..])
  }

  function AnyOf(hash: Hash, names: seq<Stored>, pairs: seq<bytes>): seq<nat>
    requires pairs != []
  {
    JoinAll(hash, names, TagPosting(hash, names, hash(pairs[0])), pairs[1..])
  }

  /** The groups that have values, combined; none if no group has. */
  function Combined(hash: Hash, names: seq<Stored>, acc: Option<seq<nat>>, groups: seq<Group>): Option<seq<nat>>
    decreases |groups|
  {
    if groups == [] then acc else Combined(hash, names, WithGroup(hash, names, acc, groups[0]), groups[1..])
  }

  /** One more group. */
  function WithGroup(hash: Hash, names: seq<Stored>, acc: Option<seq<nat>>, g: Group): Option<seq<nat>> {
    var ps := Pairs(g);
    if ps == [] then acc
    else if acc.None? then Some(AnyOf(hash, names, ps)) else Some(Meet(acc.value, AnyOf(hash, names, ps)))
  }

  function AllPairs(groups: seq<Group>): seq<bytes> { if groups == [] then [] else Pairs(groups[0]) + AllPairs(groups[1..]) }

  /** `IncludeMany2Many`. */
  function ManyToMany(hash: Hash, names: seq<Stored>, m: bytes, groups: seq<Group>): seq<nat> {
    var metric := MetricPosting(hash, names, hash(m));
    match Combined(hash, names, None, groups)
    case None => FilterOne(metric, Passes(names, HasMetric(m)))
    case Some(r) => FilterAny(FilterOne(Meet(r, metric), Passes(names, HasMetric(m))), Passes(names, HasAny(AllPairs(groups))))
  }

  /** Each group that has values has one that fits. */
  function FitsAll(groups: seq<Group>): Select { (n: Stored) => forall g <- groups :: Pairs(g) == [] || HasAny(Pairs(g))(n) }

  function Reaches(hash: Hash, g: Group): Select { (n: Stored) => Pairs(g) == [] || TouchesAny(hash, Pairs(g))(n) }

  /** Each group that has values has one whose key a tag falls on. */
  function ReachesAll(hash: Hash, groups: seq<Group>): Select { (n: Stored) => forall g <- groups :: Reaches(hash, g)(n) }

  lemma {:induction false} JoinAllLists(hash: Hash, names: seq<Stored>, r: seq<nat>, v: Select, pairs: seq<bytes>)
    requires IdsIncrease(names) && Lists(names, r, v)
    ensures Lists(names, JoinAll(hash, names, r, pairs), Either(v, TouchesAny(hash, pairs)))
    decreases |pairs|
  {
    if pairs != [] {
      var p, rest := pairs[0], pairs[1..];
      var t, any := Touches(hash, p), TouchesAny(hash, rest);
      assert p in pairs && forall q :: q in pairs <==> q == p || q in rest;
      TagLists(hash, names, p);
      var a := TagPosting(hash, names, hash(p));
      JoinPicks(names, r, v, a, t);
      JoinAllLists(hash, names, Unique(Join(r, a)), Either(v, t), rest);
      ListsSame(names, JoinAll(hash, names, r, pairs), Either(Either(v, t), any), Either(v, TouchesAny(hash, pairs)));
    }
  }

  lemma AnyOfLists(hash: Hash, names: seq<Stored>, pairs: seq<bytes>)
    requires IdsIncrease(names) && pairs != []
    ensures Lists(names, AnyOf(hash, names, pairs), TouchesAny(hash, pairs))
  {
    var p, rest := pairs[0], pairs[1..];
    assert p in pairs && forall q :: q in pairs <==> q == p || q in rest;
    TagLists(hash, names, p);
    JoinAllLists(hash, names, TagPosting(hash, names, hash(p)), Touches(hash, p), rest);
    ListsSame(names, AnyOf(hash, names, pairs), Either(Touches(hash, p), TouchesAny(hash, rest)), TouchesAny(hash, pairs));
  }

  /** What has been combined so far selects `v`; before the first group that is every name. */
  ghost predicate Selects(names: seq<Stored>, acc: Option<seq<nat>>, v: Select) {
    match acc
    case None => forall i :: 0 <= i < |names| ==> v(names[i])
    case Some(a) => Lists(names, a, v)
  }

  lemma OneGroup(hash: Hash, names: seq<Stored>, acc: Option<seq<nat>>, v: Select, g: Group)
    requires IdsIncrease(names) && Selects(names, acc, v)
    ensures Selects(names, WithGroup(hash, names, acc, g), Both(v, Reaches(hash, g)))
  {
    var ps := Pairs(g);
    if ps != [] {
      var a, any := AnyOf(hash, names, ps), TouchesAny(hash, ps);
      AnyOfLists(hash, names, ps);
      if acc.Some? {
        MeetLists(names, acc.value, v, a, any);
        ListsSame(names, Meet(acc.value, a), Both(v, any), Both(v, Reaches(hash, g)));
      } else {
        ListsSame(names, a, any, Both(v, Reaches(hash, g)));
      }
    }
  }

  lemma {:induction false} CombinedSelects(hash: Hash, names: seq<Stored>, acc: Option<seq<nat>>, v: Select, groups: seq<Group>)
    requires IdsIncrease(names) && Selects(names, acc, v)
    ensures Selects(names, Combined(hash, names, acc, groups), Both(v, ReachesAll(hash, groups)))
    decreases |groups|
  {
    if groups == [] {
      if acc.Some? { ListsSame(names, acc.value, v, Both(v, ReachesAll(hash, []))); }
    } else {
      var g, rest := groups[0], groups[1..];
      var w, w' := Both(Both(v, Reaches(hash, g)), ReachesAll(hash, rest)), Both(v, ReachesAll(hash, groups));
      assert g in groups && forall h :: h in groups <==> h == g || h in rest;
      OneGroup(hash, names, acc, v, g);
      CombinedSelects(hash, names, WithGroup(hash, names, acc, g), Both(v, Reaches(hash, g)), rest);
      var r := Combined(hash, names, acc, groups);
      assert Same(names, w, w');
      if r.Some? { ListsSame(names, r.value, w, w'); }
    }
  }

  lemma {:induction false} CombinedNone(hash: Hash, names: seq<Stored>, acc: Option<seq<nat>>, groups: seq<Group>)
    ensures Combined(hash, names, acc, groups).None? <==> acc.None? && AllPairs(groups) == []
    decreases |groups|
  {
    if groups != [] { CombinedNone(hash, names, WithGroup(hash, names, acc, groups[0]), groups[1..]); }
  }

  lemma {:induction false} NoPairs(groups: seq<Group>, g: Group)
    requires AllPairs(groups) == [] && g in groups
    ensures Pairs(g) == []
    decreases |groups|
  {
    if g != groups[0] { NoPairs(groups[1..], g); }
  }

  function Everything(): Select { (n: Stored) => true }

  /** With no value to look for, all names with the metric are given. */
  lemma ManyToManyOfNone(hash: Hash, names: seq<Stored>, m: bytes, groups: seq<Group>)
    requires IdsIncrease(names) && AllPairs(groups) == []
    ensures ManyToMany(hash, names, m, groups) == Scan(names, Both(HasMetric(m), FitsAll(groups)))
  {
    var keyed, want, metric := HasHash(hash, hash(m)), Both(HasMetric(m), FitsAll(groups)), MetricPosting(hash, names, hash(m));
    CombinedNone(hash, names, None, groups);
    MetricPicks(hash, names, m);
    FilterPicks(names, metric, keyed, HasMetric(m));
    forall g | g in groups ensures Pairs(g) == [] { NoPairs(groups, g); }
    ListsSame(names, FilterOne(metric, Passes(names, HasMetric(m))), Both(keyed, HasMetric(m)), want);
    PicksIsScan(names, FilterOne(metric, Passes(names, HasMetric(m))), want);
  }

  /** The query gives what the scan gives if and only if it looks for nothing, or names that share keys do not get in the way. */
  lemma ManyToManyExact(hash: Hash, names: seq<Stored>, m: bytes, groups: seq<Group>)
    requires IdsIncrease(names)
    ensures ManyToMany(hash, names, m, groups) == Scan(names, Both(HasMetric(m), FitsAll(groups))) <==>
            AllPairs(groups) == [] ||
            Agree(names, Both(HasMetric(m), ReachesAll(hash, groups)), HasAny(AllPairs(groups)), Both(HasMetric(m), FitsAll(groups)))
  {
    CombinedNone(hash, names, None, groups);
    if AllPairs(groups) == [] {
      ManyToManyOfNone(hash, names, m, groups);
    } else {
      var keyed, found := HasHash(hash, hash(m)), Both(HasMetric(m), ReachesAll(hash, groups));
      var metric, r := MetricPosting(hash, names, hash(m)), Combined(hash, names, None, groups).value;
      var v := Both(Everything(), ReachesAll(hash, groups));
      MetricPicks(hash, names, m);
      CombinedSelects(hash, names, None, Everything(), groups);
      MeetPicks(names, metric, keyed, r, v);
      MeetSwaps(metric, r);
      var a := Meet(r, metric);
      FilterPicks(names, a, Both(keyed, v), HasMetric(m));
      var f := FilterOne(a, Passes(names, HasMetric(m)));
      ListsSame(names, f, Both(Both(keyed, v), HasMetric(m)), found);
      FilteredExact(names, f, found, HasAny(AllPairs(groups)), Both(HasMetric(m), FitsAll(groups)));
    }
  }

  lemma {:induction false} PairsOfGroup(groups: seq<Group>, g: Group, p: bytes)
    requires g in groups && p in Pairs(g)
    ensures p in AllPairs(groups)
    decreases |groups|
  {
    if g != groups[0] { PairsOfGroup(groups[1..], g, p); }
  }

  lemma {:induction false} GroupOfPairs(groups: seq<Group>) returns (g: Group)
    requires AllPairs(groups) != []
    ensures g in groups && Pairs(g) != []
    decreases |groups|
  {
    if Pairs(groups[0]) != [] { g := groups[0]; } else { g := GroupOfPairs(groups[1..]); }
  }

  /** Without collisions, a name that a group reaches has one of its values. */
  lemma ReachesIsFits(hash: Hash, names: seq<Stored>, groups: seq<Group>, g: Group, i: nat)
    requires NoCollision(hash, names, AllPairs(groups)) && g in groups && i < |names|
    ensures Reaches(hash, g)(names[i]) <==> Pairs(g) == [] || HasAny(Pairs(g))(names[i])
  {
    if HasAny(Pairs(g))(names[i]) { AnyTouches(hash, names[i], Pairs(g)); }
    if TouchesAny(hash, Pairs(g))(names[i]) {
      var p :| p in Pairs(g) && Touches(hash, p)(names[i]);
      PairsOfGroup(groups, g, p);
    }
  }

  lemma FitsHasAny(groups: seq<Group>, g: Group, n: Stored)
    requires g in groups && Pairs(g) != [] && FitsAll(groups)(n)
    ensures HasAny(AllPairs(groups))(n)
  {
    var p :| p in Pairs(g) && p in n.tags;
    PairsOfGroup(groups, g, p);
  }

  /** Without collisions, the query gives the names with the metric that have one of the values for each tag asked for. */
  lemma ManyToManyIsScan(hash: Hash, names: seq<Stored>, m: bytes, groups: seq<Group>)
    requires IdsIncrease(names) && NoCollision(hash, names, AllPairs(groups))
    ensures ManyToMany(hash, names, m, groups) == Scan(names, Both(HasMetric(m), FitsAll(groups)))
  {
    ManyToManyExact(hash, names, m, groups);
    if AllPairs(groups) != [] {
      var g := GroupOfPairs(groups);
      forall i, h | 0 <= i < |names| && h in groups ensures Reaches(hash, h)(names[i]) <==> Pairs(h) == [] || HasAny(Pairs(h))(names[i]) {
        ReachesIsFits(hash, names, groups, h, i);
      }
      forall i | 0 <= i < |names| && FitsAll(groups)(names[i]) ensures HasAny(AllPairs(groups))(names[i]) { FitsHasAny(groups, g, names[i]); }
    }
  }
}
