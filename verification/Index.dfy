/** The index of series names: appended to name by name, queried through posting lists. */
module Indexes {
  import opened Bytes
  import opened SortedLists
  import SeriesNames
  import C = Canonical
  import CanonicalText
  import opened IndexText
  import opened IndexQueries
  import opened StringPools

  const NAME_BUFFER := 0x1000

  function TextOf(n: Stored): bytes { SeriesNames.Render(SeriesNames.Name(n.metric, n.tags)) }

  function Posting(table: map<nat, seq<nat>>, key: nat): seq<nat> { if key in table then table[key] else [] }

  /** `InvertedIndex::add`. */
  function AddTo(table: map<nat, seq<nat>>, key: nat, id: nat): map<nat, seq<nat>> { table[key := Posting(table, key) + [id]] }

  datatype Appended = Rejected(form: C.Form) | Known(id: nat) | Added(id: nat)

  lemma {:induction false} HitsSnoc(hash: Hash, tags: seq<bytes>, t: bytes, key: nat)
    ensures Hits(hash, tags + [t], key) == Hits(hash, tags, key) + if hash(t) == key then 1 else 0
    decreases |tags|
  {
    if tags == [] {
      assert tags + [t] == [t] && [t][1..] == [];
    } else {
      assert (tags + [t])[1..] == tags[1..] + [t];
      HitsSnoc(hash, tags[1..], t, key);
    }
  }

  lemma {:induction false} RepeatSnoc(id: nat, n: nat)
    ensures Repeat(id, n) + [id] == Repeat(id, n + 1)
  {
    if n > 0 {
      RepeatSnoc(id, n - 1);
      Assoc([id], Repeat(id, n - 1), [id]);
    }
  }

  /** `table` is `before` with an id added for each tag. */
  ghost predicate WithTags(hash: Hash, table: map<nat, seq<nat>>, before: map<nat, seq<nat>>, id: nat, tags: seq<bytes>) {
    forall key :: Posting(table, key) == Posting(before, key) + Repeat(id, Hits(hash, tags, key))
  }

  lemma OneTagMore(hash: Hash, table: map<nat, seq<nat>>, before: map<nat, seq<nat>>, id: nat, tags: seq<bytes>, t: bytes)
    requires WithTags(hash, table, before, id, tags)
    ensures WithTags(hash, AddTo(table, hash(t), id), before, id, tags + [t])
  {
    forall key ensures Posting(AddTo(table, hash(t), id), key) == Posting(before, key) + Repeat(id, Hits(hash, tags + [t], key)) {
      HitsSnoc(hash, tags, t, key);
      RepeatSnoc(id, Hits(hash, tags, key));
      Assoc(Posting(before, key), Repeat(id, Hits(hash, tags, key)), [id]);
    }
  }

  type Texts = Stored -> bytes

  function NameTexts(): Texts { (n: Stored) => TextOf(n) }

  ghost predicate Wordy(n: Stored) { IsWord(n.metric) && AllWords(n.tags) && 0 !in TextOf(n) }

  /** The text of a name is in the pool under its id, and in the table. */
  ghost predicate IsFiled(text: Texts, n: Stored, given: map<nat, bytes>, table: map<bytes, nat>) {
    n.id in given && given[n.id] == text(n) && text(n) in table && table[text(n)] == n.id
  }

  ghost predicate Filed(text: Texts, names: seq<Stored>, given: map<nat, bytes>, table: map<bytes, nat>) {
    && (forall i :: 0 <= i < |names| ==> IsFiled(text, names[i], given, table))
    && (forall t :: t in table ==> exists i :: 0 <= i < |names| && text(names[i]) == t)
  }

  ghost predicate Listed(hash: Hash, names: seq<Stored>, tagvalues: map<nat, seq<nat>>, metrics: map<nat, seq<nat>>) {
    && (forall key :: Posting(tagvalues, key) == TagPosting(hash, names, key))
    && (forall key :: Posting(metrics, key) == MetricPosting(hash, names, key))
  }

  lemma FiledMore(text: Texts, names: seq<Stored>, given: map<nat, bytes>, table: map<bytes, nat>, n: Stored)
    requires Filed(text, names, given, table) && (forall i :: i in given ==> i < n.id) && text(n) !in table
    ensures Filed(text, names + [n], given[n.id := text(n)], table[text(n) := n.id])
  {
    var names', given', table' := names + [n], given[n.id := text(n)], table[text(n) := n.id];
    forall i | 0 <= i < |names'| ensures IsFiled(text, names'[i], given', table') {
      if i < |names| { assert IsFiled(text, names[i], given, table); }
    }
    forall t | t in table' ensures exists i :: 0 <= i < |names'| && text(names'[i]) == t {
      if t == text(n) {
        assert text(names'[|names|]) == t;
      } else {
        var i :| 0 <= i < |names| && text(names[i]) == t;
        assert names'[i] == names[i];
      }
    }
  }

  lemma IdsMore(text: Texts, names: seq<Stored>, given: map<nat, bytes>, table: map<bytes, nat>, n: Stored)
    requires Filed(text, names, given, table) && IdsIncrease(names) && forall i :: i in given ==> i < n.id
    ensures IdsIncrease(names + [n])
  {
    assert forall i :: 0 <= i < |names| ==> IsFiled(text, names[i], given, table);
  }

  lemma ListedMore(hash: Hash, names: seq<Stored>, tagvalues: map<nat, seq<nat>>, metrics: map<nat, seq<nat>>, n: Stored, tagvalues': map<nat, seq<nat>>)
    requires Listed(hash, names, tagvalues, metrics) && WithTags(hash, tagvalues', tagvalues, n.id, n.tags)
    ensures Listed(hash, names + [n], tagvalues', AddTo(metrics, hash(n.metric), n.id))
  {
    OneNameMore(hash, names, n);
  }

  class Index {
    const hash: Hash
    const pool: StringPool
    var table: map<bytes, nat>
    var metrics: map<nat, seq<nat>>
    var tagvalues: map<nat, seq<nat>>
    ghost var names: seq<Stored>

    /** The pool holds the text of every name, and the lists are those that appending the names leaves. */
    ghost predicate Valid()
      reads this, pool
    {
      && pool.Valid() && IdsIncrease(names) && (forall i :: 0 <= i < |names| ==> Wordy(names[i]))
      && Filed(NameTexts(), names, pool.given, table) && Listed(hash, names, tagvalues, metrics)
    }

    constructor (h: Hash)
      ensures Valid() && names == [] && hash == h && fresh(pool)
    {
      hash := h;
      pool := new StringPool();
      table, metrics, tagvalues, names := map[], map[], map[], [];
    }

    /** `write_tags`: the id goes under the hash of each word. */
    method WriteTags(text: bytes, id: nat)
      modifies this`tagvalues
      ensures WithTags(hash, tagvalues, old(tagvalues), id, Words(text))
    {
      assert text[0..] == text;
      var p := SeriesNames.SkipBlanks(text, 0);
      ghost var done: seq<bytes> := [];
      assert [] + Words(text) == Words(text);
      while p < |text|
        invariant p <= |text| && SeriesNames.SkipSpace(text[p..]) == text[p..] && done + Words(text[p..]) == Words(text)
        invariant WithTags(hash, tagvalues, old(tagvalues), id, done)
        decreases |text| - p
      {
        var q, word := ReadWord(text, p);
        OneTagMore(hash, tagvalues, old(tagvalues), id, done, word);
        Assoc(done, [word], Words(text[q..]));
        tagvalues := AddTo(tagvalues, hash(word), id);
        done := done + [word];
        p := SeriesNames.SkipBlanks(text, q);
      }
      assert done + [] == done;
    }

    /** The text goes to the pool and into the table. */
    method File(text: bytes, ghost texts: Texts, ghost metric: bytes, ghost tags: seq<bytes>) returns (id: nat)
      requires pool.Valid() && IdsIncrease(names) && Filed(texts, names, pool.given, table) && text !in table && text != []
      requires forall i :: texts(Stored(i, metric, tags)) == text
      modifies this`table, pool
      ensures pool.Valid() && IdsIncrease(names + [Stored(id, metric, tags)])
      ensures Filed(texts, names + [Stored(id, metric, tags)], pool.given, table)
    {
      id := pool.Add(text);
      ghost var s := Stored(id, metric, tags);
      FiledMore(texts, names, old(pool.given), table, s);
      IdsMore(texts, names, old(pool.given), table, s);
      table := table[text := id];
    }

    /** A new name: its text is filed and its parts go into the lists. */
    method Insert(text: bytes, ghost n: SeriesNames.Name) returns (id: nat)
      requires Valid() && text !in table && text == SeriesNames.Render(n) && 0 !in text && text != []
      requires IsWord(n.metric) && AllWords(n.tags)
      modifies this, pool
      ensures Valid() && names == old(names) + [Stored(id, n.metric, n.tags)]
    {
      id := File(text, NameTexts(), n.metric, n.tags);
      WriteParts(text, id, n);
      names := names + [Stored(id, n.metric, n.tags)];
      assert Wordy(Stored(id, n.metric, n.tags));
    }

    method WriteParts(text: bytes, id: nat, ghost n: SeriesNames.Name)
      requires text == SeriesNames.Render(n) && IsWord(n.metric) && AllWords(n.tags) && Listed(hash, names, tagvalues, metrics)
      modifies this`tagvalues, this`metrics
      ensures Listed(hash, names + [Stored(id, n.metric, n.tags)], tagvalues, metrics)
    {
      WordsOfName(n);
      WordsOfTags(n.tags);
      assert text[0..] == text;
      var p, metric := ReadWord(text, 0);
      WriteTags(text[p..], id);
      ListedMore(hash, names, old(tagvalues), metrics, Stored(id, n.metric, n.tags), tagvalues);
      metrics := AddTo(metrics, hash(metric), id);
    }

    /** `append`: the id of the canonical form, which is added if it is new. */
    method Append(w: bytes) returns (r: Appended)
      requires Valid() && Plain(w)
      modifies this, pool
      ensures Valid()
      ensures match r
        case Rejected(form) => form == C.ToCanonical(w, NAME_BUFFER) && !form.Form? && names == old(names)
        case Known(id) => names == old(names) && exists n <- names :: n.id == id && C.ToCanonical(w, NAME_BUFFER) == C.Form(TextOf(n))
        case Added(id) =>
          && |names| == |old(names)| + 1 && names[..|old(names)|] == old(names)
          && names[|old(names)|].id == id && C.ToCanonical(w, NAME_BUFFER) == C.Form(TextOf(names[|old(names)|]))
          && forall i :: 0 <= i < |old(names)| ==> TextOf(old(names)[i]) != TextOf(names[|old(names)|])
    {
      var form := CanonicalText.ToCanonicalForm(w, NAME_BUFFER);
      if !form.Form? { return Rejected(form); }
      ghost var n := StoredParts(w, NAME_BUFFER);
      if form.out in table {
        KnownName(form.out);
        return Known(table[form.out]);
      }
      NewName(form.out);
      var id := Insert(form.out, n);
      r := Added(id);
    }

    lemma KnownName(text: bytes)
      requires Valid() && text in table
      ensures exists n <- names :: n.id == table[text] && TextOf(n) == text
    {
      var i :| 0 <= i < |names| && NameTexts()(names[i]) == text;
      assert names[i] in names && IsFiled(NameTexts(), names[i], pool.given, table);
    }

    lemma NewName(text: bytes)
      requires Valid() && text !in table
      ensures forall i :: 0 <= i < |names| ==> TextOf(names[i]) != text
    {
      assert forall i :: 0 <= i < |names| ==> IsFiled(NameTexts(), names[i], pool.given, table);
    }

    // ---- Queries -------------------------------------------------------------------------------

    ghost predicate Knows(id: nat)
      reads this
    {
      exists i :: 0 <= i < |names| && names[i].id == id
    }

    ghost predicate KnowsAll(ids: seq<nat>)
      reads this
    {
      forall x :: x in ids ==> Knows(x)
    }

    /** The text stored under an id, and its words. */
    method TextAt(id: nat) returns (text: bytes)
      requires Valid() && Knows(id)
      ensures |Lookup(names, id)| == 1 && Words(text) == [Lookup(names, id)[0].metric] + Lookup(names, id)[0].tags
    {
      ghost var i :| 0 <= i < |names| && names[i].id == id;
      ghost var n := names[i];
      assert IsFiled(NameTexts(), n, pool.given, table) && Wordy(n);
      LookupIs(names, i);
      PooledId(id);
      var found;
      found, text := pool.Str(id);
      FoundAgain(TextOf(n));
      WordsOfName(SeriesNames.Name(n.metric, n.tags));
    }

    lemma PooledId(id: nat)
      requires Valid() && id in pool.given
      ensures id >= MAX_BIN_SIZE
    {
      assert Holds(pool.pool, id, pool.given[id]);
    }

    method MetricPasses(id: nat, m: bytes) returns (ok: bool)
      requires Valid() && Knows(id)
      ensures ok == Passes(names, HasMetric(m))(id)
    {
      var text := TextAt(id);
      ok := CheckMetric(text, m);
    }

    /** Any of the pairs. */
    method PairPasses(id: nat, pairs: seq<bytes>) returns (ok: bool)
      requires Valid() && Knows(id)
      ensures ok == Passes(names, HasAny(pairs))(id)
    {
      var text := TextAt(id);
      assert Words(text)[1..] == Lookup(names, id)[0].tags;
      ok := CheckTags(text, pairs);
    }

    method AllPassMetric(ids: seq<nat>, m: bytes, ghost check: Check) returns (all: bool)
      requires Valid() && KnowsAll(ids) && check == Passes(names, HasMetric(m))
      ensures all == AllPass(ids, check)
    {
      var i := 0;
      while i < |ids|
        invariant 0 <= i <= |ids| && AllPass(ids[..i], check)
      {
        assert ids[i] in ids;
        OneMorePasses(ids, i, check);
        var ok := MetricPasses(ids[i], m);
        if !ok { return false; }
        i := i + 1;
      }
      assert ids[..i] == ids;
      all := true;
    }

    method KeepMetric(ids: seq<nat>, m: bytes, ghost check: Check) returns (r: seq<nat>)
      requires Valid() && KnowsAll(ids) && check == Passes(names, HasMetric(m))
      ensures r == Keep(ids, check)
    {
      r := [];
      var i := |ids|;
      assert ids[i..] == [];
      while i > 0
        invariant 0 <= i <= |ids| && r == Keep(ids[i..], check)
      {
        i := i - 1;
        assert ids[i] in ids && ids[i..][1..] == ids[i + 1..];
        var ok := MetricPasses(ids[i], m);
        if ok { r := [ids[i]] + r; } else { assert [] + r == r; }
      }
      assert ids[0..] == ids;
    }

    /** `filter` by metric: one pass to see whether anything has to go, a second to leave it out. */
    method FilterMetric(ids: seq<nat>, m: bytes) returns (r: seq<nat>)
      requires Valid() && KnowsAll(ids)
      ensures r == FilterOne(ids, Passes(names, HasMetric(m)))
    {
      ghost var check := Passes(names, HasMetric(m));
      var all := AllPassMetric(ids, m, check);
      if all { return ids; }
      r := KeepMetric(ids, m, check);
    }

    /** `filter` by several pairs: the second pass adds nothing. */
    method FilterPairs(ids: seq<nat>, pairs: seq<bytes>, ghost check: Check) returns (r: seq<nat>)
      requires Valid() && KnowsAll(ids) && check == Passes(names, HasAny(pairs))
      ensures r == FilterAny(ids, check)
    {
      var i := 0;
      while i < |ids|
        invariant 0 <= i <= |ids| && AllPass(ids[..i], check)
      {
        assert ids[i] in ids;
        OneMorePasses(ids, i, check);
        var ok := PairPasses(ids[i], pairs);
        if !ok { return []; }
        i := i + 1;
      }
      assert ids[..i] == ids;
      r := ids;
    }

    method MetricQuery(m: bytes) returns (r: seq<nat>)
      requires Valid()
      ensures r == MetricPosting(hash, names, hash(m)) && KnowsAll(r)
    {
      r := Posting(metrics, hash(m));
      KnownMetrics(names, hash, hash(m));
    }

    /** The names under the metric's key and under the keys of all pairs. */
    method MeetPairs(m: bytes, pairs: seq<bytes>) returns (r: seq<nat>)
      requires Valid()
      ensures r == MeetAll(hash, names, MetricPosting(hash, names, hash(m)), pairs) && KnowsAll(r)
    {
      r := MetricQuery(m);
      ghost var first := r;
      var i := 0;
      assert pairs[0..] == pairs;
      while i < |pairs|
        invariant 0 <= i <= |pairs| && KnowsAll(r)
        invariant MeetAll(hash, names, first, pairs) == MeetAll(hash, names, r, pairs[i..])
      {
        assert pairs[i..][1..] == pairs[i + 1..];
        MeetFrom(r, Posting(tagvalues, hash(pairs[i])));
        r := Meet(r, Posting(tagvalues, hash(pairs[i])));
        i := i + 1;
      }
    }

    method QueryAllTags(m: bytes, pairs: seq<bytes>) returns (r: seq<nat>)
      requires Valid()
      ensures r == AllTags(hash, names, m, pairs)
      ensures NoCollision(hash, names, pairs) && pairs != [] ==> r == Scan(names, Both(HasMetric(m), HasAll(pairs)))
    {
      var met := MeetPairs(m, pairs);
      r := FilterMetric(met, m);
      FilterFrom(met, Passes(names, HasMetric(m)));
      r := FilterPairs(r, pairs, Passes(names, HasAny(pairs)));
      if NoCollision(hash, names, pairs) && pairs != [] { AllTagsIsScan(hash, names, m, pairs); }
    }

    method QueryManyToMany(m: bytes, groups: seq<Group>) returns (r: seq<nat>)
      requires Valid()
      ensures r == ManyToMany(hash, names, m, groups)
      ensures NoCollision(hash, names, AllPairs(groups)) ==> r == Scan(names, Both(HasMetric(m), FitsAll(groups)))
    {
      if NoCollision(hash, names, AllPairs(groups)) { ManyToManyIsScan(hash, names, m, groups); }
      var combined, pairs := CombineGroups(hash, tagvalues, names, groups);
      var metric := MetricQuery(m);
      if combined.None? {
        r := FilterMetric(metric, m);
        return;
      }
      MeetFromSecond(combined.value, metric);
      r := FilterMetric(Meet(combined.value, metric), m);
      FilterFrom(Meet(combined.value, metric), Passes(names, HasMetric(m)));
      r := FilterPairs(r, pairs, Passes(names, HasAny(pairs)));
    }

    /** The names under the metric's key and under none of the keys of the pairs. */
    method LeaveOut(m: bytes, pairs: seq<bytes>) returns (r: seq<nat>)
      requires Valid()
      ensures r == WithoutAll(hash, names, MetricPosting(hash, names, hash(m)), pairs) && KnowsAll(r)
    {
      r := MetricQuery(m);
      ghost var first := r;
      var i := 0;
      assert pairs[0..] == pairs;
      while i < |pairs|
        invariant 0 <= i <= |pairs| && KnowsAll(r)
        invariant WithoutAll(hash, names, first, pairs) == WithoutAll(hash, names, r, pairs[i..])
      {
        assert pairs[i..][1..] == pairs[i + 1..];
        WithoutFrom(r, Posting(tagvalues, hash(pairs[i])));
        r := Without(r, Posting(tagvalues, hash(pairs[i])));
        i := i + 1;
      }
    }

    method QueryExclude(m: bytes, pairs: seq<bytes>) returns (r: seq<nat>)
      requires Valid()
      ensures r == Exclude(hash, names, m, pairs)
      ensures NoCollision(hash, names, pairs) ==> r == Scan(names, ButNot(HasMetric(m), HasAny(pairs)))
    {
      var left := LeaveOut(m, pairs);
      r := FilterMetric(left, m);
      if NoCollision(hash, names, pairs) { ExcludeIsScan(hash, names, m, pairs); }
    }
  }

  /** The values of a group, each list joined to those before it. */
  method JoinGroup(hash: Hash, tagvalues: map<nat, seq<nat>>, ghost names: seq<Stored>, pairs: seq<bytes>) returns (r: seq<nat>)
    requires pairs != [] && forall key :: Posting(tagvalues, key) == TagPosting(hash, names, key)
    ensures r == AnyOf(hash, names, pairs)
  {
    r := Posting(tagvalues, hash(pairs[0]));
    var i := 1;
    while i < |pairs|
      invariant 1 <= i <= |pairs| && AnyOf(hash, names, pairs) == JoinAll(hash, names, r, pairs[i..])
    {
      assert pairs[i..][1..] == pairs[i + 1..];
      r := Unique(Join(r, Posting(tagvalues, hash(pairs[i]))));
      i := i + 1;
    }
  }

  /** The groups one after the other; none as long as no group has values. */
  method CombineGroups(hash: Hash, tagvalues: map<nat, seq<nat>>, ghost names: seq<Stored>, groups: seq<Group>)
    returns (acc: Option<seq<nat>>, all: seq<bytes>)
    requires forall key :: Posting(tagvalues, key) == TagPosting(hash, names, key)
    ensures acc == Combined(hash, names, None, groups) && all == AllPairs(groups)
  {
    acc, all := None, [];
    var i := 0;
    assert groups[0..] == groups && [] + AllPairs(groups) == AllPairs(groups);
    while i < |groups|
      invariant 0 <= i <= |groups| && Combined(hash, names, None, groups) == Combined(hash, names, acc, groups[i..])
      invariant all + AllPairs(groups[i..]) == AllPairs(groups)
    {
      assert groups[i..][1..] == groups[i + 1..];
      var ps := Pairs(groups[i]);
      Assoc(all, ps, AllPairs(groups[i + 1..]));
      if ps != [] {
        var r := JoinGroup(hash, tagvalues, names, ps);
        acc := if acc.None? then Some(r) else Some(Meet(acc.value, r));
      }
      all := all + ps;
      i := i + 1;
    }
    assert all + [] == all;
  }

  lemma {:induction false} MeetFromSecond(a: seq<nat>, b: seq<nat>)
    ensures forall x :: x in Meet(a, b) ==> x in b
    decreases |a| + |b|
  {
    if a != [] && b != [] {
      if a[0] < b[0] { MeetFromSecond(a[1..], b); } else if b[0] < a[0] { MeetFromSecond(a, b[1..]); } else { MeetFromSecond(a[1..], b[1..]); }
    }
  }

  lemma {:induction false} KnownMetrics(names: seq<Stored>, hash: Hash, key: nat)
    ensures forall x :: x in MetricPosting(hash, names, key) ==> exists i :: 0 <= i < |names| && names[i].id == x
  {
    if names != [] {
      var n := |names| - 1;
      KnownMetrics(names[..n], hash, key);
      forall x | x in MetricPosting(hash, names, key) ensures exists i :: 0 <= i < |names| && names[i].id == x {
        if x != names[n].id {
          assert x in MetricPosting(hash, names[..n], key);
          var i :| 0 <= i < n && names[..n][i].id == x;
          assert names[i].id == x;
        }
      }
    }
  }

  lemma {:induction false} MeetFrom(a: seq<nat>, b: seq<nat>)
    ensures forall x :: x in Meet(a, b) ==> x in a
    decreases |a| + |b|
  {
    if a != [] && b != [] {
      if a[0] < b[0] { MeetFrom(a[1..], b); } else if b[0] < a[0] { MeetFrom(a, b[1..]); } else { MeetFrom(a[1..], b[1..]); }
    }
  }

  lemma {:induction false} WithoutFrom(a: seq<nat>, b: seq<nat>)
    ensures forall x :: x in Without(a, b) ==> x in a
    decreases |a| + |b|
  {
    if a != [] && b != [] {
      if a[0] < b[0] { WithoutFrom(a[1..], b); } else if b[0] < a[0] { WithoutFrom(a, b[1..]); } else { WithoutFrom(a[1..], b[1..]); }
    }
  }

  lemma {:induction false} KeepFrom(a: seq<nat>, check: Check)
    ensures forall x :: x in Keep(a, check) ==> x in a
  {
    if a != [] { KeepFrom(a[1..], check); }
  }

  lemma FilterFrom(a: seq<nat>, check: Check)
    ensures forall x :: x in FilterOne(a, check) ==> x in a
  {
    KeepFrom(a, check);
  }

  lemma OneNameMore(hash: Hash, names: seq<Stored>, n: Stored)
    ensures forall key :: TagPosting(hash, names + [n], key) == TagPosting(hash, names, key) + Repeat(n.id, Hits(hash, n.tags, key))
    ensures forall key :: MetricPosting(hash, names + [n], key) == MetricPosting(hash, names, key) + if hash(n.metric) == key then [n.id] else []
  {
    assert (names + [n])[..|names|] == names;
  }
}
