/** What a collision of the index's own hash does to its queries. */
module IndexCollisions {
  import opened Bytes
  import opened StringTools
  import opened IndexQueries
  import opened SeriesNames
  import C = Canonical
  import T = CanonicalText
  import opened IndexText
  import opened Indexes

  /** Two names with one tag each. */
  function Two(i: nat, j: nat, m: bytes, s: bytes, t: bytes): seq<Stored> { [Stored(i, m, [s]), Stored(j, m, [t])] }

  lemma OneHit(hash: Hash, s: bytes, key: nat)
    ensures Hits(hash, [s], key) == if hash(s) == key then 1 else 0
  {
    assert [s][1..] == [];
  }

  lemma ScanOfTwo(i: nat, j: nat, m: bytes, s: bytes, t: bytes, want: Select)
    ensures var names := Two(i, j, m, s, t);
      Scan(names, want) == (if want(names[0]) then [i] else []) + (if want(names[1]) then [j] else [])
  {
    var names := Two(i, j, m, s, t);
    assert names[..1] == [names[0]] && [names[0]][..0] == [];
    assert Scan([names[0]], want) == Scan([], want) + if want(names[0]) then [i] else [];
  }

  /** With two tags under one key, the query for one of them loses the name that has it. */
  lemma AllTagsLoses(hash: Hash, i: nat, j: nat, m: bytes, s: bytes, t: bytes)
    requires i < j && s != t && hash(s) == hash(t)
    ensures var names := Two(i, j, m, s, t);
      AllTags(hash, names, m, [s]) == [] && Scan(names, Both(HasMetric(m), HasAll([s]))) == [i]
  {
    var names, pairs := Two(i, j, m, s, t), [s];
    var found, want := Both(HasMetric(m), TouchesAll(hash, pairs)), Both(HasMetric(m), HasAll(pairs));
    OneHit(hash, t, hash(s));
    assert s in pairs && s !in names[1].tags;
    assert forall p :: p in pairs ==> p == s;
    assert found(names[1]) && !HasAny(pairs)(names[1]);
    AllTagsGives(hash, names, m, pairs);
    assert s in names[0].tags && want(names[0]) && !want(names[1]);
    ScanOfTwo(i, j, m, s, t, want);
  }

  /** And the query that excludes one of them loses the name that has the other. */
  lemma ExcludeLoses(hash: Hash, i: nat, j: nat, m: bytes, s: bytes, t: bytes)
    requires i < j && s != t && hash(s) == hash(t)
    ensures var names := Two(i, j, m, s, t);
      Exclude(hash, names, m, [s]) == [] && Scan(names, ButNot(HasMetric(m), HasAny([s]))) == [j]
  {
    var names, pairs := Two(i, j, m, s, t), [s];
    var left, want := ButNot(HasMetric(m), TouchesAny(hash, pairs)), ButNot(HasMetric(m), HasAny(pairs));
    OneHit(hash, s, hash(s));
    OneHit(hash, t, hash(s));
    assert s in pairs && forall p :: p in pairs ==> p == s;
    ExcludeGives(hash, names, m, pairs);
    assert Touches(hash, s)(names[0]) && Touches(hash, s)(names[1]);
    assert !left(names[0]) && !left(names[1]);
    ScanOfTwo(i, j, m, s, t, left);
    assert s in names[0].tags && s !in names[1].tags;
    assert !want(names[0]) && want(names[1]);
    ScanOfTwo(i, j, m, s, t, want);
  }

  /** `k=`, the beginning of a tag. */
  const K: bytes := [0x6b, 0x3d]

  /** The tags `k=az` and `k=bY`, and any others with these endings, under the hash of the index: an answer lost each way. */
  lemma CollisionLoses(i: nat, j: nat, m: bytes, x: bytes)
    requires i < j
    ensures var names := Two(i, j, m, x + AZ, x + BY);
      && AllTags(Djb2, names, m, [x + AZ]) == [] && Scan(names, Both(HasMetric(m), HasAll([x + AZ]))) == [i]
      && Exclude(Djb2, names, m, [x + AZ]) == [] && Scan(names, ButNot(HasMetric(m), HasAny([x + AZ]))) == [j]
  {
    AlwaysCollide(x);
    AllTagsLoses(Djb2, i, j, m, x + AZ, x + BY);
    ExcludeLoses(Djb2, i, j, m, x + AZ, x + BY);
  }

  // ---- In an index -----------------------------------------------------------------------------

  /** A stored name is known by its text. */
  lemma SameParts(n: Stored, m: bytes, t: bytes)
    requires Wordy(n) && IsWord(m) && IsWord(t) && TextOf(n) == Render(Name(m, [t]))
    ensures n.metric == m && n.tags == [t]
  {
    WordsOfName(Name(n.metric, n.tags));
    WordsOfName(Name(m, [t]));
    assert ([n.metric] + n.tags)[0] == n.metric && ([n.metric] + n.tags)[1..] == n.tags;
    assert ([m] + [t])[0] == m && ([m] + [t])[1..] == [t];
  }

  /** The metric `m`. */
  const M: bytes := [0x6d]

  /** The tags `k=az` and `k=bY`. */
  const KAZ: bytes := [0x6b, 0x3d, 0x61, 0x7a]
  const KBY: bytes := [0x6b, 0x3d, 0x62, 0x59]

  /** A tag of four letters, the second an equals sign. */
  predicate Short(t: bytes) { |t| == 4 && t[1] == EQUALS && forall i :: 0 <= i < 4 ==> 0x3d <= t[i] < 0x80 && t[i] != ESCAPE && (i != 1 ==> t[i] != EQUALS) }

  lemma ShortOk(t: bytes)
    requires Short(t)
    ensures T.PartOk(t) && TagOk(t) && IsWord(t) && Plain(t)
  {
    T.NoSpaces(t[0], t[1..]);
  }

  lemma MetricOk()
    ensures T.PartOk(M) && IsWord(M) && Plain(M)
  {
    assert M[1..] == [];
  }

  lemma OtherText(m: bytes, s: bytes, t: bytes)
    requires IsWord(m) && IsWord(s) && IsWord(t) && s != t
    ensures Render(Name(m, [s])) != Render(Name(m, [t]))
  {
    WordsOfName(Name(m, [s]));
    WordsOfName(Name(m, [t]));
    assert ([m] + [s])[1] != ([m] + [t])[1];
  }

  lemma NotYet(names: seq<Stored>, m: bytes, t: bytes)
    requires IsWord(m) && IsWord(t)
    requires forall i :: 0 <= i < |names| ==> Wordy(names[i]) && names[i].metric == m && names[i].tags != [t] && |names[i].tags| == 1
    ensures forall i :: 0 <= i < |names| ==> TextOf(names[i]) != Render(Name(m, [t]))
  {
    forall i | 0 <= i < |names| ensures TextOf(names[i]) != Render(Name(m, [t])) {
      var n := names[i];
      assert n.tags == [n.tags[0]] && IsWord(n.tags[0]);
      OtherText(m, n.tags[0], t);
    }
  }

  /** A name not yet in an index, put behind the others. */
  method AppendOne(index: Index, m: bytes, t: bytes)
    requires index.Valid() && T.PartOk(m) && IsWord(m) && Plain(m) && |m| <= 100 && Short(t)
    requires forall i :: 0 <= i < |index.names| ==> index.names[i].metric == m && index.names[i].tags != [t] && |index.names[i].tags| == 1
    modifies index, index.pool
    ensures index.Valid() && |index.names| == |old(index.names)| + 1 && index.names[..|old(index.names)|] == old(index.names)
    ensures var n := index.names[|old(index.names)|]; n.metric == m && n.tags == [t]
  {
    NameTaken(m, t);
    NotYet(index.names, m, t);
    ghost var k := |index.names|;
    AppendNew(index, m + [SPACE] + t, Render(Name(m, [t])));
    SameParts(index.names[k], m, t);
  }

  lemma NameTaken(m: bytes, t: bytes)
    requires T.PartOk(m) && Plain(m) && |m| <= 100 && Short(t)
    ensures IsWord(t) && Plain(m + [SPACE] + t) && C.ToCanonical(m + [SPACE] + t, NAME_BUFFER) == C.Form(Render(Name(m, [t])))
  {
    ShortOk(t);
    T.OneTagForm(m, t, NAME_BUFFER);
    T.OneTagRender(m, t);
  }

  /** A text not yet in an index is put behind the others. */
  method AppendNew(index: Index, w: bytes, ghost text: bytes)
    requires index.Valid() && Plain(w) && C.ToCanonical(w, NAME_BUFFER) == C.Form(text)
    requires forall i :: 0 <= i < |index.names| ==> TextOf(index.names[i]) != text
    modifies index, index.pool
    ensures index.Valid() && |index.names| == |old(index.names)| + 1 && index.names[..|old(index.names)|] == old(index.names)
    ensures TextOf(index.names[|old(index.names)|]) == text && Wordy(index.names[|old(index.names)|])
  {
    var r := index.Append(w);
  }

  /** The names `m k=az` and `m k=bY` in an index: asked for `k=az` it gives nothing, and asked for all but `k=az` it gives nothing. */
  method TwoNames() returns (all: seq<nat>, but: seq<nat>, ghost names: seq<Stored>)
    ensures |names| == 2 && names[0].metric == names[1].metric == M && names[0].tags == [KAZ] && names[1].tags == [KBY]
    ensures all == [] && Scan(names, Both(HasMetric(M), HasAll([KAZ]))) == [names[0].id]
    ensures but == [] && Scan(names, ButNot(HasMetric(M), HasAny([KAZ]))) == [names[1].id]
  {
    var index := new Index(Djb2);
    MetricOk();
    AppendOne(index, M, KAZ);
    AppendOne(index, M, KBY);
    names := index.names;
    TwoLost(names);
    all := index.QueryAllTags(M, [KAZ]);
    but := index.QueryExclude(M, [KAZ]);
  }

  lemma TwoLost(names: seq<Stored>)
    requires |names| == 2 && IdsIncrease(names) && names[0].metric == names[1].metric == M && names[0].tags == [KAZ] && names[1].tags == [KBY]
    ensures AllTags(Djb2, names, M, [KAZ]) == [] && Scan(names, Both(HasMetric(M), HasAll([KAZ]))) == [names[0].id]
    ensures Exclude(Djb2, names, M, [KAZ]) == [] && Scan(names, ButNot(HasMetric(M), HasAny([KAZ]))) == [names[1].id]
  {
    assert KAZ == K + AZ && KBY == K + BY;
    assert names == Two(names[0].id, names[1].id, M, K + AZ, K + BY);
    CollisionLoses(names[0].id, names[1].id, M, K);
  }
}
