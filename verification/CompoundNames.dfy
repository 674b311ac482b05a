/** Compound names: which of their parts are names of their own, and what becomes of the others. */
module CompoundNames {
  import opened Bytes
  import opened SeriesNames
  import opened Canonical
  import T = CanonicalText
  import opened Registry
  import opened Sessions

  predicate EndsEscaping(t: bytes) { t != [] && t[|t| - 1] == ESCAPE }

  /** All tags but the last end in a backslash: a token in front of them that does so too goes on to the end. */
  predicate RunsOn(ts: seq<bytes>) { forall j :: 0 <= j < |ts| - 1 ==> EndsEscaping(ts[j]) }

  /** A part that is a name of its own in front of the tags: not empty, not behind a tab, and ended by a space. */
  predicate Sound(p: bytes, ts: seq<bytes>) { p != [] && p[0] != TAB && !(EndsEscaping(p) && RunsOn(ts)) }

  // ---- The parts of a metric -------------------------------------------------------------------

  /** A part has no space in it but behind a backslash. */
  lemma {:induction false} PartsEscaped(prev: byte, m: bytes, i: nat)
    requires Escaped(prev, m) && i < |Metrics(m)|
    ensures Escaped(if i == 0 then prev else BAR, Metrics(m)[i])
    decreases |m|
  {
    if m != [] {
      var rest := Metrics(m[1..]);
      if m[0] == BAR {
        if i > 0 { PartsEscaped(BAR, m[1..], i - 1); }
      } else {
        PartsEscaped(m[0], m[1..], i);
        if i == 0 { assert ([m[0]] + rest[0])[1..] == rest[0]; }
      }
    }
  }

  lemma PartKinds(m: bytes, i: nat)
    requires IsToken(m) && i < |Metrics(m)|
    ensures var p := Metrics(m)[i]; p == [] || p[0] == TAB || IsToken(p)
  {
    PartsEscaped(BAR, m, i);
  }

  // ---- Sound parts -----------------------------------------------------------------------------

  /** A token that ends in a backslash takes in the first tag. */
  lemma TakesIn(p: bytes, ts: seq<bytes>)
    requires IsToken(p) && EndsEscaping(p) && ts != [] && TagsOk(ts)
    ensures var p' := p + [SPACE] + ts[0];
      IsToken(p') && EndsEscaping(p') == EndsEscaping(ts[0]) && p + RenderTags(ts) == p' + RenderTags(ts[1..])
  {
    Swallows(p, ts[0]);
    LastOfSum(p + [SPACE], ts[0]);
    Regrouped(p, ts[0], RenderTags(ts[1..]));
  }

  lemma LastOfSum(a: bytes, t: bytes)
    requires t != []
    ensures EndsEscaping(a + t) == EndsEscaping(t)
  {
  }

  lemma Regrouped(p: bytes, t: bytes, rest: bytes)
    ensures p + ([SPACE] + t + rest) == p + [SPACE] + t + rest
  {
  }

  lemma TagsLeft(ts: seq<bytes>)
    requires ts != [] && TagsOk(ts) && Sorted(ts)
    ensures TagsOk(ts[1..]) && Sorted(ts[1..]) && (EndsEscaping(ts[0]) && RunsOn(ts[1..]) ==> RunsOn(ts))
  {
    if EndsEscaping(ts[0]) && RunsOn(ts[1..]) {
      forall j | 0 <= j < |ts| - 1 ensures EndsEscaping(ts[j]) {
        if j > 0 { assert ts[j] == ts[1..][j - 1]; }
      }
    }
  }

  lemma {:induction false} SoundIsCanonical(p: bytes, ts: seq<bytes>)
    requires IsToken(p) && ts != [] && TagsOk(ts) && Sorted(ts) && |ts| <= MAX_TAGS
    requires |p + RenderTags(ts)| <= MAX_SNAME && !(EndsEscaping(p) && RunsOn(ts))
    ensures IsCanonical(p + RenderTags(ts))
    decreases |ts|
  {
    if EndsEscaping(p) {
      assert |ts| > 1;
      TakesIn(p, ts);
      TagsLeft(ts);
      SoundIsCanonical(p + [SPACE] + ts[0], ts[1..]);
    } else {
      var us := SortedNameBack(p, ts);
      SortKeeps(us);
      T.FormOf(p + RenderTags(ts), MAX_SNAME, Name(p, us));
    }
  }

  // ---- Other parts -----------------------------------------------------------------------------

  /** A text whose first token leaves something, with nothing blank in front: all canonical forms are. */
  predicate Shaped(n: bytes) { n != [] && !IsBlank(n[0]) && Token(n).rest != [] }

  lemma FormShaped(w: bytes)
    requires ToCanonical(w, MAX_SNAME).Form?
    ensures Shaped(ToCanonical(w, MAX_SNAME).out)
  {
    FormParts(w, MAX_SNAME);
    ParsedIsOk(w);
    SortLength(Parse(w).value.tags);
  }

  /** A token that runs on is all of the text. */
  lemma {:induction false} TakesAll(p: bytes, ts: seq<bytes>)
    requires IsToken(p) && EndsEscaping(p) && ts != [] && TagsOk(ts) && RunsOn(ts)
    ensures IsToken(p + RenderTags(ts))
    decreases |ts|
  {
    TakesIn(p, ts);
    var p', rest := p + [SPACE] + ts[0], ts[1..];
    if rest == [] {
      assert p' + RenderTags(rest) == p';
    } else {
      assert forall j :: 0 <= j < |rest| - 1 ==> rest[j] == ts[j + 1];
      TakesAll(p', rest);
    }
  }

  /** A part that is not sound makes no text that a canonical form could be. */
  lemma NotShaped(p: bytes, ts: seq<bytes>)
    requires (p == [] || p[0] == TAB || IsToken(p)) && ts != [] && TagsOk(ts) && !Sound(p, ts)
    ensures !Shaped(p + RenderTags(ts))
  {
    var n := p + RenderTags(ts);
    if p == [] {
      assert n[0] == RenderTags(ts)[0] == SPACE;
    } else if p[0] != TAB {
      TakesAll(p, ts);
      TokenBack(n, []);
      assert n + [] == n;
    }
  }

  /** The registry files canonical forms only. */
  ghost predicate Filed(m: Matcher) { forall n :: n in m.table ==> Shaped(n) }

  /** A text that is one, or has one. */
  predicate Takeable(n: bytes) { Shaped(n) || ToCanonical(n, MAX_SNAME).Form? }

  /** And sessions note an id, other than zero, for nothing else. */
  ghost predicate Noted(local: map<bytes, int>) { forall n :: n in local && local[n] != 0 ==> Takeable(n) }

  ghost predicate Sane(b: Both) { Filed(b.global) && Noted(b.local) }

  lemma ResolveFiles(b: Both, name: bytes)
    requires Filed(b.global)
    ensures Filed(ResolveName(b, name).known.global)
    ensures Noted(b.local) ==> Noted(ResolveName(b, name).known.local)
  {
    var form := ToCanonical(name, MAX_SNAME);
    if form.Form? { FormShaped(name); }
    AddFiles(b.global, name, form);
    NoteTakes(b, name, form);
  }

  lemma AddFiles(m: Matcher, name: bytes, form: Form)
    requires Filed(m) && (form.Form? ==> Shaped(form.out))
    ensures Filed(AddForm(m, name, form).matcher)
  {
  }

  lemma NoteTakes(b: Both, name: bytes, form: Form)
    requires Filed(b.global) && form == ToCanonical(name, MAX_SNAME)
    ensures var r := ResolveForm(b.global, name, form); r.id != 0 ==> Takeable(name)
  {
    if Match(b.global.table, name) != 0 { assert Shaped(name); }
  }

  lemma {:induction false} ResolveNamesFiles(b: Both, names: seq<bytes>)
    requires Filed(b.global)
    ensures Filed(ResolveNames(b, names).known.global)
    ensures Noted(b.local) ==> Noted(ResolveNames(b, names).known.local)
    decreases |names|
  {
    if names != [] {
      ResolveFiles(b, names[0]);
      ResolveNamesFiles(ResolveName(b, names[0]).known, names[1..]);
    }
  }

  // ---- Compound names --------------------------------------------------------------------------

  ghost predicate AllSound(ms: seq<bytes>, ts: seq<bytes>) { forall i :: 0 <= i < |ms| ==> Sound(ms[i], ts) }

  lemma {:induction false} AllNamesCanonical(ms: seq<bytes>, ts: seq<bytes>)
    requires forall i :: 0 <= i < |ms| ==> IsCanonical(ms[i] + RenderTags(ts))
    ensures AllCanonical(SingleNames(ms, RenderTags(ts)))
  {
    if ms != [] {
      AllNamesCanonical(ms[1..], ts);
      var names := SingleNames(ms, RenderTags(ts));
      assert names[1..] == SingleNames(ms[1..], RenderTags(ts));
      assert IsCanonical(ms[0] + RenderTags(ts));
    }
  }

  /** What a compound name is made of. */
  lemma CompoundParts(w: bytes)
    requires ToCanonical(w, MAX_SNAME).Form? && Distinct(Parse(w).value.tags)
    ensures var n := Parse(w).value; var ms, ts := Metrics(n.metric), Sort(n.tags);
      && NamesIn(ToCanonical(w, MAX_SNAME).out) == SingleNames(ms, RenderTags(ts))
      && ts != [] && TagsOk(ts) && Sorted(ts) && |ts| <= MAX_TAGS && IsToken(n.metric)
      && forall i :: 0 <= i < |ms| ==> |ms[i] + RenderTags(ts)| <= MAX_SNAME
  {
    var n := Parse(w).value;
    FormParts(w, MAX_SNAME);
    ParsedIsOk(w);
    NoLonger(w, MAX_SNAME);
    SortOk(n.tags);
    MetricsShorter(n.metric);
  }

  lemma SoundServed(ms: seq<bytes>, ts: seq<bytes>, b: Both)
    requires Agrees(b) && ts != [] && TagsOk(ts) && Sorted(ts) && |ts| <= MAX_TAGS && AllSound(ms, ts)
    requires forall i :: 0 <= i < |ms| ==> |ms[i] + RenderTags(ts)| <= MAX_SNAME && (ms[i] == [] || ms[i][0] == TAB || IsToken(ms[i]))
    ensures var names := SingleNames(ms, RenderTags(ts)); Served(b, names, ResolveNames(b, names))
  {
    forall i | 0 <= i < |ms| ensures IsCanonical(ms[i] + RenderTags(ts)) {
      assert Sound(ms[i], ts);
      SoundIsCanonical(ms[i], ts);
    }
    AllNamesCanonical(ms, ts);
    ResolveNamesSays(b, SingleNames(ms, RenderTags(ts)));
  }

  lemma UnsoundUnsaid(ms: seq<bytes>, ts: seq<bytes>, b: Both, i: nat)
    requires Filed(b.global) && ts != [] && TagsOk(ts) && i < |ms| && !Sound(ms[i], ts) && (ms[i] == [] || ms[i][0] == TAB || IsToken(ms[i]))
    ensures var names := SingleNames(ms, RenderTags(ts)); names[i] !in ResolveNames(b, names).known.global.table
  {
    NotShaped(ms[i], ts);
    ResolveNamesFiles(b, SingleNames(ms, RenderTags(ts)));
  }

  /** Every id of a compound name is what the registry says for that part's own name if and only if every part is sound. */
  lemma CompoundExact(w: bytes, b: Both)
    requires ToCanonical(w, MAX_SNAME).Form? && Distinct(Parse(w).value.tags) && Agrees(b) && Filed(b.global)
    ensures var n := Parse(w).value; var ms, ts := Metrics(n.metric), Sort(n.tags);
      var names := NamesIn(ToCanonical(w, MAX_SNAME).out);
      var r := ResolveNames(b, names);
      && names == SingleNames(ms, RenderTags(ts))
      && (AllSaid(r.known.global, names, r.ids) <==> AllSound(ms, ts))
      && (Served(b, names, r) <==> AllSound(ms, ts))
  {
    var n := Parse(w).value;
    var ms, ts := Metrics(n.metric), Sort(n.tags);
    CompoundParts(w);
    forall i | 0 <= i < |ms| ensures ms[i] == [] || ms[i][0] == TAB || IsToken(ms[i]) { PartKinds(n.metric, i); }
    if AllSound(ms, ts) {
      SoundServed(ms, ts, b);
    } else {
      var i :| 0 <= i < |ms| && !Sound(ms[i], ts);
      UnsoundUnsaid(ms, ts, b, i);
      UnsaidName(SingleNames(ms, RenderTags(ts)), ResolveNames(b, SingleNames(ms, RenderTags(ts))), i);
    }
  }

  lemma UnsaidName(names: seq<bytes>, r: ResolvedAll, i: nat)
    requires i < |names| && names[i] !in r.known.global.table
    ensures !AllSaid(r.known.global, names, r.ids)
  {
  }

  // ---- Names that go wrong ---------------------------------------------------------------------

  /** The tag `t=1`. */
  const TAG: bytes := [0x74, 0x3d, 0x31]

  /** A metric with the tag. */
  function Plainly(m: bytes): bytes { m + [SPACE] + TAG }

  lemma TagIsOk()
    ensures T.PartOk(TAG) && TagOk(TAG) && TagsOk([TAG]) && Sorted([TAG]) && Distinct([TAG]) && RunsOn([TAG]) && Sort([TAG]) == [TAG]
  {
    assert TAG[1] == EQUALS;
    T.NoSpaces(TAG[0], TAG[1..]);
    T.SortOne(TAG);
  }

  /** A metric without space or tab in it, ended by something else than a backslash. */
  predicate Simple(m: bytes) { 0 < |m| < 100 && SPACE !in m && TAB !in m && !EndsEscaping(m) }

  lemma SimpleCanonical(m: bytes)
    requires Simple(m)
    ensures IsCanonical(Plainly(m)) && Parse(Plainly(m)) == Some(Name(m, [TAG])) && T.PartOk(m)
  {
    TagIsOk();
    assert m[0] in m;
    T.NoSpaces(m[0], m[1..]);
    T.OneTagForm(m, TAG, MAX_SNAME);
    T.OneTagParses(m, TAG);
  }

  lemma TagLine()
    ensures RenderTags([TAG]) == [SPACE] + TAG
  {
    assert [TAG][1..] == [] && [SPACE] + TAG + [] == [SPACE] + TAG;
  }

  /** Two metrics in one name, the first ended by a backslash. */
  function Compound(m: bytes, n: bytes): bytes { m + [ESCAPE, BAR] + n }

  lemma CompoundMetrics(m: bytes, n: bytes)
    requires BAR !in m && BAR !in n
    ensures Metrics(Compound(m, n)) == [m + [ESCAPE], n]
  {
    var c, k := Compound(m, n), |m| + 1;
    assert c[..k] == m + [ESCAPE] && c[k] == BAR && c[k + 1..] == n;
    FirstMetric(c, k);
    FirstMetric(n, |n|);
    assert n[..|n|] == n;
    assert Metrics(n) == [Metrics(n)[0]] + Metrics(n)[1..];
    assert Metrics(c) == [Metrics(c)[0]] + Metrics(c)[1..];
  }

  lemma CompoundSimple(m: bytes, n: bytes)
    requires Simple(m) && Simple(n) && |m| + |n| < 90
    ensures Simple(Compound(m, n))
  {
    var c := Compound(m, n);
    assert c[|c| - 1] == n[|n| - 1];
    assert forall b :: b in c ==> b in m || b == ESCAPE || b == BAR || b in n;
  }

  lemma TwoNamesIn(c: bytes, p: bytes, n: bytes)
    requires Metrics(c) == [p, n] && T.PartOk(c)
    ensures NamesIn(Plainly(c)) == [Plainly(p), Plainly(n)]
  {
    var line := [SPACE] + TAG;
    TokenBack(c, line);
    Assoc(c, [SPACE], TAG);
    Assoc(p, [SPACE], TAG);
    Assoc(n, [SPACE], TAG);
    TwoSingleNames(p, n, line);
  }

  lemma TwoSingleNames(p: bytes, n: bytes, line: bytes)
    ensures SingleNames([p, n], line) == [p + line, n + line]
  {
    assert [p, n][1..] == [n] && [n][1..] == [];
  }

  /** A canonical compound name whose first part is refused. */
  lemma BackslashNames(m: bytes, n: bytes)
    requires Simple(m) && Simple(n) && BAR !in m && BAR !in n && |m| + |n| < 90
    ensures var w := Plainly(Compound(m, n));
      && ToCanonical(w, MAX_SNAME) == Form(w) && NamesIn(w) == [Plainly(m + [ESCAPE]), Plainly(n)]
      && !ToCanonical(Plainly(m + [ESCAPE]), MAX_SNAME).Form? && !Shaped(Plainly(m + [ESCAPE])) && IsCanonical(Plainly(n))
  {
    var c := Compound(m, n);
    CompoundSimple(m, n);
    SimpleCanonical(c);
    SimpleCanonical(n);
    CompoundMetrics(m, n);
    TwoNamesIn(c, m + [ESCAPE], n);
    BackslashRefused(m);
  }

  lemma BackslashRefused(m: bytes)
    requires Simple(m)
    ensures !ToCanonical(Plainly(m + [ESCAPE]), MAX_SNAME).Form? && !Shaped(Plainly(m + [ESCAPE]))
  {
    var p := m + [ESCAPE];
    TagIsOk();
    TagLine();
    assert m[0] in m;
    assert SPACE !in p[1..];
    T.NoSpaces(p[0], p[1..]);
    NotShaped(p, [TAG]);
    assert p + RenderTags([TAG]) == Plainly(p);
    TakesAll(p, [TAG]);
    var w := Plainly(p);
    TokenBack(w, []);
    assert w + [] == w && SkipSpace(w) == w;
  }

  /**
   `a\|b t=1` is taken, and its first part has no id in the registry: it gets the id zero, if no name has been refused
   before; and none at all from then on, since zero has a column by then.
   */
  method LostPart(session: StorageSession, m: bytes, n: bytes) returns (r: IdsResult)
    requires Sane(session.View())
    requires Simple(m) && Simple(n) && BAR !in m && BAR !in n && |m| + |n| < 90
    modifies session, session.registry, session.store
    ensures r.Ids? && |r.ids| == 2 && r.ids[0] == if 0 in old(session.store.columns) then None else Some(0)
    ensures Sane(session.View()) && 0 in session.store.columns
    ensures Plainly(m + [ESCAPE]) !in session.registry.table
  {
    var w, p := Plainly(Compound(m, n)), Plainly(m + [ESCAPE]);
    BackslashNames(m, n);
    ghost var b := session.View();
    r := session.GetSeriesIds(w, 2);
    LostFirst(b, p, Plainly(n));
    ResolveNamesFiles(b, [p, Plainly(n)]);
  }

  lemma LostFirst(b: Both, p: bytes, n: bytes)
    requires Sane(b) && !Shaped(p) && !ToCanonical(p, MAX_SNAME).Form?
    ensures var r := ResolveNames(b, [p, n]);
      r.ids[0] == (if 0 in b.columns then None else Some(0)) && 0 in r.known.columns
  {
    assert p !in b.global.table;
    assert !Takeable(p) && Match(b.local, p) == 0;
    RefusedName(b, p, ToCanonical(p, MAX_SNAME));
    TwoInTurn(b, p, n);
    ColumnsStay(ResolveName(b, p).known, n);
  }

  /** A name that is refused gets the column zero, once. */
  lemma RefusedName(b: Both, name: bytes, form: Form)
    requires Match(b.global.table, name) == 0 && !form.Form?
    ensures var r := Answered(b, name, true, ResolveForm(b.global, name, form));
      r.id == (if 0 in b.columns then None else Some(0)) && 0 in r.known.columns
  {
  }

  lemma ColumnsStay(b: Both, name: bytes)
    ensures b.columns <= ResolveName(b, name).known.columns
  {
  }

  /** An event in a new database. */
  function WithEvent(s: int, e: bytes): Both { Both(Matcher(map[e := -s], map[-s := e], s + 1), {-s}, map[e := -s]) }

  /** A refused event behind it, which turns the counter round. */
  function WithRefused(s: int, e: bytes, p: bytes): Both { Both(Matcher(map[e := -s], map[-s := e], -s - 1), {-s, 0}, map[e := -s, p := 0]) }

  lemma FirstEvent(s: int, e: bytes)
    requires s > 0 && IsEvent(e)
    ensures ResolveNamed(Both(Matcher(map[], map[], s), {}, map[]), e, Form(e)) == Resolved(WithEvent(s, e), Some(-s))
  {
  }

  lemma RefusedEvent(s: int, e: bytes, p: bytes, form: Form)
    requires s > 0 && e != p && IsEvent(p) && !form.Form?
    ensures ResolveNamed(WithEvent(s, e), p, form) == Resolved(WithRefused(s, e, p), Some(0))
  {
  }

  /** Two more names that are not events: the second gets the id of the event, and no column. */
  lemma TwoMore(s: int, e: bytes, p: bytes, n: bytes, c: bytes)
    requires s > 0 && e != n && e != c && p != n && p != c && n != c && !IsEvent(n) && !IsEvent(c)
    ensures var r := ResolveNamed(WithRefused(s, e, p), n, Form(n)); var q := ResolveNamed(r.known, c, Form(c));
      var again := ResolveNamed(q.known, c, Form(c));
      && r.id == Some(-s - 1) && q.id == None && again.id == Some(-s)
      && Says(again.known.global, e, -s) && Says(again.known.global, c, -s)
  {
    var b := ResolveNamed(WithRefused(s, e, p), n, Form(n)).known;
    assert b.global.next == -s && -s in b.columns && c !in b.local && c !in b.global.table && Says(b.global, e, -s);
  }

  lemma TwoInTurn(b: Both, p: bytes, n: bytes)
    ensures var r := ResolveName(b, p); var s := ResolveName(r.known, n);
      ResolveNames(b, [p, n]) == ResolvedAll(s.known, [r.id, s.id])
  {
    assert [p, n][1..] == [n];
    OneName(ResolveName(b, p).known, n);
  }

  lemma PlainlyApart(m: bytes, n: bytes)
    requires m != n
    ensures Plainly(m) != Plainly(n)
  {
    if |m| == |n| { assert m == Plainly(m)[..|m|] && n == Plainly(n)[..|n|]; }
  }

  /**
   An event, a compound name with a backslash in front of its bar, and one more name, asked for in a new database: the
   last name, which is not an event, fails, since it gets the id of the event, which has a column. The registry has one
   id for both names from then on, and gives it when the name is asked for again.
   */
  method SharedId(start: int, e: bytes, m: bytes, n: bytes, c: bytes)
    returns (session: StorageSession, first: IdsResult, two: IdsResult, last: IdsResult, again: IdsResult)
    requires start > 0 && Simple(e) && Simple(m) && Simple(n) && Simple(c) && BAR !in m && BAR !in n && |m| + |n| < 90
    requires e[0] == m[0] == BANG && n[0] != BANG && c[0] != BANG && e != m + [ESCAPE] && n != c
    ensures first == Ids([Some(-start)]) && two == Ids([Some(0), Some(-start - 1)]) && last == NoColumn && again == Ids([Some(-start)])
    ensures Says(session.registry.View(), Plainly(e), -start) && Says(session.registry.View(), Plainly(c), -start)
  {
    var registry := new SeriesMatcher(start);
    var store := new ColumnStore();
    session := new StorageSession(registry, store);
    var p := m + [ESCAPE];
    SimpleCanonical(e);
    SimpleCanonical(c);
    BackslashNames(m, n);
    PlainlyApart(e, p);
    PlainlyApart(n, c);
    FirstEvent(start, Plainly(e));
    RefusedEvent(start, Plainly(e), Plainly(p), ToCanonical(Plainly(p), MAX_SNAME));
    TwoMore(start, Plainly(e), Plainly(p), Plainly(n), Plainly(c));
    TwoInTurn(WithEvent(start, Plainly(e)), Plainly(p), Plainly(n));
    first := session.InitSeriesId(Plainly(e));
    two := session.GetSeriesIds(Plainly(Compound(m, n)), 2);
    last := session.InitSeriesId(Plainly(c));
    again := session.InitSeriesId(Plainly(c));
  }
}
