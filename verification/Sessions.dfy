/** A session resolving names, single and compound, through its own matcher and the registry. */
module Sessions {
  import opened Bytes
  import opened SeriesNames
  import opened Canonical
  import CanonicalText
  import opened Registry

  const BAR: byte := 0x7c

  // ---- Names one after the other ---------------------------------------------------------------

  /** The registry, the ids that have a column, and the session's own names. */
  datatype Both = Both(global: Matcher, columns: set<int>, local: map<bytes, int>)

  /** The id of a name; none where its column could not be created. */
  datatype Resolved = Resolved(known: Both, id: Option<int>)

  /**
   A name the session knows, or else the registry's answer, which the session notes. A name that is new to the registry
   gets a column; if there is one with its id already, there is no answer and the session notes nothing.
   */
  function ResolveName(b: Both, name: bytes): Resolved { ResolveNamed(b, name, ToCanonical(name, MAX_SNAME)) }

  function ResolveNamed(b: Both, name: bytes, form: Form): Resolved {
    if Match(b.local, name) != 0 then Resolved(b, Some(Match(b.local, name)))
    else Answered(b, name, Match(b.global.table, name) == 0, ResolveForm(b.global, name, form))
  }

  function Answered(b: Both, name: bytes, isNew: bool, r: AddResult): Resolved {
    if isNew && r.id in b.columns then Resolved(b.(global := r.matcher), None)
    else Resolved(Both(r.matcher, if isNew then b.columns + {r.id} else b.columns, b.local[name := r.id]), Some(r.id))
  }

  datatype ResolvedAll = ResolvedAll(known: Both, ids: seq<Option<int>>)

  function ResolveNames(b: Both, names: seq<bytes>): (r: ResolvedAll)
    ensures |r.ids| == |names|
    decreases |names|
  {
    if names == [] then ResolvedAll(b, [])
    else
      var r := ResolveName(b, names[0]);
      var rest := ResolveNames(r.known, names[1..]);
      ResolvedAll(rest.known, [r.id] + rest.ids)
  }

  /** The session knows nothing that the registry does not say. */
  ghost predicate Agrees(b: Both) {
    Consistent(b.global) && ColumnsOk(b.global, b.columns) && forall n :: n in b.local ==> Says(b.global, n, b.local[n])
  }

  lemma ResolveNameSays(b: Both, name: bytes)
    requires Agrees(b) && IsCanonical(name)
    ensures var r := ResolveName(b, name);
      Agrees(r.known) && r.id.Some? && Says(r.known.global, name, r.id.value) && Keeps(b.global, r.known.global)
  {
    if Match(b.local, name) == 0 {
      ResolveKeeps(b.global, name);
      AnsweredSays(b, name, Resolve(b.global, name));
    }
  }

  lemma AnsweredSays(b: Both, name: bytes, r: AddResult)
    requires Agrees(b) && r == ResolveForm(b.global, name, Form(name))
    requires Consistent(r.matcher) && Says(r.matcher, name, r.id) && Keeps(b.global, r.matcher)
    ensures var a := Answered(b, name, Match(b.global.table, name) == 0, r);
      Agrees(a.known) && a.id == Some(r.id) && a.known.global == r.matcher
  {
    KnownHasId(b.global, name);
    if name !in b.global.table { NewIdIsNew(b.global, name, b.columns); }
  }

  /** Every name has the id that the registry says. */
  ghost predicate AllSaid(m: Matcher, names: seq<bytes>, ids: seq<Option<int>>) {
    |names| == |ids| && forall i :: 0 <= i < |names| ==> ids[i].Some? && Says(m, names[i], ids[i].value)
  }

  /** The names have been resolved as they should be. */
  ghost predicate Served(b: Both, names: seq<bytes>, r: ResolvedAll) {
    Agrees(r.known) && Keeps(b.global, r.known.global) && AllSaid(r.known.global, names, r.ids)
  }

  lemma ServedFirst(b: Both, b1: Both, name: bytes, id: Option<int>, names: seq<bytes>, r: ResolvedAll)
    requires Keeps(b.global, b1.global) && id.Some? && Says(b1.global, name, id.value) && Served(b1, names, r)
    ensures Served(b, [name] + names, r.(ids := [id] + r.ids))
  {
  }

  predicate AllCanonical(names: seq<bytes>) { names == [] || (IsCanonical(names[0]) && AllCanonical(names[1..])) }

  /** Each name gets the id that the registry has for it afterwards, which is the one it would get alone. */
  lemma {:induction false} ResolveNamesSays(b: Both, names: seq<bytes>)
    requires Agrees(b) && AllCanonical(names)
    ensures Served(b, names, ResolveNames(b, names))
    decreases |names|
  {
    if names != [] {
      var r, name, rest := ResolveName(b, names[0]), names[0], names[1..];
      ResolveNameSays(b, name);
      ResolveNamesSays(r.known, rest);
      ServedFirst(b, r.known, name, r.id, rest, ResolveNames(r.known, rest));
      FirstAndRest(names);
    }
  }

  // ---- Compound names --------------------------------------------------------------------------

  /** The metrics of a compound metric, between bars. */
  function Metrics(m: bytes): (ms: seq<bytes>)
    ensures ms != []
  {
    if m == [] then [[]]
    else
      var rest := Metrics(m[1..]);
      if m[0] == BAR then [[]] + rest else [[m[0]] + rest[0]] + rest[1..]
  }

  /** Each metric with the tags. */
  function SingleNames(ms: seq<bytes>, tagline: bytes): (ns: seq<bytes>)
    ensures |ns| == |ms| && forall i :: 0 <= i < |ms| ==> ns[i] == ms[i] + tagline
  {
    if ms == [] then [] else [ms[0] + tagline] + SingleNames(ms[1..], tagline)
  }

  lemma {:induction false} MetricsShorter(m: bytes)
    ensures forall i :: 0 <= i < |Metrics(m)| ==> |Metrics(m)[i]| <= |m| && (forall b :: b in Metrics(m)[i] ==> b in m)
  {
    if m != [] {
      var rest := Metrics(m[1..]);
      MetricsShorter(m[1..]);
      forall i | 0 <= i < |Metrics(m)| ensures |Metrics(m)[i]| <= |m| && (forall b :: b in Metrics(m)[i] ==> b in m) {
        assert forall b :: b in m[1..] ==> b in m;
        if m[0] == BAR {
          assert i > 0 ==> Metrics(m)[i] == rest[i - 1];
        } else {
          assert i > 0 ==> Metrics(m)[i] == rest[i];
        }
      }
    }
  }

  lemma {:induction false} FirstMetric(m: bytes, k: nat)
    requires k <= |m| && BAR !in m[..k] && (k == |m| || m[k] == BAR)
    ensures Metrics(m)[0] == m[..k] && Metrics(m)[1..] == if k == |m| then [] else Metrics(m[k + 1..])
    decreases k
  {
    if k == 0 {
      if m != [] { assert ([[]] + Metrics(m[1..]))[1..] == Metrics(m[1..]); }
    } else {
      assert m[0] == m[..k][0];
      assert m[1..][..k - 1] == m[..k][1..];
      FirstMetric(m[1..], k - 1);
      if k < |m| { assert m[1..][k..] == m[k + 1..]; }
      assert [m[0]] + m[1..k] == m[..k];
    }
  }

  function Bars(m: bytes): nat { if m == [] then 0 else (if m[0] == BAR then 1 else 0) + Bars(m[1..]) }

  lemma {:induction false} BarsAndMetrics(m: bytes)
    ensures |Metrics(m)| == Bars(m) + 1
  {
    if m != [] { BarsAndMetrics(m[1..]); }
  }

  // ---- In place --------------------------------------------------------------------------------

  class SeriesMatcher {
    var table: map<bytes, int>
    var inverse: map<int, bytes>
    var next: int

    ghost function View(): Matcher
      reads this
    {
      Matcher(table, inverse, next)
    }

    constructor (start: int)
      requires start > 0
      ensures View() == Matcher(map[], map[], start)
    {
      table, inverse, next := map[], map[], start;
    }

    method AddName(name: bytes) returns (id: int)
      modifies this
      ensures AddResult(View(), id) == Add(old(View()), name)
    {
      var form := CanonicalText.ToCanonicalForm(name, MAX_SNAME);
      id := File(name, form);
    }

    /** What becomes of a name by its canonical form. */
    method File(name: bytes, form: Form) returns (id: int)
      modifies this
      ensures AddResult(View(), id) == AddForm(old(View()), name, form)
    {
      var prev := next;
      next := next + 1;
      id := prev;
      if IsEvent(name) { id := -id; }
      if !form.Form? {
        next := id;
        return 0;
      }
      table := table[form.out := id];
      inverse := inverse[id := form.out];
    }

    /** `Storage::init_series_id` under the lock: found, or added. */
    method Find(name: bytes) returns (id: int, isNew: bool)
      modifies this
      ensures AddResult(View(), id) == Resolve(old(View()), name) && isNew == (Match(old(table), name) == 0)
    {
      id := Match(table, name);
      isNew := id == 0;
      if isNew { id := AddName(name); }
    }
  }

  class ColumnStore {
    var columns: set<int>

    constructor ()
      ensures columns == {}
    {
      columns := {};
    }

    /** `create_new_column`: fails if there is one. */
    method CreateNewColumn(id: int) returns (ok: bool)
      modifies this
      ensures ok == (id !in old(columns)) && columns == if ok then old(columns) + {id} else old(columns)
    {
      if id in columns { return false; }
      columns := columns + {id};
      ok := true;
    }
  }

  /** What a name's id comes to: an error, or ids; one that is none is left unset by the code. */
  datatype IdsResult = Failed(form: Form) | TooMany | NoColumn | Ids(ids: seq<Option<int>>)

  class StorageSession {
    const registry: SeriesMatcher
    const store: ColumnStore
    var local: map<bytes, int>

    ghost function View(): Both
      reads this, registry, store
    {
      Both(registry.View(), store.columns, local)
    }

    constructor (r: SeriesMatcher, s: ColumnStore)
      ensures registry == r && store == s && local == map[]
    {
      registry, store, local := r, s, map[];
    }

    /** `Storage::init_series_id`. */
    method AskStorage(name: bytes) returns (id: Option<int>)
      modifies this, registry, store
      ensures Resolved(View(), id) == Answered(old(View()), name, Match(old(registry.table), name) == 0, Resolve(old(registry.View()), name))
    {
      var found, isNew := registry.Find(name);
      if isNew {
        var ok := store.CreateNewColumn(found);
        if !ok { return None; }
      }
      local := local[name := found];
      id := Some(found);
    }

    method ResolveOne(name: bytes) returns (id: Option<int>)
      modifies this, registry, store
      ensures Resolved(View(), id) == ResolveName(old(View()), name)
    {
      var known := Match(local, name);
      if known == 0 { id := AskStorage(name); } else { id := Some(known); }
    }

    /** The next metric of `rest` in front of the tags, at the end of the shared buffer. */
    method NextName(series: array<byte>, tagline: bytes, rest: bytes) returns (k: nat, name: bytes)
      requires series.Length == MAX_SNAME && |rest| + |tagline| <= MAX_SNAME && series[MAX_SNAME - |tagline|..] == tagline
      modifies series
      ensures k <= |rest| && name == rest[..k] + tagline && series[MAX_SNAME - |tagline|..] == tagline
      ensures BAR !in rest[..k] && (k == |rest| || rest[k] == BAR)
    {
      k := 0;
      while k < |rest| && rest[k] != BAR
        invariant 0 <= k <= |rest| && BAR !in rest[..k]
      {
        k := k + 1;
      }
      var at := MAX_SNAME - |tagline| - k;
      CopyTo(series, at, rest[..k]);
      assert series[at..] == series[at..at + k] + series[at + k..];
      name := series[at..];
    }

    method ResolveParts(series: array<byte>, metric: bytes, tagline: bytes) returns (ids: seq<Option<int>>)
      requires series.Length == MAX_SNAME && |metric| + |tagline| <= MAX_SNAME && series[MAX_SNAME - |tagline|..] == tagline
      modifies this, registry, store, series
      ensures ResolvedAll(View(), ids) == ResolveNames(old(View()), SingleNames(Metrics(metric), tagline))
    {
      ghost var goal := ResolveNames(View(), SingleNames(Metrics(metric), tagline));
      var rest, more := metric, true;
      ids := [];
      NoneYet(goal);
      while more
        invariant |rest| <= |metric| && series[MAX_SNAME - |tagline|..] == tagline
        invariant goal == if more then Prefixed(ids, ResolveNames(View(), SingleNames(Metrics(rest), tagline))) else ResolvedAll(View(), ids)
        decreases more, |rest|
      {
        var k, name := NextName(series, tagline, rest);
        OneNameLess(ids, View(), rest, k, tagline);
        var id := ResolveOne(name);
        ids := ids + [id];
        more := k < |rest|;
        if more { rest := rest[k + 1..]; }
      }
    }

    /** `init_series_id`: the id of one name, or an error. */
    method InitSeriesId(w: bytes) returns (r: IdsResult)
      modifies this, registry, store
      ensures match ToCanonical(w, MAX_SNAME)
        case Form(out) =>
          var n := ResolveName(old(View()), out);
          View() == n.known && r == if n.id.Some? then Ids([n.id]) else NoColumn
        case form => r == Failed(form) && View() == old(View())
    {
      var form := CanonicalText.ToCanonicalForm(w, MAX_SNAME);
      if !form.Form? { return Failed(form); }
      var id := ResolveOne(form.out);
      r := if id.Some? then Ids([id]) else NoColumn;
    }

    /** `get_series_ids`: an id for each metric of a compound name, with the tags they share. */
    method GetSeriesIds(w: bytes, size: nat) returns (r: IdsResult)
      modifies this, registry, store
      ensures match ToCanonical(w, MAX_SNAME)
        case Form(out) =>
          var names := NamesIn(out);
          if |names| > size then r == TooMany && View() == old(View())
          else r.Ids? && ResolvedAll(View(), r.ids) == ResolveNames(old(View()), names)
        case form => r == Failed(form) && View() == old(View())
    {
      var form := CanonicalText.ToCanonicalForm(w, MAX_SNAME);
      if !form.Form? { return Failed(form); }
      NoLonger(w, MAX_SNAME);
      NotEmpty(w, MAX_SNAME);
      r := IdsOf(form.out, size);
    }

    /** The ids for the metrics of a canonical name. */
    method IdsOf(out: bytes, size: nat) returns (r: IdsResult)
      requires 0 < |out| <= MAX_SNAME
      modifies this, registry, store
      ensures var names := NamesIn(out);
        if |names| > size then r == TooMany && View() == old(View())
        else r.Ids? && ResolvedAll(View(), r.ids) == ResolveNames(old(View()), names)
    {
      assert out[0..] == out;
      var p, metric := CanonicalText.CopyUntil(out, 0);
      var tagline := out[p..];
      var bars := CountBars(metric);
      BarsAndMetrics(metric);
      if bars + 1 > size { return TooMany; }
      if bars == 0 {
        OneMetric(metric, tagline);
        var id := ResolveOne(out);
        OneName(old(View()), out);
        return Ids([id]);
      }
      var ids := ResolveMetrics(metric, tagline);
      r := Ids(ids);
    }

    /** The ids of several metrics, by way of a buffer with the tags at its end. */
    method ResolveMetrics(metric: bytes, tagline: bytes) returns (ids: seq<Option<int>>)
      requires |metric| + |tagline| <= MAX_SNAME
      modifies this, registry, store
      ensures ResolvedAll(View(), ids) == ResolveNames(old(View()), SingleNames(Metrics(metric), tagline))
    {
      var series := new byte[MAX_SNAME](_ => 0);
      var at := MAX_SNAME - |tagline|;
      CopyTo(series, at, tagline);
      assert series[at..] == series[at..at + |tagline|];
      ids := ResolveParts(series, metric, tagline);
    }
  }

  /** The names a canonical name stands for: one for each metric. */
  function NamesIn(out: bytes): seq<bytes> {
    if out == [] then [] else SingleNames(Metrics(Token(out).token), Token(out).rest)
  }

  lemma NotEmpty(w: bytes, room: nat)
    requires ToCanonical(w, room).Form?
    ensures ToCanonical(w, room).out != []
  {
    ParsedIsOk(w);
  }

  lemma {:induction false} OneMetric(m: bytes, tagline: bytes)
    requires Bars(m) == 0
    ensures Metrics(m) == [m] && SingleNames(Metrics(m), tagline) == [m + tagline]
  {
    if m != [] {
      OneMetric(m[1..], tagline);
      assert [m[0]] + m[1..] == m;
    }
    assert [m][1..] == [];
  }

  lemma OneName(b: Both, name: bytes)
    ensures ResolveNames(b, [name]) == ResolvedAll(ResolveName(b, name).known, [ResolveName(b, name).id])
  {
    assert [name][1..] == [];
    var r := ResolveName(b, name);
    assert ResolveNames(r.known, []) == ResolvedAll(r.known, []);
    assert [r.id] + [] == [r.id];
  }

  /** The parts of a canonical form. */
  lemma FormParts(w: bytes, room: nat)
    requires ToCanonical(w, room).Form?
    ensures ToCanonical(w, room).out != []
    ensures var n := Parse(w).value; Token(ToCanonical(w, room).out) == Cut(n.metric, RenderTags(Sort(n.tags)))
  {
    var n := Parse(w).value;
    ParsedIsOk(w);
    MetricEnds(w);
    var ts := Sort(n.tags);
    assert RenderTags(ts) == [] || RenderTags(ts)[0] == SPACE;
    TokenBack(n.metric, RenderTags(ts));
  }

  method CountBars(m: bytes) returns (n: nat)
    ensures n == Bars(m)
  {
    n := 0;
    var i := |m|;
    assert m[i..] == [];
    while i > 0
      invariant 0 <= i <= |m| && n == Bars(m[i..])
    {
      i := i - 1;
      assert m[i..][1..] == m[i + 1..];
      if m[i] == BAR { n := n + 1; }
    }
    assert m[0..] == m;
  }

  method CopyTo(a: array<byte>, at: nat, s: bytes)
    requires at + |s| <= a.Length
    modifies a
    ensures a[at..at + |s|] == s && a[at + |s|..] == old(a[at + |s|..])
  {
    var i := 0;
    while i < |s|
      invariant 0 <= i <= |s| && a[at..at + i] == s[..i] && a[at + |s|..] == old(a[at + |s|..])
    {
      a[at + i] := s[i];
      i := i + 1;
    }
  }

  /** Ids found before those still to be found. */
  ghost function Prefixed(done: seq<Option<int>>, r: ResolvedAll): ResolvedAll { r.(ids := done + r.ids) }

  lemma NoneYet(r: ResolvedAll)
    ensures Prefixed([], r) == r
  {
    assert [] + r.ids == r.ids;
  }

  lemma OneNameLess(done: seq<Option<int>>, b: Both, rest: bytes, k: nat, tagline: bytes)
    requires k <= |rest| && BAR !in rest[..k] && (k == |rest| || rest[k] == BAR)
    ensures var r := ResolveName(b, rest[..k] + tagline);
      Prefixed(done, ResolveNames(b, SingleNames(Metrics(rest), tagline))) ==
        if k == |rest| then ResolvedAll(r.known, done + [r.id])
        else Prefixed(done + [r.id], ResolveNames(r.known, SingleNames(Metrics(rest[k + 1..]), tagline)))
  {
    FirstMetric(rest, k);
    var ns := SingleNames(Metrics(rest), tagline);
    var r := ResolveName(b, ns[0]);
    assert ns[1..] == SingleNames(Metrics(rest)[1..], tagline);
    if k < |rest| {
      Assoc(done, [r.id], ResolveNames(r.known, ns[1..]).ids);
    } else {
      assert ResolveNames(r.known, []) == ResolvedAll(r.known, []);
      assert [r.id] + [] == [r.id];
    }
  }
}
