/** The global registry of series names, and every interleaving of the sessions that resolve names through it. */
module Registry {
  import opened Bytes
  import opened Canonical

  const BANG: byte := 0x21

  /** Names and ids both ways, and the number the next name will get. */
  datatype Matcher = Matcher(table: map<bytes, int>, inverse: map<int, bytes>, next: int)

  function Match(table: map<bytes, int>, name: bytes): int { if name in table then table[name] else 0 }

  function IsEvent(name: bytes): bool { name != [] && name[0] == BANG }

  datatype AddResult = AddResult(matcher: Matcher, id: int)

  /** `SeriesMatcher::add`: an id below zero for an event; a name that is refused gives the counter the id back. */
  function Add(m: Matcher, name: bytes): AddResult { AddForm(m, name, ToCanonical(name, MAX_SNAME)) }

  function AddForm(m: Matcher, name: bytes, form: Form): AddResult {
    var id := if IsEvent(name) then -m.next else m.next;
    match form
    case Form(out) => AddResult(Matcher(m.table[out := id], m.inverse[id := out], m.next + 1), id)
    case _ => AddResult(m.(next := id), 0)
  }

  /** `Storage::init_series_id` under the lock. */
  function Resolve(m: Matcher, name: bytes): AddResult { ResolveForm(m, name, ToCanonical(name, MAX_SNAME)) }

  function ResolveForm(m: Matcher, name: bytes, form: Form): AddResult {
    if Match(m.table, name) != 0 then AddResult(m, Match(m.table, name)) else AddForm(m, name, form)
  }

  predicate Says(m: Matcher, name: bytes, id: int) { name in m.table && m.table[name] == id }

  predicate IsCanonical(name: bytes) { ToCanonical(name, MAX_SNAME) == Form(name) }

  // ---- What the registry keeps -----------------------------------------------------------------

  predicate EntryOk(m: Matcher, name: bytes)
    requires name in m.table
  {
    var id := m.table[name];
    && id != 0 && -m.next < id < m.next && (id < 0 <==> IsEvent(name))
    && id in m.inverse && m.inverse[id] == name
  }

  /** Names known before keep their ids. */
  ghost predicate Keeps(m: Matcher, m': Matcher) { forall n :: n in m.table ==> Says(m', n, m.table[n]) }

  /** The two tables are inverse to each other; ids are below the counter, and negative exactly for events. */
  ghost predicate Consistent(m: Matcher) {
    && m.next > 0
    && (forall name :: name in m.table ==> EntryOk(m, name))
    && (forall id :: id in m.inverse ==> m.inverse[id] in m.table && m.table[m.inverse[id]] == id)
  }

  lemma AddKeeps(m: Matcher, name: bytes)
    requires Consistent(m) && IsCanonical(name) && name !in m.table
    ensures Consistent(Add(m, name).matcher) && Match(Add(m, name).matcher.table, name) == Add(m, name).id != 0
    ensures Keeps(m, Add(m, name).matcher)
  {
    AddedKeeps(m, name);
  }

  lemma AddedKeeps(m: Matcher, name: bytes)
    requires Consistent(m) && name !in m.table
    ensures var r := AddForm(m, name, Form(name));
      Consistent(r.matcher) && Match(r.matcher.table, name) == r.id != 0 && Keeps(m, r.matcher)
  {
    FiledKeeps(m, name, AddForm(m, name, Form(name)).id);
  }

  /** A name is found, or added and then found; names known before keep their ids. */
  lemma ResolveKeeps(m: Matcher, name: bytes)
    requires Consistent(m) && IsCanonical(name)
    ensures var r := Resolve(m, name);
      Consistent(r.matcher) && Says(r.matcher, name, r.id) && Keeps(m, r.matcher)
  {
    if name in m.table { assert EntryOk(m, name); } else { AddKeeps(m, name); }
  }

  lemma KnownHasId(m: Matcher, name: bytes)
    requires Consistent(m)
    ensures Match(m.table, name) != 0 <==> name in m.table
  {
    if name in m.table { assert EntryOk(m, name); }
  }

  /** Equal names have equal ids and distinct names distinct ids. */
  lemma OneToOne(m: Matcher, a: bytes, b: bytes)
    requires Consistent(m) && a in m.table && b in m.table
    ensures m.table[a] == m.table[b] <==> a == b
  {
    assert EntryOk(m, a) && EntryOk(m, b);
  }

  // ---- Names of any kind -----------------------------------------------------------------------

  /** Accepted, and filed under a name that is new and an event exactly when this one is; or refused, and not an event. */
  predicate WellAdded(m: Matcher, name: bytes, form: Form) {
    match form
    case Form(out) => out !in m.table && (IsEvent(out) <==> IsEvent(name))
    case _ => !IsEvent(name)
  }

  lemma FiledKeeps(m: Matcher, out: bytes, id: int)
    requires Consistent(m) && out !in m.table && (id == m.next || id == -m.next) && (id < 0 <==> IsEvent(out))
    ensures Consistent(Matcher(m.table[out := id], m.inverse[id := out], m.next + 1))
  {
    var m' := Matcher(m.table[out := id], m.inverse[id := out], m.next + 1);
    forall n | n in m'.table ensures EntryOk(m', n) {
      if n != out { assert EntryOk(m, n); }
    }
    forall i | i in m'.inverse ensures m'.inverse[i] in m'.table && m'.table[m'.inverse[i]] == i {
      if i != id { assert m.inverse[i] in m.table; }
    }
  }

  /** A name filed a second time leaves its first id behind; a refused event makes the counter negative. */
  lemma AddExact(m: Matcher, name: bytes, form: Form)
    requires Consistent(m)
    ensures Consistent(AddForm(m, name, form).matcher) <==> WellAdded(m, name, form)
  {
    var r := AddForm(m, name, form);
    if form.Form? {
      if form.out in m.table {
        var first := m.table[form.out];
        assert EntryOk(m, form.out);
        assert first in r.matcher.inverse && r.matcher.inverse[first] == form.out && r.matcher.table[form.out] != first;
      } else if WellAdded(m, name, form) {
        FiledKeeps(m, form.out, r.id);
      } else {
        assert !EntryOk(r.matcher, form.out);
      }
    } else if !IsEvent(name) {
      assert r.matcher == m;
    }
  }

  /** Resolving a name, canonical or not, keeps the registry consistent if and only if the name is known or well added. */
  lemma ResolveExact(m: Matcher, name: bytes)
    requires Consistent(m)
    ensures Consistent(Resolve(m, name).matcher) <==> name in m.table || WellAdded(m, name, ToCanonical(name, MAX_SNAME))
  {
    if name in m.table { assert EntryOk(m, name); } else { AddExact(m, name, ToCanonical(name, MAX_SNAME)); }
  }

  /**
   Behind a refused event the counter runs up from below zero: the next names that are not events get negative ids,
   and the second of them the id of the last event before, if the last name before was one.
   */
  lemma AfterRefusedEvent(m: Matcher, e: bytes, a: bytes, c: bytes)
    requires Consistent(m) && IsEvent(e) && !ToCanonical(e, MAX_SNAME).Form? && e !in m.table
    requires IsCanonical(a) && IsCanonical(c) && !IsEvent(a) && !IsEvent(c) && a !in m.table && c !in m.table && a != c
    ensures var m1 := Resolve(m, e); var m2 := Resolve(m1.matcher, a); var m3 := Resolve(m2.matcher, c);
      && m1.id == 0 && m2.id == -m.next < 0 && m3.id == 1 - m.next
      && forall n :: n in m.table && m.table[n] == 1 - m.next ==> n != c && Says(m3.matcher, n, m3.id) && Says(m3.matcher, c, m3.id)
  {
    RefusedThenTwo(m, e, ToCanonical(e, MAX_SNAME), a, c);
  }

  lemma RefusedThenTwo(m: Matcher, e: bytes, form: Form, a: bytes, c: bytes)
    requires Consistent(m) && IsEvent(e) && !form.Form? && e !in m.table
    requires !IsEvent(a) && !IsEvent(c) && a !in m.table && c !in m.table && a != c
    ensures var m1 := ResolveForm(m, e, form); var m2 := ResolveForm(m1.matcher, a, Form(a)); var m3 := ResolveForm(m2.matcher, c, Form(c));
      && m1.id == 0 && m2.id == -m.next < 0 && m3.id == 1 - m.next
      && forall n :: n in m.table && m.table[n] == 1 - m.next ==> n != c && Says(m3.matcher, n, m3.id) && Says(m3.matcher, c, m3.id)
  {
    var m2 := ResolveForm(ResolveForm(m, e, form).matcher, a, Form(a)).matcher;
    assert c !in m2.table;
  }

  // ---- Sessions --------------------------------------------------------------------------------

  /** A session is idle, about to ask the registry, about to create the column of a new name, or about to note the answer. */
  datatype Stage = Idle | Asking(name: bytes) | Creating(name: bytes, id: int) | Noting(name: bytes, id: int)

  datatype Session = Session(local: map<bytes, int>, stage: Stage)

  datatype Answer = Answer(name: bytes, id: int)

  /** The registry, the ids that have a column, the sessions, what they have answered, and the names whose column could not be created. */
  datatype World = World(global: Matcher, columns: set<int>, sessions: seq<Session>, answers: seq<Answer>, failed: seq<bytes>)

  /** Look at the session's own names; ask the registry, under its lock; create a column, under another; note the answer. */
  datatype Action = Look(k: nat, name: bytes) | Ask(k: nat) | Create(k: nat) | Note(k: nat)

  predicate Allowed(a: Action) { a.Look? ==> IsCanonical(a.name) }

  function Step(w: World, a: Action): World {
    if a.k >= |w.sessions| then w
    else
      var s := w.sessions[a.k];
      match a
      case Look(k, name) =>
        if !s.stage.Idle? then w
        else if Match(s.local, name) != 0 then w.(answers := w.answers + [Answer(name, Match(s.local, name))])
        else w.(sessions := w.sessions[k := s.(stage := Asking(name))])
      case Ask(k) =>
        if !s.stage.Asking? then w
        else
          var name := s.stage.name;
          var r := Resolve(w.global, name);
          w.(global := r.matcher, sessions := w.sessions[k := s.(stage := if Match(w.global.table, name) == 0 then Creating(name, r.id) else Noting(name, r.id))])
      case Create(k) =>
        if !s.stage.Creating? then w
        else if s.stage.id in w.columns then w.(sessions := w.sessions[k := s.(stage := Idle)], failed := w.failed + [s.stage.name])
        else w.(columns := w.columns + {s.stage.id}, sessions := w.sessions[k := s.(stage := Noting(s.stage.name, s.stage.id))])
      case Note(k) =>
        if !s.stage.Noting? then w
        else
          var name, id := s.stage.name, s.stage.id;
          w.(sessions := w.sessions[k := Session(s.local[name := id], Idle)], answers := w.answers + [Answer(name, id)])
  }

  /** What a session knows, the registry says. */
  ghost predicate SessionOk(m: Matcher, s: Session) {
    && (forall n :: n in s.local ==> Says(m, n, s.local[n]))
    && (s.stage.Asking? ==> IsCanonical(s.stage.name))
    && (s.stage.Creating? || s.stage.Noting? ==> Says(m, s.stage.name, s.stage.id))
  }

  /** What sessions know and have answered, the registry says. */
  ghost predicate KnownOk(w: World) {
    && Consistent(w.global)
    && (forall k :: 0 <= k < |w.sessions| ==> SessionOk(w.global, w.sessions[k]))
    && (forall i :: 0 <= i < |w.answers| ==> Says(w.global, w.answers[i].name, w.answers[i].id))
  }

  /** A column is that of a name, or the one left by a name that was refused. */
  ghost predicate ColumnsOk(m: Matcher, columns: set<int>) { forall c :: c in columns ==> c == 0 || c in m.inverse }

  /** Columns about to be created are not there, and no two of them are the same. */
  ghost predicate PendingOk(columns: set<int>, sessions: seq<Session>) {
    && (forall k :: 0 <= k < |sessions| && sessions[k].stage.Creating? ==> sessions[k].stage.id !in columns)
    && forall j, k :: 0 <= j < k < |sessions| && sessions[j].stage.Creating? && sessions[k].stage.Creating? ==> sessions[j].stage.id != sessions[k].stage.id
  }

  ghost predicate Inv(w: World) { KnownOk(w) && ColumnsOk(w.global, w.columns) && PendingOk(w.columns, w.sessions) && w.failed == [] }

  /** One session changes, for a registry that says what it knows. */
  lemma SessionChanges(w: World, k: nat, s: Session)
    requires KnownOk(w) && k < |w.sessions| && SessionOk(w.global, s)
    ensures KnownOk(w.(sessions := w.sessions[k := s]))
  {
    var w' := w.(sessions := w.sessions[k := s]);
    forall j | 0 <= j < |w'.sessions| ensures SessionOk(w'.global, w'.sessions[j]) { assert SessionOk(w.global, w.sessions[j]); }
  }

  /** A session that creates nothing does not come in the way of those that do. */
  lemma PendingLess(columns: set<int>, sessions: seq<Session>, k: nat, s: Session)
    requires PendingOk(columns, sessions) && k < |sessions| && !s.stage.Creating?
    ensures PendingOk(columns, sessions[k := s])
  {
  }

  /** One more answer, which the registry gives. */
  lemma OneAnswer(w: World, a: Answer)
    requires KnownOk(w) && Says(w.global, a.name, a.id)
    ensures KnownOk(w.(answers := w.answers + [a]))
  {
  }

  lemma LookKeeps(w: World, k: nat, name: bytes)
    requires Inv(w) && k < |w.sessions| && IsCanonical(name)
    ensures Inv(Step(w, Look(k, name)))
  {
    var s := w.sessions[k];
    assert SessionOk(w.global, s);
    if s.stage.Idle? {
      if Match(s.local, name) != 0 {
        OneAnswer(w, Answer(name, Match(s.local, name)));
      } else {
        SessionChanges(w, k, s.(stage := Asking(name)));
        PendingLess(w.columns, w.sessions, k, s.(stage := Asking(name)));
      }
    }
  }

  lemma NoteKeeps(w: World, k: nat)
    requires Inv(w) && k < |w.sessions|
    ensures Inv(Step(w, Note(k)))
  {
    var s := w.sessions[k];
    assert SessionOk(w.global, s);
    if s.stage.Noting? {
      var name, id := s.stage.name, s.stage.id;
      OneAnswer(w, Answer(name, id));
      SessionChanges(w.(answers := w.answers + [Answer(name, id)]), k, Session(s.local[name := id], Idle));
      PendingLess(w.columns, w.sessions, k, Session(s.local[name := id], Idle));
    }
  }

  /** The registry learns more. */
  lemma RegistryGrows(w: World, m: Matcher)
    requires KnownOk(w) && Consistent(m) && Keeps(w.global, m)
    ensures KnownOk(w.(global := m))
  {
    forall j | 0 <= j < |w.sessions| ensures SessionOk(m, w.sessions[j]) { assert SessionOk(w.global, w.sessions[j]); }
    forall i | 0 <= i < |w.answers| ensures Says(m, w.answers[i].name, w.answers[i].id) {
      assert Says(w.global, w.answers[i].name, w.answers[i].id);
    }
  }

  /** An id that the registry gives a new name is no column's and no other name's. */
  lemma NewIdIsNew(m: Matcher, name: bytes, columns: set<int>)
    requires Consistent(m) && ColumnsOk(m, columns) && name !in m.table
    ensures var r := AddForm(m, name, Form(name)); r.id !in columns && r.id !in m.inverse && ColumnsOk(r.matcher, columns + {r.id})
  {
    forall id | id in m.inverse ensures -m.next < id < m.next { assert EntryOk(m, m.inverse[id]); }
  }

  /** It is not one that another session is about to create a column for. */
  lemma PendingMore(m: Matcher, columns: set<int>, sessions: seq<Session>, k: nat, s: Session)
    requires Consistent(m) && PendingOk(columns, sessions) && k < |sessions|
    requires forall j :: 0 <= j < |sessions| ==> SessionOk(m, sessions[j])
    requires s.stage.Creating? && s.stage.id !in columns && s.stage.id !in m.inverse
    ensures PendingOk(columns, sessions[k := s])
  {
    forall j | 0 <= j < |sessions| && sessions[j].stage.Creating? ensures sessions[j].stage.id != s.stage.id {
      assert SessionOk(m, sessions[j]);
      assert EntryOk(m, sessions[j].stage.name);
    }
  }

  lemma AskKeeps(w: World, k: nat)
    requires Inv(w) && k < |w.sessions|
    ensures Inv(Step(w, Ask(k)))
  {
    var s := w.sessions[k];
    assert SessionOk(w.global, s);
    if s.stage.Asking? {
      var name := s.stage.name;
      var r := Resolve(w.global, name);
      ResolveKeeps(w.global, name);
      RegistryGrows(w, r.matcher);
      var known := Match(w.global.table, name) != 0;
      AskPending(w, k, r, known);
      SessionAsks(w.global, r, s, known);
      SessionChanges(w.(global := r.matcher), k, s.(stage := if known then Noting(name, r.id) else Creating(name, r.id)));
    }
  }

  lemma AskPending(w: World, k: nat, r: AddResult, known: bool)
    requires Inv(w) && k < |w.sessions| && w.sessions[k].stage.Asking?
    requires var name := w.sessions[k].stage.name; known == (Match(w.global.table, name) != 0) && r == ResolveForm(w.global, name, Form(name))
    ensures var name := w.sessions[k].stage.name;
      var s := w.sessions[k].(stage := if known then Noting(name, r.id) else Creating(name, r.id));
      ColumnsOk(r.matcher, w.columns) && PendingOk(w.columns, w.sessions[k := s])
  {
    var name := w.sessions[k].stage.name;
    if known {
      PendingLess(w.columns, w.sessions, k, w.sessions[k].(stage := Noting(name, r.id)));
    } else {
      KnownHasId(w.global, name);
      NewIdIsNew(w.global, name, w.columns);
      PendingMore(w.global, w.columns, w.sessions, k, w.sessions[k].(stage := Creating(name, r.id)));
    }
  }

  lemma SessionAsks(m: Matcher, r: AddResult, s: Session, known: bool)
    requires SessionOk(m, s) && Keeps(m, r.matcher) && s.stage.Asking? && Says(r.matcher, s.stage.name, r.id)
    ensures SessionOk(r.matcher, s.(stage := if known then Noting(s.stage.name, r.id) else Creating(s.stage.name, r.id)))
  {
  }

  /** The column is created, and the others about to be created are still not there. */
  lemma CreateKeeps(w: World, k: nat)
    requires Inv(w) && k < |w.sessions|
    ensures Inv(Step(w, Create(k)))
  {
    var s := w.sessions[k];
    assert SessionOk(w.global, s);
    if s.stage.Creating? {
      SessionChanges(w, k, s.(stage := Noting(s.stage.name, s.stage.id)));
      assert EntryOk(w.global, s.stage.name);
    }
  }

  lemma StepKeeps(w: World, a: Action)
    requires Inv(w) && Allowed(a)
    ensures Inv(Step(w, a))
  {
    if a.k < |w.sessions| {
      match a
      case Look(k, name) => LookKeeps(w, k, name);
      case Ask(k) => AskKeeps(w, k);
      case Create(k) => CreateKeeps(w, k);
      case Note(k) => NoteKeeps(w, k);
    }
  }

  function Run(w: World, actions: seq<Action>): (w': World)
    requires Inv(w) && forall i :: 0 <= i < |actions| ==> Allowed(actions[i])
    ensures Inv(w')
    decreases |actions|
  {
    if actions == [] then w
    else
      StepKeeps(w, actions[0]);
      Run(Step(w, actions[0]), actions[1..])
  }

  function Fresh(n: nat): seq<Session> { if n == 0 then [] else Fresh(n - 1) + [Session(map[], Idle)] }

  lemma {:induction false} FreshOk(m: Matcher, columns: set<int>, n: nat)
    requires Consistent(m) && ColumnsOk(m, columns)
    ensures |Fresh(n)| == n && Inv(World(m, columns, Fresh(n), [], []))
    ensures forall k :: 0 <= k < n ==> Fresh(n)[k].stage.Idle?
  {
    if n > 0 { FreshOk(m, columns, n - 1); }
  }

  /** Any number of sessions before they have resolved anything, over the names loaded so far. */
  function Start(m: Matcher, columns: set<int>, n: nat): (w: World)
    requires Consistent(m) && ColumnsOk(m, columns)
    ensures Inv(w)
  {
    FreshOk(m, columns, n);
    World(m, columns, Fresh(n), [], [])
  }

  /** Over every interleaving: answers agree on names and ids, both ways, and ids are negative exactly for events. */
  lemma AnswersAgree(m: Matcher, columns: set<int>, n: nat, actions: seq<Action>, i: nat, j: nat)
    requires Consistent(m) && ColumnsOk(m, columns) && forall k :: 0 <= k < |actions| ==> Allowed(actions[k])
    requires i < |Run(Start(m, columns, n), actions).answers| && j < |Run(Start(m, columns, n), actions).answers|
    ensures var a, b := Run(Start(m, columns, n), actions).answers[i], Run(Start(m, columns, n), actions).answers[j];
      (a.name == b.name <==> a.id == b.id) && a.id != 0 && (a.id < 0 <==> IsEvent(a.name))
  {
    var w := Run(Start(m, columns, n), actions);
    var a, b := w.answers[i], w.answers[j];
    assert Says(w.global, a.name, a.id) && Says(w.global, b.name, b.id);
    OneToOne(w.global, a.name, b.name);
    assert EntryOk(w.global, a.name);
  }

  /** Every session's names are among the registry's, with the registry's ids. */
  lemma CachesAgree(m: Matcher, columns: set<int>, n: nat, actions: seq<Action>, k: nat, name: bytes)
    requires Consistent(m) && ColumnsOk(m, columns) && forall i :: 0 <= i < |actions| ==> Allowed(actions[i])
    requires k < |Run(Start(m, columns, n), actions).sessions| && name in Run(Start(m, columns, n), actions).sessions[k].local
    ensures var w := Run(Start(m, columns, n), actions); Says(w.global, name, w.sessions[k].local[name]) && Consistent(w.global)
  {
    var w := Run(Start(m, columns, n), actions);
    assert SessionOk(w.global, w.sessions[k]);
  }

  /** Over every interleaving, no column fails to be created: an id for a new name is one that no column has. */
  lemma ColumnsCreated(m: Matcher, columns: set<int>, n: nat, actions: seq<Action>)
    requires Consistent(m) && ColumnsOk(m, columns) && forall i :: 0 <= i < |actions| ==> Allowed(actions[i])
    ensures var w := Run(Start(m, columns, n), actions); w.failed == [] && ColumnsOk(w.global, w.columns)
  {
    assert Inv(Run(Start(m, columns, n), actions));
  }
}
