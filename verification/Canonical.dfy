/** The canonical form of a series name: one space between the parts, tags in the order of their names. */
module Canonical {
  import opened Bytes
  import opened SeriesNames

  const MAX_SNAME := 0x1000

  // ---- The order of tags -----------------------------------------------------------------------

  /** The name of a tag: the bytes before its first equals sign. */
  function TagName(t: bytes): bytes { if t == [] || t[0] == EQUALS then [] else [t[0]] + TagName(t[1..]) }

  /** Dictionary order of signed characters; the shorter of two names comes first when it starts the longer. */
  predicate Before(a: bytes, b: bytes)
    decreases |a|
  {
    if a == [] || b == [] then a == [] && b != []
    else if a[0] != b[0] then Signed(a[0]) < Signed(b[0])
    else Before(a[1..], b[1..])
  }

  predicate Less(s: bytes, t: bytes) { Before(TagName(s), TagName(t)) }

  lemma {:induction false} BeforeTotal(a: bytes, b: bytes)
    ensures Before(a, b) || Before(b, a) || a == b
    ensures !(Before(a, b) && Before(b, a)) && !Before(a, a)
    decreases |a|
  {
    if a != [] && b != [] && a[0] == b[0] {
      BeforeTotal(a[1..], b[1..]);
      assert a == [a[0]] + a[1..] && b == [b[0]] + b[1..];
    }
    if a != [] { BeforeTotal(a[1..], a[1..]); }
  }

  lemma {:induction false} BeforeChains(a: bytes, b: bytes, c: bytes)
    requires Before(a, b) && Before(b, c)
    ensures Before(a, c)
    decreases |a|
  {
    if a != [] && c != [] && a[0] == b[0] == c[0] { BeforeChains(a[1..], b[1..], c[1..]); }
  }

  // ---- Sorting ---------------------------------------------------------------------------------

  function Insert(t: bytes, ts: seq<bytes>): seq<bytes> {
    if ts == [] || Less(t, ts[0]) then [t] + ts else [ts[0]] + Insert(t, ts[1..])
  }

  function Sort(ts: seq<bytes>): seq<bytes> { if ts == [] then [] else Insert(ts[0], Sort(ts[1..])) }

  /** No two tags have the same name. */
  ghost predicate Distinct(ts: seq<bytes>) { forall i, j :: 0 <= i < j < |ts| ==> TagName(ts[i]) != TagName(ts[j]) }

  ghost predicate Sorted(ts: seq<bytes>) { forall i, j :: 0 <= i < j < |ts| ==> Less(ts[i], ts[j]) }

  lemma {:induction false} InsertSame(t: bytes, ts: seq<bytes>)
    ensures multiset(Insert(t, ts)) == multiset{t} + multiset(ts)
    decreases |ts|
  {
    if ts != [] && !Less(t, ts[0]) {
      InsertSame(t, ts[1..]);
      assert ts == [ts[0]] + ts[1..];
    }
  }

  lemma {:induction false} SortSame(ts: seq<bytes>)
    ensures multiset(Sort(ts)) == multiset(ts)
  {
    if ts != [] {
      SortSame(ts[1..]);
      InsertSame(ts[0], Sort(ts[1..]));
      assert ts == [ts[0]] + ts[1..];
    }
  }

  /** Below every tag of a list. */
  ghost predicate Least(t: bytes, ts: seq<bytes>) { forall u :: u in ts ==> Less(t, u) }

  lemma SortedCons(t: bytes, ts: seq<bytes>)
    requires Least(t, ts) && Sorted(ts)
    ensures Sorted([t] + ts)
  {
    assert forall i :: 0 <= i < |ts| ==> ts[i] in ts;
  }

  lemma SortedFirst(ts: seq<bytes>)
    requires ts != [] && Sorted(ts)
    ensures Least(ts[0], ts[1..]) && Sorted(ts[1..])
  {
  }

  lemma LeastChains(t: bytes, u: bytes, ts: seq<bytes>)
    requires Less(t, u) && Least(u, ts)
    ensures Least(t, ts)
  {
    forall v | v in ts ensures Less(t, v) { BeforeChains(TagName(t), TagName(u), TagName(v)); }
  }

  lemma {:induction false} InsertSorted(t: bytes, ts: seq<bytes>)
    requires Sorted(ts) && forall u :: u in ts ==> TagName(u) != TagName(t)
    ensures Sorted(Insert(t, ts)) && forall u :: u in Insert(t, ts) <==> u == t || u in ts
    decreases |ts|
  {
    if ts == [] {
    } else if Less(t, ts[0]) {
      SortedFirst(ts);
      LeastChains(t, ts[0], ts[1..]);
      SortedCons(t, ts);
    } else {
      SortedFirst(ts);
      BeforeTotal(TagName(t), TagName(ts[0]));
      InsertSorted(t, ts[1..]);
      SortedCons(ts[0], Insert(t, ts[1..]));
    }
  }

  lemma {:induction false} SortSorts(ts: seq<bytes>)
    requires Distinct(ts)
    ensures Sorted(Sort(ts)) && forall u :: u in Sort(ts) <==> u in ts
  {
    if ts != [] {
      SortSorts(ts[1..]);
      InsertSorted(ts[0], Sort(ts[1..]));
    }
  }

  lemma SameFirst(a: seq<bytes>, b: seq<bytes>)
    requires a != [] && b != [] && Sorted(a) && Sorted(b) && multiset(a) == multiset(b)
    ensures a[0] == b[0]
  {
    SortedFirst(a);
    SortedFirst(b);
    assert a == [a[0]] + a[1..] && b == [b[0]] + b[1..];
    assert a[0] in multiset(b) && b[0] in multiset(a);
    BeforeTotal(TagName(a[0]), TagName(b[0]));
  }

  /** Two sorted lists of the same tags are the same list, so it does not matter how they are sorted. */
  lemma {:induction false} SortedUnique(a: seq<bytes>, b: seq<bytes>)
    requires Sorted(a) && Sorted(b) && multiset(a) == multiset(b)
    ensures a == b
    decreases |a|
  {
    assert |multiset(a)| == |multiset(b)|;
    if a != [] {
      SameFirst(a, b);
      assert a == [a[0]] + a[1..] && b == [b[0]] + b[1..];
      assert multiset(a[1..]) == multiset(a) - multiset{a[0]};
      assert multiset(b[1..]) == multiset(b) - multiset{b[0]};
      SortedUnique(a[1..], b[1..]);
    }
  }

  /** A sorted list is left alone. */
  lemma {:induction false} SortKeeps(ts: seq<bytes>)
    requires Sorted(ts)
    ensures Sort(ts) == ts
  {
    if ts != [] {
      SortedFirst(ts);
      SortKeeps(ts[1..]);
      assert ts == [ts[0]] + ts[1..];
    }
  }

  // ---- The canonical form ----------------------------------------------------------------------

  datatype Form = BadArg | BadData | Form(out: bytes)

  /** The canonical form of `w`, for a buffer of `room` bytes. */
  function ToCanonical(w: bytes, room: nat): Form {
    if |w| > MAX_SNAME then BadData
    else if |w| > room then BadArg
    else
      match Parse(w)
      case None => BadData
      case Some(n) => Form(Render(n.(tags := Sort(n.tags))))
  }

  lemma {:induction false} InsertLength(t: bytes, ts: seq<bytes>)
    ensures |RenderTags(Insert(t, ts))| == 1 + |t| + |RenderTags(ts)|
    decreases |ts|
  {
    if ts == [] || Less(t, ts[0]) {
      assert ([t] + ts)[1..] == ts;
    } else {
      InsertLength(t, ts[1..]);
      assert ([ts[0]] + Insert(t, ts[1..]))[1..] == Insert(t, ts[1..]);
    }
  }

  lemma {:induction false} SortLength(ts: seq<bytes>)
    ensures |RenderTags(Sort(ts))| == |RenderTags(ts)| && |Sort(ts)| == |ts|
  {
    if ts != [] {
      SortLength(ts[1..]);
      InsertLength(ts[0], Sort(ts[1..]));
      InsertSame(ts[0], Sort(ts[1..]));
      assert |multiset(Insert(ts[0], Sort(ts[1..])))| == 1 + |Sort(ts[1..])|;
    }
  }

  /** The canonical form is no longer than the name. */
  lemma NoLonger(w: bytes, room: nat)
    requires ToCanonical(w, room).Form?
    ensures |ToCanonical(w, room).out| <= |w|
  {
    RenderLength(w);
    SortLength(Parse(w).value.tags);
  }

  // ---- Canonical names are read back -----------------------------------------------------------

  lemma {:induction false} NameOfPlus(t: bytes, u: bytes)
    requires EQUALS in t
    ensures TagName(t + u) == TagName(t)
    decreases |t|
  {
    if t[0] != EQUALS {
      assert (t + u)[1..] == t[1..] + u;
      NameOfPlus(t[1..], u);
    }
  }

  /** The names of `us` are among those of `ts`. */
  ghost predicate NamesFrom(us: seq<bytes>, ts: seq<bytes>) {
    forall u :: u in us ==> exists t :: t in ts && TagName(t) == TagName(u)
  }

  lemma LeastByName(t: bytes, us: seq<bytes>, ts: seq<bytes>)
    requires Least(t, ts) && NamesFrom(us, ts)
    ensures Least(t, us)
  {
  }

  /** Tags behind the space in front of the first. */
  function Body(ts: seq<bytes>): bytes
    requires ts != []
  {
    ts[0] + RenderTags(ts[1..])
  }

  lemma SpaceThenTag(ts: seq<bytes>)
    requires ts != [] && TagsOk(ts)
    ensures RenderTags(ts) == [SPACE] + Body(ts) && SkipSpace(RenderTags(ts)) == Body(ts)
  {
    assert RenderTags(ts) == [SPACE] + Body(ts);
    assert RenderTags(ts)[1..] == Body(ts) && Body(ts)[0] == ts[0][0];
  }

  /** Two tags written as one. */
  function Merged(ts: seq<bytes>): seq<bytes>
    requires |ts| >= 2
  {
    [ts[0] + [SPACE] + ts[1]] + ts[2..]
  }

  lemma MergedSame(ts: seq<bytes>)
    requires |ts| >= 2 && TagsOk(ts) && Sorted(ts) && ts[0][|ts[0]| - 1] == ESCAPE
    ensures RenderTags(Merged(ts)) == RenderTags(ts) && Body(Merged(ts)) == Body(ts) && TagsOk(Merged(ts))
  {
    var t, u, rest := ts[0], ts[1], ts[2..];
    Swallows(t, u);
    OneMoreTag(t + [SPACE] + u, rest);
    assert ts[1..][1..] == rest && Merged(ts)[1..] == rest;
    Regroup(t, u, RenderTags(rest));
    SpaceThenTag(ts);
    SpaceThenTag(Merged(ts));
    assert Body(ts) == RenderTags(ts)[1..] == Body(Merged(ts));
  }

  lemma Regroup(t: bytes, u: bytes, rest: bytes)
    ensures [SPACE] + (t + [SPACE] + u) + rest == [SPACE] + t + ([SPACE] + u + rest)
  {
  }

  lemma MergedSorted(ts: seq<bytes>)
    requires |ts| >= 2 && TagsOk(ts) && Sorted(ts)
    ensures Sorted(Merged(ts)) && NamesFrom(Merged(ts), ts)
  {
    var t, u, rest := ts[0], ts[1], ts[2..];
    var m := t + [SPACE] + u;
    Assoc(t, [SPACE], u);
    NameOfPlus(t, [SPACE] + u);
    SortedFirst(ts);
    SortedFirst(ts[1..]);
    assert ts[1..][1..] == rest && forall v :: v in rest ==> v in ts[1..];
    assert Least(m, rest);
    SortedCons(m, rest);
    assert t in ts && forall v :: v in rest ==> v in ts;
  }

  lemma TagThenTags(read: Reader, w: bytes, t: bytes, rest: bytes, n: nat, vs: seq<bytes>)
    requires ReadsTags(read) && w != [] && n > 0 && Token(w) == Cut(t, rest) && TagOk(t) && Tags(read, SkipSpace(rest), n - 1) == Some(vs)
    ensures Tags(read, w, n) == Some([t] + vs)
  {
    assert TagAt(w) == Some(Cut(t, SkipSpace(rest)));
  }

  lemma RenderCons(t: bytes, vs: seq<bytes>)
    ensures RenderTags([t] + vs) == [SPACE] + t + RenderTags(vs)
  {
    assert ([t] + vs)[1..] == vs;
  }

  lemma OneBack(read: Reader, t: bytes, n: nat)
    requires ReadsTags(read) && IsToken(t) && TagOk(t) && n > 0
    ensures Tags(read, Body([t]), n) == Some([t])
  {
    TokenBack(t, []);
    assert t + [] == t && [t] + [] == [t];
    assert [t][1..] == [] && Body([t]) == t;
    assert Tags(read, [], n - 1) == Some([]);
    TagThenTags(read, t, t, [], n, []);
  }

  /** `us` are sorted tags that are written as `ts` are. */
  ghost predicate Reads(us: seq<bytes>, ts: seq<bytes>) {
    RenderTags(us) == RenderTags(ts) && us != [] && Sorted(us) && NamesFrom(us, ts)
  }

  /** Sorted tags written with single spaces are read as sorted tags that are written the same. */
  lemma {:induction false} TagsBack(read: Reader, ts: seq<bytes>, n: nat) returns (us: seq<bytes>)
    requires ReadsTags(read) && ts != [] && TagsOk(ts) && Sorted(ts) && |ts| <= n
    ensures Tags(read, Body(ts), n) == Some(us) && Reads(us, ts)
    decreases |ts|
  {
    var t := ts[0];
    if |ts| == 1 {
      assert ts == [t];
      OneBack(read, t, n);
      us := ts;
      assert NamesFrom(ts, ts);
    } else if t[|t| - 1] == ESCAPE {
      MergedSame(ts);
      MergedSorted(ts);
      us := TagsBack(read, Merged(ts), n);
      NamesChain(us, Merged(ts), ts);
    } else {
      var vs := TagsBack(read, ts[1..], n - 1);
      us := [t] + vs;
      MoreBack(read, ts, n, vs);
    }
  }

  lemma NamesChain(us: seq<bytes>, vs: seq<bytes>, ts: seq<bytes>)
    requires NamesFrom(us, vs) && NamesFrom(vs, ts)
    ensures NamesFrom(us, ts)
  {
  }

  lemma MoreBack(read: Reader, ts: seq<bytes>, n: nat, vs: seq<bytes>)
    requires ReadsTags(read) && |ts| > 1 && TagsOk(ts) && Sorted(ts) && |ts| <= n && ts[0][|ts[0]| - 1] != ESCAPE
    requires Tags(read, Body(ts[1..]), n - 1) == Some(vs) && Reads(vs, ts[1..])
    ensures Tags(read, Body(ts), n) == Some([ts[0]] + vs) && Reads([ts[0]] + vs, ts)
  {
    var t, rest := ts[0], RenderTags(ts[1..]);
    SpaceThenTag(ts);
    SpaceThenTag(ts[1..]);
    TokenBack(t, rest);
    TagThenTags(read, t + rest, t, rest, n, vs);
    ReadsCons(ts, vs);
  }

  lemma ReadsCons(ts: seq<bytes>, vs: seq<bytes>)
    requires |ts| > 1 && Sorted(ts) && Reads(vs, ts[1..])
    ensures Reads([ts[0]] + vs, ts)
  {
    RenderCons(ts[0], vs);
    SortedFirst(ts);
    LeastByName(ts[0], vs, ts[1..]);
    SortedCons(ts[0], vs);
    assert ts[0] in ts && forall u :: u in ts[1..] ==> u in ts;
  }

  // ---- The theorems ----------------------------------------------------------------------------

  lemma {:induction false} SplitStops(prev: byte, w: bytes)
    requires Split(prev, w).rest != []
    ensures LastOf(prev, Split(prev, w).token) != ESCAPE
    decreases |w|
  {
    if w != [] && !(w[0] == SPACE && prev != ESCAPE) { SplitStops(w[0], w[1..]); }
  }

  /** A metric does not end in a backslash. */
  lemma MetricEnds(w: bytes)
    requires Parse(w).Some?
    ensures var m := Parse(w).value.metric; m[|m| - 1] != ESCAPE
  {
    var w1 := SkipSpace(w);
    SplitStops(w1[0], w1[1..]);
  }

  lemma SortedNameBack(m: bytes, ts: seq<bytes>) returns (us: seq<bytes>)
    requires IsToken(m) && m[|m| - 1] != ESCAPE && ts != [] && TagsOk(ts) && Sorted(ts) && |ts| <= MAX_TAGS
    ensures Parse(Render(Name(m, ts))) == Some(Name(m, us)) && Reads(us, ts)
  {
    var w := Render(Name(m, ts));
    SpaceThenTag(ts);
    assert SkipSpace(w) == w;
    TokenBack(m, RenderTags(ts));
    us := TagsBack(TagReader(), ts, MAX_TAGS);
  }

  lemma SortOk(ts: seq<bytes>)
    requires TagsOk(ts) && Distinct(ts)
    ensures TagsOk(Sort(ts)) && Sorted(Sort(ts)) && |Sort(ts)| == |ts|
  {
    SortSorts(ts);
    SortLength(ts);
    assert forall i :: 0 <= i < |Sort(ts)| ==> Sort(ts)[i] in Sort(ts);
  }

  /** A canonical name is its own canonical form. */
  lemma FixedPoint(w: bytes, room: nat)
    requires ToCanonical(w, room).Form? && Distinct(Parse(w).value.tags)
    ensures ToCanonical(ToCanonical(w, room).out, room) == ToCanonical(w, room)
  {
    var n := Parse(w).value;
    NoLonger(w, room);
    ParsedIsOk(w);
    MetricEnds(w);
    SortOk(n.tags);
    var us := SortedNameBack(n.metric, Sort(n.tags));
    SortKeeps(us);
  }

  /** Names with the same metric and the same tags in any order have the same canonical form. */
  lemma SameTagsSameForm(v: bytes, w: bytes, room: nat)
    requires Parse(v).Some? && Parse(w).Some? && Distinct(Parse(v).value.tags) && Distinct(Parse(w).value.tags)
    requires Parse(v).value.metric == Parse(w).value.metric && multiset(Parse(v).value.tags) == multiset(Parse(w).value.tags)
    requires |v| <= MAX_SNAME && |w| <= MAX_SNAME && |v| <= room && |w| <= room
    ensures ToCanonical(v, room) == ToCanonical(w, room)
  {
    var a, b := Parse(v).value.tags, Parse(w).value.tags;
    SortSorts(a);
    SortSorts(b);
    SortSame(a);
    SortSame(b);
    SortedUnique(Sort(a), Sort(b));
  }
}
