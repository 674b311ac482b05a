/** Names as they are typed, with any blanks between their parts, and the scan that brings them into form. */
module CanonicalText {
  import opened Bytes
  import opened SeriesNames
  import opened Canonical

  // ---- Blanks ----------------------------------------------------------------------------------

  predicate Blank(w: bytes) { forall i :: 0 <= i < |w| ==> IsBlank(w[i]) }

  /** What separates two parts: a space, and any blanks behind it. */
  predicate IsGap(w: bytes) { w != [] && w[0] == SPACE && Blank(w) }

  lemma {:induction false} SkipBlank(w: bytes, rest: bytes)
    requires Blank(w) && (rest == [] || !IsBlank(rest[0]))
    ensures SkipSpace(w + rest) == rest
    decreases |w|
  {
    if w == [] {
      assert w + rest == rest;
    } else {
      assert (w + rest)[1..] == w[1..] + rest;
      SkipBlank(w[1..], rest);
    }
  }

  /** A tag and the blanks in front of it. */
  datatype Spaced = Spaced(gap: bytes, tag: bytes)

  function TagsOf(ss: seq<Spaced>): (ts: seq<bytes>)
    ensures |ts| == |ss| && forall i :: 0 <= i < |ss| ==> ts[i] == ss[i].tag
  {
    if ss == [] then [] else [ss[0].tag] + TagsOf(ss[1..])
  }

  function SpreadTags(ss: seq<Spaced>, trail: bytes): bytes {
    if ss == [] then trail else ss[0].gap + (ss[0].tag + SpreadTags(ss[1..], trail))
  }

  /** A name typed with blanks of any kind in front, between and behind. */
  function Text(lead: bytes, metric: bytes, ss: seq<Spaced>, trail: bytes): bytes { lead + (metric + SpreadTags(ss, trail)) }

  /** No part ends in a backslash, which would keep it from ending. */
  ghost predicate PartOk(t: bytes) { IsToken(t) && t[|t| - 1] != ESCAPE }

  ghost predicate SpacedOk(ss: seq<Spaced>) {
    forall i :: 0 <= i < |ss| ==> IsGap(ss[i].gap) && PartOk(ss[i].tag) && TagOk(ss[i].tag)
  }

  ghost predicate TrailOk(trail: bytes) { trail == [] || IsGap(trail) }

  lemma SpreadStarts(ss: seq<Spaced>, trail: bytes)
    requires SpacedOk(ss) && TrailOk(trail)
    ensures SpreadTags(ss, trail) == [] || SpreadTags(ss, trail)[0] == SPACE
    ensures SkipSpace(SpreadTags(ss, trail)) == if ss == [] then [] else ss[0].tag + SpreadTags(ss[1..], trail)
  {
    if ss == [] {
      SkipBlank(trail, []);
      assert trail + [] == trail;
    } else {
      SkipBlank(ss[0].gap, ss[0].tag + SpreadTags(ss[1..], trail));
    }
  }

  lemma TagReads(read: Reader, t: bytes, rest: bytes, w: bytes, n: nat, ts: seq<bytes>)
    requires ReadsTags(read) && PartOk(t) && TagOk(t) && n > 0 && (rest == [] || rest[0] == SPACE) && w == SkipSpace(rest) && Tags(read, w, n - 1) == Some(ts)
    ensures Tags(read, t + rest, n) == Some([t] + ts)
  {
    TokenBack(t, rest);
    TagThenTags(read, t + rest, t, rest, n, ts);
  }

  lemma {:induction false} SpreadParses(read: Reader, ss: seq<Spaced>, trail: bytes, w: bytes, n: nat)
    requires ReadsTags(read) && SpacedOk(ss) && TrailOk(trail) && |ss| <= n && w == SkipSpace(SpreadTags(ss, trail))
    ensures Tags(read, w, n) == Some(TagsOf(ss))
    decreases |ss|
  {
    SpreadStarts(ss, trail);
    if ss != [] {
      var more := ss[1..];
      var rest := SpreadTags(more, trail);
      SpreadStarts(more, trail);
      SpreadParses(read, more, trail, SkipSpace(rest), n - 1);
      TagReads(read, ss[0].tag, rest, SkipSpace(rest), n, TagsOf(more));
    }
  }

  /** However it is spaced, a name has the parts it was typed with. */
  lemma TextParses(lead: bytes, metric: bytes, ss: seq<Spaced>, trail: bytes)
    requires Blank(lead) && PartOk(metric) && SpacedOk(ss) && TrailOk(trail) && 0 < |ss| <= MAX_TAGS
    ensures Parse(Text(lead, metric, ss, trail)) == Some(Name(metric, TagsOf(ss)))
  {
    var rest := SpreadTags(ss, trail);
    SkipBlank(lead, metric + rest);
    SpreadStarts(ss, trail);
    TokenBack(metric, rest);
    SpreadParses(TagReader(), ss, trail, SkipSpace(rest), MAX_TAGS);
  }

  // ---- Names with one tag ----------------------------------------------------------------------

  lemma OneTagText(m: bytes, t: bytes, ss: seq<Spaced>)
    requires ss == [Spaced([SPACE], t)]
    ensures Text([], m, ss, []) == m + [SPACE] + t && TagsOf(ss) == [t]
  {
    assert ss[1..] == [];
    assert SpreadTags(ss, []) == [SPACE] + (t + []);
  }

  lemma OneTagParses(m: bytes, t: bytes)
    requires PartOk(m) && PartOk(t) && TagOk(t)
    ensures Parse(m + [SPACE] + t) == Some(Name(m, [t]))
  {
    var ss := [Spaced([SPACE], t)];
    OneTagText(m, t, ss);
    assert IsGap([SPACE]) && SpacedOk(ss);
    TextParses([], m, ss, []);
  }

  lemma SortOne(t: bytes)
    ensures Sort([t]) == [t]
  {
    assert [t][1..] == [];
    assert Sort([t]) == Insert(t, Sort([])) == [t];
  }

  lemma FormOf(w: bytes, room: nat, n: Name)
    requires Parse(w) == Some(n) && |w| <= room <= MAX_SNAME
    ensures ToCanonical(w, room) == Form(Render(n.(tags := Sort(n.tags))))
  {
  }

  /** A name with one tag is canonical as it stands. */
  lemma OneTagForm(m: bytes, t: bytes, room: nat)
    requires PartOk(m) && PartOk(t) && TagOk(t) && |m| + 1 + |t| <= room <= MAX_SNAME
    ensures ToCanonical(m + [SPACE] + t, room) == Form(m + [SPACE] + t)
  {
    OneTagParses(m, t);
    SortOne(t);
    OneTagRender(m, t);
    FormOf(m + [SPACE] + t, room, Name(m, [t]));
  }

  lemma OneTagRender(m: bytes, t: bytes)
    ensures Render(Name(m, [t])) == m + [SPACE] + t
  {
    assert [t][1..] == [] && RenderTags([t]) == [SPACE] + t + [] && m + ([SPACE] + t) == m + [SPACE] + t;
  }

  lemma {:induction false} NoSpaces(prev: byte, t: bytes)
    requires SPACE !in t
    ensures Escaped(prev, t)
    decreases |t|
  {
    if t != [] { NoSpaces(t[0], t[1..]); }
  }

  // ---- Order and blanks ------------------------------------------------------------------------

  /** The canonical form does not depend on the order of the tags or on the blanks between them. */
  lemma OrderAndBlanks(lead: bytes, ss: seq<Spaced>, trail: bytes, lead': bytes, ss': seq<Spaced>, trail': bytes, metric: bytes, room: nat)
    requires PartOk(metric) && Blank(lead) && Blank(lead') && TrailOk(trail) && TrailOk(trail')
    requires SpacedOk(ss) && SpacedOk(ss') && 0 < |ss| <= MAX_TAGS && 0 < |ss'| <= MAX_TAGS
    requires multiset(TagsOf(ss)) == multiset(TagsOf(ss')) && Distinct(TagsOf(ss)) && Distinct(TagsOf(ss'))
    requires |Text(lead, metric, ss, trail)| <= MAX_SNAME && |Text(lead, metric, ss, trail)| <= room
    requires |Text(lead', metric, ss', trail')| <= MAX_SNAME && |Text(lead', metric, ss', trail')| <= room
    ensures ToCanonical(Text(lead, metric, ss, trail), room) == ToCanonical(Text(lead', metric, ss', trail'), room)
    ensures ToCanonical(Text(lead, metric, ss, trail), room).Form?
  {
    TextParses(lead, metric, ss, trail);
    TextParses(lead', metric, ss', trail');
    SameTagsSameForm(Text(lead, metric, ss, trail), Text(lead', metric, ss', trail'), room);
  }

  // ---- The scan --------------------------------------------------------------------------------

  /** Of the token of `w`, `done` has been seen, ending in `prev`; `rest` is still to be seen. */
  ghost predicate Seen(w: bytes, done: bytes, prev: byte, rest: bytes) {
    && w != [] && done != [] && done[0] == w[0]
    && Token(w) == Cut(done + Split(prev, rest).token, Split(prev, rest).rest)
  }

  lemma SeeFirst(w: bytes)
    requires w != []
    ensures Seen(w, [w[0]], w[0], w[1..])
  {
  }

  lemma SeeMore(w: bytes, done: bytes, prev: byte, rest: bytes)
    requires Seen(w, done, prev, rest) && rest != [] && !(rest[0] == SPACE && prev != ESCAPE)
    ensures Seen(w, done + [rest[0]], rest[0], rest[1..])
  {
    Assoc(done, [rest[0]], Split(rest[0], rest[1..]).token);
  }

  lemma SeenAll(w: bytes, done: bytes, prev: byte, rest: bytes)
    requires Seen(w, done, prev, rest) && (rest == [] || (rest[0] == SPACE && prev != ESCAPE))
    ensures Token(w) == Cut(done, rest)
  {
    assert done + [] == done;
  }

  /** A position in a token: the text behind it, the last byte before it, and the last backslash. */
  ghost predicate At(src: bytes, p: nat, escape: int, prev: byte, rest: bytes) {
    p <= |src| && rest == src[p..] && escape < p && (escape == p - 1 <==> prev == ESCAPE)
  }

  lemma Onward(src: bytes, p: nat, escape: int, prev: byte, rest: bytes)
    requires At(src, p, escape, prev, rest) && p < |src|
    ensures rest != [] && rest[0] == src[p] && At(src, p + 1, if src[p] == ESCAPE then p else escape, src[p], rest[1..])
  {
  }

  /** On to the end of the token. */
  method TokenEnd(src: bytes, p0: nat, escape0: int, ghost w: bytes, done0: bytes, ghost prev0: byte, ghost rest0: bytes)
    returns (p: nat, done: bytes)
    requires At(src, p0, escape0, prev0, rest0) && Seen(w, done0, prev0, rest0)
    ensures p0 <= p <= |src| && done0 <= done && Token(w) == Cut(done, src[p..])
  {
    var escape := escape0;
    ghost var prev, rest := prev0, rest0;
    p, done := p0, done0;
    while p < |src| && !(src[p] == SPACE && escape != p - 1)
      invariant p0 <= p && done0 <= done && At(src, p, escape, prev, rest) && Seen(w, done, prev, rest)
      decreases |src| - p
    {
      Onward(src, p, escape, prev, rest);
      SeeMore(w, done, prev, rest);
      prev, rest := rest[0], rest[1..];
      done := done + [src[p]];
      if src[p] == ESCAPE { escape := p; }
      p := p + 1;
    }
    SeenAll(w, done, prev, rest);
  }

  /** `copy_until`: a token, and where it ends. */
  method CopyUntil(src: bytes, from: nat) returns (p: nat, token: bytes)
    requires from < |src|
    ensures from < p <= |src| && Token(src[from..]) == Cut(token, src[p..])
  {
    ghost var w := src[from..];
    SeeFirst(w);
    p, token := TokenEnd(src, from + 1, if src[from] == ESCAPE then from else -1, w, [src[from]], w[0], w[1..]);
  }

  /** The first of the two loops of `skip_tag`: to an equals sign, the end of the token, or the end of the text. */
  method FindEquals(src: bytes, from: nat) returns (p: nat, escape: int, done: bytes, ghost prev: byte, ghost rest: bytes)
    requires from < |src| && src[from] != EQUALS
    ensures from < p && At(src, p, escape, prev, rest) && Seen(src[from..], done, prev, rest) && EQUALS !in done
    ensures p == |src| || src[p] == EQUALS || (src[p] == SPACE && escape != p - 1)
  {
    ghost var w := src[from..];
    SeeFirst(w);
    p, escape, done := from + 1, if src[from] == ESCAPE then from else -1, [src[from]];
    prev, rest := w[0], w[1..];
    while p < |src| && src[p] != EQUALS && !(src[p] == SPACE && escape != p - 1)
      invariant from < p && At(src, p, escape, prev, rest) && Seen(w, done, prev, rest) && EQUALS !in done
      decreases |src| - p
    {
      Onward(src, p, escape, prev, rest);
      SeeMore(w, done, prev, rest);
      prev, rest := rest[0], rest[1..];
      done := done + [src[p]];
      if src[p] == ESCAPE { escape := p; }
      p := p + 1;
    }
  }

  /** `skip_tag`: past a tag, or an error if it has no name or no equals sign. */
  method SkipTag(src: bytes, from: nat) returns (p: nat, tag: bytes, error: bool)
    requires from < |src|
    ensures from <= p <= |src|
    ensures error <==> !TagOk(Token(src[from..]).token)
    ensures !error ==> Token(src[from..]) == Cut(tag, src[p..])
  {
    ghost var w := src[from..];
    if src[from] == EQUALS { return |src|, [], true; }
    var q, escape, done;
    ghost var prev, rest;
    q, escape, done, prev, rest := FindEquals(src, from);
    if q == |src| || src[q] != EQUALS {
      SeenAll(w, done, prev, rest);
      return |src|, [], true;
    }
    Onward(src, q, escape, prev, rest);
    SeeMore(w, done, prev, rest);
    var done' := done + [src[q]];
    p, tag := TokenEnd(src, q + 1, escape, w, done', rest[0], rest[1..]);
    assert done'[|done|] == EQUALS && tag[|done|] == EQUALS;
    error := false;
  }

  /** `sort_pred` on two tags: byte by byte up to an equals sign. */
  method SortPred(a: bytes, b: bytes) returns (less: bool)
    requires TagOk(a) && TagOk(b)
    ensures less == Less(a, b)
  {
    var i := 0;
    while true
      invariant 0 <= i < |a| && i < |b| && EQUALS in a[i..] && EQUALS in b[i..]
      invariant Less(a, b) == Less(a[i..], b[i..])
      decreases |a| - i
    {
      if a[i] == EQUALS || b[i] == EQUALS {
        return a[i] == EQUALS && b[i] != EQUALS;
      }
      if Signed(a[i]) < Signed(b[i]) { return true; }
      if Signed(a[i]) > Signed(b[i]) { return false; }
      assert a[i..][1..] == a[i + 1..] && b[i..][1..] == b[i + 1..];
      i := i + 1;
    }
  }

  /** Tags read before those still to be read. */
  function Behind(done: seq<bytes>, r: Option<seq<bytes>>): Option<seq<bytes>> {
    match r
    case None => None
    case Some(ts) => Some(done + ts)
  }

  lemma TagBehind(read: Reader, done: seq<bytes>, w: bytes, n: nat, t: bytes, rest: bytes)
    requires ReadsTags(read) && w != [] && n > 0 && Token(w) == Cut(t, rest) && TagOk(t)
    ensures Behind(done, Tags(read, w, n)) == Behind(done + [t], Tags(read, SkipSpace(rest), n - 1))
  {
    assert TagAt(w) == Some(Cut(t, SkipSpace(rest)));
    var r := Tags(read, SkipSpace(rest), n - 1);
    if r.Some? { Assoc(done, [t], r.value); }
  }

  lemma NoTagBehind(read: Reader, done: seq<bytes>, w: bytes, n: nat)
    requires ReadsTags(read) && w != [] && n > 0 && !TagOk(Token(w).token)
    ensures Behind(done, Tags(read, w, n)) == None
  {
    assert TagAt(w) == None;
  }

  lemma NoneBehind(r: Option<seq<bytes>>)
    ensures Behind([], r) == r
  {
    if r.Some? { assert [] + r.value == r.value; }
  }

  lemma LastBehind(read: Reader, done: seq<bytes>, w: bytes, n: nat)
    requires w == [] || n == 0
    ensures Behind(done, Tags(read, w, n)) == Some(done)
  {
    assert done + [] == done;
  }

  /** One tag and the blanks behind it; `goal` is what the tags come to in the end. */
  method ScanTag(src: bytes, it: nat, tags: seq<bytes>, left: nat, ghost read: Reader, ghost goal: Option<seq<bytes>>)
    returns (it': nat, tags': seq<bytes>, bad: bool)
    requires ReadsTags(read) && it < |src| && left > 0 && goal == Behind(tags, Tags(read, src[it..], left))
    ensures bad ==> goal == None
    ensures !bad ==> it <= it' <= |src| && goal == Behind(tags', Tags(read, src[it'..], left - 1))
  {
    ghost var w := src[it..];
    var p, tag;
    p, tag, bad := SkipTag(src, it);
    it', tags' := p, tags;
    if bad {
      NoTagBehind(read, tags, w, left);
      return;
    }
    TagBehind(read, tags, w, left, tag, src[p..]);
    tags' := tags + [tag];
    it' := SkipBlanks(src, p);
  }

  /** The tags one after the other, at most 32 of them. */
  method ScanTags(src: bytes, from: nat, ghost read: Reader) returns (tags: seq<bytes>, error: bool)
    requires ReadsTags(read) && from <= |src|
    ensures if error then Tags(read, src[from..], MAX_TAGS).None? else Tags(read, src[from..], MAX_TAGS) == Some(tags)
  {
    ghost var goal := Tags(read, src[from..], MAX_TAGS);
    NoneBehind(goal);
    var it, left: nat := from, MAX_TAGS;
    tags, error := [], false;
    while it < |src| && left > 0
      invariant from <= it <= |src| && goal == Behind(tags, Tags(read, src[it..], left))
    {
      it, tags, error := ScanTag(src, it, tags, left, read, goal);
      if error { return; }
      left := left - 1;
    }
    LastBehind(read, tags, src[it..], left);
  }

  /** `to_canonical_form`. */
  method ToCanonicalForm(src: bytes, room: nat) returns (r: Form)
    ensures r == ToCanonical(src, room)
  {
    if |src| > MAX_SNAME { return BadData; }
    if |src| > room { return BadArg; }
    var it := SkipBlanks(src, 0);
    assert src[0..] == src;
    if it == |src| { return BadData; }
    var metric;
    it, metric := CopyUntil(src, it);
    it := SkipBlanks(src, it);
    if it == |src| { return BadData; }
    var tags, error := ScanTags(src, it, TagReader());
    if error { return BadData; }
    var sorted := SortTags(tags);
    r := Form(Render(Name(metric, sorted)));
  }

  /** The tags in order, by inserting one at a time. */
  method SortTags(tags: seq<bytes>) returns (r: seq<bytes>)
    ensures r == Sort(tags)
  {
    r := [];
    var i := |tags|;
    assert tags[i..] == [];
    while i > 0
      invariant 0 <= i <= |tags| && r == Sort(tags[i..])
    {
      i := i - 1;
      assert tags[i..][1..] == tags[i + 1..];
      r := Insert(tags[i], r);
    }
    assert tags[0..] == tags;
  }
}
