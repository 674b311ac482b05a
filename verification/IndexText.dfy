/** The index's own reading of a stored name: words between blanks, without escapes. */
module IndexText {
  import opened Bytes
  import opened SeriesNames
  import opened Canonical

  /** Names without a backslash, a tab or a zero. */
  predicate Plain(w: bytes) { ESCAPE !in w && TAB !in w && 0 !in w }

  function Word(w: bytes): (c: Cut)
    ensures |c.token| + |c.rest| == |w| && (w != [] && w[0] != SPACE ==> c.token != [])
    decreases |w|
  {
    if w == [] || w[0] == SPACE then Cut([], w)
    else
      var c := Word(w[1..]);
      Cut([w[0]] + c.token, c.rest)
  }

  /** The words of a text. */
  function Words(w: bytes): seq<bytes>
    decreases |w|
  {
    var w1 := SkipSpace(w);
    if w1 == [] then []
    else
      var c := Word(w1);
      [c.token] + Words(c.rest)
  }

  predicate IsWord(t: bytes) { t != [] && SPACE !in t && TAB !in t && 0 !in t }

  lemma {:induction false} WordBack(t: bytes, rest: bytes)
    requires SPACE !in t && (rest == [] || rest[0] == SPACE)
    ensures Word(t + rest) == Cut(t, rest)
    decreases |t|
  {
    if t == [] {
      assert t + rest == rest;
    } else {
      assert (t + rest)[1..] == t[1..] + rest;
      WordBack(t[1..], rest);
      assert [t[0]] + t[1..] == t;
    }
  }

  ghost predicate AllWords(ts: seq<bytes>) { forall i :: 0 <= i < |ts| ==> IsWord(ts[i]) }

  lemma FirstWord(t: bytes, rest: bytes, w: bytes)
    requires IsWord(t) && (rest == [] || rest[0] == SPACE) && SkipSpace(w) == t + rest
    ensures Words(w) == [t] + Words(rest)
  {
    WordBack(t, rest);
  }

  lemma SpaceFirst(t: bytes, rest: bytes)
    requires IsWord(t)
    ensures SkipSpace([SPACE] + t + rest) == t + rest
  {
    assert ([SPACE] + t + rest)[1..] == t + rest;
    assert !IsBlank((t + rest)[0]);
  }

  lemma TagsStart(ts: seq<bytes>)
    ensures RenderTags(ts) == [] || RenderTags(ts)[0] == SPACE
  {
  }

  /** Tags written with spaces are the words of the text. */
  lemma {:induction false} WordsOfTags(ts: seq<bytes>)
    requires AllWords(ts)
    ensures Words(RenderTags(ts)) == ts
  {
    if ts != [] {
      WordsOfTags(ts[1..]);
      TagsStart(ts[1..]);
      SpaceFirst(ts[0], RenderTags(ts[1..]));
      FirstWord(ts[0], RenderTags(ts[1..]), RenderTags(ts));
    }
  }

  /** The words of a stored name are its metric and its tags. */
  lemma WordsOfName(n: Name)
    requires IsWord(n.metric) && AllWords(n.tags)
    ensures Words(Render(n)) == [n.metric] + n.tags
    ensures Word(Render(n)) == Cut(n.metric, RenderTags(n.tags)) && SkipSpace(Render(n)) == Render(n)
  {
    TagsStart(n.tags);
    WordBack(n.metric, RenderTags(n.tags));
    FirstWord(n.metric, RenderTags(n.tags), Render(n));
    WordsOfTags(n.tags);
  }

  // ---- Plain names have words for parts --------------------------------------------------------

  lemma {:induction false} NoEscapeNoSpace(prev: byte, t: bytes)
    requires Escaped(prev, t) && prev != ESCAPE && ESCAPE !in t
    ensures SPACE !in t
    decreases |t|
  {
    if t != [] { NoEscapeNoSpace(t[0], t[1..]); }
  }

  lemma TokenIsWord(t: bytes)
    requires IsToken(t) && Plain(t)
    ensures IsWord(t)
  {
    NoEscapeNoSpace(t[0], t[1..]);
    assert t == [t[0]] + t[1..];
  }

  lemma {:induction false} SkipSpacePlain(w: bytes)
    requires Plain(w)
    ensures Plain(SkipSpace(w))
  {
    if w != [] && IsBlank(w[0]) { SkipSpacePlain(w[1..]); }
  }

  lemma TokenPlain(w: bytes)
    requires Plain(w) && w != []
    ensures Plain(Token(w).token) && Plain(SkipSpace(Token(w).rest))
  {
    var c := Token(w);
    assert forall b :: b in c.token || b in c.rest ==> b in w;
    SkipSpacePlain(c.rest);
  }

  lemma {:induction false} TagsPlain(read: Reader, w: bytes, n: nat)
    requires ReadsTags(read) && Plain(w) && (w == [] || !IsBlank(w[0])) && Tags(read, w, n).Some?
    ensures AllWords(Tags(read, w, n).value)
    decreases n
  {
    if w != [] && n > 0 {
      var c := TagAt(w).value;
      TagAtOk(w);
      TokenPlain(w);
      TokenIsWord(c.token);
      TagsPlain(read, c.rest, n - 1);
    }
  }

  lemma ParsePlain(w: bytes)
    requires Plain(w) && Parse(w).Some?
    ensures IsWord(Parse(w).value.metric) && AllWords(Parse(w).value.tags)
  {
    SkipSpacePlain(w);
    var w1 := SkipSpace(w);
    TokenIsToken(w1);
    TokenPlain(w1);
    TokenIsWord(Token(w1).token);
    TagsPlain(TagReader(), SkipSpace(Token(w1).rest), MAX_TAGS);
  }

  lemma SortedWords(ts: seq<bytes>)
    requires AllWords(ts)
    ensures AllWords(Sort(ts))
  {
    SortSame(ts);
    forall i | 0 <= i < |Sort(ts)| ensures IsWord(Sort(ts)[i]) {
      assert Sort(ts)[i] in multiset(Sort(ts));
      assert Sort(ts)[i] in ts;
    }
  }

  lemma {:induction false} TagsNoZero(ts: seq<bytes>)
    requires AllWords(ts)
    ensures 0 !in RenderTags(ts)
  {
    if ts != [] { TagsNoZero(ts[1..]); }
  }

  /** The parts of a plain name, as they are stored, and the text they make. */
  lemma StoredParts(w: bytes, room: nat) returns (n: Name)
    requires Plain(w) && ToCanonical(w, room).Form?
    ensures IsWord(n.metric) && AllWords(n.tags) && ToCanonical(w, room).out == Render(n) && 0 !in Render(n)
    ensures n.metric == Parse(w).value.metric && n.tags == Sort(Parse(w).value.tags)
  {
    var n0 := Parse(w).value;
    ParsePlain(w);
    SortedWords(n0.tags);
    n := n0.(tags := Sort(n0.tags));
    TagsNoZero(n.tags);
  }

  // ---- Checks of a stored text -----------------------------------------------------------------

  /** Of the word at the start of `w`, `done` has been read. */
  ghost predicate Reading(w: bytes, done: bytes, rest: bytes) { Word(w) == Cut(done + Word(rest).token, Word(rest).rest) }

  lemma ReadLetter(w: bytes, done: bytes, rest: bytes)
    requires Reading(w, done, rest) && rest != [] && rest[0] != SPACE
    ensures Reading(w, done + [rest[0]], rest[1..])
  {
    Assoc(done, [rest[0]], Word(rest[1..]).token);
  }

  lemma WordOver(w: bytes, done: bytes, rest: bytes)
    requires Reading(w, done, rest) && (rest == [] || rest[0] == SPACE)
    ensures Word(w) == Cut(done, rest)
  {
    assert done + [] == done;
  }

  lemma WordStarts(w: bytes)
    ensures Reading(w, [], w)
  {
    assert [] + Word(w).token == Word(w).token;
  }

  method ReadWord(text: bytes, from: nat) returns (p: nat, word: bytes)
    requires from <= |text|
    ensures from <= p <= |text| && Word(text[from..]) == Cut(word, text[p..])
  {
    ghost var w, rest := text[from..], text[from..];
    WordStarts(w);
    p, word := from, [];
    while p < |text| && text[p] != SPACE
      invariant from <= p <= |text| && rest == text[p..] && Reading(w, word, rest)
    {
      ReadLetter(w, word, rest);
      word := word + [text[p]];
      p := p + 1;
      rest := rest[1..];
    }
    WordOver(w, word, rest);
  }

  /** `MetricName::check`. */
  method CheckMetric(text: bytes, m: bytes) returns (ok: bool)
    ensures ok <==> Words(text) != [] && Words(text)[0] == m
  {
    assert text[0..] == text;
    var p := SkipBlanks(text, 0);
    if p == |text| { return false; }
    var q, word := ReadWord(text, p);
    ok := word == m;
  }

  /** `TagValuePair::check`: the words behind the first. */
  method CheckTag(text: bytes, tag: bytes) returns (ok: bool)
    ensures ok <==> Words(text) != [] && tag in Words(text)[1..]
  {
    assert text[0..] == text;
    var p := SkipBlanks(text, 0);
    if p == |text| { return false; }
    var word;
    p, word := ReadWord(text, p);
    ghost var ws := Words(text)[1..];
    assert ws == Words(text[p..]);
    p := SkipBlanks(text, p);
    while p < |text|
      invariant p <= |text| && SkipSpace(text[p..]) == text[p..] && (tag in ws <==> tag in Words(text[p..]))
      decreases |text| - p
    {
      p, word := ReadWord(text, p);
      if word == tag { return true; }
      p := SkipBlanks(text, p);
    }
    ok := false;
  }

  /** Any of several tags. */
  method CheckTags(text: bytes, pairs: seq<bytes>) returns (ok: bool)
    requires Words(text) != []
    ensures ok <==> exists p <- pairs :: p in Words(text)[1..]
  {
    ghost var tags := Words(text)[1..];
    var i := 0;
    while i < |pairs|
      invariant 0 <= i <= |pairs| && forall k :: 0 <= k < i ==> pairs[k] !in tags
    {
      ok := CheckTag(text, pairs[i]);
      if ok {
        assert pairs[i] in pairs;
        return true;
      }
      i := i + 1;
    }
    ok := false;
  }
}
