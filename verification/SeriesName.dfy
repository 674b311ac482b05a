/** Series names: a metric and tags, split at spaces that no backslash escapes. */
module SeriesNames {
  import opened Bytes

  const SPACE: byte := 0x20
  const TAB: byte := 0x09
  const ESCAPE: byte := 0x5c

  predicate IsBlank(c: byte) { c == SPACE || c == TAB }

  function SkipSpace(w: bytes): (r: bytes)
    ensures |r| <= |w| && (r == [] || !IsBlank(r[0]))
  {
    if w == [] || !IsBlank(w[0]) then w else SkipSpace(w[1..])
  }

  /** `skip_space`. */
  method SkipBlanks(src: bytes, i: nat) returns (j: nat)
    requires i <= |src|
    ensures i <= j <= |src| && src[j..] == SkipSpace(src[i..])
  {
    j := i;
    while j < |src| && IsBlank(src[j])
      invariant i <= j <= |src| && SkipSpace(src[j..]) == SkipSpace(src[i..])
    {
      assert src[j..][1..] == src[j + 1..];
      j := j + 1;
    }
  }

  datatype Cut = Cut(token: bytes, rest: bytes)

  /** The bytes up to the first space that does not follow a backslash; `prev` came before them. */
  function Split(prev: byte, w: bytes): (c: Cut)
    ensures w == c.token + c.rest && (c.rest == [] || c.rest[0] == SPACE)
    decreases |w|
  {
    if w == [] || (w[0] == SPACE && prev != ESCAPE) then Cut([], w)
    else
      var c := Split(w[0], w[1..]);
      Cut([w[0]] + c.token, c.rest)
  }

  /** A token starts with whatever is there. */
  function Token(w: bytes): (c: Cut)
    requires w != []
    ensures c.token != [] && c.token[0] == w[0] && w == c.token + c.rest && (c.rest == [] || c.rest[0] == SPACE)
  {
    var c := Split(w[0], w[1..]);
    Cut([w[0]] + c.token, c.rest)
  }

  /** A tag has a name in front of its first equals sign. */
  predicate TagOk(t: bytes) { EQUALS in t && t[0] != EQUALS }

  /** A tag at the start of `w`, and the text behind it and its blanks. */
  function TagAt(w: bytes): Option<Cut> {
    if w == [] then None
    else
      var c := Token(w);
      if TagOk(c.token) then Some(Cut(c.token, SkipSpace(c.rest))) else None
  }

  type Reader = bytes -> Option<Cut>

  function TagReader(): Reader { w => TagAt(w) }

  /** A reader that reads tags. */
  ghost predicate ReadsTags(read: Reader) { forall w {:trigger TagAt(w)} :: read(w) == TagAt(w) }

  /** At most `n` tags; what is behind them is not looked at. */
  function Tags(read: Reader, w: bytes, n: nat): Option<seq<bytes>>
    decreases n, w
  {
    if w == [] || n == 0 then Some([])
    else
      match read(w)
      case None => None
      case Some(c) =>
        match Tags(read, c.rest, n - 1)
        case None => None
        case Some(ts) => Some([c.token] + ts)
  }

  datatype Name = Name(metric: bytes, tags: seq<bytes>)

  const MAX_TAGS := 32

  /** None for a name without a metric or a tag, or with a tag that is wrong. */
  function Parse(w: bytes): Option<Name> {
    var w1 := SkipSpace(w);
    if w1 == [] then None
    else
      var m := Token(w1);
      var w2 := SkipSpace(m.rest);
      if w2 == [] then None
      else
        match Tags(TagReader(), w2, MAX_TAGS)
        case None => None
        case Some(ts) => Some(Name(m.token, ts))
  }

  function RenderTags(ts: seq<bytes>): bytes { if ts == [] then [] else [SPACE] + ts[0] + RenderTags(ts[1..]) }

  function Render(n: Name): bytes { n.metric + RenderTags(n.tags) }

  // ---- Tokens ----------------------------------------------------------------------------------

  /** No space in `t` but behind a backslash; `prev` comes before it. */
  predicate Escaped(prev: byte, t: bytes)
    decreases |t|
  {
    t == [] || ((t[0] == SPACE ==> prev == ESCAPE) && Escaped(t[0], t[1..]))
  }

  predicate IsToken(t: bytes) { t != [] && !IsBlank(t[0]) && Escaped(t[0], t[1..]) }

  lemma {:induction false} SplitIsEscaped(prev: byte, w: bytes)
    ensures Escaped(prev, Split(prev, w).token)
    decreases |w|
  {
    if w != [] && !(w[0] == SPACE && prev != ESCAPE) { SplitIsEscaped(w[0], w[1..]); }
  }

  lemma TokenIsToken(w: bytes)
    requires w != [] && !IsBlank(w[0])
    ensures IsToken(Token(w).token)
  {
    SplitIsEscaped(w[0], w[1..]);
  }

  function LastOf(prev: byte, t: bytes): byte { if t == [] then prev else t[|t| - 1] }

  /** A text cut where it was put together. */
  lemma {:induction false} SplitBack(prev: byte, t: bytes, rest: bytes)
    requires Escaped(prev, t) && (rest == [] || (rest[0] == SPACE && LastOf(prev, t) != ESCAPE))
    ensures Split(prev, t + rest) == Cut(t, rest)
    decreases |t|
  {
    if t == [] {
      assert t + rest == rest;
    } else {
      assert (t + rest)[1..] == t[1..] + rest;
      SplitBack(t[0], t[1..], rest);
      assert [t[0]] + t[1..] == t;
    }
  }

  lemma TokenBack(t: bytes, rest: bytes)
    requires IsToken(t) && (rest == [] || (rest[0] == SPACE && t[|t| - 1] != ESCAPE))
    ensures Token(t + rest) == Cut(t, rest)
  {
    assert (t + rest)[1..] == t[1..] + rest;
    SplitBack(t[0], t[1..], rest);
    assert [t[0]] + t[1..] == t;
  }

  lemma {:induction false} EscapedPlus(prev: byte, t: bytes, u: bytes)
    requires Escaped(prev, t) && Escaped(LastOf(prev, t), u)
    ensures Escaped(prev, t + u)
    decreases |t|
  {
    if t == [] {
      assert t + u == u;
    } else {
      assert (t + u)[1..] == t[1..] + u;
      EscapedPlus(t[0], t[1..], u);
    }
  }

  /** A token that ends in a backslash swallows the one behind it. */
  lemma Swallows(t: bytes, u: bytes)
    requires IsToken(t) && t[|t| - 1] == ESCAPE && IsToken(u)
    ensures IsToken(t + [SPACE] + u)
  {
    var s := [SPACE] + u;
    assert s[1..] == u;
    EscapedPlus(t[0], t[1..], s);
    assert t + [SPACE] + u == t + s && (t + s)[1..] == t[1..] + s;
  }

  // ---- The parts of an accepted name -----------------------------------------------------------

  ghost predicate TagsOk(ts: seq<bytes>) { forall i :: 0 <= i < |ts| ==> IsToken(ts[i]) && TagOk(ts[i]) }

  lemma OneMoreTag(t: bytes, ts: seq<bytes>)
    requires IsToken(t) && TagOk(t) && TagsOk(ts)
    ensures TagsOk([t] + ts)
  {
  }

  lemma TagAtOk(w: bytes)
    requires w != [] && !IsBlank(w[0]) && TagAt(w).Some?
    ensures var c := TagAt(w).value; IsToken(c.token) && TagOk(c.token) && (c.rest == [] || !IsBlank(c.rest[0]))
    ensures var c := TagAt(w).value; |c.token| + |c.rest| + (if c.rest == [] then 0 else 1) <= |w|
  {
    TokenIsToken(w);
    SkipsSpace(Token(w).rest);
  }

  lemma {:induction false} TagsAreOk(read: Reader, w: bytes, n: nat)
    requires ReadsTags(read) && (w == [] || !IsBlank(w[0])) && Tags(read, w, n).Some?
    ensures TagsOk(Tags(read, w, n).value) && |Tags(read, w, n).value| <= n
    ensures w != [] && n > 0 ==> Tags(read, w, n).value != []
    decreases n
  {
    if w != [] && n > 0 {
      var c := TagAt(w).value;
      TagAtOk(w);
      TagsAreOk(read, c.rest, n - 1);
      OneMoreTag(c.token, Tags(read, c.rest, n - 1).value);
    }
  }

  ghost predicate NameOk(n: Name) { IsToken(n.metric) && TagsOk(n.tags) && 0 < |n.tags| <= MAX_TAGS }

  lemma ParsedIsOk(w: bytes)
    requires Parse(w).Some?
    ensures NameOk(Parse(w).value)
  {
    var w1 := SkipSpace(w);
    TokenIsToken(w1);
    TagsAreOk(TagReader(), SkipSpace(Token(w1).rest), MAX_TAGS);
  }

  // ---- Length ----------------------------------------------------------------------------------

  lemma {:induction false} TagsLength(read: Reader, w: bytes, n: nat)
    requires ReadsTags(read) && (w == [] || !IsBlank(w[0])) && Tags(read, w, n).Some?
    ensures |RenderTags(Tags(read, w, n).value)| <= if w == [] || n == 0 then 0 else |w| + 1
    decreases n
  {
    if w != [] && n > 0 {
      var c := TagAt(w).value;
      TagAtOk(w);
      TagsLength(read, c.rest, n - 1);
      assert ([c.token] + Tags(read, c.rest, n - 1).value)[1..] == Tags(read, c.rest, n - 1).value;
    }
  }

  lemma SkipsSpace(w: bytes)
    ensures w != [] && w[0] == SPACE ==> |SkipSpace(w)| < |w|
  {
  }

  /** Written out with single spaces, a name is no longer than what was parsed. */
  lemma RenderLength(w: bytes)
    requires Parse(w).Some?
    ensures |Render(Parse(w).value)| <= |w|
  {
    var w1 := SkipSpace(w);
    var m := Token(w1);
    TagsLength(TagReader(), SkipSpace(m.rest), MAX_TAGS);
    SkipsSpace(m.rest);
  }
}
