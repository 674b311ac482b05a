/** A session comes to the same however its stream is cut, unless an array follows a message. */
module RespSplit {
  import opened Bytes
  import opened Resp
  import opened RespSession

  // ---- More bytes do not change a message that has been read --------------------------------

  lemma IdsGrow(env: Env, dict: Dict, w: bytes, x: bytes)
    ensures Grows(ParseIds(env, dict, w), x, ParseIds(env, dict, w + x))
  {
    StringGrows(w, x, STRING_LENGTH_MAX);
    IntGrows(w, x);
  }

  lemma TimeGrows(env: Env, w: bytes, x: bytes)
    ensures Grows(ParseTime(env, w), x, ParseTime(env, w + x))
  {
    StringGrows(w, x, TIME_BUFFER);
    IntGrows(w, x);
  }

  lemma EventGrows(w: bytes, x: bytes)
    ensures Grows(ParseEvent(w), x, ParseEvent(w + x))
  {
    StringGrows(w, x, STRING_LENGTH_MAX);
  }

  lemma NumberGrows(env: Env, w: bytes, x: bytes)
    ensures Grows(ParseNumber(env, w), x, ParseNumber(env, w + x))
  {
    StringGrows(w, x, VALUE_BUFFER);
  }

  lemma WholeGrows(env: Env, w: bytes, x: bytes)
    ensures Grows(ParseWhole(env, w), x, ParseWhole(env, w + x))
  {
    IntGrows(w, x);
  }

  lemma ItemGrows(env: Env, id: int, w: bytes, x: bytes)
    ensures Grows(ParseItem(env, id, w), x, ParseItem(env, id, w + x))
  {
    WholeGrows(env, w, x);
    NumberGrows(env, w, x);
    EventGrows(w, x);
  }

  ghost predicate ItemGrowing(item: ItemReader, id: int, w: bytes, x: bytes) {
    Grows(item(id, w), x, item(id, w + x))
  }

  lemma {:induction false} ItemsGrow(item: ItemReader, ids: seq<int>, w: bytes, x: bytes)
    requires forall id, w, x :: ItemGrowing(item, id, w, x)
    ensures Grows(ParseItems(item, ids, w), x, ParseItems(item, ids, w + x))
    decreases |ids|
  {
    if ids != [] {
      var r := item(ids[0], w);
      assert ItemGrowing(item, ids[0], w, x);
      if r.Ok? { ItemsGrow(item, ids[1..], r.rest, x); }
    }
  }

  lemma ValuesGrow(env: Env, ids: seq<int>, last: bytes, w: bytes, x: bytes)
    requires ids != []
    ensures Grows(ParseValues(env, ids, last, w), x, ParseValues(env, ids, last, w + x))
  {
    if w != [] {
      IntGrows(w, x);
      ItemGrows(env, ids[0], w, x);
      ArraySizeGrows(w, x);
      var n := ReadArraySize(w);
      if n.Ok? {
        forall id, w, x ensures ItemGrowing(ItemOf(env), id, w, x) { ItemGrows(env, id, w, x); }
        ItemsGrow(ItemOf(env), ids, n.rest, x);
      }
    }
  }

  /** A text kept by a first attempt is kept, or replaced by the same, in the next. */
  lemma LastEventAgain(ids: seq<int>, last: bytes, w: bytes, x: bytes)
    requires ids != []
    ensures LastEvent(ids, LastEvent(ids, last, w), w + x) == LastEvent(ids, last, w + x)
  {
    if w != [] {
      EventGrows(w, x);
      ArraySizeGrows(w, x);
      var n := ReadArraySize(w);
      if n.Ok? { EventGrows(n.rest, x); }
    }
  }

  /** The text only matters to a message that does not set it. */
  lemma ValuesAgain(env: Env, ids: seq<int>, last: bytes, w: bytes, x: bytes)
    requires ids != []
    ensures ParseValues(env, ids, LastEvent(ids, last, w), w + x) == ParseValues(env, ids, last, w + x)
  {
  }

  lemma LastEventSettled(env: Env, ids: seq<int>, last: bytes, w: bytes, x: bytes)
    requires ids != [] && !ParseValues(env, ids, last, w).Again?
    ensures LastEvent(ids, last, w + x) == LastEvent(ids, last, w)
  {
    if w != [] && ids[0] <= 0 {
      EventGrows(w, x);
      ArraySizeGrows(w, x);
      var n := ReadArraySize(w);
      if n.Ok? { EventGrows(n.rest, x); }
    }
  }

  lemma MessageGrows(env: Env, dict: Dict, last: bytes, w: bytes, x: bytes)
    ensures var a, a' := TryMessage(env, dict, last, w), TryMessage(env, dict, last, w + x);
      && Grows(a.read, x, a'.read)
      && (if a.read.Again? then TryMessage(env, dict, a.last, w + x) == a' else a'.last == a.last)
  {
    IdsGrow(env, dict, w, x);
    var ids := ParseIds(env, dict, w);
    if ids.Ok? {
      TimeGrows(env, ids.rest, x);
      var time := ParseTime(env, ids.rest);
      if time.Ok? { AttemptGrows(env, ids.value, last, time.rest, x); }
    }
  }

  lemma AttemptGrows(env: Env, ids: seq<int>, last: bytes, w: bytes, x: bytes)
    requires ids != []
    ensures Grows(ParseValues(env, ids, last, w), x, ParseValues(env, ids, last, w + x))
    ensures ParseValues(env, ids, last, w).Again? ==>
      && ParseValues(env, ids, LastEvent(ids, last, w), w + x) == ParseValues(env, ids, last, w + x)
      && LastEvent(ids, LastEvent(ids, last, w), w + x) == LastEvent(ids, last, w + x)
    ensures !ParseValues(env, ids, last, w).Again? ==> LastEvent(ids, last, w + x) == LastEvent(ids, last, w)
  {
    ValuesGrow(env, ids, last, w, x);
    ValuesAgain(env, ids, last, w, x);
    LastEventAgain(ids, last, w, x);
    if !ParseValues(env, ids, last, w).Again? { LastEventSettled(env, ids, last, w, x); }
  }

  // ---- The dictionary -----------------------------------------------------------------------

  lemma EntryGrows(env: Env, w: bytes, x: bytes)
    ensures Grows(ParseEntry(env, w), x, ParseEntry(env, w + x))
  {
    StringGrows(w, x, STRING_LENGTH_MAX);
    var name := ReadString(w, STRING_LENGTH_MAX);
    if name.Ok? { IntGrows(name.rest, x); }
  }

  /** What a listing has become once `x` has arrived: more entries only if it was not complete. */
  ghost predicate ListingGrows(l: Listing, x: bytes, l': Listing) {
    Grows(l.read, x, l'.read) && l.entries <= l'.entries && (l.read.Again? || l'.entries == l.entries)
  }

  ghost predicate MessageGrowing(g: Grammar, dict: Dict, last: bytes, w: bytes, x: bytes) {
    var a, a' := g.message(dict, last, w), g.message(dict, last, w + x);
    && Grows(a.read, x, a'.read)
    && (if a.read.Again? then g.message(dict, a.last, w + x) == a' else a'.last == a.last)
  }

  /** No message starts with an array, and only the start of a message fails that way. */
  ghost predicate NoArray(g: Grammar, dict: Dict, last: bytes, w: bytes) {
    && (w == [] ==> g.message(dict, last, w) == Attempt(Again, last))
    && (w != [] && NextType(w[0]) == Array ==> g.message(dict, last, w) == Attempt(Bad(UnexpectedId), last))
  }

  /**
   More bytes do not change what has been read, and a message not there yet can be tried again from
   its start, whatever the earlier attempt has kept.
   */
  ghost predicate Lawful(g: Grammar) {
    && (forall w, x {:trigger g.entry(w + x)} :: Grows(g.entry(w), x, g.entry(w + x)))
    && (forall w :: g.entry(w) != Bad(UnexpectedId))
    && (forall dict, last, w, x {:trigger g.message(dict, last, w + x)} :: MessageGrowing(g, dict, last, w, x))
    && (forall dict, last, w {:trigger g.message(dict, last, w)} :: NoArray(g, dict, last, w))
  }

  lemma {:induction false} DigitsFault(line: bytes, acc: nat)
    ensures Digits(line, acc) != Wrong(UnexpectedId)
    decreases |line|
  {
    if line != [] && IsDigit(line[0]) && acc <= MAX_U64 / 10 { DigitsFault(line[1..], acc * 10 + (line[0] - 0x30)); }
  }

  lemma IntBodyFault(w: bytes)
    ensures IntBody(w) != Bad(UnexpectedId)
  {
    var line := ReadLine(w, MAX_DIGITS, IntegerTooLong);
    if line.Ok? { DigitsFault(line.value, 0); }
  }

  lemma EntryFault(env: Env, w: bytes)
    ensures ParseEntry(env, w) != Bad(UnexpectedId)
  {
    if w != [] {
      var name := ReadString(w, STRING_LENGTH_MAX);
      if name.Ok? && name.rest != [] { IntBodyFault(name.rest[1..]); }
    }
  }

  lemma GrammarIsLawful(env: Env)
    ensures Lawful(GrammarOf(env))
  {
    forall w, x { EntryGrows(env, w, x); }
    forall w { EntryFault(env, w); }
    forall dict, last, w, x ensures MessageGrowing(GrammarOf(env), dict, last, w, x) { MessageGrows(env, dict, last, w, x); }
    forall dict, last, w ensures NoArray(GrammarOf(env), dict, last, w) { MessageStart(env, dict, last, w); }
  }

  lemma MessageStart(env: Env, dict: Dict, last: bytes, w: bytes)
    ensures w == [] ==> TryMessage(env, dict, last, w) == Attempt(Again, last)
    ensures w != [] && NextType(w[0]) == Array ==> TryMessage(env, dict, last, w) == Attempt(Bad(UnexpectedId), last)
  {
  }

  lemma {:induction false} EntriesGrow(g: Grammar, n: nat, w: bytes, x: bytes)
    requires Lawful(g)
    ensures ListingGrows(ParseEntries(g.entry, n, w), x, ParseEntries(g.entry, n, w + x))
    decreases n
  {
    if n > 0 {
      var e := g.entry(w);
      if e.Ok? { EntriesGrow(g, n - 1, e.rest, x); }
    }
  }

  lemma ArrayGrows(g: Grammar, w: bytes, x: bytes)
    requires Lawful(g)
    ensures ListingGrows(ParseArray(g, w), x, ParseArray(g, w + x))
  {
    ArraySizeGrows(w, x);
    var n := ReadArraySize(w);
    if n.Ok? { EntriesGrow(g, n.value / 2, n.rest, x); }
  }

  lemma {:induction false} DefineKeeps(dict: Dict, entries: seq<Entry>, uid: nat)
    requires uid in dict
    ensures uid in DefineAll(dict, entries)
    decreases |entries|
  {
    if entries != [] { DefineKeeps(Define(dict, entries[0].uid, entries[0].ids), entries[1..], uid); }
  }

  /** Entries read twice define nothing new. */
  lemma {:induction false} DefineTwice(dict: Dict, entries: seq<Entry>, all: seq<Entry>)
    requires entries <= all
    ensures DefineAll(DefineAll(dict, entries), all) == DefineAll(dict, all)
    decreases |entries|
  {
    if entries != [] {
      var dict' := Define(dict, entries[0].uid, entries[0].ids);
      DefineTwice(dict', entries[1..], all[1..]);
      DefineKeeps(dict', entries[1..], entries[0].uid);
    }
  }

  // ---- Whole calls --------------------------------------------------------------------------

  /** The parser picks up among the messages where it left off. */
  lemma {:induction false} MessagesResume(g: Grammar, st: State, w: bytes, x: bytes)
    requires Lawful(g)
    ensures var o, o' := Messages(g, st, w), Messages(g, st, w + x);
      if o.status.Waiting? then Messages(g, o.state, o.tail + x) == o' else o' == o.(tail := o.tail + x)
    decreases |w|
  {
    assert MessageGrowing(g, st.dict, st.last, w, x);
    var a := g.message(st.dict, st.last, w);
    if a.read.Ok? {
      var m := a.read.value;
      var (ok, written) := WriteRow(g, st.written, m.ids, m.time, m.payloads);
      if ok { MessagesResume(g, st.(last := a.last, written := written), a.read.rest, x); }
    }
  }

  /** Where a message has to start, a call differs from going on with messages only at an array. */
  lemma WorkIsMessages(g: Grammar, st: State, w: bytes)
    requires Lawful(g)
    ensures w == [] || NextType(w[0]) != Array ==> Work(g, st, w) == Messages(g, st, w)
    ensures w != [] && NextType(w[0]) == Array ==> LateArray(Messages(g, st, w))
  {
    assert NoArray(g, st.dict, st.last, w);
  }

  lemma {:induction false} WorkResume(g: Grammar, st: State, w: bytes, x: bytes)
    requires Lawful(g)
    requires !LateArray(Work(g, st, w + x))
    ensures var o, o' := Work(g, st, w), Work(g, st, w + x);
      if o.status.Waiting? then Work(g, o.state, o.tail + x) == o' else o' == o.(tail := o.tail + x)
    decreases |w|
  {
    if w == [] {
      assert w + x == x;
    } else if NextType(w[0]) == Array {
      ArrayGrows(g, w, x);
      var d := ParseArray(g, w);
      DefineTwice(st.dict, d.entries, ParseArray(g, w + x).entries);
      if d.read.Ok? { WorkResume(g, st.(dict := DefineAll(st.dict, d.entries)), d.read.rest, x); }
    } else {
      MessagesResume(g, st, w, x);
      var o := Messages(g, st, w);
      if o.status.Waiting? { WorkIsMessages(g, o.state, o.tail + x); }
    }
  }

  // ---- Whole sessions -----------------------------------------------------------------------

  lemma FeedTwo(g: Grammar, o: Outcome, x: bytes, y: bytes)
    requires Lawful(g)
    requires !LateArray(Feed(g, o, x + y))
    ensures Feed(g, Feed(g, o, x), y) == Feed(g, o, x + y)
  {
    Assoc(o.tail, x, y);
    if o.status.Waiting? { WorkResume(g, o.state, o.tail + x, y); }
  }

  lemma {:induction false} FeedAllIsFeed(g: Grammar, o: Outcome, c: bytes, chunks: seq<bytes>)
    requires Lawful(g)
    requires !LateArray(Feed(g, o, c + Flatten(chunks)))
    ensures FeedAll(g, Feed(g, o, c), chunks) == Feed(g, o, c + Flatten(chunks))
    decreases |chunks|
  {
    if chunks == [] {
      assert c + Flatten(chunks) == c;
    } else {
      Assoc(c, chunks[0], Flatten(chunks[1..]));
      FeedAllIsFeed(g, o, c + chunks[0], chunks[1..]);
      FeedTwoEarly(g, o, c, chunks[0], Flatten(chunks[1..]));
    }
  }

  lemma LateArrayStays(g: Grammar, o: Outcome, x: bytes, y: bytes)
    requires Lawful(g)
    requires LateArray(Feed(g, o, x))
    ensures LateArray(Feed(g, o, x + y))
  {
    Assoc(o.tail, x, y);
    if o.status.Waiting? { WorkLateArrayStays(g, o.state, o.tail + x, y); }
  }

  lemma FeedTwoEarly(g: Grammar, o: Outcome, x: bytes, y: bytes, z: bytes)
    requires Lawful(g)
    requires !LateArray(Feed(g, o, x + y + z))
    ensures Feed(g, Feed(g, o, x), y) == Feed(g, o, x + y)
  {
    if LateArray(Feed(g, o, x + y)) { LateArrayStays(g, o, x + y, z); }
    FeedTwo(g, o, x, y);
  }

  lemma {:induction false} WorkLateArrayStays(g: Grammar, st: State, w: bytes, x: bytes)
    requires Lawful(g)
    requires LateArray(Work(g, st, w))
    ensures LateArray(Work(g, st, w + x))
    decreases |w|
  {
    if w != [] {
      if NextType(w[0]) == Array {
        ArrayGrows(g, w, x);
        var d := ParseArray(g, w);
        if d.read.Ok? { WorkLateArrayStays(g, st.(dict := DefineAll(st.dict, d.entries)), d.read.rest, x); }
      } else {
        MessagesResume(g, st, w, x);
      }
    }
  }

  // ---- An array behind a message ------------------------------------------------------------

  lemma {:induction false} EntriesFault(g: Grammar, n: nat, w: bytes)
    requires Lawful(g)
    ensures ParseEntries(g.entry, n, w).read != Bad(UnexpectedId)
    decreases n
  {
    if n > 0 && g.entry(w).Ok? { EntriesFault(g, n - 1, g.entry(w).rest); }
  }

  lemma ArrayFault(g: Grammar, w: bytes)
    requires Lawful(g)
    ensures ParseArray(g, w).read != Bad(UnexpectedId)
  {
    if w != [] { IntBodyFault(w[1..]); }
    var n := ReadArraySize(w);
    if n.Ok? { EntriesFault(g, n.value / 2, n.rest); }
  }

  lemma {:induction false} NoTailRefused(g: Grammar, st: State, w: bytes)
    requires Lawful(g)
    requires Messages(g, st, w).status.Failed? && Messages(g, st, w).tail == []
    ensures Messages(g, st, w).status == Failed(Refused)
    decreases |w|
  {
    assert NoArray(g, st.dict, st.last, w);
    var a := g.message(st.dict, st.last, w);
    if a.read.Ok? {
      var m := a.read.value;
      var (ok, written) := WriteRow(g, st.written, m.ids, m.time, m.payloads);
      if ok { NoTailRefused(g, st.(last := a.last, written := written), a.read.rest); }
    }
  }

  /** All before a late array is used up when the array arrives. */
  lemma MessagesCut(g: Grammar, st: State, p: bytes, x: bytes)
    requires Lawful(g)
    requires LateArray(Messages(g, st, p + x)) && Messages(g, st, p + x).tail == x
    ensures Messages(g, st, p) == Messages(g, st, p + x).(status := Waiting, tail := [])
  {
    MessagesResume(g, st, p, x);
    var o := Messages(g, st, p);
    if o.status.Failed? {
      assert |o.tail + x| == |x|;
      NoTailRefused(g, st, p);
    } else {
      StillAgain(g, st, p);
      PartialMessage(g, o.state, o.tail, x);
    }
  }

  /** Bytes held back belong to the first message that is read later. */
  lemma PartialMessage(g: Grammar, st: State, t: bytes, x: bytes)
    requires Lawful(g)
    requires g.message(st.dict, st.last, t).read.Again?
    requires LateArray(Messages(g, st, t + x)) && Messages(g, st, t + x).tail == x
    ensures t == [] && Messages(g, st, t + x).state == st
  {
    assert MessageGrowing(g, st.dict, st.last, t, x);
    assert NoArray(g, st.dict, st.last, t + x);
    if |Messages(g, st, t + x).tail| == |t + x| { assert t + x == x; }
  }

  lemma {:induction false} StillAgain(g: Grammar, st: State, w: bytes)
    requires Lawful(g)
    requires Messages(g, st, w).status.Waiting?
    ensures var o := Messages(g, st, w); g.message(o.state.dict, o.state.last, o.tail).read.Again?
    decreases |w|
  {
    var a := g.message(st.dict, st.last, w);
    if a.read.Ok? {
      var m := a.read.value;
      var (ok, written) := WriteRow(g, st.written, m.ids, m.time, m.payloads);
      if ok { StillAgain(g, st.(last := a.last, written := written), a.read.rest); }
    } else {
      assert MessageGrowing(g, st.dict, st.last, w, []);
      assert w + [] == w;
    }
  }

  lemma {:induction false} WorkCut(g: Grammar, st: State, p: bytes, x: bytes)
    requires Lawful(g)
    requires LateArray(Work(g, st, p + x)) && Work(g, st, p + x).tail == x
    ensures Work(g, st, p) == Work(g, st, p + x).(status := Waiting, tail := [])
    decreases |p|
  {
    ArrayFault(g, p + x);
    if p != [] && NextType(p[0]) == Array {
      ArrayGrows(g, p, x);
      var d := ParseArray(g, p);
      if d.read.Ok? { WorkCut(g, st.(dict := DefineAll(st.dict, d.entries)), d.read.rest, x); }
    } else if p != [] {
      MessagesCut(g, st, p, x);
    }
  }

  /** Cut in front of a late array, the stream comes to something else. */
  lemma LateArrayDiffers(g: Grammar, p: bytes, x: bytes)
    requires Lawful(g)
    requires LateArray(Feed(g, START, p + x)) && Feed(g, START, p + x).tail == x
    ensures FeedAll(g, START, [p, x]) != Feed(g, START, p + x)
  {
    assert START.tail + (p + x) == p + x && START.tail + p == p;
    WorkCut(g, START.state, p, x);
    var o := Feed(g, START, p);
    assert o.tail + x == x;
    ArrayFault(g, x);
    FeedTwoChunks(g, START, p, x);
  }

  lemma FeedTwoChunks(g: Grammar, o: Outcome, x: bytes, y: bytes)
    ensures FeedAll(g, o, [x, y]) == Feed(g, Feed(g, o, x), y) && Flatten([x, y]) == x + y
  {
    assert [x, y][1..] == [y] && [y][1..] == [];
    assert FeedAll(g, Feed(g, o, x), [y]) == FeedAll(g, Feed(g, Feed(g, o, x), y), []);
    assert Flatten([y]) == y;
  }

  // ---- The tail is the end of the stream ------------------------------------------------------

  ghost predicate Suffix(t: bytes, w: bytes) { |t| <= |w| && t == w[|w| - |t|..] }

  lemma SuffixOfSuffix(t: bytes, u: bytes, w: bytes)
    requires Suffix(t, u) && Suffix(u, w)
    ensures Suffix(t, w)
  {
  }

  lemma MessageRest(g: Grammar, dict: Dict, last: bytes, w: bytes)
    requires Lawful(g)
    requires g.message(dict, last, w).read.Ok?
    ensures Suffix(g.message(dict, last, w).read.rest, w)
  {
    var k := |w| - |g.message(dict, last, w).read.rest|;
    assert w == w[..k] + w[k..];
    assert MessageGrowing(g, dict, last, w[..k], w[k..]);
  }

  lemma ArrayRest(g: Grammar, w: bytes)
    requires Lawful(g)
    requires ParseArray(g, w).read.Ok?
    ensures Suffix(ParseArray(g, w).read.rest, w)
  {
    var k := |w| - |ParseArray(g, w).read.rest|;
    assert w == w[..k] + w[k..];
    ArrayGrows(g, w[..k], w[k..]);
  }

  lemma {:induction false} MessagesTail(g: Grammar, st: State, w: bytes)
    requires Lawful(g)
    ensures Suffix(Messages(g, st, w).tail, w)
    decreases |w|
  {
    var a := g.message(st.dict, st.last, w);
    if a.read.Ok? {
      MessageRest(g, st.dict, st.last, w);
      var m := a.read.value;
      var (ok, written) := WriteRow(g, st.written, m.ids, m.time, m.payloads);
      if ok {
        MessagesTail(g, st.(last := a.last, written := written), a.read.rest);
        SuffixOfSuffix(Messages(g, st, w).tail, a.read.rest, w);
      }
    }
  }

  /** What is left over is the end of what came in. */
  lemma {:induction false} WorkTail(g: Grammar, st: State, w: bytes)
    requires Lawful(g)
    ensures Suffix(Work(g, st, w).tail, w)
    decreases |w|
  {
    if w != [] && NextType(w[0]) == Array {
      var d := ParseArray(g, w);
      if d.read.Ok? {
        ArrayRest(g, w);
        WorkTail(g, st.(dict := DefineAll(st.dict, d.entries)), d.read.rest);
        SuffixOfSuffix(Work(g, st, w).tail, d.read.rest, w);
      }
    } else {
      MessagesTail(g, st, w);
    }
  }

  // ---- The theorem ----------------------------------------------------------------------------

  /** Any cutting of a stream without a late array gives what the stream gives in one piece. */
  lemma SplitIndependent(env: Env, chunks: seq<bytes>)
    requires !LateArray(Feed(GrammarOf(env), START, Flatten(chunks)))
    ensures FeedAll(GrammarOf(env), START, chunks) == Feed(GrammarOf(env), START, Flatten(chunks))
  {
    GrammarIsLawful(env);
    AnyCutting(GrammarOf(env), chunks);
  }

  lemma AnyCutting(g: Grammar, chunks: seq<bytes>)
    requires Lawful(g) && !LateArray(Feed(g, START, Flatten(chunks)))
    ensures FeedAll(g, START, chunks) == Feed(g, START, Flatten(chunks))
  {
    assert [] + Flatten(chunks) == Flatten(chunks);
    FeedAllIsFeed(g, START, [], chunks);
    assert Feed(g, START, []) == START;
  }

  lemma LateArrayCut(g: Grammar, stream: bytes) returns (chunks: seq<bytes>)
    requires Lawful(g) && LateArray(Feed(g, START, stream))
    ensures Flatten(chunks) == stream && FeedAll(g, START, chunks) != Feed(g, START, stream)
  {
    NothingBefore(stream);
    WorkTail(g, START.state, stream);
    var x := Feed(g, START, stream).tail;
    var p := stream[..|stream| - |x|];
    TwoParts(stream, |stream| - |x|);
    LateArrayDiffers(g, p, x);
    FeedTwoChunks(g, START, p, x);
    chunks := [p, x];
  }

  /** Every cutting of the stream comes to the same. */
  ghost predicate CutAnywhere(g: Grammar, stream: bytes) {
    forall chunks {:trigger Flatten(chunks)} :: Flatten(chunks) == stream ==> FeedAll(g, START, chunks) == Feed(g, START, stream)
  }

  /** The cutting does not matter if and only if no array stands where a message has to start. */
  lemma SplitExact(env: Env, stream: bytes)
    ensures CutAnywhere(GrammarOf(env), stream) <==> !LateArray(Feed(GrammarOf(env), START, stream))
  {
    GrammarIsLawful(env);
    SplitExactly(GrammarOf(env), stream);
  }

  lemma SplitExactly(g: Grammar, stream: bytes)
    requires Lawful(g)
    ensures CutAnywhere(g, stream) <==> !LateArray(Feed(g, START, stream))
  {
    if LateArray(Feed(g, START, stream)) {
      var chunks := LateArrayCut(g, stream);
    } else {
      forall chunks | Flatten(chunks) == stream
        ensures FeedAll(g, START, chunks) == Feed(g, START, stream)
      {
        AnyCutting(g, chunks);
      }
    }
  }

  /** An array behind complete messages is a late one. */
  lemma ArrayAfterMessages(g: Grammar, st: State, p: bytes, x: bytes)
    requires Lawful(g) && p != [] && NextType(p[0]) != Array && x != [] && NextType(x[0]) == Array
    requires Messages(g, st, p).status.Waiting? && Messages(g, st, p).tail == []
    ensures LateArray(Work(g, st, p + x))
  {
    MessagesResume(g, st, p, x);
    var o := Messages(g, st, p);
    assert o.tail + x == x;
    WorkIsMessages(g, o.state, x);
  }

  /** Any complete messages with an array behind them depend on the cutting. */
  lemma ArrayDependsOnCutting(g: Grammar, p: bytes, x: bytes)
    requires Lawful(g) && p != [] && NextType(p[0]) != Array && x != [] && NextType(x[0]) == Array
    requires Messages(g, START.state, p).status.Waiting? && Messages(g, START.state, p).tail == []
    ensures !CutAnywhere(g, p + x)
  {
    ArrayAfterMessages(g, START.state, p, x);
    assert START.tail + (p + x) == p + x;
    SplitExactly(g, p + x);
  }
}
