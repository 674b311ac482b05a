/** The parser as it runs over its buffer, call by call, against the session it has to amount to. */
module RespParser {
  import opened Bytes
  import opened Resp
  import opened ReadBuffers
  import opened RespStream
  import S = RespSession
  import RespSplit

  const RDBUF_SIZE := 0x1000

  /** A row read so far, put in front of what is still to be read. */
  function Prefixed(done: seq<S.Payload>, r: Read<seq<S.Payload>>): Read<seq<S.Payload>> {
    match r
    case Again => Again
    case Bad(f) => Bad(f)
    case Ok(ps, rest) => Ok(done + ps, rest)
  }

  lemma ItemThenItems(item: S.ItemReader, ids: seq<int>, done: seq<S.Payload>, w: bytes, p: S.Payload, rest: bytes)
    requires ids != [] && item(ids[0], w) == Ok(p, rest)
    ensures Prefixed(done, S.ParseItems(item, ids, w)) == Prefixed(done + [p], S.ParseItems(item, ids[1..], rest))
  {
    var more := S.ParseItems(item, ids[1..], rest);
    if more.Ok? { assert done + ([p] + more.value) == done + [p] + more.value; }
  }

  datatype Step = Next | Switch | Stop

  class Parser {
    const env: S.Env
    ghost const g: S.Grammar
    const buf: ReadBuffer
    var dict: S.Dict
    var last: bytes
    var written: seq<S.Sample>
    var status: S.Status

    ghost predicate Valid()
      reads this, buf, buf.data
    {
      Agree(g, env) && buf.Valid() && !buf.lent && (status.Waiting? ==> buf.rpos == buf.cons)
    }

    ghost function State(): S.State
      reads this
    {
      S.State(dict, last, written)
    }

    /** Where the session stands. */
    ghost function Where(): S.Outcome
      reads this, buf, buf.data
      requires Valid()
    {
      S.Outcome(State(), status, buf.Kept())
    }

    constructor (e: S.Env)
      ensures Valid() && fresh(buf) && fresh(buf.data) && Where() == S.START && buf.size == RDBUF_SIZE
      ensures env == e && g == S.GrammarOf(e)
    {
      env := e;
      g := S.GrammarOf(e);
      buf := new ReadBuffer(RDBUF_SIZE);
      dict, last, written, status := map[], [], [], S.Waiting;
    }

    // ---- Parts of a message ----------------------------------------------------------------

    method ParseIds() returns (r: Got<seq<int>>)
      requires buf.Valid()
      modifies buf`rpos
      ensures buf.Valid() && Matches(r, S.ParseIds(env, dict, old(buf.Unread())), buf.Unread())
    {
      var eof, kind := NextKind(buf);
      if eof { return NotYet; }
      match kind {
        case Text =>
          var name := GetString(buf, STRING_LENGTH_MAX);
          if name.NotYet? { return NotYet; }
          if name.Faulty? { return Faulty(name.fault); }
          var ids := env.names(name.value);
          r := if ids == [] then Faulty(BadName) else Value(ids);
        case Whole =>
          var uid := GetInt(buf);
          if uid.NotYet? { return NotYet; }
          if uid.Faulty? { return Faulty(uid.fault); }
          var ids := S.Row(env, dict, uid.value);
          r := if ids == [] then Faulty(BadName) else Value(ids);
        case _ =>
          r := Faulty(UnexpectedId);
      }
    }

    method ParseTimestamp() returns (r: Got<nat>)
      requires buf.Valid()
      modifies buf`rpos
      ensures buf.Valid() && Matches(r, S.ParseTime(env, old(buf.Unread())), buf.Unread())
    {
      var eof, kind := NextKind(buf);
      if eof { return NotYet; }
      match kind {
        case Whole =>
          r := GetInt(buf);
        case Text =>
          var s := GetString(buf, S.TIME_BUFFER);
          if s.NotYet? { return NotYet; }
          if s.Faulty? { return Faulty(s.fault); }
          var t := env.time(s.value);
          r := if t.Some? then Value(t.value) else Faulty(UnexpectedTime);
        case _ =>
          r := Faulty(UnexpectedTime);
      }
    }

    method ReadNumber() returns (r: Got<S.Payload>)
      requires buf.Valid()
      modifies buf`rpos
      ensures buf.Valid() && Matches(r, S.ParseNumber(env, old(buf.Unread())), buf.Unread())
    {
      var s := GetString(buf, S.VALUE_BUFFER);
      if s.NotYet? { return NotYet; }
      if s.Faulty? { return Faulty(s.fault); }
      var x := env.number(s.value);
      r := if x.Some? then Value(S.Float(x.value)) else Faulty(NotANumber);
    }

    method ReadEvent() returns (r: Got<S.Payload>)
      requires buf.Valid()
      modifies buf`rpos
      ensures buf.Valid() && Matches(r, S.ParseEvent(old(buf.Unread())), buf.Unread())
    {
      var s := GetString(buf, STRING_LENGTH_MAX);
      if s.NotYet? { return NotYet; }
      if s.Faulty? { return Faulty(s.fault); }
      r := if |s.value| >= S.MAX_EVENT_LEN then Faulty(EventTooBig) else Value(S.Event(s.value));
    }

    method ReadWhole() returns (r: Got<S.Payload>)
      requires buf.Valid()
      modifies buf`rpos
      ensures buf.Valid() && Matches(r, S.ParseWhole(env, old(buf.Unread())), buf.Unread())
    {
      var n := GetInt(buf);
      if n.NotYet? { return NotYet; }
      if n.Faulty? { return Faulty(n.fault); }
      r := Value(S.Float(env.whole(n.value)));
    }

    /** The value of one series of a row; the event text of the first is kept. */
    method ReadItem(id: int, first: bool) returns (r: Got<S.Payload>)
      requires buf.Valid()
      modifies buf`rpos, this`last
      ensures buf.Valid() && Matches(r, S.ParseItem(env, id, old(buf.Unread())), buf.Unread())
      ensures last == if first && id <= 0 then S.FirstEvent(old(last), old(buf.Unread())) else old(last)
    {
      var eof, kind := NextKind(buf);
      if eof { return NotYet; }
      if id > 0 {
        match kind {
          case Whole => r := ReadWhole();
          case Text => r := ReadNumber();
          case _ => r := Faulty(UnexpectedValue);
        }
      } else if kind == Text {
        r := ReadEvent();
        if first && r.Value? { last := r.value.text; }
      } else {
        r := Faulty(UnexpectedEvent);
      }
    }

    /** One more value behind those in `done`; `goal` is what the row comes to. */
    method NextItem(ids: seq<int>, first: bool, done: seq<S.Payload>, ghost item: S.ItemReader, ghost goal: Read<seq<S.Payload>>)
      returns (r: Got<seq<S.Payload>>)
      requires buf.Valid() && ItemsAgree(item, env) && ids != [] && goal == Prefixed(done, S.ParseItems(item, ids, buf.Unread()))
      modifies buf`rpos, this`last
      ensures buf.Valid()
      ensures if r.Value? then goal == Prefixed(r.value, S.ParseItems(item, ids[1..], buf.Unread())) else Matches(r, goal, buf.Unread())
      ensures last == if first && ids[0] <= 0 then S.FirstEvent(old(last), old(buf.Unread())) else old(last)
    {
      ghost var w := buf.Unread();
      var value := ReadItem(ids[0], first);
      if value.NotYet? { return NotYet; }
      if value.Faulty? { return Faulty(value.fault); }
      ItemThenItems(item, ids, done, w, value.value, buf.Unread());
      r := Value(done + [value.value]);
    }

    method ReadItems(ids: seq<int>, ghost item: S.ItemReader) returns (r: Got<seq<S.Payload>>)
      requires buf.Valid() && ItemsAgree(item, env) && ids != []
      modifies buf`rpos, this`last
      ensures buf.Valid() && Matches(r, S.ParseItems(item, ids, old(buf.Unread())), buf.Unread())
      ensures last == if ids[0] <= 0 then S.FirstEvent(old(last), old(buf.Unread())) else old(last)
    {
      ghost var goal := S.ParseItems(item, ids, buf.Unread());
      NoneYet(goal);
      r := NextItem(ids, true, [], item, goal);
      var i := 1;
      while r.Value? && i < |ids|
        invariant 1 <= i <= |ids| && buf.Valid()
        invariant if r.Value? then goal == Prefixed(r.value, S.ParseItems(item, ids[i..], buf.Unread())) else Matches(r, goal, buf.Unread())
        invariant last == if ids[0] <= 0 then S.FirstEvent(old(last), old(buf.Unread())) else old(last)
      {
        assert ids[i..][1..] == ids[i + 1..];
        r := NextItem(ids[i..], false, r.value, item, goal);
        i := i + 1;
      }
      if r.Value? { assert ids[i..] == [] && r.value + [] == r.value; }
    }

    method ParseValues(ids: seq<int>) returns (r: Got<seq<S.Payload>>)
      requires buf.Valid() && ids != []
      modifies buf`rpos, this`last
      ensures buf.Valid() && Matches(r, S.ParseValues(env, ids, old(last), old(buf.Unread())), buf.Unread())
      ensures last == S.LastEvent(ids, old(last), old(buf.Unread()))
    {
      var eof, kind := NextKind(buf);
      if eof { return NotYet; }
      match kind {
        case Whole =>
          if |ids| != 1 { return Faulty(ArrayExpected); }
          var p := ReadWhole();
          if p.NotYet? { return NotYet; }
          if p.Faulty? { return Faulty(p.fault); }
          r := Value([if ids[0] > 0 then p.value else S.Event(last)]);
        case Text =>
          if |ids| != 1 { return Faulty(ArrayExpected); }
          OneItem(S.ItemOf(env), ids, buf.Unread());
          r := ReadItems(ids, S.ItemOf(env));
        case Array =>
          var n := GetArraySize(buf);
          if n.NotYet? { return NotYet; }
          if n.Faulty? { return Faulty(n.fault); }
          if S.Int32(n.value) != |ids| { return Faulty(WrongArraySize); }
          r := ReadItems(ids, S.ItemOf(env));
        case _ =>
          r := Faulty(UnexpectedValue);
      }
    }

    /** The three parts of a message. */
    method ReadMessage() returns (r: Got<S.Message>)
      requires buf.Valid()
      modifies buf`rpos, this`last
      ensures buf.Valid()
      ensures var a := S.TryMessage(env, dict, old(last), old(buf.Unread())); Matches(r, a.read, buf.Unread()) && last == a.last
    {
      var ids := ParseIds();
      if ids.NotYet? { return NotYet; }
      if ids.Faulty? { return Faulty(ids.fault); }
      var time := ParseTimestamp();
      if time.NotYet? { return NotYet; }
      if time.Faulty? { return Faulty(time.fault); }
      var ps := ParseValues(ids.value);
      if ps.NotYet? { return NotYet; }
      if ps.Faulty? { return Faulty(ps.fault); }
      r := Value(S.Message(ids.value, time.value, ps.value));
    }

    // ---- The dictionary ----------------------------------------------------------------------

    method ReadEntry() returns (r: Got<S.Entry>)
      requires buf.Valid()
      modifies buf`rpos
      ensures buf.Valid() && Matches(r, S.ParseEntry(env, old(buf.Unread())), buf.Unread())
    {
      var eof, kind := NextKind(buf);
      if eof { return NotYet; }
      if kind != Text { return Faulty(UnexpectedName); }
      var name := GetString(buf, STRING_LENGTH_MAX);
      if name.NotYet? { return NotYet; }
      if name.Faulty? { return Faulty(name.fault); }
      var ids := env.names(name.value);
      if ids == [] { return Faulty(BadName); }
      eof, kind := NextKind(buf);
      if eof { return NotYet; }
      if kind != Whole { return Faulty(UnexpectedName); }
      var uid := GetInt(buf);
      if uid.NotYet? { return NotYet; }
      if uid.Faulty? { return Faulty(uid.fault); }
      r := Value(S.Entry(uid.value, ids));
    }

    method UpdateDict(e: S.Entry)
      modifies this`dict
      ensures dict == S.Define(old(dict), e.uid, e.ids)
    {
      if e.uid !in dict { dict := dict[e.uid := e.ids]; }
    }

    method ReadEntries(n: nat, ghost read: Read<()>, ghost goal: S.Dict) returns (r: Got<()>)
      requires buf.Valid() && Agree(g, env) && ToRead(g.entry, n, buf.Unread(), dict, read, goal)
      modifies buf`rpos, this`dict
      ensures buf.Valid() && Matches(r, read, buf.Unread()) && dict == goal
    {
      var left := n;
      while left > 0
        invariant buf.Valid() && ToRead(g.entry, left, buf.Unread(), dict, read, goal)
      {
        r := NextEntry(left, read, goal);
        if !r.Value? { return; }
        left := left - 1;
      }
      r := Value(());
    }

    method NextEntry(left: nat, ghost read: Read<()>, ghost goal: S.Dict) returns (r: Got<()>)
      requires buf.Valid() && left > 0 && Agree(g, env) && ToRead(g.entry, left, buf.Unread(), dict, read, goal)
      modifies buf`rpos, this`dict
      ensures buf.Valid()
      ensures if r.Value? then ToRead(g.entry, left - 1, buf.Unread(), dict, read, goal) else Matches(r, read, buf.Unread()) && dict == goal
    {
      ghost var w := buf.Unread();
      var e := ReadEntry();
      if e.NotYet? { return NotYet; }
      if e.Faulty? { return Faulty(e.fault); }
      EntryThenEntries(g.entry, left, w, e.value, buf.Unread(), dict);
      UpdateDict(e.value);
      r := Value(());
    }

    method ReadArray() returns (r: Got<()>)
      requires buf.Valid() && Agree(g, env)
      modifies buf`rpos, this`dict
      ensures buf.Valid()
      ensures var l := S.ParseArray(g, old(buf.Unread()));
        Matches(r, l.read, buf.Unread()) && dict == S.DefineAll(old(dict), l.entries)
    {
      var n := GetArraySize(buf);
      if n.NotYet? { return NotYet; }
      if n.Faulty? { return Faulty(n.fault); }
      if n.value % 2 != 0 { return Faulty(OddDictionary); }
      ghost var l := S.ParseEntries(g.entry, n.value / 2, buf.Unread());
      r := ReadEntries(n.value / 2, l.read, S.DefineAll(dict, l.entries));
    }

    /** Where the dictionary gives way to messages, or cannot go on. */
    ghost predicate DictStep(step: Step, goal: S.Outcome)
      reads this, buf, buf.data
      requires Valid()
    {
      match step
      case Stop => goal == Where()
      case Next => status.Waiting? && goal == S.Work(g, State(), buf.Kept())
      case Switch => status.Waiting? && goal == S.Messages(g, State(), buf.Kept())
    }

    /** What has been read of it stays for the next piece, or the session has failed. */
    method GiveUp<T>(r: Got<T>, ghost goal: S.Outcome)
      requires buf.Valid() && !buf.lent && Agree(g, env) && status.Waiting? && !r.Value?
      requires goal == S.Outcome(State(), if r.NotYet? then S.Waiting else S.Failed(r.fault), buf.Kept())
      modifies buf`rpos, this`status
      ensures Valid() && goal == Where()
    {
      if r.NotYet? { buf.Discard(); } else { status := S.Failed(r.fault); }
    }

    /** An array; once read completely it is used up. */
    method WholeArray(ghost goal: S.Outcome) returns (step: Step)
      requires Valid() && status.Waiting? && goal == S.Work(g, State(), buf.Kept())
      requires buf.Kept() != [] && NextType(buf.Kept()[0]) == Array
      modifies buf`rpos, buf`cons, this`dict, this`status
      ensures Valid() && DictStep(step, goal) && !step.Switch?
      ensures step.Next? ==> |buf.Kept()| < old(|buf.Kept()|)
    {
      ghost var st, w := State(), buf.Kept();
      ArrayWork(g, st, w, goal);
      assert buf.Unread() == w;
      var d := ReadArray();
      assert buf.Kept() == w && State() == st.(dict := S.DefineAll(st.dict, S.ParseArray(g, w).entries));
      step := UseArray(d, S.ParseArray(g, w).read, goal);
    }

    /** An array that was read is used up. */
    method UseArray(d: Got<()>, ghost read: Read<()>, ghost goal: S.Outcome) returns (step: Step)
      requires buf.Valid() && !buf.lent && Agree(g, env) && status.Waiting? && Matches(d, read, buf.Unread())
      requires goal == match read
        case Again => S.Outcome(State(), S.Waiting, buf.Kept())
        case Bad(f) => S.Outcome(State(), S.Failed(f), buf.Kept())
        case Ok(_, rest) => S.Work(g, State(), rest)
      modifies buf`rpos, buf`cons, this`status
      ensures Valid() && DictStep(step, goal) && !step.Switch?
      ensures step.Next? ==> read.Ok? && buf.Kept() == read.rest
    {
      if !d.Value? {
        GiveUp(d, goal);
        return Stop;
      }
      buf.Consume();
      step := Next;
    }

    /** One array, if there is one. */
    method NextArray(ghost goal: S.Outcome) returns (step: Step)
      requires Valid() && status.Waiting? && goal == S.Work(g, State(), buf.Kept())
      modifies buf`rpos, buf`cons, this`dict, this`status
      ensures Valid() && DictStep(step, goal)
      ensures step.Next? ==> |buf.Kept()| < old(|buf.Kept()|)
    {
      var eof, kind := NextKind(buf);
      if eof { buf.Discard(); return Stop; }
      if kind != Array { buf.Discard(); return Switch; }
      step := WholeArray(goal);
    }

    method ParseDict(ghost goal: S.Outcome) returns (done: bool)
      requires Valid() && status.Waiting? && goal == S.Work(g, State(), buf.Kept())
      modifies buf`rpos, buf`cons, this`dict, this`status
      ensures Valid() && DictStep(if done then Switch else Stop, goal)
    {
      var step := Next;
      while step.Next?
        invariant Valid() && DictStep(step, goal)
        decreases step.Next?, |buf.Kept()|
      {
        step := NextArray(goal);
      }
      done := step.Switch?;
    }

    // ---- The worker ----------------------------------------------------------------------------

    /** Writes a row; false once the database has refused a sample. */
    method Write(m: S.Message) returns (ok: bool)
      requires g.refuses == env.refuses && |m.ids| == |m.payloads|
      modifies this`written
      ensures (ok, written) == S.WriteRow(g, old(written), m.ids, m.time, m.payloads)
    {
      var i := 0;
      assert m.ids[0..] == m.ids && m.payloads[0..] == m.payloads;
      while i < |m.ids|
        invariant 0 <= i <= |m.ids|
        invariant S.WriteRow(g, old(written), m.ids, m.time, m.payloads) == S.WriteRow(g, written, m.ids[i..], m.time, m.payloads[i..])
      {
        var s := S.Sample(m.ids[i], m.time, m.payloads[i]);
        assert m.ids[i..][1..] == m.ids[i + 1..] && m.payloads[i..][1..] == m.payloads[i + 1..];
        if env.refuses(written, s) { return false; }
        written := written + [s];
        i := i + 1;
      }
      ok := true;
    }

    /** One message; false when there is none, or the session has failed. */
    method NextMessage(ghost goal: S.Outcome) returns (more: bool)
      requires Valid() && status.Waiting? && goal == S.Messages(g, State(), buf.Kept())
      modifies buf`rpos, buf`cons, this`last, this`written, this`status
      ensures Valid() && if more then status.Waiting? && goal == S.Messages(g, State(), buf.Kept()) else goal == Where()
      ensures more ==> |buf.Kept()| < old(|buf.Kept()|)
    {
      ghost var st, w := State(), buf.Kept();
      MessageWork(g, st, w, goal);
      assert buf.Unread() == w;
      var m := ReadMessage();
      assert buf.Kept() == w && State() == st.(last := g.message(st.dict, st.last, w).last);
      more := UseMessage(m, g.message(st.dict, st.last, w).read, goal);
    }

    /** A message that was read is used up and written. */
    method UseMessage(m: Got<S.Message>, ghost read: Read<S.Message>, ghost goal: S.Outcome) returns (more: bool)
      requires buf.Valid() && !buf.lent && Agree(g, env) && status.Waiting? && Matches(m, read, buf.Unread())
      requires (read.Ok? ==> |read.value.ids| == |read.value.payloads|) && goal == MessageOutcome(g, State(), read, buf.Kept())
      modifies buf`rpos, buf`cons, this`written, this`status
      ensures Valid() && if more then status.Waiting? && goal == S.Messages(g, State(), buf.Kept()) else goal == Where()
      ensures more ==> read.Ok? && buf.Kept() == read.rest
    {
      if !m.Value? {
        GiveUp(m, goal);
        return false;
      }
      buf.Consume();
      more := Write(m.value);
      if !more { status := S.Failed(Refused); }
    }

    method Worker(ghost goal: S.Outcome)
      requires Valid() && status.Waiting? && goal == S.Work(g, State(), buf.Kept())
      modifies buf`rpos, buf`cons, this
      ensures Valid() && Where() == goal
    {
      var more := ParseDict(goal);
      while more
        invariant Valid() && if more then status.Waiting? && goal == S.Messages(g, State(), buf.Kept()) else goal == Where()
        decreases more, |buf.Kept()|
      {
        more := NextMessage(goal);
      }
    }

    /** A piece of the stream: the server pulls a buffer, fills it, pushes it, and the worker runs. */
    method ParseNext(chunk: bytes)
      requires Valid() && status.Waiting? && |chunk| <= buf.size
      modifies this, buf, buf.data
      ensures Valid() && (buf.data == old(buf.data) || fresh(buf.data))
      ensures Where() == S.Feed(g, old(Where()), chunk)
    {
      buf.Pull();
      buf.Push(chunk);
      assert |buf.Kept()| == |buf.Unread()|;
      Worker(S.Work(g, State(), buf.Kept()));
    }
  }

  lemma {:induction false} FeedAllNext(g: S.Grammar, o: S.Outcome, chunks: seq<bytes>, chunk: bytes)
    ensures S.FeedAll(g, o, chunks + [chunk]) == S.Feed(g, S.FeedAll(g, o, chunks), chunk)
    decreases |chunks|
  {
    if chunks == [] {
      assert chunks + [chunk] == [chunk] && [chunk][1..] == [];
    } else {
      assert (chunks + [chunk])[1..] == chunks[1..] + [chunk];
      FeedAllNext(g, S.Feed(g, o, chunks[0]), chunks[1..], chunk);
    }
  }

  /** What comes of the attempt to read a message. */
  ghost function MessageOutcome(g: S.Grammar, st: S.State, read: Read<S.Message>, w: bytes): S.Outcome
    requires read.Ok? ==> |read.value.ids| == |read.value.payloads|
  {
    match read
    case Again => S.Outcome(st, S.Waiting, w)
    case Bad(f) => S.Outcome(st, S.Failed(f), w)
    case Ok(m, rest) =>
      var (ok, written) := S.WriteRow(g, st.written, m.ids, m.time, m.payloads);
      if ok then S.Messages(g, st.(written := written), rest) else S.Outcome(st.(written := written), S.Failed(Refused), rest)
  }

  lemma MessageWork(g: S.Grammar, st: S.State, w: bytes, goal: S.Outcome)
    requires goal == S.Messages(g, st, w)
    ensures var a := g.message(st.dict, st.last, w);
      S.Uses(a, w) && goal == MessageOutcome(g, st.(last := a.last), a.read, w)
  {
    var a := g.message(st.dict, st.last, w);
    assert S.Uses(a, w);
  }

  /** What an array comes to. */
  lemma ArrayWork(g: S.Grammar, st: S.State, w: bytes, goal: S.Outcome)
    requires goal == S.Work(g, st, w) && w != [] && NextType(w[0]) == Array
    ensures var d := S.ParseArray(g, w);
      var st' := st.(dict := S.DefineAll(st.dict, d.entries));
      goal == match d.read
        case Again => S.Outcome(st', S.Waiting, w)
        case Bad(f) => S.Outcome(st', S.Failed(f), w)
        case Ok(_, rest) => S.Work(g, st', rest)
  {
  }

  /** One more piece behind those that came before. */
  method Piece(p: Parser, chunk: bytes, ghost before: seq<bytes>)
    requires p.Valid() && p.status.Waiting? && |chunk| <= p.buf.size && p.Where() == S.FeedAll(p.g, S.START, before)
    modifies p, p.buf, p.buf.data
    ensures p.Valid() && (p.buf.data == old(p.buf.data) || fresh(p.buf.data))
    ensures p.Where() == S.FeedAll(p.g, S.START, before + [chunk])
  {
    FeedAllNext(p.g, S.START, before, chunk);
    p.ParseNext(chunk);
  }

  /** Pieces as they come, up to the end or to the first that fails. */
  method ServeAll(e: S.Env, chunks: seq<bytes>) returns (p: Parser, k: nat)
    requires forall i :: 0 <= i < |chunks| ==> |chunks[i]| <= RDBUF_SIZE
    ensures p.Valid() && p.env == e && k <= |chunks| && (k < |chunks| ==> p.status.Failed?)
    ensures p.Where() == S.FeedAll(S.GrammarOf(e), S.START, chunks[..k])
  {
    p := new Parser(e);
    k := 0;
    while k < |chunks| && p.status.Waiting?
      invariant p.Valid() && fresh(p) && fresh(p.buf) && fresh(p.buf.data) && p.buf.size == RDBUF_SIZE && p.env == e && p.g == S.GrammarOf(e)
      invariant 0 <= k <= |chunks| && p.Where() == S.FeedAll(p.g, S.START, chunks[..k])
    {
      OneMoreTaken(chunks, k);
      Piece(p, chunks[k], chunks[..k]);
      k := k + 1;
    }
  }

  /** A connection: its pieces come to what they say as one, as long as no array comes where a message must start. */
  method Serve(e: S.Env, chunks: seq<bytes>) returns (p: Parser, k: nat)
    requires forall i :: 0 <= i < |chunks| ==> |chunks[i]| <= RDBUF_SIZE
    ensures p.Valid() && p.env == e && k <= |chunks| && (k < |chunks| ==> p.status.Failed?)
    ensures p.Where() == S.FeedAll(S.GrammarOf(e), S.START, chunks[..k])
    ensures !S.LateArray(S.Feed(S.GrammarOf(e), S.START, S.Flatten(chunks[..k]))) ==>
      p.Where() == S.Feed(S.GrammarOf(e), S.START, S.Flatten(chunks[..k]))
  {
    p, k := ServeAll(e, chunks);
    if !S.LateArray(S.Feed(S.GrammarOf(e), S.START, S.Flatten(chunks[..k]))) { RespSplit.SplitIndependent(e, chunks[..k]); }
  }

  /** The grammar reads what the functions for its parts read. */
  ghost predicate Agree(g: S.Grammar, env: S.Env) {
    && (forall w {:trigger S.ParseEntry(env, w)} :: g.entry(w) == S.ParseEntry(env, w))
    && (forall dict, last, w {:trigger S.TryMessage(env, dict, last, w)} :: g.message(dict, last, w) == S.TryMessage(env, dict, last, w))
    && g.refuses == env.refuses
  }

  ghost predicate ItemsAgree(item: S.ItemReader, env: S.Env) {
    forall id, w {:trigger S.ParseItem(env, id, w)} :: item(id, w) == S.ParseItem(env, id, w)
  }

  /** Reading `n` more entries ends the array as `read` says, with the dictionary `goal`. */
  ghost predicate ToRead(entry: S.EntryReader, n: nat, w: bytes, dict: S.Dict, read: Read<()>, goal: S.Dict) {
    var l := S.ParseEntries(entry, n, w);
    l.read == read && S.DefineAll(dict, l.entries) == goal
  }

  lemma NoneYet(r: Read<seq<S.Payload>>)
    ensures Prefixed([], r) == r
  {
    if r.Ok? { assert [] + r.value == r.value; }
  }

  lemma OneItem(item: S.ItemReader, ids: seq<int>, w: bytes)
    requires |ids| == 1
    ensures S.ParseItems(item, ids, w) == S.Single(item(ids[0], w))
  {
    assert ids[1..] == [];
    var p := item(ids[0], w);
    if p.Ok? { assert [p.value] + [] == [p.value]; }
  }

  lemma EntryThenEntries(entry: S.EntryReader, n: nat, w: bytes, e: S.Entry, rest: bytes, dict: S.Dict)
    requires n > 0 && entry(w) == Ok(e, rest)
    ensures var l, more := S.ParseEntries(entry, n, w), S.ParseEntries(entry, n - 1, rest);
      l.read == more.read && S.DefineAll(dict, l.entries) == S.DefineAll(S.Define(dict, e.uid, e.ids), more.entries)
  {
    var more := S.ParseEntries(entry, n - 1, rest);
    assert ([e] + more.entries)[1..] == more.entries;
  }
}
