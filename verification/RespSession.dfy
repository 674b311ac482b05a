/**
 A session of the ingestion protocol: what the parser has written, learned and left over after
 each piece of the stream, as a function of the pieces.
 */
module RespSession {
  import opened Bytes
  import opened Resp

  datatype Payload = Float(x: real) | Event(text: bytes)

  datatype Sample = Sample(id: int, time: nat, payload: Payload)

  /** Series ids by the number the client has given them. */
  type Dict = map<nat, seq<int>>

  const MAX_ROW_WIDTH := 0x100
  const MAX_EVENT_LEN := 4096
  const TIME_BUFFER := 28
  const VALUE_BUFFER := 64

  /**
   The parts of the server the parser calls: the ids of a series name (none if it is refused), the
   order in which the dictionary gives back the ids put under one key, the conversions of timestamps
   and numbers, and whether the database refuses a sample after those already written.
   */
  datatype Env = Env(
    names: bytes -> seq<int>,
    order: seq<int> -> seq<int>,
    time: bytes -> Option<nat>,
    number: bytes -> Option<real>,
    whole: nat -> real,
    refuses: (seq<Sample>, Sample) -> bool)

  // ---- Parts of a message ------------------------------------------------------------------

  function Row(env: Env, dict: Dict, uid: nat): seq<int> {
    if uid in dict then
      var row := env.order(dict[uid]);
      if |row| <= MAX_ROW_WIDTH then row else row[..MAX_ROW_WIDTH]
    else []
  }

  function NonEmpty(ids: seq<int>, rest: bytes): Read<seq<int>> {
    if ids == [] then Bad(BadName) else Ok(ids, rest)
  }

  function ParseIds(env: Env, dict: Dict, w: bytes): (r: Read<seq<int>>)
    ensures r.Ok? ==> |r.rest| < |w| && r.value != []
  {
    if w == [] then Again
    else
      match NextType(w[0])
      case Text =>
        (match ReadString(w, STRING_LENGTH_MAX)
         case Again => Again
         case Bad(f) => Bad(f)
         case Ok(s, rest) => NonEmpty(env.names(s), rest))
      case Whole =>
        (match ReadInt(w)
         case Again => Again
         case Bad(f) => Bad(f)
         case Ok(uid, rest) => NonEmpty(Row(env, dict, uid), rest))
      case _ => Bad(UnexpectedId)
  }

  function ParseTime(env: Env, w: bytes): (r: Read<nat>)
    ensures r.Ok? ==> |r.rest| < |w|
  {
    if w == [] then Again
    else
      match NextType(w[0])
      case Whole => ReadInt(w)
      case Text =>
        (match ReadString(w, TIME_BUFFER)
         case Again => Again
         case Bad(f) => Bad(f)
         case Ok(s, rest) => if env.time(s).Some? then Ok(env.time(s).value, rest) else Bad(UnexpectedTime))
      case _ => Bad(UnexpectedTime)
  }

  function ParseNumber(env: Env, w: bytes): (r: Read<Payload>)
    ensures r.Ok? ==> |r.rest| < |w|
  {
    match ReadString(w, VALUE_BUFFER)
    case Again => Again
    case Bad(f) => Bad(f)
    case Ok(s, rest) => if env.number(s).Some? then Ok(Float(env.number(s).value), rest) else Bad(NotANumber)
  }

  function ParseEvent(w: bytes): (r: Read<Payload>)
    ensures r.Ok? ==> |r.rest| < |w| && r.value.Event?
  {
    match ReadString(w, STRING_LENGTH_MAX)
    case Again => Again
    case Bad(f) => Bad(f)
    case Ok(s, rest) => if |s| >= MAX_EVENT_LEN then Bad(EventTooBig) else Ok(Event(s), rest)
  }

  function ParseWhole(env: Env, w: bytes): (r: Read<Payload>)
    ensures r.Ok? ==> |r.rest| < |w|
  {
    match ReadInt(w)
    case Again => Again
    case Bad(f) => Bad(f)
    case Ok(n, rest) => Ok(Float(env.whole(n)), rest)
  }

  /** One value of a row: ids above zero are numeric series, the others are events. */
  function ParseItem(env: Env, id: int, w: bytes): (r: Read<Payload>)
    ensures r.Ok? ==> |r.rest| < |w|
  {
    if w == [] then Again
    else if id > 0 then
      match NextType(w[0])
      case Whole => ParseWhole(env, w)
      case Text => ParseNumber(env, w)
      case _ => Bad(UnexpectedValue)
    else if NextType(w[0]) == Text then ParseEvent(w)
    else Bad(UnexpectedEvent)
  }

  /** How a value is read; what is read is used up. */
  type ItemReader = read: (int, bytes) -> Read<Payload> | forall id, w :: read(id, w).Ok? ==> |read(id, w).rest| < |w|
    witness (id, w) => Again

  function ItemOf(env: Env): ItemReader { (id, w) => ParseItem(env, id, w) }

  function ParseItems(item: ItemReader, ids: seq<int>, w: bytes): (r: Read<seq<Payload>>)
    ensures r.Ok? ==> |r.rest| <= |w| && |r.value| == |ids|
    decreases |ids|
  {
    if ids == [] then Ok([], w)
    else
      match item(ids[0], w)
      case Again => Again
      case Bad(f) => Bad(f)
      case Ok(p, rest) =>
        match ParseItems(item, ids[1..], rest)
        case Again => Again
        case Bad(f) => Bad(f)
        case Ok(ps, rest') => Ok([p] + ps, rest')
  }

  /** An array size kept in a signed 32-bit integer. */
  function Int32(n: nat): int {
    var m := n % 0x1_0000_0000;
    if m < 0x8000_0000 then m else m - 0x1_0000_0000
  }

  function Single(r: Read<Payload>): (s: Read<seq<Payload>>)
    ensures s.Ok? ==> r.Ok? && s.rest == r.rest && s.value == [r.value]
  {
    match r
    case Again => Again
    case Bad(f) => Bad(f)
    case Ok(p, rest) => Ok([p], rest)
  }

  /** An integer on its own; an event series keeps the text it was last given. */
  function SingleWhole(env: Env, id: int, last: bytes, w: bytes): (r: Read<Payload>)
    ensures r.Ok? ==> |r.rest| < |w|
  {
    match ParseWhole(env, w)
    case Again => Again
    case Bad(f) => Bad(f)
    case Ok(p, rest) => Ok(if id > 0 then p else Event(last), rest)
  }

  function ParseValues(env: Env, ids: seq<int>, last: bytes, w: bytes): (r: Read<seq<Payload>>)
    requires ids != []
    ensures r.Ok? ==> |r.rest| < |w| && |r.value| == |ids|
  {
    if w == [] then Again
    else
      match NextType(w[0])
      case Whole => if |ids| == 1 then Single(SingleWhole(env, ids[0], last, w)) else Bad(ArrayExpected)
      case Text => if |ids| == 1 then Single(ParseItem(env, ids[0], w)) else Bad(ArrayExpected)
      case Array =>
        (match ReadArraySize(w)
         case Again => Again
         case Bad(f) => Bad(f)
         case Ok(n, rest) => if Int32(n) != |ids| then Bad(WrongArraySize) else ParseItems(ItemOf(env), ids, rest))
      case _ => Bad(UnexpectedValue)
  }

  // ---- The event text that outlives a message -----------------------------------------------

  function FirstEvent(last: bytes, w: bytes): bytes {
    if w != [] && NextType(w[0]) == Text && ParseEvent(w).Ok? then ParseEvent(w).value.text else last
  }

  /** The text kept for the first series of a row after an attempt to read the values in `w`. */
  function LastEvent(ids: seq<int>, last: bytes, w: bytes): bytes
    requires ids != []
  {
    if w == [] || ids[0] > 0 then last
    else
      match NextType(w[0])
      case Text => if |ids| == 1 then FirstEvent(last, w) else last
      case Array =>
        (match ReadArraySize(w)
         case Ok(n, rest) => if Int32(n) == |ids| then FirstEvent(last, rest) else last
         case _ => last)
      case _ => last
  }

  // ---- Messages ----------------------------------------------------------------------------

  datatype State = State(dict: Dict, last: bytes, written: seq<Sample>)

  datatype Message = Message(ids: seq<int>, time: nat, payloads: seq<Payload>)

  /** The attempt to read a message, and the text it leaves behind for the next. */
  datatype Attempt = Attempt(read: Read<Message>, last: bytes)

  function WithValues(ids: seq<int>, time: nat, r: Read<seq<Payload>>): (m: Read<Message>)
    ensures m.Ok? ==> r.Ok? && m.rest == r.rest && m.value == Message(ids, time, r.value)
  {
    match r
    case Again => Again
    case Bad(f) => Bad(f)
    case Ok(ps, rest) => Ok(Message(ids, time, ps), rest)
  }

  function TryMessage(env: Env, dict: Dict, last: bytes, w: bytes): (a: Attempt)
    ensures a.read.Ok? ==> |a.read.rest| < |w| && |a.read.value.payloads| == |a.read.value.ids|
  {
    match ParseIds(env, dict, w)
    case Again => Attempt(Again, last)
    case Bad(f) => Attempt(Bad(f), last)
    case Ok(ids, w1) =>
      match ParseTime(env, w1)
      case Again => Attempt(Again, last)
      case Bad(f) => Attempt(Bad(f), last)
      case Ok(time, w2) => Attempt(WithValues(ids, time, ParseValues(env, ids, last, w2)), LastEvent(ids, last, w2))
  }

  // ---- The dictionary ----------------------------------------------------------------------

  /** The first definition of a number stands. */
  function Define(dict: Dict, uid: nat, ids: seq<int>): Dict {
    if uid in dict then dict else dict[uid := ids]
  }

  datatype Entry = Entry(uid: nat, ids: seq<int>)

  function ParseUid(ids: seq<int>, w: bytes): (r: Read<Entry>)
    ensures r.Ok? ==> |r.rest| < |w|
  {
    if w == [] then Again
    else if NextType(w[0]) != Whole then Bad(UnexpectedName)
    else
      match ReadInt(w)
      case Again => Again
      case Bad(f) => Bad(f)
      case Ok(uid, rest) => Ok(Entry(uid, ids), rest)
  }

  function ParseEntry(env: Env, w: bytes): (r: Read<Entry>)
    ensures r.Ok? ==> |r.rest| < |w|
  {
    if w == [] then Again
    else if NextType(w[0]) != Text then Bad(UnexpectedName)
    else
      match ReadString(w, STRING_LENGTH_MAX)
      case Again => Again
      case Bad(f) => Bad(f)
      case Ok(s, rest) => if env.names(s) == [] then Bad(BadName) else ParseUid(env.names(s), rest)
  }

  // ---- The grammar of a session ---------------------------------------------------------------

  /** How an entry is read; what is read is used up. */
  type EntryReader = read: bytes -> Read<Entry> | forall w :: read(w).Ok? ==> |read(w).rest| < |w|
    witness w => Again

  predicate Uses(a: Attempt, w: bytes) {
    a.read.Ok? ==> |a.read.rest| < |w| && |a.read.value.payloads| == |a.read.value.ids|
  }

  /** How a message is read, given the dictionary and the text kept from the messages before it. */
  type MessageReader = read: (Dict, bytes, bytes) -> Attempt | forall dict, last, w :: Uses(read(dict, last, w), w)
    witness (dict, last, w) => Attempt(Again, last)

  /** All that the run of a session depends on. */
  datatype Grammar = Grammar(entry: EntryReader, message: MessageReader, refuses: (seq<Sample>, Sample) -> bool)

  function GrammarOf(env: Env): Grammar {
    Grammar(w => ParseEntry(env, w), (dict, last, w) => TryMessage(env, dict, last, w), env.refuses)
  }

  /** A row written sample by sample, up to the first the database refuses. */
  function WriteRow(g: Grammar, written: seq<Sample>, ids: seq<int>, time: nat, payloads: seq<Payload>): (bool, seq<Sample>)
    requires |ids| == |payloads|
    decreases |ids|
  {
    if ids == [] then (true, written)
    else
      var s := Sample(ids[0], time, payloads[0]);
      if g.refuses(written, s) then (false, written)
      else WriteRow(g, written + [s], ids[1..], time, payloads[1..])
  }

  datatype Status = Waiting | Failed(fault: Fault)

  /** Where the session stands, and the bytes no complete message or dictionary has used up. */
  datatype Outcome = Outcome(state: State, status: Status, tail: bytes)

  function Messages(g: Grammar, st: State, w: bytes): (o: Outcome)
    ensures |o.tail| <= |w|
    decreases |w|
  {
    var a := g.message(st.dict, st.last, w);
    match a.read
    case Again => Outcome(st.(last := a.last), Waiting, w)
    case Bad(f) => Outcome(st.(last := a.last), Failed(f), w)
    case Ok(m, rest) =>
      var (ok, written) := WriteRow(g, st.written, m.ids, m.time, m.payloads);
      var st' := st.(last := a.last, written := written);
      if ok then Messages(g, st', rest) else Outcome(st', Failed(Refused), rest)
  }

  /** The entries found by an attempt to read `n` of them; they count as soon as they are read. */
  datatype Listing = Listing(entries: seq<Entry>, read: Read<()>)

  function ParseEntries(entry: EntryReader, n: nat, w: bytes): (r: Listing)
    ensures r.read.Ok? ==> |r.read.rest| <= |w|
    decreases n, w
  {
    if n == 0 then Listing([], Ok((), w))
    else
      match entry(w)
      case Again => Listing([], Again)
      case Bad(f) => Listing([], Bad(f))
      case Ok(e, rest) =>
        var more := ParseEntries(entry, n - 1, rest);
        Listing([e] + more.entries, more.read)
  }

  function DefineAll(dict: Dict, entries: seq<Entry>): Dict
    decreases |entries|
  {
    if entries == [] then dict else DefineAll(Define(dict, entries[0].uid, entries[0].ids), entries[1..])
  }

  function ParseArray(g: Grammar, w: bytes): (r: Listing)
    ensures r.read.Ok? ==> |r.read.rest| < |w|
  {
    match ReadArraySize(w)
    case Again => Listing([], Again)
    case Bad(f) => Listing([], Bad(f))
    case Ok(n, rest) => if n % 2 != 0 then Listing([], Bad(OddDictionary)) else ParseEntries(g.entry, n / 2, rest)
  }

  /** One call of the parser over all bytes not used up: dictionary arrays first, then messages. */
  function Work(g: Grammar, st: State, w: bytes): (o: Outcome)
    ensures |o.tail| <= |w|
    decreases |w|
  {
    if w == [] then Outcome(st, Waiting, w)
    else if NextType(w[0]) == Array then
      var d := ParseArray(g, w);
      var st' := st.(dict := DefineAll(st.dict, d.entries));
      match d.read
      case Again => Outcome(st', Waiting, w)
      case Bad(f) => Outcome(st', Failed(f), w)
      case Ok(_, rest) => Work(g, st', rest)
    else Messages(g, st, w)
  }

  // ---- Sessions -----------------------------------------------------------------------------

  /** A piece of the stream arrives; after a failure nothing more is looked at. */
  function Feed(g: Grammar, o: Outcome, chunk: bytes): Outcome {
    if o.status.Failed? then o.(tail := o.tail + chunk) else Work(g, o.state, o.tail + chunk)
  }

  function FeedAll(g: Grammar, o: Outcome, chunks: seq<bytes>): Outcome
    decreases |chunks|
  {
    if chunks == [] then o else FeedAll(g, Feed(g, o, chunks[0]), chunks[1..])
  }

  function Flatten(chunks: seq<bytes>): bytes { if chunks == [] then [] else chunks[0] + Flatten(chunks[1..]) }

  const START := Outcome(State(map[], [], []), Waiting, [])

  /** An array stood where a message had to start. */
  predicate LateArray(o: Outcome) {
    o.status == Failed(UnexpectedId) && o.tail != [] && NextType(o.tail[0]) == Array
  }
}
