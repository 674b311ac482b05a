/** The client's side of the protocol: what it sends for a row is read back as that row. */
module RespWrite {
  import opened Bytes
  import opened Resp
  import opened RespSession
  import S = RespSession
  import opened ReadBuffers

  const CRLF: bytes := [CR, LF]

  function Decimal(n: nat): bytes { if n < 10 then [0x30 + n] else Decimal(n / 10) + [0x30 + n % 10] }

  function EncodeInt(n: nat): bytes { [0x3a] + (Decimal(n) + CRLF) }

  function EncodeArraySize(n: nat): bytes { [0x2a] + (Decimal(n) + CRLF) }

  function EncodeString(s: bytes): bytes { [0x2b] + (s + CRLF) }

  // ---- Elements -----------------------------------------------------------------------------

  lemma {:induction false} DecimalDigits(n: nat, t: bytes)
    requires n <= MAX_U64
    ensures Digits(Decimal(n) + t, 0) == Digits(t, n) && LF !in Decimal(n)
    decreases n
  {
    if n < 10 {
      assert (Decimal(n) + t)[1..] == t;
    } else {
      var last: bytes := [0x30 + n % 10];
      DecimalDigits(n / 10, last + t);
      Assoc(Decimal(n / 10), last, t);
      assert (last + t)[1..] == t;
    }
  }

  function Power10(k: nat): nat { if k == 0 then 1 else 10 * Power10(k - 1) }

  lemma Power20()
    ensures Power10(20) > MAX_U64
  {
    assert Power10(5) == 100_000;
    assert Power10(10) == 10_000_000_000;
    assert Power10(15) == 1_000_000_000_000_000;
  }

  lemma {:induction false} DecimalLength(n: nat, k: nat)
    requires k > 0 && n < Power10(k)
    ensures |Decimal(n)| <= k
    decreases k
  {
    if n >= 10 {
      assert k > 1;
      DecimalLength(n / 10, k - 1);
    }
  }

  /** A text and a line end come back as a line. */
  lemma LineBack(s: bytes, rest: bytes, w: bytes, quota: nat, tooLong: Fault)
    requires LF !in s && |s| + 2 <= quota && w == (s + CRLF) + rest
    ensures ReadLine(w, quota, tooLong) == Ok(s + CRLF, rest)
  {
    var i := |s| + 1;
    assert w[..i] == s + [CR] && w[..i + 1] == s + CRLF && w[i + 1..] == rest;
    LineFound(w, i, quota, tooLong);
  }

  lemma BodyBack(n: nat, rest: bytes, w: bytes)
    requires n <= MAX_U64 && w == (Decimal(n) + CRLF) + rest
    ensures IntBody(w) == Ok(n, rest)
  {
    DecimalDigits(n, CRLF);
    Power20();
    DecimalLength(n, 20);
    LineBack(Decimal(n), rest, w, MAX_DIGITS, IntegerTooLong);
    assert Digits(CRLF, n) == Number(n);
  }

  lemma IntBack(n: nat, rest: bytes)
    requires n <= MAX_U64
    ensures ReadInt(EncodeInt(n) + rest) == Ok(n, rest)
  {
    var w := EncodeInt(n) + rest;
    assert w[1..] == (Decimal(n) + CRLF) + rest;
    BodyBack(n, rest, w[1..]);
  }

  lemma ArraySizeBack(n: nat, rest: bytes)
    requires n <= MAX_U64
    ensures ReadArraySize(EncodeArraySize(n) + rest) == Ok(n, rest)
  {
    var w := EncodeArraySize(n) + rest;
    assert w[1..] == (Decimal(n) + CRLF) + rest;
    BodyBack(n, rest, w[1..]);
  }

  lemma StringBack(s: bytes, rest: bytes, size: nat)
    requires LF !in s && |s| + 2 <= size && |s| + 2 <= STRING_LENGTH_MAX
    ensures ReadString(EncodeString(s) + rest, size) == Ok(s, rest)
  {
    var w := EncodeString(s) + rest;
    assert w[1..] == (s + CRLF) + rest;
    LineBack(s, rest, w[1..], if size < STRING_LENGTH_MAX then size else STRING_LENGTH_MAX, OutOfQuota);
    assert (s + CRLF)[..|s| + 1] == s + [CR];
  }

  // ---- Rows ---------------------------------------------------------------------------------

  /** What a client sends for one series: an integer or a text. */
  datatype Cell = Integer(n: nat) | Text(s: bytes)

  /** A row is for the series of a name, or for those that a dictionary has put under a number. */
  datatype Address = ByName(name: bytes) | ByNumber(uid: nat)

  /** A timestamp as a number or as a text. */
  datatype Time = Ticks(n: nat) | Stamp(text: bytes)

  /** A single value may be sent alone, without an array around it. */
  datatype Row = Row(address: Address, time: Time, cells: seq<Cell>, alone: bool)

  predicate Sendable(s: bytes, size: nat) { LF !in s && |s| + 2 <= size }

  /** A number can be sent either way to a numeric series, a text to an event series. */
  predicate CellFits(env: Env, id: int, c: Cell) {
    match c
    case Integer(n) => id > 0 && n <= MAX_U64
    case Text(s) => if id > 0 then Sendable(s, VALUE_BUFFER) && env.number(s).Some? else Sendable(s, STRING_LENGTH_MAX)
  }

  function CellPayload(env: Env, id: int, c: Cell): Payload
    requires CellFits(env, id, c)
  {
    match c
    case Integer(n) => Float(env.whole(n))
    case Text(s) => if id > 0 then Float(env.number(s).value) else Event(s)
  }

  function EncodeCell(c: Cell): bytes {
    match c
    case Integer(n) => EncodeInt(n)
    case Text(s) => EncodeString(s)
  }

  lemma CellBack(env: Env, id: int, c: Cell, rest: bytes)
    requires CellFits(env, id, c)
    ensures ParseItem(env, id, EncodeCell(c) + rest) == Ok(CellPayload(env, id, c), rest)
  {
    match c
    case Integer(n) => IntBack(n, rest);
    case Text(s) => StringBack(s, rest, if id > 0 then VALUE_BUFFER else STRING_LENGTH_MAX);
  }

  predicate CellsFit(env: Env, ids: seq<int>, cells: seq<Cell>) {
    |ids| == |cells| && forall i :: 0 <= i < |ids| ==> CellFits(env, ids[i], cells[i])
  }

  function EncodeCells(cells: seq<Cell>): bytes {
    if cells == [] then [] else EncodeCell(cells[0]) + EncodeCells(cells[1..])
  }

  function Payloads(env: Env, ids: seq<int>, cells: seq<Cell>): (ps: seq<Payload>)
    requires CellsFit(env, ids, cells)
    ensures |ps| == |ids|
    decreases |ids|
  {
    if ids == [] then [] else [CellPayload(env, ids[0], cells[0])] + Payloads(env, ids[1..], cells[1..])
  }

  lemma {:induction false} CellsBack(env: Env, ids: seq<int>, cells: seq<Cell>, rest: bytes)
    requires CellsFit(env, ids, cells)
    ensures ParseItems(ItemOf(env), ids, EncodeCells(cells) + rest) == Ok(Payloads(env, ids, cells), rest)
    decreases |ids|
  {
    if ids == [] {
      assert EncodeCells(cells) + rest == rest;
    } else {
      Assoc(EncodeCell(cells[0]), EncodeCells(cells[1..]), rest);
      CellBack(env, ids[0], cells[0], EncodeCells(cells[1..]) + rest);
      CellsBack(env, ids[1..], cells[1..], rest);
    }
  }

  /** The ids of a row. */
  function IdsOf(env: Env, dict: Dict, a: Address): seq<int> {
    match a
    case ByName(name) => env.names(name)
    case ByNumber(uid) => S.Row(env, dict, uid)
  }

  predicate AddressFits(a: Address) {
    match a
    case ByName(name) => Sendable(name, STRING_LENGTH_MAX)
    case ByNumber(uid) => uid <= MAX_U64
  }

  predicate TimeFits(env: Env, t: Time) {
    match t
    case Ticks(n) => n <= MAX_U64
    case Stamp(text) => Sendable(text, TIME_BUFFER) && env.time(text).Some?
  }

  function TimeOf(env: Env, t: Time): nat
    requires TimeFits(env, t)
  {
    match t
    case Ticks(n) => n
    case Stamp(text) => env.time(text).value
  }

  predicate RowFits(env: Env, dict: Dict, row: Row) {
    && AddressFits(row.address) && TimeFits(env, row.time) && (row.alone ==> |row.cells| == 1)
    && 0 < |row.cells| < 0x8000_0000 && CellsFit(env, IdsOf(env, dict, row.address), row.cells)
  }

  function EncodeAddress(a: Address): bytes {
    match a
    case ByName(name) => EncodeString(name)
    case ByNumber(uid) => EncodeInt(uid)
  }

  function EncodeTime(t: Time): bytes {
    match t
    case Ticks(n) => EncodeInt(n)
    case Stamp(text) => EncodeString(text)
  }

  function EncodeValues(cells: seq<Cell>, alone: bool): bytes {
    if alone && cells != [] then EncodeCell(cells[0]) else EncodeArraySize(|cells|) + EncodeCells(cells)
  }

  function EncodeRow(row: Row): bytes {
    EncodeAddress(row.address) + (EncodeTime(row.time) + EncodeValues(row.cells, row.alone))
  }

  function MessageOf(env: Env, dict: Dict, row: Row): Message
    requires RowFits(env, dict, row)
  {
    var ids := IdsOf(env, dict, row.address);
    Message(ids, TimeOf(env, row.time), Payloads(env, ids, row.cells))
  }

  lemma AddressBack(env: Env, dict: Dict, a: Address, rest: bytes)
    requires AddressFits(a) && IdsOf(env, dict, a) != []
    ensures ParseIds(env, dict, EncodeAddress(a) + rest) == Ok(IdsOf(env, dict, a), rest)
  {
    match a
    case ByName(name) => StringBack(name, rest, STRING_LENGTH_MAX);
    case ByNumber(uid) => IntBack(uid, rest);
  }

  lemma TimeBack(env: Env, t: Time, rest: bytes)
    requires TimeFits(env, t)
    ensures ParseTime(env, EncodeTime(t) + rest) == Ok(TimeOf(env, t), rest)
  {
    match t
    case Ticks(n) => IntBack(n, rest);
    case Stamp(text) => StringBack(text, rest, TIME_BUFFER);
  }

  lemma SmallSize(n: nat)
    requires n < 0x8000_0000
    ensures Int32(n) == n
  {
  }

  lemma ArrayOfCells(env: Env, ids: seq<int>, last: bytes, w: bytes, n: nat, rest: bytes, ps: seq<Payload>, rest': bytes)
    requires ids != [] && w != [] && NextType(w[0]) == Array && ReadArraySize(w) == Ok(n, rest) && n == |ids| < 0x8000_0000
    requires ParseItems(ItemOf(env), ids, rest) == Ok(ps, rest')
    ensures ParseValues(env, ids, last, w) == Ok(ps, rest')
  {
    SmallSize(n);
    SizeFits(env, ids, last, w, n, rest);
  }

  lemma SizeFits(env: Env, ids: seq<int>, last: bytes, w: bytes, n: nat, rest: bytes)
    requires ids != [] && w != [] && NextType(w[0]) == Array && ReadArraySize(w) == Ok(n, rest) && Int32(n) == |ids|
    ensures ParseValues(env, ids, last, w) == ParseItems(ItemOf(env), ids, rest)
  {
  }

  /** A value that is sent alone is read as the one of its row. */
  lemma AloneBack(env: Env, ids: seq<int>, cells: seq<Cell>, last: bytes, rest: bytes)
    requires |cells| == 1 && CellsFit(env, ids, cells)
    ensures ParseValues(env, ids, last, EncodeCell(cells[0]) + rest) == Ok(Payloads(env, ids, cells), rest)
  {
    var p := CellPayload(env, ids[0], cells[0]);
    CellBack(env, ids[0], cells[0], rest);
    assert ids[1..] == [] && [p] + [] == [p] && Payloads(env, ids, cells) == [p];
    match cells[0]
    case Integer(n) => IntBack(n, rest);
    case Text(s) =>
  }

  lemma ValuesBack(env: Env, ids: seq<int>, cells: seq<Cell>, alone: bool, last: bytes, rest: bytes)
    requires 0 < |cells| < 0x8000_0000 && CellsFit(env, ids, cells) && (alone ==> |cells| == 1)
    ensures ParseValues(env, ids, last, EncodeValues(cells, alone) + rest) == Ok(Payloads(env, ids, cells), rest)
  {
    if alone { AloneBack(env, ids, cells, last, rest); } else { ArrayBack(env, ids, cells, last, rest); }
  }

  lemma ArrayBack(env: Env, ids: seq<int>, cells: seq<Cell>, last: bytes, rest: bytes)
    requires 0 < |cells| < 0x8000_0000 && CellsFit(env, ids, cells)
    ensures ParseValues(env, ids, last, (EncodeArraySize(|cells|) + EncodeCells(cells)) + rest) == Ok(Payloads(env, ids, cells), rest)
  {
    Assoc(EncodeArraySize(|cells|), EncodeCells(cells), rest);
    var rest' := EncodeCells(cells) + rest;
    ArraySizeBack(|cells|, rest');
    CellsBack(env, ids, cells, rest);
    ArrayOfCells(env, ids, last, EncodeArraySize(|cells|) + rest', |cells|, rest', Payloads(env, ids, cells), rest);
  }

  /** A row that is sent is the message that is read. */
  lemma RowBack(env: Env, dict: Dict, last: bytes, row: Row, rest: bytes)
    requires RowFits(env, dict, row)
    ensures TryMessage(env, dict, last, EncodeRow(row) + rest).read == Ok(MessageOf(env, dict, row), rest)
  {
    var values := EncodeValues(row.cells, row.alone);
    var after := EncodeTime(row.time) + values;
    Assoc(EncodeAddress(row.address), after, rest);
    Assoc(EncodeTime(row.time), values, rest);
    AddressBack(env, dict, row.address, after + rest);
    TimeBack(env, row.time, values + rest);
    ValuesBack(env, IdsOf(env, dict, row.address), row.cells, row.alone, last, rest);
  }

  // ---- Sessions -----------------------------------------------------------------------------

  function SamplesOf(ids: seq<int>, time: nat, payloads: seq<Payload>): seq<Sample>
    requires |ids| == |payloads|
    decreases |ids|
  {
    if ids == [] then [] else [Sample(ids[0], time, payloads[0])] + SamplesOf(ids[1..], time, payloads[1..])
  }

  function RowSamples(env: Env, dict: Dict, row: Row): seq<Sample>
    requires RowFits(env, dict, row)
  {
    var m := MessageOf(env, dict, row);
    SamplesOf(m.ids, m.time, m.payloads)
  }

  /** All samples of the rows, in the order in which they are sent. */
  function AllSamples(env: Env, dict: Dict, rows: seq<Row>): seq<Sample>
    requires forall row <- rows :: RowFits(env, dict, row)
    decreases |rows|
  {
    if rows == [] then [] else RowSamples(env, dict, rows[0]) + AllSamples(env, dict, rows[1..])
  }

  function EncodeRows(rows: seq<Row>): bytes { if rows == [] then [] else EncodeRow(rows[0]) + EncodeRows(rows[1..]) }

  /** Samples written one behind the other, up to the first the database refuses. */
  function Accepted(refuses: (seq<Sample>, Sample) -> bool, written: seq<Sample>, samples: seq<Sample>): (bool, seq<Sample>)
    decreases |samples|
  {
    if samples == [] then (true, written)
    else if refuses(written, samples[0]) then (false, written)
    else Accepted(refuses, written + [samples[0]], samples[1..])
  }

  lemma {:induction false} RowAccepted(g: Grammar, written: seq<Sample>, ids: seq<int>, time: nat, payloads: seq<Payload>)
    requires |ids| == |payloads|
    ensures WriteRow(g, written, ids, time, payloads) == Accepted(g.refuses, written, SamplesOf(ids, time, payloads))
    decreases |ids|
  {
    if ids != [] {
      var s, rest := Sample(ids[0], time, payloads[0]), SamplesOf(ids[1..], time, payloads[1..]);
      assert ([s] + rest)[1..] == rest;
      RowAccepted(g, written + [s], ids[1..], time, payloads[1..]);
    }
  }

  lemma {:induction false} NoneRefused(refuses: (seq<Sample>, Sample) -> bool, written: seq<Sample>, samples: seq<Sample>)
    requires forall before, s :: !refuses(before, s)
    ensures Accepted(refuses, written, samples) == (true, written + samples)
    decreases |samples|
  {
    if samples == [] {
      assert written + [] == written;
    } else {
      NoneRefused(refuses, written + [samples[0]], samples[1..]);
      Assoc(written, [samples[0]], samples[1..]);
      assert [samples[0]] + samples[1..] == samples;
    }
  }

  /** The rows a client may send are messages of the grammar. */
  ghost predicate ReadsBack(g: Grammar, env: Env) {
    && g.refuses == env.refuses
    && (forall dict, last :: g.message(dict, last, []) == Attempt(Again, last))
    && (forall dict, last, row, rest {:trigger g.message(dict, last, EncodeRow(row) + rest)} :: RowFits(env, dict, row) ==>
      g.message(dict, last, EncodeRow(row) + rest).read == Ok(MessageOf(env, dict, row), rest))
  }

  lemma GrammarReadsBack(env: Env)
    ensures ReadsBack(GrammarOf(env), env)
  {
    forall dict: Dict, last, row, rest | RowFits(env, dict, row)
      ensures GrammarOf(env).message(dict, last, EncodeRow(row) + rest).read == Ok(MessageOf(env, dict, row), rest)
    {
      RowBack(env, dict, last, row, rest);
    }
  }

  /** A row is written, as far as the database takes it, and the next message is looked for. */
  lemma RowThenRows(g: Grammar, env: Env, st: State, row: Row, rest: bytes) returns (st': State)
    requires ReadsBack(g, env) && RowFits(env, st.dict, row)
    ensures st'.dict == st.dict
    ensures var (ok, written) := Accepted(env.refuses, st.written, RowSamples(env, st.dict, row));
      && st'.written == written
      && Messages(g, st, EncodeRow(row) + rest) == if ok then Messages(g, st', rest) else Outcome(st', Failed(Refused), rest)
  {
    var m := MessageOf(env, st.dict, row);
    RowAccepted(g, st.written, m.ids, m.time, m.payloads);
    var a := g.message(st.dict, st.last, EncodeRow(row) + rest);
    assert a.read == Ok(m, rest);
    st' := st.(last := a.last, written := Accepted(env.refuses, st.written, RowSamples(env, st.dict, row)).1);
  }

  ghost predicate AllDone(o: Outcome, written: seq<Sample>) { o.state.written == written && o.status == Waiting && o.tail == [] }

  lemma {:induction false} RowsRead(g: Grammar, env: Env, st: State, rows: seq<Row>)
    requires ReadsBack(g, env) && (forall row <- rows :: RowFits(env, st.dict, row)) && forall before, s :: !env.refuses(before, s)
    ensures AllDone(Messages(g, st, EncodeRows(rows)), st.written + AllSamples(env, st.dict, rows))
    decreases |rows|
  {
    if rows == [] {
      assert st.written + [] == st.written;
      assert g.message(st.dict, st.last, []) == Attempt(Again, st.last);
    } else {
      NoneRefused(env.refuses, st.written, RowSamples(env, st.dict, rows[0]));
      var st' := RowThenRows(g, env, st, rows[0], EncodeRows(rows[1..]));
      RowsRead(g, env, st', rows[1..]);
      Assoc(st.written, RowSamples(env, st.dict, rows[0]), AllSamples(env, st.dict, rows[1..]));
    }
  }

  /** Rows sent are rows written: nothing is lost, added, reordered or left over. */
  lemma RowsWritten(env: Env, st: State, rows: seq<Row>)
    requires forall row <- rows :: RowFits(env, st.dict, row)
    requires forall before, s :: !env.refuses(before, s)
    ensures AllDone(Messages(GrammarOf(env), st, EncodeRows(rows)), st.written + AllSamples(env, st.dict, rows))
  {
    GrammarReadsBack(env);
    RowsRead(GrammarOf(env), env, st, rows);
  }
}
