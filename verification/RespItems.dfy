/** What a client sends, dictionaries and rows, and which orders of them come to the same however they are cut. */
module RespItems {
  import opened Bytes
  import opened Resp
  import opened RespSession
  import opened RespSplit
  import opened RespWrite

  // ---- Dictionaries ---------------------------------------------------------------------------

  /** A name and the number it is to go by. */
  datatype Line = Line(name: bytes, uid: nat)

  predicate LineFits(env: Env, l: Line) { Sendable(l.name, STRING_LENGTH_MAX) && env.names(l.name) != [] && l.uid <= MAX_U64 }

  predicate LinesFit(env: Env, lines: seq<Line>) { 2 * |lines| <= MAX_U64 && forall i :: 0 <= i < |lines| ==> LineFits(env, lines[i]) }

  function EncodeLine(l: Line): bytes { EncodeString(l.name) + EncodeInt(l.uid) }

  function EncodeLines(lines: seq<Line>): bytes { if lines == [] then [] else EncodeLine(lines[0]) + EncodeLines(lines[1..]) }

  function EncodeDictionary(lines: seq<Line>): bytes { EncodeArraySize(2 * |lines|) + EncodeLines(lines) }

  function EntryOf(env: Env, l: Line): Entry { Entry(l.uid, env.names(l.name)) }

  function EntriesOf(env: Env, lines: seq<Line>): seq<Entry> {
    if lines == [] then [] else [EntryOf(env, lines[0])] + EntriesOf(env, lines[1..])
  }

  lemma LineBack(env: Env, l: Line, rest: bytes)
    requires LineFits(env, l)
    ensures ParseEntry(env, EncodeLine(l) + rest) == Ok(EntryOf(env, l), rest)
  {
    Assoc(EncodeString(l.name), EncodeInt(l.uid), rest);
    StringBack(l.name, EncodeInt(l.uid) + rest, STRING_LENGTH_MAX);
    IntBack(l.uid, rest);
  }

  /** The lines a client may send are entries of the grammar, and its rows messages. */
  ghost predicate TakesItems(g: Grammar, env: Env) {
    && ReadsBack(g, env) && Lawful(g)
    && forall l, rest {:trigger g.entry(EncodeLine(l) + rest)} :: LineFits(env, l) ==> g.entry(EncodeLine(l) + rest) == Ok(EntryOf(env, l), rest)
  }

  lemma GrammarTakesItems(env: Env)
    ensures TakesItems(GrammarOf(env), env)
  {
    GrammarReadsBack(env);
    GrammarIsLawful(env);
    forall l, rest | LineFits(env, l) ensures GrammarOf(env).entry(EncodeLine(l) + rest) == Ok(EntryOf(env, l), rest) {
      LineBack(env, l, rest);
    }
  }

  lemma {:induction false} LinesBack(g: Grammar, env: Env, lines: seq<Line>, rest: bytes)
    requires TakesItems(g, env) && forall i :: 0 <= i < |lines| ==> LineFits(env, lines[i])
    ensures ParseEntries(g.entry, |lines|, EncodeLines(lines) + rest) == Listing(EntriesOf(env, lines), Ok((), rest))
    decreases |lines|
  {
    if lines == [] {
      assert EncodeLines(lines) + rest == rest;
    } else {
      Assoc(EncodeLine(lines[0]), EncodeLines(lines[1..]), rest);
      assert g.entry(EncodeLine(lines[0]) + (EncodeLines(lines[1..]) + rest)).Ok?;
      LinesBack(g, env, lines[1..], rest);
    }
  }

  /** A dictionary that is sent is the array that is read. */
  lemma DictionaryBack(g: Grammar, env: Env, lines: seq<Line>, rest: bytes)
    requires TakesItems(g, env) && LinesFit(env, lines)
    ensures ParseArray(g, EncodeDictionary(lines) + rest) == Listing(EntriesOf(env, lines), Ok((), rest))
  {
    var body := EncodeLines(lines);
    Assoc(EncodeArraySize(2 * |lines|), body, rest);
    ArraySizeBack(2 * |lines|, body + rest);
    EvenArray(g, EncodeArraySize(2 * |lines|) + (body + rest), |lines|, body + rest);
    LinesBack(g, env, lines, rest);
  }

  lemma EvenArray(g: Grammar, w: bytes, n: nat, rest: bytes)
    requires ReadArraySize(w) == Ok(2 * n, rest)
    ensures ParseArray(g, w) == ParseEntries(g.entry, n, rest)
  {
  }

  // ---- Items ----------------------------------------------------------------------------------

  datatype Item = Dictionary(lines: seq<Line>) | Sent(row: Row)

  /** Each item can be sent, given what the dictionaries in front of it have defined. */
  predicate ItemsFit(env: Env, dict: Dict, items: seq<Item>)
    decreases |items|
  {
    items == [] ||
    match items[0]
    case Dictionary(lines) => LinesFit(env, lines) && ItemsFit(env, DefineAll(dict, EntriesOf(env, lines)), items[1..])
    case Sent(row) => RowFits(env, dict, row) && ItemsFit(env, dict, items[1..])
  }

  function EncodeItem(item: Item): bytes {
    match item
    case Dictionary(lines) => EncodeDictionary(lines)
    case Sent(row) => EncodeRow(row)
  }

  function EncodeItems(items: seq<Item>): bytes { if items == [] then [] else EncodeItem(items[0]) + EncodeItems(items[1..]) }

  /** A dictionary stands behind a row, and the database has taken all rows in front of it; `rows` if there has been one. */
  predicate Late(env: Env, dict: Dict, written: seq<Sample>, items: seq<Item>, rows: bool)
    requires ItemsFit(env, dict, items)
    decreases |items|
  {
    if items == [] then false
    else
      match items[0]
      case Dictionary(lines) => rows || Late(env, DefineAll(dict, EntriesOf(env, lines)), written, items[1..], false)
      case Sent(row) =>
        var (ok, written') := Accepted(env.refuses, written, RowSamples(env, dict, row));
        ok && Late(env, dict, written', items[1..], true)
  }

  lemma ItemStarts(item: Item)
    ensures EncodeItem(item) != [] && (NextType(EncodeItem(item)[0]) == Array <==> item.Dictionary?)
  {
  }

  lemma {:induction false} LateAmongRows(g: Grammar, env: Env, st: State, items: seq<Item>)
    requires TakesItems(g, env) && ItemsFit(env, st.dict, items)
    ensures LateArray(Messages(g, st, EncodeItems(items))) == Late(env, st.dict, st.written, items, true)
    decreases |items|
  {
    var w := EncodeItems(items);
    if items == [] {
      assert g.message(st.dict, st.last, []) == Attempt(Again, st.last);
    } else {
      ItemStarts(items[0]);
      if items[0].Dictionary? {
        WorkIsMessages(g, st, w);
      } else {
        var st' := RowThenRows(g, env, st, items[0].row, EncodeItems(items[1..]));
        LateAmongRows(g, env, st', items[1..]);
      }
    }
  }

  lemma {:induction false} LateFromStart(g: Grammar, env: Env, st: State, items: seq<Item>)
    requires TakesItems(g, env) && ItemsFit(env, st.dict, items)
    ensures LateArray(Work(g, st, EncodeItems(items))) == Late(env, st.dict, st.written, items, false)
    decreases |items|
  {
    if items != [] {
      ItemStarts(items[0]);
      if items[0].Dictionary? {
        DictionaryBack(g, env, items[0].lines, EncodeItems(items[1..]));
        LateFromStart(g, env, st.(dict := DefineAll(st.dict, EntriesOf(env, items[0].lines))), items[1..]);
      } else {
        WorkIsMessages(g, st, EncodeItems(items));
        LateAmongRows(g, env, st, items);
        RowFirst(env, st.dict, st.written, items);
      }
    }
  }

  lemma RowFirst(env: Env, dict: Dict, written: seq<Sample>, items: seq<Item>)
    requires ItemsFit(env, dict, items) && items != [] && items[0].Sent?
    ensures Late(env, dict, written, items, true) == Late(env, dict, written, items, false)
  {
  }

  /** The cutting of what a client sends does not matter if and only if no dictionary stands behind rows that were all taken. */
  lemma ItemsExact(env: Env, items: seq<Item>)
    requires ItemsFit(env, map[], items)
    ensures CutAnywhere(GrammarOf(env), EncodeItems(items)) <==> !Late(env, map[], [], items, false)
  {
    GrammarTakesItems(env);
    ItemsExactly(GrammarOf(env), env, items);
  }

  lemma ItemsExactly(g: Grammar, env: Env, items: seq<Item>)
    requires TakesItems(g, env) && ItemsFit(env, map[], items)
    ensures CutAnywhere(g, EncodeItems(items)) <==> !Late(env, map[], [], items, false)
  {
    var w := EncodeItems(items);
    SplitExactly(g, w);
    assert START.tail + w == w;
    LateFromStart(g, env, START.state, items);
  }

  // ---- Order alone ----------------------------------------------------------------------------

  /** A dictionary somewhere behind a row. */
  ghost predicate BehindARow(items: seq<Item>) { exists i, j :: 0 <= i < j < |items| && items[i].Sent? && items[j].Dictionary? }

  ghost predicate AnyDictionary(items: seq<Item>) { exists j :: 0 <= j < |items| && items[j].Dictionary? }

  lemma BehindFirst(items: seq<Item>)
    requires items != []
    ensures BehindARow(items) <==> BehindARow(items[1..]) || (items[0].Sent? && AnyDictionary(items[1..]))
  {
    var rest := items[1..];
    if BehindARow(items) {
      var i, j :| 0 <= i < j < |items| && items[i].Sent? && items[j].Dictionary?;
      assert items[j] == rest[j - 1];
      if i > 0 { assert items[i] == rest[i - 1]; }
    }
    if BehindARow(rest) {
      var i, j :| 0 <= i < j < |rest| && rest[i].Sent? && rest[j].Dictionary?;
      assert items[i + 1].Sent? && items[j + 1].Dictionary?;
    }
    if items[0].Sent? && AnyDictionary(rest) {
      var j :| 0 <= j < |rest| && rest[j].Dictionary?;
      assert items[j + 1].Dictionary?;
    }
  }

  lemma AnyFirst(items: seq<Item>)
    requires items != []
    ensures AnyDictionary(items) <==> items[0].Dictionary? || AnyDictionary(items[1..])
  {
    if AnyDictionary(items) && !items[0].Dictionary? {
      var j :| 0 <= j < |items| && items[j].Dictionary?;
      assert items[1..][j - 1].Dictionary?;
    }
    if AnyDictionary(items[1..]) {
      var j :| 0 <= j < |items| - 1 && items[1..][j].Dictionary?;
      assert items[j + 1].Dictionary?;
    }
  }

  /** A late dictionary is one behind a row; without refusals, one behind a row is late. */
  lemma {:induction false} LateIsBehind(env: Env, dict: Dict, written: seq<Sample>, items: seq<Item>, rows: bool)
    requires ItemsFit(env, dict, items)
    ensures Late(env, dict, written, items, rows) ==> BehindARow(items) || (rows && AnyDictionary(items))
    ensures (forall before, s :: !env.refuses(before, s)) && (BehindARow(items) || (rows && AnyDictionary(items))) ==>
      Late(env, dict, written, items, rows)
    decreases |items|
  {
    if items != [] {
      BehindFirst(items);
      AnyFirst(items);
      match items[0]
      case Dictionary(lines) => LateIsBehind(env, DefineAll(dict, EntriesOf(env, lines)), written, items[1..], false);
      case Sent(row) =>
        var samples := RowSamples(env, dict, row);
        LateIsBehind(env, dict, Accepted(env.refuses, written, samples).1, items[1..], true);
        if forall before, s :: !env.refuses(before, s) { NoneRefused(env.refuses, written, samples); }
    }
  }

  /** Dictionaries in front of all rows: the cutting never matters. */
  lemma DictionariesFirst(env: Env, items: seq<Item>)
    requires ItemsFit(env, map[], items) && !BehindARow(items)
    ensures CutAnywhere(GrammarOf(env), EncodeItems(items))
  {
    ItemsExact(env, items);
    LateIsBehind(env, map[], [], items, false);
  }

  /** Where the database takes everything, the cutting does not matter if and only if no dictionary stands behind a row. */
  lemma OrderExact(env: Env, items: seq<Item>)
    requires ItemsFit(env, map[], items) && forall before, s :: !env.refuses(before, s)
    ensures CutAnywhere(GrammarOf(env), EncodeItems(items)) <==> !BehindARow(items)
  {
    ItemsExact(env, items);
    LateIsBehind(env, map[], [], items, false);
  }

  // ---- A stream that depends on the cutting ---------------------------------------------------

  /** The name `m k=1`, and the value 2 at time 1 for its series. */
  const NAME: bytes := [0x6d, 0x20, 0x6b, 0x3d, 0x31]

  function OneRow(): Row { Row(ByName(NAME), Ticks(1), [Integer(2)], false) }

  /** That row, and behind it a dictionary that gives the name a number. */
  function RowThenDictionary(uid: nat): seq<Item> { [Sent(OneRow()), Dictionary([Line(NAME, uid)])] }

  lemma CuttingMatters(env: Env, uid: nat)
    requires env.names(NAME) == [1] && !env.refuses([], Sample(1, 1, Float(env.whole(2)))) && uid <= MAX_U64
    ensures ItemsFit(env, map[], RowThenDictionary(uid)) && !CutAnywhere(GrammarOf(env), EncodeItems(RowThenDictionary(uid)))
  {
    var items := RowThenDictionary(uid);
    RowThenLate(env, uid, items);
    ItemsExact(env, items);
  }

  lemma RowThenLate(env: Env, uid: nat, items: seq<Item>)
    requires env.names(NAME) == [1] && !env.refuses([], Sample(1, 1, Float(env.whole(2)))) && uid <= MAX_U64
    requires items == RowThenDictionary(uid)
    ensures ItemsFit(env, map[], items) && Late(env, map[], [], items, false)
  {
    var row, d := OneRow(), Dictionary([Line(NAME, uid)]);
    assert items[1..] == [d] && [d][1..] == [];
    assert LineFits(env, Line(NAME, uid));
    assert ItemsFit(env, map[], [d]);
    assert CellFits(env, 1, Integer(2)) && RowFits(env, map[], row);
    OneSample(env);
  }

  lemma OneSample(env: Env)
    requires env.names(NAME) == [1] && !env.refuses([], Sample(1, 1, Float(env.whole(2)))) && RowFits(env, map[], OneRow())
    ensures Accepted(env.refuses, [], RowSamples(env, map[], OneRow())).0
  {
    var s := Sample(1, 1, Float(env.whole(2)));
    assert [1][1..] == [] && [Integer(2)][1..] == [];
    assert Payloads(env, [1], [Integer(2)]) == [Float(env.whole(2))] + Payloads(env, [], []);
    assert [s.payload][1..] == [];
    assert SamplesOf([1], 1, [s.payload]) == [s] + SamplesOf([], 1, []) == [s];
    assert [s][1..] == [] && Accepted(env.refuses, [s], []) == (true, [s]);
  }
}
