/**
 The LZ4 frame format with independent blocks, byte by byte: what has been understood of a stream
 after each byte of it, and what it has come to so far.
 */
module FrameSpec {
  import opened Bytes

  const MAGIC := 0x184D2204
  const SKIPPABLE := 0x184D2A50
  const MIN_HEADER := 7
  const MAX_HEADER := 19

  /** The checksum of a sequence of bytes, and the block decoder with a capacity. */
  datatype Codec = Codec(xxh: bytes -> nat, unpack: (bytes, nat) -> Option<bytes>)

  function LE32(b: bytes): nat
    requires |b| >= 4
  {
    LE16(b[0], b[1]) + 0x1_0000 * LE16(b[2], b[3])
  }

  function LE64(b: bytes): nat
    requires |b| >= 8
  {
    LE32(b) + 0x1_0000_0000 * LE32(b[4..])
  }

  // ---- The frame header ------------------------------------------------------------------------

  datatype Info = Info(blockCheck: bool, contentCheck: bool, maxBlock: nat, contentSize: nat, dictId: nat)

  const NO_INFO := Info(false, false, 0, 0, 0)

  datatype Header = BadHeader | Short(need: nat) | Linked | Good(info: Info)

  predicate Skippable(x: bytes) { |x| >= 4 && LE32(x) / 16 == SKIPPABLE / 16 }

  predicate Flag(x: nat, weight: nat)
    requires weight > 0
  {
    x / weight % 2 == 1
  }

  function HeaderSize(flg: byte): (n: nat)
    ensures MIN_HEADER <= n <= MAX_HEADER
  {
    MIN_HEADER + (if Flag(flg, 8) then 8 else 0) + (if Flag(flg, 1) then 4 else 0)
  }

  function BlockSize(id: nat): nat {
    if id == 4 then 0x1_0000 else if id == 5 then 0x4_0000 else if id == 6 then 0x10_0000 else 0x40_0000
  }

  /** The fields of a header: magic number, flags, block size, and its own checksum. */
  function ParseHeader(c: Codec, h: bytes): (r: Header)
    requires |h| >= MIN_HEADER
    ensures r.Short? ==> |h| < r.need <= MAX_HEADER && r.need == HeaderSize(h[4])
  {
    var flg, bd := h[4], h[5];
    var n := HeaderSize(flg);
    if LE32(h) != MAGIC || Flag(flg, 2) || flg / 64 != 1 then BadHeader
    else if |h| < n then Short(n)
    else if Flag(bd, 128) || bd / 16 % 8 < 4 || bd % 16 != 0 then BadHeader
    else if c.xxh(h[4..n - 1]) / 256 % 256 != h[n - 1] then BadHeader
    else if !Flag(flg, 32) then Linked
    else Good(Info(Flag(flg, 16), Flag(flg, 4), BlockSize(bd / 16 % 8),
                   if Flag(flg, 8) then LE64(h[6..]) else 0, if Flag(flg, 1) then LE32(h[n - 5..]) else 0))
  }

  // ---- The stream ------------------------------------------------------------------------------

  /** What the next bytes are for. Frames with linked blocks are not followed any further. */
  datatype Goal =
    | Header(need: nat) | SkipSize | Skip(left: nat)
    | BlockHeader | Direct(left: nat) | BlockCheck | Packed(need: nat) | Suffix
    | Broken | Foreign

  /** The goal, the bytes gathered for it, and the frame: its header, the raw block and the content so far. */
  datatype State = State(goal: Goal, got: bytes, info: Info, block: bytes, content: bytes)

  function Outside(goal: Goal, got: bytes): State { State(goal, got, NO_INFO, [], []) }

  const START := Outside(Header(MIN_HEADER), [])
  const BROKEN := Outside(Broken, [])

  datatype Result = Result(state: State, out: bytes)

  function SkipOver(n: nat): State { if n == 0 then START else Outside(Skip(n), []) }

  function SkipSizeAt(x: bytes): State { if |x| < 4 then Outside(SkipSize, x) else SkipOver(LE32(x)) }

  /** The first bytes of a frame. */
  function HeaderAt(c: Codec, x: bytes): State {
    if Skippable(x) then SkipSizeAt(x[4..])
    else if |x| < MIN_HEADER then Outside(Header(MIN_HEADER), x)
    else
      match ParseHeader(c, x)
      case BadHeader => BROKEN
      case Short(n) => Outside(Header(n), x)
      case Linked => Outside(Foreign, [])
      case Good(info) => State(BlockHeader, [], info, [], [])
  }

  /** The end of the content has to be where the header says, if it says so. */
  predicate SizeRight(s: State) { s.info.contentSize == 0 || |s.content| % 0x1_0000_0000_0000_0000 == s.info.contentSize }

  function BlockStart(s: State, v: nat): State {
    var n := v % 0x8000_0000;
    if n == 0 then
      if !SizeRight(s) then BROKEN
      else if s.info.contentCheck then s.(goal := Suffix, got := []) else START
    else if n > s.info.maxBlock then BROKEN
    else if v >= 0x8000_0000 then s.(goal := Direct(n), got := [], block := [])
    else s.(goal := Packed(if s.info.blockCheck then n + 4 else n), got := [])
  }

  function NextBlock(s: State): State { s.(goal := BlockHeader, got := [], block := []) }

  /** Raw bytes of a block; `left` of it are to come. */
  function Copied(s: State, x: bytes, left: nat): State {
    var s' := s.(goal := Direct(left), block := s.block + x, content := s.content + x);
    if left > 0 then s' else if s.info.blockCheck then s'.(goal := BlockCheck, got := []) else NextBlock(s')
  }

  function Unpacked(c: Codec, s: State, x: bytes): Result {
    var n := if s.info.blockCheck then |x| - 4 else |x|;
    if n < 0 || (s.info.blockCheck && LE32(x[n..]) != c.xxh(x[..n])) then Result(BROKEN, [])
    else
      match c.unpack(x[..n], s.info.maxBlock)
      case None => Result(BROKEN, [])
      case Some(out) => Result(NextBlock(s.(content := s.content + out)), out)
  }

  /** How many bytes a goal gathers before it acts on them. */
  function Need(g: Goal): nat {
    match g
    case Header(n) => n
    case Packed(n) => n
    case _ => 4
  }

  predicate Gathers(g: Goal) { g.Header? || g.SkipSize? || g.BlockHeader? || g.BlockCheck? || g.Packed? || g.Suffix? }

  /** The bytes gathered are now `x`. */
  function Gather(c: Codec, s: State, x: bytes): Result
    requires Gathers(s.goal)
  {
    if s.goal.Header? then Result(HeaderAt(c, x), [])
    else if |x| < Need(s.goal) then Result(s.(got := x), [])
    else Act(c, s.(got := []), x)
  }

  function Act(c: Codec, s: State, x: bytes): Result
    requires Gathers(s.goal) && !s.goal.Header? && |x| >= Need(s.goal)
  {
    if s.goal.SkipSize? then Result(SkipOver(LE32(x)), [])
    else if s.goal.BlockHeader? then Result(BlockStart(s, LE32(x)), [])
    else if s.goal.BlockCheck? then Result(if LE32(x) == c.xxh(s.block) then NextBlock(s) else BROKEN, [])
    else if s.goal.Packed? then Unpacked(c, s, x)
    else Result(if LE32(x) == c.xxh(s.content) then START else BROKEN, [])
  }

  function Next(c: Codec, s: State, b: byte): Result {
    match s.goal
    case Skip(n) => Result(SkipOver(if n > 0 then n - 1 else 0), [])
    case Direct(n) => Result(Copied(s, [b], if n > 0 then n - 1 else 0), [b])
    case Broken => Result(s, [])
    case Foreign => Result(s, [])
    case _ => Gather(c, s, s.got + [b])
  }

  /** All of `w`, and what it comes to. */
  function Run(c: Codec, s: State, w: bytes): Result
    decreases |w|
  {
    if w == [] then Result(s, [])
    else
      var r := Next(c, s, w[0]);
      var r' := Run(c, r.state, w[1..]);
      Result(r'.state, r.out + r'.out)
  }

  // ---- Several bytes at once -------------------------------------------------------------------

  lemma {:induction false} RunPlus(c: Codec, s: State, v: bytes, w: bytes)
    ensures var r := Run(c, s, v); var r' := Run(c, r.state, w); Run(c, s, v + w) == Result(r'.state, r.out + r'.out)
    decreases |v|
  {
    if v == [] {
      assert v + w == w;
      assert [] + Run(c, s, w).out == Run(c, s, w).out;
    } else {
      var n := Next(c, s, v[0]);
      var r := Run(c, n.state, v[1..]);
      assert (v + w)[1..] == v[1..] + w;
      RunPlus(c, n.state, v[1..], w);
      Assoc(n.out, r.out, Run(c, r.state, w).out);
    }
  }

  lemma RunOne(c: Codec, s: State, b: byte)
    ensures Run(c, s, [b]) == Next(c, s, b)
  {
    assert [b][1..] == [];
    assert Next(c, s, b).out + [] == Next(c, s, b).out;
  }

  lemma GatherMore(c: Codec, s: State, b: byte)
    requires Gathers(s.goal) && !s.goal.Header? && |s.got| + 1 < Need(s.goal)
    ensures Next(c, s, b) == Result(s.(got := s.got + [b]), [])
  {
  }

  lemma GatherSame(c: Codec, s: State, x: bytes, y: bytes)
    requires Gathers(s.goal) && !s.goal.Header?
    ensures Gather(c, s.(got := x), y) == Gather(c, s, y)
  {
  }

  lemma RunFirst(c: Codec, s: State, y: bytes, s': State)
    requires y != [] && Next(c, s, y[0]) == Result(s', [])
    ensures Run(c, s, y) == Run(c, s', y[1..])
  {
    assert [] + Run(c, s', y[1..]).out == Run(c, s', y[1..]).out;
  }

  lemma GatherLast(c: Codec, s: State, b: byte)
    requires Gathers(s.goal)
    ensures Run(c, s, [b]) == Gather(c, s, s.got + [b])
  {
    RunOne(c, s, b);
  }

  lemma FirstOver(x: bytes, y: bytes)
    requires y != []
    ensures x + [y[0]] + y[1..] == x + y
  {
    assert y == [y[0]] + y[1..];
  }

  lemma {:induction false} GatherPart(c: Codec, s: State, y: bytes)
    requires Gathers(s.goal) && !s.goal.Header? && |s.got| + |y| < Need(s.goal)
    ensures Run(c, s, y) == Result(s.(got := s.got + y), [])
    decreases |y|
  {
    if y == [] {
      assert s.got + y == s.got;
    } else {
      var got' := s.got + [y[0]];
      assert got' + y[1..] == s.got + y by { FirstOver(s.got, y); }
      GatherMore(c, s, y[0]);
      RunFirst(c, s, y, s.(got := got'));
      GatherPart(c, s.(got := got'), y[1..]);
    }
  }

  /** Bytes are gathered in any number of pieces. */
  lemma RunGathers(c: Codec, s: State, y: bytes)
    requires Gathers(s.goal) && !s.goal.Header? && 0 < |y| && |s.got| + |y| <= Need(s.goal)
    ensures Run(c, s, y) == Gather(c, s, s.got + y)
  {
    var y', b := y[..|y| - 1], y[|y| - 1];
    var s' := s.(got := s.got + y');
    assert y == y' + [b] && s'.got + [b] == s.got + y;
    GatherPart(c, s, y');
    GatherLast(c, s', b);
    RunPlus(c, s, y', [b]);
    GatherSame(c, s, s'.got, s.got + y);
    var r := Run(c, s', [b]);
    assert [] + r.out == r.out;
  }

  lemma {:induction false} RunCopies(c: Codec, s: State, y: bytes)
    requires s.goal.Direct? && 0 < |y| <= s.goal.left
    ensures Run(c, s, y) == Result(Copied(s, y, s.goal.left - |y|), y)
    decreases |y|
  {
    if |y| == 1 {
      assert y == [y[0]];
      RunOne(c, s, y[0]);
    } else {
      var s' := Copied(s, [y[0]], s.goal.left - 1);
      RunCopies(c, s', y[1..]);
      Assoc(s.block, [y[0]], y[1..]);
      Assoc(s.content, [y[0]], y[1..]);
      assert [y[0]] + y[1..] == y;
    }
  }

  lemma {:induction false} RunSkips(c: Codec, n: nat, y: bytes)
    requires |y| <= n
    ensures Run(c, SkipOver(n), y) == Result(SkipOver(n - |y|), [])
    decreases |y|
  {
    if y != [] {
      SkipByte(c, n, y[0]);
      RunFirst(c, SkipOver(n), y, SkipOver(n - 1));
      RunSkips(c, n - 1, y[1..]);
    }
  }

  lemma SkipByte(c: Codec, n: nat, b: byte)
    requires n > 0
    ensures Next(c, SkipOver(n), b) == Result(SkipOver(n - 1), [])
  {
  }

  lemma {:induction false} RunBroken(c: Codec, w: bytes)
    ensures Run(c, BROKEN, w) == Result(BROKEN, [])
    decreases |w|
  {
    if w != [] { RunBroken(c, w[1..]); }
  }

  // ---- Headers in pieces -----------------------------------------------------------------------

  /** Header bytes that leave the header open for more, up to `n` in all. */
  ghost predicate HeaderOpen(c: Codec, x: bytes, n: nat) { HeaderAt(c, x) == Outside(Header(n), x) && |x| < n }

  lemma SkippableStays(x: bytes, y: bytes)
    requires |x| >= 4
    ensures Skippable(x + y) == Skippable(x)
  {
  }

  lemma OpenStays(c: Codec, x: bytes, b: byte, n: nat)
    requires HeaderOpen(c, x, n) && |x| + 1 < n
    ensures HeaderOpen(c, x + [b], n) || (|x| == 3 && Skippable(x + [b]))
  {
    if |x| >= 4 { SkippableStays(x, [b]); }
  }

  lemma {:induction false} RunHeader(c: Codec, x: bytes, y: bytes, n: nat)
    requires HeaderOpen(c, x, n) && |x| + |y| <= n
    ensures Run(c, HeaderAt(c, x), y) == Result(HeaderAt(c, x + y), [])
    decreases |y|
  {
    if y == [] {
      assert x + y == x;
    } else {
      var x', y' := x + [y[0]], y[1..];
      assert x' + y' == x + y;
      HeaderByte(c, x, y, n);
      if |y'| > 0 {
        OpenStays(c, x, y[0], n);
        if HeaderOpen(c, x', n) { RunHeader(c, x', y', n); } else { RunSkipSize(c, x', y'); }
      } else {
        assert x' == x + y;
      }
    }
  }

  lemma HeaderByte(c: Codec, x: bytes, y: bytes, n: nat)
    requires HeaderOpen(c, x, n) && y != []
    ensures Run(c, HeaderAt(c, x), y) == Run(c, HeaderAt(c, x + [y[0]]), y[1..])
  {
    RunFirst(c, Outside(Header(n), x), y, HeaderAt(c, x + [y[0]]));
  }

  lemma RunSkipSize(c: Codec, x: bytes, y: bytes)
    requires |x| == 4 && Skippable(x) && 0 < |y| <= 4
    ensures Run(c, HeaderAt(c, x), y) == Result(HeaderAt(c, x + y), [])
  {
    SkippableStays(x, y);
    assert x[4..] == [] && (x + y)[4..] == y && [] + y == y;
    RunGathers(c, Outside(SkipSize, []), y);
  }

  lemma HeaderStarts(c: Codec)
    ensures HeaderOpen(c, [], MIN_HEADER) && HeaderAt(c, []) == START
  {
  }

  lemma FirstSeven(c: Codec, h: bytes)
    requires |h| >= MIN_HEADER
    ensures Run(c, START, h[..MIN_HEADER]) == Result(HeaderAt(c, h[..MIN_HEADER]), [])
  {
    HeaderStarts(c);
    assert [] + h[..MIN_HEADER] == h[..MIN_HEADER];
    RunHeader(c, [], h[..MIN_HEADER], MIN_HEADER);
  }

  /** The first bytes of a header already show whether more are needed, or that it is bad. */
  lemma HeaderOfSeven(c: Codec, h: bytes)
    requires |h| > MIN_HEADER && !Skippable(h)
    ensures var h7 := h[..MIN_HEADER]; !Skippable(h7) && HeaderSize(h7[4]) == HeaderSize(h[4])
    ensures var h7 := h[..MIN_HEADER]; HeaderSize(h[4]) > MIN_HEADER ==>
      if HeaderAt(c, h7) == BROKEN then ParseHeader(c, h) == BadHeader else HeaderOpen(c, h7, HeaderSize(h[4]))
  {
    var h7 := h[..MIN_HEADER];
    assert h == h7 + h[MIN_HEADER..];
    SkippableStays(h7, h[MIN_HEADER..]);
  }

  /** A whole header at once. */
  lemma WholeHeader(c: Codec, h: bytes)
    requires |h| >= MIN_HEADER && !Skippable(h) && |h| == HeaderSize(h[4])
    ensures Run(c, START, h) == Result(HeaderAt(c, h), [])
  {
    FirstSeven(c, h);
    var h7, t := h[..MIN_HEADER], h[MIN_HEADER..];
    if |h| == MIN_HEADER {
      assert h == h7;
    } else {
      assert h == h7 + t;
      RunPlus(c, START, h7, t);
      HeaderOfSeven(c, h);
      if HeaderAt(c, h7) == BROKEN { RunBroken(c, t); } else { RunHeader(c, h7, t, HeaderSize(h[4])); }
    }
  }

  /** Bytes gathered, or acted on when there are enough. */
  lemma RunToAct(c: Codec, s: State, y: bytes)
    requires Gathers(s.goal) && !s.goal.Header? && |s.got| + |y| <= Need(s.goal) && |s.got| < Need(s.goal)
    ensures Run(c, s, y) == if |s.got| + |y| < Need(s.goal) then Result(s.(got := s.got + y), []) else Act(c, s.(got := []), s.got + y)
  {
    if y == [] { assert s.got + y == s.got; } else { RunGathers(c, s, y); }
  }

  /** The first bytes decide a header; what follows it does not matter. */
  lemma HeaderPrefix(c: Codec, h: bytes)
    requires |h| >= MAX_HEADER
    ensures ParseHeader(c, h) == ParseHeader(c, h[..HeaderSize(h[4])]) && Skippable(h) == Skippable(h[..HeaderSize(h[4])])
  {
    var n := HeaderSize(h[4]);
    TwoParts(h, n);
    SkippableStays(h[..n], h[n..]);
    SameFields(c, h[..n], h[n..]);
  }

  /** Bytes behind a header are not looked at. */
  lemma SameFields(c: Codec, h: bytes, rest: bytes)
    requires |h| >= MIN_HEADER && |h| == HeaderSize(h[4])
    ensures ParseHeader(c, h + rest) == ParseHeader(c, h)
  {
    var n := |h|;
    InFirst(h, rest, 4, n - 1);
    Stays32(h, rest);
    if Flag(h[4], 8) {
      InFirst(h, rest, 6, n);
      Stays64(h[6..], rest);
    }
    if Flag(h[4], 1) {
      InFirst(h, rest, n - 5, n);
      Stays32(h[n - 5..], rest);
    }
  }

  lemma Stays32(x: bytes, rest: bytes)
    requires |x| >= 4
    ensures LE32(x + rest) == LE32(x)
  {
  }

  lemma Stays64(x: bytes, rest: bytes)
    requires |x| >= 8
    ensures LE64(x + rest) == LE64(x)
  {
    Stays32(x, rest);
    InFirst(x, rest, 4, |x|);
    Stays32(x[4..], rest);
  }

  lemma EndMark(s: State, v: nat)
    requires v % 0x8000_0000 == 0
    ensures BlockStart(s, v) == BlockStart(s, 0)
  {
  }

  lemma BlockHeaderActs(c: Codec, s: State, y: bytes)
    requires s.goal.BlockHeader? && |s.got| < 4 && |s.got| + |y| <= 4
    ensures var r := if |s.got| + |y| < 4 then s.(got := s.got + y) else BlockStart(s.(got := []), LE32(s.got + y));
      Run(c, s, y) == Result(r, [])
  {
    RunToAct(c, s, y);
  }

  lemma PackedActs(c: Codec, s: State, y: bytes)
    requires s.goal.Packed? && |s.got| < s.goal.need && |s.got| + |y| <= s.goal.need
    ensures Run(c, s, y) == if |s.got| + |y| < s.goal.need then Result(s.(got := s.got + y), []) else Unpacked(c, s.(got := []), s.got + y)
  {
    RunToAct(c, s, y);
  }

  lemma BlockCheckActs(c: Codec, s: State, y: bytes)
    requires s.goal.BlockCheck? && |s.got| < 4 && |s.got| + |y| <= 4
    ensures var r := if |s.got| + |y| < 4 then s.(got := s.got + y) else if LE32(s.got + y) == c.xxh(s.block) then NextBlock(s) else BROKEN;
      Run(c, s, y) == Result(r, [])
  {
    RunToAct(c, s, y);
  }

  lemma SuffixActs(c: Codec, s: State, y: bytes)
    requires s.goal.Suffix? && |s.got| < 4 && |s.got| + |y| <= 4
    ensures var r := if |s.got| + |y| < 4 then s.(got := s.got + y) else if LE32(s.got + y) == c.xxh(s.content) then START else BROKEN;
      Run(c, s, y) == Result(r, [])
  {
    RunToAct(c, s, y);
  }

  lemma SkipSizeActs(c: Codec, s: State, y: bytes)
    requires s.goal.SkipSize? && |s.got| < 4 && |s.got| + |y| <= 4
    ensures Run(c, s, y) == Result(if |s.got| + |y| < 4 then s.(got := s.got + y) else SkipOver(LE32(s.got + y)), [])
  {
    RunToAct(c, s, y);
  }
}
