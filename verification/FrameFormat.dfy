/** Writing frames with independent blocks, and that reading gives back what was written. */
module FrameFormat {
  import opened Bytes
  import opened FrameSpec

  // ---- Numbers ---------------------------------------------------------------------------------

  function Put16(n: nat): bytes
    requires n < 0x1_0000
  {
    [n % 256, n / 256]
  }

  function Put32(n: nat): (b: bytes)
    requires n < 0x1_0000_0000
    ensures |b| == 4
  {
    Put16(n % 0x1_0000) + Put16(n / 0x1_0000)
  }

  function Put64(n: nat): (b: bytes)
    requires n < 0x1_0000_0000_0000_0000
    ensures |b| == 8
  {
    Put32(n % 0x1_0000_0000) + Put32(n / 0x1_0000_0000)
  }

  lemma Back32(n: nat, rest: bytes)
    requires n < 0x1_0000_0000
    ensures LE32(Put32(n) + rest) == n
  {
    var lo, hi := n % 0x1_0000, n / 0x1_0000;
    assert LE16(lo % 256, lo / 256) == lo && LE16(hi % 256, hi / 256) == hi;
  }

  lemma Back64(n: nat, rest: bytes)
    requires n < 0x1_0000_0000_0000_0000
    ensures LE64(Put64(n) + rest) == n
  {
    var lo, hi := n % 0x1_0000_0000, n / 0x1_0000_0000;
    Assoc(Put32(lo), Put32(hi), rest);
    Back32(lo, Put32(hi) + rest);
    Back32(hi, rest);
    assert (Put32(lo) + (Put32(hi) + rest))[4..] == Put32(hi) + rest;
  }

  // ---- Frames ----------------------------------------------------------------------------------

  /** A block as it is stored: raw, or compressed. */
  datatype Block = Raw(data: bytes) | Compressed(data: bytes, content: bytes)

  datatype Frame = Frame(blockCheck: bool, contentCheck: bool, sizeId: nat, contentSize: nat, dictId: nat, blocks: seq<Block>)

  function ContentOf(b: Block): bytes { if b.Raw? then b.data else b.content }

  function Content(blocks: seq<Block>): bytes { if blocks == [] then [] else ContentOf(blocks[0]) + Content(blocks[1..]) }

  ghost predicate BlockRight(c: Codec, b: Block, max: nat) {
    0 < |b.data| <= max && (b.Compressed? ==> c.unpack(b.data, max) == Some(b.content))
  }

  /** The fields of the header fit into it. */
  predicate Fits(f: Frame) { 4 <= f.sizeId <= 7 && f.contentSize < 0x1_0000_0000_0000_0000 && f.dictId < 0x1_0000_0000 }

  /** Checksums are 32-bit words; blocks fit and decode; a content size that is stated is the true one. */
  ghost predicate Right(c: Codec, f: Frame) {
    && (forall x :: c.xxh(x) < 0x1_0000_0000)
    && Fits(f) && (f.contentSize == 0 || f.contentSize == |Content(f.blocks)|)
    && forall i :: 0 <= i < |f.blocks| ==> BlockRight(c, f.blocks[i], BlockSize(f.sizeId))
  }

  function InfoOf(f: Frame): Info { Info(f.blockCheck, f.contentCheck, BlockSize(f.sizeId), f.contentSize, f.dictId) }

  function Bit(b: bool, weight: nat): nat { if b then weight else 0 }

  function Flg(f: Frame): byte { 64 + 32 + Bit(f.blockCheck, 16) + Bit(f.contentSize > 0, 8) + Bit(f.contentCheck, 4) + Bit(f.dictId > 0, 1) }

  /** Flags, block size and, if there are any, the content size and the id of a dictionary. */
  function Fields(f: Frame): bytes
    requires Fits(f)
  {
    [Flg(f), 16 * f.sizeId] + Sizes(f)
  }

  function Sizes(f: Frame): bytes
    requires Fits(f)
  {
    (if f.contentSize > 0 then Put64(f.contentSize) else []) + (if f.dictId > 0 then Put32(f.dictId) else [])
  }

  function EncodeHeader(c: Codec, f: Frame): bytes
    requires Fits(f)
  {
    Put32(MAGIC) + Fields(f) + [c.xxh(Fields(f)) / 256 % 256]
  }

  /** The flags say what the frame has. */
  predicate FlagsOf(f: Frame, flg: byte) {
    && !Flag(flg, 2) && flg / 64 == 1 && Flag(flg, 32) && Flag(flg, 16) == f.blockCheck && Flag(flg, 4) == f.contentCheck
    && Flag(flg, 8) == (f.contentSize > 0) && Flag(flg, 1) == (f.dictId > 0)
  }

  lemma FlagsBack(f: Frame)
    ensures FlagsOf(f, Flg(f))
  {
  }

  lemma BlockIdBack(id: nat)
    requires 4 <= id <= 7
    ensures !Flag(16 * id, 128) && 16 * id / 16 % 8 == id && 16 * id % 16 == 0
  {
  }

  /** A header that is written is read. */
  lemma HeaderBack(c: Codec, f: Frame)
    requires Fits(f)
    ensures Run(c, START, EncodeHeader(c, f)) == Result(State(BlockHeader, [], InfoOf(f), [], []), [])
  {
    var h := EncodeHeader(c, f);
    HeaderParts(c, f);
    HoldsIsTaken(c, f, h);
    WholeHeader(c, h);
  }

  /** The content size and the id are found from the front and from the end of what is behind the flags. */
  lemma SizesBack(f: Frame, check: bytes)
    requires Fits(f) && |check| == 1
    ensures var w := Sizes(f) + check;
      && |w| == HeaderSize(Flg(f)) - 6
      && (f.contentSize > 0 ==> LE64(w) == f.contentSize)
      && (f.dictId > 0 ==> LE32(w[|w| - 5..]) == f.dictId)
  {
    var size, dict := if f.contentSize > 0 then Put64(f.contentSize) else [], if f.dictId > 0 then Put32(f.dictId) else [];
    FlagsBack(f);
    Assoc(size, dict, check);
    if f.contentSize > 0 { Back64(f.contentSize, dict + check); }
    if f.dictId > 0 {
      Back32(f.dictId, check);
      assert (size + (dict + check))[|size|..] == dict + check;
    }
  }

  /** A header with the fields of a frame, where they are read. */
  ghost predicate Holds(c: Codec, f: Frame, h: bytes) {
    var n := |h|;
    && n >= MIN_HEADER && n == HeaderSize(h[4]) && LE32(h) == MAGIC && FlagsOf(f, h[4]) && h[5] == 16 * f.sizeId
    && h[n - 1] == c.xxh(h[4..n - 1]) / 256 % 256
    && (f.contentSize > 0 ==> LE64(h[6..]) == f.contentSize)
    && (f.dictId > 0 ==> LE32(h[n - 5..]) == f.dictId)
  }

  lemma HoldsIsTaken(c: Codec, f: Frame, h: bytes)
    requires Fits(f) && Holds(c, f, h)
    ensures |h| == HeaderSize(h[4]) && !Skippable(h) && ParseHeader(c, h) == Good(InfoOf(f)) && SaysNoZero(c, h)
  {
    BlockIdBack(f.sizeId);
  }

  lemma HeaderParts(c: Codec, f: Frame)
    requires Fits(f)
    ensures Holds(c, f, EncodeHeader(c, f))
  {
    var check: bytes := [c.xxh(Fields(f)) / 256 % 256];
    FlagsBack(f);
    SizesBack(f, check);
    HeaderCut(Put32(MAGIC), [Flg(f), 16 * f.sizeId], Sizes(f), check);
    Back32(MAGIC, Fields(f) + check);
    Assoc(Put32(MAGIC), Fields(f), check);
  }

  /** Where the parts of a header lie. */
  lemma HeaderCut(magic: bytes, flags: bytes, sizes: bytes, check: bytes)
    requires |magic| == 4 && |flags| == 2 && |check| == 1
    ensures var h := magic + (flags + sizes) + check; var n := |h|;
      && h[4..n - 1] == flags + sizes && h[6..] == sizes + check
      && h[4] == flags[0] && h[5] == flags[1] && h[n - 1] == check[0]
      && (|sizes| >= 4 ==> h[n - 5..] == (sizes + check)[|sizes| - 4..])
  {
  }

  // ---- What is read is what could have been written ---------------------------------------------

  lemma Halves(lo: nat, hi: nat)
    requires lo < 0x1_0000
    ensures (lo + 0x1_0000 * hi) % 0x1_0000 == lo && (lo + 0x1_0000 * hi) / 0x1_0000 == hi
  {
  }

  lemma WideHalves(lo: nat, hi: nat)
    requires lo < 0x1_0000_0000
    ensures (lo + 0x1_0000_0000 * hi) % 0x1_0000_0000 == lo && (lo + 0x1_0000_0000 * hi) / 0x1_0000_0000 == hi
  {
  }

  lemma Again16(lo: byte, hi: byte)
    ensures LE16(lo, hi) < 0x1_0000 && Put16(LE16(lo, hi)) == [lo, hi]
  {
    LE16Bytes(lo, hi);
  }

  lemma Again32(b: bytes)
    requires |b| >= 4
    ensures LE32(b) < 0x1_0000_0000 && Put32(LE32(b)) == b[..4]
  {
    Again16(b[0], b[1]);
    Again16(b[2], b[3]);
    Halves(LE16(b[0], b[1]), LE16(b[2], b[3]));
    assert b[..4] == [b[0], b[1]] + [b[2], b[3]];
  }

  lemma Again64(b: bytes)
    requires |b| >= 8
    ensures LE64(b) < 0x1_0000_0000_0000_0000 && Put64(LE64(b)) == b[..8]
  {
    Again32(b);
    Again32(b[4..]);
    WideHalves(LE32(b), LE32(b[4..]));
    assert b[..8] == b[..4] + b[4..][..4];
  }

  lemma FlagsAgain(flg: byte)
    requires flg / 64 == 1 && !Flag(flg, 2) && Flag(flg, 32)
    ensures flg == 64 + 32 + Bit(Flag(flg, 16), 16) + Bit(Flag(flg, 8), 8) + Bit(Flag(flg, 4), 4) + Bit(Flag(flg, 1), 1)
  {
    var b1, b2, b3, b4, b5 := flg / 2, flg / 2 / 2, flg / 2 / 2 / 2, flg / 2 / 2 / 2 / 2, flg / 2 / 2 / 2 / 2 / 2;
    assert b1 == flg / 2 && b2 == flg / 4 && b3 == flg / 8 && b4 == flg / 16 && b5 == flg / 32 && b5 / 2 == flg / 64;
  }

  /** A frame with this header. */
  function FrameOf(c: Codec, h: bytes): Frame
    requires |h| >= MIN_HEADER && ParseHeader(c, h).Good?
  {
    var i := ParseHeader(c, h).info;
    Frame(i.blockCheck, i.contentCheck, h[5] / 16 % 8, i.contentSize, i.dictId, [])
  }

  /** A size or an id that the flags announce is not zero; a writer leaves it out then. */
  predicate SaysNoZero(c: Codec, h: bytes)
    requires |h| >= MIN_HEADER && ParseHeader(c, h).Good?
  {
    var i := ParseHeader(c, h).info;
    (Flag(h[4], 8) ==> i.contentSize > 0) && (Flag(h[4], 1) ==> i.dictId > 0)
  }

  /** The sizes are the bytes between the flags and the checksum. */
  lemma SizesAgain(c: Codec, h: bytes)
    requires |h| >= MIN_HEADER && |h| == HeaderSize(h[4]) && ParseHeader(c, h).Good? && SaysNoZero(c, h)
    ensures Fits(FrameOf(c, h)) && Sizes(FrameOf(c, h)) == h[6..|h| - 1]
  {
    var n := |h|;
    if Flag(h[4], 8) {
      Again64(h[6..]);
      assert h[6..][..8] == h[6..14];
    }
    if Flag(h[4], 1) {
      Again32(h[n - 5..]);
      assert h[n - 5..][..4] == h[n - 5..n - 1];
    }
  }

  lemma HeaderJoin(h: bytes)
    requires |h| >= MIN_HEADER
    ensures var n := |h|; h == h[..4] + h[4..n - 1] + [h[n - 1]] && h[4..n - 1] == [h[4], h[5]] + h[6..n - 1]
  {
  }

  /** A header that is taken, and announces no zero, is one that is written. */
  lemma TakenIsWritten(c: Codec, h: bytes)
    requires |h| >= MIN_HEADER && |h| == HeaderSize(h[4]) && ParseHeader(c, h).Good? && SaysNoZero(c, h)
    ensures Fits(FrameOf(c, h)) && h == EncodeHeader(c, FrameOf(c, h))
  {
    SizesAgain(c, h);
    FlagsAgain(h[4]);
    Again32(h);
    BlockIdAgain(h[5]);
    Assembled(c, FrameOf(c, h), h);
  }

  lemma BlockIdAgain(bd: byte)
    requires !Flag(bd, 128) && bd % 16 == 0
    ensures 16 * (bd / 16 % 8) == bd
  {
    assert bd == 16 * (bd / 16) && bd / 16 < 8;
  }

  lemma Assembled(c: Codec, f: Frame, h: bytes)
    requires Fits(f) && |h| >= MIN_HEADER && Put32(MAGIC) == h[..4] && Flg(f) == h[4] && 16 * f.sizeId == h[5]
    requires Sizes(f) == h[6..|h| - 1] && c.xxh(h[4..|h| - 1]) / 256 % 256 == h[|h| - 1]
    ensures h == EncodeHeader(c, f)
  {
    HeaderJoin(h);
  }

  /** Exactly the headers that are written are taken, but for those that announce a zero. */
  lemma HeaderExact(c: Codec, h: bytes)
    requires |h| >= MIN_HEADER && |h| == HeaderSize(h[4])
    ensures ParseHeader(c, h).Good? && SaysNoZero(c, h) <==> exists f :: Fits(f) && h == EncodeHeader(c, f)
  {
    if ParseHeader(c, h).Good? && SaysNoZero(c, h) { TakenIsWritten(c, h); }
    if f :| Fits(f) && h == EncodeHeader(c, f) {
      HeaderParts(c, f);
      HoldsIsTaken(c, f, h);
    }
  }

  // ---- Blocks ----------------------------------------------------------------------------------

  function Check(c: Codec, wanted: bool, x: bytes): bytes
    requires c.xxh(x) < 0x1_0000_0000
  {
    if wanted then Put32(c.xxh(x)) else []
  }

  /** The size, with a mark on raw blocks, the data as stored, and the checksum of that. */
  function EncodeBlock(c: Codec, f: Frame, b: Block): bytes
    requires Right(c, f) && BlockRight(c, b, BlockSize(f.sizeId))
  {
    Put32(if b.Raw? then |b.data| + 0x8000_0000 else |b.data|) + (b.data + Check(c, f.blockCheck, b.data))
  }

  /** Inside a frame, between two blocks. */
  function Between(f: Frame, content: bytes): State { State(BlockHeader, [], InfoOf(f), [], content) }

  lemma RunThen(c: Codec, s: State, v: bytes, s1: State, o1: bytes, w: bytes, s2: State, o2: bytes)
    requires Run(c, s, v) == Result(s1, o1) && Run(c, s1, w) == Result(s2, o2)
    ensures Run(c, s, v + w) == Result(s2, o1 + o2)
  {
    RunPlus(c, s, v, w);
  }

  lemma SizeBack(c: Codec, s: State, v: nat)
    requires s.goal.BlockHeader? && s.got == [] && v < 0x1_0000_0000
    ensures Run(c, s, Put32(v)) == Result(BlockStart(s, v), [])
  {
    BlockHeaderActs(c, s, Put32(v));
    assert [] + Put32(v) == Put32(v) && Put32(v) + [] == Put32(v);
    Back32(v, []);
  }

  /** The checksum behind a raw block. */
  lemma RawCheckBack(c: Codec, f: Frame, content: bytes, data: bytes)
    requires Right(c, f) && f.blockCheck
    ensures Run(c, State(BlockCheck, [], InfoOf(f), data, content), Put32(c.xxh(data))) == Result(Between(f, content), [])
  {
    BlockCheckActs(c, State(BlockCheck, [], InfoOf(f), data, content), Put32(c.xxh(data)));
    assert [] + Put32(c.xxh(data)) == Put32(c.xxh(data)) && Put32(c.xxh(data)) + [] == Put32(c.xxh(data));
    Back32(c.xxh(data), []);
  }

  lemma RawBack(c: Codec, f: Frame, content: bytes, data: bytes)
    requires Right(c, f) && 0 < |data| <= BlockSize(f.sizeId)
    ensures Run(c, State(Direct(|data|), [], InfoOf(f), [], content), data + Check(c, f.blockCheck, data)) == Result(Between(f, content + data), data)
  {
    var s := State(Direct(|data|), [], InfoOf(f), [], content);
    RunCopies(c, s, data);
    assert [] + data == data && data + [] == data;
    if f.blockCheck {
      RawCheckBack(c, f, content + data, data);
      RunThen(c, s, data, State(BlockCheck, [], InfoOf(f), data, content + data), data, Put32(c.xxh(data)), Between(f, content + data), []);
    }
  }

  lemma CompressedBack(c: Codec, f: Frame, content: bytes, b: Block)
    requires Right(c, f) && b.Compressed? && BlockRight(c, b, BlockSize(f.sizeId))
    ensures var x := b.data + Check(c, f.blockCheck, b.data);
      Run(c, State(Packed(|x|), [], InfoOf(f), [], content), x) == Result(Between(f, content + b.content), b.content)
  {
    var check := Check(c, f.blockCheck, b.data);
    var x := b.data + check;
    var s := State(Packed(|x|), [], InfoOf(f), [], content);
    PackedActs(c, s, x);
    assert [] + x == x;
    assert x[..|b.data|] == b.data && x[|b.data|..] == check;
    if f.blockCheck {
      Back32(c.xxh(b.data), []);
      assert check + [] == check;
    }
  }

  lemma BlockStarts(f: Frame, content: bytes, n: nat)
    requires 0 < n <= BlockSize(f.sizeId)
    ensures BlockStart(Between(f, content), n + 0x8000_0000) == State(Direct(n), [], InfoOf(f), [], content)
    ensures BlockStart(Between(f, content), n) == State(Packed(if f.blockCheck then n + 4 else n), [], InfoOf(f), [], content)
  {
    assert (n + 0x8000_0000) % 0x8000_0000 == n;
  }

  lemma BlockBack(c: Codec, f: Frame, content: bytes, b: Block)
    requires Right(c, f) && BlockRight(c, b, BlockSize(f.sizeId))
    ensures Run(c, Between(f, content), EncodeBlock(c, f, b)) == Result(Between(f, content + ContentOf(b)), ContentOf(b))
  {
    var n, s := |b.data|, Between(f, content);
    var v := if b.Raw? then n + 0x8000_0000 else n;
    var body := b.data + Check(c, f.blockCheck, b.data);
    var s1, s2 := BlockStart(s, v), Between(f, content + ContentOf(b));
    SizeBack(c, s, v);
    BlockStarts(f, content, n);
    if b.Raw? { RawBack(c, f, content, b.data); } else { CompressedBack(c, f, content, b); }
    RunThen(c, s, Put32(v), s1, [], body, s2, ContentOf(b));
    assert [] + ContentOf(b) == ContentOf(b);
  }

  // ---- Whole frames ----------------------------------------------------------------------------

  function EncodeBlocks(c: Codec, f: Frame, blocks: seq<Block>): bytes
    requires Right(c, f) && forall i :: 0 <= i < |blocks| ==> BlockRight(c, blocks[i], BlockSize(f.sizeId))
    decreases |blocks|
  {
    if blocks == [] then [] else EncodeBlock(c, f, blocks[0]) + EncodeBlocks(c, f, blocks[1..])
  }

  lemma {:induction false} BlocksBack(c: Codec, f: Frame, content: bytes, blocks: seq<Block>)
    requires Right(c, f) && forall i :: 0 <= i < |blocks| ==> BlockRight(c, blocks[i], BlockSize(f.sizeId))
    ensures Run(c, Between(f, content), EncodeBlocks(c, f, blocks)) == Result(Between(f, content + Content(blocks)), Content(blocks))
    decreases |blocks|
  {
    if blocks == [] {
      assert content + [] == content;
    } else {
      var b := blocks[0];
      BlockBack(c, f, content, b);
      BlocksBack(c, f, content + ContentOf(b), blocks[1..]);
      Assoc(content, ContentOf(b), Content(blocks[1..]));
      RunThen(c, Between(f, content), EncodeBlock(c, f, b), Between(f, content + ContentOf(b)), ContentOf(b),
        EncodeBlocks(c, f, blocks[1..]), Between(f, content + Content(blocks)), Content(blocks[1..]));
    }
  }

  function EncodeEnd(c: Codec, f: Frame): bytes
    requires Right(c, f)
  {
    Put32(0) + Check(c, f.contentCheck, Content(f.blocks))
  }

  function Encode(c: Codec, f: Frame): bytes
    requires Right(c, f)
  {
    EncodeHeader(c, f) + (EncodeBlocks(c, f, f.blocks) + EncodeEnd(c, f))
  }

  lemma EndBack(c: Codec, f: Frame)
    requires Right(c, f)
    ensures Run(c, Between(f, Content(f.blocks)), EncodeEnd(c, f)) == Result(START, [])
  {
    var s, x := Between(f, Content(f.blocks)), c.xxh(Content(f.blocks));
    SizeBack(c, s, 0);
    if f.contentCheck {
      var s1 := s.(goal := Suffix);
      SuffixActs(c, s1, Put32(x));
      assert [] + Put32(x) == Put32(x) && Put32(x) + [] == Put32(x);
      Back32(x, []);
      RunThen(c, s, Put32(0), s1, [], Put32(x), START, []);
    } else {
      assert Put32(0) + [] == Put32(0);
    }
  }

  /** Every frame that is written is read back: its content, and the decoder ready for the next frame. */
  lemma FrameBack(c: Codec, f: Frame)
    requires Right(c, f)
    ensures Run(c, START, Encode(c, f)) == Result(START, Content(f.blocks))
  {
    var content := Content(f.blocks);
    HeaderBack(c, f);
    BlocksBack(c, f, [], f.blocks);
    EndBack(c, f);
    assert [] + content == content && content + [] == content;
    RunThen(c, Between(f, []), EncodeBlocks(c, f, f.blocks), Between(f, content), content, EncodeEnd(c, f), START, []);
    RunThen(c, START, EncodeHeader(c, f), Between(f, []), [], EncodeBlocks(c, f, f.blocks) + EncodeEnd(c, f), START, content);
  }
}
