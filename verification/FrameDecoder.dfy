/** The resumable decoder of LZ4 frames, stage by stage, against the byte-by-byte meaning of the format. */
module FrameDecoders {
  import opened Bytes
  import opened FrameSpec

  /** The stages of the decoder; one more marks a frame with linked blocks, which is not followed here. */
  datatype Stage =
    | GetFrameHeader | StoreFrameHeader | Init
    | GetBlockHeader | StoreBlockHeader | CopyDirect | GetBlockChecksum
    | GetCBlock | StoreCBlock | FlushOut
    | GetSuffix | StoreSuffix
    | GetSFrameSize | StoreSFrameSize | SkipSkippable
    | LinkedFrame

  /** What a stage ends with: another stage, the end of the call, or an error. */
  datatype Step = Go | Stop | Error

  /** From `s` with `pending` output, the input `x` leads to `s'`, with `out` written and `pending'` still to be written. */
  ghost predicate Moves(c: Codec, s: State, pending: bytes, x: bytes, s': State, out: bytes, pending': bytes) {
    var r := Run(c, s, x);
    r.state == s' && pending + r.out == out + pending'
  }

  class FrameDecoder {
    const c: Codec
    var stage: Stage
    var tmp: bytes
    var target: nat
    var info: Info
    var remaining: nat
    var fed: bytes
    var blockFed: bytes
    var tmpOut: bytes
    var outStart: nat
    ghost var block: bytes
    ghost var content: bytes

    ghost function Frame(goal: Goal, got: bytes): State
      reads this
    {
      State(goal, got, info, if goal.Direct? || goal.BlockCheck? then block else [], content)
    }

    /** What has been understood of the stream. */
    ghost function At(): State
      reads this
    {
      match stage
      case GetFrameHeader => START
      case StoreFrameHeader => HeaderAt(c, tmp)
      case Init => State(BlockHeader, [], info, [], [])
      case GetBlockHeader => Frame(BlockHeader, [])
      case StoreBlockHeader => Frame(BlockHeader, tmp)
      case CopyDirect => Frame(Direct(target), [])
      case GetBlockChecksum => Frame(BlockCheck, tmp)
      case GetCBlock => Frame(Packed(target), [])
      case StoreCBlock => Frame(Packed(target), tmp)
      case FlushOut => Frame(BlockHeader, [])
      case GetSuffix => BlockStart(Frame(BlockHeader, []), 0)
      case StoreSuffix => Frame(Suffix, tmp)
      case GetSFrameSize => Outside(SkipSize, [])
      case StoreSFrameSize => Outside(SkipSize, if |tmp| >= 4 then tmp[4..] else [])
      case SkipSkippable => SkipOver(target)
      case LinkedFrame => Outside(Foreign, [])
    }

    /** Output decoded and not yet written. */
    ghost function Pending(): bytes
      reads this
    {
      if stage.FlushOut? && outStart <= |tmpOut| then tmpOut[outStart..] else []
    }

    ghost predicate InFrame()
      reads this
    {
      && (info.contentCheck ==> fed == content)
      && remaining == (if info.contentSize == 0 then 0 else (info.contentSize - |content|) % TWO64)
      && info.contentSize < TWO64
    }

    ghost predicate Valid()
      reads this
    {
      match stage
      case GetFrameHeader => remaining == 0
      case StoreFrameHeader => remaining == 0 && |tmp| < target && (HeaderOpen(c, tmp, target) || (target == MIN_HEADER && Skippable(tmp)))
      case Init => (info.contentSize != 0 ==> remaining == info.contentSize < TWO64) && (info.contentSize == 0 ==> remaining == 0)
      case GetBlockHeader => InFrame()
      case StoreBlockHeader => InFrame() && |tmp| < 4
      case CopyDirect => InFrame() && target > 0 && (info.blockCheck ==> blockFed == block)
      case GetBlockChecksum => InFrame() && |tmp| < 4 && blockFed == block
      case GetCBlock => InFrame() && target > (if info.blockCheck then 4 else 0)
      case StoreCBlock => InFrame() && |tmp| < target && target > (if info.blockCheck then 4 else 0)
      case FlushOut => InFrame() && outStart <= |tmpOut|
      case GetSuffix => InFrame()
      case StoreSuffix => InFrame() && |tmp| < 4 && info.contentCheck && remaining == 0
      case GetSFrameSize => remaining == 0
      case StoreSFrameSize => remaining == 0 && 4 <= |tmp| < target == 8
      case SkipSkippable => remaining == 0
      case LinkedFrame => true
    }

    constructor (codec: Codec)
      ensures Valid() && c == codec && At() == START && Pending() == []
    {
      c := codec;
      stage, tmp, target, info, remaining := GetFrameHeader, [], 0, NO_INFO, 0;
      fed, blockFed, tmpOut, outStart, block, content := [], [], [], 0, [], [];
    }

    // ---- Headers -------------------------------------------------------------------------------

    /** `LZ4F_decodeHeader` on bytes kept in `header`. */
    method DecodeStored() returns (ok: bool)
      requires stage.StoreFrameHeader? && |tmp| == target && remaining == 0
      requires |tmp| >= MIN_HEADER && (Skippable(tmp) ==> target == MIN_HEADER)
      modifies this
      ensures if ok then Valid() && At() == HeaderAt(c, old(tmp)) && Pending() == [] else HeaderAt(c, old(tmp)) == BROKEN
    {
      if Skippable(tmp) {
        target, stage := 8, StoreSFrameSize;
        return true;
      }
      var h := ParseHeader(c, tmp);
      match h {
        case BadHeader => return false;
        case Short(n) => target := n;
        case Linked => stage := LinkedFrame;
        case Good(i) => SaveHeader(i);
      }
      ok := true;
    }

    method SaveHeader(i: Info)
      requires remaining == 0
      modifies this
      ensures stage == Init && info == i && At() == State(BlockHeader, [], i, [], [])
      ensures (i.contentSize < TWO64 ==> Valid()) && Pending() == []
    {
      info, stage := i, Init;
      if i.contentSize != 0 { remaining := i.contentSize; }
    }

    /** Where a call may end: the input is used up, the output is full, or the frame is over. */
    ghost predicate Ended(src: bytes, k: nat, out: bytes, cap: nat)
      reads this
    {
      k == |src| || |out| == cap || stage.GetFrameHeader? || stage.LinkedFrame?
    }

    method GetHeader(src: bytes) returns (k: nat, step: Step)
      requires Valid() && stage.GetFrameHeader? && |src| >= MAX_HEADER
      modifies this
      ensures 0 < k <= |src| && !step.Stop?
      ensures if step.Go? then Valid() && Moves(c, START, [], src[..k], At(), [], Pending()) else Run(c, START, src[..k]).state == BROKEN
    {
      if Skippable(src) {
        stage := GetSFrameSize;
        HeaderStarts(c);
        RunHeader(c, [], src[..4], MIN_HEADER);
        assert [] + src[..4] == src[..4] && src[..4][4..] == [];
        return 4, Go;
      }
      k := HeaderSize(src[4]);
      HeaderPrefix(c, src);
      WholeHeader(c, src[..k]);
      var h := ParseHeader(c, src);
      match h {
        case BadHeader => return k, Error;
        case Linked => stage := LinkedFrame;
        case Good(i) => SaveHeader(i);
      }
      step := Go;
    }

    method StoreHeader(src: bytes) returns (k: nat, step: Step)
      requires Valid() && stage.StoreFrameHeader?
      modifies this
      ensures k <= |src|
      ensures if step.Error? then Run(c, old(At()), src[..k]).state == BROKEN else Valid() && Moves(c, old(At()), [], src[..k], At(), [], Pending())
      ensures step.Stop? ==> k == |src|
      ensures step.Go? ==> k > 0
    {
      k := if target - |tmp| < |src| then target - |tmp| else |src|;
      StoredHeader(c, tmp, src[..k], target);
      tmp := tmp + src[..k];
      if |tmp| < target { return k, Stop; }
      var ok := DecodeStored();
      step := if ok then Go else Error;
    }

    /** A stage has used `x` and written `out`, or `x` shows that the stream is broken. */
    ghost predicate Turned(s: State, pending: bytes, x: bytes, step: Step, out: bytes)
      reads this
    {
      if step.Error? then Run(c, s, x).state == BROKEN else Valid() && Moves(c, s, pending, x, At(), out, Pending())
    }

    // ---- Blocks --------------------------------------------------------------------------------

    method ToNextBlock()
      requires InFrame()
      modifies this`stage
      ensures Valid() && stage == GetBlockHeader && At() == Frame(BlockHeader, []) && Pending() == []
    {
      stage := GetBlockHeader;
    }

    /** `LZ4F_resetDecompressionContext`: the next frame can start. */
    method Reset()
      requires remaining == 0
      modifies this`stage
      ensures Valid() && stage == GetFrameHeader && At() == START && Pending() == []
    {
      stage := GetFrameHeader;
    }

    method ToSuffix()
      requires InFrame()
      modifies this`stage
      ensures Valid() && stage == GetSuffix && Pending() == []
    {
      stage := GetSuffix;
    }

    method ToDirect(n: nat)
      requires InFrame() && n > 0
      modifies this`target, this`blockFed, this`block, this`stage
      ensures Valid() && At() == old(Frame(BlockHeader, [])).(goal := Direct(n)) && Pending() == []
    {
      target, blockFed, stage := n, [], CopyDirect;
      block := [];
    }

    method ToPacked(n: nat)
      requires InFrame() && n > (if info.blockCheck then 4 else 0)
      modifies this`target, this`stage
      ensures Valid() && At() == old(Frame(BlockHeader, [])).(goal := Packed(n)) && Pending() == []
    {
      target, stage := n, GetCBlock;
    }

    /** What the four bytes in front of a block say. */
    method StartBlock(v: nat, cap: nat) returns (step: Step)
      requires InFrame()
      modifies this`stage, this`target, this`blockFed, this`block
      ensures var s := BlockStart(old(Frame(BlockHeader, [])), v);
        if step.Error? then s == BROKEN else Valid() && At() == s && Pending() == []
      ensures step.Stop? ==> cap == 0
    {
      ghost var s := Frame(BlockHeader, []);
      var n := v % 0x8000_0000;
      if n == 0 {
        EndMark(s, v);
        ToSuffix();
        return Go;
      }
      if n > info.maxBlock { return Error; }
      if v >= 0x8000_0000 {
        ToDirect(n);
        return Go;
      }
      ToPacked(if info.blockCheck then n + 4 else n);
      step := if cap == 0 then Stop else Go;
    }

    /** The frame's state set up for its first block. */
    method Begin()
      requires Valid() && stage.Init?
      modifies this
      ensures Valid() && stage.GetBlockHeader? && At() == old(At())
    {
      fed, stage := [], GetBlockHeader;
      content := [];
    }

    method GetBlockHeaderTurn(src: bytes, cap: nat) returns (k: nat, step: Step)
      requires Valid() && stage.GetBlockHeader?
      modifies this
      ensures k <= |src| && Turned(old(At()), [], src[..k], step, [])
      ensures step.Stop? ==> cap == 0
      ensures step.Go? ==> k > 0 || stage.StoreBlockHeader?
    {
      if |src| >= 4 {
        BlockHeaderActs(c, At(), src[..4]);
        assert [] + src[..4] == src[..4];
        step := StartBlock(LE32(src[..4]), cap);
        return 4, step;
      }
      tmp, stage := [], StoreBlockHeader;
      return 0, Go;
    }

    /** Bytes put behind those kept of a block header. */
    method KeepHeader(x: bytes)
      requires Valid() && stage.StoreBlockHeader? && |tmp| + |x| <= 4
      modifies this`tmp
      ensures tmp == old(tmp) + x && InFrame() && Frame(BlockHeader, []) == old(Frame(BlockHeader, []))
      ensures |tmp| < 4 ==> Valid() && At() == Frame(BlockHeader, tmp) && Pending() == []
    {
      tmp := tmp + x;
    }

    method StoreBlockHeaderTurn(src: bytes, cap: nat) returns (k: nat, step: Step)
      requires Valid() && stage.StoreBlockHeader?
      modifies this
      ensures k <= |src| && Turned(old(At()), [], src[..k], step, [])
      ensures step.Stop? ==> k == |src| || cap == 0
      ensures step.Go? ==> k > 0
    {
      k := if 4 - |tmp| < |src| then 4 - |tmp| else |src|;
      BlockHeaderActs(c, At(), src[..k]);
      KeepHeader(src[..k]);
      if |tmp| < 4 { return k, Stop; }
      step := StartBlock(LE32(tmp), cap);
    }

    /** Bytes of the content, counted and fed to the checksum. */
    method Count(x: bytes)
      requires InFrame()
      modifies this`fed, this`remaining, this`content
      ensures InFrame() && content == old(content) + x
    {
      if info.contentCheck { fed := fed + x; }
      if info.contentSize != 0 {
        CountDown(info.contentSize, |content|, |x|);
        remaining := (remaining - |x|) % TWO64;
      }
      content := content + x;
    }

    /** Raw bytes of the block, counted and fed to both checksums. */
    method Absorb(x: bytes)
      requires Valid() && stage.CopyDirect? && |x| <= target
      modifies this
      ensures Valid() && At() == Copied(old(At()), x, old(target) - |x|) && Pending() == []
      ensures stage.CopyDirect? <==> |x| < old(target)
    {
      if info.blockCheck { blockFed := blockFed + x; }
      Count(x);
      block := block + x;
      target := target - |x|;
      if target == 0 {
        if info.blockCheck { tmp, stage := [], GetBlockChecksum; } else { stage := GetBlockHeader; }
      }
    }

    method CopyTurn(src: bytes, cap: nat) returns (k: nat, out: bytes, step: Step)
      requires Valid() && stage.CopyDirect?
      modifies this
      ensures k <= |src| && |out| <= cap && !step.Error?
      ensures Valid() && Moves(c, old(At()), [], src[..k], At(), out, Pending())
      ensures step.Stop? ==> k == |src| || |out| == cap
      ensures step.Go? ==> k > 0
    {
      var room := if |src| < cap then |src| else cap;
      k := if target < room then target else room;
      out := src[..k];
      CopiedMoves(c, At(), out);
      Absorb(out);
      step := if stage.CopyDirect? then Stop else Go;
    }

    /** Four bytes, straight from the input if they are all there, else by way of `tmp`. */
    method TakeFour(src: bytes) returns (k: nat, ready: bool, x: bytes)
      requires |tmp| < 4
      modifies this`tmp
      ensures k <= |src| && (ready <==> |old(tmp)| + k == 4)
      ensures if ready then x == old(tmp) + src[..k] && k > 0 else tmp == old(tmp) + src[..k] && |tmp| < 4 && k == |src|
    {
      if |tmp| == 0 && |src| >= 4 {
        assert [] + src[..4] == src[..4];
        return 4, true, src[..4];
      }
      k := if 4 - |tmp| < |src| then 4 - |tmp| else |src|;
      tmp := tmp + src[..k];
      ready, x := |tmp| == 4, tmp;
    }

    method ChecksumTurn(src: bytes) returns (k: nat, step: Step)
      requires Valid() && stage.GetBlockChecksum?
      modifies this
      ensures k <= |src| && Turned(old(At()), [], src[..k], step, [])
      ensures step.Stop? ==> k == |src|
      ensures step.Go? ==> k > 0
    {
      var ready, x;
      ghost var s := At();
      k, ready, x := TakeFour(src);
      BlockCheckActs(c, s, src[..k]);
      if !ready { return k, Stop; }
      if LE32(x) != c.xxh(blockFed) { return k, Error; }
      ToNextBlock();
      step := Go;
    }

    /** Decoded bytes, straight to the output if there is room for the largest block, else kept to be written. */
    method Deliver(o: bytes, cap: nat) returns (out: bytes)
      requires InFrame() && |o| <= info.maxBlock
      modifies this
      ensures |out| <= cap && Valid() && out + Pending() == o && (stage.GetBlockHeader? || stage.FlushOut?)
      ensures At() == old(Frame(BlockHeader, [])).(content := old(content) + o)
    {
      Count(o);
      if cap >= info.maxBlock {
        stage := GetBlockHeader;
        assert o + [] == o;
        return o;
      }
      tmpOut, outStart, stage := o, 0, FlushOut;
      assert [] + o[0..] == o;
      out := [];
    }

    /** A whole compressed block. */
    method DecodeBlock(x: bytes, cap: nat) returns (out: bytes, step: Step)
      requires InFrame() && Bounded(c) && |x| > (if info.blockCheck then 4 else 0)
      modifies this
      ensures !step.Stop? && |out| <= cap
      ensures var r := Unpacked(c, old(Frame(Packed(|x|), [])), x);
        if step.Error? then r.state == BROKEN else Valid() && At() == r.state && r.out == out + Pending()
    {
      var n := if info.blockCheck then |x| - 4 else |x|;
      if info.blockCheck {
        if LE32(x[n..]) != c.xxh(x[..n]) { return [], Error; }
      }
      var decoded := c.unpack(x[..n], info.maxBlock);
      if decoded.None? { return [], Error; }
      out := Deliver(decoded.value, cap);
      step := Go;
    }

    method GetCBlockTurn(src: bytes, cap: nat) returns (k: nat, out: bytes, step: Step)
      requires Valid() && Bounded(c) && stage.GetCBlock?
      modifies this
      ensures k <= |src| && |out| <= cap && !step.Stop? && Turned(old(At()), [], src[..k], step, out)
      ensures step.Go? ==> k > 0 || stage.StoreCBlock?
    {
      if |src| < target {
        tmp, stage := [], StoreCBlock;
        return 0, [], Go;
      }
      k := target;
      PackedActs(c, At(), src[..k]);
      assert [] + src[..k] == src[..k];
      out, step := DecodeBlock(src[..k], cap);
    }

    /** Bytes put behind those kept of a compressed block. */
    method KeepBlock(x: bytes)
      requires Valid() && stage.StoreCBlock? && |tmp| + |x| <= target
      modifies this`tmp
      ensures tmp == old(tmp) + x && InFrame() && Frame(Packed(target), []) == old(Frame(Packed(target), []))
      ensures |tmp| < target ==> Valid() && At() == Frame(Packed(target), tmp) && Pending() == []
    {
      tmp := tmp + x;
    }

    method StoreCBlockTurn(src: bytes, cap: nat) returns (k: nat, out: bytes, step: Step)
      requires Valid() && Bounded(c) && stage.StoreCBlock?
      modifies this
      ensures k <= |src| && |out| <= cap && Turned(old(At()), [], src[..k], step, out)
      ensures step.Stop? ==> k == |src|
      ensures step.Go? ==> k > 0
    {
      k, out := if target - |tmp| < |src| then target - |tmp| else |src|, [];
      PackedActs(c, At(), src[..k]);
      KeepBlock(src[..k]);
      if |tmp| < target { return k, [], Stop; }
      out, step := DecodeBlock(tmp, cap);
    }

    method FlushTurn(cap: nat) returns (out: bytes, step: Step)
      requires Valid() && stage.FlushOut?
      modifies this
      ensures |out| <= cap && !step.Error? && Turned(old(At()), old(Pending()), [], step, out)
      ensures step.Stop? ==> |out| == cap
      ensures step.Go? ==> stage.GetBlockHeader?
    {
      var n := if |tmpOut| - outStart < cap then |tmpOut| - outStart else cap;
      out := tmpOut[outStart..outStart + n];
      assert tmpOut[outStart..] == out + tmpOut[outStart + n..];
      outStart := outStart + n;
      if outStart < |tmpOut| { return out, Stop; }
      stage := GetBlockHeader;
      step := Go;
    }

    // ---- The end of a frame --------------------------------------------------------------------

    method GetSuffixTurn(src: bytes) returns (k: nat, step: Step)
      requires Valid() && stage.GetSuffix?
      modifies this
      ensures k == 0 && Turned(old(At()), [], [], step, [])
      ensures step.Stop? ==> stage.GetFrameHeader?
      ensures step.Go? ==> stage.StoreSuffix?
    {
      k := 0;
      CountedDown(info.contentSize, |content|);
      if remaining != 0 { return 0, Error; }
      if !info.contentCheck {
        Reset();
        return 0, Stop;
      }
      tmp, stage := [], StoreSuffix;
      step := Go;
    }

    method StoreSuffixTurn(src: bytes) returns (k: nat, step: Step)
      requires Valid() && stage.StoreSuffix?
      modifies this
      ensures k <= |src| && !step.Go? && Turned(old(At()), [], src[..k], step, [])
      ensures step.Stop? ==> k == |src| || stage.GetFrameHeader?
    {
      var ready, x;
      ghost var s := At();
      k, ready, x := TakeFour(src);
      SuffixActs(c, s, src[..k]);
      if !ready { return k, Stop; }
      if LE32(x) != c.xxh(fed) { return k, Error; }
      Reset();
      step := Stop;
    }

    // ---- Skippable frames ----------------------------------------------------------------------

    method ToSkip(n: nat)
      requires remaining == 0
      modifies this`target, this`stage
      ensures Valid() && stage == SkipSkippable && At() == SkipOver(n) && Pending() == []
    {
      target, stage := n, SkipSkippable;
    }

    method GetSFrameSizeTurn(src: bytes) returns (k: nat)
      requires Valid() && stage.GetSFrameSize?
      modifies this
      ensures k <= |src| && Turned(old(At()), [], src[..k], Go, [])
      ensures k > 0 || stage.StoreSFrameSize?
    {
      if |src| >= 4 {
        SkipSizeActs(c, At(), src[..4]);
        assert [] + src[..4] == src[..4];
        ToSkip(LE32(src[..4]));
        return 4;
      }
      tmp, target, stage := [0, 0, 0, 0], 8, StoreSFrameSize;
      k := 0;
    }

    /** Bytes put behind those kept of a skippable frame's size. */
    method KeepSize(x: bytes)
      requires Valid() && stage.StoreSFrameSize? && |tmp| + |x| <= 8
      modifies this`tmp
      ensures tmp == old(tmp) + x && tmp[4..] == old(tmp[4..]) + x
      ensures |tmp| < 8 ==> Valid() && At() == Outside(SkipSize, old(tmp[4..]) + x)
    {
      tmp := tmp + x;
    }

    method StoreSFrameSizeTurn(src: bytes) returns (k: nat, step: Step)
      requires Valid() && stage.StoreSFrameSize?
      modifies this
      ensures k <= |src| && !step.Error? && Turned(old(At()), [], src[..k], step, [])
      ensures step.Stop? ==> k == |src|
      ensures step.Go? ==> k > 0
    {
      k := if target - |tmp| < |src| then target - |tmp| else |src|;
      var x := src[..k];
      SkipSizeActs(c, Outside(SkipSize, tmp[4..]), x);
      KeepSize(x);
      if |tmp| < 8 { return k, Stop; }
      ToSkip(LE32(tmp[4..]));
      step := Go;
    }

    method SkipTurn(src: bytes) returns (k: nat)
      requires Valid() && stage.SkipSkippable?
      modifies this
      ensures k <= |src| && Turned(old(At()), [], src[..k], Stop, [])
      ensures k == |src| || stage.GetFrameHeader?
    {
      k := if target < |src| then target else |src|;
      RunSkips(c, target, src[..k]);
      target := target - k;
      if target == 0 { Reset(); }
    }

    // ---- A call --------------------------------------------------------------------------------

    /** One stage of the frame and block headers. */
    method HeaderTurn(src: bytes) returns (k: nat, step: Step)
      requires Valid() && (stage.GetFrameHeader? || stage.StoreFrameHeader?)
      modifies this
      ensures k <= |src| && Turned(old(At()), [], src[..k], step, [])
      ensures step.Stop? ==> k == |src|
      ensures step.Go? ==> k > 0 || (Rank(stage) < Rank(old(stage)) && stage.StoreFrameHeader?)
    {
      if stage.StoreFrameHeader? {
        k, step := StoreHeader(src);
        return;
      }
      if |src| >= MAX_HEADER {
        k, step := GetHeader(src);
        return;
      }
      if |src| == 0 { return 0, Stop; }
      HeaderStarts(c);
      tmp, target, stage := [], MIN_HEADER, StoreFrameHeader;
      return 0, Go;
    }

    /** One stage inside a frame that writes no output. */
    method QuietTurn(src: bytes, cap: nat) returns (k: nat, step: Step)
      requires Valid() && !stage.GetFrameHeader? && !stage.StoreFrameHeader? && !Writes(stage)
      modifies this
      ensures k <= |src| && Turned(old(At()), [], src[..k], step, [])
      ensures step.Stop? ==> k == |src| || cap == 0 || stage.GetFrameHeader? || stage.LinkedFrame?
      ensures step.Go? ==> k > 0 || Rank(stage) < Rank(old(stage))
      ensures old(stage).LinkedFrame? ==> stage.LinkedFrame? && step.Stop?
    {
      k, step := 0, Go;
      match stage {
        case Init => Begin();
        case GetBlockHeader => k, step := GetBlockHeaderTurn(src, cap);
        case StoreBlockHeader => k, step := StoreBlockHeaderTurn(src, cap);
        case GetBlockChecksum => k, step := ChecksumTurn(src);
        case GetSuffix => k, step := GetSuffixTurn(src);
        case StoreSuffix => k, step := StoreSuffixTurn(src);
        case GetSFrameSize => k := GetSFrameSizeTurn(src);
        case StoreSFrameSize => k, step := StoreSFrameSizeTurn(src);
        case SkipSkippable =>
          k := SkipTurn(src);
          step := Stop;
        case LinkedFrame => step := Stop;
      }
    }

    /** One stage that may write output. */
    method LoudTurn(src: bytes, cap: nat) returns (k: nat, out: bytes, step: Step)
      requires Valid() && Bounded(c) && Writes(stage)
      modifies this
      ensures k <= |src| && |out| <= cap && Turned(old(At()), old(Pending()), src[..k], step, out)
      ensures step.Stop? ==> k == |src| || |out| == cap
      ensures step.Go? ==> k > 0 || Rank(stage) < Rank(old(stage))
    {
      k := 0;
      match stage {
        case CopyDirect => k, out, step := CopyTurn(src, cap);
        case GetCBlock => k, out, step := GetCBlockTurn(src, cap);
        case StoreCBlock => k, out, step := StoreCBlockTurn(src, cap);
        case FlushOut => out, step := FlushTurn(cap);
      }
    }

    method Turn(src: bytes, cap: nat) returns (k: nat, out: bytes, step: Step)
      requires Valid() && Bounded(c)
      modifies this
      ensures k <= |src| && |out| <= cap && Turned(old(At()), old(Pending()), src[..k], step, out)
      ensures step.Stop? ==> Ended(src, k, out, cap)
      ensures step.Go? ==> k > 0 || Rank(stage) < Rank(old(stage))
      ensures old(stage).LinkedFrame? ==> stage.LinkedFrame? && step.Stop?
      ensures InHeader(old(stage)) ==> (step.Stop? ==> k == |src|) && (step.Go? ==> k > 0 || InHeader(stage))
    {
      out := [];
      if stage.GetFrameHeader? || stage.StoreFrameHeader? {
        k, step := HeaderTurn(src);
      } else if Writes(stage) {
        k, out, step := LoudTurn(src, cap);
      } else {
        k, step := QuietTurn(src, cap);
      }
    }

    /** One more stage, as part of a call. */
    method TurnOn(src: bytes, cap: nat, used: nat, out: bytes, ghost s0: State, ghost pending0: bytes) returns (k: nat, more: bytes, step: Step)
      requires Valid() && Bounded(c) && used <= |src| && |out| <= cap && Moves(c, s0, pending0, src[..used], At(), out, Pending())
      modifies this
      ensures used + k <= |src| && |out| + |more| <= cap
      ensures if step.Error? then Run(c, s0, src).state == BROKEN else Valid() && Moves(c, s0, pending0, src[..used + k], At(), out + more, Pending())
      ensures step.Stop? ==> Ended(src, used + k, out + more, cap)
      ensures step.Go? ==> k > 0 || Rank(stage) < Rank(old(stage))
      ensures old(stage).LinkedFrame? ==> stage.LinkedFrame? && step.Stop?
      ensures InHeader(old(stage)) ==> (step.Stop? ==> used + k == |src|) && (step.Go? ==> k > 0 || InHeader(stage))
    {
      ghost var s, pending := At(), Pending();
      k, more, step := Turn(src[used..], cap - |out|);
      if step.Error? {
        BrokenLater(c, s0, src, used, s, k);
      } else {
        assert src[used..][..k] == src[used..used + k] && src[..used + k] == src[..used] + src[used..used + k];
        MovesOn(c, s0, pending0, src[..used], s, out, pending, src[used..used + k], At(), more, Pending());
      }
    }

    /** `LZ4F_decompress`: stages until there is nothing to do; an error reports nothing read and nothing written. */
    method Decompress(src: bytes, cap: nat) returns (used: nat, out: bytes, failed: bool)
      requires Valid() && Bounded(c)
      modifies this
      ensures used <= |src| && |out| <= cap
      ensures failed ==> Run(c, old(At()), src).state == BROKEN
      ensures !failed ==> Valid() && Moves(c, old(At()), old(Pending()), src[..used], At(), out, Pending())
      ensures !failed ==> Ended(src, used, out, cap)
      ensures !failed && InHeader(old(stage)) && src != [] ==> used > 0
      ensures !failed && old(stage).LinkedFrame? ==> stage.LinkedFrame?
    {
      used, out, failed := 0, [], false;
      var step := Go;
      assert src[..0] == [] && Pending() + [] == [] + Pending();
      while step.Go?
        invariant used <= |src| && |out| <= cap && !step.Error?
        invariant Valid() && Moves(c, old(At()), old(Pending()), src[..used], At(), out, Pending())
        invariant step.Stop? ==> Ended(src, used, out, cap)
        invariant old(stage).LinkedFrame? && !failed ==> stage.LinkedFrame?
        invariant InHeader(old(stage)) && src != [] && used == 0 ==> InHeader(stage) && step.Go?
        decreases step.Go?, |src| - used, Rank(stage)
      {
        var k, more;
        k, more, step := TurnOn(src, cap, used, out, old(At()), old(Pending()));
        if step.Error? { return 0, [], true; }
        used, out := used + k, out + more;
      }
    }
  }

  predicate InHeader(stage: Stage) { stage.GetFrameHeader? || stage.StoreFrameHeader? }

  predicate Writes(stage: Stage) { stage.CopyDirect? || stage.GetCBlock? || stage.StoreCBlock? || stage.FlushOut? }

  /** Stages that can lead on without using input. */
  function Rank(stage: Stage): nat {
    match stage
    case FlushOut => 2
    case Init => 2
    case GetBlockHeader => 1
    case GetFrameHeader => 1
    case GetCBlock => 1
    case GetSuffix => 1
    case GetSFrameSize => 1
    case _ => 0
  }

  lemma MovesOn(c: Codec, s: State, p: bytes, x: bytes, s1: State, o1: bytes, p1: bytes, y: bytes, s2: State, o2: bytes, p2: bytes)
    requires Moves(c, s, p, x, s1, o1, p1) && Moves(c, s1, p1, y, s2, o2, p2)
    ensures Moves(c, s, p, x + y, s2, o1 + o2, p2)
  {
    RunPlus(c, s, x, y);
    var r1, r2 := Run(c, s, x).out, Run(c, s1, y).out;
    Assoc(p, r1, r2);
    Assoc(o1, p1, r2);
    Assoc(o1, o2, p2);
  }

  lemma BreaksOn(c: Codec, s: State, x: bytes, s1: State, y: bytes, z: bytes)
    requires Run(c, s, x).state == s1 && Run(c, s1, y).state == BROKEN
    ensures Run(c, s, x + (y + z)).state == BROKEN
  {
    RunPlus(c, s, x, y + z);
    RunPlus(c, s1, y, z);
    RunBroken(c, z);
  }

  lemma BrokenLater(c: Codec, s: State, src: bytes, used: nat, s1: State, k: nat)
    requires used + k <= |src| && Run(c, s, src[..used]).state == s1 && Run(c, s1, src[used..][..k]).state == BROKEN
    ensures Run(c, s, src).state == BROKEN
  {
    var x, y, z := src[..used], src[used..][..k], src[used..][k..];
    BreaksOn(c, s, x, s1, y, z);
    ThreeParts(src, used, k);
  }

  /** The block decoder never writes more than it is given room for. */
  ghost predicate Bounded(c: Codec) { forall x, n :: c.unpack(x, n).Some? ==> |c.unpack(x, n).value| <= n }

  /** Nothing remains if and only if the content is as long as was said. */
  lemma CountedDown(size: nat, done: nat)
    requires size < TWO64
    ensures (size - done) % TWO64 == 0 <==> done % TWO64 == size
  {
    var q, r := done / TWO64, done % TWO64;
    ModShift(size - r, -q);
    assert size - done == size - r + TWO64 * -q;
    if size >= r { ModIs(size - r, 0, size - r); } else { ModIs(size - r, -1, size - r + TWO64); }
  }

  /** Header bytes kept from earlier calls, and more of them. */
  lemma StoredHeader(c: Codec, x: bytes, y: bytes, n: nat)
    requires |x| < n && (HeaderOpen(c, x, n) || (n == MIN_HEADER && Skippable(x))) && |x| + |y| <= n
    ensures Run(c, HeaderAt(c, x), y) == Result(HeaderAt(c, x + y), [])
    ensures |x + y| < n ==> HeaderOpen(c, x + y, n) || (n == MIN_HEADER && Skippable(x + y))
    ensures Skippable(x + y) ==> n == MIN_HEADER
  {
    if HeaderOpen(c, x, n) {
      RunHeader(c, x, y, n);
      StillOpen(c, x, y, n);
    } else {
      SkippableStays(x, y);
      assert (x + y)[4..] == x[4..] + y;
      RunToAct(c, Outside(SkipSize, x[4..]), y);
    }
  }

  lemma {:induction false} StillOpen(c: Codec, x: bytes, y: bytes, n: nat)
    requires HeaderOpen(c, x, n) && |x| + |y| <= n
    ensures |x + y| < n ==> HeaderOpen(c, x + y, n) || (n == MIN_HEADER && Skippable(x + y))
    ensures Skippable(x + y) ==> n == MIN_HEADER
    decreases |y|
  {
    if |x| >= 4 {
      SkippableStays(x, y);
    }
  }

  lemma CopiedMoves(c: Codec, s: State, x: bytes)
    requires s.goal.Direct? && |x| <= s.goal.left && s.goal.left > 0
    ensures Moves(c, s, [], x, Copied(s, x, s.goal.left - |x|), x, [])
  {
    if x == [] {
      assert s.block + x == s.block && s.content + x == s.content;
    } else {
      RunCopies(c, s, x);
      assert x + [] == x && [] + x == x;
    }
  }

  lemma CountDown(size: nat, done: nat, n: nat)
    ensures ((size - done) % TWO64 - n) % TWO64 == (size - (done + n)) % TWO64
  {
    var q := (size - done) / TWO64;
    ModShift((size - done) % TWO64 - n, q);
  }
}
