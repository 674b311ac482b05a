/** However a stream of frames is cut and whatever room each call is given, decoding comes to the same. */
module FrameSplit {
  import opened Bytes
  import opened FrameSpec
  import opened FrameDecoders
  import F = FrameFormat
  import Lz4DecodeSpec
  import Lz4Compress
  import Lz4Format

  /** What a call is given: up to so many bytes of the input left, and room for so much output. */
  datatype Offer = Offer(input: nat, room: nat)

  /** Every call is given something to read and room to write. */
  predicate AllNonzero(offers: seq<Offer>) { forall i :: 0 <= i < |offers| ==> offers[i].input > 0 && offers[i].room > 0 }

  /** A call that moves nothing is one that finds the frame over; the next one moves. */
  function Owing(stage: Stage): nat { if stage.GetFrameHeader? then 1 else 0 }

  /** A decoder that has used so much of an input and written so much. */
  ghost predicate Stands(d: FrameDecoder, c: Codec, input: bytes, used: nat, out: bytes)
    requires used <= |input|
    reads d
  {
    d.Valid() && d.c == c && Moves(c, START, [], input[..used], d.At(), out, d.Pending())
  }

  /** One call on what is left of the input. */
  method Call(d: FrameDecoder, ghost c: Codec, input: bytes, used: nat, ghost out: bytes, offer: Offer)
    returns (k: nat, more: bytes, failed: bool)
    requires Bounded(c) && used <= |input| && Stands(d, c, input, used, out)
    modifies d
    ensures used + k <= |input|
    ensures if failed then Run(c, START, input).state == BROKEN else Stands(d, c, input, used + k, out + more)
    ensures !failed && offer.input > 0 && offer.room > 0 && used < |input| && !d.stage.LinkedFrame?
            ==> !old(d.stage).LinkedFrame? && (k + |more| > 0 || (Owing(d.stage) == 1 && Owing(old(d.stage)) == 0))
  {
    var n := if offer.input < |input| - used then offer.input else |input| - used;
    var src := input[used..used + n];
    ghost var s, pending := d.At(), d.Pending();
    k, more, failed := d.Decompress(src, offer.room);
    assert input[used..][..n] == src && src[..k] == input[used..used + k];
    if failed {
      BrokenLater(c, START, input, used, s, n);
    } else {
      assert input[..used + k] == input[..used] + input[used..used + k];
      MovesOn(c, START, [], input[..used], s, out, pending, input[used..used + k], d.At(), more, d.Pending());
    }
  }

  /** A decoder driven over an input by any sequence of calls; what a call does not use is offered again. */
  method Drive(c: Codec, input: bytes, offers: seq<Offer>) returns (d: FrameDecoder, used: nat, out: bytes, failed: bool)
    requires Bounded(c)
    ensures fresh(d) && used <= |input|
    ensures if failed then Run(c, START, input).state == BROKEN else Stands(d, c, input, used, out)
    ensures !failed && d.At() == START ==> d.Pending() == []
    ensures !failed && AllNonzero(offers) && used < |input| && !d.stage.LinkedFrame? ==> |offers| <= 2 * (used + |out|) + 1
  {
    d := new FrameDecoder(c);
    used, out, failed := 0, [], false;
    assert input[..0] == [];
    var i := 0;
    while i < |offers|
      invariant 0 <= i <= |offers| && fresh(d) && used <= |input|
      invariant Stands(d, c, input, used, out)
      invariant AllNonzero(offers) && used < |input| && !d.stage.LinkedFrame? ==> i <= 2 * (used + |out|) + Owing(d.stage)
    {
      var k, more;
      k, more, failed := Call(d, c, input, used, out, offers[i]);
      if failed { return; }
      used, out := used + k, out + more;
      i := i + 1;
    }
  }

  /**
   Two decoders driven over one input by different calls: one that has used as much as the other stands where the other
   stands, and what it has written and holds back is the same; one that has used less has written part of the same output.
   */
  method SplitIndependent(c: Codec, input: bytes, offers1: seq<Offer>, offers2: seq<Offer>)
    returns (d1: FrameDecoder, used1: nat, out1: bytes, d2: FrameDecoder, used2: nat, out2: bytes, failed: bool)
    requires Bounded(c)
    ensures failed ==> Run(c, START, input).state == BROKEN
    ensures !failed && used1 == used2 ==> d1.At() == d2.At() && out1 + d1.Pending() == out2 + d2.Pending()
    ensures !failed && used1 <= used2 <= |input| ==> out1 <= out2 + d2.Pending()
  {
    var failed1, failed2;
    d1, used1, out1, failed1 := Drive(c, input, offers1);
    d2, used2, out2, failed2 := Drive(c, input, offers2);
    failed := failed1 || failed2;
    if !failed && used1 <= used2 {
      OutputGrows(c, START, input[..used2], used1);
      assert input[..used2][..used1] == input[..used1];
      var r1, r2 := Run(c, START, input[..used1]).out, Run(c, START, input[..used2]).out;
      assert [] + r1 == r1 && [] + r2 == r2;
      assert out1 <= out1 + d1.Pending();
    }
  }

  /** Part of an input comes to part of what the whole comes to. */
  lemma OutputGrows(c: Codec, s: State, x: bytes, k: nat)
    requires k <= |x|
    ensures Run(c, s, x[..k]).out <= Run(c, s, x).out
  {
    RunPlus(c, s, x[..k], x[k..]);
    assert x == x[..k] + x[k..];
  }

  /** At any point of any session over a frame, what has been written is the beginning of its content. */
  lemma FramePrefix(c: Codec, f: F.Frame, used: nat, s: State, out: bytes, pending: bytes)
    requires F.Right(c, f) && used <= |F.Encode(c, f)| && Moves(c, START, [], F.Encode(c, f)[..used], s, out, pending)
    ensures out <= F.Content(f.blocks)
    ensures used == |F.Encode(c, f)| ==> s == START && out + pending == F.Content(f.blocks)
  {
    var x := F.Encode(c, f);
    F.FrameBack(c, f);
    OutputGrows(c, START, x, used);
    var r := Run(c, START, x[..used]).out;
    assert [] + r == r;
    assert out <= out + pending;
    if used == |x| { assert x[..used] == x; }
  }

  lemma {:induction false} StaysForeign(c: Codec, w: bytes)
    ensures Run(c, Outside(Foreign, []), w).state == Outside(Foreign, [])
    decreases |w|
  {
    if w != [] { StaysForeign(c, w[1..]); }
  }

  /** A stream that ends at the start of a frame has had no linked blocks in it. */
  lemma NotForeign(c: Codec, x: bytes, k: nat)
    requires k <= |x| && Run(c, START, x).state == START
    ensures Run(c, START, x[..k]).state != Outside(Foreign, [])
  {
    RunPlus(c, START, x[..k], x[k..]);
    assert x == x[..k] + x[k..];
    StaysForeign(c, x[k..]);
  }

  /**
   Any sequence of calls over a frame: never an error, never a wrong byte, all of the content once the frame is used up,
   and it is used up by enough calls that are given something to read and room to write.
   */
  method DecodeFrame(c: Codec, f: F.Frame, input: bytes, offers: seq<Offer>) returns (used: nat, out: bytes, failed: bool)
    requires Bounded(c) && F.Right(c, f) && input == F.Encode(c, f)
    ensures !failed && used <= |input| && out <= F.Content(f.blocks)
    ensures used == |input| ==> out == F.Content(f.blocks)
    ensures AllNonzero(offers) && |offers| > 2 * (|input| + |F.Content(f.blocks)|) + 1 ==> used == |input|
  {
    var d;
    d, used, out, failed := Drive(c, input, offers);
    F.FrameBack(c, f);
    FramePrefix(c, f, used, d.At(), out, d.Pending());
    NotForeign(c, input, used);
    if used == |input| { assert out + [] == out; }
  }

  // ---- Over the LZ4 block decoder ----------------------------------------------------------------

  function Lz4(xxh: bytes -> nat): Codec {
    Codec(xxh, (x, n) => match Lz4DecodeSpec.Decode(x, n) case Decoded(out) => Some(out) case Refused => None)
  }

  lemma Lz4Bounded(xxh: bytes -> nat)
    ensures Bounded(Lz4(xxh))
  {
    forall x, n | Lz4(xxh).unpack(x, n).Some? ensures |Lz4(xxh).unpack(x, n).value| <= n {
      var b := Lz4DecodeSpec.DecodeSound(x, n);
    }
  }

  /** What the block compressor leaves is a block of a frame. */
  lemma Lz4BlockRight(xxh: bytes -> nat, src: bytes, w: bytes, b: Lz4Format.Block, max: nat)
    requires Lz4Compress.Compressed(src, w, b, true) && |src| <= max && 0 < |w| <= max
    ensures F.BlockRight(Lz4(xxh), F.Compressed(w, src), max)
  {
    Lz4Compress.RoundTrip(src, w, b, max);
  }
}
