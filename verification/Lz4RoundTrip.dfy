/** The compressor and the decoder in sequence. */
module Lz4RoundTrip {
  import opened Bytes
  import opened Lz4Format
  import opened Lz4Search
  import opened Lz4Blocks
  import opened Lz4Compress
  import opened Lz4Decompress

  /**
   Compression into a bound-sized buffer and decoding into one of the source's size give back what the block means,
   whatever lies in memory behind the compressed bytes: the source itself, unless the acceleration is a multiple of
   2^26, when some source is lost.
   */
  method ThereAndBack(src: bytes, acceleration: int, beyond: nat -> byte) returns (back: bytes)
    requires |src| <= MAX_INPUT_SIZE
    ensures back == Meaning(CompressedBlock(src, Effective(acceleration))) && |back| == |src|
    ensures back == src <==> ComesBack(src, Effective(acceleration))
    ensures KeepsStride(Effective(acceleration)) ==> back == src
    ensures !KeepsStride(Effective(acceleration)) && src == COUNTING ==> back != src
  {
    var wire := new byte[CompressBound(|src|)](_ => 0);
    var n, b := CompressFast(src, wire, acceleration);
    Decodes(src, Effective(acceleration), |src|);
    var dst := new byte[|src|](_ => 0);
    var r := DecompressSafe(wire[..n], beyond, dst);
    back := dst[..];
    if !KeepsStride(Effective(acceleration)) { CountingLost(Effective(acceleration)); }
  }
}
