/** The copies from input to output that the compressor and the decoder share. */
module Lz4Memory {
  import opened Bytes

  /** `memcpy` of input bytes into the output. */
  method CopyIn(dst: array<byte>, d: nat, src: bytes, s: nat, n: nat)
    requires d + n <= dst.Length && s + n <= |src|
    modifies dst
    ensures dst[..d + n] == old(dst[..d]) + src[s..s + n]
    ensures dst[d + n..] == old(dst[d + n..])
  {
    forall i | 0 <= i < n { dst[d + i] := src[s + i]; }
  }

  /** `LZ4_wildCopy` of input bytes, eight at a time: up to eight bytes beyond the end are scratched. */
  method WildCopy(dst: array<byte>, op: nat, src: bytes, ip: nat, len: nat)
    requires op + len + 8 <= dst.Length && ip + len + 8 <= |src|
    modifies dst
    ensures dst[..op + len] == old(dst[..op]) + src[ip..ip + len]
  {
    var d, s := op, ip;
    CopyIn(dst, d, src, s, 8);
    d, s := d + 8, s + 8;
    while d < op + len
      invariant op + 8 <= d < op + len + 8 || d == op + 8
      invariant s == ip + (d - op)
      invariant dst[..d] == old(dst[..op]) + src[ip..s]
    {
      CopyIn(dst, d, src, s, 8);
      Adjacent(src, ip, s, s + 8);
      Assoc(old(dst[..op]), src[ip..s], src[s..s + 8]);
      d, s := d + 8, s + 8;
    }
    assert dst[..op + len] == dst[..d][..op + len];
  }
}
