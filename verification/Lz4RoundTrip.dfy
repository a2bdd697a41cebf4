/** Compressing and decompressing, as the daemon does it, through real buffers. */
module Lz4RoundTrip {
  import opened Bytes
  import opened Lz4Format
  import opened Lz4Compress
  import opened Lz4Decompress

  /** Whatever LZ4_compress_default produced, LZ4_decompress_safe turns back into
      the source, also into a buffer of exactly the source's size. Room for the
      worst case guarantees that something is produced. */
  method RoundTrip(src: seq<byte>, base: nat, packed: array<byte>, maxOutputSize: nat, unpacked: array<byte>)
    returns (n: nat, r: int)
    requires maxOutputSize <= packed.Length && |src| <= unpacked.Length && packed != unpacked
    modifies packed, unpacked
    ensures maxOutputSize >= |src| + |src| / 255 + 16 && |src| <= 0x7E000000 ==> n > 0
    ensures n > 0 ==> n <= maxOutputSize && r == |src| && unpacked[..|src|] == src
  {
    n := CompressDefault(src, base, packed, 0, maxOutputSize);
    r := -1;
    if n > 0 {
      EncodingDecodes(packed[0..n], src, |src|);
      r := DecompressSafe(packed[0..n], unpacked, |src|);
    }
  }
}
