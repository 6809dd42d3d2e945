/** The codec as its callers use it: compress, then decompress. */
module Lz4Codec {
  import opened Bytes
  import opened Lz4Format
  import opened Lz4Decoder
  import opened Lz4Encoder

  /** For every source of at least 32 bytes, every capacity and every content of
      the compressor's table: what compression wrote decompresses to the source. */
  method CompressThenDecompress(c: Compressor, src: seq<Byte>, packed: array<Byte>, unpacked: array<Byte>)
    returns (size: int, length: int)
    requires c.Valid() && MIN_INPUT <= |src| < 0x8000_0000 && packed.Length < 0x8000_0000
    requires packed != unpacked && |src| <= unpacked.Length
    requires packed as object != c.table && unpacked as object != c.table
    modifies c, c.table, packed, unpacked
    ensures size > 0 ==> length == |src| && unpacked[..length] == src
    ensures packed.Length >= CompressBound(|src|) > 0 ==> size > 0
  {
    ghost var b;
    size, b := c.CompressDefault(src, packed, |src|, packed.Length);
    assert src[..|src|] == src;
    length := 0;
    if size > 0 {
      RoundTrip(b, src, unpacked.Length, true);
      assert packed[..][..size] == packed[..size];
      length := DecompressSafe(packed[..], unpacked, size, unpacked.Length);
    }
  }

  /** Two compressors with any two histories of calls behind them write the same
      bytes. */
  method SameOutput(c1: Compressor, c2: Compressor, src: seq<Byte>, dst1: array<Byte>, dst2: array<Byte>, capacity: int)
    returns (r1: int, r2: int)
    requires c1 != c2 && c1.table != c2.table && dst1 != dst2 && c1.Clean() && c2.Clean()
    requires {dst1 as object, dst2} !! {c1.table as object, c2.table}
    requires |src| < 0x8000_0000 && capacity <= dst1.Length && capacity <= dst2.Length
    modifies c1, c1.table, c2, c2.table, dst1, dst2
    ensures c1.Clean() && c2.Clean()
    ensures r1 == r2 && 0 <= r1 && (r1 > 0 ==> r1 <= capacity && dst1[..r1] == dst2[..r2])
  {
    ghost var b1, b2;
    r1, b1 := c1.CompressDefault(src, dst1, |src|, capacity);
    r2, b2 := c2.CompressDefault(src, dst2, |src|, capacity);
  }
}
