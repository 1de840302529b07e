/** Compression followed by decompression is the identity (src/navigation/fastlz.c, lines 130-162), and
    decompression reads exactly the `size` bytes that compression wrote. */
module FastLZRoundTrip {
  import opened FastLZFormat
  import opened FastLZSearch
  import opened FastLZCompressor
  import opened FastLZDecompressor

  /** Through `fastlz_compress_level` and `fastlz_decompress`, for any hash and any sufficient `maxout`. */
  method RoundTripAtLevel(level: int, input: seq<Byte>, hash: nat -> nat, maxout: nat)
    returns (restored: seq<Byte>, size: nat, ghost end: nat)
    requires level == 1 || level == 2
    requires 1 <= |input| < 0x8000_0000 && |input| <= maxout
    requires forall p :: hash(p) < HASH_SIZE
    ensures restored == input && end == size
  {
    hide Meaning;
    var block := new Byte[SizeBound(|input|)];
    ghost var written;
    size, written := CompressAtLevel(level, input, block, hash);
    var buffer := new Byte[maxout];
    var n;
    n, end := Decompress(block[..size], buffer, maxout);
    restored := buffer[..n];
  }

  /** Through `fastlz_compress`, which picks the level by the length of the input. */
  method RoundTrip(input: seq<Byte>, hash: nat -> nat, maxout: nat)
    returns (restored: seq<Byte>, size: nat, ghost end: nat)
    requires 1 <= |input| < 0x8000_0000 && |input| <= maxout
    requires forall p :: hash(p) < HASH_SIZE
    ensures restored == input && end == size
  {
    hide Meaning;
    var block := new Byte[SizeBound(|input|)];
    ghost var written;
    size, written := Compress(input, block, hash);
    var buffer := new Byte[maxout];
    var n;
    n, end := Decompress(block[..size], buffer, maxout);
    restored := buffer[..n];
  }
}
