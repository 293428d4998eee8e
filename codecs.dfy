/** The codec adapters (src/gzip, src/deflate, src/brotli) as the dispatcher
    sees them. Their bodies call into flate2 and brotli, which are not part of
    this model, so the adapters are a parameter: any functions with the
    adapters' signatures. */
module Codecs {

  /** A byte buffer (`&[u8]`, `Vec<u8>`). */
  type Bytes = seq<bv8>

  /** One function per adapter. `bufferSize` is the `usize` buffer hint.
      The brotli encoder takes no buffer hint, as `brotli::encode(data)` has none. */
  datatype Adapters = Adapters(
    gzipEncode: (Bytes, nat) -> Bytes,
    gzipDecode: (Bytes, nat) -> Bytes,
    deflateEncode: (Bytes, nat) -> Bytes,
    deflateDecode: (Bytes, nat) -> Bytes,
    brotliEncode: Bytes -> Bytes,
    brotliDecode: (Bytes, nat) -> Bytes)

  /** The gzip adapters undo each other, whatever the buffer hints. */
  ghost predicate GzipRoundTrips(a: Adapters)
  {
    forall d, s1, s2 :: a.gzipDecode(a.gzipEncode(d, s1), s2) == d
  }

  /** The deflate adapters undo each other, whatever the buffer hints. */
  ghost predicate DeflateRoundTrips(a: Adapters)
  {
    forall d, s1, s2 :: a.deflateDecode(a.deflateEncode(d, s1), s2) == d
  }

  /** The brotli adapters undo each other, whatever the buffer hint. */
  ghost predicate BrotliRoundTrips(a: Adapters)
  {
    forall d, s :: a.brotliDecode(a.brotliEncode(d), s) == d
  }
}
