/** The string constants of src/compress/const.rs. */
module CompressConst {

  /** The header field name the lookup uses, all lower-case. */
  const ContentEncoding: string := "content-encoding"
  /** The content-coding token for gzip (section 8.4.1.3 of RFC 9110). */
  const ContentEncodingGzip: string := "gzip"
  /** The content-coding token for deflate (section 8.4.1.2 of RFC 9110). */
  const ContentEncodingDeflate: string := "deflate"
  /** The content-coding token for brotli (RFC 7932). */
  const ContentEncodingBrotli: string := "br"
  /** What `Unknown` renders as. */
  const EmptyStr: string := ""

  /** The three tokens the parser recognises. */
  const KnownTokens: set<string> := {ContentEncodingGzip, ContentEncodingDeflate, ContentEncodingBrotli}

  /** The tokens are non-empty and pairwise distinct, so at most one parse
      guard can fire, and none of them is the empty rendering of `Unknown`. */
  lemma TokensDistinct()
    ensures ContentEncodingGzip != ContentEncodingDeflate
    ensures ContentEncodingGzip != ContentEncodingBrotli
    ensures ContentEncodingDeflate != ContentEncodingBrotli
    ensures EmptyStr !in KnownTokens && |KnownTokens| == 3
    ensures forall t :: t in KnownTokens ==> |t| > 0
  {
  }
}
