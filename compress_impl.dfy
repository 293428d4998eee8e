/** The operations of src/compress/impl.rs on `Compress`: parsing from and
    rendering to a content-coding token, the `Content-Encoding` header lookup,
    and the dispatch of `encode`/`decode` to the codec adapters. */
module CompressImpl {
  import opened CompressType
  import opened CompressConst
  import opened Ascii
  import opened Codecs

  /** `Result<Compress, ()>`, what `from_str` returns. */
  datatype ParseResult = Ok(value: Compress) | Err

  /** `FromStr::from_str`: lower-case the input, then compare it with the
      gzip, deflate and brotli tokens in that order; anything else is
      `Unknown`. The input is not trimmed. */
  function FromStr(data: string): (r: ParseResult)
    ensures r.Ok?
    ensures r.value != Unknown ==> Render(r.value) == Lower(data)
    ensures r.value == Unknown <==> Lower(data) !in KnownTokens
  {
    var lower := Lower(data);
    if lower == ContentEncodingGzip then Ok(Gzip)
    else if lower == ContentEncodingDeflate then Ok(Deflate)
    else if lower == ContentEncodingBrotli then Ok(Br)
    else Ok(Unknown)
  }

  /** `Display::fmt`: the token of a known coding, the empty string for
      `Unknown`. */
  function Render(c: Compress): (r: string)
    ensures r == EmptyStr <==> c == Unknown
    ensures c != Unknown ==> r in KnownTokens
    ensures IsLowerCase(r)
  {
    match c
    case Gzip => ContentEncodingGzip
    case Deflate => ContentEncodingDeflate
    case Br => ContentEncodingBrotli
    case Unknown => EmptyStr
  }

  /** `is_unknown`: compares with the `Unknown` variant. */
  function IsUnknown(c: Compress): (b: bool)
    ensures b <==> c == Default()
    ensures b <==> Render(c) == EmptyStr
  {
    c == Unknown
  }

  /** `unwrap_or_default` on the result of `from_str`. */
  function UnwrapOrDefault(r: ParseResult): Compress
  {
    match r
    case Ok(c) => c
    case Err => Default()
  }

  /** `Compress::from(header)`: looks up the exact key "content-encoding"
      (no case-insensitive search over the field names) and parses its value;
      an absent key gives the default. */
  function FromHeaders(header: map<string, string>): (r: Compress)
    ensures ContentEncoding !in header ==> r == Unknown
    ensures ContentEncoding in header ==> FromStr(header[ContentEncoding]) == Ok(r)
  {
    if ContentEncoding in header then UnwrapOrDefault(FromStr(header[ContentEncoding]))
    else Default()
  }

  /** `decode`: each known coding goes to its own decoding adapter with the
      buffer hint; `Unknown` returns a copy of the input. */
  function Decode(c: Compress, a: Adapters, data: Bytes, bufferSize: nat): (r: Bytes)
    ensures c == Gzip ==> r == a.gzipDecode(data, bufferSize)
    ensures c == Deflate ==> r == a.deflateDecode(data, bufferSize)
    ensures c == Br ==> r == a.brotliDecode(data, bufferSize)
    ensures IsUnknown(c) ==> r == data
  {
    match c
    case Gzip => a.gzipDecode(data, bufferSize)
    case Deflate => a.deflateDecode(data, bufferSize)
    case Br => a.brotliDecode(data, bufferSize)
    case Unknown => data
  }

  /** `encode`: each known coding goes to its own encoding adapter; the
      brotli adapter is not given the buffer hint; `Unknown` returns a copy of
      the input. */
  function Encode(c: Compress, a: Adapters, data: Bytes, bufferSize: nat): (r: Bytes)
    ensures c == Gzip ==> r == a.gzipEncode(data, bufferSize)
    ensures c == Deflate ==> r == a.deflateEncode(data, bufferSize)
    ensures c == Br ==> r == a.brotliEncode(data)
    ensures IsUnknown(c) ==> r == data
  {
    match c
    case Gzip => a.gzipEncode(data, bufferSize)
    case Deflate => a.deflateEncode(data, bufferSize)
    case Br => a.brotliEncode(data)
    case Unknown => data
  }

  // ---------------------------------------------------------------------
  // Parsing and rendering

  /** Every token is already lower-case, so lower-casing it is the identity. */
  lemma TokensAreLowerCase()
    ensures forall t :: t in KnownTokens ==> Lower(t) == t
  {
  }

  /** Parsing is case-insensitive: strings equal up to case parse alike. */
  lemma FromStrCaseInsensitive(s: string, t: string)
    requires EqualsIgnoreCase(s, t)
    ensures FromStr(s) == FromStr(t)
  {
  }

  /** Parsing a string and parsing its lower-cased form agree. */
  lemma FromStrOfLower(s: string)
    ensures FromStr(Lower(s)) == FromStr(s)
  {
  }

  /** The exact token mapping: a string parses to a known coding exactly when
      it equals that coding's token up to case, and to `Unknown` exactly when
      it equals none of them. */
  lemma FromStrTokens(s: string)
    ensures FromStr(s) == Ok(Gzip) <==> EqualsIgnoreCase(s, ContentEncodingGzip)
    ensures FromStr(s) == Ok(Deflate) <==> EqualsIgnoreCase(s, ContentEncodingDeflate)
    ensures FromStr(s) == Ok(Br) <==> EqualsIgnoreCase(s, ContentEncodingBrotli)
    ensures FromStr(s) == Ok(Unknown) <==>
      !EqualsIgnoreCase(s, ContentEncodingGzip) &&
      !EqualsIgnoreCase(s, ContentEncodingDeflate) &&
      !EqualsIgnoreCase(s, ContentEncodingBrotli)
  {
  }

  /** No trimming: a string that parses to a known coding consists of ASCII
      letters only, so no leading or trailing blank is tolerated. */
  lemma FromStrNoTrimming(s: string)
    ensures FromStr(s).value != Unknown ==> forall i :: 0 <= i < |s| ==> IsLetter(s[i])
  {
  }

  /** Sample inputs: case variants of the tokens are recognised; the empty
      string, other codings and a token with a leading blank are not. */
  lemma FromStrExamples()
    ensures FromStr("GZIP") == Ok(Gzip)
    ensures FromStr("Deflate") == Ok(Deflate)
    ensures FromStr("bR") == Ok(Br)
    ensures FromStr("") == Ok(Unknown)
    ensures FromStr("identity") == Ok(Unknown)
    ensures FromStr(" gzip") == Ok(Unknown)
  {
    FromStrTokens("GZIP");
    FromStrTokens("Deflate");
    FromStrTokens("bR");
    FromStrNoTrimming(" gzip");
  }

  /** Parsing inverts rendering for all four variants, `Unknown` included
      (it renders as "" and "" parses to `Unknown`). */
  lemma FromStrRender(c: Compress)
    ensures FromStr(Render(c)) == Ok(c)
  {
  }

  /** Rendering is injective over the four variants. */
  lemma RenderInjective(c1: Compress, c2: Compress)
    ensures Render(c1) == Render(c2) ==> c1 == c2
  {
  }

  /** Rendering a parsed value gives back the lower-cased input when the
      input was recognised, and the empty string otherwise. */
  lemma RenderFromStr(s: string)
    ensures Render(FromStr(s).value) == if Lower(s) in KnownTokens then Lower(s) else EmptyStr
  {
  }

  // ---------------------------------------------------------------------
  // Header lookup

  /** The header lookup recognises a coding exactly when the exact key
      "content-encoding" is present and its value is a token up to case. */
  lemma FromHeadersKnownIff(header: map<string, string>)
    ensures !IsUnknown(FromHeaders(header)) <==>
      ContentEncoding in header && Lower(header[ContentEncoding]) in KnownTokens
  {
  }

  /** Only the exact key matters: adding or changing any other field,
      "Content-Encoding" included, does not change the result. */
  lemma FromHeadersIgnoresOtherFields(header: map<string, string>, k: string, v: string)
    requires k != ContentEncoding
    ensures FromHeaders(header[k := v]) == FromHeaders(header)
  {
  }

  /** Sample header collections: the empty one, a lower-case key, and a
      key spelled with capitals, which the exact lookup does not find. */
  lemma FromHeadersExamples()
    ensures FromHeaders(map[]) == Unknown
    ensures FromHeaders(map["content-encoding" := "gzip"]) == Gzip
    ensures FromHeaders(map["content-encoding" := "BR"]) == Br
    ensures FromHeaders(map["Content-Encoding" := "BR"]) == Unknown
  {
  }

  // ---------------------------------------------------------------------
  // Dispatch

  /** `Unknown` passes data through both ways, whatever the adapters and the
      buffer hint. */
  lemma UnknownPassThrough(a: Adapters, data: Bytes, bufferSize: nat)
    ensures Encode(Unknown, a, data, bufferSize) == data
    ensures Decode(Unknown, a, data, bufferSize) == data
  {
  }

  /** Brotli encoding does not depend on the buffer hint. */
  lemma BrotliEncodeIgnoresBufferSize(a: Adapters, data: Bytes, s1: nat, s2: nat)
    ensures Encode(Br, a, data, s1) == Encode(Br, a, data, s2)
  {
  }

  /** `a`'s adapters for the coding `c`, with every other adapter taken from
      `b`; for `Unknown` all of them are `b`'s. */
  function KeepOwnAdapters(c: Compress, a: Adapters, b: Adapters): Adapters
  {
    match c
    case Gzip => b.(gzipEncode := a.gzipEncode, gzipDecode := a.gzipDecode)
    case Deflate => b.(deflateEncode := a.deflateEncode, deflateDecode := a.deflateDecode)
    case Br => b.(brotliEncode := a.brotliEncode, brotliDecode := a.brotliDecode)
    case Unknown => b
  }

  /** Each coding is routed to its own adapters only: replacing every other
      adapter (all of them, for `Unknown`) changes neither result. */
  lemma DispatchUsesOwnAdaptersOnly(c: Compress, a: Adapters, b: Adapters, data: Bytes, bufferSize: nat)
    ensures Encode(c, KeepOwnAdapters(c, a, b), data, bufferSize) == Encode(c, a, data, bufferSize)
    ensures Decode(c, KeepOwnAdapters(c, a, b), data, bufferSize) == Decode(c, a, data, bufferSize)
  {
  }

  /** Encoding and decoding with the same variant use matching adapters: if
      the adapters of that coding undo each other, so does the dispatcher;
      for `Unknown` it holds whatever the adapters. */
  lemma DispatchRoundTrip(c: Compress, a: Adapters, data: Bytes, s1: nat, s2: nat)
    requires c == Gzip ==> GzipRoundTrips(a)
    requires c == Deflate ==> DeflateRoundTrips(a)
    requires c == Br ==> BrotliRoundTrips(a)
    ensures Decode(c, a, Encode(c, a, data, s1), s2) == data
  {
  }

  /** A message without the exact "content-encoding" field is passed through
      unchanged both ways; the unit test asserts that decoding an empty body
      under an empty header collection with a hint of 1024 equals that body. */
  lemma NoHeaderPassThrough(header: map<string, string>, a: Adapters, data: Bytes, bufferSize: nat)
    requires ContentEncoding !in header
    ensures Decode(FromHeaders(header), a, data, bufferSize) == data
    ensures Encode(FromHeaders(header), a, data, bufferSize) == data
    ensures Decode(FromHeaders(map[]), a, [], 1024) == []
  {
  }
}
