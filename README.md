# http-compress: the `Compress` dispatcher in Dafny

This project models the core of the Rust crate http-compress: the `Compress`
enum that selects an HTTP content coding (section 8.4 of RFC 9110) and the
operations on it in `src/compress/`.

- `compress_type.dfy` (module `CompressType`, from `src/compress/type.rs`): the
  four-variant enum `Gzip | Deflate | Br | Unknown` and its default, `Unknown`.
- `compress_const.dfy` (module `CompressConst`, from `src/compress/const.rs`):
  the header key `"content-encoding"`, the tokens `"gzip"`, `"deflate"` and `"br"`,
  and the empty string that `Unknown` renders as.
- `ascii.dfy` (module `Ascii`): ASCII lower-casing, which stands in for
  `str::to_lowercase`, and a reference definition of case-insensitive equality.
- `codecs.dfy` (module `Codecs`): the codec adapters as a record of functions.
  Their bodies call into flate2 and brotli, which are not part of this model.
  Every dispatch result is therefore stated for ANY adapters, and the
  round-trip lemma takes the adapters' own round trip as a hypothesis.
- `compress_impl.dfy` (module `CompressImpl`, from `src/compress/impl.rs`):
  - `FromStr` (`from_str`), which is total.
  - `Render` (`Display`) and `IsUnknown`.
  - `FromHeaders` (`Compress::from`), an exact-key lookup.
  - `Encode` and `Decode`, which dispatch to the adapters.
  - The lemmas relating these operations.

The model follows the code in three places where a reader might expect otherwise:

- HTTP field names are case-insensitive (section 5.1 of RFC 9110), but the code
  looks up only the exact key `"content-encoding"` (`src/compress/impl.rs:86`). A collection whose only key is `"Content-Encoding"`
  therefore yields `Unknown`, not `Br` (`FromHeadersExamples`). No
  case-insensitive search over field names is modelled.
- `Unknown` returns an owned copy of the input, not a borrow
  (`src/compress/impl.rs:116`, `145`). Only the contents are modelled, and they are equal to the input.
- The round trip `decode(encode(b)) == b` is not a property of the code shown. It holds
  only if the foreign adapters round-trip, so `DispatchRoundTrip` assumes it.

## Model

| member | source | states |
|---|---|---|
| `CompressType.ExactlyFourVariants` | src/compress/type.rs:3-13 | every value is one of the four variants, and there are exactly four distinct ones |
| `CompressType.DefaultIsUnknown` | src/compress/type.rs:2-12 | the default value is `Unknown` and no other variant |
| `CompressConst.TokensDistinct` | src/compress/const.rs:4-10 | the three tokens are non-empty and pairwise distinct, and none of them is the empty rendering of `Unknown` |
| `Ascii.Lower` | src/compress/impl.rs:28 | lower-casing keeps the length and maps each character by ASCII case mapping |
| `Ascii.LowerIdempotent` | src/compress/impl.rs:28 | lower-casing twice is the same as lower-casing once |
| `Ascii.LowerEqualIff` | src/compress/impl.rs:28 | two strings lower-case to the same string iff they are equal ignoring case (both directions) |
| `Ascii.LowerToLettersOnlyFromLetters` | src/compress/impl.rs:28 | a string whose lower-cased form is all lower-case letters is made of ASCII letters only; blanks and punctuation never lower-case into letters |
| `CompressImpl.FromStr` | src/compress/impl.rs:27-34 | parsing never returns `Err`; a recognised result renders as the lower-cased input; the result is `Unknown` iff the lower-cased input is none of the three tokens |
| `CompressImpl.Render` | src/compress/impl.rs:44-49 | rendering gives "" iff the variant is `Unknown`, and a lower-case known token otherwise |
| `CompressImpl.IsUnknown` | src/compress/impl.rs:66-68 | `is_unknown` holds iff the value is the default, iff it renders as the empty string |
| `CompressImpl.FromHeaders` | src/compress/impl.rs:84-89 | an absent "content-encoding" key gives `Unknown`; a present one gives what `from_str` returns for its value |
| `CompressImpl.Decode` | src/compress/impl.rs:111-118 | Gzip, Deflate and Br return their own decoding adapter applied to the caller's data and buffer size; `Unknown` returns the input unchanged |
| `CompressImpl.Encode` | src/compress/impl.rs:140-147 | Gzip and Deflate return their own encoding adapter applied to the caller's data and buffer size; Br returns the brotli encoder applied to the data alone; `Unknown` returns the input unchanged |
| `CompressImpl.TokensAreLowerCase` | src/compress/const.rs:4-8 | lower-casing leaves each of the three tokens unchanged |
| `CompressImpl.FromStrCaseInsensitive` | src/compress/impl.rs:28-32 | strings that are equal ignoring case parse to the same result |
| `CompressImpl.FromStrOfLower` | src/compress/impl.rs:28-32 | `parse(lower(s)) == parse(s)` |
| `CompressImpl.FromStrTokens` | src/compress/impl.rs:28-32 | a string parses to `Gzip`/`Deflate`/`Br` iff it equals "gzip"/"deflate"/"br" ignoring case, and to `Unknown` iff it equals none of them |
| `CompressImpl.FromStrNoTrimming` | src/compress/impl.rs:28-32 | a string that parses to a known coding consists of ASCII letters only, so a padded token is `Unknown` |
| `CompressImpl.FromStrExamples` | src/compress/impl.rs:28-32 | "GZIP"→Gzip, "Deflate"→Deflate, "bR"→Br; "", "identity" and " gzip" → Unknown |
| `CompressImpl.FromStrRender` | src/compress/impl.rs:27-49 | parsing inverts rendering for all four variants, `Unknown` included |
| `CompressImpl.RenderInjective` | src/compress/impl.rs:44-49 | distinct variants render to distinct strings |
| `CompressImpl.RenderFromStr` | src/compress/impl.rs:27-49 | rendering a parse result gives the lower-cased input if it was a token, and "" otherwise |
| `CompressImpl.FromHeadersKnownIff` | src/compress/impl.rs:84-89 | the lookup yields a known coding iff the exact key is present and its value is a token up to case |
| `CompressImpl.FromHeadersIgnoresOtherFields` | src/compress/impl.rs:86 | setting any field other than the exact key, including "Content-Encoding", leaves the result unchanged |
| `CompressImpl.FromHeadersExamples` | src/compress/impl.rs:84-89 | the empty map gives Unknown; {"content-encoding": "gzip"} gives Gzip; {"content-encoding": "BR"} gives Br; {"Content-Encoding": "BR"} gives Unknown |
| `CompressImpl.UnknownPassThrough` | src/compress/impl.rs:111-147 | for `Unknown`, encode and decode both return the input, whatever the adapters and the buffer size |
| `CompressImpl.BrotliEncodeIgnoresBufferSize` | src/compress/impl.rs:144 | brotli encoding gives the same bytes for every buffer size |
| `CompressImpl.DispatchUsesOwnAdaptersOnly` | src/compress/impl.rs:111-147 | each known coding uses only its own two adapters, and `Unknown` uses none: replacing all other adapters changes neither result |
| `CompressImpl.DispatchRoundTrip` | src/compress/impl.rs:111-147 | encode and decode of the same variant use a matching adapter pair. If that pair round-trips, so does the dispatcher, for any buffer sizes. For `Unknown` it holds unconditionally |
| `CompressImpl.NoHeaderPassThrough` | src/cfg.rs:6-9 | with no exact "content-encoding" field, decode and encode return the body unchanged; in particular, empty headers, an empty body and a 1024 buffer size give the empty body |

## Left out

- Codec adapters (`src/gzip`, `src/deflate`, `src/brotli`): they are shims over flate2 and brotli, which are not part of this model. They are the parameter `Codecs.Adapters`, and no property of their output is claimed.
- No round trip is proved for the adapters themselves. In the code shown, the "brotli" encoder is built on a gzip encoder (`src/brotli/encode.rs:24`). Nothing visible supports a brotli round trip.
- `DispatchRoundTrip`: this lemma is weaker than the round trip expected of a codec pair. It assumes that the adapter pair round-trips, because that property rests entirely on foreign code.
- The adapters' fail-soft policy turns an engine error into an empty buffer. It is not modelled, because the errors arise inside flate2 and brotli. Adapter outputs may be any byte sequence, including empty.
- The "deflate" adapter writes raw deflate (RFC 1951), not the zlib format (RFC 1950) that section 8.4.1.2 of RFC 9110 names. This happens inside the foreign encoder and is not modelled.
- `BufReader`/`BufWriter` capacities are throughput tuning with no visible effect on the bytes. The buffer size is just passed to the adapters.
- `Cow` borrowed versus owned: every result is a `seq<bv8>` value.
- `Ascii.Lower`: Unicode `to_lowercase` is modelled as ASCII lower-casing, which keeps the length. No non-ASCII character lower-cases into the letters of the three tokens, so parse results agree.
- The `XxHash3_64` hasher of the header map is left out. The header collection is a `map<string, string>`.
- `src/lib.rs` (module wiring) is not modelled. `src/cfg.rs` (a unit test) is stated as `NoHeaderPassThrough`.
