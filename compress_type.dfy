/** The `Compress` enum of src/compress/type.rs: a closed tag naming the
    content coding of an HTTP body. */
module CompressType {

  /** Exactly four variants; equality is structural (derived `PartialEq, Eq`). */
  datatype Compress = Gzip | Deflate | Br | Unknown

  /** The value given by `#[default]`. */
  function Default(): Compress
  {
    Unknown
  }

  /** Every variant, once. */
  const AllVariants: set<Compress> := {Gzip, Deflate, Br, Unknown}

  /** The enum has exactly four values and they are pairwise distinct. */
  lemma ExactlyFourVariants(c: Compress)
    ensures c in AllVariants
    ensures |AllVariants| == 4
  {
  }

  /** `#[default]` sits on `Unknown`. */
  lemma DefaultIsUnknown()
    ensures Default() == Unknown
    ensures Default() != Gzip && Default() != Deflate && Default() != Br
  {
  }
}
