/** SHA-256 is a parameter of everything that hashes: a function from texts to texts of which
    only the digest width is ever used. Injectivity is never assumed. A result that would need
    it names two concrete texts instead, computed from its own inputs. */
module Hashing {

  const DIGEST_WIDTH := 64

  /** `sha` returns digests of 64 characters. */
  ghost predicate FixedWidth(sha: string -> string) {
    forall s :: |sha(s)| == DIGEST_WIDTH
  }

  /** The two texts of `pair` differ and hash to the same digest. */
  ghost predicate Collides(sha: string -> string, pair: (string, string)) {
    pair.0 != pair.1 && sha(pair.0) == sha(pair.1)
  }

  /** The general form, for hashes of structured values. */
  ghost predicate CollidesOn<T(!new)>(h: T -> string, pair: (T, T)) {
    pair.0 != pair.1 && h(pair.0) == h(pair.1)
  }
}
