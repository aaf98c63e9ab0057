/** The cryptographic and serialisation primitives the records rely on,
    kept opaque: each is a function value supplied by the caller, and what
    the model assumes of it is stated as a predicate that lemmas require.
    Keys, messages and tokens are text; their UTF-8 encoding is folded into
    the primitives. */
module Crypto {
  import opened Wrappers

  /** HMAC-SHA256 (RFC 2104 over the SHA-256 of FIPS 180-4) of `message`
      under `key`, as a lowercase hex digest. */
  type HmacHex = (string, string) -> string

  /** Fernet authenticated symmetric encryption. `keyValid` says whether
      `Fernet(key)` accepts a key (32 bytes, url-safe Base64); `encrypt` takes
      the key, the fresh randomness a call draws (IV and timestamp) and the
      plaintext; `decrypt` gives `None` where the library raises
      `InvalidToken`. */
  datatype Fernet = Fernet(
    keyValid: string -> bool,
    encrypt: (string, string, string) -> string,
    decrypt: (string, string) -> Option<string>)

  /** What Fernet guarantees and the model relies on: under a valid key,
      decrypting a token gives back its plaintext, and tokens are never
      empty. */
  ghost predicate Sound(f: Fernet) {
    && (forall key, entropy, plain :: f.keyValid(key) ==> f.decrypt(key, f.encrypt(key, entropy, plain)) == Some(plain))
    && (forall key, entropy, plain :: f.encrypt(key, entropy, plain) != [])
  }

  /** An idealisation of HMAC used only to reason about tamper evidence:
      under one key, distinct messages have distinct digests. */
  ghost predicate CollisionFree(h: HmacHex) {
    forall key, m1, m2 :: h(key, m1) == h(key, m2) ==> m1 == m2
  }
}
