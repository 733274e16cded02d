/** The foreign cryptography the controllers call: bcrypt's hash/compare and
    jsonwebtoken's sign/verify. They are left uninterpreted (function values
    supplied by the caller); only the property each library promises is
    stated, as a predicate that lemmas may assume. */
module Crypto {
  import opened Common

  /** The payload the handlers put into a token: `{ userId }`. */
  datatype Claims = Claims(userId: string)

  /** bcrypt: `hash(password, 10)` and `compare(password, hash)`. Salting is
      not modelled; a hash is a function of the password. */
  datatype Hasher = Hasher(hash: string -> string, compare: (string, string) -> bool) {
    /** compare accepts the password a hash was made from. */
    ghost predicate Sound() {
      forall p :: compare(p, hash(p))
    }
  }

  /** jsonwebtoken with the server's secret: `sign({ userId })` and `verify`,
      which throws (None here) on a forged or expired token. Expiry clocks are
      not modelled. */
  datatype Jwt = Jwt(sign: string -> string, verify: string -> Option<Claims>) {
    /** A signed token is a non-empty word without spaces (a compact JWS) and
        verifies back to the claims it was signed with. */
    ghost predicate Sound() {
      forall u :: sign(u) != "" && ' ' !in sign(u) && verify(sign(u)) == Some(Claims(u))
    }
  }
}
