/**
 * The two foreign collaborators of the service, bcrypt (through passlib) and
 * JWT (through python-jose), reduced to the behaviour the service relies on.
 * Each is a pair of functions supplied from outside; `Sound()` is the
 * contract assumed of the library, and every result of the service that
 * depends on a library call is proved under it.
 */
module Crypto {
  import opened Wrappers

  /** Length of a bcrypt modular-crypt string such as "$2b$12$...". */
  const BcryptHashLength := 60

  /**
   * `pwd_context.hash` and `pwd_context.verify`.  bcrypt draws a random salt
   * for every hash; here the salt is an explicit argument.
   */
  datatype Hasher = Hasher(hash: (string, string) -> string, verify: (string, string) -> bool)
  {
    /** A hash verifies against its own password, is never the password, and has bcrypt's length. */
    ghost predicate Sound()
    {
      forall password, salt ::
        && verify(password, hash(password, salt))
        && hash(password, salt) != password
        && |hash(password, salt)| == BcryptHashLength
    }
  }

  /** A claim value in a token payload: a string, or a NumericDate in whole seconds. */
  datatype ClaimValue = Text(text: string) | Instant(seconds: int)

  /** A token payload: claim name to claim value. */
  type Claims = map<string, ClaimValue>

  /** The subject claim of section 4.1.2 of RFC 7519. */
  const SubjectClaim := "sub"
  /** The expiration-time claim of section 4.1.4 of RFC 7519. */
  const ExpirationClaim := "exp"

  /**
   * Whether a validly signed payload is accepted at time `now`: a subject,
   * if present, must be a string, and the current time must be before the
   * expiration time, if there is one.
   */
  predicate Admissible(claims: Claims, now: int)
  {
    && (SubjectClaim in claims ==> claims[SubjectClaim].Text?)
    && (ExpirationClaim in claims ==>
          claims[ExpirationClaim].Instant? && now < claims[ExpirationClaim].seconds)
  }

  /**
   * `jwt.encode` and `jwt.decode` with the process-wide secret and HS256
   * fixed inside them; `decode` returns None where python-jose raises
   * `JWTError`.
   */
  datatype TokenCodec = TokenCodec(encode: Claims -> string, decode: (string, int) -> Option<Claims>)
  {
    /**
     * Decoding a token that was encoded returns its payload exactly when the
     * payload is admissible at that time; and a token only decodes if it is
     * the encoding of what it decodes to (no token is accepted that was not
     * signed with the secret).
     */
    ghost predicate Sound()
    {
      && (forall claims, now ::
            decode(encode(claims), now) == if Admissible(claims, now) then Some(claims) else None)
      && (forall token, now ::
            decode(token, now).Some? ==> token == encode(decode(token, now).value))
    }
  }

  /** The hasher contract is not contradictory: some hasher meets it. */
  lemma SoundHasherExists()
    ensures exists hasher: Hasher :: hasher.Sound()
  {
    var a: string := seq(BcryptHashLength, _ => 'a');
    var b: string := seq(BcryptHashLength, _ => 'b');
    assert a[0] != b[0];
    var hasher := Hasher((p, s) => if p == a then b else a, (p, h) => h == (if p == a then b else a));
    assert hasher.Sound();
  }
}
