/** Values the authentication engine works with: the stored user and session
    records, the claims it signs into a token, the password encoder and token
    codec it is constructed with, and the Java `long` arithmetic of its clock. */
module AuthTypes {

  datatype Result<+T, +E> = Ok(value: T) | Err(error: E)

  // ---------------------------------------------------------------------------
  // Java `long`

  const LONG_MIN: int := -0x8000_0000_0000_0000
  const LONG_MAX: int := 0x7fff_ffff_ffff_ffff
  const LONG_RANGE: int := 0x1_0000_0000_0000_0000

  type Long = x: int | LONG_MIN <= x <= LONG_MAX

  /** Java's `+` on two `long` values: the exact sum reduced modulo 2^64 into the
      signed range. */
  function AddLong(a: Long, b: Long): (r: Long)
    ensures LONG_MIN <= a + b <= LONG_MAX ==> r == a + b
    ensures a + b > LONG_MAX ==> r == a + b - LONG_RANGE
    ensures a + b < LONG_MIN ==> r == a + b + LONG_RANGE
  {
    (a + b - LONG_MIN) % LONG_RANGE + LONG_MIN
  }

  // ---------------------------------------------------------------------------
  // Stored records

  /** A row of the user store. `passwordHash` holds what the encoder produced
      from the password given at sign-up. */
  datatype User = User(id: nat, email: string, passwordHash: string)

  datatype SessionState = Active | Expired

  /** A row of the session store: one issued token and the user it was issued to. */
  datatype Session = Session(token: string, userId: nat, state: SessionState)

  // ---------------------------------------------------------------------------
  // Token claims

  /** The claims map signed at login, with one field per key: "iat", "exp",
      "user_id" and "issuer". "iat" and "exp" carry the names of sections 4.1.6
      and 4.1.4 of RFC 7519, but hold milliseconds of the clock rather than the
      seconds of the RFC's NumericDate. */
  datatype Claims = Claims(iat: Long, exp: Long, userId: int, issuer: string)

  /** The issuer tag every token carries. */
  const ISSUER: string := "scaler"

  /** What login adds to the current time to obtain "exp". The clock counts
      milliseconds, so this is 2592 seconds (43.2 minutes). */
  const EXPIRY_OFFSET: Long := 2592000

  /** The claims login signs for user `userId` at time `now`. Unless `now` is
      within EXPIRY_OFFSET of the largest `long`, the token is valid for exactly
      EXPIRY_OFFSET milliseconds after it is issued; above that bound the Java
      addition wraps and the token is born already expired. */
  function LoginClaims(userId: nat, now: Long): (c: Claims)
    ensures c.iat == now && c.userId == userId && c.issuer == "scaler"
    ensures now <= LONG_MAX - EXPIRY_OFFSET ==> c.exp == now + 2592000
    ensures now > LONG_MAX - EXPIRY_OFFSET ==> c.exp == now + EXPIRY_OFFSET - LONG_RANGE && c.exp < c.iat
  {
    Claims(now, AddLong(now, EXPIRY_OFFSET), userId, ISSUER)
  }

  // ---------------------------------------------------------------------------
  // Collaborators the engine is constructed with

  /** The password encoder: a one-way `encode` and a check of a plaintext
      against a stored encoding. Both are left uninterpreted. */
  datatype PasswordEncoder = PasswordEncoder(encode: string -> string, matches: (string, string) -> bool)

  /** Why a token could not be parsed: its signature does not verify under the
      engine's key, or it cannot be decoded at all. */
  datatype TokenError = InvalidSignature | Malformed

  /** Signing claims into a compact token under the engine's secret key, and
      parsing a token back into the claims it signs. Both are left
      uninterpreted. */
  datatype TokenCodec = TokenCodec(sign: Claims -> string, parse: string -> Result<Claims, TokenError>)

  /** The assumption, used only where stated, that the encoder accepts every
      password against its own encoding. */
  ghost predicate AcceptsOwnEncoding(enc: PasswordEncoder)
  {
    forall p :: enc.matches(p, enc.encode(p))
  }

  /** The assumption, used only where stated, that parsing a token the codec
      signed gives back the signed claims. */
  ghost predicate ParsesWhatItSigns(codec: TokenCodec)
  {
    forall c :: codec.parse(codec.sign(c)) == Ok(c)
  }

  /** The outcomes the engine reports instead of a value. */
  datatype AuthError =
    | UserAlreadyExists
    | UserNotFound
    | WrongPassword
    | TokenRejected(cause: TokenError)
    | AmbiguousSession
}
