/**
 * The authentication service (app/services/user_service.py): registration,
 * login with a bearer token, and resolution of the current user from a
 * token.  The functions `Register`, `Login` and `CurrentUser` give the
 * meaning of each request on a store value; the methods of `UserService`
 * perform them against the repository object and are proved to agree.
 * The clock is the argument `now` (whole seconds), bcrypt's salt the
 * argument `salt`.
 */
module Service {
  import opened Wrappers
  import opened Decimal
  import opened Models
  import opened Crypto
  import opened Repository

  const AccessTokenExpireMinutes := 30
  const AccessTokenExpireSeconds := AccessTokenExpireMinutes * 60

  /** An `HTTPException` (status code and detail), or a pydantic validation failure. */
  datatype AuthError = HttpError(statusCode: int, detail: string) | ValidationError(messages: seq<string>)

  const EmailAlreadyRegistered := HttpError(400, "Email already registered")
  const FailedToCreateUser := HttpError(500, "Failed to create user")
  const InvalidCredentials := HttpError(401, "Invalid credentials")
  const CouldNotValidateCredentials := HttpError(401, "Could not validate credentials")

  /** `verify_password`. */
  function VerifyPassword(hasher: Hasher, plainPassword: string, hashedPassword: string): bool
  {
    hasher.verify(plainPassword, hashedPassword)
  }

  /** `get_password_hash`: the stored form is never the plaintext and verifies against it. */
  function GetPasswordHash(hasher: Hasher, password: string, salt: string): (h: string)
    requires hasher.Sound()
    ensures h != password
    ensures VerifyPassword(hasher, password, h)
    ensures |h| == BcryptHashLength
  {
    hasher.hash(password, salt)
  }

  /** Lifetime of a token: `expires_delta` if truthy (a zero timedelta is falsy), else 30 minutes. */
  function ExpirySeconds(expiresDelta: Option<int>): (seconds: int)
    ensures expiresDelta == None || expiresDelta == Some(0) ==> seconds == AccessTokenExpireSeconds
    ensures expiresDelta.Some? && expiresDelta.value != 0 ==> seconds == expiresDelta.value
  {
    if expiresDelta.Some? && expiresDelta.value != 0 then expiresDelta.value else AccessTokenExpireSeconds
  }

  /**
   * The payload `create_access_token` signs: a copy of `data` whose
   * expiration claim is set (or replaced); every other claim is kept.
   */
  function AccessClaims(data: Claims, expiresDelta: Option<int>, now: int): (claims: Claims)
    ensures claims.Keys == data.Keys + {ExpirationClaim}
    ensures claims[ExpirationClaim] == Instant(now + ExpirySeconds(expiresDelta))
    ensures forall name :: name in data && name != ExpirationClaim ==> claims[name] == data[name]
  {
    data[ExpirationClaim := Instant(now + ExpirySeconds(expiresDelta))]
  }

  /** `create_access_token`. */
  function CreateAccessToken(codec: TokenCodec, data: Claims, expiresDelta: Option<int>, now: int): string
  {
    codec.encode(AccessClaims(data, expiresDelta, now))
  }

  /**
   * `register_user`: refuse a taken e-mail, hash the password, rebuild the
   * `UserCreate` with the hash (which runs the validators again), store it.
   */
  function Register(t: Table, hasher: Hasher, data: UserCreate, salt: string): (Result<UserInDB, AuthError>, Table)
    requires hasher.Sound()
  {
    if t.GetByEmail(data.email).Some? then (Err(EmailAlreadyRegistered), t)
    else
      var hashedPassword := GetPasswordHash(hasher, data.password, salt);
      match NewUserCreate(data.email, data.name, hashedPassword)
      case Err(messages) => (Err(ValidationError(messages)), t)
      case Ok(userWithHashedPassword) =>
        var (user, t') := t.Create(userWithHashedPassword);
        if user.None? then (Err(FailedToCreateUser), t') else (Ok(user.value), t')
  }

  /**
   * `login_user`: an unknown e-mail and a wrong password both give
   * "Invalid credentials"; otherwise a token for the user's e-mail that
   * expires 30 minutes after `now`.
   */
  function Login(t: Table, hasher: Hasher, codec: TokenCodec, loginData: UserLogin, now: int): Result<string, AuthError>
  {
    match t.GetByEmail(loginData.email)
    case None => Err(InvalidCredentials)
    case Some(user) =>
      if !VerifyPassword(hasher, loginData.password, user.password) then Err(InvalidCredentials)
      else Ok(CreateAccessToken(codec, map[SubjectClaim := Text(user.email)], Some(AccessTokenExpireSeconds), now))
  }

  /**
   * `get_current_user`: a token that does not decode, a payload without a
   * string subject, and a subject with no stored user all give "Could not
   * validate credentials".
   */
  function CurrentUser(t: Table, codec: TokenCodec, token: string, now: int): Result<UserInDB, AuthError>
  {
    match codec.decode(token, now)
    case None => Err(CouldNotValidateCredentials)
    case Some(payload) =>
      if SubjectClaim !in payload || !payload[SubjectClaim].Text? then Err(CouldNotValidateCredentials)
      else
        var tokenData := TokenData(Some(payload[SubjectClaim].text));
        match t.GetByEmail(tokenData.email.value)
        case None => Err(CouldNotValidateCredentials)
        case Some(user) => Ok(user)
  }

  /** The service object; `hasher` and `codec` stand for the module-level bcrypt context and JWT settings. */
  class UserService {
    const repository: UserRepository
    const hasher: Hasher
    const codec: TokenCodec

    constructor (repository: UserRepository, hasher: Hasher, codec: TokenCodec)
      ensures this.repository == repository && this.hasher == hasher && this.codec == codec
    {
      this.repository := repository;
      this.hasher := hasher;
      this.codec := codec;
    }

    ghost predicate Valid()
      reads repository
    {
      repository.Valid() && hasher.Sound() && codec.Sound()
    }

    method RegisterUser(userData: UserCreate, salt: string) returns (r: Result<UserInDB, AuthError>)
      requires Valid()
      modifies repository
      ensures Valid()
      ensures (r, repository.State()) == Register(old(repository.State()), hasher, userData, salt)
    {
      var existingUser := repository.GetByEmail(userData.email);
      if existingUser.Some? {
        return Err(EmailAlreadyRegistered);
      }
      var hashedPassword := GetPasswordHash(hasher, userData.password, salt);
      match NewUserCreate(userData.email, userData.name, hashedPassword)
      case Err(messages) =>
        return Err(ValidationError(messages));
      case Ok(userWithHashedPassword) =>
        var user := repository.Create(userWithHashedPassword);
        if user.None? {
          return Err(FailedToCreateUser);
        }
        r := Ok(user.value);
    }

    method LoginUser(loginData: UserLogin, now: int) returns (r: Result<string, AuthError>)
      requires repository.Valid()
      ensures r == Login(repository.State(), hasher, codec, loginData, now)
    {
      var user := repository.GetByEmail(loginData.email);
      if user.None? || !VerifyPassword(hasher, loginData.password, user.value.password) {
        return Err(InvalidCredentials);
      }
      var accessToken := CreateAccessToken(codec, map[SubjectClaim := Text(user.value.email)],
                                           Some(AccessTokenExpireSeconds), now);
      r := Ok(accessToken);
    }

    method GetCurrentUser(token: string, now: int) returns (r: Result<UserInDB, AuthError>)
      requires repository.Valid()
      ensures r == CurrentUser(repository.State(), codec, token, now)
    {
      var payload := codec.decode(token, now);
      if payload.None? {
        return Err(CouldNotValidateCredentials);
      }
      if SubjectClaim !in payload.value || !payload.value[SubjectClaim].Text? {
        return Err(CouldNotValidateCredentials);
      }
      var tokenData := TokenData(Some(payload.value[SubjectClaim].text));
      var user := repository.GetByEmail(tokenData.email.value);
      if user.None? {
        return Err(CouldNotValidateCredentials);
      }
      r := Ok(user.value);
    }
  }

  // ---------------------------------------------------------------------
  // Properties of the three requests
  // ---------------------------------------------------------------------

  /** A token's payload decodes back until, and only until, its expiration time. */
  lemma AccessTokenRoundTrip(codec: TokenCodec, data: Claims, expiresDelta: Option<int>, now: int, later: int)
    requires codec.Sound()
    requires SubjectClaim in data ==> data[SubjectClaim].Text?
    ensures codec.decode(CreateAccessToken(codec, data, expiresDelta, now), later) ==
              if later < now + ExpirySeconds(expiresDelta) then Some(AccessClaims(data, expiresDelta, now)) else None
  {
    var claims := AccessClaims(data, expiresDelta, now);
    assert Admissible(claims, later) <==> later < now + ExpirySeconds(expiresDelta);
  }

  /**
   * Registration succeeds exactly when the e-mail is new; the only error it
   * can give is "Email already registered" (400), and then the store is
   * unchanged.  The 500 and validation branches are unreachable.
   */
  lemma RegisterOutcome(t: Table, hasher: Hasher, data: UserCreate, salt: string)
    requires t.Valid() && hasher.Sound()
    ensures var (r, t') := Register(t, hasher, data, salt);
      && (r.Ok? <==> forall id :: id in t.users ==> t.users[id].email != data.email)
      && (r.Err? ==> r.error == EmailAlreadyRegistered && r.error.statusCode == 400 && t' == t)
      && t'.Valid()
  {
    GetByEmailSpec(t, data.email);
    if t.GetByEmail(data.email).None? {
      var hashedPassword := GetPasswordHash(hasher, data.password, salt);
      var withHash := NewUserCreate(data.email, data.name, hashedPassword);
      assert withHash.Ok?;
      CreateInsertsNew(t, withHash.value);
    }
  }

  /**
   * A successful registration stores a record with the request's e-mail and
   * name and the hash of its password, never the plaintext, under a fresh
   * id; the record is then what the store finds for that e-mail.
   */
  lemma RegisterStoresHash(t: Table, hasher: Hasher, data: UserCreate, salt: string)
    requires t.Valid() && hasher.Sound()
    requires forall id :: id in t.users ==> t.users[id].email != data.email
    ensures var (r, t') := Register(t, hasher, data, salt);
      && r.Ok?
      && r.value.email == data.email
      && r.value.name == data.name
      && r.value.password == hasher.hash(data.password, salt)
      && r.value.password != data.password
      && hasher.verify(data.password, r.value.password)
      && r.value.id !in t.users
      && t'.users == t.users[r.value.id := r.value]
      && t'.GetByEmail(data.email) == Some(r.value)
  {
    GetByEmailSpec(t, data.email);
    var hashedPassword := GetPasswordHash(hasher, data.password, salt);
    var withHash := NewUserCreate(data.email, data.name, hashedPassword);
    assert withHash.Ok?;
    CreateInsertsNew(t, withHash.value);
  }

  /** Registering a taken e-mail again leaves exactly one record with that e-mail. */
  lemma RegisterTwiceKeepsOneRecord(t: Table, hasher: Hasher, first: UserCreate, second: UserCreate, salt1: string, salt2: string)
    requires t.Valid() && hasher.Sound()
    requires first.email == second.email
    ensures var (r1, t1) := Register(t, hasher, first, salt1);
      var (r2, t2) := Register(t1, hasher, second, salt2);
      && r2 == Err(EmailAlreadyRegistered)
      && t2 == t1
      && (exists a :: a in t2.users && t2.users[a].email == first.email)
      && forall a, b ::
           (a in t2.users && b in t2.users && t2.users[a].email == first.email && t2.users[b].email == first.email)
           ==> a == b
  {
    RegisterOutcome(t, hasher, first, salt1);
    var (r1, t1) := Register(t, hasher, first, salt1);
    if r1.Ok? {
      RegisterStoresHash(t, hasher, first, salt1);
      GetByEmailSpec(t1, first.email);
    } else {
      GetByEmailSpec(t, first.email);
    }
    RegisterOutcome(t1, hasher, second, salt2);
    GetByEmailSpec(t1, first.email);
  }

  /**
   * Login succeeds exactly when some stored user has the e-mail and the
   * password verifies against the stored hash; every failure is the same
   * 401 "Invalid credentials".
   */
  lemma LoginOutcome(t: Table, hasher: Hasher, codec: TokenCodec, loginData: UserLogin, now: int)
    requires t.Valid()
    ensures Login(t, hasher, codec, loginData, now).Ok? <==>
              exists id :: id in t.users && t.users[id].email == loginData.email &&
                           hasher.verify(loginData.password, t.users[id].password)
    ensures Login(t, hasher, codec, loginData, now).Err? ==>
              Login(t, hasher, codec, loginData, now).error == InvalidCredentials
  {
    GetByEmailSpec(t, loginData.email);
    var found := t.GetByEmail(loginData.email);
    if found.Some? {
      forall id | id in t.users && t.users[id].email == loginData.email
        ensures t.users[id] == found.value
      {
        GetByEmailFindsRecord(t, id);
      }
    }
  }

  /**
   * `UserLogin` has no password validator: a password too short to register
   * with still logs in when it verifies against a stored hash, while the
   * same password is refused by `UserCreate`.
   */
  lemma ShortPasswordLogsIn(t: Table, hasher: Hasher, codec: TokenCodec, password: string, id: string, now: int)
    requires t.Valid()
    requires |password| < MinPasswordLength
    requires id in t.users && hasher.verify(password, t.users[id].password)
    ensures NewUserCreate(t.users[id].email, t.users[id].name, password).Err?
    ensures Login(t, hasher, codec, UserLogin(t.users[id].email, password), now).Ok?
  {
    LoginOutcome(t, hasher, codec, UserLogin(t.users[id].email, password), now);
  }

  /** An unknown e-mail and a wrong password are indistinguishable to the caller. */
  lemma LoginFailuresIndistinguishable(t: Table, hasher: Hasher, codec: TokenCodec,
                                       unknown: UserLogin, wrong: UserLogin, id: string, now: int, now': int)
    requires t.Valid()
    requires forall other :: other in t.users ==> t.users[other].email != unknown.email
    requires id in t.users && t.users[id].email == wrong.email
    requires !hasher.verify(wrong.password, t.users[id].password)
    ensures Login(t, hasher, codec, unknown, now) == Login(t, hasher, codec, wrong, now')
    ensures Login(t, hasher, codec, unknown, now) == Err(InvalidCredentials)
  {
    GetByEmailSpec(t, unknown.email);
    GetByEmailFindsRecord(t, id);
  }

  /**
   * The token a successful login issues carries the subject e-mail and an
   * expiration 30 minutes after `now`, and decodes to exactly that until then.
   */
  lemma LoginTokenClaims(t: Table, hasher: Hasher, codec: TokenCodec, loginData: UserLogin, now: int, later: int)
    requires t.Valid() && codec.Sound()
    requires Login(t, hasher, codec, loginData, now).Ok?
    ensures codec.decode(Login(t, hasher, codec, loginData, now).value, later) ==
              if later < now + AccessTokenExpireSeconds then
                Some(map[SubjectClaim := Text(loginData.email), ExpirationClaim := Instant(now + AccessTokenExpireSeconds)])
              else None
  {
    GetByEmailSpec(t, loginData.email);
    var user := t.GetByEmail(loginData.email).value;
    var data := map[SubjectClaim := Text(user.email)];
    AccessTokenRoundTrip(codec, data, Some(AccessTokenExpireSeconds), now, later);
    assert AccessClaims(data, Some(AccessTokenExpireSeconds), now) ==
           map[SubjectClaim := Text(loginData.email), ExpirationClaim := Instant(now + AccessTokenExpireSeconds)];
  }

  /**
   * Resolution fails with the one 401 "Could not validate credentials"
   * error, and succeeds only for a stored user, from a token that is the
   * encoding of an admissible payload whose subject is that user's e-mail.
   */
  lemma CurrentUserOutcome(t: Table, codec: TokenCodec, token: string, now: int)
    requires t.Valid() && codec.Sound()
    ensures CurrentUser(t, codec, token, now).Err? ==>
              CurrentUser(t, codec, token, now).error == CouldNotValidateCredentials
    ensures CurrentUser(t, codec, token, now).Ok? ==>
              var user := CurrentUser(t, codec, token, now).value;
              var payload := codec.decode(token, now).value;
              && user.id in t.users && t.users[user.id] == user
              && token == codec.encode(payload)
              && Admissible(payload, now)
              && payload[SubjectClaim] == Text(user.email)
  {
    var decoded := codec.decode(token, now);
    if decoded.Some? {
      var payload := decoded.value;
      assert codec.decode(codec.encode(payload), now) == decoded;
      if SubjectClaim in payload && payload[SubjectClaim].Text? {
        GetByEmailSpec(t, payload[SubjectClaim].text);
      }
    }
  }

  /** An encoded payload is resolved to the stored user named by its subject while it is admissible. */
  lemma CurrentUserAccepts(t: Table, codec: TokenCodec, payload: Claims, id: string, now: int)
    requires t.Valid() && codec.Sound()
    requires Admissible(payload, now)
    requires id in t.users && SubjectClaim in payload && payload[SubjectClaim] == Text(t.users[id].email)
    ensures CurrentUser(t, codec, codec.encode(payload), now) == Ok(t.users[id])
  {
    GetByEmailFindsRecord(t, id);
  }

  /** A token whose expiration time has been reached is refused. */
  lemma ExpiredTokenRejected(t: Table, codec: TokenCodec, payload: Claims, now: int)
    requires codec.Sound()
    requires ExpirationClaim in payload && payload[ExpirationClaim].Instant?
    requires payload[ExpirationClaim].seconds <= now
    ensures CurrentUser(t, codec, codec.encode(payload), now) == Err(CouldNotValidateCredentials)
  {
  }

  /**
   * The round trip: after registering (e-mail, name, password) on a store
   * without that e-mail, logging in with the same e-mail and password
   * yields a token that, until it expires, resolves to the registered
   * record; from its expiration time on it resolves to nothing.
   */
  lemma RegisterLoginResolve(t: Table, hasher: Hasher, codec: TokenCodec, data: UserCreate, salt: string,
                             now: int, later: int)
    requires t.Valid() && hasher.Sound() && codec.Sound()
    requires forall id :: id in t.users ==> t.users[id].email != data.email
    ensures var (registered, t') := Register(t, hasher, data, salt);
      var token := Login(t', hasher, codec, UserLogin(data.email, data.password), now);
      && registered.Ok?
      && registered.value.email == data.email && registered.value.name == data.name
      && token.Ok?
      && CurrentUser(t', codec, token.value, later) ==
           if later < now + AccessTokenExpireSeconds then Ok(registered.value) else Err(CouldNotValidateCredentials)
  {
    RegisterStoresHash(t, hasher, data, salt);
    var (registered, t') := Register(t, hasher, data, salt);
    var user := registered.value;
    var subject := map[SubjectClaim := Text(user.email)];
    var token := CreateAccessToken(codec, subject, Some(AccessTokenExpireSeconds), now);
    assert Login(t', hasher, codec, UserLogin(data.email, data.password), now) == Ok(token);
    AccessTokenRoundTrip(codec, subject, Some(AccessTokenExpireSeconds), now, later);
    if later < now + AccessTokenExpireSeconds {
      var claims := AccessClaims(subject, Some(AccessTokenExpireSeconds), now);
      assert claims[SubjectClaim] == Text(data.email);
    }
  }
}
