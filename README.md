# Authentication core: validators, user store, token service

A Dafny model of a small registration-and-login service. The model covers
three layers:

- the two registration validators of `UserCreate`;
- the in-memory `UserRepository`, a dictionary of users keyed by id plus a counter;
- the `UserService`, which does registration, password login issuing a JWT bearer
  token, and resolution of the current user from that token.

The model is written in Dafny. Its properties are proved with the Dafny verifier.

Files and modules:

- `wrappers.dfy` (`Wrappers`): `Option` and `Result`.
- `decimal.dfy` (`Decimal`): `Show`, Python's `str(n)` for the ids the store
  assigns, and its inverse `Parse`.
- `models.dfy` (`Models`): the record shapes and the validators. `Strip` is
  Python's `str.strip()` over Python's whitespace set. `UserCreate` is a
  subset type: like a pydantic instance, a value of it exists only once both
  validators have accepted it.
- `crypto.dfy` (`Crypto`): the two foreign libraries as pairs of functions
  supplied from outside.
  - `Hasher` is bcrypt through passlib. Its `Sound()` contract:
    `verify(p, hash(p, salt))` holds, `hash(p, salt) != p`, and a hash has 60
    characters.
  - `TokenCodec` is JWT through python-jose. Its `Sound()` contract: decoding
    `encode(claims)` at time `now` gives back the claims exactly when they are
    `Admissible`, and a token only decodes if it is the encoding of what it
    decodes to (the signature).
  - `Admissible` means: a `sub` claim, if present, is a string (section 4.1.2
    of RFC 7519); the current time is before the `exp` claim, if present
    (section 4.1.4 of RFC 7519).
- `user_repository.dfy` (`Repository`): `Table` is the store's state as a
  value, with `Valid()` as the store invariant:
  - ids str(1) .. str(counter) are exactly the keys;
  - every key is its record's id;
  - no two records share an e-mail.

  `Table` also gives the meaning of `create`, `get_by_email`, `get_by_id` and
  `get_all` as functions. The class `UserRepository` has the source's two
  attributes, and its methods run the source's loops. Python dictionaries
  iterate in insertion order, and ids are inserted in counter order, so
  every scan goes over ids str(1) .. str(counter).
- `user_service.dfy` (`Service`): `Register`, `Login` and `CurrentUser` give
  the meaning of each request on a store value. The class `UserService`
  holds the repository object and performs the requests against it. The
  lemmas state the error paths and the round trip register → login →
  resolve.

The clock is an explicit argument `now`, in whole seconds. bcrypt's random
salt is an explicit argument `salt`. Errors are values of `AuthError`:
`HttpError(status, detail)` for an `HTTPException`, and
`ValidationError(messages)` for a pydantic validation failure.

Three behaviours of the code worth noting:
- A zero `expires_delta` is falsy, so `create_access_token` gives it the
  default 30-minute lifetime (`ExpirySeconds`). It does not issue an
  already-expired token.
- When the store's `create` returns None after the duplicate check passed,
  the code raises 500 "Failed to create user", not a duplicate-e-mail error.
  `RegisterOutcome` proves that in sequential use this branch is never
  reached.
- Name and password are validated when the `UserCreate` request object is
  built, not inside `register_user`. `register_user` builds a second
  `UserCreate` carrying the hash, which runs the validators again. That
  branch is modelled, and `RegisterOutcome` proves it never fails under the
  hasher contract.

## Model

| member | source | states |
|---|---|---|
| `Decimal.Show` | app/repositories/user_repository.py:20 | `str(counter)` is non-empty and has a leading zero only for 0 |
| `Decimal.ShowDigits` | app/repositories/user_repository.py:20 | every character of `str(counter)` is a decimal digit |
| `Decimal.ParseShow` | app/repositories/user_repository.py:19-20 | reading an assigned id back as a number gives the counter value it was made from |
| `Decimal.ShowInjective` | app/repositories/user_repository.py:19-20 | two counter values give the same id exactly when they are equal |
| `Models.TrimStart` | app/models/user.py:14 | drops a leading whitespace run: the result is a suffix, the removed prefix is all whitespace, the result is empty iff the input is all whitespace, and otherwise starts with a non-space |
| `Models.TrimEnd` | app/models/user.py:14 | drops a trailing whitespace run: the result is a prefix, the removed suffix is all whitespace, the result is empty iff the input is all whitespace, and otherwise ends with a non-space |
| `Models.Strip` | app/models/user.py:14 | `v.strip()` is empty exactly when every character of `v` is Python whitespace; otherwise it starts and ends with a non-space |
| `Models.NameMustNotBeEmpty` | app/models/user.py:12-16 | a name is rejected with "Name cannot be empty" iff it is empty or all whitespace; an accepted name is returned unchanged, not trimmed |
| `Models.PasswordMustBeStrong` | app/models/user.py:18-22 | a password is rejected with "Password must be at least 8 characters" iff it has fewer than 8 characters; otherwise it is returned unchanged |
| `Models.NewUserCreate` | app/models/user.py:8-22 | building a `UserCreate` succeeds iff both validators accept, keeps the fields as given, and otherwise reports the message of each failing validator |
| `Models.IsSpace` | app/models/user.py:14 | the characters `str.isspace()` accepts, which `str.strip()` removes: code points 9-13, 28-32, 0x85, 0xA0, 0x1680, 0x2000-0x200A, 0x2028, 0x2029, 0x202F, 0x205F, 0x3000 |
| `Crypto.Admissible` | app/services/user_service.py:100 | the claim checks `jwt.decode` applies: a present `sub` must be a string, and a present `exp` must be a time after now |
| `Crypto.SoundHasherExists` | app/services/user_service.py:15-26 | the assumed hasher contract is satisfiable |
| `Repository.Table.GetByEmail` | app/repositories/user_repository.py:34-38 | the first record, in insertion order, with the e-mail; its meaning is stated by `GetByEmailSpec` |
| `Repository.Table.GetById` | app/repositories/user_repository.py:40-41 | `users.get(user_id)`; stated by `GetByIdSpec` |
| `Repository.Table.GetAll` | app/repositories/user_repository.py:43-44 | `list(users.values())`, as the records of ids str(1) .. str(counter); stated by `GetAllSpec` |
| `Repository.Table.Create` | app/repositories/user_repository.py:12-32 | `create` on a store value: None and no change for a taken e-mail, else the record under id str(counter + 1); stated by `CreateRejectsDuplicate`, `CreateInsertsNew` and `CreateKeepsValid` |
| `Repository.EmptyTableValid` | app/repositories/user_repository.py:7-10 | a fresh store (no users, counter 0) satisfies the invariant and lists no users |
| `Repository.ScanEmailSpec` | app/repositories/user_repository.py:34-38 | the scan from a position finds nothing iff no later id's record has the e-mail, and otherwise finds a stored record with it |
| `Repository.GetByEmailSpec` | app/repositories/user_repository.py:34-38 | `get_by_email` returns None iff no stored record has the e-mail; otherwise it returns a record stored under its own id with that e-mail |
| `Repository.GetByEmailFindsRecord` | app/repositories/user_repository.py:34-38 | every stored record is exactly what `get_by_email` returns for its e-mail |
| `Repository.GetByIdSpec` | app/repositories/user_repository.py:40-41 | `get_by_id` finds a record iff the id is a key, and the record carries that id |
| `Repository.ListingSpec` | app/repositories/user_repository.py:43-44 | the first k records in insertion order are those of ids str(1) .. str(k) |
| `Repository.GetAllSpec` | app/repositories/user_repository.py:43-44 | `get_all` returns exactly the stored records, in id order, one per successful create |
| `Repository.NextIdFresh` | app/repositories/user_repository.py:19-31 | the id str(counter + 1) is never already a key, so the insert overwrites nothing |
| `Repository.CreateRejectsDuplicate` | app/repositories/user_repository.py:14-16 | `create` with an e-mail already stored returns None and leaves the records and the counter unchanged |
| `Repository.CreateInsertsNew` | app/repositories/user_repository.py:18-32 | `create` with a new e-mail bumps the counter by one and assigns id str(counter); the record copies name, e-mail and password and is stored under its id; both lookups then return it, and `get_all` gains it at the end |
| `Repository.InsertAppends` | app/repositories/user_repository.py:31-44 | storing the record under the next id appends it to `get_all` and keeps all earlier records in place |
| `Repository.CreateKeepsValid` | app/repositories/user_repository.py:12-32 | every `create` preserves e-mail uniqueness, keys equal to ids, and ids str(1) .. str(counter) as the keys |
| `Repository.InsertKeepsValid` | app/repositories/user_repository.py:18-32 | inserting a record with a new e-mail under id str(counter + 1) and bumping the counter preserves the invariant |
| `Repository.InsertKeepsIds` | app/repositories/user_repository.py:19-31 | after storing under str(counter + 1) with the counter bumped, ids str(1) .. str(counter) are still exactly the keys and every key is its record's id |
| `Repository.InsertKeepsEmailsUnique` | app/repositories/user_repository.py:14-16 | a record whose e-mail is new keeps e-mails unique when stored |
| `Repository.UserRepository.constructor` | app/repositories/user_repository.py:7-10 | a new repository has no users and counter 0 |
| `Repository.UserRepository.Create` | app/repositories/user_repository.py:12-32 | the duplicate scan and the insert compute `Table.Create`, and the invariant is kept |
| `Repository.UserRepository.GetByEmail` | app/repositories/user_repository.py:34-38 | the scan over the values returns the first record in insertion order with the e-mail |
| `Repository.UserRepository.GetById` | app/repositories/user_repository.py:40-41 | returns the record stored under the id, if any, and it carries that id |
| `Repository.UserRepository.GetAll` | app/repositories/user_repository.py:43-44 | returns the records in insertion order |
| `Service.VerifyPassword` | app/services/user_service.py:22-23 | `pwd_context.verify`: the hasher's verify on (plaintext, stored hash); its assumed contract is `Hasher.Sound()` |
| `Service.GetPasswordHash` | app/services/user_service.py:25-26 | the stored form is never the plaintext and verifies against it |
| `Service.ExpirySeconds` | app/services/user_service.py:28-34 | a token lives for `expires_delta` when that is given and non-zero, and otherwise for 30 minutes |
| `Service.AccessClaims` | app/services/user_service.py:28-36 | the signed payload is a copy of `data` with `exp` set to now plus the lifetime; every other claim is kept |
| `Service.CreateAccessToken` | app/services/user_service.py:28-38 | the encoding of `AccessClaims`; its meaning is stated by `AccessTokenRoundTrip` |
| `Service.AccessTokenRoundTrip` | app/services/user_service.py:28-38 | an issued token decodes to its payload before its expiry, and fails to decode from then on |
| `Service.Register` | app/services/user_service.py:40-68 | `register_user` on a store value; stated by `RegisterOutcome`, `RegisterStoresHash` and `RegisterTwiceKeepsOneRecord` |
| `Service.Login` | app/services/user_service.py:70-89 | `login_user` on a store value; stated by `LoginOutcome`, `LoginFailuresIndistinguishable`, `LoginTokenClaims` and `ShortPasswordLogsIn` |
| `Service.CurrentUser` | app/services/user_service.py:91-116 | `get_current_user` on a store value; stated by `CurrentUserOutcome`, `CurrentUserAccepts` and `ExpiredTokenRejected` |
| `Service.RegisterOutcome` | app/services/user_service.py:40-68 | registration succeeds iff the e-mail is new; its only error is 400 "Email already registered", with the store unchanged; the 500 and re-validation branches are unreachable; the invariant is kept |
| `Service.RegisterStoresHash` | app/services/user_service.py:50-60 | a successful registration stores the e-mail, the name and `hash(password)` under a fresh id; the stored hash is not the plaintext and verifies against it |
| `Service.RegisterTwiceKeepsOneRecord` | app/services/user_service.py:42-47 | registering the same e-mail again fails with "Email already registered", leaves the store as it was, and exactly one record has that e-mail |
| `Service.LoginOutcome` | app/services/user_service.py:70-80 | login succeeds iff a stored user has the e-mail and the password verifies against its hash; every failure is 401 "Invalid credentials" |
| `Service.ShortPasswordLogsIn` | app/models/user.py:25-26 | `UserLogin` has no password validator: a password shorter than 8 characters is refused by `UserCreate`, yet logs in when it verifies against a stored user's hash |
| `Service.LoginFailuresIndistinguishable` | app/services/user_service.py:75-80 | an unknown e-mail and a wrong password give the same error |
| `Service.LoginTokenClaims` | app/services/user_service.py:83-89 | the login token decodes to `sub` = the e-mail and `exp` = now + 30 minutes until then, and to nothing from then on |
| `Service.CurrentUserOutcome` | app/services/user_service.py:91-116 | every failure is the one 401 "Could not validate credentials"; a success is a stored user, from a token that encodes an admissible payload whose subject is that user's e-mail |
| `Service.CurrentUserAccepts` | app/services/user_service.py:98-116 | an admissible encoded payload whose subject names a stored user resolves to that user |
| `Service.ExpiredTokenRejected` | app/services/user_service.py:98-107 | a token whose expiration time has been reached fails with "Could not validate credentials" |
| `Service.RegisterLoginResolve` | app/services/user_service.py:40-116 | after registering a new e-mail, login with the same credentials yields a token that resolves to the registered record until it expires, and fails from then on |
| `Service.UserService.constructor` | app/services/user_service.py:19-20 | the service keeps the repository it is given |
| `Service.UserService.RegisterUser` | app/services/user_service.py:40-68 | performs `Register` on the repository's store and keeps the invariant |
| `Service.UserService.LoginUser` | app/services/user_service.py:70-89 | returns what `Login` gives on the repository's store |
| `Service.UserService.GetCurrentUser` | app/services/user_service.py:91-116 | returns what `CurrentUser` gives on the repository's store |

## Left out

- bcrypt, through passlib, is the abstract `Hasher`:
  - cost factor, salt generation and constant-time comparison are not modelled;
  - bcrypt ignores password bytes past 72, so `verify(p2, hash(p)) == false` for every `p2 != p` is not assumed.
- JWT, through python-jose, is the abstract `TokenCodec`:
  - HS256 signing, base64url and JSON are not modelled, nor is the secret string;
  - `Admissible` checks only `sub` and `exp`; the other registered claims (`nbf`, `iat`, `aud`, …) are not modelled;
  - acceptance follows section 4.1.4 of RFC 7519 (now before `exp`); python-jose's leeway setting, and its acceptance of a token at exactly its `exp` second, are not modelled;
  - only `SoundHasherExists` shows that an assumed contract is satisfiable; no such lemma is given for the codec.
- The clock: `datetime.utcnow()` is the argument `now`, in whole seconds; sub-second precision is not modelled.
- `ExpirySeconds`: `expires_delta` is whole seconds; a truthy timedelta shorter than a second (say one microsecond) would be `Some(0)` here and get the 30-minute default, while the code gives it that sub-second lifetime.
- E-mail syntax (pydantic `EmailStr`): an e-mail is an opaque string compared by exact, case-sensitive equality. `EmailStr` also normalises the address (it strips surrounding whitespace, accepts `Name <addr>`, lowercases the domain), so the program stores and compares normalised addresses; the model's e-mails stand for addresses already normalised, and "keeps the fields as given" in `NewUserCreate` holds for the e-mail only in that sense.
- The `WWW-Authenticate` header of the 401 errors is not modelled.
- pydantic's wording and grouping of validation errors: each failing validator contributes its bare message.
- The `Token` response model and the HTTP routes (app/api/auth.py, app/main.py) are not part of this model.
- Concurrency: every operation runs alone. The check-then-insert race between `register_user` and `create` is not modelled.
- `TokenData` defaults to no e-mail (`DefaultTokenData`, app/models/user.py:43-44); `get_current_user` always builds it with the subject, so the default is never used by the service.
- `verify_password`, `get_password_hash` and `create_access_token` are module functions that take the hasher or codec as an argument. They read no state of the service object.
