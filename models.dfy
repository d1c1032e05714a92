/**
 * Record shapes of the authentication core and the two registration
 * validators (app/models/user.py).  E-mail syntax (pydantic's EmailStr) is
 * not modelled: an e-mail is an opaque string compared by exact equality.
 */
module Models {
  import opened Wrappers

  const MinPasswordLength := 8
  const NameEmptyMessage := "Name cannot be empty"
  const PasswordWeakMessage := "Password must be at least 8 characters"

  /** The characters Python's `str.strip()` removes (those for which `str.isspace()` holds). */
  predicate IsSpace(c: char)
  {
    var n := c as int;
    (9 <= n <= 13) || (28 <= n <= 32) || n == 0x85 || n == 0xA0 || n == 0x1680 ||
    (0x2000 <= n <= 0x200A) || n == 0x2028 || n == 0x2029 || n == 0x202F ||
    n == 0x205F || n == 0x3000
  }

  predicate AllSpace(s: string)
  {
    forall i :: 0 <= i < |s| ==> IsSpace(s[i])
  }

  /** Drops the longest all-whitespace prefix. */
  function TrimStart(s: string): (r: string)
    ensures |r| <= |s| && r == s[|s| - |r|..]
    ensures AllSpace(s[..|s| - |r|])
    ensures r == [] <==> AllSpace(s)
    ensures r == [] || !IsSpace(r[0])
  {
    if s != [] && IsSpace(s[0]) then
      var r := TrimStart(s[1..]);
      assert forall i :: 0 < i < |s| - |r| ==> s[i] == s[1..][..|s| - 1 - |r|][i - 1];
      r
    else s
  }

  /** Drops the longest all-whitespace suffix. */
  function TrimEnd(s: string): (r: string)
    ensures |r| <= |s| && r == s[..|r|]
    ensures AllSpace(s[|r|..])
    ensures r == [] <==> AllSpace(s)
    ensures r == [] || !IsSpace(r[|r| - 1])
  {
    if s != [] && IsSpace(s[|s| - 1]) then
      var r := TrimEnd(s[..|s| - 1]);
      assert forall i :: |r| <= i < |s| - 1 ==> s[i] == s[..|s| - 1][|r|..][i - |r|];
      r
    else s
  }

  /** Python's `s.strip()`. */
  function Strip(s: string): (r: string)
    ensures r == [] <==> AllSpace(s)
    ensures r == [] || (!IsSpace(r[0]) && !IsSpace(r[|r| - 1]))
  {
    TrimEnd(TrimStart(s))
  }

  /** `UserCreate.name_must_not_be_empty`: rejects a name that is empty after trimming, else keeps it as given. */
  function NameMustNotBeEmpty(v: string): (r: Result<string, string>)
    ensures r.Ok? <==> !AllSpace(v)
    ensures r.Ok? ==> r.value == v
    ensures r.Err? ==> r.error == NameEmptyMessage
  {
    if v == [] || Strip(v) == [] then Err(NameEmptyMessage) else Ok(v)
  }

  /** `UserCreate.password_must_be_strong`: only the length (in code points) is checked. */
  function PasswordMustBeStrong(v: string): (r: Result<string, string>)
    ensures r.Ok? <==> |v| >= MinPasswordLength
    ensures r.Ok? ==> r.value == v
    ensures r.Err? ==> r.error == PasswordWeakMessage
  {
    if |v| < MinPasswordLength then Err(PasswordWeakMessage) else Ok(v)
  }

  /** The fields of a registration request before validation. */
  datatype UserCreateInput = UserCreateInput(email: string, name: string, password: string)

  predicate PassesValidators(u: UserCreateInput)
  {
    NameMustNotBeEmpty(u.name).Ok? && PasswordMustBeStrong(u.password).Ok?
  }

  /** A `UserCreate` instance: pydantic only lets one exist once both validators accepted it. */
  type UserCreate = u: UserCreateInput | PassesValidators(u)
    witness UserCreateInput("", "user", "password")

  /**
   * Constructing `UserCreate(email=..., name=..., password=...)`: each field
   * validator runs and every failing one contributes its message.
   */
  function NewUserCreate(email: string, name: string, password: string): (r: Result<UserCreate, seq<string>>)
    ensures r.Ok? <==> !AllSpace(name) && |password| >= MinPasswordLength
    ensures r.Ok? ==> r.value == UserCreateInput(email, name, password)
    ensures r.Err? ==> r.error == (if AllSpace(name) then [NameEmptyMessage] else []) +
                                  (if |password| < MinPasswordLength then [PasswordWeakMessage] else [])
  {
    var nameCheck := NameMustNotBeEmpty(name);
    var passwordCheck := PasswordMustBeStrong(password);
    if nameCheck.Ok? && passwordCheck.Ok? then
      Ok(UserCreateInput(email, nameCheck.value, passwordCheck.value))
    else
      Err((if nameCheck.Err? then [nameCheck.error] else []) +
          (if passwordCheck.Err? then [passwordCheck.error] else []))
  }

  /** A login request: no validator, so any password string is admitted. */
  datatype UserLogin = UserLogin(email: string, password: string)

  /** A stored user; `password` holds the hash once the service has stored it. */
  datatype UserInDB = UserInDB(id: string, email: string, name: string, password: string)

  /** The subject extracted from a token; absent unless given. */
  datatype TokenData = TokenData(email: Option<string>)

  const DefaultTokenData := TokenData(None)
}
