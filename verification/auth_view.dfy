/** The account service: sign-up and sign-in on top of the user model, and
    the payload of the session token they hand out. */
module AuthView {
  import opened Wrappers
  import opened JsText
  import opened UserModel

  /** Tokens expire 24 hours after they are issued. */
  const TokenLifetimeSeconds := 24 * 60 * 60

  /** A token's payload: `user_id` and `name`, plus the issue and expiry
      times (in seconds) the signer adds for `expiresIn: '24h'`. */
  datatype Claims = Claims(userId: int, name: string, issuedAt: int, expiresAt: int)

  /** `generateAuthToken`'s payload for a user, at `nowMs` milliseconds. */
  function TokenClaims(id: int, name: string, nowMs: int): (c: Claims)
    ensures c.userId == id && c.name == name
    ensures c.expiresAt - c.issuedAt == TokenLifetimeSeconds
    ensures c.issuedAt * 1000 <= nowMs < c.issuedAt * 1000 + 1000
  {
    var iat := nowMs / 1000;
    Claims(id, name, iat, iat + TokenLifetimeSeconds)
  }

  /** The user part of a session: id, name and email only. */
  datatype Account = Account(id: int, name: string, email: string)

  datatype Session = Session(token: string, user: Account)

  datatype AuthError =
    | MissingSignUpFields
    | EmailTaken
    | UserFailure(cause: UserError)
    | MissingCredentials
    | InvalidCredentials

  const MissingSignUpFieldsMessage := "Name, email, and password are required"
  const EmailTakenMessage := "This email is already registered"
  const MissingCredentialsMessage := "Email and password are required"
  const InvalidCredentialsMessage := "Invalid email or password"

  function Message(e: AuthError): string {
    match e
    case MissingSignUpFields => MissingSignUpFieldsMessage
    case EmailTaken => EmailTakenMessage
    case UserFailure(EmptyPassword) => "Password cannot be empty."
    case UserFailure(UniqueViolation) => "duplicate key value violates unique constraint"
    case UserFailure(NoSuchUser) => "Cannot read properties of undefined (reading 'otp')"
    case MissingCredentials => MissingCredentialsMessage
    case InvalidCredentials => InvalidCredentialsMessage
  }

  /** The `code` property of the thrown error. */
  function Code(e: AuthError): Option<string> {
    if e.UserFailure? then ErrorCode(e.cause) else None
  }

  /** The body of a sign-up request. */
  datatype SignUpBody = SignUpBody(name: Option<string>, email: Option<string>, password: Option<string>)

  /** The body of a sign-in request. */
  datatype Credentials = Credentials(email: Option<string>, password: Option<string>)

  /** `register`: rejects a missing field before touching the table, turns
      a duplicate email into its own error, and otherwise answers at once
      with a session for the new, still unverified, user. */
  function Register(t: UserTable, body: SignUpBody, hash: string -> string, draw: OtpDraw, nowMs: int,
                    sign: Claims -> string)
    : (r: (UserTable, Result<Session, AuthError>))
    ensures !(Truthy(body.name) && Truthy(body.email) && Truthy(body.password)) ==>
      r == (t, Err(MissingSignUpFields))
    ensures r.1.Err? ==> r.0.users == t.users
    ensures r.1.Err? && r.1.error != MissingSignUpFields ==>
      var (t', created) := Create(t, body.name.value, body.email.value, body.password.value, hash, draw, nowMs);
      && r.0 == t'
      && created.Err? && r.1.error == (if created.error == UniqueViolation then EmailTaken else UserFailure(created.error))
    ensures r.1.Ok? ==>
      var (t', created) := Create(t, body.name.value, body.email.value, body.password.value, hash, draw, nowMs);
      && created.Ok?
      && r.0 == t'
      && r.1.value.user == Account(t.nextId, body.name.value, body.email.value)
      && r.1.value.token == sign(TokenClaims(t.nextId, body.name.value, nowMs))
  {
    if !(Truthy(body.name) && Truthy(body.email) && Truthy(body.password)) then (t, Err(MissingSignUpFields))
    else
      var (t', created) := Create(t, body.name.value, body.email.value, body.password.value, hash, draw, nowMs);
      match created
      case Err(e) => (t', Err(if e == UniqueViolation then EmailTaken else UserFailure(e)))
      case Ok(nu) =>
        (t', Ok(Session(sign(TokenClaims(nu.id, nu.name, nowMs)), Account(nu.id, nu.name, nu.email))))
  }

  /** Sign-up of a taken email reports it as taken and creates nothing,
      though the failed insert has used up one id. */
  lemma RegisterTakenEmail(t: UserTable, body: SignUpBody, hash: string -> string, draw: OtpDraw, nowMs: int,
                           sign: Claims -> string, k: int)
    requires Truthy(body.name) && Truthy(body.email) && Truthy(body.password)
    requires 0 <= k < |t.users| && t.users[k].email == body.email.value
    ensures Register(t, body, hash, draw, nowMs, sign) == (t.(nextId := t.nextId + 1), Err(EmailTaken))
  {
  }

  /** A successful sign-up stores the user unverified, so the session is
      granted before the emailed code has been checked. */
  lemma RegisterSessionBeforeVerification(t: UserTable, body: SignUpBody, hash: string -> string, draw: OtpDraw,
                                          nowMs: int, sign: Claims -> string)
    requires Register(t, body, hash, draw, nowMs, sign).1.Ok?
    ensures var t' := Register(t, body, hash, draw, nowMs, sign).0;
      |t'.users| == |t.users| + 1 && !t'.users[|t.users|].isVerified
      && t'.users[|t.users|].id == Register(t, body, hash, draw, nowMs, sign).1.value.user.id
  {
  }

  /** User `u` holds the credentials and `session` is the one issued to it. */
  predicate Grants(u: User, body: Credentials, compare: (string, string) -> bool, nowMs: int,
                   sign: Claims -> string, session: Session)
  {
    && body.email == Some(u.email) && body.password.Some?
    && compare(body.password.value, u.passwordHash)
    && session == Session(sign(TokenClaims(u.id, u.name, nowMs)), Account(u.id, u.name, u.email))
  }

  /** `login`: the same error for an unknown email and for a wrong
      password; the verification flag is never looked at. */
  function Login(t: UserTable, body: Credentials, compare: (string, string) -> bool, nowMs: int,
                 sign: Claims -> string)
    : (r: Result<Session, AuthError>)
    ensures !(Truthy(body.email) && Truthy(body.password)) ==> r == Err(MissingCredentials)
    ensures Truthy(body.email) && Truthy(body.password) && FindByEmail(t, body.email.value).None? ==>
      r == Err(InvalidCredentials)
    ensures (Truthy(body.email) && Truthy(body.password) && FindByEmail(t, body.email.value).Some?
      && !compare(body.password.value, FindByEmail(t, body.email.value).value.passwordHash)) ==>
      r == Err(InvalidCredentials)
    ensures r.Ok? ==> body.email.Some? && body.password.Some?
    ensures r.Ok? ==> exists u :: u in t.users && Grants(u, body, compare, nowMs, sign, r.value)
  {
    if !(Truthy(body.email) && Truthy(body.password)) then Err(MissingCredentials)
    else
      var found := FindByEmail(t, body.email.value);
      if found.None? then Err(InvalidCredentials)
      else
        var u := found.value;
        if !VerifyPassword(compare, body.password.value, u.passwordHash) then Err(InvalidCredentials)
        else Ok(Session(sign(TokenClaims(u.id, u.name, nowMs)), Account(u.id, u.name, u.email)))
  }

  /** With unique emails, sign-in succeeds exactly when some user has that
      email and the password matches that user's hash; whether the user is
      verified plays no part. */
  lemma LoginSucceedsIff(t: UserTable, body: Credentials, compare: (string, string) -> bool, nowMs: int,
                         sign: Claims -> string)
    requires Valid(t)
    requires Truthy(body.email) && Truthy(body.password)
    ensures Login(t, body, compare, nowMs, sign).Ok? <==>
      exists k :: 0 <= k < |t.users| && t.users[k].email == body.email.value
        && compare(body.password.value, t.users[k].passwordHash)
  {
    var found := FindByEmail(t, body.email.value);
    if found.Some? {
      var j :| 0 <= j < |t.users| && t.users[j] == found.value;
      forall k | 0 <= k < |t.users| && t.users[k].email == body.email.value ensures k == j {
        assert t.users[k].email == t.users[j].email;
      }
    }
  }

  /** Looking an email up in a table where one flag was flipped finds the
      same user, up to that flag. */
  lemma {:induction false} FindEmailIgnoresFlag(s: seq<User>, k: int, verified: bool, email: string)
    requires 0 <= k < |s|
    ensures var a := FindUser(s, EmailKey(email));
      var b := FindUser(s[k := s[k].(isVerified := verified)], EmailKey(email));
      a.Some? == b.Some? && (a.Some? ==> b.value.(isVerified := a.value.isVerified) == a.value)
    decreases |s|
  {
    var s' := s[k := s[k].(isVerified := verified)];
    if s[0].email != email {
      if k == 0 {
        assert s'[1..] == s[1..];
      } else {
        assert s'[1..] == s[1..][k - 1 := s[k].(isVerified := verified)];
        FindEmailIgnoresFlag(s[1..], k - 1, verified, email);
      }
    }
  }

  /** Flipping a user's verification flag never changes a sign-in. */
  lemma LoginIgnoresVerification(t: UserTable, k: int, verified: bool, body: Credentials,
                                 compare: (string, string) -> bool, nowMs: int, sign: Claims -> string)
    requires 0 <= k < |t.users|
    ensures var t' := t.(users := t.users[k := t.users[k].(isVerified := verified)]);
      Login(t', body, compare, nowMs, sign) == Login(t, body, compare, nowMs, sign)
  {
    if Truthy(body.email) {
      FindEmailIgnoresFlag(t.users, k, verified, body.email.value);
    }
  }
}
