/** The `/api` account routes and the statuses they answer with. */
module AuthRoutes {
  import opened Wrappers
  import opened UserModel
  import opened AuthView

  datatype Body = SessionBody(session: Session) | ErrorBody(error: string)

  datatype Response = Response(status: nat, body: Body)

  /** A thrown error as the handlers inspect it: its `code` and `message`. */
  datatype Thrown = Thrown(code: Option<string>, message: string)

  function ThrownOf(e: AuthError): Thrown {
    Thrown(Code(e), Message(e))
  }

  const MailFailedMessage := "Could not send verification email. Please try again later."
  const RegistrationFailedMessage := "Registration failed due to a server error."
  const LoginFailedMessage := "Login failed due to a server error."
  const VerifyOtpMissing := "AuthView.verifyOtp is not a function"
  const ResendOtpMissing := "AuthView.resendOtp is not a function"

  /** The mail-transport error codes the sign-up handler singles out. */
  predicate IsMailCode(code: Option<string>) {
    code == Some("EAUTH") || code == Some("EENVELOPE")
  }

  /** The sign-up handler's `catch`: the taken email is 409, a mail
      failure is 500 with its own text, anything else a generic 500. */
  function SignUpFailure(e: Thrown): (r: Response)
    ensures e.message == EmailTakenMessage ==> r == Response(409, ErrorBody(EmailTakenMessage))
    ensures e.message != EmailTakenMessage && IsMailCode(e.code) ==> r == Response(500, ErrorBody(MailFailedMessage))
    ensures e.message != EmailTakenMessage && !IsMailCode(e.code) ==> r == Response(500, ErrorBody(RegistrationFailedMessage))
  {
    if e.message == EmailTakenMessage then Response(409, ErrorBody(e.message))
    else if IsMailCode(e.code) then Response(500, ErrorBody(MailFailedMessage))
    else Response(500, ErrorBody(RegistrationFailedMessage))
  }

  /** POST `/signUp`. */
  function SignUp(t: UserTable, body: SignUpBody, hash: string -> string, draw: OtpDraw, nowMs: int,
                  sign: Claims -> string)
    : (r: (UserTable, Response))
    ensures var (t', result) := Register(t, body, hash, draw, nowMs, sign);
      && r.0 == t'
      && (result.Ok? ==> r.1 == Response(200, SessionBody(result.value)))
      && (result.Err? ==> r.1 == SignUpFailure(ThrownOf(result.error)))
  {
    var (t', result) := Register(t, body, hash, draw, nowMs, sign);
    match result
    case Ok(session) => (t', Response(200, SessionBody(session)))
    case Err(e) => (t', SignUpFailure(ThrownOf(e)))
  }

  /** Sign-up never fails with the mail message, since registering sends
      no mail; a taken email is 409 and a missing field a generic 500. */
  lemma SignUpStatuses(t: UserTable, body: SignUpBody, hash: string -> string, draw: OtpDraw, nowMs: int,
                       sign: Claims -> string)
    ensures var r := SignUp(t, body, hash, draw, nowMs, sign).1;
      && r.body != ErrorBody(MailFailedMessage)
      && (r.status == 409 <==> Register(t, body, hash, draw, nowMs, sign).1 == Err(EmailTaken))
      && (Register(t, body, hash, draw, nowMs, sign).1 == Err(MissingSignUpFields) ==>
            r == Response(500, ErrorBody(RegistrationFailedMessage)))
  {
    var result := Register(t, body, hash, draw, nowMs, sign).1;
    if result.Err? {
      var e := result.error;
      assert MissingSignUpFieldsMessage[0] != EmailTakenMessage[0];
      assert !IsMailCode(Code(e));
    }
  }

  /** POST `/verify-otp`: the handler calls a service function that does
      not exist, so every request is 400 with the resulting type error and
      no user is touched. */
  function VerifyOtpRoute(t: UserTable): (r: (UserTable, Response))
    ensures r.0 == t && r.1.status == 400
    ensures r.1.body == ErrorBody(VerifyOtpMissing)
  {
    (t, Response(400, ErrorBody(VerifyOtpMissing)))
  }

  /** POST `/resend-otp`: likewise always 400. */
  function ResendOtpRoute(t: UserTable): (r: (UserTable, Response))
    ensures r.0 == t && r.1.status == 400
    ensures r.1.body == ErrorBody(ResendOtpMissing)
  {
    (t, Response(400, ErrorBody(ResendOtpMissing)))
  }

  /** POST `/signIn`: bad credentials are 401; anything else that fails,
      missing fields included, is a generic 500. */
  function SignIn(t: UserTable, body: Credentials, compare: (string, string) -> bool, nowMs: int,
                  sign: Claims -> string)
    : (r: Response)
    ensures Login(t, body, compare, nowMs, sign).Ok? ==>
      r == Response(200, SessionBody(Login(t, body, compare, nowMs, sign).value))
    ensures r.status == 401 <==> Login(t, body, compare, nowMs, sign) == Err(InvalidCredentials)
    ensures r.status == 401 ==> r.body == ErrorBody(InvalidCredentialsMessage)
    ensures Login(t, body, compare, nowMs, sign).Err? && r.status != 401 ==>
      r == Response(500, ErrorBody(LoginFailedMessage))
  {
    match Login(t, body, compare, nowMs, sign)
    case Ok(session) => Response(200, SessionBody(session))
    case Err(e) =>
      assert e != InvalidCredentials ==> Message(e) != InvalidCredentialsMessage by {
        assert MissingCredentialsMessage[0] != InvalidCredentialsMessage[0];
      }
      if Message(e) == InvalidCredentialsMessage then Response(401, ErrorBody(Message(e)))
      else Response(500, ErrorBody(LoginFailedMessage))
  }

  /** Missing credentials are a 500, not a 400. */
  lemma SignInMissingFieldsIs500(t: UserTable, password: Option<string>, compare: (string, string) -> bool,
                                 nowMs: int, sign: Claims -> string)
    ensures SignIn(t, Credentials(None, password), compare, nowMs, sign) == Response(500, ErrorBody(LoginFailedMessage))
  {
  }

  /** An unknown email and a wrong password get the very same answer. */
  lemma SignInDoesNotRevealEmails(t: UserTable, unknown: string, k: int, wrong: string,
                                  compare: (string, string) -> bool, nowMs: int, sign: Claims -> string)
    requires unknown != "" && wrong != ""
    requires forall j :: 0 <= j < |t.users| ==> t.users[j].email != unknown
    requires Valid(t) && 0 <= k < |t.users| && t.users[k].email != ""
    requires !compare(wrong, t.users[k].passwordHash)
    ensures SignIn(t, Credentials(Some(unknown), Some(wrong)), compare, nowMs, sign)
         == SignIn(t, Credentials(Some(t.users[k].email), Some(wrong)), compare, nowMs, sign)
         == Response(401, ErrorBody(InvalidCredentialsMessage))
  {
    var found := FindByEmail(t, t.users[k].email);
    var j :| 0 <= j < |t.users| && t.users[j] == found.value;
    assert t.users[j].email == t.users[k].email;
    assert j == k;
  }
}
