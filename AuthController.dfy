/** The authentication endpoints: they map what sign-up and login return or throw to
    an HTTP status and a body. */
module AuthController {
  import opened Platform
  import opened JwtUtil
  import opened UserEntity
  import opened UserService
  import opened SecurityConfig

  /** The body of a `ResponseEntity<?>` here: a response object or a plain text. */
  datatype AuthBody = SignUpBody(signUp: SignUpResponse) | LoginBody(login: LoginResponse) | Text(text: Option<string>)

  const MSG_SIGNUP_FAILED: string := "회원가입 중 오류가 발생했습니다"
  const MSG_LOGIN_FAILED: string := "로그인 중 오류가 발생했습니다"

  /** The `signUp` endpoint's try/catch: success is 201 with the service's response,
      an IllegalArgumentException is 400 with its message, anything else is 500 with a
      fixed text that does not depend on the exception. */
  function SignUpEntity(outcome: Outcome<SignUpResponse>): (r: ResponseEntity<AuthBody>)
    ensures r.status == HTTP_CREATED <==> outcome.Normal?
    ensures outcome.Normal? ==> r.body == SignUpBody(outcome.value)
    ensures r.status == HTTP_BAD_REQUEST <==> outcome.Thrown? && outcome.exception.kind == IllegalArgument
    ensures r.status == HTTP_BAD_REQUEST ==> r.body == Text(outcome.exception.message)
    ensures r.status == HTTP_INTERNAL_SERVER_ERROR <==> outcome.Thrown? && outcome.exception.kind != IllegalArgument
    ensures r.status == HTTP_INTERNAL_SERVER_ERROR ==> r.body == Text(Some(MSG_SIGNUP_FAILED))
  {
    match outcome
    case Normal(response) => ResponseEntity(HTTP_CREATED, SignUpBody(response))
    case Thrown(e) =>
      if e.kind == IllegalArgument then ResponseEntity(HTTP_BAD_REQUEST, Text(e.message))
      else ResponseEntity(HTTP_INTERNAL_SERVER_ERROR, Text(Some(MSG_SIGNUP_FAILED)))
  }

  /** The `login` endpoint's try/catch: success is 200 with the service's response,
      an IllegalArgumentException is 400 with its message, anything else is 500 with a
      fixed text. */
  function LoginEntity(outcome: Outcome<LoginResponse>): (r: ResponseEntity<AuthBody>)
    ensures r.status == HTTP_OK <==> outcome.Normal?
    ensures outcome.Normal? ==> r.body == LoginBody(outcome.value)
    ensures r.status == HTTP_BAD_REQUEST <==> outcome.Thrown? && outcome.exception.kind == IllegalArgument
    ensures r.status == HTTP_BAD_REQUEST ==> r.body == Text(outcome.exception.message)
    ensures r.status == HTTP_INTERNAL_SERVER_ERROR <==> outcome.Thrown? && outcome.exception.kind != IllegalArgument
    ensures r.status == HTTP_INTERNAL_SERVER_ERROR ==> r.body == Text(Some(MSG_LOGIN_FAILED))
  {
    match outcome
    case Normal(response) => ResponseEntity(HTTP_OK, LoginBody(response))
    case Thrown(e) =>
      if e.kind == IllegalArgument then ResponseEntity(HTTP_BAD_REQUEST, Text(e.message))
      else ResponseEntity(HTTP_INTERNAL_SERVER_ERROR, Text(Some(MSG_LOGIN_FAILED)))
  }

  /** Through the service, a sign-up with a taken username or email is 400 with the
      service's message; otherwise it is 201 and echoes the new record. */
  lemma SignUpEndpoint(users: UserTable, encoder: PasswordEncoder, req: SignUpRequest, id: nat)
    ensures var r := SignUpEntity(SignUpResult(users, encoder, req, id).0);
      && (ExistsByUsername(users, req.username) ==>
            r == ResponseEntity(HTTP_BAD_REQUEST, Text(Some(MSG_DUPLICATE_USERNAME))))
      && (!ExistsByUsername(users, req.username) && ExistsByEmail(users, req.email) ==>
            r == ResponseEntity(HTTP_BAD_REQUEST, Text(Some(MSG_DUPLICATE_EMAIL))))
      && (!ExistsByUsername(users, req.username) && !ExistsByEmail(users, req.email) ==>
            r == ResponseEntity(HTTP_CREATED, SignUpBody(SignUpResponse(Some(id), req.username, req.email, MSG_SIGNUP_OK))))
  {
    SignUpOutcome(users, encoder, req, id);
  }

  /** Sign up, log in, then call a protected path with "Bearer <token>": the three steps
      give 201, 200 and an allowed request while the token's lifetime lasts, and a denied
      request once it is over or when the username is blank (the token then has no
      subject). */
  lemma {:induction false} SignUpLoginThenAccess(users: UserTable, encoder: PasswordEncoder, jwt: JwtConfig, codec: Codec,
                                                  req: SignUpRequest, id: nat, loginAt: Long, uri: string, now: Long)
    requires TableInvariant(users) && IdUnused(users, id)
    requires !ExistsByUsername(users, req.username) && !ExistsByEmail(users, req.email)
    requires forall p :: encoder.matches(p, encoder.encode(p))
    requires RoundTrips(codec)
    requires !PublicPath(uri)
    ensures var (signUp, after) := SignUpResult(users, encoder, req, id);
      var login := LoginResult(after, encoder, jwt, codec, LoginRequest(req.username, req.password), loginAt);
      && SignUpEntity(signUp).status == HTTP_CREATED
      && LoginEntity(login).status == HTTP_OK
      && login.Normal?
      && (RequestAllowed(jwt, codec, HttpRequest(uri, Some(BEARER_PREFIX + login.value.token)), None, now)
          <==> HasText(Some(req.username)) && !(AddLong(loginAt, jwt.expiration) < now))
  {
    SignUpOutcome(users, encoder, req, id);
    SignUpThenLogin(users, encoder, jwt, codec, req, id, loginAt);
    IssuedTokenOnProtectedPath(jwt, codec, req.username, loginAt, uri, now);
  }
}
