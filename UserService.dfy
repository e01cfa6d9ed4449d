/** The credential flows: sign-up checks the username and then the email against the
    user table and only then writes the one new record; login looks the user up,
    checks the password against the stored digest and issues a token. */
module UserService {
  import opened Platform
  import opened JwtUtil
  import opened UserEntity

  datatype SignUpRequest = SignUpRequest(username: string, email: string, password: string)
  datatype LoginRequest = LoginRequest(username: string, password: string)
  datatype SignUpResponse = SignUpResponse(id: Option<nat>, username: string, email: string, message: string)
  datatype LoginResponse = LoginResponse(token: string, username: string, message: string)

  /** The password encoder: `encode(plain)` gives a digest, `matches(plain, digest)`
      checks one. Nothing is assumed about how they relate unless a lemma says so. */
  datatype PasswordEncoder = PasswordEncoder(encode: string -> string, matches: (string, string) -> bool)

  const MSG_DUPLICATE_USERNAME: string := "이미 존재하는 사용자 명입니다."
  const MSG_DUPLICATE_EMAIL: string := "이미 존재하는 이메일 입니다."
  const MSG_SIGNUP_OK: string := "회원가입이 성공적으로 완료되었습니다"
  const MSG_UNKNOWN_USER: string := "존재하지 않는 사용자명입니다."
  const MSG_WRONG_PASSWORD: string := "비밀번호가 일치하지 않습니다."
  const MSG_LOGIN_OK: string := "로그인이 성공적으로 완료되었습니다."

  function IllegalArgumentException(message: string): Exception {
    Exception(IllegalArgument, Some(message))
  }

  /** The record sign-up builds before saving it: no id yet, the encoded password and
      the role USER. */
  function NewUser(encoder: PasswordEncoder, req: SignUpRequest): User {
    User(None, req.username, encoder.encode(req.password), req.email, Some(USER))
  }

  /** What `signUp` returns or throws, and the table afterwards, when the store hands
      out `id` for the next saved record. A failure leaves the table as it was; a
      success keeps every earlier record in place, appends one, and reports its id. */
  function SignUpResult(users: UserTable, encoder: PasswordEncoder, req: SignUpRequest, id: nat): (r: (Outcome<SignUpResponse>, UserTable))
    ensures r.0.Thrown? ==> r.0.exception.kind == IllegalArgument && r.1 == users
    ensures r.0.Normal? ==> |r.1| == |users| + 1 && r.1[..|users|] == users && r.0.value.id == Some(id)
  {
    if ExistsByUsername(users, req.username) then
      (Thrown(IllegalArgumentException(MSG_DUPLICATE_USERNAME)), users)
    else if ExistsByEmail(users, req.email) then
      (Thrown(IllegalArgumentException(MSG_DUPLICATE_EMAIL)), users)
    else
      var saved := Save(users, NewUser(encoder, req), id);
      var savedUser := saved[|users|];
      (Normal(SignUpResponse(savedUser.id, savedUser.username, savedUser.email, MSG_SIGNUP_OK)), saved)
  }

  /** What `login` returns or throws; the table is only read. Every failure is an
      IllegalArgumentException; a success is for a registered username and carries a
      token issued to it at `now`. */
  function LoginResult(users: UserTable, encoder: PasswordEncoder, jwt: JwtConfig, codec: Codec, req: LoginRequest, now: Long): (r: Outcome<LoginResponse>)
    ensures r.Thrown? ==> r.exception.kind == IllegalArgument
    ensures r.Normal? ==> ExistsByUsername(users, req.username) && r.value.username == req.username
    ensures r.Normal? ==> r.value.token == GenerateToken(jwt, codec, req.username, now)
  {
    match FindByUsername(users, req.username)
    case None => Thrown(IllegalArgumentException(MSG_UNKNOWN_USER))
    case Some(user) =>
      if !encoder.matches(req.password, user.password) then
        Thrown(IllegalArgumentException(MSG_WRONG_PASSWORD))
      else
        Normal(LoginResponse(GenerateToken(jwt, codec, user.username, now), user.username, MSG_LOGIN_OK))
  }

  /** A taken username is reported, even when the email is taken too, and nothing is written. */
  lemma SignUpDuplicateUsername(users: UserTable, encoder: PasswordEncoder, req: SignUpRequest, id: nat)
    requires ExistsByUsername(users, req.username)
    ensures SignUpResult(users, encoder, req, id) == (Thrown(IllegalArgumentException(MSG_DUPLICATE_USERNAME)), users)
  {
  }

  /** A new username with a taken email is reported as such, and nothing is written. */
  lemma SignUpDuplicateEmail(users: UserTable, encoder: PasswordEncoder, req: SignUpRequest, id: nat)
    requires !ExistsByUsername(users, req.username) && ExistsByEmail(users, req.email)
    ensures SignUpResult(users, encoder, req, id) == (Thrown(IllegalArgumentException(MSG_DUPLICATE_EMAIL)), users)
  {
  }

  /** Sign-up succeeds exactly when username and email are both new. It then appends
      exactly one record, holding the given username and email, the encoded (never the
      plain) password and the role USER, and echoes the saved id, username and email
      with the fixed message; no token is issued. Every failure leaves the table as it was. */
  lemma {:induction false} SignUpOutcome(users: UserTable, encoder: PasswordEncoder, req: SignUpRequest, id: nat)
    ensures var (r, after) := SignUpResult(users, encoder, req, id);
      && (r.Normal? <==> !ExistsByUsername(users, req.username) && !ExistsByEmail(users, req.email))
      && (r.Thrown? ==> after == users && r.exception.kind == IllegalArgument)
      && (r.Normal? ==>
            && after == users + [User(Some(id), req.username, encoder.encode(req.password), req.email, Some(USER))]
            && r.value == SignUpResponse(Some(id), req.username, req.email, MSG_SIGNUP_OK))
  {
    var (r, after) := SignUpResult(users, encoder, req, id);
    if r.Normal? {
      var saved := Save(users, NewUser(encoder, req), id);
      assert after == saved;
      assert saved[|users|] == User(Some(id), req.username, encoder.encode(req.password), req.email, Some(USER));
    }
  }

  /** Sign-up keeps the table's invariant: ids present and distinct, usernames and
      emails unique. */
  lemma SignUpKeepsInvariant(users: UserTable, encoder: PasswordEncoder, req: SignUpRequest, id: nat)
    requires TableInvariant(users)
    requires IdUnused(users, id)
    ensures TableInvariant(SignUpResult(users, encoder, req, id).1)
  {
    if !ExistsByUsername(users, req.username) && !ExistsByEmail(users, req.email) {
      SaveKeepsInvariant(users, NewUser(encoder, req), id);
    }
  }

  /** Login fails for an unknown username, and for a password the stored digest does not
      match, with their messages and no token; otherwise it returns a token for the
      stored username, which is that username. */
  lemma {:induction false} LoginOutcome(users: UserTable, encoder: PasswordEncoder, jwt: JwtConfig, codec: Codec, req: LoginRequest, now: Long)
    requires UniqueUsernames(users)
    ensures !ExistsByUsername(users, req.username) ==>
      LoginResult(users, encoder, jwt, codec, req, now) == Thrown(IllegalArgumentException(MSG_UNKNOWN_USER))
    ensures forall k :: 0 <= k < |users| && users[k].username == req.username ==>
      LoginResult(users, encoder, jwt, codec, req, now) ==
        if encoder.matches(req.password, users[k].password)
        then Normal(LoginResponse(GenerateToken(jwt, codec, req.username, now), req.username, MSG_LOGIN_OK))
        else Thrown(IllegalArgumentException(MSG_WRONG_PASSWORD))
  {
    forall k | 0 <= k < |users| && users[k].username == req.username
      ensures LoginResult(users, encoder, jwt, codec, req, now) ==
        if encoder.matches(req.password, users[k].password)
        then Normal(LoginResponse(GenerateToken(jwt, codec, req.username, now), req.username, MSG_LOGIN_OK))
        else Thrown(IllegalArgumentException(MSG_WRONG_PASSWORD))
    {
      FindByUsernameUnique(users, k);
    }
  }

  /** After a successful sign-up, logging in with the same username and password
      succeeds, provided the encoder matches a password against its own digest. */
  lemma SignUpThenLogin(users: UserTable, encoder: PasswordEncoder, jwt: JwtConfig, codec: Codec, req: SignUpRequest, id: nat, now: Long)
    requires TableInvariant(users) && IdUnused(users, id)
    requires forall p :: encoder.matches(p, encoder.encode(p))
    requires SignUpResult(users, encoder, req, id).0.Normal?
    ensures LoginResult(SignUpResult(users, encoder, req, id).1, encoder, jwt, codec, LoginRequest(req.username, req.password), now)
         == Normal(LoginResponse(GenerateToken(jwt, codec, req.username, now), req.username, MSG_LOGIN_OK))
  {
    var after := SignUpResult(users, encoder, req, id).1;
    SignUpOutcome(users, encoder, req, id);
    SignUpKeepsInvariant(users, encoder, req, id);
    FindByUsernameUnique(after, |users|);
  }

  /** `UserService` over the user table, the password encoder and the token helper. */
  class UserService {
    var users: UserTable
    const encoder: PasswordEncoder
    const jwt: JwtConfig
    const codec: Codec

    ghost predicate Valid()
      reads this
    {
      TableInvariant(users)
    }

    constructor (users: UserTable, encoder: PasswordEncoder, jwt: JwtConfig, codec: Codec)
      requires TableInvariant(users)
      ensures Valid()
      ensures this.users == users && this.encoder == encoder && this.jwt == jwt && this.codec == codec
    {
      this.users := users;
      this.encoder := encoder;
      this.jwt := jwt;
      this.codec := codec;
    }

    /** `signUp`; `id` is the id the store assigns to the next saved record. */
    method SignUp(req: SignUpRequest, id: nat) returns (r: Outcome<SignUpResponse>)
      requires Valid()
      requires IdUnused(users, id)
      modifies this
      ensures Valid()
      ensures (r, users) == SignUpResult(old(users), encoder, req, id)
    {
      if ExistsByUsername(users, req.username) {
        return Thrown(IllegalArgumentException(MSG_DUPLICATE_USERNAME));
      }
      if ExistsByEmail(users, req.email) {
        return Thrown(IllegalArgumentException(MSG_DUPLICATE_EMAIL));
      }
      var encodedPassword := encoder.encode(req.password);
      var user := User(None, req.username, encodedPassword, req.email, Some(USER));
      SaveKeepsInvariant(users, user, id);
      users := Save(users, user, id);
      var savedUser := users[|users| - 1];
      r := Normal(SignUpResponse(savedUser.id, savedUser.username, savedUser.email, MSG_SIGNUP_OK));
    }

    /** `login`: reads the table and changes nothing. */
    method Login(req: LoginRequest, now: Long) returns (r: Outcome<LoginResponse>)
      ensures r == LoginResult(users, encoder, jwt, codec, req, now)
    {
      var found := FindByUsername(users, req.username);
      if found.None? {
        return Thrown(IllegalArgumentException(MSG_UNKNOWN_USER));
      }
      var user := found.value;
      if !encoder.matches(req.password, user.password) {
        return Thrown(IllegalArgumentException(MSG_WRONG_PASSWORD));
      }
      var token := GenerateToken(jwt, codec, user.username, now);
      r := Normal(LoginResponse(token, user.username, MSG_LOGIN_OK));
    }
  }
}
