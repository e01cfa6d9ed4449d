/** The token helper: issuing a signed HS256 token with `sub`, `iat` and `exp`
    claims (sections 4.1.2, 4.1.6 and 4.1.4 of RFC 7519), reading them back,
    validating a token fail-closed, and taking a bearer token out of the
    `Authorization` header (section 2.1 of RFC 6750). */
module JwtUtil {
  import opened Platform

  /** The registered claims the helper sets and reads; a claim may be absent. */
  datatype Claims = Claims(sub: Option<string>, iat: Option<Long>, exp: Option<Long>)

  /** The compact JWS serialisation (section 7.1 of RFC 7515) as jjwt provides it:
      `sign(key, claims)` builds and signs a token with HS256, and
      `parse(key, token, now)` verifies and decodes one at clock `now`, or throws. */
  datatype Codec = Codec(
    sign: (string, Claims) -> string,
    parse: (string, string, Long) -> Outcome<Claims>)

  /** The configuration fields `secretKey` and `expiration` (milliseconds). They are
      a value: no operation of the helper can change them. */
  datatype JwtConfig = JwtConfig(secretKey: string, expiration: Long)

  const BEARER_PREFIX: string := "Bearer "

  /** The claims carry an expiry instant strictly before `now`. */
  predicate ExpiredAt(c: Claims, now: Long) {
    c.exp.Some? && c.exp.value < now
  }

  /** The main assumption the model makes about the library: parsing a token that
      was signed with the same key gives back exactly the signed claims, except that
      the library may reject a token whose claims are expired. The only other
      assumption is `RejectsEmpty`, and only `EmptyTokenInvalid` uses it. */
  ghost predicate RoundTrips(codec: Codec) {
    forall key: string, c: Claims, now: Long ::
      codec.parse(key, codec.sign(key, c), now) == Normal(c) ||
      (codec.parse(key, codec.sign(key, c), now).Thrown? && ExpiredAt(c, now))
  }

  /** The library refuses the empty string as a token. */
  ghost predicate RejectsEmpty(codec: Codec) {
    forall key: string, now: Long :: codec.parse(key, "", now).Thrown?
  }

  /** The claims `generateToken` puts in a token issued at `now`. jjwt's `setSubject`
      on a fresh builder stores the subject only when it has text, so a blank username
      leaves the token without a subject. */
  function IssuedClaims(cfg: JwtConfig, username: string, now: Long): (c: Claims)
    ensures HasText(Some(username)) ==> c.sub == Some(username)
    ensures !HasText(Some(username)) ==> c.sub.None?
    ensures c.iat == Some(now)
    ensures c.exp.Some? && c.exp.value == AddLong(now, cfg.expiration)
  {
    var sub := if HasText(Some(username)) then Some(username) else None;
    Claims(sub, Some(now), Some(AddLong(now, cfg.expiration)))
  }

  /** `generateToken`: one reading `now` of the clock serves both `iat` and `exp`. For a
      library that round-trips, the token reads back as the issued claims at every
      later clock reading `at` until those claims expire. */
  function GenerateToken(cfg: JwtConfig, codec: Codec, username: string, now: Long): (token: string)
    ensures RoundTrips(codec) ==>
      forall at: Long :: !ExpiredAt(IssuedClaims(cfg, username, now), at) ==>
        codec.parse(cfg.secretKey, token, at) == Normal(IssuedClaims(cfg, username, now))
  {
    codec.sign(cfg.secretKey, IssuedClaims(cfg, username, now))
  }

  /** `getUsernameFromToken`: the subject claim (possibly null), or what parsing throws. */
  function GetUsernameFromToken(cfg: JwtConfig, codec: Codec, token: string, now: Long): (r: Outcome<Option<string>>)
    ensures r.Thrown? <==> codec.parse(cfg.secretKey, token, now).Thrown?
    ensures r.Normal? ==> r.value == codec.parse(cfg.secretKey, token, now).value.sub
  {
    match codec.parse(cfg.secretKey, token, now)
    case Normal(claims) => Normal(claims.sub)
    case Thrown(e) => Thrown(e)
  }

  /** `getExpirationFromToken`: the expiry claim (possibly null), or what parsing throws. */
  function GetExpirationFromToken(cfg: JwtConfig, codec: Codec, token: string, now: Long): (r: Outcome<Option<Long>>)
    ensures r.Thrown? <==> codec.parse(cfg.secretKey, token, now).Thrown?
    ensures r.Normal? ==> r.value == codec.parse(cfg.secretKey, token, now).value.exp
  {
    match codec.parse(cfg.secretKey, token, now)
    case Normal(claims) => Normal(claims.exp)
    case Thrown(e) => Thrown(e)
  }

  /** `isTokenExpired`: `expiration.before(now)`; a missing expiry makes `.before`
      throw a NullPointerException. */
  function IsTokenExpired(cfg: JwtConfig, codec: Codec, token: string, now: Long): (r: Outcome<bool>)
    ensures r.Normal? <==> codec.parse(cfg.secretKey, token, now).Normal? && codec.parse(cfg.secretKey, token, now).value.exp.Some?
    ensures r.Normal? ==> (r.value <==> ExpiredAt(codec.parse(cfg.secretKey, token, now).value, now))
  {
    match codec.parse(cfg.secretKey, token, now)
    case Thrown(e) => Thrown(e)
    case Normal(claims) =>
      match claims.exp
      case None => Thrown(Exception(NullPointer, None))
      case Some(expiration) => Normal(expiration < now)
  }

  /** The token parses, its subject is present and equal to `username` (which must
      not be null), and its expiry is present and not before `now`. */
  predicate Accepts(cfg: JwtConfig, codec: Codec, token: string, username: Option<string>, now: Long) {
    var p := codec.parse(cfg.secretKey, token, now);
    && p.Normal?
    && p.value.sub.Some?
    && username == p.value.sub
    && p.value.exp.Some?
    && !(p.value.exp.value < now)
  }

  /** `validateToken`: every exception (a parse failure, the NullPointerException of
      a null subject at `.equals`, that of a null expiry) is caught and gives false. */
  function ValidateToken(cfg: JwtConfig, codec: Codec, token: string, username: Option<string>, now: Long): (r: bool)
    ensures r <==> Accepts(cfg, codec, token, username, now)
    ensures username.None? ==> !r
  {
    match GetUsernameFromToken(cfg, codec, token, now)
    case Thrown(_) => false
    case Normal(tokenUsername) =>
      match tokenUsername
      case None => false
      case Some(name) =>
        // String.equals(null) is false, and && does not evaluate isTokenExpired then
        if username != Some(name) then false
        else
          match IsTokenExpired(cfg, codec, token, now)
          case Thrown(_) => false
          case Normal(expired) => !expired
  }

  /** `extractTokenFromRequest`: the header value after "Bearer ", or null. */
  function ExtractTokenFromRequest(request: HttpRequest): (r: Option<string>)
    ensures r.Some? <==> request.authorization.Some? && StartsWith(request.authorization.value, BEARER_PREFIX)
    ensures r.Some? ==> request.authorization.value == BEARER_PREFIX + r.value
  {
    var bearerToken := request.authorization;
    if HasText(bearerToken) && StartsWith(bearerToken.value, BEARER_PREFIX) then
      Some(bearerToken.value[|BEARER_PREFIX|..])
    else
      assert bearerToken.Some? && StartsWith(bearerToken.value, BEARER_PREFIX) ==> HasText(bearerToken) by {
        if bearerToken.Some? && StartsWith(bearerToken.value, BEARER_PREFIX) {
          BearerHeaderHasText(bearerToken.value);
        }
      }
      None
  }

  /** A header starting with "Bearer " always has text, so the `hasText` test never
      decides the outcome of such a header. */
  lemma BearerHeaderHasText(h: string)
    requires StartsWith(h, BEARER_PREFIX)
    ensures HasText(Some(h))
  {
    assert h[0] == h[..|BEARER_PREFIX|][0] == 'B';
    assert !IsWhitespace(h[0]);
  }

  /** The header "Bearer " + t yields exactly t, and these are the only headers that yield t. */
  lemma {:induction false} ExtractBearer(uri: string, header: Option<string>, t: string)
    ensures ExtractTokenFromRequest(HttpRequest(uri, header)) == Some(t) <==> header == Some(BEARER_PREFIX + t)
  {
    var h := BEARER_PREFIX + t;
    assert h[..|BEARER_PREFIX|] == BEARER_PREFIX;
    BearerHeaderHasText(h);
    var r := ExtractTokenFromRequest(HttpRequest(uri, header));
    if r == Some(t) {
      assert header.value == h;
    }
    if header == Some(h) {
      assert h[|BEARER_PREFIX|..] == t;
    }
  }

  /** A null, empty or whitespace-only header gives no token, and does not fail. */
  lemma ExtractWithoutText(uri: string, header: Option<string>)
    requires !HasText(header)
    ensures ExtractTokenFromRequest(HttpRequest(uri, header)) == None
  {
  }

  /** The scheme is matched case-sensitively: "bearer x" gives no token. */
  lemma ExtractIsCaseSensitive(uri: string)
    ensures ExtractTokenFromRequest(HttpRequest(uri, Some("bearer x"))) == None
  {
    assert "bearer x"[..7][0] == 'b';
  }

  /** The header "Bearer " with nothing after it yields the empty token, not null. */
  lemma ExtractEmptyBearer(uri: string)
    ensures ExtractTokenFromRequest(HttpRequest(uri, Some("Bearer "))) == Some("")
  {
    ExtractBearer(uri, Some("Bearer "), "");
    assert BEARER_PREFIX + "" == "Bearer ";
  }

  /** A token the helper issued at `issuedAt` decodes, at any `now` before it expires,
      to its claims: the subject (none for a blank username) and issuedAt + expiration. */
  lemma {:induction false} GeneratedTokenDecodes(cfg: JwtConfig, codec: Codec, username: string, issuedAt: Long, now: Long)
    requires RoundTrips(codec)
    requires !ExpiredAt(IssuedClaims(cfg, username, issuedAt), now)
    ensures HasText(Some(username)) ==>
      GetUsernameFromToken(cfg, codec, GenerateToken(cfg, codec, username, issuedAt), now) == Normal(Some(username))
    ensures !HasText(Some(username)) ==>
      GetUsernameFromToken(cfg, codec, GenerateToken(cfg, codec, username, issuedAt), now) == Normal(None)
    ensures GetExpirationFromToken(cfg, codec, GenerateToken(cfg, codec, username, issuedAt), now)
         == Normal(Some(AddLong(issuedAt, cfg.expiration)))
  {
    var c := IssuedClaims(cfg, username, issuedAt);
    assert codec.parse(cfg.secretKey, codec.sign(cfg.secretKey, c), now) == Normal(c);
  }

  /** Read back at the instant of issue, with a non-negative lifetime that does not
      overflow, the token gives the username (when it has text; no subject otherwise)
      and `exp = now + expiration`. */
  lemma UsernameRoundTrip(cfg: JwtConfig, codec: Codec, username: string, now: Long)
    requires RoundTrips(codec)
    requires 0 <= cfg.expiration && now + cfg.expiration <= LONG_MAX
    ensures HasText(Some(username)) ==>
      GetUsernameFromToken(cfg, codec, GenerateToken(cfg, codec, username, now), now) == Normal(Some(username))
    ensures !HasText(Some(username)) ==>
      GetUsernameFromToken(cfg, codec, GenerateToken(cfg, codec, username, now), now) == Normal(None)
    ensures GetExpirationFromToken(cfg, codec, GenerateToken(cfg, codec, username, now), now) == Normal(Some(now + cfg.expiration))
  {
    GeneratedTokenDecodes(cfg, codec, username, now, now);
  }

  /** An issued token validates against `expected` exactly when the issued username
      has text (otherwise the token has no subject and `.equals` throws), `expected`
      is that username, and the token's expiry instant is not before `now`. */
  lemma {:induction false} ValidateGenerated(cfg: JwtConfig, codec: Codec, username: string, issuedAt: Long, expected: Option<string>, now: Long)
    requires RoundTrips(codec)
    ensures ValidateToken(cfg, codec, GenerateToken(cfg, codec, username, issuedAt), expected, now)
        <==> HasText(Some(username)) && expected == Some(username) && !(AddLong(issuedAt, cfg.expiration) < now)
  {
    var c := IssuedClaims(cfg, username, issuedAt);
    var p := codec.parse(cfg.secretKey, codec.sign(cfg.secretKey, c), now);
    assert p == Normal(c) || (p.Thrown? && ExpiredAt(c, now));
  }

  /** A token whose expiry equals `now` is not expired yet (`before` is strict). */
  lemma ExpiryInstantIncluded(cfg: JwtConfig, codec: Codec, token: string, now: Long)
    requires codec.parse(cfg.secretKey, token, now).Normal?
    requires codec.parse(cfg.secretKey, token, now).value.exp == Some(now)
    ensures IsTokenExpired(cfg, codec, token, now) == Normal(false)
  {
  }

  /** With a zero lifetime, an issued token still validates at its instant of issue,
      for every username with text. */
  lemma ZeroLifetimeValidAtIssue(cfg: JwtConfig, codec: Codec, username: string, now: Long)
    requires RoundTrips(codec)
    requires cfg.expiration == 0
    ensures ValidateToken(cfg, codec, GenerateToken(cfg, codec, username, now), Some(username), now)
        <==> HasText(Some(username))
  {
    ValidateGenerated(cfg, codec, username, now, Some(username), now);
  }

  /** A token whose subject differs from `username`, even a well-formed unexpired one,
      does not validate. */
  lemma ValidateRejectsOtherSubject(cfg: JwtConfig, codec: Codec, token: string, username: string, now: Long)
    requires codec.parse(cfg.secretKey, token, now).Normal?
    requires codec.parse(cfg.secretKey, token, now).value.sub != Some(username)
    ensures !ValidateToken(cfg, codec, token, Some(username), now)
  {
  }

  /** The empty token never validates. */
  lemma EmptyTokenInvalid(cfg: JwtConfig, codec: Codec, username: Option<string>, now: Long)
    requires RejectsEmpty(codec)
    ensures !ValidateToken(cfg, codec, "", username, now)
  {
    assert codec.parse(cfg.secretKey, "", now).Thrown?;
  }
}
