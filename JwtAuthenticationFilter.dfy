/** The request authenticator: for each request it takes the bearer token, and
    when the request's security context is still empty and the token validates,
    it fills the context with the token's subject; it then always hands the
    request on down the filter chain. */
module JwtFilter {
  import opened Platform
  import opened JwtUtil

  /** Spring's `UsernamePasswordAuthenticationToken(principal, credentials, authorities)`. */
  datatype Authentication = Authentication(principal: string, credentials: Option<string>, authorities: seq<string>)

  /** The filter accepts the request's token: there is one, it parses, it has a
      subject, and its expiry is present and not before `now`. */
  predicate TokenAccepted(cfg: JwtConfig, codec: Codec, request: HttpRequest, now: Long) {
    var token := ExtractTokenFromRequest(request);
    && token.Some?
    && codec.parse(cfg.secretKey, token.value, now).Normal?
    && codec.parse(cfg.secretKey, token.value, now).value.sub.Some?
    && codec.parse(cfg.secretKey, token.value, now).value.exp.Some?
    && !(codec.parse(cfg.secretKey, token.value, now).value.exp.value < now)
  }

  /** The security context after `doFilterInternal` ran on `request` with the context
      `context` before it. Without a token, or with the slot already filled, the
      context stays as it was; it changes only from empty, to the accepted token's
      subject with null credentials and no authorities. */
  function Authenticate(cfg: JwtConfig, codec: Codec, context: Option<Authentication>, request: HttpRequest, now: Long): (r: Option<Authentication>)
    ensures ExtractTokenFromRequest(request).None? || context.Some? ==> r == context
    ensures r != context ==>
      && context.None?
      && TokenAccepted(cfg, codec, request, now)
      && r == Some(Authentication(codec.parse(cfg.secretKey, ExtractTokenFromRequest(request).value, now).value.sub.value, None, []))
  {
    var token := ExtractTokenFromRequest(request);
    if token.None? || context.Some? then context
    else
      match GetUsernameFromToken(cfg, codec, token.value, now)
      case Thrown(_) => context
      case Normal(username) =>
        if ValidateToken(cfg, codec, token.value, username, now)
        then Some(Authentication(username.value, None, []))
        else context
  }

  /** Without a token the context is left as it was. */
  lemma NoTokenLeavesContext(cfg: JwtConfig, codec: Codec, context: Option<Authentication>, request: HttpRequest, now: Long)
    requires ExtractTokenFromRequest(request).None?
    ensures Authenticate(cfg, codec, context, request, now) == context
  {
  }

  /** An authentication already in the context is never overwritten. */
  lemma ExistingContextKept(cfg: JwtConfig, codec: Codec, context: Option<Authentication>, request: HttpRequest, now: Long)
    requires context.Some?
    ensures Authenticate(cfg, codec, context, request, now) == context
  {
  }

  /** From an empty context, an authentication is established exactly when the token
      is accepted; the check that the subject equals the parsed username is then
      always met, so acceptance is "parses, has a subject, and its `exp` is present
      and not before `now`" (a missing `exp` makes `isTokenExpired` throw). The
      authentication holds the subject, null credentials and no authorities. */
  lemma {:induction false} EstablishedIff(cfg: JwtConfig, codec: Codec, request: HttpRequest, now: Long)
    ensures Authenticate(cfg, codec, None, request, now).Some? <==> TokenAccepted(cfg, codec, request, now)
    ensures TokenAccepted(cfg, codec, request, now) ==>
      var token := ExtractTokenFromRequest(request).value;
      Authenticate(cfg, codec, None, request, now)
        == Some(Authentication(codec.parse(cfg.secretKey, token, now).value.sub.value, None, []))
  {
    var token := ExtractTokenFromRequest(request);
    if token.Some? {
      var u := GetUsernameFromToken(cfg, codec, token.value, now);
      if u.Normal? {
        assert ValidateToken(cfg, codec, token.value, u.value, now) <==> TokenAccepted(cfg, codec, request, now);
      }
    }
  }

  /** Running the filter a second time on the same request changes nothing: the
      context is written at most once. */
  lemma WrittenAtMostOnce(cfg: JwtConfig, codec: Codec, context: Option<Authentication>, request: HttpRequest, later: HttpRequest, now: Long, now2: Long)
    requires Authenticate(cfg, codec, context, request, now).Some?
    ensures Authenticate(cfg, codec, Authenticate(cfg, codec, context, request, now), later, now2)
         == Authenticate(cfg, codec, context, request, now)
  {
  }

  /** A token the helper issued, presented as "Bearer <token>" with a lifetime not yet
      over, authenticates the request as the issued username; for a blank username the
      token has no subject and authenticates nobody. */
  lemma IssuedTokenAuthenticates(cfg: JwtConfig, codec: Codec, username: string, issuedAt: Long, uri: string, now: Long)
    requires RoundTrips(codec)
    requires !(AddLong(issuedAt, cfg.expiration) < now)
    ensures var request := HttpRequest(uri, Some(BEARER_PREFIX + GenerateToken(cfg, codec, username, issuedAt)));
      && (HasText(Some(username)) ==> Authenticate(cfg, codec, None, request, now) == Some(Authentication(username, None, [])))
      && (!HasText(Some(username)) ==> Authenticate(cfg, codec, None, request, now) == None)
  {
    var token := GenerateToken(cfg, codec, username, issuedAt);
    var request := HttpRequest(uri, Some(BEARER_PREFIX + token));
    ExtractBearer(uri, request.authorization, token);
    GeneratedTokenDecodes(cfg, codec, username, issuedAt, now);
    ValidateGenerated(cfg, codec, username, issuedAt, Some(username), now);
  }

  /** A token the helper issued whose lifetime is over never authenticates. */
  lemma ExpiredIssuedTokenRejected(cfg: JwtConfig, codec: Codec, username: string, issuedAt: Long, uri: string, now: Long)
    requires RoundTrips(codec)
    requires AddLong(issuedAt, cfg.expiration) < now
    ensures var request := HttpRequest(uri, Some(BEARER_PREFIX + GenerateToken(cfg, codec, username, issuedAt)));
      Authenticate(cfg, codec, None, request, now) == None
  {
    var token := GenerateToken(cfg, codec, username, issuedAt);
    var request := HttpRequest(uri, Some(BEARER_PREFIX + token));
    ExtractBearer(uri, request.authorization, token);
    var parsed := codec.parse(cfg.secretKey, token, now);
    if parsed.Normal? {
      ValidateGenerated(cfg, codec, username, issuedAt, parsed.value.sub, now);
    }
  }

  /** `JwtAuthenticationFilter`: `context` is the request's `SecurityContext`
      authentication slot and `forwarded` counts the calls of `filterChain.doFilter`. */
  class JwtAuthenticationFilter {
    const jwt: JwtConfig
    const codec: Codec
    var context: Option<Authentication>
    var forwarded: nat

    constructor (jwt: JwtConfig, codec: Codec)
      ensures this.jwt == jwt && this.codec == codec
      ensures context == None && forwarded == 0
    {
      this.jwt := jwt;
      this.codec := codec;
      context := None;
      forwarded := 0;
    }

    /** `doFilterInternal`: that every exception is swallowed shows in the signature,
        which has no exceptional outcome; the chain is called once, whatever happened. */
    method DoFilterInternal(request: HttpRequest, now: Long)
      modifies this
      ensures context == Authenticate(jwt, codec, old(context), request, now)
      ensures forwarded == old(forwarded) + 1
    {
      var token := ExtractTokenFromRequest(request);
      if token.Some? && context.None? {
        var username := GetUsernameFromToken(jwt, codec, token.value, now);
        match username {
          case Thrown(_) =>
            // the exception is logged and dropped
          case Normal(name) =>
            if ValidateToken(jwt, codec, token.value, name, now) {
              var authToken := Authentication(name.value, None, []);
              context := Some(authToken);
            }
        }
      }
      forwarded := forwarded + 1;
    }
  }
}
