/** The access policy: the security filter chain's settings (no CSRF, no form login,
    no HTTP Basic, a stateless session, the JWT filter placed before the
    username/password filter) and the ordered `authorizeHttpRequests` rules,
    evaluated first-match-wins on the request path and the outcome of the JWT filter. */
module SecurityConfig {
  import opened Platform
  import opened JwtUtil
  import opened JwtFilter

  /** A `requestMatchers` pattern "/x/ followed by a double star", approximated as
      "the path is /x or starts with /x/",
      and `anyRequest()`. */
  datatype RequestMatcher = AntPath(base: string) | AnyRequest

  datatype Requirement = PermitAll | RequireAuthenticated

  datatype Rule = Rule(matchers: seq<RequestMatcher>, requirement: Requirement)

  predicate MatcherMatches(m: RequestMatcher, path: string) {
    match m
    case AnyRequest => true
    case AntPath(base) => path == base || StartsWith(path, base + "/")
  }

  predicate RuleMatches(r: Rule, path: string) {
    exists i :: 0 <= i < |r.matchers| && MatcherMatches(r.matchers[i], path)
  }

  /** The `authorizeHttpRequests` rule list, in the order it is written. */
  const AUTHORIZE_RULES: seq<Rule> := [
    Rule([AntPath("/api/auth")], PermitAll),
    Rule([AntPath("/swagger-ui"), AntPath("/v3/api-docs")], PermitAll),
    Rule([AntPath("/h2-console")], PermitAll),
    Rule([AnyRequest], RequireAuthenticated)
  ]

  predicate Grants(req: Requirement, authenticated: bool) {
    req == PermitAll || authenticated
  }

  /** First match wins; a path no rule matches is denied. An allowed request always
      has a rule that matches it and grants it. */
  function Decide(rules: seq<Rule>, path: string, authenticated: bool): (allowed: bool)
    ensures allowed ==> exists i :: 0 <= i < |rules| && RuleMatches(rules[i], path) && Grants(rules[i].requirement, authenticated)
  {
    if rules == [] then false
    else if RuleMatches(rules[0], path) then Grants(rules[0].requirement, authenticated)
    else
      var rest := Decide(rules[1..], path, authenticated);
      assert rest ==> exists i :: 1 <= i < |rules| && RuleMatches(rules[i], path) && Grants(rules[i].requirement, authenticated) by {
        if rest {
          var i :| 0 <= i < |rules[1..]| && RuleMatches(rules[1..][i], path) && Grants(rules[1..][i].requirement, authenticated);
          assert rules[1..][i] == rules[i + 1];
        }
      }
      rest
  }

  /** Rule k decides when it is the first rule that matches; with no matching rule the
      request is denied. */
  lemma {:induction false} DecideIsFirstMatch(rules: seq<Rule>, path: string, authenticated: bool, k: nat)
    requires k <= |rules|
    requires forall j :: 0 <= j < k ==> !RuleMatches(rules[j], path)
    requires k < |rules| ==> RuleMatches(rules[k], path)
    ensures Decide(rules, path, authenticated) == (k < |rules| && Grants(rules[k].requirement, authenticated))
  {
    if k > 0 {
      assert !RuleMatches(rules[0], path);
      DecideIsFirstMatch(rules[1..], path, authenticated, k - 1);
    }
  }

  /** A path under /api/auth, /swagger-ui, /v3/api-docs or /h2-console. */
  predicate PublicPath(path: string) {
    || MatcherMatches(AntPath("/api/auth"), path)
    || MatcherMatches(AntPath("/swagger-ui"), path)
    || MatcherMatches(AntPath("/v3/api-docs"), path)
    || MatcherMatches(AntPath("/h2-console"), path)
  }

  /** The rule list permits the public paths whatever the context holds, and allows
      every other path exactly when the context holds an authentication. */
  lemma {:induction false} AuthorizeRulesDecision(path: string, authenticated: bool)
    ensures Decide(AUTHORIZE_RULES, path, authenticated) <==> PublicPath(path) || authenticated
  {
    var r := AUTHORIZE_RULES;
    assert RuleMatches(r[3], path) by { assert MatcherMatches(r[3].matchers[0], path); }
    if MatcherMatches(AntPath("/api/auth"), path) {
      assert MatcherMatches(r[0].matchers[0], path);
      DecideIsFirstMatch(r, path, authenticated, 0);
    } else if MatcherMatches(AntPath("/swagger-ui"), path) || MatcherMatches(AntPath("/v3/api-docs"), path) {
      assert !RuleMatches(r[0], path);
      assert MatcherMatches(r[1].matchers[0], path) || MatcherMatches(r[1].matchers[1], path);
      DecideIsFirstMatch(r, path, authenticated, 1);
    } else if MatcherMatches(AntPath("/h2-console"), path) {
      assert !RuleMatches(r[0], path) && !RuleMatches(r[1], path);
      assert MatcherMatches(r[2].matchers[0], path);
      DecideIsFirstMatch(r, path, authenticated, 2);
    } else {
      assert !RuleMatches(r[0], path) && !RuleMatches(r[1], path) && !RuleMatches(r[2], path);
      DecideIsFirstMatch(r, path, authenticated, 3);
    }
  }

  datatype SessionCreationPolicy = Always | IfRequired | Never | Stateless

  /** The security filters that can take part in a request. */
  datatype SecurityFilter = JwtAuthentication | UsernamePasswordAuthentication | BasicAuthentication | Authorization

  /** The `HttpSecurity` settings the chain is built with. */
  datatype HttpSecuritySettings = HttpSecuritySettings(
    csrf: bool, formLogin: bool, httpBasic: bool, session: SessionCreationPolicy)

  const SETTINGS: HttpSecuritySettings := HttpSecuritySettings(false, false, false, Stateless)

  /** The order of the security filters modelled here (the real chain runs further
      filters, such as the context and header filters, before all of them): the JWT
      filter is added before the username/password filter; form login and HTTP Basic
      add their filter only when enabled, and the authorization decision comes last.
      `RequestAllowed` hard-codes the configured order, so this function and
      `ConfiguredFilterOrder` document that order rather than drive it. */
  function FilterOrder(s: HttpSecuritySettings): (order: seq<SecurityFilter>)
    ensures |order| >= 2 && order[0] == JwtAuthentication && order[|order| - 1] == Authorization
  {
    [JwtAuthentication]
      + (if s.formLogin then [UsernamePasswordAuthentication] else [])
      + (if s.httpBasic then [BasicAuthentication] else [])
      + [Authorization]
  }

  /** The authentication a request starts from: a stateless chain never restores one
      from a session. */
  function InitialContext(s: HttpSecuritySettings, fromSession: Option<Authentication>): (c: Option<Authentication>)
    ensures s.session == Stateless ==> c == None
  {
    if s.session == Stateless then None else fromSession
  }

  /** With the configured settings the JWT filter is the only source of identity and it
      runs just before the authorization decision. */
  lemma ConfiguredFilterOrder()
    ensures FilterOrder(SETTINGS) == [JwtAuthentication, Authorization]
  {
  }

  /** One request through the configured chain: the context starts from the session
      (empty, since the chain is stateless), the JWT filter runs, then the rules decide
      on what the filter left. */
  function RequestAllowed(cfg: JwtConfig, codec: Codec, request: HttpRequest, fromSession: Option<Authentication>, now: Long): (allowed: bool)
    ensures allowed ==> PublicPath(request.requestUri) || TokenAccepted(cfg, codec, request, now)
  {
    EstablishedIff(cfg, codec, request, now);
    AuthorizeRulesDecision(request.requestUri, Authenticate(cfg, codec, None, request, now).Some?);
    var context := Authenticate(cfg, codec, InitialContext(SETTINGS, fromSession), request, now);
    Decide(AUTHORIZE_RULES, request.requestUri, context.Some?)
  }

  /** The public paths are reachable whatever token, or garbage, the request carries. */
  lemma PublicPathsAlwaysAllowed(cfg: JwtConfig, codec: Codec, request: HttpRequest, fromSession: Option<Authentication>, now: Long)
    requires PublicPath(request.requestUri)
    ensures RequestAllowed(cfg, codec, request, fromSession, now)
  {
    AuthorizeRulesDecision(request.requestUri, Authenticate(cfg, codec, None, request, now).Some?);
  }

  /** Every other path is allowed exactly when the request's own token is accepted; an
      authentication held by a session plays no part. */
  lemma ProtectedPathsNeedToken(cfg: JwtConfig, codec: Codec, request: HttpRequest, fromSession: Option<Authentication>, now: Long)
    requires !PublicPath(request.requestUri)
    ensures RequestAllowed(cfg, codec, request, fromSession, now) <==> TokenAccepted(cfg, codec, request, now)
  {
    EstablishedIff(cfg, codec, request, now);
    AuthorizeRulesDecision(request.requestUri, Authenticate(cfg, codec, None, request, now).Some?);
  }

  /** A protected path with a token the helper issued to a username with text is
      allowed while the token's lifetime lasts and denied once it is over; a token issued
      to a blank username carries no subject and is always denied. */
  lemma {:induction false} IssuedTokenOnProtectedPath(cfg: JwtConfig, codec: Codec, username: string, issuedAt: Long, uri: string, now: Long)
    requires RoundTrips(codec)
    requires !PublicPath(uri)
    ensures var request := HttpRequest(uri, Some(BEARER_PREFIX + GenerateToken(cfg, codec, username, issuedAt)));
      RequestAllowed(cfg, codec, request, None, now) <==> HasText(Some(username)) && !(AddLong(issuedAt, cfg.expiration) < now)
  {
    var request := HttpRequest(uri, Some(BEARER_PREFIX + GenerateToken(cfg, codec, username, issuedAt)));
    AuthorizeRulesDecision(uri, Authenticate(cfg, codec, None, request, now).Some?);
    if AddLong(issuedAt, cfg.expiration) < now {
      ExpiredIssuedTokenRejected(cfg, codec, username, issuedAt, uri, now);
    } else {
      IssuedTokenAuthenticates(cfg, codec, username, issuedAt, uri, now);
    }
  }
}
