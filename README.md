# Stateless JWT authentication core of a Spring Boot board backend, in Dafny

This project models the decision rules of a small REST backend. The backend offers
user sign-up and login plus CRUD over posts, protected by bearer tokens. The model covers:

- the token helper `JwtUtil` (`JwtUtil.dfy`): it issues HS256 tokens with `sub`, `iat`
  and `exp` (sections 4.1.2, 4.1.6 and 4.1.4 of RFC 7519), reads them back, validates
  them fail-closed, and extracts the token from an `Authorization: Bearer` header
  (section 2.1 of RFC 6750);
- the request authenticator `JwtAuthenticationFilter` (`JwtAuthenticationFilter.dfy`):
  a class with a one-slot `context` and a `forwarded` counter of `filterChain.doFilter` calls;
- the access policy `SecurityConfig` (`SecurityConfig.dfy`): the ordered first-match
  rule list, the chain settings, and one request through the configured chain
  (`RequestAllowed`);
- the credential record `User` and its table invariants (`User.dfy`);
- the credential flows `UserService` (`UserService.dfy`): specification functions
  `SignUpResult` / `LoginResult`, and a class whose `SignUp` writes the table;
- the outcome mappers `AuthController`, `GlobalExceptionHandler` and
  `JwtAuthenticationEntryPoint`;
- the post service `PostService` (`PostService.dfy`): a class over the post table with
  `Create`, `Read`, `ReadAll`, `Update` and `Delete`, plus the `toDTO` and `toEntity` copies.

`Platform.dfy` holds the Java pieces the rest uses: null as `Option`, wrapping `long`
addition, exceptions, `Character.isWhitespace`, `StringUtils.hasText`, `startsWith`,
and string concatenation with a possibly-null operand.

Collaborators are parameters:

- the clock is a `now: Long` argument;
- the compact JWS codec of jjwt (section 7.1 of RFC 7515) is a `Codec` value made of `sign` and `parse` functions;
- the password encoder is a `PasswordEncoder` value with `encode` and `matches` functions;
- the store hands out fresh ids through an `id` argument;
- the user and post tables are sequences in `findAll` order.

The model makes two assumptions about jjwt. Both are ghost predicates, and every
lemma that relies on one takes it as a `requires`:

- `JwtUtil.RoundTrips`: parsing a token signed with the same key gives back exactly
  its claims, except that the library may throw for a token whose claims are expired.
- `JwtUtil.RejectsEmpty`: parsing the empty string throws. Only `EmptyTokenInvalid`
  uses it.

Nothing about tamper resistance is claimed.

The configuration `JwtConfig(secretKey, expiration)` is a datatype value. No operation
of the helper can change it, which is how the model states that `secretKey` and
`expiration` are read-only.

Section 4.1.4 of RFC 7519 rejects a token at exactly its expiry instant. The code uses
the strict `expiration.before(now)` (`JwtUtil.java:58`), so it accepts that token, and
the model follows the code (`ExpiryInstantIncluded`).

`ZeroLifetimeValidAtIssue` holds for the model's millisecond claims. In the Java
program jjwt truncates `exp` to whole seconds, so a zero-lifetime token comes back
already expired unless it was issued exactly on a whole second.

Observations about the wiring. These are not reachable paths of the model:

- `JwtAuthenticationEntryPoint` is not registered in the chain: `SecurityConfig.java`
  has no `exceptionHandling`. `Commence` is modelled on its own.
- The JWT handlers of `GlobalExceptionHandler` cannot be reached from the filter. The
  filter catches every exception, and `DoFilterInternal` has no exceptional outcome.
- `PostService.update` on an absent id throws a `NullPointerException`.
  `PostService.PostService.Update` returns `Thrown(NullPointer)` and leaves the table
  as it was. It does not require the id to be present. `GlobalExceptionHandler.Handle`
  maps that exception to 500. The controller's documentation promises 404 instead.
- `PostService.delete` on an absent id changes nothing and throws nothing
  (`PostService.RemoveAbsentId`), so the endpoint answers 200. The controller's
  documentation (`PostController.java:97-99`) promises 404 for that case too.
- A blank username passes sign-up and login, because that code never checks it and bean
  validation is not modelled. But jjwt's `setSubject` drops a blank subject, so the token
  issued to that account has no `sub`. `validateToken` then throws at `.equals` and
  returns false, and the account can never reach a protected path
  (`AuthController.SignUpLoginThenAccess`).

## Model

| member | source | states |
|---|---|---|
| `Platform.AddLong` | src/main/java/com/example/new_back_end/util/JwtUtil.java:27 | `System.currentTimeMillis() + expiration` is 64-bit `long` addition: exact when in range, wrapped by 2^64 otherwise |
| `Platform.ConcatNullable` | src/main/java/com/example/new_back_end/exception/GlobalExceptionHandler.java:46 | Java `prefix + message`: the result starts with the prefix and continues with the message, or with "null" when the message is null |
| `Platform.IsWhitespace` | src/main/java/com/example/new_back_end/util/JwtUtil.java:72 | `Character.isWhitespace`: space, tab, newline and carriage return are whitespace; letters and digits never are |
| `Platform.HasText` | src/main/java/com/example/new_back_end/util/JwtUtil.java:72 | `hasText` fails for null and for the empty string, and holds for a string whose first character is not whitespace |
| `JwtUtil.IssuedClaims` | src/main/java/com/example/new_back_end/util/JwtUtil.java:25-27 | a generated token carries `sub = username` when the username has text and no subject otherwise (jjwt's `setSubject` drops a blank subject), `iat = now`, `exp = now + expiration` (long arithmetic) |
| `JwtUtil.GenerateToken` | src/main/java/com/example/new_back_end/util/JwtUtil.java:23-30 | for a library that round-trips, the signed token parses back to exactly the issued claims at every later clock reading until they expire |
| `JwtUtil.GetUsernameFromToken` | src/main/java/com/example/new_back_end/util/JwtUtil.java:33-39 | throws exactly when parsing throws; otherwise returns the parsed subject, which may be null |
| `JwtUtil.GetExpirationFromToken` | src/main/java/com/example/new_back_end/util/JwtUtil.java:85-91 | throws exactly when parsing throws; otherwise returns the parsed `exp`, which may be null |
| `JwtUtil.IsTokenExpired` | src/main/java/com/example/new_back_end/util/JwtUtil.java:52-59 | returns a value exactly when the token parses and has an `exp`, and then it is true iff `exp` is strictly before `now`; a null `exp` throws |
| `JwtUtil.ValidateToken` | src/main/java/com/example/new_back_end/util/JwtUtil.java:42-49 | never throws; true iff the token parses, its subject is non-null and equal (case-sensitive) to a non-null `username`, and its `exp` is present and not before `now`; false for a null username |
| `JwtUtil.ExtractTokenFromRequest` | src/main/java/com/example/new_back_end/util/JwtUtil.java:67-78 | a token is returned iff the header is non-null and starts with "Bearer " (`Platform.StartsWith`, Java's case-sensitive `startsWith`); the header is then "Bearer " followed by the token |
| `JwtUtil.BearerHeaderHasText` | src/main/java/com/example/new_back_end/util/JwtUtil.java:72 | a header starting with "Bearer " always passes `hasText`, so that test never decides such a header |
| `JwtUtil.ExtractBearer` | src/main/java/com/example/new_back_end/util/JwtUtil.java:72-75 | extraction yields exactly `t` iff the header is "Bearer " + `t`: the first 7 characters are stripped and nothing else |
| `JwtUtil.ExtractWithoutText` | src/main/java/com/example/new_back_end/util/JwtUtil.java:72-77 | a null, empty or whitespace-only header yields null, not an error |
| `JwtUtil.ExtractIsCaseSensitive` | src/main/java/com/example/new_back_end/util/JwtUtil.java:72 | "bearer x" yields null: the scheme match is case-sensitive |
| `JwtUtil.ExtractEmptyBearer` | src/main/java/com/example/new_back_end/util/JwtUtil.java:72-75 | the header "Bearer " yields the empty token "", not null |
| `JwtUtil.GeneratedTokenDecodes` | src/main/java/com/example/new_back_end/util/JwtUtil.java:23-39 | under the codec hypothesis, a generated token parsed before it expires gives back the username (no subject for a blank one) and `exp = issuedAt + expiration` |
| `JwtUtil.UsernameRoundTrip` | src/main/java/com/example/new_back_end/util/JwtUtil.java:33-39 | read at its instant of issue, with a non-negative, non-overflowing lifetime, a generated token gives back the username (no subject for a blank one) and `now + expiration` |
| `JwtUtil.ValidateGenerated` | src/main/java/com/example/new_back_end/util/JwtUtil.java:42-49 | under the codec hypothesis, a generated token validates against `expected` iff the issued username has text, `expected` is that username, and `exp` is not before `now` |
| `JwtUtil.ExpiryInstantIncluded` | src/main/java/com/example/new_back_end/util/JwtUtil.java:58 | a token whose `exp` equals `now` is not expired yet |
| `JwtUtil.ZeroLifetimeValidAtIssue` | src/main/java/com/example/new_back_end/util/JwtUtil.java:23-59 | with a zero lifetime, a generated token validates at its instant of issue iff the username has text, for the model's millisecond claims (see the note on truncation to whole seconds above) |
| `JwtUtil.ValidateRejectsOtherSubject` | src/main/java/com/example/new_back_end/util/JwtUtil.java:45 | a token that parses but whose subject differs from the expected username does not validate |
| `JwtUtil.EmptyTokenInvalid` | src/main/java/com/example/new_back_end/util/JwtUtil.java:43-48 | if the library rejects the empty string, the empty token never validates |
| `JwtFilter.Authenticate` | src/main/java/com/example/new_back_end/config/JwtAuthenticationFilter.java:45-77 | without a token, or with the context already set, the context is unchanged; it changes only from empty, only for an accepted token, and only to (subject, null credentials, no authorities) |
| `JwtFilter.NoTokenLeavesContext` | src/main/java/com/example/new_back_end/config/JwtAuthenticationFilter.java:45-48 | when no token is extracted the context is unchanged |
| `JwtFilter.ExistingContextKept` | src/main/java/com/example/new_back_end/config/JwtAuthenticationFilter.java:48 | an authentication already in the context is never replaced |
| `JwtFilter.EstablishedIff` | src/main/java/com/example/new_back_end/config/JwtAuthenticationFilter.java:48-72 | from an empty context, an authentication is set iff there is a token, it parses, it has a subject, and its `exp` is present and not before `now` (a token without `exp` is refused, because `isTokenExpired` throws and the exception is caught); the subject-equality check is then always met; the authentication is (subject, null credentials, no authorities) |
| `JwtFilter.WrittenAtMostOnce` | src/main/java/com/example/new_back_end/config/JwtAuthenticationFilter.java:48-72 | once the filter has set the context, running it again on any request leaves the context as it is |
| `JwtFilter.IssuedTokenAuthenticates` | src/main/java/com/example/new_back_end/config/JwtAuthenticationFilter.java:45-72 | "Bearer " + a generated, unexpired token authenticates the request as the issued username when it has text, and nobody when it is blank |
| `JwtFilter.ExpiredIssuedTokenRejected` | src/main/java/com/example/new_back_end/config/JwtAuthenticationFilter.java:45-77 | a generated token whose lifetime is over leaves the context empty, whether the library throws or returns the claims |
| `JwtFilter.JwtAuthenticationFilter.constructor` | src/main/java/com/example/new_back_end/config/JwtAuthenticationFilter.java:26-28 | the filter holds the token helper; the context starts empty and the chain has not been called |
| `JwtFilter.JwtAuthenticationFilter.DoFilterInternal` | src/main/java/com/example/new_back_end/config/JwtAuthenticationFilter.java:37-82 | the new context is `Authenticate` of the old one; `doFilter` is called exactly once on every path; no exception leaves it |
| `SecurityConfig.Decide` | src/main/java/com/example/new_back_end/config/SecurityConfig.java:37-42 | a request is allowed only when some rule matches it and that rule's requirement is met; with no matching rule it is denied |
| `SecurityConfig.DecideIsFirstMatch` | src/main/java/com/example/new_back_end/config/SecurityConfig.java:37-42 | rules are tried in order and the first matching rule decides; with no match the request is denied |
| `SecurityConfig.AuthorizeRulesDecision` | src/main/java/com/example/new_back_end/config/SecurityConfig.java:37-42 | the configured list `AUTHORIZE_RULES` (lines 38-41, in order) allows a path iff it is under /api/auth, /swagger-ui, /v3/api-docs or /h2-console, or the context holds an authentication |
| `SecurityConfig.FilterOrder` | src/main/java/com/example/new_back_end/config/SecurityConfig.java:28-35 | among the modelled filters, the JWT filter comes first and the authorization decision last, whatever is enabled |
| `SecurityConfig.InitialContext` | src/main/java/com/example/new_back_end/config/SecurityConfig.java:30-31 | under a STATELESS session policy every request starts with an empty context |
| `SecurityConfig.ConfiguredFilterOrder` | src/main/java/com/example/new_back_end/config/SecurityConfig.java:26-35 | with form login and HTTP Basic disabled, the JWT filter is the only identity source and runs just before the decision |
| `SecurityConfig.RequestAllowed` | src/main/java/com/example/new_back_end/config/SecurityConfig.java:26-42 | a request gets through the configured chain only when its path is public or its own token is accepted |
| `SecurityConfig.PublicPathsAlwaysAllowed` | src/main/java/com/example/new_back_end/config/SecurityConfig.java:38-40 | the public paths are allowed whatever header, or garbage, the request carries |
| `SecurityConfig.ProtectedPathsNeedToken` | src/main/java/com/example/new_back_end/config/SecurityConfig.java:41 | every other path is allowed iff the request's own token is accepted; a session's authentication plays no part |
| `SecurityConfig.IssuedTokenOnProtectedPath` | src/main/java/com/example/new_back_end/config/SecurityConfig.java:35-41 | a protected path with a generated token is allowed iff the issued username has text and the token's lifetime is not over |
| `UserEntity.FindByUsername` | src/main/java/com/example/new_back_end/repository/UserRepository.java:13 | finds a record iff `ExistsByUsername` holds (some record has that username), and the record found has it; `ExistsByUsername` and `ExistsByEmail` model UserRepository.java:19 and :22 |
| `UserEntity.FindByUsernameUnique` | src/main/java/com/example/new_back_end/entity/User.java:18-19 | with unique usernames, the record found is the one with that username |
| `UserEntity.Save` | src/main/java/com/example/new_back_end/entity/User.java:14-16 | saving appends the record with the id the store assigns, and keeps the earlier records in place |
| `UserEntity.SaveKeepsInvariant` | src/main/java/com/example/new_back_end/entity/User.java:14-25 | saving a record with a new username, a new email and an unused id keeps ids assigned and distinct, and usernames and emails unique |
| `UserService.SignUpResult` | src/main/java/com/example/new_back_end/service/UserService.java:24-54 | every failure is an IllegalArgumentException that leaves the table unchanged; a success keeps the earlier records, appends one and reports its id |
| `UserService.LoginResult` | src/main/java/com/example/new_back_end/service/UserService.java:56-76 | every failure is an IllegalArgumentException; a success is for a registered username and carries the token issued to it at `now` |
| `UserService.SignUpDuplicateUsername` | src/main/java/com/example/new_back_end/service/UserService.java:26-28 | a taken username throws IllegalArgumentException with the username message, even when the email is taken too, and writes nothing |
| `UserService.SignUpDuplicateEmail` | src/main/java/com/example/new_back_end/service/UserService.java:30-32 | a new username with a taken email throws IllegalArgumentException with the email message and writes nothing |
| `UserService.SignUpOutcome` | src/main/java/com/example/new_back_end/service/UserService.java:24-54 | sign-up succeeds iff username and email are new; it then appends exactly one record (given username and email, `encode(password)`, role USER) and echoes the saved id, username and email with the fixed message, and no token; failures leave the table unchanged. The appended record is `NewUser`, built as at lines 38-42 |
| `UserService.SignUpKeepsInvariant` | src/main/java/com/example/new_back_end/service/UserService.java:24-45 | sign-up keeps the table invariant (ids, unique usernames, unique emails) |
| `UserService.LoginOutcome` | src/main/java/com/example/new_back_end/service/UserService.java:56-76 | an unknown username and a non-matching password fail with their messages and no token; otherwise login returns `generateToken(username)` and the username |
| `UserService.SignUpThenLogin` | src/main/java/com/example/new_back_end/service/UserService.java:24-76 | after a successful sign-up, logging in with the same credentials succeeds, if the encoder matches a password against its own digest |
| `UserService.UserService.constructor` | src/main/java/com/example/new_back_end/service/UserService.java:17-22 | the service holds the table, the encoder and the token helper, and starts from a table that meets the invariant |
| `UserService.UserService.SignUp` | src/main/java/com/example/new_back_end/service/UserService.java:24-54 | the result and the new table are those of `SignUpResult`: all checks come before the single write; the invariant is kept |
| `UserService.UserService.Login` | src/main/java/com/example/new_back_end/service/UserService.java:56-76 | the result is `LoginResult` of the current table; the table is not written |
| `AuthController.SignUpEntity` | src/main/java/com/example/new_back_end/controller/AuthController.java:43-52 | success is 201 with the service response; IllegalArgumentException is 400 with its message; any other exception is 500 with a fixed text |
| `AuthController.LoginEntity` | src/main/java/com/example/new_back_end/controller/AuthController.java:69-78 | success is 200 with the service response; IllegalArgumentException is 400 with its message; any other exception is 500 with a fixed text |
| `AuthController.SignUpEndpoint` | src/main/java/com/example/new_back_end/controller/AuthController.java:43-48 | through the service, a taken username or email is 400 with the service's message; otherwise 201 echoing the new record |
| `AuthController.SignUpLoginThenAccess` | src/main/java/com/example/new_back_end/controller/AuthController.java:39-79 | sign-up gives 201, login with the same credentials gives 200, and the token then opens a protected path iff the username has text and the token's lifetime is not over |
| `GlobalExceptionHandler.Handle` | src/main/java/com/example/new_back_end/exception/GlobalExceptionHandler.java:19-67 | every body has exactly the keys error, message, status and timestamp; `status` equals the HTTP status; JWT exceptions get 401 and all others 500 |
| `GlobalExceptionHandler.HandleExpiredJwt` | src/main/java/com/example/new_back_end/exception/GlobalExceptionHandler.java:26-35 | status 401, exactly the four keys, `status` 401 and `timestamp` the clock reading |
| `GlobalExceptionHandler.HandleJwt` | src/main/java/com/example/new_back_end/exception/GlobalExceptionHandler.java:42-51 | status 401, exactly the four keys, `status` 401 and `timestamp` the clock reading |
| `GlobalExceptionHandler.HandleGeneral` | src/main/java/com/example/new_back_end/exception/GlobalExceptionHandler.java:58-67 | status 500, exactly the four keys, `status` 500 and `timestamp` the clock reading |
| `GlobalExceptionHandler.ExpiredTokenBody` | src/main/java/com/example/new_back_end/exception/GlobalExceptionHandler.java:26-35 | an expired token gets "Token Expired" and a fixed message; the body does not depend on the exception |
| `GlobalExceptionHandler.InvalidTokenBody` | src/main/java/com/example/new_back_end/exception/GlobalExceptionHandler.java:42-51 | any other JWT error gets "Invalid Token" and the fixed prefix followed by the exception message |
| `GlobalExceptionHandler.GeneralBody` | src/main/java/com/example/new_back_end/exception/GlobalExceptionHandler.java:58-67 | every other exception gets the same generic 500 body, whatever its type or text |
| `JwtAuthenticationEntryPoint.UnauthorizedBody` | src/main/java/com/example/new_back_end/exception/JwtAuthenticationEntryPoint.java:38-45 | the body is the fixed head, then the request URI verbatim, without escaping, then the fixed tail |
| `JwtAuthenticationEntryPoint.BodyDeterminesPath` | src/main/java/com/example/new_back_end/exception/JwtAuthenticationEntryPoint.java:38-45 | two URIs give the same body only if they are equal: the path is carried unchanged |
| `JwtAuthenticationEntryPoint.Commence` | src/main/java/com/example/new_back_end/exception/JwtAuthenticationEntryPoint.java:27-50 | status 401 and content type `application/json;charset=UTF-8`, whatever the exception; the body is written once, then flushed |
| `PostService.ToDTO` | src/main/java/com/example/new_back_end/service/PostService.java:63-73 | the response's title, content and author, fed back through `toEntity`, give the post with id, dates and view count reset |
| `PostService.ToEntity` | src/main/java/com/example/new_back_end/service/PostService.java:76-82 | a new entity has no id or dates and a zero view count, and the request can be read back from it |
| `PostService.ToDTOCopiesAll` | src/main/java/com/example/new_back_end/service/PostService.java:63-73 | `toDTO` copies all seven fields unchanged |
| `PostService.ToDTOInjective` | src/main/java/com/example/new_back_end/service/PostService.java:63-73 | `toDTO` loses no field: posts with equal transfer objects are equal |
| `PostService.ToEntityCopiesRequest` | src/main/java/com/example/new_back_end/service/PostService.java:76-82 | `toEntity` copies title, content and author, and sets everything else the same way for every request |
| `PostService.IndexOf` | src/main/java/com/example/new_back_end/service/PostService.java:27 | `findById` finds a post iff one has that id, and the post found has it |
| `PostService.UpdatedKeepsOtherFields` | src/main/java/com/example/new_back_end/service/PostService.java:47-54 | `Updated`, the three setters, overwrites title, content and author only; id, dates and view count are kept |
| `PostService.RemoveId` | src/main/java/com/example/new_back_end/service/PostService.java:58-60 | after `deleteById` a post is present iff it was present and has another id |
| `PostService.RemoveAbsentId` | src/main/java/com/example/new_back_end/service/PostService.java:58-60 | deleting an absent id changes nothing |
| `PostService.RemoveIdRemovesAll` | src/main/java/com/example/new_back_end/service/PostService.java:58-60 | after deleting, no post with that id remains |
| `PostService.RemoveIdKeepsIds` | src/main/java/com/example/new_back_end/service/PostService.java:58-60 | deleting keeps ids present and distinct |
| `PostService.PostService.Create` | src/main/java/com/example/new_back_end/service/PostService.java:19-23 | appends the request's title, content and author under the assigned id, and returns the saved post's transfer object |
| `PostService.PostService.Read` | src/main/java/com/example/new_back_end/service/PostService.java:26-32 | returns null iff no post has the id; otherwise the transfer object of the post with it, which (ids being distinct) is the only post with that id |
| `PostService.PostService.ReadAll` | src/main/java/com/example/new_back_end/service/PostService.java:35-43 | returns one transfer object per post, same length and order as the table |
| `PostService.PostService.Update` | src/main/java/com/example/new_back_end/service/PostService.java:46-55 | an absent id throws NullPointerException and writes nothing; otherwise only that post changes, to its updated form, whose transfer object is returned |
| `PostService.PostService.Delete` | src/main/java/com/example/new_back_end/service/PostService.java:58-60 | the table afterwards is the old one without the post of that id |

## Left out

- JWS internals (HMAC-SHA256, base64url, JSON claims inside jjwt) are foreign code. They are the abstract `Codec`, and the assumptions about them are `RoundTrips` and `RejectsEmpty`; tamper resistance is not claimed.
- Whether jjwt's `parseClaimsJws` itself rejects an expired token is left open: `RoundTrips` allows both behaviours.
- jjwt stores `iat` and `exp` in whole seconds. The model keeps the millisecond values the builder is given.
- jjwt base64-decodes the secret and can throw while signing when the secret is not valid. The model's `sign` is total.
- The Java code reads the clock separately for `iat`, for `exp` and for every parse. The model uses one `now` per call chain.
- The password encoder is an uninterpreted `encode` / `matches` pair. No claim is made about hashing; `SignUpThenLogin` assumes only that `matches(p, encode(p))`.
- Persistence is left out: `@Transactional` rollback, database unique constraints racing with the exists-checks, and identity generation. Fresh ids are parameters.
- The `Post` entity class is not part of this model. It is modelled from its uses: auditing of the dates is not modelled, and the view count of a new entity is taken to be 0.
- Null strings inside request objects, a null token passed to `validateToken`, and bean validation (`@Valid`) are not modelled.
- Framework machinery is left out: `OncePerRequestFilter`'s once-per-request guarantee, the `SecurityContextHolder` thread-local (an explicit field here), request `details`, bean wiring, CSRF (recorded as a setting only) and the frame-options header.
- `SecurityConfig.FilterOrder` stands alone. `RequestAllowed` hard-codes the configured order (the JWT filter, then the decision) rather than build the chain from `FilterOrder(SETTINGS)`. `ConfiguredFilterOrder` shows the two agree, but no lemma derives one from the other.
- `SecurityConfig.FilterOrder`: "first" is among the four modelled filters only. The real chain runs other Spring Security filters before the JWT filter.
- Ant patterns: `/x/**` is approximated as "equals /x or starts with /x/". A path that no rule matches is taken to be denied.
- Logging through `System.out` and `System.err` is not modelled.
- Concurrency between requests is not modelled; the core shares no mutable state across requests.
- `PostController`, `SwaggerConfig`, the OpenAPI annotations, and the transfer classes' accessors are pure delegation or metadata. The DTOs are plain datatypes.
