/** The pieces of the Java and servlet platform that the core relies on:
    nullable values, 64-bit `long` arithmetic, exceptions, the text helpers
    of `java.lang.String` and Spring's `StringUtils`, and the request and
    response shapes the handlers see. */
module Platform {

  /** A Java reference that may be null: `None` is null. */
  datatype Option<+T> = None | Some(value: T)

  const LONG_MIN: int := -0x8000_0000_0000_0000
  const LONG_MAX: int := 0x7FFF_FFFF_FFFF_FFFF
  const LONG_MODULUS: int := 0x1_0000_0000_0000_0000

  /** A Java `long`, e.g. milliseconds since the epoch as `System.currentTimeMillis()` returns them. */
  type Long = x: int | -0x8000_0000_0000_0000 <= x <= 0x7FFF_FFFF_FFFF_FFFF

  /** Java `long` addition, which wraps around modulo 2^64. */
  function AddLong(a: Long, b: Long): (r: Long)
    ensures LONG_MIN <= a + b <= LONG_MAX ==> r == a + b
    ensures a + b > LONG_MAX ==> r == a + b - LONG_MODULUS
    ensures a + b < LONG_MIN ==> r == a + b + LONG_MODULUS
  {
    var s := a + b;
    if s > LONG_MAX then s - LONG_MODULUS
    else if s < LONG_MIN then s + LONG_MODULUS
    else s
  }

  /** The exception classes the core throws or catches. `ExpiredJwt` is jjwt's
      `ExpiredJwtException`, a subclass of `JwtException`; `OtherJwt` is any
      other `JwtException` (malformed, bad signature, unsupported); `OtherRuntime`
      is any exception of a collaborator that is none of the above. */
  datatype ExceptionKind = IllegalArgument | ExpiredJwt | OtherJwt | NullPointer | OtherRuntime

  /** A thrown exception; `message` is what `getMessage()` returns (possibly null). */
  datatype Exception = Exception(kind: ExceptionKind, message: Option<string>)

  /** `e instanceof JwtException` */
  predicate IsJwtException(e: Exception) {
    e.kind == ExpiredJwt || e.kind == OtherJwt
  }

  /** How a Java call ends: it returns a value or throws. */
  datatype Outcome<+T> = Normal(value: T) | Thrown(exception: Exception)

  /** `Character.isWhitespace(c)`: the Unicode space, line and paragraph separators
      other than the non-breaking ones, plus the ASCII controls TAB..CR and FS..US. */
  predicate IsWhitespace(c: char)
    ensures IsWhitespace(c) ==> !('A' <= c <= 'Z') && !('a' <= c <= 'z') && !('0' <= c <= '9')
    ensures c == ' ' || c == '\t' || c == '\n' || c == '\r' ==> IsWhitespace(c)
  {
    || c == ' '
    || ('\t' <= c <= '\r')
    || ('\U{1C}' <= c <= '\U{1F}')
    || c == '\U{1680}'
    || ('\U{2000}' <= c <= '\U{200A}' && c != '\U{2007}')
    || c == '\U{2028}' || c == '\U{2029}' || c == '\U{205F}' || c == '\U{3000}'
  }

  /** Spring's `StringUtils.hasText`: not null, and some character is not whitespace. */
  predicate HasText(s: Option<string>)
    ensures HasText(s) ==> s.Some? && |s.value| > 0
    ensures s.Some? && |s.value| > 0 && !IsWhitespace(s.value[0]) ==> HasText(s)
  {
    s.Some? && exists i :: 0 <= i < |s.value| && !IsWhitespace(s.value[i])
  }

  /** `s.startsWith(prefix)`, case-sensitive. */
  predicate StartsWith(s: string, prefix: string) {
    |prefix| <= |s| && s[..|prefix|] == prefix
  }

  /** `prefix + o` in Java, where a null `o` is rendered as "null". */
  function ConcatNullable(prefix: string, o: Option<string>): (r: string)
    ensures StartsWith(r, prefix)
    ensures o.None? ==> r[|prefix|..] == "null"
    ensures o.Some? ==> r[|prefix|..] == o.value
  {
    match o
    case None => prefix + "null"
    case Some(s) => prefix + s
  }

  /** The parts of an `HttpServletRequest` the core reads. */
  datatype HttpRequest = HttpRequest(requestUri: string, authorization: Option<string>)

  /** Spring's `ResponseEntity`: a status code and a body. */
  datatype ResponseEntity<+T> = ResponseEntity(status: int, body: T)

  const HTTP_OK: int := 200
  const HTTP_CREATED: int := 201
  const HTTP_BAD_REQUEST: int := 400
  const HTTP_UNAUTHORIZED: int := 401
  const HTTP_INTERNAL_SERVER_ERROR: int := 500
}
