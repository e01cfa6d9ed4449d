/** The global exception handlers: an expired token, any other JWT error and any
    other exception each become a JSON object with the keys error, message, status
    and timestamp, under 401, 401 and 500. */
module GlobalExceptionHandler {
  import opened Platform

  /** A JSON value of the error body: text or a number. */
  datatype Json = JText(text: string) | JNumber(number: int)

  type ErrorBody = map<string, Json>

  const MSG_TOKEN_EXPIRED: string := "JWT 토큰이 만료되었습니다. 다시 로그인해주세요."
  const MSG_INVALID_TOKEN_PREFIX: string := "유효하지 않은 JWT 토큰입니다: "
  const MSG_SERVER_ERROR: string := "서버 내부 오류가 발생했습니다."

  const ERROR_KEYS: set<string> := {"error", "message", "status", "timestamp"}

  function ErrorResponse(status: int, error: string, message: string, timestamp: Long): ResponseEntity<ErrorBody> {
    ResponseEntity(status, map[
      "error" := JText(error),
      "message" := JText(message),
      "status" := JNumber(status),
      "timestamp" := JNumber(timestamp)])
  }

  /** `handleExpiredJwtException`; `now` is the clock reading put in `timestamp`. */
  function HandleExpiredJwt(e: Exception, now: Long): (r: ResponseEntity<ErrorBody>)
    ensures r.status == HTTP_UNAUTHORIZED && r.body.Keys == ERROR_KEYS
    ensures r.body["status"] == JNumber(HTTP_UNAUTHORIZED) && r.body["timestamp"] == JNumber(now)
  {
    ErrorResponse(HTTP_UNAUTHORIZED, "Token Expired", MSG_TOKEN_EXPIRED, now)
  }

  /** `handleJwtException`: the message is the fixed prefix followed by the exception's
      message ("null" when it has none). */
  function HandleJwt(e: Exception, now: Long): (r: ResponseEntity<ErrorBody>)
    ensures r.status == HTTP_UNAUTHORIZED && r.body.Keys == ERROR_KEYS
    ensures r.body["status"] == JNumber(HTTP_UNAUTHORIZED) && r.body["timestamp"] == JNumber(now)
  {
    ErrorResponse(HTTP_UNAUTHORIZED, "Invalid Token", ConcatNullable(MSG_INVALID_TOKEN_PREFIX, e.message), now)
  }

  /** `handleGeneralException` */
  function HandleGeneral(e: Exception, now: Long): (r: ResponseEntity<ErrorBody>)
    ensures r.status == HTTP_INTERNAL_SERVER_ERROR && r.body.Keys == ERROR_KEYS
    ensures r.body["status"] == JNumber(HTTP_INTERNAL_SERVER_ERROR) && r.body["timestamp"] == JNumber(now)
  {
    ErrorResponse(HTTP_INTERNAL_SERVER_ERROR, "Internal Server Error", MSG_SERVER_ERROR, now)
  }

  /** Spring picks the handler declared for the most specific superclass of the
      exception: `ExpiredJwtException`, then `JwtException`, then `Exception`. */
  function Handle(e: Exception, now: Long): (r: ResponseEntity<ErrorBody>)
    ensures r.body.Keys == ERROR_KEYS
    ensures r.body["status"] == JNumber(r.status)
    ensures r.body["timestamp"] == JNumber(now)
    ensures r.status == HTTP_UNAUTHORIZED <==> IsJwtException(e)
    ensures r.status == HTTP_INTERNAL_SERVER_ERROR <==> !IsJwtException(e)
  {
    match e.kind
    case ExpiredJwt => HandleExpiredJwt(e, now)
    case OtherJwt => HandleJwt(e, now)
    case _ => HandleGeneral(e, now)
  }

  /** An expired token gets "Token Expired" and a fixed message, never the "Invalid
      Token" body, and nothing of the exception's text. */
  lemma ExpiredTokenBody(e: Exception, now: Long)
    requires e.kind == ExpiredJwt
    ensures Handle(e, now).body["error"] == JText("Token Expired")
    ensures Handle(e, now).body["message"] == JText(MSG_TOKEN_EXPIRED)
    ensures forall other: Exception :: other.kind == ExpiredJwt ==> Handle(other, now) == Handle(e, now)
  {
  }

  /** Any other JWT error gets "Invalid Token" and the prefix followed by its message. */
  lemma InvalidTokenBody(e: Exception, now: Long)
    requires e.kind == OtherJwt
    ensures Handle(e, now).body["error"] == JText("Invalid Token")
    ensures Handle(e, now).body["message"] == JText(ConcatNullable(MSG_INVALID_TOKEN_PREFIX, e.message))
  {
  }

  /** Every other exception gets 500 with the generic message, whatever its type and text. */
  lemma GeneralBody(e: Exception, other: Exception, now: Long)
    requires !IsJwtException(e) && !IsJwtException(other)
    ensures Handle(e, now) == Handle(other, now)
    ensures Handle(e, now).body["message"] == JText(MSG_SERVER_ERROR)
  {
  }
}
