/** The entry point that answers a request lacking authentication: status 401, a
    JSON content type, and a fixed JSON body in which only the request URI varies. */
module JwtAuthenticationEntryPoint {
  import opened Platform

  const CONTENT_TYPE: string := "application/json;charset=UTF-8"

  /** The text block up to the `%s` placeholder, with its common indentation removed. */
  const BODY_HEAD: string :=
    "{\n" +
    "    \"error\": \"Unauthorized\",\n" +
    "    \"message\": \"JWT 토큰이 필요합니다. Authorization 헤더에 'Bearer <token>' 형식으로 토큰을 포함해주세요.\",\n" +
    "    \"status\": 401,\n" +
    "    \"path\": \""

  /** The text block after the placeholder. */
  const BODY_TAIL: string := "\"\n}\n"

  /** The template with `requestUri` put in place of `%s` as it is, without escaping. */
  function UnauthorizedBody(requestUri: string): (body: string)
    ensures |body| == |BODY_HEAD| + |requestUri| + |BODY_TAIL|
    ensures body[..|BODY_HEAD|] == BODY_HEAD
    ensures body[|BODY_HEAD|..|BODY_HEAD| + |requestUri|] == requestUri
    ensures body[|BODY_HEAD| + |requestUri|..] == BODY_TAIL
  {
    BODY_HEAD + requestUri + BODY_TAIL
  }

  /** The body determines the URI it was made for: the path is carried verbatim. */
  lemma BodyDeterminesPath(u1: string, u2: string)
    requires UnauthorizedBody(u1) == UnauthorizedBody(u2)
    ensures u1 == u2
  {
    var b := UnauthorizedBody(u1);
    assert u1 == b[|BODY_HEAD|..|BODY_HEAD| + |u1|];
  }

  datatype WriterOp = Write(text: string) | Flush

  /** The parts of an `HttpServletResponse` the entry point sets; `output` is what was
      done through its writer, in order. */
  class ServletResponse {
    var status: int
    var contentType: Option<string>
    var output: seq<WriterOp>

    constructor ()
      ensures status == HTTP_OK && contentType == None && output == []
    {
      status := HTTP_OK;
      contentType := None;
      output := [];
    }
  }

  /** `commence`: the exception is not looked at, so neither the status nor the body
      depends on it; the body is written once and then flushed. */
  method Commence(request: HttpRequest, response: ServletResponse, authException: Exception)
    modifies response
    ensures response.status == HTTP_UNAUTHORIZED
    ensures response.contentType == Some(CONTENT_TYPE)
    ensures response.output == old(response.output) + [Write(UnauthorizedBody(request.requestUri)), Flush]
  {
    response.status := HTTP_UNAUTHORIZED;
    response.contentType := Some(CONTENT_TYPE);
    var jsonResponse := UnauthorizedBody(request.requestUri);
    response.output := response.output + [Write(jsonResponse)];
    response.output := response.output + [Flush];
  }
}
