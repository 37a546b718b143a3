/**
 * The bearer-token gate in front of the translation route
 * (`authMiddleware` in backend/server.js). Token verification is done by a
 * signing library and enters the model as an oracle `verify`.
 */
module AuthGate {
  import opened Wrappers
  import opened JsStrings

  /** What a session token carries: the account's e-mail and display name. */
  datatype Claims = Claims(email: string, name: string)

  datatype AuthError = NoToken | InvalidToken

  function AuthErrorMessage(e: AuthError): string {
    match e
    case NoToken => "No token provided"
    case InvalidToken => "Invalid or expired token"
  }

  /** Both rejections answer 401. */
  const UnauthorizedStatus := 401

  const BearerPrefix := "Bearer "

  lemma SplitBearer(header: string)
    requires StartsWith(header, BearerPrefix)
    ensures Split(header, ' ') == ["Bearer"] + Split(header[|BearerPrefix|..], ' ')
  {
    assert header == "Bearer" + [' '] + header[|BearerPrefix|..];
    SplitAfterPrefix("Bearer", ' ', header[|BearerPrefix|..]);
  }

  /** The token of an `Authorization` header (`""` when the header is absent):
      the second space-separated field, provided the header starts with
      `"Bearer "` and that field is not empty. */
  function BearerToken(header: string): (r: Option<string>)
    ensures r.Some? ==> StartsWith(header, BearerPrefix) && r.value != []
  {
    if StartsWith(header, BearerPrefix) then
      SplitBearer(header);
      var field := Split(header, ' ')[1];
      if field == [] then None else Some(field)
    else None
  }

  /** An extracted token is a non-empty space-free run that directly follows
      `"Bearer "` and ends at the end of the header or at a space. */
  lemma BearerTokenShape(header: string)
    requires BearerToken(header).Some?
    ensures var t := BearerToken(header).value;
      && ' ' !in t
      && StartsWith(header, BearerPrefix + t)
      && (|header| == |BearerPrefix| + |t| || header[|BearerPrefix| + |t|] == ' ')
  {
    var rest := header[|BearerPrefix|..];
    SplitBearer(header);
    SplitHead(rest, ' ');
    var t := BearerToken(header).value;
    assert t == Split(rest, ' ')[0];
    assert header == BearerPrefix + rest;
    assert header[..|BearerPrefix| + |t|] == BearerPrefix + rest[..|t|];
  }

  /** Conversely, `"Bearer " + t` followed by nothing or by a space yields `t`. */
  lemma BearerTokenOf(t: string, tail: string)
    requires t != [] && ' ' !in t
    requires tail == [] || tail[0] == ' '
    ensures BearerToken(BearerPrefix + t + tail) == Some(t)
  {
    var header := BearerPrefix + t + tail;
    assert header[..|BearerPrefix|] == BearerPrefix;
    assert header[|BearerPrefix|..] == t + tail;
    SplitBearer(header);
    if tail == [] {
      assert t + tail == t;
      SplitWithoutSeparator(t, ' ');
    } else {
      assert t + tail == t + [' '] + tail[1..];
      SplitAfterPrefix(t, ' ', tail[1..]);
    }
  }

  /** The middleware's decision: no token, a token `verify` rejects, or the
      claims `verify` decodes from it. */
  function Authorize(header: string, verify: string -> Option<Claims>): (r: Result<Claims, AuthError>)
    ensures r == Failure(NoToken) <==> BearerToken(header).None?
    ensures r == Failure(InvalidToken) <==> BearerToken(header).Some? && verify(BearerToken(header).value).None?
    ensures r.Success? ==> BearerToken(header).Some? && verify(BearerToken(header).value) == Some(r.value)
  {
    match BearerToken(header)
    case None => Failure(NoToken)
    case Some(token) =>
      match verify(token)
      case None => Failure(InvalidToken)
      case Some(claims) => Success(claims)
  }
}
