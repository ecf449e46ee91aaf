/** The route middleware: paths under "/api/auth" pass untouched; every other
    request needs a bearer token in the `authorization` header that the JWT
    check accepts. `jwt.verify(token, JWT_SECRET)` is the parameter
    `verify`, true when it returns and false when it throws. */
module Middleware {
  import opened JsValues
  import Text

  const PublicPrefix := "/api/auth"

  datatype Decision = Next | Deny(status: int, error: string)

  /** The bearer token: the second space-separated field of the
      Authorization header, absent when the header is absent or has no
      space. */
  function Token(authorization: Option<string>): (t: Option<string>)
    ensures authorization.None? ==> t.None?
    ensures authorization.Some? ==> (t.None? <==> ' ' !in authorization.value)
  {
    match authorization
    case None => None
    case Some(h) =>
      var fields := Text.Split(h, ' ');
      Text.SingleFieldIff(h, ' ');
      if |fields| >= 2 then Some(fields[1]) else None
  }

  function Middleware(pathname: string, authorization: Option<string>, verify: string -> bool): (d: Decision)
    ensures d == Next || d == Deny(401, "Unauthorized middle") || d == Deny(403, "Invalid token")
    ensures d == Next ==>
      Text.StartsWith(pathname, PublicPrefix) || (Token(authorization).Some? && verify(Token(authorization).value))
    ensures Text.StartsWith(pathname, PublicPrefix) ==> d == Next
  {
    if Text.StartsWith(pathname, PublicPrefix) then Next
    else
      var token := Token(authorization);
      if !TextTruthy(token) then Deny(401, "Unauthorized middle")
      else if verify(token.value) then Next
      else Deny(403, "Invalid token")
  }

  /** The token is the text between the first and the second space. */
  lemma TokenIsSecondField(scheme: string, token: string, rest: string)
    requires ' ' !in scheme && ' ' !in token
    requires rest == "" || rest[0] == ' '
    ensures Token(Some(scheme + " " + token + rest)) == Some(token)
  {
    var h := scheme + " " + token + rest;
    assert h == scheme + [' '] + (token + rest);
    Text.SplitHead(scheme, ' ', token + rest);
    if rest == "" {
      assert token + rest == token;
      Text.SplitNoSep(token, ' ');
    } else {
      assert token + rest == token + [' '] + rest[1..];
      Text.SplitHead(token, ' ', rest[1..]);
    }
  }

  /** The decision: public paths pass without reading the header; otherwise a
      missing or empty token is 401 before any verification, and a present
      token passes or is refused with 403 as `verify` decides. */
  lemma MiddlewareDecision(pathname: string, authorization: Option<string>, verify: string -> bool)
    ensures var d := Middleware(pathname, authorization, verify);
      && (Text.StartsWith(pathname, PublicPrefix) ==> d == Next)
      && (!Text.StartsWith(pathname, PublicPrefix) ==>
            (d == Deny(401, "Unauthorized middle") <==> !TextTruthy(Token(authorization))))
      && (!Text.StartsWith(pathname, PublicPrefix) && TextTruthy(Token(authorization)) ==>
            (d == Next <==> verify(Token(authorization).value)) &&
            (d == Deny(403, "Invalid token") <==> !verify(Token(authorization).value)))
  {
  }

  /** The public check is a plain prefix test, not a path-segment test. */
  lemma PrefixNotSegmentAware(authorization: Option<string>, verify: string -> bool)
    ensures Middleware("/api/authx", authorization, verify) == Next
    ensures Middleware("/api/auth/login", authorization, verify) == Next
  {
    assert "/api/authx"[..9] == PublicPrefix;
    assert "/api/auth/login"[..9] == PublicPrefix;
  }

  /** "Bearer" alone, and "Bearer" followed by two spaces, carry no token. */
  lemma MalformedHeadersUnauthorized(pathname: string, verify: string -> bool)
    requires !Text.StartsWith(pathname, PublicPrefix)
    ensures Middleware(pathname, None, verify) == Deny(401, "Unauthorized middle")
    ensures Middleware(pathname, Some("Bearer"), verify) == Deny(401, "Unauthorized middle")
    ensures Middleware(pathname, Some("Bearer  abc"), verify) == Deny(401, "Unauthorized middle")
  {
    TokenIsSecondField("Bearer", "", " abc");
    assert "Bearer" + " " + "" + " abc" == "Bearer  abc";
  }
}
