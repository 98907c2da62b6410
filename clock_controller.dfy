/** The clock routes: the device-session token comes from the `device_session` cookie when it is
    non-empty, else from an `Authorization: Bearer <token>` header; a null service result becomes a
    401 error. */
module ClockController {
  import opened Wrappers
  import opened JsStrings
  import opened Db

  const BearerPrefix: string := "Bearer "

  /** The header a client sends to present `token`. */
  function BearerHeader(token: string): string {
    BearerPrefix + token
  }

  /** The token both routes compute from the cookie and the Authorization header. */
  function ExtractToken(cookie: Option<string>, authorization: Option<string>): (r: Option<string>)
    ensures Truthy(cookie) ==> r == cookie
    ensures r.None? <==> !Truthy(cookie) && (authorization.None? || !StartsWith(authorization.value, BearerPrefix))
    ensures r.Some? && !Truthy(cookie) ==> authorization == Some(BearerHeader(r.value))
  {
    if Truthy(cookie) then cookie
    else if authorization.Some? && StartsWith(authorization.value, BearerPrefix) then
      assert authorization.value == BearerPrefix + authorization.value[7..];
      Some(authorization.value[7..])
    else None
  }

  /** Without a usable cookie, a Bearer header carries exactly the token it was built from. */
  lemma BearerRoundTrip(cookie: Option<string>, token: string)
    requires !Truthy(cookie)
    ensures ExtractToken(cookie, Some(BearerHeader(token))) == Some(token)
  {
    assert (BearerPrefix + token)[..7] == BearerPrefix;
    assert (BearerPrefix + token)[7..] == token;
  }

  /** An empty cookie counts as missing: the header is consulted instead. */
  lemma EmptyCookieFallsThrough(authorization: Option<string>)
    ensures ExtractToken(Some(""), authorization) == ExtractToken(None, authorization)
  {
  }

  /** `POST /clock` and `GET /clock/status`: the session service (not part of this model, so given as
      `service`) is asked with the extracted token; its null result is a 401 with the route's message. */
  function Route<R>(service: (Option<string>, string) -> Option<R>, cookie: Option<string>,
                    authorization: Option<string>, passcode: string): (r: Result<R, HttpError>)
    ensures r.Err? <==> service(ExtractToken(cookie, authorization), passcode).None?
    ensures r.Err? ==> r.error == Unauthorized("Unauthorized or Invalid Passcode")
    ensures r.Ok? ==> Some(r.value) == service(ExtractToken(cookie, authorization), passcode)
  {
    match service(ExtractToken(cookie, authorization), passcode)
    case None => Err(Unauthorized("Unauthorized or Invalid Passcode"))
    case Some(v) => Ok(v)
  }
}
