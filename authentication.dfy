/**
 * The environment-configured revision of authorization: when `AUTH` is set,
 * its value is the exact `Authorization` header to expect.
 */
module Authentication {
  import opened Bytes
  import Wrappers
  import HeaderValues

  /** `AuthType`: the only scheme this revision knows. */
  datatype AuthType = Basic

  /** `AuthConfig`: the scheme and the exact header text a request must carry. */
  datatype AuthConfig = AuthConfig(kind: AuthType, header: string)

  /** `Configuration`: authentication is on exactly when there is an `AuthConfig`. */
  datatype Configuration = Configuration(auth: Wrappers.Option<AuthConfig>)

  /**
   * `get_config`: `auth` is the value of the `AUTH` variable, or nothing when
   * it is unset (or not Unicode, which `std::env::var` also reports as an
   * error). The value becomes the expected header as it is, with no scheme
   * word added.
   */
  function GetConfig(auth: Wrappers.Option<string>): (c: Configuration)
    ensures c.auth.None? <==> auth.None?
    ensures auth.Some? ==> c.auth.value.kind == Basic && c.auth.value.header == auth.value
  {
    if auth.Some? then Configuration(Wrappers.Some(AuthConfig(Basic, auth.value)))
    else Configuration(Wrappers.None)
  }

  /**
   * `is_authorized`: without authentication every request passes; with it, a
   * request passes only when it carries a header that is text and equals the
   * expected header exactly. A header that is not text is refused.
   */
  function IsAuthorized(config: Configuration, header: Wrappers.Option<HeaderValues.HeaderValue>): (ok: bool)
    ensures config.auth.None? ==> ok
    ensures config.auth.Some? ==>
      (ok <==> header.Some? && HeaderValues.ToStr(header.value) == Wrappers.Some(config.auth.value.header))
  {
    if config.auth.Some? then
      match config.auth.value.kind
      case Basic =>
        if header.Some? then
          match HeaderValues.ToStr(header.value)
          case Some(actual) => actual == config.auth.value.header
          case None => false
        else false
    else true
  }

  /**
   * With `AUTH` set to a visible-ASCII text, the request carrying exactly that
   * text passes, and every request whose header text differs is refused.
   */
  lemma ExactlyTheEnvironmentValue(auth: string, v: HeaderValues.HeaderValue)
    requires HeaderValues.IsVisibleText(auth)
    ensures IsAuthorized(GetConfig(Wrappers.Some(auth)), Wrappers.Some(HeaderValues.FromText(auth)))
    ensures HeaderValues.ToStr(v) != Wrappers.Some(auth) ==> !IsAuthorized(GetConfig(Wrappers.Some(auth)), Wrappers.Some(v))
  {
    HeaderValues.ToStrFromText(auth);
  }

  /** No `Basic ` is added: with `AUTH` holding only the credentials, a request sending `Basic ` and those credentials is refused. */
  lemma NoSchemeWordAdded(credentials: string)
    requires HeaderValues.IsVisibleText(credentials)
    ensures !IsAuthorized(GetConfig(Wrappers.Some(credentials)), Wrappers.Some(HeaderValues.FromText("Basic " + credentials)))
  {
    var sent := "Basic " + credentials;
    assert HeaderValues.IsVisibleText(sent);
    HeaderValues.ToStrFromText(sent);
    assert |sent| != |credentials|;
  }
}
