/**
 * The YAML-configured revision of authorization: the configuration file names
 * either no authentication or a username and password, from which the
 * `Authorization` header to expect is rendered once at start-up.
 */
module Configuration {
  import opened Bytes
  import Wrappers
  import HeaderValues
  import Base64Url

  /** `AuthenticationOptions`, as written in the configuration file. */
  datatype AuthenticationOptions = NoneOption | BasicOption(username: string, password: string)

  /** `Authentication`, as the service uses it: nothing, or the exact header to expect. */
  datatype Authentication = None | Basic(header: string)

  /** `Untrusted`: the approval prompt (its `label` is `labelText` here, `label` being a keyword). */
  datatype Untrusted = Untrusted(labelText: string, button: string)

  /** Texts of the pages; carried through unchanged. */
  datatype Internationalization = Internationalization(
    lang: string, dir: string, countdown: string, blocker: string, approval: Untrusted)

  datatype ConfigurationFile = ConfigurationFile(auth: AuthenticationOptions, i18n: Internationalization)

  datatype Configuration = Configuration(auth: Authentication, i18n: Internationalization)

  /** The scheme word and space that start every rendered header. */
  const BasicPrefix: string := "Basic "

  /** The expected header for a username and password: `Basic ` and the base64url of `username:password`. */
  function RenderBasic(username: string, password: string): (header: string) {
    BasicPrefix + Base64Url.Encode(Utf8(username + ":" + password))
  }

  /** The rendered header is `Basic ` followed by a text that decodes back to the bytes of `username:password`. */
  lemma RenderedHeaderDecodes(username: string, password: string)
    ensures var header := RenderBasic(username, password);
      && |header| >= |BasicPrefix| && header[..|BasicPrefix|] == BasicPrefix
      && Base64Url.Decode(header[|BasicPrefix|..]) == Wrappers.Some(Utf8(username + ":" + password))
  {
    var bytes := Utf8(username + ":" + password);
    Base64Url.DecodeEncode(bytes);
    assert RenderBasic(username, password)[|BasicPrefix|..] == Base64Url.Encode(bytes);
  }

  /**
   * The mapping `get_config` applies to the parsed file: the texts are kept,
   * `none` means no authentication, and `basic` becomes the rendered header.
   */
  function GetConfig(file: ConfigurationFile): (c: Configuration)
    ensures c.i18n == file.i18n
    ensures c.auth.None? <==> file.auth.NoneOption?
    ensures file.auth.BasicOption? ==> c.auth == Basic(RenderBasic(file.auth.username, file.auth.password))
  {
    match file.auth
    case NoneOption => Configuration(None, file.i18n)
    case BasicOption(username, password) => Configuration(Basic(RenderBasic(username, password)), file.i18n)
  }

  /**
   * `is_authorized`: without authentication every request passes; with it, a
   * request passes only when it carries a header whose text is exactly the
   * expected one. A header that is not text is compared as the empty text.
   */
  function IsAuthorized(config: Configuration, headerValue: Wrappers.Option<HeaderValues.HeaderValue>): (ok: bool)
    ensures config.auth.None? ==> ok
    ensures config.auth.Basic? && headerValue.None? ==> !ok
    ensures config.auth.Basic? && headerValue.Some? ==>
      (ok <==> HeaderValues.ToStr(headerValue.value) == Wrappers.Some(config.auth.header)
               || (HeaderValues.ToStr(headerValue.value).None? && config.auth.header == ""))
  {
    match config.auth
    case None => true
    case Basic(header) =>
      if headerValue.Some? then header == HeaderValues.ToStr(headerValue.value).GetOr("")
      else false
  }

  /** Against a configuration read from the file, a request passes exactly when its header text is the rendered one. */
  lemma AuthorizedIffRenderedHeader(file: ConfigurationFile, v: HeaderValues.HeaderValue)
    requires file.auth.BasicOption?
    ensures IsAuthorized(GetConfig(file), Wrappers.Some(v))
      <==> HeaderValues.ToStr(v) == Wrappers.Some(RenderBasic(file.auth.username, file.auth.password))
  {
  }

  /** A header that is not text never passes against a configuration read from the file, since the rendered header is never empty. */
  lemma NonTextNeverAuthorized(file: ConfigurationFile, v: HeaderValues.HeaderValue)
    requires file.auth.BasicOption?
    requires HeaderValues.ToStr(v).None?
    ensures !IsAuthorized(GetConfig(file), Wrappers.Some(v))
  {
    var header := GetConfig(file).auth.header;
    assert |header| >= 6;
  }

  /** The rendered header fixes the credentials' bytes: two configurations expecting the same header were given the same `username:password`. */
  lemma RenderedHeaderDeterminesCredentials(u1: string, p1: string, u2: string, p2: string)
    requires RenderBasic(u1, p1) == RenderBasic(u2, p2)
    ensures Utf8(u1 + ":" + p1) == Utf8(u2 + ":" + p2)
  {
    RenderedHeaderDecodes(u1, p1);
    RenderedHeaderDecodes(u2, p2);
    var h := RenderBasic(u1, p1);
    assert Base64Url.Decode(h[|BasicPrefix|..]) == Wrappers.Some(Utf8(u1 + ":" + p1));
    assert Base64Url.Decode(h[|BasicPrefix|..]) == Wrappers.Some(Utf8(u2 + ":" + p2));
  }

  /** The rendered header uses only the URL-safe alphabet after its prefix: no `+` and no `/`. */
  lemma RenderedHeaderIsUrlSafe(username: string, password: string)
    ensures var h := RenderBasic(username, password);
      forall i :: |BasicPrefix| <= i < |h| ==> h[i] != '+' && h[i] != '/'
  {
    var b := Utf8(username + ":" + password);
    Base64Url.EncodeIsUrlSafe(b);
    var h := RenderBasic(username, password);
    assert h == BasicPrefix + Base64Url.Encode(b);
    forall i | |BasicPrefix| <= i < |h| ensures h[i] != '+' && h[i] != '/' {
      assert h[i] == Base64Url.Encode(b)[i - |BasicPrefix|];
    }
  }

  /** The bytes of `username:password`, in groups of three. */
  lemma ExampleCredentialBytes(s: string)
    requires s == "username" + ":" + "password"
    ensures Utf8(s) == [117, 115, 101] + ([114, 110, 97] + ([109, 101, 58] + ([112, 97, 115] + ([115, 119, 111] + [114, 100]))))
  {
    assert IsAscii(s);
    Utf8OfAscii(s);
  }

  /** The base64url text of those bytes, group by group. */
  lemma ExampleCredentialEncoding(bytes: seq<byte>)
    requires bytes == [117, 115, 101] + ([114, 110, 97] + ([109, 101, 58] + ([112, 97, 115] + ([115, 119, 111] + [114, 100]))))
    ensures Base64Url.Encode(bytes) == "dXNl" + ("cm5h" + ("bWU6" + ("cGFz" + ("c3dv" + "cmQ="))))
  {
    assert Base64Url.EncodeThree(117, 115, 101) == "dXNl";
    assert Base64Url.EncodeThree(114, 110, 97) == "cm5h";
    assert Base64Url.EncodeThree(109, 101, 58) == "bWU6";
    assert Base64Url.EncodeThree(112, 97, 115) == "cGFz";
    assert Base64Url.EncodeThree(115, 119, 111) == "c3dv";
    assert Base64Url.Encode([114, 100]) == "cmQ=";
    Base64Url.EncodeCons(115, 119, 111, [114, 100]);
    Base64Url.EncodeCons(112, 97, 115, [115, 119, 111] + [114, 100]);
    Base64Url.EncodeCons(109, 101, 58, [112, 97, 115] + ([115, 119, 111] + [114, 100]));
    Base64Url.EncodeCons(114, 110, 97, [109, 101, 58] + ([112, 97, 115] + ([115, 119, 111] + [114, 100])));
    Base64Url.EncodeCons(117, 115, 101, [114, 110, 97] + ([109, 101, 58] + ([112, 97, 115] + ([115, 119, 111] + [114, 100]))));
  }

  lemma ExampleHeaderText(encoded: string)
    requires encoded == "dXNl" + ("cm5h" + ("bWU6" + ("cGFz" + ("c3dv" + "cmQ="))))
    ensures BasicPrefix + encoded == "Basic dXNlcm5hbWU6cGFzc3dvcmQ="
  {
  }

  /** The header the dashboard test sends is the one rendered for username `username` and password `password`. */
  lemma ExampleRenderedHeader(username: string, password: string)
    requires username == "username" && password == "password"
    ensures RenderBasic(username, password) == "Basic dXNlcm5hbWU6cGFzc3dvcmQ="
  {
    var bytes := Utf8(username + ":" + password);
    ExampleCredentialBytes(username + ":" + password);
    ExampleCredentialEncoding(bytes);
    ExampleHeaderText(Base64Url.Encode(bytes));
  }
}
