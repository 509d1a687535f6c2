/**
 * The two revisions of `is_authorized` side by side: the file-configured one
 * (`Configuration`) and the environment-configured one (`Authentication`).
 * They agree on every request except one whose header is not text.
 */
module AuthRevisions {
  import Wrappers
  import HeaderValues
  import Cfg = Configuration
  import Env = Authentication

  /** The environment revision's configuration expecting the same header as a file revision's one. */
  function Counterpart(auth: Cfg.Authentication): (c: Env.Configuration)
    ensures auth.None? <==> c.auth.None?
    ensures auth.Basic? ==> c.auth.value.header == auth.header
  {
    match auth
    case None => Env.Configuration(Wrappers.None)
    case Basic(header) => Env.Configuration(Wrappers.Some(Env.AuthConfig(Env.Basic, header)))
  }

  /** On a missing header or a header that is text, both revisions decide alike. */
  lemma AgreeOnText(config: Cfg.Configuration, header: Wrappers.Option<HeaderValues.HeaderValue>)
    requires header.Some? ==> HeaderValues.ToStr(header.value).Some?
    ensures Cfg.IsAuthorized(config, header) == Env.IsAuthorized(Counterpart(config.auth), header)
  {
  }

  /**
   * On a header that is not text, the environment revision refuses, while the
   * file revision compares it as the empty text and so lets it pass exactly
   * when the expected header is empty.
   */
  lemma DifferOnNonText(header: string, v: HeaderValues.HeaderValue, i18n: Cfg.Internationalization)
    requires HeaderValues.ToStr(v).None?
    ensures !Env.IsAuthorized(Counterpart(Cfg.Basic(header)), Wrappers.Some(v))
    ensures Cfg.IsAuthorized(Cfg.Configuration(Cfg.Basic(header), i18n), Wrappers.Some(v)) <==> header == ""
  {
  }

  /**
   * The difference is reachable by a real request: the single obs-text byte
   * 0x80 is a value a `HeaderValue` can hold but not text, so it passes an
   * empty expected header in the file revision only.
   */
  lemma ObsTextAgainstEmptyHeader(i18n: Cfg.Internationalization)
    ensures Cfg.IsAuthorized(Cfg.Configuration(Cfg.Basic(""), i18n), Wrappers.Some([0x80]))
    ensures !Env.IsAuthorized(Counterpart(Cfg.Basic("")), Wrappers.Some([0x80]))
  {
    var obs: HeaderValues.HeaderValue := [0x80];
    assert !HeaderValues.IsVisibleAscii(obs[0]);
    assert HeaderValues.ToStr(obs).None?;
  }
}
