/** The settings of the older configuration loader: a `from` address, an
    optional user agent and the sites. Reading files and the environment is
    left out; `load` receives what they parsed into. */
module Settings {
  import opened Wrappers
  import opened Urls
  import Http

  datatype Site = Site(url: Url, kind: Option<string>)

  datatype Settings = Settings(from: string, userAgent: Option<string>, sites: seq<Site>)

  function NoEmail(from: string): string {
    "from doesnt look like an email address: " + from
  }

  /** `validate`: the `from` address holds an '@' and a '.'. */
  function Validate(settings: Settings): (r: Result<()>)
    ensures r.Ok? <==> '@' in settings.from && '.' in settings.from
    ensures r.Err? ==> r.error == NoEmail(settings.from)
  {
    if '@' !in settings.from || '.' !in settings.from then Err(NoEmail(settings.from)) else Ok(())
  }

  /** `load`: the parsed settings, returned only once they are valid. */
  function Load(parsed: Result<Settings>): (r: Result<Settings>)
    ensures r.Ok? <==> parsed.Ok? && Validate(parsed.value).Ok?
    ensures r.Ok? ==> r == parsed
    ensures parsed.Err? ==> r == parsed
  {
    var settings :- parsed;
    var _ :- Validate(settings);
    Ok(settings)
  }

  /** On an address of visible ASCII characters, the older check accepts what
      the HTTP client's check accepts; the two reject with different
      messages. */
  lemma AgreesWithHttpOnAscii(settings: Settings)
    requires forall i :: 0 <= i < |settings.from| ==> Http.IsVisibleAscii(settings.from[i])
    ensures Validate(settings).Ok? <==> Http.ValidateFrom(settings.from).Ok?
  {
  }

  /** The older check lets through addresses the HTTP client refuses. */
  lemma AcceptsWhatHttpRefuses()
    ensures Validate(Settings("föo@bär.de", None, [])).Ok?
    ensures Http.ValidateFrom("föo@bär.de").Err?
  {
    var s := "föo@bär.de";
    assert s[3] == '@' && s[7] == '.';
    assert !Http.IsVisibleAscii(s[1]);
  }
}
