/** The configuration file: a `from` address and a list of entries, each
    holding one URL or several with the options they share. Reading and
    parsing the file is left out; `load` receives its parsed contents. */
module Config {
  import opened Wrappers
  import opened Urls
  import Sorting
  import Site
  import Http

  datatype UrlVariants = Single(url: Url) | Many(urls: seq<Url>)

  datatype SiteEntry = SiteEntry(url: UrlVariants, options: Site.Options)

  datatype Config = Config(from: string, sites: seq<SiteEntry>)

  /** The URLs of an entry, in order. */
  function UrlsOf(v: UrlVariants): seq<Url> {
    match v
    case Single(u) => [u]
    case Many(us) => us
  }

  /** `is_empty`: only a list can be empty. */
  function IsEmpty(v: UrlVariants): (r: bool)
    ensures r <==> UrlsOf(v) == []
    ensures v.Single? ==> !r
  {
    match v
    case Single(_) => false
    case Many(us) => us == []
  }

  /** Each URL with the options of its entry. */
  function SitesOf(urls: seq<Url>, options: Site.Options): (r: seq<Site.Site>)
    ensures |r| == |urls|
    ensures forall i :: 0 <= i < |urls| ==> r[i] == Site.Site(urls[i], options)
  {
    seq(|urls|, i requires 0 <= i < |urls| => Site.Site(urls[i], options))
  }

  function EntrySites(entry: SiteEntry): seq<Site.Site> {
    SitesOf(UrlsOf(entry.url), entry.options)
  }

  /** The sites of the entries, entry after entry. */
  function AllSites(entries: seq<SiteEntry>): seq<Site.Site> {
    if entries == [] then []
    else AllSites(entries[..|entries| - 1]) + EntrySites(entries[|entries| - 1])
  }

  /** The number of URLs of the entries. */
  function UrlCount(entries: seq<SiteEntry>): nat {
    if entries == [] then 0
    else UrlCount(entries[..|entries| - 1]) + |UrlsOf(entries[|entries| - 1].url)|
  }

  /** `get_sites`: pushes one site per URL, entry after entry. */
  method GetSites(config: Config) returns (result: seq<Site.Site>)
    ensures result == AllSites(config.sites)
  {
    result := [];
    for e := 0 to |config.sites|
      invariant result == AllSites(config.sites[..e])
    {
      var entry := config.sites[e];
      assert config.sites[..e + 1][..e] == config.sites[..e];
      match entry.url {
        case Single(url) =>
          result := result + [Site.Site(url, entry.options)];
        case Many(many) =>
          ghost var before := result;
          for k := 0 to |many|
            invariant result == before + SitesOf(many[..k], entry.options)
          {
            assert SitesOf(many[..k + 1], entry.options) == SitesOf(many[..k], entry.options) + [Site.Site(many[k], entry.options)];
            result := result + [Site.Site(many[k], entry.options)];
          }
          assert many[..|many|] == many;
      }
    }
    assert config.sites[..|config.sites|] == config.sites;
  }

  // ------------------------------------------------------------ validation

  const EmptyList: string := "site list is empty"
  const EmptyEntry: string := "site entry has no urls"
  const Duplicates: string := "Some sites are duplicates of each other"

  /** Every site has a domain, which its file name is made from. */
  predicate AllHaveDomains(entries: seq<SiteEntry>) {
    forall i :: 0 <= i < |AllSites(entries)| ==> Site.HasDomain(AllSites(entries)[i])
  }

  /** What `validate_sites` accepts. */
  predicate SitesValid(entries: seq<SiteEntry>)
    requires AllHaveDomains(entries)
  {
    entries != []
    && (forall e :: 0 <= e < |entries| ==> !IsEmpty(entries[e].url))
    && Sorting.Distinct(Site.GetAllFilenames(AllSites(entries)))
  }

  /** `validate_sites`; a site without a domain makes the program panic. */
  method ValidateSites(config: Config) returns (r: Result<()>)
    requires AllHaveDomains(config.sites)
    ensures r.Ok? <==> SitesValid(config.sites)
    ensures config.sites == [] ==> r == Err(EmptyList)
    ensures config.sites != [] && (exists e :: 0 <= e < |config.sites| && IsEmpty(config.sites[e].url))
            ==> r == Err(EmptyEntry)
    ensures r.Err? && r.error != EmptyList && r.error != EmptyEntry ==> r.error == Duplicates
  {
    if config.sites == [] {
      return Err(EmptyList);
    }
    for e := 0 to |config.sites|
      invariant forall j :: 0 <= j < e ==> !IsEmpty(config.sites[j].url)
    {
      if IsEmpty(config.sites[e].url) {
        return Err(EmptyEntry);
      }
    }
    var sites := GetSites(config);
    r := Site.ValidateNoDuplicate(sites);
  }

  /** `validate`: the `from` address, then the sites. The environment
      warnings are left out. */
  method Validate(config: Config) returns (r: Result<()>)
    requires AllHaveDomains(config.sites)
    ensures r.Ok? <==> Http.ValidateFrom(config.from).Ok? && SitesValid(config.sites)
    ensures Http.ValidateFrom(config.from).Err? ==> r == Err(FromInvalid(config.from))
  {
    if Http.ValidateFrom(config.from).Err? {
      return Err(FromInvalid(config.from));
    }
    r := ValidateSites(config);
  }

  function FromInvalid(from: string): string {
    "from (" + from + ") is invalid"
  }

  /** `load`: the parsed file, its `from` replaced by the one given on the
      command line, returned once it is valid. */
  method Load(parsed: Result<Config>, cliFrom: Option<string>) returns (r: Result<Config>)
    requires parsed.Ok? ==> AllHaveDomains(parsed.value.sites)
    ensures parsed.Err? ==> r == Err(parsed.error)
    ensures r.Ok? <==> parsed.Ok? && Http.ValidateFrom(cliFrom.GetOr(parsed.value.from)).Ok?
                       && SitesValid(parsed.value.sites)
    ensures r.Ok? ==> r.value == Config(cliFrom.GetOr(parsed.value.from), parsed.value.sites)
  {
    if parsed.Err? {
      return Err(parsed.error);
    }
    var config := parsed.value;
    if cliFrom.Some? {
      config := config.(from := cliFrom.value);
    }
    var v := Validate(config);
    if v.Err? {
      return Err(v.error);
    }
    r := Ok(config);
  }

  // ------------------------------------------------------------ properties

  lemma {:induction false} AllSitesAppend(a: seq<SiteEntry>, b: seq<SiteEntry>)
    ensures AllSites(a + b) == AllSites(a) + AllSites(b)
    decreases |b|
  {
    if b == [] {
      assert a + b == a;
    } else {
      var init, last := b[..|b| - 1], b[|b| - 1];
      assert (a + b)[..|a + b| - 1] == a + init;
      assert (a + b)[|a + b| - 1] == last;
      calc {
        AllSites(a + b);
        AllSites(a + init) + EntrySites(last);
        { AllSitesAppend(a, init); }
        AllSites(a) + AllSites(init) + EntrySites(last);
        AllSites(a) + (AllSites(init) + EntrySites(last));
      }
    }
  }

  /** There are as many sites as URLs in the entries. */
  lemma {:induction false} SiteCountIsUrlCount(entries: seq<SiteEntry>)
    ensures |AllSites(entries)| == UrlCount(entries)
  {
    if entries != [] {
      SiteCountIsUrlCount(entries[..|entries| - 1]);
    }
  }

  /** The sites of entry `e` come after those of the entries before it, one
      per URL in order, each with the entry's options. */
  lemma EntryPlaced(entries: seq<SiteEntry>, e: nat, k: nat)
    requires e < |entries| && k < |UrlsOf(entries[e].url)|
    ensures UrlCount(entries[..e]) + k < |AllSites(entries)|
    ensures AllSites(entries)[UrlCount(entries[..e]) + k] == Site.Site(UrlsOf(entries[e].url)[k], entries[e].options)
  {
    SplitAt(entries, e);
    SiteCountIsUrlCount(entries[..e]);
    IndexInMiddle(AllSites(entries[..e]), EntrySites(entries[e]), AllSites(entries[e + 1..]), k);
  }

  lemma SplitAt(entries: seq<SiteEntry>, e: nat)
    requires e < |entries|
    ensures AllSites(entries) == AllSites(entries[..e]) + EntrySites(entries[e]) + AllSites(entries[e + 1..])
  {
    var before, entry, rest := entries[..e], entries[e], entries[e + 1..];
    calc {
      AllSites(entries);
      { SplitSeq(entries, e); }
      AllSites(before + [entry] + rest);
      { AllSitesAppend(before + [entry], rest); }
      AllSites(before + [entry]) + AllSites(rest);
      { AllSitesAppend(before, [entry]); AllSitesOne(entry); }
      AllSites(before) + EntrySites(entry) + AllSites(rest);
    }
  }

  lemma SplitSeq<T>(s: seq<T>, e: nat)
    requires e < |s|
    ensures s == s[..e] + [s[e]] + s[e + 1..]
  {
  }

  lemma AllSitesOne(entry: SiteEntry)
    ensures AllSites([entry]) == EntrySites(entry)
  {
    assert [entry][..0] == [];
  }

  lemma IndexInMiddle<T>(pre: seq<T>, mid: seq<T>, post: seq<T>, k: nat)
    requires k < |mid|
    ensures |pre| + k < |pre + mid + post|
    ensures (pre + mid + post)[|pre| + k] == mid[k]
  {
  }

  /** An entry of one URL adds one site; a list adds one site per URL. */
  lemma EntrySize(entries: seq<SiteEntry>, e: nat)
    requires e < |entries|
    ensures UrlCount(entries[..e + 1]) - UrlCount(entries[..e])
         == (match entries[e].url case Single(_) => 1 case Many(us) => |us|)
  {
    assert entries[..e + 1][..e] == entries[..e];
  }
}
