/** The kinds of site: an HTML page or a UTF-8 text, each named by its URL
    with a fixed extension, and the check that no two sites share a file. */
module SiteVariants {
  import opened Wrappers
  import opened Urls
  import Sorting
  import Text
  import UrlFilename

  /** `Site`; the HTML variant keeps its optional selector. */
  datatype Site = Html(url: Url, cssSelector: Option<string>) | Utf8(url: Url)

  /** Both variants name their file from a domain. */
  predicate HasDomain(s: Site) {
    DomainOf(s.url).Some?
  }

  /** `Huntable::get_filename`, dispatched to the variant. */
  function GetFilename(s: Site): (r: string)
    requires HasDomain(s)
    ensures s.Html? ==> r == UrlFilename.Format(s.url, "html")
    ensures s.Utf8? ==> r == UrlFilename.Format(s.url, "txt")
  {
    match s
    case Html(url, _) => UrlFilename.Format(url, "html")
    case Utf8(url) => UrlFilename.Format(url, "txt")
  }

  function Filenames(sites: seq<Site>): (r: seq<string>)
    requires forall i :: 0 <= i < |sites| ==> HasDomain(sites[i])
    ensures |r| == |sites|
    ensures forall i :: 0 <= i < |sites| ==> r[i] == GetFilename(sites[i])
  {
    seq(|sites|, i requires 0 <= i < |sites| => GetFilename(sites[i]))
  }

  /** `validate_no_duplicate`: sort, remember the count, dedup, compare. */
  method ValidateNoDuplicate(sites: seq<Site>) returns (r: Result<()>)
    requires forall i :: 0 <= i < |sites| ==> HasDomain(sites[i])
    ensures r.Ok? <==> Sorting.Distinct(Filenames(sites))
    ensures r.Err? ==> r.error == "Some sites are duplicates of each other"
  {
    var filenames := Filenames(sites);
    filenames := Sorting.Sort(filenames, Text.StrLe);
    var amount := |filenames|;
    filenames := Sorting.Dedup(filenames);
    Sorting.StrLeIsTotalOrder();
    Sorting.SortDedupDetectsDuplicates(Filenames(sites), Text.StrLe);
    if |filenames| == amount {
      r := Ok(());
    } else {
      r := Err("Some sites are duplicates of each other");
    }
  }

  // ------------------------------------------------------------ properties

  /** Two HTML sites whose paths differ only by a final slash share a file. */
  lemma TrailingSlashSameFile(a: Site, b: Site, p: string)
    requires a.Html? && b.Html? && HasDomain(a) && a.url.path == p + "/"
    requires b.url == a.url.(path := p)
    requires !Text.IsSuffix("html", p + "/") && !Text.IsSuffix("html", p)
    ensures GetFilename(a) == GetFilename(b)
  {
    UrlFilename.TrailingSlashIgnored(a.url, p, "html");
  }

  /** So a site list holding both is rejected as having duplicates,
      wherever in the list the two stand. */
  lemma TrailingSlashSitesCollide(sites: seq<Site>, i: nat, j: nat, p: string)
    requires forall k :: 0 <= k < |sites| ==> HasDomain(sites[k])
    requires i < |sites| && j < |sites| && i != j
    requires sites[i].Html?
    requires sites[j].Html?
    requires sites[i].url.path == p + "/"
    requires sites[j].url == sites[i].url.(path := p)
    requires !Text.IsSuffix("html", p + "/")
    requires !Text.IsSuffix("html", p)
    ensures !Sorting.Distinct(Filenames(sites))
  {
    TrailingSlashSameFile(sites[i], sites[j], p);
    if i < j {
      SharedNameRejected(sites, i, j);
    } else {
      SharedNameRejected(sites, j, i);
    }
  }

  /** Two sites with the same file name make the check fail. */
  lemma SharedNameRejected(sites: seq<Site>, i: nat, j: nat)
    requires forall k :: 0 <= k < |sites| ==> HasDomain(sites[k])
    requires i < j < |sites| && GetFilename(sites[i]) == GetFilename(sites[j])
    ensures !Sorting.Distinct(Filenames(sites))
  {
    assert Filenames(sites)[i] == Filenames(sites)[j];
  }

  /** An HTML page and a text at the same URL are different files. */
  lemma VariantsNeverCollide(a: Site, b: Site)
    requires a.Html? && b.Utf8? && HasDomain(a) && HasDomain(b)
    ensures GetFilename(a) != GetFilename(b)
  {
  }
}
