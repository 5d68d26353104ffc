/** URLs as the url crate represents them: the serialization (`href`) is the
    identity of a URL (equality, order, `as_str`, `to_string`), and the parser
    extracts the other fields from it. Parsing and joining are not modelled;
    a join is a function value supplied by the caller. */
module Urls {
  import opened Wrappers
  import Text
  import Sorting

  datatype Host = Domain(name: string) | Ipv4(address: string) | Ipv6(address: string)

  /** `port` is `Url::port()`: absent when it is the scheme's default. */
  datatype Url = Url(href: string, host: Option<Host>, port: Option<nat>, path: string, query: Option<string>)

  /** `Url::host_str`: an IPv6 address is shown in brackets. */
  function HostStr(u: Url): (r: Option<string>)
    ensures r.Some? <==> u.host.Some?
  {
    match u.host
    case None => None
    case Some(Domain(name)) => Some(name)
    case Some(Ipv4(a)) => Some(a)
    case Some(Ipv6(a)) => Some("[" + a + "]")
  }

  /** `Url::domain`: only a host that is not an IP address. */
  function DomainOf(u: Url): (r: Option<string>)
    ensures r.Some? <==> u.host.Some? && u.host.value.Domain?
  {
    match u.host
    case Some(Domain(name)) => Some(name)
    case _ => None
  }

  /** `Ord for Url`: the order of the serializations. */
  predicate UrlLe(a: Url, b: Url) {
    Text.StrLe(a.href, b.href)
  }

  /** The serializations of a list of URLs, in order. */
  function Hrefs(urls: seq<Url>): (r: seq<string>)
    ensures |r| == |urls|
    ensures forall i :: 0 <= i < |urls| ==> r[i] == urls[i].href
  {
    seq(|urls|, i requires 0 <= i < |urls| => urls[i].href)
  }

  /** The parsed fields of a URL are read from its serialization, so two URLs
      of a list that serialize alike are the same URL. */
  predicate Coherent(urls: seq<Url>) {
    forall i, j :: 0 <= i < |urls| && 0 <= j < |urls| && urls[i].href == urls[j].href ==> urls[i] == urls[j]
  }

  /** The order of serializations is total and transitive; it is antisymmetric
      only on coherent lists. */
  lemma UrlLeIsTotalPreorder()
    ensures Sorting.IsTotalPreorder(UrlLe)
  {
    forall a, b
      ensures UrlLe(a, b) || UrlLe(b, a)
    {
      Text.StrLeTotal(a.href, b.href);
    }
    forall a, b, c | UrlLe(a, b) && UrlLe(b, c)
      ensures UrlLe(a, c)
    {
      Text.StrLeTransitive(a.href, b.href, c.href);
    }
  }

  lemma UrlLeAntisymmetricWithin(urls: seq<Url>, a: Url, b: Url)
    requires Coherent(urls) && a in urls && b in urls
    requires UrlLe(a, b) && UrlLe(b, a)
    ensures a == b
  {
    Text.StrLeAntisymmetric(a.href, b.href);
    var i :| 0 <= i < |urls| && urls[i] == a;
    var j :| 0 <= j < |urls| && urls[j] == b;
  }

  /** `Url::join` (relative reference resolution), left to the url crate. */
  type Joiner = (Url, string) -> Result<Url>
}
