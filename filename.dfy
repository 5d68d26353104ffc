/** `basename`: the file name stem of a URL. The host comes first with its
    labels reversed, then the port, the path and the query; every run of
    characters that are not ASCII letters or digits becomes one '-'. */
module Filename {
  import opened Wrappers
  import opened Urls
  import Text
  import Sorting

  /** A domain without a leading "www.", its labels in reverse order, joined
      by '-'. */
  function ReversedLabels(domain: string): string {
    Text.Join(Sorting.Reverse(Text.Split(Text.TrimStartMatches(domain, "www."), '.')), "-")
  }

  /** The host part: the reversed labels of a domain, else `host_str`. */
  function HostPart(u: Url): string
    requires u.host.Some?
  {
    match DomainOf(u)
    case Some(d) => ReversedLabels(d)
    case None => HostStr(u).value
  }

  function PortText(u: Url): string {
    if u.port.Some? then Text.NatToString(u.port.value) else ""
  }

  /** `format!("{host_part}-{port}-{path}-{query}")` */
  function Raw(u: Url): string
    requires u.host.Some?
  {
    HostPart(u) + "-" + PortText(u) + "-" + u.path + "-" + u.query.GetOr("")
  }

  /** `basename`; a URL without a host makes the program panic. */
  function Basename(u: Url): (r: string)
    requires u.host.Some?
    ensures Text.IsCleanStem(r)
    ensures Text.Alnums(r) == Text.Alnums(Raw(u))
  {
    Text.CleanStemKeepsAlnums(Raw(u));
    Text.CleanStem(Raw(u))
  }

  // ------------------------------------------------------------ properties

  /** Scheme and fragment are only part of the serialization, which the
      name does not read. */
  lemma SchemeAndFragmentIgnored(a: Url, b: Url)
    requires a.host.Some? && a.host == b.host && a.port == b.port
    requires a.path == b.path && a.query == b.query
    ensures Basename(a) == Basename(b)
  {
    assert HostPart(a) == HostPart(b) by {
      assert DomainOf(a) == DomainOf(b) && HostStr(a) == HostStr(b);
    }
    assert Raw(a) == Raw(b);
  }

  /** A leading "www." does not change the name. */
  lemma WwwIgnored(u: Url, d: string)
    requires u.host == Some(Domain("www." + d))
    ensures Basename(u) == Basename(u.(host := Some(Domain(d))))
  {
    assert "www." <= "www." + d;
    assert ("www." + d)[4..] == d;
  }

  /** A domain's labels come out in reverse order. */
  lemma LabelsReversed(labels: seq<string>)
    requires |labels| >= 1
    requires forall i :: 0 <= i < |labels| ==> '.' !in labels[i]
    requires !("www." <= Text.Join(labels, "."))
    ensures ReversedLabels(Text.Join(labels, ".")) == Text.Join(Sorting.Reverse(labels), "-")
  {
    Text.SplitJoin(labels, '.');
  }

  /** A slash at the end of the path does not change the name. */
  lemma TrailingSlashIgnored(u: Url, p: string)
    requires u.host.Some? && u.path == p + "/"
    ensures Basename(u) == Basename(u.(path := p))
  {
    var v := u.(path := p);
    assert Text.CleanStem(Raw(u)) == Text.CleanStem(Raw(v)) by {
      var a := HostPart(u) + "-" + PortText(u) + "-" + p;
      var b := "-" + u.query.GetOr("");
      assert HostPart(v) == HostPart(u) by {
        assert DomainOf(v) == DomainOf(u) && HostStr(v) == HostStr(u);
      }
      assert Raw(u) == a + ['/'] + b;
      assert Raw(v) == a + b;
      Text.CollapseAbsorbs(a, '/', b);
    }
  }
}
