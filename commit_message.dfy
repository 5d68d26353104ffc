/** The commit message of a run: a header that names the single host, counts
    the changed sites or says that only meta files changed, then one line per
    changed site in the order of the serializations. The lists of sites and
    hosts are shared with the notification and the summary. */
module CommitMessage {
  import opened Wrappers
  import opened Urls
  import Text
  import Sorting

  // ------------------------------------------------------- sites and hosts

  /** The changed URLs, sorted by their serialization, neighbouring
      repetitions removed. */
  function Sites(changed: seq<Url>): (r: seq<Url>)
    ensures Sorting.SortedBy(r, UrlLe)
    ensures forall u :: u in r <==> u in changed
  {
    var sorted := Sorting.Sort(changed, UrlLe);
    UrlLeIsTotalPreorder();
    Sorting.SortSorted(changed, UrlLe);
    Sorting.SortKeepsElements(changed, UrlLe);
    Sorting.DedupSubsequenceSorted(sorted, UrlLe);
    Sorting.Dedup(sorted)
  }

  /** `host_str` of every URL that has a host, in order. */
  function HostsOf(sites: seq<Url>): (r: seq<string>)
    ensures |r| <= |sites|
    ensures forall h :: h in r <==> exists u :: u in sites && HostStr(u) == Some(h)
  {
    if sites == [] then []
    else
      var rest := HostsOf(sites[1..]);
      assert forall u :: u in sites <==> u == sites[0] || u in sites[1..];
      match HostStr(sites[0])
      case Some(h) => [h] + rest
      case None => rest
  }

  /** The hosts of the sorted sites, neighbouring repetitions removed. */
  function Hosts(sites: seq<Url>): seq<string> {
    Sorting.Dedup(HostsOf(sites))
  }

  // --------------------------------------------------------------- message

  const Eyes: string := "\U{1F310}\U{1F440} "
  const Background: string := "just background magic \U{1F9FD}\U{1F52E}\U{1F9F9}\n\ncleanup or updating meta files"

  function SingleHost(host: string): string {
    Eyes + host + "\n\n"
  }

  function Stalked(amount: nat): string {
    Eyes + "stalked " + Text.NatToString(amount) + " website changes\n\n"
  }

  /** The header: no host at all, a single host, or the number of sites. */
  function Header(hosts: seq<string>, amount: nat): string {
    if hosts == [] then Background
    else if |hosts| == 1 then SingleHost(hosts[0])
    else Stalked(amount)
  }

  function Line(site: string): string {
    "- " + site + "\n"
  }

  /** One line per site, in order. */
  function Lines(sites: seq<string>): string {
    if sites == [] then [] else Lines(sites[..|sites| - 1]) + Line(sites[|sites| - 1])
  }

  /** The message `commit_message` builds for the changed URLs. */
  function MessageOf(changed: seq<Url>): string {
    var sites := Sites(changed);
    Header(Hosts(sites), |sites|) + Lines(Hrefs(sites))
  }

  /** `commit_message`: writes the header, then appends one line per site. */
  method Message(changed: seq<Url>) returns (text: string)
    ensures text == MessageOf(changed)
  {
    var sites := Sites(changed);
    var hrefs := Hrefs(sites);
    text := Header(Hosts(sites), |sites|);
    ghost var head := text;
    for i := 0 to |sites|
      invariant text == head + Lines(hrefs[..i])
    {
      LinesStep(hrefs, i);
      Text.ConcatAssoc(head, Lines(hrefs[..i]), Line(hrefs[i]));
      text := text + Line(hrefs[i]);
    }
    assert hrefs[..|sites|] == hrefs;
  }

  lemma LinesStep(sites: seq<string>, i: nat)
    requires i < |sites|
    ensures Lines(sites[..i + 1]) == Lines(sites[..i]) + Line(sites[i])
  {
    assert sites[..i + 1][..i] == sites[..i];
  }

  // ------------------------------------------------------------ properties

  /** Without changes the message only speaks of meta files. */
  lemma NoChangeIsBackground()
    ensures MessageOf([]) == Background
  {
    assert Sites([]) == [];
    assert HostsOf([]) == [];
  }

  /** The header names a host exactly when every changed URL that has a host
      has that one, and there is at least one. */
  lemma SingleHostHeader(changed: seq<Url>, h: string)
    ensures Hosts(Sites(changed)) == [h]
        <==> (exists u :: u in changed && u.host.Some?)
             && (forall u :: u in changed && u.host.Some? ==> HostStr(u) == Some(h))
  {
    var all := HostsOf(Sites(changed));
    Sorting.DedupSingle(all, h);
    if all != [] && forall x :: x in all ==> x == h {
      OnlyHostListed(changed, h);
    }
    if (exists u :: u in changed && u.host.Some?)
       && (forall u :: u in changed && u.host.Some? ==> HostStr(u) == Some(h)) {
      var u :| u in changed && u.host.Some?;
      assert HostStr(u).value in all;
    }
  }

  lemma OnlyHostListed(changed: seq<Url>, h: string)
    requires HostsOf(Sites(changed)) != []
    requires forall x :: x in HostsOf(Sites(changed)) ==> x == h
    ensures exists u :: u in changed && u.host.Some?
    ensures forall u :: u in changed && u.host.Some? ==> HostStr(u) == Some(h)
  {
    var all := HostsOf(Sites(changed));
    var u :| u in Sites(changed) && HostStr(u) == Some(all[0]);
    forall v | v in changed && v.host.Some?
      ensures HostStr(v) == Some(h)
    {
      assert HostStr(v).value in all;
    }
  }

  /** The header only asks whether there are no hosts, one host or several,
      so the neighbouring repetitions `dedup` leaves behind when the same
      host is not adjacent do not change it: it is the header of the hosts
      sorted and free of repetitions. */
  lemma HeaderAsIfFullyDeduplicated(sites: seq<Url>, amount: nat)
    ensures Header(Hosts(sites), amount) == Header(Sorting.SortDedupStrings(HostsOf(sites)), amount)
  {
    var all := HostsOf(sites);
    var a := Hosts(sites);
    var b := Sorting.SortDedupStrings(all);
    assert a == [] <==> b == [] by {
      assert a == [] <==> all == [];
      assert b == [] <==> all == [] by {
        if all != [] {
          assert all[0] in b;
        }
      }
    }
    if a != [] {
      Sorting.DedupSingle(all, a[0]);
      Sorting.DistinctSingle(b, a[0]);
      Sorting.DistinctSingle(b, b[0]);
      Sorting.DedupSingle(all, b[0]);
      assert |a| == 1 <==> |b| == 1;
    }
  }

  /** Each line lists one site. */
  lemma {:induction false} LineOfEverySite(sites: seq<string>, k: nat)
    requires k < |sites|
    ensures Text.IsInfix(Line(sites[k]), Lines(sites))
  {
    var init := sites[..|sites| - 1];
    var last := Line(sites[|sites| - 1]);
    if k == |sites| - 1 {
      assert Line(sites[k]) <= last;
      Text.InfixAfter(last, Lines(init), last);
    } else {
      assert init[k] == sites[k];
      LineOfEverySite(init, k);
      Text.InfixBefore(Line(sites[k]), Lines(init), last);
    }
  }

  /** Every changed URL has its line in the message. */
  lemma EveryChangeListed(changed: seq<Url>, u: Url)
    requires u in changed
    ensures Text.IsInfix(Line(u.href), MessageOf(changed))
  {
    var sites := Sites(changed);
    var k :| 0 <= k < |sites| && sites[k] == u;
    LineOfEverySite(Hrefs(sites), k);
    Text.InfixAfter(Line(u.href), Header(Hosts(sites), |sites|), Lines(Hrefs(sites)));
  }

  /** A single changed URL with a host: the host, then the URL. */
  lemma OneSite(u: Url)
    requires u.host.Some?
    ensures MessageOf([u]) == SingleHost(HostStr(u).value) + Line(u.href)
  {
    assert Sorting.Sort([u], UrlLe) == [u];
    assert HostsOf([u]) == [HostStr(u).value];
    assert Hrefs([u]) == [u.href];
    assert Lines([u.href]) == Lines([]) + Line(u.href);
  }

  /** Two changed URLs of the same host: the host, then both URLs in the
      order of their serializations. */
  lemma TwoSitesSameHost(a: Url, b: Url)
    requires a.host.Some? && HostStr(a) == HostStr(b)
    requires Text.StrLe(a.href, b.href) && a.href != b.href
    ensures MessageOf([a, b]) == SingleHost(HostStr(a).value) + Line(a.href) + Line(b.href)
  {
    TwoSorted(a, b);
    TwoLines(a.href, b.href);
    HostsOfTwo(a, b);
  }

  /** Two changed URLs of different hosts: the number of sites, then both
      URLs in the order of their serializations. */
  lemma TwoSitesOtherHosts(a: Url, b: Url)
    requires a.host.Some? && b.host.Some? && HostStr(a) != HostStr(b)
    requires Text.StrLe(a.href, b.href) && a.href != b.href
    ensures MessageOf([a, b]) == Stalked(2) + Line(a.href) + Line(b.href)
  {
    TwoSorted(a, b);
    TwoLines(a.href, b.href);
    HostsOfTwo(a, b);
  }

  lemma TwoSorted(a: Url, b: Url)
    requires Text.StrLe(a.href, b.href) && a.href != b.href
    ensures Sites([a, b]) == [a, b]
    ensures Hrefs([a, b]) == [a.href, b.href]
  {
    assert [a, b][1..] == [b];
    assert Sorting.Sort([b], UrlLe) == [b];
    assert Sorting.Sort([a, b], UrlLe) == [a, b];
  }

  lemma HostsOfTwo(a: Url, b: Url)
    requires a.host.Some? && b.host.Some?
    ensures HostsOf([a, b]) == [HostStr(a).value, HostStr(b).value]
  {
    assert [a, b][1..] == [b];
    assert HostsOf([b]) == [HostStr(b).value] by {
      assert [b][1..] == [];
    }
  }

  lemma TwoLines(x: string, y: string)
    ensures Lines([x, y]) == Line(x) + Line(y)
  {
    assert [x, y][..1] == [x];
    assert Lines([x]) == Lines([]) + Line(x);
  }
}
