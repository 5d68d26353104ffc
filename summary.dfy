/** The summary of a run handed to the caller: the commit, the number of
    changed sites, the single host if there is one, the hosts and the sites. */
module Summary {
  import opened Wrappers
  import opened Urls
  import Sorting
  import CommitMessage

  datatype Summary = Summary(
    commit: Option<string>,
    siteamount: nat,
    singlehost: Option<string>,
    hosts: seq<string>,
    sites: seq<Url>)

  /** `Summary::new` */
  function New(commit: Option<string>, changed: seq<Url>): (r: Summary)
    ensures Sorting.SortedBy(r.sites, UrlLe)
    ensures forall u :: u in r.sites <==> u in changed
    ensures forall h :: h in r.hosts <==> exists u :: u in changed && HostStr(u) == Some(h)
    ensures r.siteamount == |r.sites| && r.commit == commit
    ensures r.singlehost.Some? <==> |r.hosts| == 1
    ensures r.singlehost.Some? ==> r.hosts == [r.singlehost.value]
  {
    var sites := CommitMessage.Sites(changed);
    var hosts := CommitMessage.Hosts(sites);
    var single := if |hosts| == 1 then Some(hosts[0]) else None;
    Summary(commit, |sites|, single, hosts, sites)
  }

  /** The summary names a single host exactly when every changed URL with a
      host has that host, and there is at least one. */
  lemma SingleHostOfSummary(commit: Option<string>, changed: seq<Url>, h: string)
    ensures New(commit, changed).singlehost == Some(h)
        <==> (exists u :: u in changed && u.host.Some?)
             && (forall u :: u in changed && u.host.Some? ==> HostStr(u) == Some(h))
  {
    CommitMessage.SingleHostHeader(changed, h);
  }
}
