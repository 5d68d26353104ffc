/** The bookkeeping of a run: the sites the filter selects, the checks of
    the git repository, the grouping of the sites by host, the requests of
    one host spaced by a delay, the fetching, editing and storing of one
    site, and the collection of the results into the changed URLs and the
    failure flag. The requests of different hosts run concurrently in the
    program; here they are handled one after the other. */
module Stalker {
  import opened Wrappers
  import opened Urls
  import Site
  import Editors
  import SiteStore
  import UrlFilename
  import Http
  import CommitMessage
  import Notification
  import Text

  /** A site as the run handles it: the configured site with the request
      headers of its options and whether its errors are to be ignored. */
  datatype Target = Target(site: Site.Site, headers: map<string, string>, ignoreError: bool)

  /** `host_str` of the site's URL, or the empty text for a URL without a
      host. */
  function HostKey(t: Target): string {
    match HostStr(t.site.url)
    case Some(h) => h
    case None => ""
  }

  predicate HasHost(t: Target) {
    t.site.url.host.Some?
  }

  /** The elements of `s` that satisfy `p`, in order. */
  function Filter<T(!new)>(s: seq<T>, p: T -> bool): (r: seq<T>)
    ensures |r| <= |s|
    ensures forall x :: multiset(r)[x] == if p(x) then multiset(s)[x] else 0
    ensures forall x :: x in r <==> x in s && p(x)
  {
    if s == [] then []
    else
      var init, last := s[..|s| - 1], s[|s| - 1];
      assert s == init + [last];
      Filter(init, p) + (if p(last) then [last] else [])
  }

  // ------------------------------------------------------------ selection

  const FilteredAll: string :=
    "The site-filter filtered everything out. Change the filter or use all sites with 'run --all'."

  /** The sites whose URL the filter matches; without a filter, all. The
      regex (matched case-insensitively) is a parameter. */
  function Selected(sites: seq<Target>, matches: Option<string -> bool>): (r: seq<Target>)
    ensures matches.None? ==> r == sites
    ensures matches.Some? ==> forall t :: t in r <==> t in sites && matches.value(t.site.url.href)
  {
    match matches
    case None => sites
    case Some(m) => Filter(sites, (t: Target) => m(t.site.url.href))
  }

  /** The state of the working directory's git repository. */
  datatype Repo = Clean | Modified | Missing(error: string)

  const Unclean: string := "The git repository is unclean. --commit can only be used in a clean repository."
  const UncleanWarning: string := "The git repository is unclean."
  const NoRepoWarning: string := "Not a git repository. Will run but won't do git actions."

  function NotARepo(error: string): string {
    "Not a git repository. --commit only works in git repos: " + error
  }

  /** The repository check before the run: with `--commit` the repository
      has to exist and be clean, otherwise a problem is only a warning. */
  function RepoCheck(repo: Repo, doCommit: bool): (r: Result<Option<string>>)
    ensures r.Err? <==> doCommit && !repo.Clean?
    ensures r == Ok(None) <==> repo.Clean?
    ensures r.Err? ==> r.error == (if repo.Modified? then Unclean else NotARepo(repo.error))
    ensures r.Ok? && r.value.Some? ==> r.value.value == (if repo.Modified? then UncleanWarning else NoRepoWarning)
  {
    match repo
    case Clean => Ok(None)
    case Modified => if doCommit then Err(Unclean) else Ok(Some(UncleanWarning))
    case Missing(e) => if doCommit then Err(NotARepo(e)) else Ok(Some(NoRepoWarning))
  }

  // ------------------------------------------------------------ grouping

  /** The sites on host `h`, in configuration order. */
  function OnHost(sites: seq<Target>, h: string): seq<Target> {
    if sites == [] then []
    else
      var last := sites[|sites| - 1];
      OnHost(sites[..|sites| - 1], h) + (if HostKey(last) == h then [last] else [])
  }

  /** The hosts of the sites. */
  function Hosts(sites: seq<Target>): set<string> {
    set i | 0 <= i < |sites| :: HostKey(sites[i])
  }

  /** Whether two of the sites share a host. */
  predicate SharedHost(sites: seq<Target>) {
    exists i, j :: 0 <= i < j < |sites| && HostKey(sites[i]) == HostKey(sites[j])
  }

  /** The grouping loop: each site is pushed onto the list of its host. */
  method GroupByHost(sites: seq<Target>) returns (groups: map<string, seq<Target>>)
    requires forall i :: 0 <= i < |sites| ==> HasHost(sites[i])
    ensures groups.Keys == Hosts(sites)
    ensures forall h :: h in groups ==> groups[h] == OnHost(sites, h)
  {
    groups := map[];
    for i := 0 to |sites|
      invariant groups.Keys == Hosts(sites[..i])
      invariant forall h :: h in groups ==> groups[h] == OnHost(sites[..i], h)
    {
      var site := sites[i];
      var host := HostStr(site.site.url).value;
      var group := if host in groups then groups[host] else [];
      TakeOneMore(sites, i);
      GroupStep(sites[..i], site, groups);
      groups := groups[host := group + [site]];
    }
    assert sites[..|sites|] == sites;
  }

  lemma TakeOneMore<T>(s: seq<T>, i: nat)
    requires i < |s|
    ensures s[..i + 1] == s[..i] + [s[i]]
  {
  }

  lemma FilterSnoc<T(!new)>(s: seq<T>, x: T, p: T -> bool)
    ensures Filter(s + [x], p) == Filter(s, p) + (if p(x) then [x] else [])
  {
    assert (s + [x])[..|s|] == s;
  }

  lemma HostsSnoc(sites: seq<Target>, t: Target)
    ensures Hosts(sites + [t]) == Hosts(sites) + {HostKey(t)}
  {
    var all := sites + [t];
    forall h | h in Hosts(all) ensures h in Hosts(sites) + {HostKey(t)} {
      var j :| 0 <= j < |all| && HostKey(all[j]) == h;
      if j < |sites| {
        assert all[j] == sites[j];
      }
    }
    forall h | h in Hosts(sites) ensures h in Hosts(all) {
      var j :| 0 <= j < |sites| && HostKey(sites[j]) == h;
      assert all[j] == sites[j];
    }
    assert all[|sites|] == t;
  }

  /** A host without a site has no group. */
  lemma {:induction false} NoSiteNoGroup(sites: seq<Target>, h: string)
    requires h !in Hosts(sites)
    ensures OnHost(sites, h) == []
  {
    if sites != [] {
      var init, last := sites[..|sites| - 1], sites[|sites| - 1];
      assert sites == init + [last];
      HostsSnoc(init, last);
      NoSiteNoGroup(init, h);
    }
  }

  /** One step of the grouping loop keeps its invariant. */
  lemma GroupStep(sites: seq<Target>, t: Target, groups: map<string, seq<Target>>)
    requires groups.Keys == Hosts(sites)
    requires forall h :: h in groups ==> groups[h] == OnHost(sites, h)
    ensures var host := HostKey(t);
      var next := groups[host := (if host in groups then groups[host] else []) + [t]];
      && next.Keys == Hosts(sites + [t])
      && forall h :: h in next ==> next[h] == OnHost(sites + [t], h)
  {
    HostsSnoc(sites, t);
    forall h {
      OnHostSnoc(sites, t, h);
    }
    if HostKey(t) !in groups {
      NoSiteNoGroup(sites, HostKey(t));
    }
  }

  lemma OnHostSnoc(sites: seq<Target>, t: Target, h: string)
    ensures OnHost(sites + [t], h) == OnHost(sites, h) + (if HostKey(t) == h then [t] else [])
  {
    assert (sites + [t])[..|sites|] == sites;
  }

  /** Every site is in exactly one group, that of its host, as often as it
      is configured, and a group holds its sites in configuration order. */
  lemma {:induction false} GroupsPartition(sites: seq<Target>, t: Target, h: string)
    ensures multiset(OnHost(sites, h))[t] == if HostKey(t) == h then multiset(sites)[t] else 0
  {
    if sites != [] {
      var init, last := sites[..|sites| - 1], sites[|sites| - 1];
      assert sites == init + [last];
      GroupsPartition(init, t, h);
    }
  }

  lemma SharedHostSnoc(sites: seq<Target>, t: Target)
    ensures SharedHost(sites + [t]) <==> SharedHost(sites) || HostKey(t) in Hosts(sites)
  {
    var all := sites + [t];
    if SharedHost(all) {
      var i, j :| 0 <= i < j < |all| && HostKey(all[i]) == HostKey(all[j]);
      assert all[i] == sites[i];
      if j < |sites| {
        assert all[j] == sites[j];
      } else {
        assert HostKey(sites[i]) == HostKey(t);
      }
    }
    if SharedHost(sites) {
      var i, j :| 0 <= i < j < |sites| && HostKey(sites[i]) == HostKey(sites[j]);
      assert all[i] == sites[i] && all[j] == sites[j];
    }
    if HostKey(t) in Hosts(sites) {
      var i :| 0 <= i < |sites| && HostKey(sites[i]) == HostKey(t);
      assert all[i] == sites[i] && all[|sites|] == t;
    }
  }

  /** There are fewer groups than sites exactly when two sites share a
      host; that is when the delay applies. */
  lemma {:induction false} FewerGroupsIffSharedHost(sites: seq<Target>)
    ensures |Hosts(sites)| <= |sites|
    ensures |Hosts(sites)| < |sites| <==> SharedHost(sites)
  {
    if sites == [] {
      assert Hosts(sites) == {};
    } else {
      var init, last := sites[..|sites| - 1], sites[|sites| - 1];
      assert sites == init + [last];
      FewerGroupsIffSharedHost(init);
      HostsSnoc(init, last);
      SharedHostSnoc(init, last);
    }
  }

  // ------------------------------------------------------------ schedule

  /** Seconds between two requests to the same host. */
  const Delay: nat := 5

  datatype Step = Wait(seconds: nat) | Fetch(target: Target)

  /** The requests of one host in order, each after the first preceded by
      the delay. */
  function Schedule(group: seq<Target>): seq<Step> {
    if group == [] then []
    else
      var init := group[..|group| - 1];
      Schedule(init) + Pause(init) + [Fetch(group[|group| - 1])]
  }

  /** The task of one host: enumerate the sites, sleeping before every one
      but the first. */
  method RunGroup(group: seq<Target>) returns (steps: seq<Step>)
    ensures steps == Schedule(group)
  {
    steps := [];
    for i := 0 to |group|
      invariant steps == Schedule(group[..i])
    {
      assert group[..i + 1][..i] == group[..i];
      if i > 0 {
        steps := steps + [Wait(Delay)];
      }
      steps := steps + [Fetch(group[i])];
    }
    assert group[..|group|] == group;
  }

  /** The sites fetched, in order. */
  function Fetched(steps: seq<Step>): seq<Target> {
    if steps == [] then []
    else Fetched(steps[..|steps| - 1]) + (match steps[|steps| - 1] case Fetch(t) => [t] case Wait(_) => [])
  }

  /** The seconds waited. */
  function Waited(steps: seq<Step>): nat {
    if steps == [] then 0
    else Waited(steps[..|steps| - 1]) + (match steps[|steps| - 1] case Wait(s) => s case Fetch(_) => 0)
  }

  lemma {:induction false} FetchedAppend(a: seq<Step>, b: seq<Step>)
    ensures Fetched(a + b) == Fetched(a) + Fetched(b)
    decreases |b|
  {
    if b == [] {
      assert a + b == a;
    } else {
      FetchedAppend(a, b[..|b| - 1]);
      assert (a + b)[..|a + b| - 1] == a + b[..|b| - 1];
    }
  }

  lemma {:induction false} WaitedAppend(a: seq<Step>, b: seq<Step>)
    ensures Waited(a + b) == Waited(a) + Waited(b)
    decreases |b|
  {
    if b == [] {
      assert a + b == a;
    } else {
      WaitedAppend(a, b[..|b| - 1]);
      assert (a + b)[..|a + b| - 1] == a + b[..|b| - 1];
    }
  }

  /** The pause before a request that is not the first. */
  function Pause(init: seq<Target>): seq<Step> {
    if init == [] then [] else [Wait(Delay)]
  }

  lemma ScheduleSnoc(group: seq<Target>)
    requires group != []
    ensures Schedule(group) == Schedule(group[..|group| - 1]) + Pause(group[..|group| - 1]) + [Fetch(group[|group| - 1])]
  {
  }

  /** The sites of a group are fetched once each, in configuration order. */
  lemma {:induction false} ScheduleFetchesGroup(group: seq<Target>)
    ensures Fetched(Schedule(group)) == group
  {
    if group != [] {
      var init, last := group[..|group| - 1], group[|group| - 1];
      ScheduleFetchesGroup(init);
      ScheduleSnoc(group);
      FetchedAppend(Schedule(init) + Pause(init), [Fetch(last)]);
      FetchedAppend(Schedule(init), Pause(init));
      assert Fetched([Fetch(last)]) == [last] by {
        assert [Fetch(last)][..0] == [];
      }
      assert Fetched(Pause(init)) == [] by {
        assert init != [] ==> Pause(init)[..0] == [];
      }
      TakeOneMore(group, |group| - 1);
      assert group[..|group|] == group;
    }
  }

  /** A host's task waits the delay once fewer times than it has sites. */
  lemma {:induction false} ScheduleWaits(group: seq<Target>)
    ensures Waited(Schedule(group)) == if group == [] then 0 else Delay * (|group| - 1)
  {
    if group != [] {
      var init, last := group[..|group| - 1], group[|group| - 1];
      ScheduleWaits(init);
      ScheduleSnoc(group);
      WaitedAppend(Schedule(init) + Pause(init), [Fetch(last)]);
      WaitedAppend(Schedule(init), Pause(init));
      assert Waited([Fetch(last)]) == 0 by {
        assert [Fetch(last)][..0] == [];
      }
      assert Waited(Pause(init)) == if init == [] then 0 else Delay by {
        assert init != [] ==> Pause(init)[..0] == [];
      }
    }
  }

  /** The first request of a host is sent at once. */
  lemma {:induction false} FirstRequestAtOnce(group: seq<Target>)
    requires group != []
    ensures Schedule(group)[0] == Fetch(group[0])
  {
    var init := group[..|group| - 1];
    if init != [] {
      FirstRequestAtOnce(init);
      assert Schedule(init) != [];
    }
  }

  // ------------------------------------------------------------ one site

  /** The name of the request header that carries the contact address. */
  const FromHeader: string := "from"

  /** The site's headers, with `from` added unless it is set already. */
  function WithFrom(headers: map<string, string>, from: string): (r: map<string, string>)
    ensures FromHeader in r
    ensures r[FromHeader] == if FromHeader in headers then headers[FromHeader] else from
    ensures forall k :: k != FromHeader ==> (k in r <==> k in headers)
    ensures forall k :: k in headers ==> k in r && r[k] == headers[k]
  {
    if FromHeader in headers then headers else headers[FromHeader := from]
  }

  /** A response: the final URL after redirects, the extension its content
      type suggests, the body if it decodes to text, and the IP version of
      the peer. */
  datatype Response = Response(url: Url, extension: Option<string>, text: Result<string>, ipVersion: Http.IpVersion)

  /** The HTTP client: URL, headers and certificate leniency to a
      response or an error. */
  type Fetcher = (string, map<string, string>, bool) -> Result<Response>

  /** The response and the edited content of a site, or the first error. */
  function Edited(from: string, t: Target, fetch: Fetcher, libs: Editors.Libs): Result<(Response, Editors.Content)> {
    var response :- fetch(t.site.url.href, WithFrom(t.headers, from), t.site.options.acceptInvalidCerts);
    var text :- response.text;
    var content :- Editors.ChainFrom(t.site.options.editors, 0, response.url, Editors.Content(response.extension, text), libs);
    Ok((response, content))
  }

  /** The file of a site: its configured URL with the extension the editors
      leave, "txt" when they leave none. */
  function FileName(s: Site.Site, content: Editors.Content): (r: string)
    requires Site.HasDomain(s)
    ensures Text.IsSuffix("." + content.extension.GetOr("txt"), r)
  {
    UrlFilename.Format(s.url, content.extension.GetOr("txt"))
  }

  /** `stalk_and_save_site`: fetch with the `from` header, run the editors
      on the text relative to the final URL, and write the file when its
      content changed. */
  method StalkAndSave(from: string, t: Target, fetch: Fetcher, libs: Editors.Libs, store: SiteStore.Store)
    returns (r: Result<(SiteStore.ChangeKind, Http.IpVersion)>)
    requires Site.HasDomain(t.site)
    modifies store
    ensures var e := Edited(from, t, fetch, libs);
      && (e.Err? ==> r == Err(e.error) && store.files == old(store.files))
      && (e.Ok? ==>
            var name := FileName(t.site, e.value.1);
            && r == Ok((SiteStore.KindOf(old(store.files), name, e.value.1.text), e.value.0.ipVersion))
            && store.files == old(store.files)[name := SiteStore.Utf8(SiteStore.Normalize(e.value.1.text))])
  {
    var headers := t.headers;
    if FromHeader !in headers {
      headers := headers[FromHeader := from];
    }
    var response := fetch(t.site.url.href, headers, t.site.options.acceptInvalidCerts);
    if response.Err? {
      return Err(response.error);
    }
    var resp := response.value;
    if resp.text.Err? {
      return Err(resp.text.error);
    }
    var content := Editors.Content(resp.extension, resp.text.value);
    var edited := Editors.ApplyMany(t.site.options.editors, resp.url, content, libs);
    if edited.Err? {
      return Err(edited.error);
    }
    var extension := edited.value.extension.GetOr("txt");
    var name := UrlFilename.Format(t.site.url, extension);
    var kind := store.WriteOnlyChanged(name, edited.value.text);
    r := Ok((kind, resp.ipVersion));
  }

  /** A `from` header the site sets itself is sent unchanged. */
  lemma OwnFromKept(headers: map<string, string>, from: string, own: string)
    requires FromHeader in headers && headers[FromHeader] == own
    ensures WithFrom(headers, from) == headers
  {
  }

  /** A site whose editors leave no extension is stored as text. */
  lemma NoExtensionIsTxt(s: Site.Site, text: string)
    requires Site.HasDomain(s)
    ensures Text.IsSuffix(".txt", FileName(s, Editors.Content(None, text)))
  {
  }

  // ------------------------------------------------------------ results

  /** What a site task reports: its configured URL, the outcome, and
      whether an error is to be ignored. */
  datatype Report = Report(url: Url, outcome: Result<(SiteStore.ChangeKind, Http.IpVersion)>, ignoreError: bool)

  predicate IsInteresting(r: Report) {
    r.outcome.Ok? && !r.outcome.value.0.ContentSame?
  }

  predicate Fails(r: Report) {
    r.outcome.Err? && !r.ignoreError
  }

  /** The URLs of the reports of new or changed content, in order. */
  function Interesting(reports: seq<Report>): seq<Url> {
    if reports == [] then []
    else
      var last := reports[|reports| - 1];
      Interesting(reports[..|reports| - 1]) + (if IsInteresting(last) then [last.url] else [])
  }

  /** A URL is collected exactly when a report of it has new or changed
      content. */
  lemma {:induction false} InterestingMembers(reports: seq<Report>)
    ensures |Interesting(reports)| <= |reports|
    ensures forall i :: 0 <= i < |reports| && IsInteresting(reports[i]) ==> reports[i].url in Interesting(reports)
    ensures forall u :: u in Interesting(reports) ==> exists i :: 0 <= i < |reports| && reports[i].url == u && IsInteresting(reports[i])
  {
    if reports != [] {
      var init, last := reports[..|reports| - 1], reports[|reports| - 1];
      InterestingMembers(init);
      forall i | 0 <= i < |init| ensures init[i] == reports[i] {
      }
    }
  }

  /** Some URL is collected exactly when some report has new or changed
      content. */
  lemma InterestingNonEmpty(reports: seq<Report>)
    ensures Interesting(reports) != [] <==> exists i :: 0 <= i < |reports| && IsInteresting(reports[i])
  {
    InterestingMembers(reports);
    var urls := Interesting(reports);
    if urls != [] {
      assert urls[0] in urls;
    }
  }

  /** The receive loop: count the reports, keep the URLs of new or changed
      content, and note a failure that is not to be ignored. */
  method Collect(reports: seq<Report>) returns (urls: seq<Url>, failed: bool, amountDone: nat)
    ensures amountDone == |reports|
    ensures urls == Interesting(reports)
    ensures failed <==> exists i :: 0 <= i < |reports| && Fails(reports[i])
  {
    urls, failed, amountDone := [], false, 0;
    for k := 0 to |reports|
      invariant amountDone == k
      invariant urls == Interesting(reports[..k])
      invariant failed <==> exists i :: 0 <= i < k && Fails(reports[i])
    {
      assert reports[..k + 1][..k] == reports[..k];
      var report := reports[k];
      amountDone := amountDone + 1;
      match report.outcome {
        case Ok((kind, _)) =>
          if kind.Init? || kind.Changed? {
            urls := urls + [report.url];
          }
        case Err(_) =>
          if !report.ignoreError {
            failed := true;
          }
      }
    }
    assert reports[..|reports|] == reports;
  }

  // ------------------------------------------------------------ the run

  /** What a run settles before any request: the selected sites, whether
      the files of unconfigured sites are removed, and the groups. */
  datatype Plan = Plan(selected: seq<Target>, removeGone: bool, groups: map<string, seq<Target>>)

  /** The start of `run`: select the sites, check the repository, decide on
      the cleanup and group the selected sites by host. */
  method Prepare(sites: seq<Target>, matches: Option<string -> bool>, repo: Repo, doCommit: bool)
    returns (r: Result<Plan>)
    requires forall i :: 0 <= i < |sites| ==> HasHost(sites[i])
    ensures Selected(sites, matches) == [] ==> r == Err(FilteredAll)
    ensures Selected(sites, matches) != [] && RepoCheck(repo, doCommit).Err? ==> r == Err(RepoCheck(repo, doCommit).error)
    ensures r.Ok? <==> Selected(sites, matches) != [] && RepoCheck(repo, doCommit).Ok?
    ensures r.Ok? ==> var plan := r.value;
      && plan.selected == Selected(sites, matches)
      && (plan.removeGone <==> |plan.selected| == |sites|)
      && plan.groups.Keys == Hosts(plan.selected)
      && forall h :: h in plan.groups ==> plan.groups[h] == OnHost(plan.selected, h)
  {
    var selected := Selected(sites, matches);
    if selected == [] {
      return Err(FilteredAll);
    }
    var check := RepoCheck(repo, doCommit);
    if check.Err? {
      return Err(check.error);
    }
    var groups := GroupByHost(selected);
    r := Ok(Plan(selected, |selected| == |sites|, groups));
  }

  /** A filter that keeps every site leaves the cleanup on; one that drops
      a site turns it off. */
  lemma CleanupOnlyWithAllSites(sites: seq<Target>, m: string -> bool)
    ensures |Selected(sites, Some(m))| == |sites| <==> forall t :: t in sites ==> m(t.site.url.href)
  {
    FilterKeepsAll(sites, (t: Target) => m(t.site.url.href));
  }

  lemma {:induction false} FilterKeepsAll<T(!new)>(s: seq<T>, p: T -> bool)
    ensures |Filter(s, p)| == |s| <==> forall x :: x in s ==> p(x)
  {
    if s != [] {
      var init, last := s[..|s| - 1], s[|s| - 1];
      FilterKeepsAll(init, p);
      TakeOneMore(s, |s| - 1);
      assert s == init + [last];
      FilterSnoc(init, last, p);
    }
  }

  /** How a run ends: the commit message if a commit is made, the
      notification text if one is sent, and whether the run failed. */
  datatype Ending = Ending(commitMessage: Option<string>, notification: Option<Result<string>>, failed: bool)

  /** The end of `run`: a commit of the changed files when `--commit` is
      given and the repository holds changes, a notification when some URL
      changed and a notifier is configured, and failure when a site failed
      whose errors are not ignored. `commitId` is what git returns for the
      new commit; rendering the template is a parameter. */
  function Finish(reports: seq<Report>, repoAfter: Repo, doCommit: bool, commitId: string,
                  notifiers: nat, template: Option<string>, render: Notification.Renderer): (e: Ending)
    ensures e.commitMessage.Some? <==> repoAfter.Modified? && doCommit
    ensures e.commitMessage.Some? ==> e.commitMessage.value == CommitMessage.MessageOf(Interesting(reports))
    ensures e.notification.Some? <==> notifiers > 0 && exists i :: 0 <= i < |reports| && IsInteresting(reports[i])
    ensures e.failed <==> exists i :: 0 <= i < |reports| && Fails(reports[i])
  {
    var urls := Interesting(reports);
    var commit := if repoAfter.Modified? && doCommit then Some(commitId) else None;
    var message := if commit.Some? then Some(CommitMessage.MessageOf(urls)) else None;
    var notification :=
      if urls != [] && notifiers > 0
      then Some(Notification.ApplyToTemplate(Notification.New(commit, urls), template, render))
      else None;
    InterestingNonEmpty(reports);
    Ending(message, notification, exists i :: 0 <= i < |reports| && Fails(reports[i]))
  }

  /** Errors of sites whose errors are ignored never fail the run, and a
      run where every site kept its content sends no notification. */
  lemma QuietRun(reports: seq<Report>, repoAfter: Repo, doCommit: bool, commitId: string,
                 notifiers: nat, template: Option<string>, render: Notification.Renderer)
    requires forall i :: 0 <= i < |reports| ==> reports[i].outcome.Err? ==> reports[i].ignoreError
    requires forall i :: 0 <= i < |reports| ==> reports[i].outcome.Ok? ==> reports[i].outcome.value.0.ContentSame?
    ensures var e := Finish(reports, repoAfter, doCommit, commitId, notifiers, template, render);
      !e.failed && e.notification.None?
  {
  }
}
