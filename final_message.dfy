/** The message of a run as the newer code builds it: the hosts and the
    serialized sites, each sorted and free of repetitions, give the commit
    message and the data a notification template is rendered with. Compiling
    and rendering a mustache template is left to a function value. */
module FinalMessage {
  import opened Wrappers
  import opened Urls
  import Text
  import Sorting
  import CommitMessage

  const DefaultTemplate: string :=
    "\n{{#singlehost}}\n{{.}} changed\n{{/singlehost}}\n{{^singlehost}}\n{{siteamount}} websites changed\n{{/singlehost}}\n\n{{#sites}}\n- {{.}}\n{{/sites}}\n\n{{#commit}}\nSee {{.}}\n{{/commit}}\n"

  const EmptyNotification: string := "template produced empty notification text"

  /** `domains` is the deprecated name of `hosts` and always equal to it. */
  datatype FinalMessage = FinalMessage(domains: seq<string>, hosts: seq<string>, sites: seq<string>)

  /** The values a template sees; `msg` is flattened into the same level. */
  datatype MustacheData = MustacheData(
    commit: Option<string>,
    singledomain: Option<string>,
    singlehost: Option<string>,
    siteamount: nat,
    msg: FinalMessage)

  /** Compiles a template text and renders it with the data; either step can
      fail with the template library's message. */
  type Renderer = (string, MustacheData) -> Result<string>

  /** `FinalMessage::new` */
  function New(changed: seq<Url>): (r: FinalMessage)
    ensures r.domains == r.hosts
    ensures Sorting.SortedBy(r.hosts, Text.StrLe) && Sorting.Distinct(r.hosts)
    ensures forall h :: h in r.hosts <==> exists u :: u in changed && HostStr(u) == Some(h)
    ensures Sorting.SortedBy(r.sites, Text.StrLe) && Sorting.Distinct(r.sites)
    ensures forall s :: s in r.sites <==> exists u :: u in changed && u.href == s
  {
    var hosts := Sorting.SortDedupStrings(CommitMessage.HostsOf(changed));
    var sites := Sorting.SortDedupStrings(Hrefs(changed));
    assert forall s :: s in Hrefs(changed) <==> exists u :: u in changed && u.href == s by {
      forall s | s in Hrefs(changed)
        ensures exists u :: u in changed && u.href == s
      {
        var i :| 0 <= i < |changed| && Hrefs(changed)[i] == s;
        assert changed[i] in changed;
      }
      forall u | u in changed
        ensures u.href in Hrefs(changed)
      {
        var i :| 0 <= i < |changed| && changed[i] == u;
        assert Hrefs(changed)[i] == u.href;
      }
    }
    FinalMessage(hosts, hosts, sites)
  }

  /** `to_commit`: the header, then one line per site. */
  method ToCommit(msg: FinalMessage) returns (text: string)
    ensures text == CommitMessage.Header(msg.hosts, |msg.sites|) + CommitMessage.Lines(msg.sites)
  {
    text := CommitMessage.Header(msg.hosts, |msg.sites|);
    ghost var head := text;
    for i := 0 to |msg.sites|
      invariant text == head + CommitMessage.Lines(msg.sites[..i])
    {
      CommitMessage.LinesStep(msg.sites, i);
      Text.ConcatAssoc(head, CommitMessage.Lines(msg.sites[..i]), CommitMessage.Line(msg.sites[i]));
      text := text + CommitMessage.Line(msg.sites[i]);
    }
    assert msg.sites[..|msg.sites|] == msg.sites;
  }

  /** `into_mustache_data` */
  function IntoMustacheData(msg: FinalMessage, commit: Option<string>): (r: MustacheData)
    ensures r.singlehost.Some? <==> |msg.hosts| == 1
    ensures r.singlehost.Some? ==> msg.hosts == [r.singlehost.value]
    ensures r.singledomain == r.singlehost
    ensures r.siteamount == |msg.sites|
    ensures r.msg == msg && r.commit == commit
  {
    var single := if |msg.hosts| == 1 then Some(msg.hosts[0]) else None;
    MustacheData(commit, single, single, |msg.sites|, msg)
  }

  /** `into_notification`: the given template or the default one, rendered,
      then trimmed. */
  function IntoNotification(msg: FinalMessage, template: Option<string>, commit: Option<string>, render: Renderer): (r: Result<string>)
    ensures var out := render(template.GetOr(DefaultTemplate), IntoMustacheData(msg, commit));
      && (r.Ok? <==> out.Ok?)
      && (r.Err? ==> r.error == out.error)
      && (r.Ok? ==> Text.IsTrimmed(r.value) && |r.value| <= |out.value|
                    && (r.value == [] <==> Text.AllWhitespace(out.value)))
  {
    var out :- render(template.GetOr(DefaultTemplate), IntoMustacheData(msg, commit));
    Ok(Text.Trim(out))
  }

  // ------------------------------------------------------ template checking

  /** Every rendering succeeded with some text. */
  predicate AllTexts(rs: seq<Result<string>>) {
    forall i :: 0 <= i < |rs| ==> IsText(rs[i])
  }

  /** The first failure among the renderings; when all succeed, a rendering
      that produced no text is an error. */
  function ValidateRenders(rs: seq<Result<string>>): (r: Result<()>)
    ensures r.Ok? <==> AllTexts(rs)
    ensures r.Err? && (forall i :: 0 <= i < |rs| ==> rs[i].Ok?) ==> r.error == EmptyNotification
    ensures r.Err? && (exists i :: 0 <= i < |rs| && rs[i].Err?)
            ==> exists i :: 0 <= i < |rs| && rs[i] == Err(r.error) && forall j :: 0 <= j < i ==> rs[j].Ok?
  {
    var texts :- Collect(rs);
    if exists i :: 0 <= i < |texts| && texts[i] == [] then Err(EmptyNotification) else Ok(())
  }

  function Post(): Url {
    Url("https://edjopato.de/post/", Some(Domain("edjopato.de")), None, "/post/", None)
  }

  function Root(): Url {
    Url("https://edjopato.de/", Some(Domain("edjopato.de")), None, "/", None)
  }

  function Foo(): Url {
    Url("https://foo.bar/", Some(Domain("foo.bar")), None, "/", None)
  }

  /** The three sample messages a template is tried on: one site, two sites
      of different hosts, two sites of the same host. */
  function Samples(): seq<FinalMessage> {
    [New([Post()]), New([Post(), Foo()]), New([Root(), Post()])]
  }

  /** The notification text of a message with or without a commit. */
  type Notifier<!M> = (M, Option<string>) -> Result<string>

  /** Every message's notification, once with the commit "666" and once
      without. */
  function RendersOf<M>(msgs: seq<M>, notify: Notifier<M>): (r: seq<Result<string>>)
    ensures |r| == 2 * |msgs|
  {
    if msgs == [] then []
    else [notify(msgs[0], Some("666")), notify(msgs[0], None)] + RendersOf(msgs[1..], notify)
  }

  predicate IsText(out: Result<string>) {
    out.Ok? && out.value != []
  }

  /** Each message has a notification that is not empty, with and without a
      commit. */
  predicate AllNotify<M>(msgs: seq<M>, notify: Notifier<M>) {
    forall k :: 0 <= k < |msgs| ==> IsText(notify(msgs[k], Some("666"))) && IsText(notify(msgs[k], None))
  }

  /** The check of `validate_template` on a list of messages. */
  function ValidateOn<M>(msgs: seq<M>, notify: Notifier<M>): (r: Result<()>)
    ensures r.Ok? <==> AllNotify(msgs, notify)
  {
    RendersOfNotBlank(msgs, notify);
    ValidateRenders(RendersOf(msgs, notify))
  }

  lemma {:induction false} RendersOfNotBlank<M>(msgs: seq<M>, notify: Notifier<M>)
    ensures AllTexts(RendersOf(msgs, notify)) <==> AllNotify(msgs, notify)
  {
    if msgs != [] {
      var pair := [notify(msgs[0], Some("666")), notify(msgs[0], None)];
      RendersOfNotBlank(msgs[1..], notify);
      AllTextsAppend(pair, RendersOf(msgs[1..], notify));
      AllNotifyCons(msgs, notify);
      assert AllTexts(pair) <==> IsText(pair[0]) && IsText(pair[1]);
    }
  }

  lemma AllNotifyCons<M>(msgs: seq<M>, notify: Notifier<M>)
    requires msgs != []
    ensures AllNotify(msgs, notify)
       <==> IsText(notify(msgs[0], Some("666"))) && IsText(notify(msgs[0], None)) && AllNotify(msgs[1..], notify)
  {
    if IsText(notify(msgs[0], Some("666"))) && IsText(notify(msgs[0], None)) && AllNotify(msgs[1..], notify) {
      forall k | 1 <= k < |msgs|
        ensures IsText(notify(msgs[k], Some("666"))) && IsText(notify(msgs[k], None))
      {
        assert msgs[k] == msgs[1..][k - 1];
      }
    }
    if AllNotify(msgs, notify) {
      forall k | 0 <= k < |msgs| - 1
        ensures IsText(notify(msgs[1..][k], Some("666"))) && IsText(notify(msgs[1..][k], None))
      {
        assert msgs[1..][k] == msgs[k + 1];
      }
    }
  }

  lemma AllTextsAppend(a: seq<Result<string>>, b: seq<Result<string>>)
    ensures AllTexts(a + b) <==> AllTexts(a) && AllTexts(b)
  {
    if AllTexts(a) && AllTexts(b) {
      forall i | 0 <= i < |a + b|
        ensures IsText((a + b)[i])
      {
        if i >= |a| {
          assert (a + b)[i] == b[i - |a|];
        }
      }
    }
    if AllTexts(a + b) {
      forall i | 0 <= i < |a|
        ensures IsText(a[i])
      {
        assert (a + b)[i] == a[i];
      }
      forall i | 0 <= i < |b|
        ensures IsText(b[i])
      {
        assert (a + b)[i + |a|] == b[i];
      }
    }
  }

  /** `validate_template`: the check on the three samples, each notified
      with the template. It accepts the template exactly when every sample
      renders to a non-empty text, with the commit "666" and without one. */
  function ValidateTemplate(template: string, render: Renderer): (r: Result<()>)
    ensures r.Ok? <==> forall k :: 0 <= k < |Samples()| ==>
      IsText(IntoNotification(Samples()[k], Some(template), Some("666"), render))
      && IsText(IntoNotification(Samples()[k], Some(template), None, render))
  {
    var msgs := Samples();
    NotifiedWith(msgs, template, render);
    ValidateOn(msgs, (m, c) => IntoNotification(m, Some(template), c, render))
  }

  /** Every message notified with a template, spelled out per message. */
  lemma NotifiedWith(msgs: seq<FinalMessage>, template: string, render: Renderer)
    ensures AllNotify(msgs, (m, c) => IntoNotification(m, Some(template), c, render))
        <==> forall k :: 0 <= k < |msgs| ==>
               IsText(IntoNotification(msgs[k], Some(template), Some("666"), render))
               && IsText(IntoNotification(msgs[k], Some(template), None, render))
  {
  }

  // ------------------------------------------------------------ properties

  /** The sorted lists of `new` are the only sorted lists without
      repetitions that hold those hosts and sites. */
  lemma NewIsDetermined(changed: seq<Url>, hosts: seq<string>, sites: seq<string>)
    requires Sorting.SortedBy(hosts, Text.StrLe) && Sorting.Distinct(hosts)
    requires forall h :: h in hosts <==> exists u :: u in changed && HostStr(u) == Some(h)
    requires Sorting.SortedBy(sites, Text.StrLe) && Sorting.Distinct(sites)
    requires forall s :: s in sites <==> exists u :: u in changed && u.href == s
    ensures New(changed) == FinalMessage(hosts, hosts, sites)
  {
    Sorting.StrLeIsTotalOrder();
    Sorting.SortedDistinctUnique(hosts, New(changed).hosts, Text.StrLe);
    Sorting.SortedDistinctUnique(sites, New(changed).sites, Text.StrLe);
  }

  /** A template sees a single host exactly when every changed URL with a
      host has that host, and there is at least one. */
  lemma SingleHostOfNew(changed: seq<Url>, commit: Option<string>, h: string)
    ensures IntoMustacheData(New(changed), commit).singlehost == Some(h)
        <==> (exists u :: u in changed && u.host.Some?)
             && (forall u :: u in changed && u.host.Some? ==> HostStr(u) == Some(h))
  {
    var hosts := New(changed).hosts;
    Sorting.DistinctSingle(hosts, h);
    if (exists u :: u in changed && u.host.Some?)
       && (forall u :: u in changed && u.host.Some? ==> HostStr(u) == Some(h)) {
      var u :| u in changed && u.host.Some?;
      assert HostStr(u).value in hosts;
    }
    if hosts == [h] {
      forall u | u in changed && u.host.Some?
        ensures HostStr(u) == Some(h)
      {
        assert HostStr(u).value in hosts;
      }
    }
  }

  /** The commit message of the newer code is the one `commit_message`
      writes, although that one only removes neighbouring repetitions of a
      host: for a coherent list of URLs the sites, their number and the
      choice of header agree. */
  lemma ToCommitIsCommitMessage(changed: seq<Url>)
    requires Coherent(changed)
    ensures var msg := New(changed);
      CommitMessage.Header(msg.hosts, |msg.sites|) + CommitMessage.Lines(msg.sites)
      == CommitMessage.MessageOf(changed)
  {
    var msg := New(changed);
    var sites := CommitMessage.Sites(changed);
    SitesAreNewSites(changed);
    CommitMessage.HeaderAsIfFullyDeduplicated(sites, |sites|);
    SameHosts(changed);
  }

  lemma SitesAreNewSites(changed: seq<Url>)
    requires Coherent(changed)
    ensures Hrefs(CommitMessage.Sites(changed)) == New(changed).sites
  {
    var sites := CommitMessage.Sites(changed);
    var hrefs := Hrefs(sites);
    SitesDistinct(changed);
    assert Sorting.SortedBy(hrefs, Text.StrLe) by {
      forall i, j | 0 <= i < j < |hrefs|
        ensures Text.StrLe(hrefs[i], hrefs[j])
      {
        assert UrlLe(sites[i], sites[j]);
      }
    }
    assert Sorting.Distinct(hrefs) by {
      forall i, j | 0 <= i < j < |hrefs|
        ensures hrefs[i] != hrefs[j]
      {
        assert sites[i] in changed && sites[j] in changed;
        var a :| 0 <= a < |changed| && changed[a] == sites[i];
        var b :| 0 <= b < |changed| && changed[b] == sites[j];
      }
    }
    forall s
      ensures s in hrefs <==> exists u :: u in changed && u.href == s
    {
      if s in hrefs {
        var i :| 0 <= i < |hrefs| && hrefs[i] == s;
        assert sites[i] in changed;
      }
      if exists u :: u in changed && u.href == s {
        var u :| u in changed && u.href == s;
        var i :| 0 <= i < |sites| && sites[i] == u;
        assert hrefs[i] == s;
      }
    }
    Sorting.StrLeIsTotalOrder();
    Sorting.SortedDistinctUnique(hrefs, New(changed).sites, Text.StrLe);
  }

  lemma SitesDistinct(changed: seq<Url>)
    requires Coherent(changed)
    ensures Sorting.Distinct(CommitMessage.Sites(changed))
  {
    var sorted := Sorting.Sort(changed, UrlLe);
    UrlLeIsTotalPreorder();
    Sorting.SortSorted(changed, UrlLe);
    Sorting.SortKeepsElements(changed, UrlLe);
    forall x, y | x in sorted && y in sorted && UrlLe(x, y) && UrlLe(y, x)
      ensures x == y
    {
      UrlLeAntisymmetricWithin(changed, x, y);
    }
    Sorting.SortedDedupDistinctWithin(sorted, UrlLe);
  }

  lemma SameHosts(changed: seq<Url>)
    ensures Sorting.SortDedupStrings(CommitMessage.HostsOf(CommitMessage.Sites(changed))) == New(changed).hosts
  {
    var a := Sorting.SortDedupStrings(CommitMessage.HostsOf(CommitMessage.Sites(changed)));
    Sorting.StrLeIsTotalOrder();
    Sorting.SortedDistinctUnique(a, New(changed).hosts, Text.StrLe);
  }
}
