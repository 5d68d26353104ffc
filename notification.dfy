/** The data a notification template is rendered with, as the older code
    builds it from the changed URLs, and the check a template has to pass
    before it is used. Rendering a compiled template is left to a function
    value; the template is identified by its text. */
module Notification {
  import opened Wrappers
  import opened Urls
  import Text
  import Sorting
  import CommitMessage
  import FinalMessage

  /** `domains` and `singledomain` are the deprecated names of `hosts` and
      `singlehost`. */
  datatype MustacheData = MustacheData(
    commit: Option<string>,
    singledomain: Option<string>,
    singlehost: Option<string>,
    siteamount: nat,
    domains: seq<string>,
    hosts: seq<string>,
    sites: seq<Url>)

  /** Renders a compiled template with the data; rendering can fail with the
      template library's message. */
  type Renderer = (string, MustacheData) -> Result<string>

  const Deprecated: string := "do not use deprecated field"

  /** `MustacheData::new`: the sites and hosts of the commit message. */
  function New(commit: Option<string>, changed: seq<Url>): (r: MustacheData)
    ensures Sorting.SortedBy(r.sites, UrlLe)
    ensures forall u :: u in r.sites <==> u in changed
    ensures forall h :: h in r.hosts <==> exists u :: u in changed && HostStr(u) == Some(h)
    ensures r.siteamount == |r.sites| && r.domains == r.hosts
    ensures r.singlehost.Some? <==> |r.hosts| == 1
    ensures r.singlehost.Some? ==> r.hosts == [r.singlehost.value]
    ensures r.singledomain == r.singlehost && r.commit == commit
  {
    var sites := CommitMessage.Sites(changed);
    var hosts := CommitMessage.Hosts(sites);
    var single := if |hosts| == 1 then Some(hosts[0]) else None;
    MustacheData(commit, single, single, |sites|, hosts, hosts, sites)
  }

  /** `apply_to_template`: the given template or the default one, rendered,
      then trimmed. */
  function ApplyToTemplate(data: MustacheData, template: Option<string>, render: Renderer): (r: Result<string>)
    ensures var out := render(template.GetOr(FinalMessage.DefaultTemplate), data);
      && (r.Ok? <==> out.Ok?)
      && (r.Err? ==> r.error == out.error)
      && (r.Ok? ==> Text.IsTrimmed(r.value) && |r.value| <= |out.value|
                    && (r.value == [] <==> Text.AllWhitespace(out.value)))
  {
    var out :- render(template.GetOr(FinalMessage.DefaultTemplate), data);
    Ok(Text.Trim(out))
  }

  /** The data that shows whether a template still reads `singledomain`. */
  function SingleDomainProbe(): MustacheData {
    MustacheData(None, Some(Deprecated), None, 42, [], [], [])
  }

  /** The data that shows whether a template still reads `domains`. */
  function DomainsProbe(): MustacheData {
    MustacheData(None, None, None, 42, [Deprecated], [], [])
  }

  /** The changed URLs of the three samples: one site, two sites of
      different hosts, two sites of the same host. */
  function SampleChanges(): seq<seq<Url>> {
    [[FinalMessage.Post()], [FinalMessage.Post(), FinalMessage.Foo()], [FinalMessage.Root(), FinalMessage.Post()]]
  }

  /** The check of `validate_template` on a list of changes: both probes
      render (what they show only leads to a warning), then every sample
      has a notification that is not empty, with and without a commit. */
  function ValidateWith(template: string, samples: seq<seq<Url>>, render: Renderer): (r: Result<()>)
    ensures r.Ok?
        <==> render(template, SingleDomainProbe()).Ok? && render(template, DomainsProbe()).Ok?
             && FinalMessage.AllNotify(samples, (changed, commit) => ApplyToTemplate(New(commit, changed), Some(template), render))
    ensures render(template, SingleDomainProbe()).Err? ==> r == Err(render(template, SingleDomainProbe()).error)
    ensures render(template, SingleDomainProbe()).Ok? && render(template, DomainsProbe()).Err?
            ==> r == Err(render(template, DomainsProbe()).error)
  {
    var _ :- render(template, SingleDomainProbe());
    var _ :- render(template, DomainsProbe());
    FinalMessage.ValidateOn(samples, (changed, commit) => ApplyToTemplate(New(commit, changed), Some(template), render))
  }

  /** `validate_template`: both probes render and every sample's
      notification is a non-empty text, with the commit "666" and without
      one. */
  function ValidateTemplate(template: string, render: Renderer): (r: Result<()>)
    ensures r.Ok?
        <==> render(template, SingleDomainProbe()).Ok? && render(template, DomainsProbe()).Ok?
             && forall k :: 0 <= k < |SampleChanges()| ==>
                  FinalMessage.IsText(ApplyToTemplate(New(Some("666"), SampleChanges()[k]), Some(template), render))
                  && FinalMessage.IsText(ApplyToTemplate(New(None, SampleChanges()[k]), Some(template), render))
  {
    ValidateWith(template, SampleChanges(), render)
  }

  // ------------------------------------------------------------ properties

  /** A template sees a single host exactly when every changed URL with a
      host has that host, and there is at least one; it is then the host the
      commit message names. */
  lemma SingleHostOfNew(commit: Option<string>, changed: seq<Url>, h: string)
    ensures New(commit, changed).singlehost == Some(h)
        <==> (exists u :: u in changed && u.host.Some?)
             && (forall u :: u in changed && u.host.Some? ==> HostStr(u) == Some(h))
  {
    CommitMessage.SingleHostHeader(changed, h);
  }

  /** For a coherent list of URLs the older data agrees with the newer one:
      the same site serializations in the same order, the same number of
      sites and the same single host. */
  lemma AgreesWithFinalMessage(commit: Option<string>, changed: seq<Url>)
    requires Coherent(changed)
    ensures var old_ := New(commit, changed);
      var new_ := FinalMessage.IntoMustacheData(FinalMessage.New(changed), commit);
      && Hrefs(old_.sites) == new_.msg.sites
      && old_.siteamount == new_.siteamount
      && old_.singlehost == new_.singlehost
  {
    var old_ := New(commit, changed);
    var new_ := FinalMessage.IntoMustacheData(FinalMessage.New(changed), commit);
    FinalMessage.SitesAreNewSites(changed);
    forall h
      ensures old_.singlehost == Some(h) <==> new_.singlehost == Some(h)
    {
      SingleHostOfNew(commit, changed, h);
      FinalMessage.SingleHostOfNew(changed, commit, h);
    }
  }
}
