/** The `html_url_canonicalize` editor: the document is serialized again with
    every `href` and `src` attribute resolved against the page's URL. A value
    the resolver rejects is kept as it was. */
module HtmlUrl {
  import opened Wrappers
  import opened Dom
  import opened Urls

  /** The attributes whose values are URLs. */
  predicate IsLinkAttr(name: string) {
    name == "href" || name == "src"
  }

  /** One attribute after the rewrite: a link attribute whose value joins
      against the base takes the joined URL's serialization. */
  function AbsAttr(base: Url, join: Joiner, a: Attr): Attr {
    if IsLinkAttr(a.name) then
      match join(base, a.value)
      case Ok(u) => Attr(a.name, u.href)
      case Err(_) => a
    else a
  }

  /** The attributes of a start tag after the rewrite, in their order. */
  function AbsAttrs(base: Url, join: Joiner, attrs: seq<Attr>): (r: seq<Attr>)
    ensures |r| == |attrs|
  {
    if attrs == [] then [] else [AbsAttr(base, join, attrs[0])] + AbsAttrs(base, join, attrs[1..])
  }

  /** What the serializer passes on for one event: only start tags change. */
  function AbsEvent(base: Url, join: Joiner, e: Event): Event {
    if e.StartElem? then StartElem(e.name, AbsAttrs(base, join, e.attrs)) else e
  }

  function AbsEvents(base: Url, join: Joiner, events: seq<Event>): (r: seq<Event>)
    ensures |r| == |events|
  {
    if events == [] then [] else [AbsEvent(base, join, events[0])] + AbsEvents(base, join, events[1..])
  }

  /** The loop of `start_elem` building `result_attrs`, one push per attribute. */
  method AbsoluteAttrs(base: Url, join: Joiner, attrs: seq<Attr>) returns (result: seq<Attr>)
    ensures result == AbsAttrs(base, join, attrs)
  {
    result := [];
    for k := 0 to |attrs|
      invariant result == AbsAttrs(base, join, attrs[..k])
    {
      var a := attrs[k];
      var value := a.value;
      if a.name == "href" || a.name == "src" {
        var joined := join(base, a.value);
        if joined.Ok? {
          value := joined.value.href;
        }
      }
      AbsAttrsSnoc(base, join, attrs[..k], a);
      assert attrs[..k + 1] == attrs[..k] + [a];
      result := result + [Attr(a.name, value)];
    }
    assert attrs[..|attrs|] == attrs;
  }

  /** `HtmlAbsLinkSerializer`: the plain serializer, except for the
      attributes of start tags. */
  class AbsLinkSerializer {
    var out: string
    const base: Url
    const join: Joiner

    constructor(base: Url, join: Joiner)
      ensures out == "" && this.base == base && this.join == join
    {
      out := "";
      this.base := base;
      this.join := join;
    }

    /** `start_elem`: the tag with the rewritten attributes. */
    method Start(name: QualName, attrs: seq<Attr>)
      modifies this
      ensures out == old(out) + StartTag(name, AbsAttrs(base, join, attrs))
    {
      var resultAttrs := AbsoluteAttrs(base, join, attrs);
      out := out + StartTag(name, resultAttrs);
    }

    /** `end_elem`, `write_text`, `write_comment`, `write_doctype` and
        `write_processing_instruction`: as the plain serializer writes them. */
    method Other(e: Event)
      requires !e.StartElem?
      modifies this
      ensures out == old(out) + RenderEvent(e)
    {
      out := out + RenderEvent(e);
    }

    /** One event, dispatched as html5ever's `Serializer` calls. */
    method Write(e: Event)
      modifies this
      ensures out == old(out) + RenderEvent(AbsEvent(base, join, e))
    {
      if e.StartElem? {
        Start(e.name, e.attrs);
      } else {
        Other(e);
      }
    }

    /** `Serialize::serialize` driving this serializer over the events. */
    method Serialize(events: seq<Event>)
      modifies this
      ensures out == old(out) + Render(AbsEvents(base, join, events))
    {
      ghost var start := out;
      for k := 0 to |events|
        invariant out == start + Render(AbsEvents(base, join, events[..k]))
      {
        RenderedSnoc(base, join, events, k);
        Write(events[k]);
      }
      assert events[..|events|] == events;
    }
  }

  /** `canonicalize`: the rewriting serializer over the parsed document. */
  method Canonicalize(base: Url, join: Joiner, d: Doc) returns (s: string)
    ensures s == Render(AbsEvents(base, join, DocEvents(d)))
  {
    var ser := new AbsLinkSerializer(base, join);
    ser.Serialize(DocEvents(d));
    s := ser.out;
  }

  // ------------------------------------------------------------ properties

  /** The output after one more event. */
  lemma RenderedSnoc(base: Url, join: Joiner, events: seq<Event>, k: nat)
    requires k < |events|
    ensures Render(AbsEvents(base, join, events[..k + 1]))
         == Render(AbsEvents(base, join, events[..k])) + RenderEvent(AbsEvent(base, join, events[k]))
  {
    var e := events[k];
    assert events[..k + 1] == events[..k] + [e];
    AbsEventsAppend(base, join, events[..k], [e]);
    RenderAppend(AbsEvents(base, join, events[..k]), AbsEvents(base, join, [e]));
    assert AbsEvents(base, join, [e]) == [AbsEvent(base, join, e)];
    assert Render([AbsEvent(base, join, e)]) == RenderEvent(AbsEvent(base, join, e));
  }

  lemma AbsAttrsSnoc(base: Url, join: Joiner, attrs: seq<Attr>, a: Attr)
    ensures AbsAttrs(base, join, attrs + [a]) == AbsAttrs(base, join, attrs) + [AbsAttr(base, join, a)]
  {
    AbsAttrsAppend(base, join, attrs, [a]);
  }

  lemma {:induction false} AbsAttrsAppend(base: Url, join: Joiner, a: seq<Attr>, b: seq<Attr>)
    ensures AbsAttrs(base, join, a + b) == AbsAttrs(base, join, a) + AbsAttrs(base, join, b)
  {
    if a == [] {
      assert a + b == b;
    } else {
      assert (a + b)[0] == a[0] && (a + b)[1..] == a[1..] + b;
      AbsAttrsAppend(base, join, a[1..], b);
    }
  }

  lemma {:induction false} AbsEventsAppend(base: Url, join: Joiner, a: seq<Event>, b: seq<Event>)
    ensures AbsEvents(base, join, a + b) == AbsEvents(base, join, a) + AbsEvents(base, join, b)
  {
    if a == [] {
      assert a + b == b;
    } else {
      assert (a + b)[0] == a[0] && (a + b)[1..] == a[1..] + b;
      AbsEventsAppend(base, join, a[1..], b);
    }
  }

  /** Attribute by attribute: the order and the names stay; a link attribute
      that joins takes the joined URL; every other value stays as it was,
      including a link the resolver rejects. */
  lemma {:induction false} AbsAttrsPointwise(base: Url, join: Joiner, attrs: seq<Attr>, i: nat)
    requires i < |attrs|
    ensures AbsAttrs(base, join, attrs)[i].name == attrs[i].name
    ensures IsLinkAttr(attrs[i].name) && join(base, attrs[i].value).Ok? ==>
              AbsAttrs(base, join, attrs)[i].value == join(base, attrs[i].value).value.href
    ensures !IsLinkAttr(attrs[i].name) || join(base, attrs[i].value).Err? ==>
              AbsAttrs(base, join, attrs)[i] == attrs[i]
    decreases i
  {
    if i > 0 {
      AbsAttrsPointwise(base, join, attrs[1..], i - 1);
    }
  }

  /** Only start tags are rewritten: every other event passes unchanged. */
  lemma {:induction false} AbsEventsPointwise(base: Url, join: Joiner, events: seq<Event>, i: nat)
    requires i < |events|
    ensures !events[i].StartElem? ==> AbsEvents(base, join, events)[i] == events[i]
    ensures events[i].StartElem? ==>
              AbsEvents(base, join, events)[i] == StartElem(events[i].name, AbsAttrs(base, join, events[i].attrs))
    decreases i
  {
    if i > 0 {
      AbsEventsPointwise(base, join, events[1..], i - 1);
    }
  }

  /** No start tag carries an `href` or `src` attribute. */
  predicate NoLinkAttrs(events: seq<Event>) {
    forall i, k :: 0 <= i < |events| && events[i].StartElem? && 0 <= k < |events[i].attrs| ==>
      !IsLinkAttr(events[i].attrs[k].name)
  }

  lemma {:induction false} AbsAttrsWithoutLinks(base: Url, join: Joiner, attrs: seq<Attr>)
    requires forall k :: 0 <= k < |attrs| ==> !IsLinkAttr(attrs[k].name)
    ensures AbsAttrs(base, join, attrs) == attrs
  {
    if attrs != [] {
      AbsAttrsWithoutLinks(base, join, attrs[1..]);
    }
  }

  /** A document without link attributes is written exactly as the plain
      serializer writes it. */
  lemma {:induction false} CanonicalWithoutLinks(base: Url, join: Joiner, events: seq<Event>)
    requires NoLinkAttrs(events)
    ensures Render(AbsEvents(base, join, events)) == Render(events)
  {
    if events != [] {
      var e := events[0];
      if e.StartElem? {
        forall k | 0 <= k < |e.attrs|
          ensures !IsLinkAttr(e.attrs[k].name)
        {
          assert events[0].attrs[k] == e.attrs[k];
        }
        AbsAttrsWithoutLinks(base, join, e.attrs);
      }
      assert NoLinkAttrs(events[1..]) by {
        forall i, k | 0 <= i < |events[1..]| && events[1..][i].StartElem? && 0 <= k < |events[1..][i].attrs|
          ensures !IsLinkAttr(events[1..][i].attrs[k].name)
        {
          assert events[1..][i] == events[i + 1];
        }
      }
      CanonicalWithoutLinks(base, join, events[1..]);
      RenderCons(AbsEvent(base, join, e), AbsEvents(base, join, events[1..]));
      RenderCons(e, events[1..]);
      assert events == [e] + events[1..];
    }
  }

  /** Resolving a URL that is already absolute gives that URL again. */
  ghost predicate JoinIsStable(base: Url, join: Joiner) {
    forall v: string, u: Url :: join(base, v) == Ok(u) ==> join(base, u.href) == Ok(u)
  }

  lemma {:induction false} AbsAttrsIdempotent(base: Url, join: Joiner, attrs: seq<Attr>)
    requires JoinIsStable(base, join)
    ensures AbsAttrs(base, join, AbsAttrs(base, join, attrs)) == AbsAttrs(base, join, attrs)
  {
    if attrs != [] {
      AbsAttrsIdempotent(base, join, attrs[1..]);
      var a := attrs[0];
      if IsLinkAttr(a.name) && join(base, a.value).Ok? {
        var u := join(base, a.value).value;
        assert join(base, u.href) == Ok(u);
      }
    }
  }

  /** With a resolver that leaves absolute URLs alone, canonicalizing the
      canonical events again changes nothing. */
  lemma {:induction false} CanonicalizeIdempotent(base: Url, join: Joiner, events: seq<Event>)
    requires JoinIsStable(base, join)
    ensures AbsEvents(base, join, AbsEvents(base, join, events)) == AbsEvents(base, join, events)
  {
    if events != [] {
      CanonicalizeIdempotent(base, join, events[1..]);
      if events[0].StartElem? {
        AbsAttrsIdempotent(base, join, events[0].attrs);
      }
    }
  }
}
