/** A parsed HTML document as an arena tree (ego_tree, used by scraper): nodes
    live in a vector and are named by their index; node 0 is the document.
    Each node records its parent and its ordered children. Serialization is
    the stream of events html5ever's serializer receives while walking the
    tree, rendered by the plain serializer. */
module Dom {
  import opened Wrappers
  import Text

  type NodeId = nat

  datatype Attr = Attr(name: string, value: string)

  datatype QualName = QualName(ns: string, local: string)

  const HtmlNamespace: string := "http://www.w3.org/1999/xhtml"

  datatype NodeData =
    | DocumentNode
    | DoctypeNode(doctype: string)
    | CommentNode(comment: string)
    | TextNode(text: string)
    | ElementNode(name: QualName, attrs: seq<Attr>)
    | PiNode(target: string, data: string)

  datatype Node = Node(value: NodeData, parent: Option<NodeId>, children: seq<NodeId>)

  datatype Doc = Doc(nodes: seq<Node>)

  const Root: NodeId := 0

  /** Every parent and child link names a node of the arena. */
  predicate LinksInRange(d: Doc) {
    (forall i {:trigger d.nodes[i].parent} ::
       0 <= i < |d.nodes| && d.nodes[i].parent.Some? ==> d.nodes[i].parent.value < |d.nodes|)
    && (forall i, k :: 0 <= i < |d.nodes| && 0 <= k < |d.nodes[i].children| ==> d.nodes[i].children[k] < |d.nodes|)
  }

  predicate NoDuplicates(s: seq<NodeId>) {
    forall i, j :: 0 <= i < j < |s| ==> s[i] != s[j]
  }

  /** The invariant ego_tree keeps: links in range, a node is listed among
      the children of exactly the node it names as its parent, and no child
      list repeats a node. */
  predicate Consistent(d: Doc) {
    LinksInRange(d)
    && (forall p, k :: 0 <= p < |d.nodes| && 0 <= k < |d.nodes[p].children| ==>
          d.nodes[d.nodes[p].children[k]].parent == Some(p))
    && (forall x :: 0 <= x < |d.nodes| && d.nodes[x].parent.Some? ==>
          x in d.nodes[d.nodes[x].parent.value].children)
    && (forall p :: 0 <= p < |d.nodes| ==> NoDuplicates(d.nodes[p].children))
  }

  /** A depth witness: every parent ranks below its child. One exists
      exactly when following parent links never comes back to a node, as
      in every tree ego_tree builds. */
  predicate Ranked(d: Doc, rank: seq<nat>) {
    |rank| == |d.nodes|
    && forall x {:trigger d.nodes[x].parent} ::
         0 <= x < |d.nodes| && d.nodes[x].parent.Some? && d.nodes[x].parent.value < |d.nodes| ==>
         rank[d.nodes[x].parent.value] < rank[x]
  }

  predicate Contains(d: Doc, id: NodeId) {
    id < |d.nodes|
  }

  predicate IsElement(d: Doc, id: NodeId) {
    id < |d.nodes| && d.nodes[id].value.ElementNode?
  }

  // ------------------------------------------------------------ events

  /** The calls html5ever's `Serializer` receives. */
  datatype Event =
    | StartElem(name: QualName, attrs: seq<Attr>)
    | EndElem(name: QualName)
    | WriteText(text: string)
    | WriteComment(comment: string)
    | WriteDoctype(doctype: string)
    | WritePi(target: string, data: string)

  /** The events of a node and its subtree, in document order. `fuel` bounds
      the depth; the number of nodes is always enough for a tree. */
  function NodeEvents(d: Doc, id: NodeId, fuel: nat): seq<Event>
    decreases fuel, 0, 0
  {
    if fuel == 0 || id >= |d.nodes| then []
    else
      var n := d.nodes[id];
      var inner := ChildEvents(d, n.children, fuel - 1);
      match n.value
      case DocumentNode => inner
      case DoctypeNode(name) => [WriteDoctype(name)] + inner
      case CommentNode(c) => [WriteComment(c)] + inner
      case TextNode(t) => [WriteText(t)] + inner
      case PiNode(t, data) => [WritePi(t, data)] + inner
      case ElementNode(name, attrs) => [StartElem(name, attrs)] + inner + [EndElem(name)]
  }

  function ChildEvents(d: Doc, kids: seq<NodeId>, fuel: nat): seq<Event>
    decreases fuel, 1, |kids|
  {
    if kids == [] then [] else NodeEvents(d, kids[0], fuel) + ChildEvents(d, kids[1..], fuel)
  }

  /** `Html::html`: the children of the document node. */
  function DocEvents(d: Doc): seq<Event> {
    if |d.nodes| == 0 then [] else ChildEvents(d, d.nodes[Root].children, |d.nodes|)
  }

  /** `ElementRef::html`: the node itself and its subtree. */
  function OuterEvents(d: Doc, id: NodeId): seq<Event> {
    NodeEvents(d, id, |d.nodes| + 1)
  }

  /** `ElementRef::inner_html`: the node's children. */
  function InnerEvents(d: Doc, id: NodeId): seq<Event> {
    if id >= |d.nodes| then [] else ChildEvents(d, d.nodes[id].children, |d.nodes|)
  }

  /** The text nodes among the events, in order (`ElementRef::text`). */
  function Texts(events: seq<Event>): (r: seq<string>)
    ensures |r| <= |events|
  {
    if events == [] then []
    else if events[0].WriteText? then [events[0].text] + Texts(events[1..])
    else Texts(events[1..])
  }

  /** A serializer driven over an event stream: its state after each event
      in turn. */
  function Fold<S>(step: (S, Event) -> S, s: S, events: seq<Event>): S
    decreases |events|
  {
    if events == [] then s else Fold(step, step(s, events[0]), events[1..])
  }

  lemma FoldSingle<S>(step: (S, Event) -> S, s: S, e: Event)
    ensures Fold(step, s, [e]) == step(s, e)
  {
    assert [e][1..] == [];
  }

  /** Serializing two streams one after the other is serializing their concatenation. */
  lemma {:induction false} FoldAppend<S>(step: (S, Event) -> S, s: S, a: seq<Event>, b: seq<Event>)
    ensures Fold(step, s, a + b) == Fold(step, Fold(step, s, a), b)
    decreases |a|
  {
    if a == [] {
      assert a + b == b;
    } else {
      assert (a + b)[0] == a[0] && (a + b)[1..] == a[1..] + b;
      FoldAppend(step, step(s, a[0]), a[1..], b);
    }
  }

  /** The number of open elements after an event, never below zero. */
  function DepthStep(depth: nat, e: Event): nat {
    if e.StartElem? then depth + 1
    else if e.EndElem? && depth > 0 then depth - 1
    else depth
  }

  lemma ElementKeepsDepth(depth: nat, start: Event, inner: seq<Event>, end: Event)
    requires start.StartElem? && end.EndElem?
    requires Fold<nat>(DepthStep, depth + 1, inner) == depth + 1
    ensures Fold<nat>(DepthStep, depth, [start] + inner + [end]) == depth
  {
    FoldAppend<nat>(DepthStep, depth, [start] + inner, [end]);
    FoldAppend<nat>(DepthStep, depth, [start], inner);
    FoldSingle<nat>(DepthStep, depth, start);
    FoldSingle<nat>(DepthStep, depth + 1, end);
  }

  lemma LeafKeepsDepth(depth: nat, e: Event, inner: seq<Event>)
    requires !e.StartElem? && !e.EndElem?
    requires Fold<nat>(DepthStep, depth, inner) == depth
    ensures Fold<nat>(DepthStep, depth, [e] + inner) == depth
  {
    FoldAppend<nat>(DepthStep, depth, [e], inner);
    FoldSingle<nat>(DepthStep, depth, e);
  }

  /** Every subtree leaves the depth where it found it: each start tag is
      closed by its end tag. */
  lemma {:induction false} NodeKeepsDepth(d: Doc, id: NodeId, fuel: nat, depth: nat)
    ensures Fold<nat>(DepthStep, depth, NodeEvents(d, id, fuel)) == depth
    decreases fuel, 0, 0
  {
    if fuel == 0 || id >= |d.nodes| {
      assert NodeEvents(d, id, fuel) == [];
    } else {
      var n := d.nodes[id];
      var inner := ChildEvents(d, n.children, fuel - 1);
      match n.value
      case ElementNode(name, attrs) =>
        ChildrenKeepDepth(d, n.children, fuel - 1, depth + 1);
        ElementKeepsDepth(depth, StartElem(name, attrs), inner, EndElem(name));
      case DocumentNode =>
        ChildrenKeepDepth(d, n.children, fuel - 1, depth);
      case DoctypeNode(t) =>
        ChildrenKeepDepth(d, n.children, fuel - 1, depth);
        LeafKeepsDepth(depth, WriteDoctype(t), inner);
      case CommentNode(c) =>
        ChildrenKeepDepth(d, n.children, fuel - 1, depth);
        LeafKeepsDepth(depth, WriteComment(c), inner);
      case TextNode(t) =>
        ChildrenKeepDepth(d, n.children, fuel - 1, depth);
        LeafKeepsDepth(depth, WriteText(t), inner);
      case PiNode(t, data) =>
        ChildrenKeepDepth(d, n.children, fuel - 1, depth);
        LeafKeepsDepth(depth, WritePi(t, data), inner);
    }
  }

  lemma {:induction false} ChildrenKeepDepth(d: Doc, kids: seq<NodeId>, fuel: nat, depth: nat)
    ensures Fold<nat>(DepthStep, depth, ChildEvents(d, kids, fuel)) == depth
    decreases fuel, 1, |kids|
  {
    if kids == [] {
      assert ChildEvents(d, kids, fuel) == [];
    } else {
      var first := NodeEvents(d, kids[0], fuel);
      FoldAppend<nat>(DepthStep, depth, first, ChildEvents(d, kids[1..], fuel));
      NodeKeepsDepth(d, kids[0], fuel, depth);
      ChildrenKeepDepth(d, kids[1..], fuel, depth);
    }
  }

  /** A whole document closes every element it opens. */
  lemma DocumentIsBalanced(d: Doc)
    ensures Fold<nat>(DepthStep, 0, DocEvents(d)) == 0
  {
    if |d.nodes| > 0 {
      ChildrenKeepDepth(d, d.nodes[Root].children, |d.nodes|, 0);
    } else {
      assert DocEvents(d) == [];
    }
  }

  // ------------------------------------------------------------ rendering

  function RenderAttrs(attrs: seq<Attr>): string {
    if attrs == [] then ""
    else " " + attrs[0].name + "=\"" + attrs[0].value + "\"" + RenderAttrs(attrs[1..])
  }

  function StartTag(name: QualName, attrs: seq<Attr>): string {
    "<" + name.local + RenderAttrs(attrs) + ">"
  }

  /** html5ever's void elements: the serializer writes no end tag for them. */
  predicate IsVoid(name: QualName) {
    name.ns == HtmlNamespace
    && name.local in {"area", "base", "basefont", "bgsound", "br", "col", "embed", "frame", "hr",
                      "img", "input", "keygen", "link", "meta", "param", "source", "track", "wbr"}
  }

  function EndTag(name: QualName): string {
    if IsVoid(name) then "" else "</" + name.local + ">"
  }

  /** What html5ever's plain `HtmlSerializer` writes for one event. */
  function RenderEvent(e: Event): string {
    match e
    case StartElem(name, attrs) => StartTag(name, attrs)
    case EndElem(name) => EndTag(name)
    case WriteText(t) => t
    case WriteComment(c) => "<!--" + c + "-->"
    case WriteDoctype(name) => "<!DOCTYPE " + name + ">"
    case WritePi(t, data) => "<?" + t + " " + data + ">"
  }

  function Render(events: seq<Event>): string {
    if events == [] then "" else RenderEvent(events[0]) + Render(events[1..])
  }

  lemma RenderCons(e: Event, s: seq<Event>)
    ensures Render([e] + s) == RenderEvent(e) + Render(s)
  {
    assert ([e] + s)[1..] == s;
  }

  /** Rendering is a homomorphism from event streams to strings. */
  lemma {:induction false} RenderAppend(a: seq<Event>, b: seq<Event>)
    ensures Render(a + b) == Render(a) + Render(b)
  {
    if a == [] {
      assert a + b == b;
    } else {
      var h := a[0];
      var t := a[1..];
      assert (a + b)[0] == h && (a + b)[1..] == t + b;
      RenderAppend(t, b);
      assert Render(a + b) == RenderEvent(h) + Render(t + b);
      assert Render(a) == RenderEvent(h) + Render(t);
      Text.ConcatAssoc(RenderEvent(h), Render(t), Render(b));
    }
  }


  function Html(d: Doc): string {
    Render(DocEvents(d))
  }

  function OuterHtml(d: Doc, id: NodeId): string {
    Render(OuterEvents(d, id))
  }

  function InnerHtml(d: Doc, id: NodeId): string {
    Render(InnerEvents(d, id))
  }

  /** `ElementRef::text`: the element's descendant text nodes. */
  function TextNodes(d: Doc, id: NodeId): seq<string> {
    Texts(OuterEvents(d, id))
  }

  /** `Element::attr(name)`: the value of the first attribute with that name. */
  function AttrValue(attrs: seq<Attr>, name: string): (r: Option<string>)
    ensures r.Some? <==> exists i :: 0 <= i < |attrs| && attrs[i].name == name
  {
    if attrs == [] then None
    else if attrs[0].name == name then Some(attrs[0].value)
    else AttrValue(attrs[1..], name)
  }

  function ElementAttr(d: Doc, id: NodeId, name: string): Option<string> {
    if IsElement(d, id) then AttrValue(d.nodes[id].value.attrs, name) else None
  }

  // ------------------------------------------------- tree updates (values)

  function SetParent(d: Doc, id: NodeId, p: Option<NodeId>): (r: Doc)
    requires id < |d.nodes|
    ensures |r.nodes| == |d.nodes|
  {
    Doc(d.nodes[id := d.nodes[id].(parent := p)])
  }

  function SetChildren(d: Doc, id: NodeId, kids: seq<NodeId>): (r: Doc)
    requires id < |d.nodes|
    ensures |r.nodes| == |d.nodes|
  {
    Doc(d.nodes[id := d.nodes[id].(children := kids)])
  }

  /** `s` without any occurrence of `x`. */
  function Without(s: seq<NodeId>, x: NodeId): (r: seq<NodeId>)
    ensures x !in r
    ensures forall y :: y in r <==> y in s && y != x
    ensures |r| <= |s|
  {
    if s == [] then []
    else if s[0] == x then Without(s[1..], x)
    else [s[0]] + Without(s[1..], x)
  }

  /** `s` with `y` placed right after the first `x` (at the end if `x` is absent). */
  function PlaceAfter(s: seq<NodeId>, x: NodeId, y: NodeId): (r: seq<NodeId>)
    ensures forall z :: z in r <==> z in s || z == y
    ensures |r| == |s| + 1
  {
    if s == [] then [y]
    else if s[0] == x then [x, y] + s[1..]
    else [s[0]] + PlaceAfter(s[1..], x, y)
  }

  lemma {:induction false} WithoutAbsent(s: seq<NodeId>, x: NodeId)
    requires x !in s
    ensures Without(s, x) == s
  {
    if s != [] {
      WithoutAbsent(s[1..], x);
      assert s == [s[0]] + s[1..];
    }
  }

  lemma {:induction false} WithoutConcat(a: seq<NodeId>, b: seq<NodeId>, x: NodeId)
    ensures Without(a + b, x) == Without(a, x) + Without(b, x)
  {
    if a == [] {
      assert a + b == b;
    } else {
      var h := a[0];
      var t := a[1..];
      assert (a + b)[0] == h && (a + b)[1..] == t + b;
      WithoutConcat(t, b, x);
      if h == x {
        assert Without(a + b, x) == Without(t + b, x);
        assert Without(a, x) == Without(t, x);
      } else {
        assert Without(a + b, x) == [h] + Without(t + b, x);
        assert Without(a, x) == [h] + Without(t, x);
        assert [h] + (Without(t, x) + Without(b, x)) == [h] + Without(t, x) + Without(b, x);
      }
    }
  }

  lemma {:induction false} WithoutAfter(pre: seq<NodeId>, x: NodeId, rest: seq<NodeId>)
    requires x !in pre
    ensures Without(pre + [x] + rest, x) == pre + Without(rest, x)
  {
    if pre == [] {
      assert pre + [x] + rest == [x] + rest;
      assert ([x] + rest)[1..] == rest;
    } else {
      WithoutAfter(pre[1..], x, rest);
      assert (pre + [x] + rest)[1..] == pre[1..] + [x] + rest;
      assert pre == [pre[0]] + pre[1..];
    }
  }

  /** Removing the one occurrence of `x`. */
  lemma WithoutOnce(pre: seq<NodeId>, x: NodeId, rest: seq<NodeId>)
    requires x !in pre && x !in rest
    ensures Without(pre + [x] + rest, x) == pre + rest
  {
    WithoutAfter(pre, x, rest);
    WithoutAbsent(rest, x);
  }

  /** Placing after the first occurrence of `x`. */
  lemma {:induction false} PlaceAfterSplit(a: seq<NodeId>, x: NodeId, b: seq<NodeId>, y: NodeId)
    requires x !in a
    ensures PlaceAfter(a + [x] + b, x, y) == a + [x, y] + b
  {
    if a == [] {
      assert a + [x] + b == [x] + b;
      assert ([x] + b)[1..] == b;
    } else {
      PlaceAfterSplit(a[1..], x, b, y);
      assert (a + [x] + b)[1..] == a[1..] + [x] + b;
    }
  }

  /** `NodeMut::detach`: unlink a node from its parent; its subtree stays with it. */
  function Detached(d: Doc, x: NodeId): (r: Doc)
    ensures |r.nodes| == |d.nodes|
    ensures forall q :: 0 <= q < |d.nodes| && q != x ==> r.nodes[q].parent == d.nodes[q].parent
    ensures forall q :: 0 <= q < |d.nodes| ==> r.nodes[q].value == d.nodes[q].value
  {
    if x >= |d.nodes| then d
    else match d.nodes[x].parent
      case None => d
      case Some(p) =>
        var d1 := if p < |d.nodes| then SetChildren(d, p, Without(d.nodes[p].children, x)) else d;
        SetParent(d1, x, None)
  }

  /** `NodeMut::insert_id_after`: move `sib` to just after `anchor` among the
      children of `anchor`'s parent. */
  function WithSiblingAfter(d: Doc, anchor: NodeId, sib: NodeId): (r: Doc)
    requires CanInsertAfter(d, anchor, sib)
    ensures |r.nodes| == |d.nodes|
    ensures forall q :: 0 <= q < |d.nodes| && q != sib ==> r.nodes[q].parent == d.nodes[q].parent
    ensures r.nodes[sib].parent == d.nodes[anchor].parent
    ensures forall q :: 0 <= q < |d.nodes| ==> r.nodes[q].value == d.nodes[q].value
  {
    var p := d.nodes[anchor].parent.value;
    var d1 := Detached(d, sib);
    SetParent(SetChildren(d1, p, PlaceAfter(d1.nodes[p].children, anchor, sib)), sib, Some(p))
  }

  /** ego_tree panics for a node inserted beside itself or beside an orphan. */
  predicate CanInsertAfter(d: Doc, anchor: NodeId, sib: NodeId) {
    anchor < |d.nodes| && sib < |d.nodes| && anchor != sib
    && d.nodes[anchor].parent.Some? && d.nodes[anchor].parent.value < |d.nodes|
  }

  /** `NodeMut::insert_after`: a new node (the next id) just after `anchor`. */
  function WithNewSiblingAfter(d: Doc, anchor: NodeId, value: NodeData): (r: Doc)
    requires anchor < |d.nodes| && d.nodes[anchor].parent.Some? && d.nodes[anchor].parent.value < |d.nodes|
    ensures |r.nodes| == |d.nodes| + 1
    ensures forall q :: 0 <= q < |d.nodes| ==> r.nodes[q].value == d.nodes[q].value && r.nodes[q].parent == d.nodes[q].parent
    ensures r.nodes[|d.nodes|].value == value && r.nodes[|d.nodes|].parent == d.nodes[anchor].parent
  {
    var p := d.nodes[anchor].parent.value;
    var d1 := Doc(d.nodes + [Node(value, Some(p), [])]);
    SetChildren(d1, p, PlaceAfter(d1.nodes[p].children, anchor, |d.nodes|))
  }

  /** `NodeMut::append_id`: move `child` to the end of `parent`'s children. */
  function WithChildAppended(d: Doc, parent: NodeId, child: NodeId): (r: Doc)
    requires parent < |d.nodes| && child < |d.nodes| && parent != child
    ensures |r.nodes| == |d.nodes|
    ensures forall q :: 0 <= q < |d.nodes| && q != child ==> r.nodes[q].parent == d.nodes[q].parent
    ensures r.nodes[child].parent == Some(parent)
    ensures forall q :: 0 <= q < |d.nodes| ==> r.nodes[q].value == d.nodes[q].value
  {
    var d1 := Detached(d, child);
    SetParent(SetChildren(d1, parent, d1.nodes[parent].children + [child]), child, Some(parent))
  }

  lemma SetChildrenInRange(d: Doc, id: NodeId, kids: seq<NodeId>)
    requires LinksInRange(d) && id < |d.nodes|
    requires forall k :: k in kids ==> k < |d.nodes|
    ensures LinksInRange(SetChildren(d, id, kids))
  {
    var r := SetChildren(d, id, kids);
    forall i | 0 <= i < |r.nodes|
      ensures r.nodes[i].parent.Some? ==> r.nodes[i].parent.value < |r.nodes|
      ensures forall k :: 0 <= k < |r.nodes[i].children| ==> r.nodes[i].children[k] < |r.nodes|
    {
      if i == id {
        assert r.nodes[i].children == kids;
        assert forall k :: 0 <= k < |kids| ==> kids[k] in kids;
      }
    }
  }

  lemma SetParentInRange(d: Doc, id: NodeId, p: Option<NodeId>)
    requires LinksInRange(d) && id < |d.nodes|
    requires p.Some? ==> p.value < |d.nodes|
    ensures LinksInRange(SetParent(d, id, p))
  {
    var r := SetParent(d, id, p);
    forall i | 0 <= i < |r.nodes|
      ensures r.nodes[i].parent.Some? ==> r.nodes[i].parent.value < |r.nodes|
      ensures forall k :: 0 <= k < |r.nodes[i].children| ==> r.nodes[i].children[k] < |r.nodes|
    {
      if i == id {
        assert r.nodes[i].children == d.nodes[i].children;
      }
    }
  }

  lemma ChildrenInRange(d: Doc, id: NodeId)
    requires LinksInRange(d) && id < |d.nodes|
    ensures forall k :: k in d.nodes[id].children ==> k < |d.nodes|
  {
    forall k | k in d.nodes[id].children
      ensures k < |d.nodes|
    {
      var j :| 0 <= j < |d.nodes[id].children| && d.nodes[id].children[j] == k;
    }
  }

  lemma DetachedKeepsLinksInRange(d: Doc, x: NodeId)
    requires LinksInRange(d)
    ensures LinksInRange(Detached(d, x))
  {
    if x < |d.nodes| && d.nodes[x].parent.Some? {
      var p := d.nodes[x].parent.value;
      ChildrenInRange(d, p);
      var d1 := SetChildren(d, p, Without(d.nodes[p].children, x));
      SetChildrenInRange(d, p, Without(d.nodes[p].children, x));
      SetParentInRange(d1, x, None);
    }
  }

  lemma SiblingAfterKeepsLinksInRange(d: Doc, anchor: NodeId, sib: NodeId)
    requires LinksInRange(d) && CanInsertAfter(d, anchor, sib)
    ensures LinksInRange(WithSiblingAfter(d, anchor, sib))
  {
    var p := d.nodes[anchor].parent.value;
    var d1 := Detached(d, sib);
    DetachedKeepsLinksInRange(d, sib);
    ChildrenInRange(d1, p);
    var kids := PlaceAfter(d1.nodes[p].children, anchor, sib);
    SetChildrenInRange(d1, p, kids);
    SetParentInRange(SetChildren(d1, p, kids), sib, Some(p));
  }

  lemma NewSiblingKeepsLinksInRange(d: Doc, anchor: NodeId, value: NodeData)
    requires LinksInRange(d)
    requires anchor < |d.nodes| && d.nodes[anchor].parent.Some?
    ensures LinksInRange(WithNewSiblingAfter(d, anchor, value))
  {
    var p := d.nodes[anchor].parent.value;
    var d1 := Doc(d.nodes + [Node(value, Some(p), [])]);
    assert LinksInRange(d1) by {
      forall i | 0 <= i < |d1.nodes|
        ensures d1.nodes[i].parent.Some? ==> d1.nodes[i].parent.value < |d1.nodes|
        ensures forall k :: 0 <= k < |d1.nodes[i].children| ==> d1.nodes[i].children[k] < |d1.nodes|
      {
        if i < |d.nodes| {
          assert d1.nodes[i] == d.nodes[i];
        }
      }
    }
    ChildrenInRange(d1, p);
    SetChildrenInRange(d1, p, PlaceAfter(d1.nodes[p].children, anchor, |d.nodes|));
  }

  lemma AppendedKeepsLinksInRange(d: Doc, parent: NodeId, child: NodeId)
    requires LinksInRange(d) && parent < |d.nodes| && child < |d.nodes| && parent != child
    ensures LinksInRange(WithChildAppended(d, parent, child))
  {
    var d1 := Detached(d, child);
    DetachedKeepsLinksInRange(d, child);
    ChildrenInRange(d1, parent);
    var kids := d1.nodes[parent].children + [child];
    SetChildrenInRange(d1, parent, kids);
    SetParentInRange(SetChildren(d1, parent, kids), child, Some(parent));
  }

  lemma {:induction false} WithoutKeepsNoDuplicates(s: seq<NodeId>, x: NodeId)
    requires NoDuplicates(s)
    ensures NoDuplicates(Without(s, x))
  {
    if s != [] {
      WithoutKeepsNoDuplicates(s[1..], x);
      if s[0] != x {
        assert s[0] !in s[1..];
      }
    }
  }

  /** In a consistent tree a node is listed only by its parent. */
  lemma ListedByParent(d: Doc, p: NodeId, x: NodeId)
    requires Consistent(d) && p < |d.nodes| && x in d.nodes[p].children
    ensures d.nodes[x].parent == Some(p)
  {
    var k :| 0 <= k < |d.nodes[p].children| && d.nodes[p].children[k] == x;
  }

  /** `detach` changes two nodes: the parent's child list loses the node,
      and the node loses its parent; its own children stay. */
  lemma DetachedShape(d: Doc, x: NodeId, q: NodeId)
    requires LinksInRange(d) && x < |d.nodes| && d.nodes[x].parent.Some? && q < |d.nodes|
    ensures Detached(d, x).nodes[q].value == d.nodes[q].value
    ensures Detached(d, x).nodes[q].parent == if q == x then None else d.nodes[q].parent
    ensures Detached(d, x).nodes[q].children ==
      if q == d.nodes[x].parent.value then Without(d.nodes[q].children, x) else d.nodes[q].children
  {
  }

  lemma DetachedKeepsConsistent(d: Doc, x: NodeId)
    requires Consistent(d)
    ensures Consistent(Detached(d, x))
  {
    DetachedKeepsLinksInRange(d, x);
    if x < |d.nodes| && d.nodes[x].parent.Some? {
      var p := d.nodes[x].parent.value;
      var r := Detached(d, x);
      forall q, k | 0 <= q < |r.nodes| && 0 <= k < |r.nodes[q].children|
        ensures r.nodes[r.nodes[q].children[k]].parent == Some(q)
      {
        var c := r.nodes[q].children[k];
        DetachedShape(d, x, q);
        assert c in r.nodes[q].children;
        assert c in d.nodes[q].children && c != x;
        ListedByParent(d, q, c);
        DetachedShape(d, x, c);
      }
      forall y | 0 <= y < |r.nodes| && r.nodes[y].parent.Some?
        ensures y in r.nodes[r.nodes[y].parent.value].children
      {
        DetachedShape(d, x, y);
        DetachedShape(d, x, d.nodes[y].parent.value);
      }
      forall q | 0 <= q < |r.nodes|
        ensures NoDuplicates(r.nodes[q].children)
      {
        DetachedShape(d, x, q);
        WithoutKeepsNoDuplicates(d.nodes[q].children, x);
      }
    }
  }

  lemma {:induction false} PlaceAfterKeepsNoDuplicates(s: seq<NodeId>, x: NodeId, y: NodeId)
    requires NoDuplicates(s) && y !in s
    ensures NoDuplicates(PlaceAfter(s, x, y))
  {
    if s != [] && s[0] != x {
      PlaceAfterKeepsNoDuplicates(s[1..], x, y);
      assert s[0] !in s[1..];
    }
  }

  /** Linking a parentless node `sib` under `p`, whose child list becomes
      `kids` (the old children and `sib`, each once), keeps a tree consistent. */
  lemma AttachKeepsConsistent(d: Doc, p: NodeId, sib: NodeId, kids: seq<NodeId>)
    requires Consistent(d) && p < |d.nodes| && sib < |d.nodes| && d.nodes[sib].parent.None?
    requires NoDuplicates(kids)
    requires forall z :: z in kids <==> z in d.nodes[p].children || z == sib
    ensures Consistent(SetParent(SetChildren(d, p, kids), sib, Some(p)))
  {
    var r := SetParent(SetChildren(d, p, kids), sib, Some(p));
    ChildrenInRange(d, p);
    SetChildrenInRange(d, p, kids);
    SetParentInRange(SetChildren(d, p, kids), sib, Some(p));
    forall q, k | 0 <= q < |r.nodes| && 0 <= k < |r.nodes[q].children|
      ensures r.nodes[r.nodes[q].children[k]].parent == Some(q)
    {
      var c := r.nodes[q].children[k];
      if q == p {
        assert c in kids;
        if c != sib {
          ListedByParent(d, p, c);
        }
      } else {
        assert c in d.nodes[q].children;
        ListedByParent(d, q, c);
      }
    }
  }

  lemma DetachedLeavesParentless(d: Doc, x: NodeId)
    requires Consistent(d) && x < |d.nodes|
    ensures Detached(d, x).nodes[x].parent.None?
  {
    if d.nodes[x].parent.Some? {
      DetachedShape(d, x, x);
    }
  }

  /** In a consistent tree a node that no node names as its parent has no
      children. */
  lemma NoChildWithoutParentLink(d: Doc, p: NodeId)
    requires Consistent(d) && p < |d.nodes|
    requires forall c :: 0 <= c < |d.nodes| ==> d.nodes[c].parent != Some(p)
    ensures d.nodes[p].children == []
  {
    if d.nodes[p].children != [] {
      ListedByParent(d, p, d.nodes[p].children[0]);
    }
  }

  /** In a tree without cycles a node's parent is never also its child. */
  lemma ParentNotChild(d: Doc, rank: seq<nat>, q: NodeId, x: NodeId)
    requires Consistent(d) && Ranked(d, rank) && q < |d.nodes|
    requires d.nodes[q].parent == Some(x)
    ensures x !in d.nodes[q].children
  {
    if x in d.nodes[q].children {
      ListedByParent(d, q, x);
    }
  }

  /** `insert_id_after` changes no child list but those of the moved
      node's old parent and of the anchor's parent. */
  lemma SiblingAfterChildren(d: Doc, anchor: NodeId, sib: NodeId, q: NodeId)
    requires LinksInRange(d) && CanInsertAfter(d, anchor, sib) && q < |d.nodes|
    requires q != d.nodes[anchor].parent.value
    requires d.nodes[sib].parent != Some(q)
    ensures WithSiblingAfter(d, anchor, sib).nodes[q].children == d.nodes[q].children
  {
    if d.nodes[sib].parent.Some? {
      DetachedShape(d, sib, q);
    }
  }

  /** `append_id` changes no child list but those of the moved node's old
      parent and of the new parent. */
  lemma AppendedChildren(d: Doc, parent: NodeId, child: NodeId, q: NodeId)
    requires LinksInRange(d) && parent < |d.nodes| && child < |d.nodes| && parent != child
    requires q < |d.nodes| && q != parent && d.nodes[child].parent != Some(q)
    ensures WithChildAppended(d, parent, child).nodes[q].children == d.nodes[q].children
  {
    if d.nodes[child].parent.Some? {
      DetachedShape(d, child, q);
    }
  }

  /** `insert_after` changes no child list but the anchor's parent's; the
      new node has no children. */
  lemma NewSiblingChildren(d: Doc, anchor: NodeId, value: NodeData, q: NodeId)
    requires anchor < |d.nodes| && d.nodes[anchor].parent.Some? && d.nodes[anchor].parent.value < |d.nodes|
    requires q <= |d.nodes| && q != d.nodes[anchor].parent.value
    ensures WithNewSiblingAfter(d, anchor, value).nodes[q].children == if q == |d.nodes| then [] else d.nodes[q].children
  {
  }

  /** `insert_id_after` keeps a consistent tree consistent. */
  lemma SiblingAfterKeepsConsistent(d: Doc, anchor: NodeId, sib: NodeId)
    requires Consistent(d) && CanInsertAfter(d, anchor, sib)
    ensures Consistent(WithSiblingAfter(d, anchor, sib))
  {
    var p := d.nodes[anchor].parent.value;
    var d1 := Detached(d, sib);
    DetachedKeepsConsistent(d, sib);
    DetachedLeavesParentless(d, sib);
    if sib in d1.nodes[p].children {
      ListedByParent(d1, p, sib);
    }
    PlaceAfterKeepsNoDuplicates(d1.nodes[p].children, anchor, sib);
    AttachKeepsConsistent(d1, p, sib, PlaceAfter(d1.nodes[p].children, anchor, sib));
  }

  /** `append_id` keeps a consistent tree consistent. */
  lemma AppendedKeepsConsistent(d: Doc, parent: NodeId, child: NodeId)
    requires Consistent(d) && parent < |d.nodes| && child < |d.nodes| && parent != child
    ensures Consistent(WithChildAppended(d, parent, child))
  {
    var d1 := Detached(d, child);
    DetachedKeepsConsistent(d, child);
    DetachedLeavesParentless(d, child);
    var s := d1.nodes[parent].children;
    if child in s {
      ListedByParent(d1, parent, child);
    }
    assert NoDuplicates(s + [child]) by {
      assert forall i :: 0 <= i < |s| ==> (s + [child])[i] == s[i];
    }
    AttachKeepsConsistent(d1, parent, child, s + [child]);
  }

  /** A new parentless, childless node at the end of the arena. */
  lemma ExtendedKeepsConsistent(d: Doc, value: NodeData)
    requires Consistent(d)
    ensures Consistent(Doc(d.nodes + [Node(value, None, [])]))
  {
    var d0 := Doc(d.nodes + [Node(value, None, [])]);
    forall i | 0 <= i < |d.nodes|
      ensures d0.nodes[i] == d.nodes[i]
    {
    }
  }

  /** `insert_after` keeps a consistent tree consistent. */
  lemma NewSiblingKeepsConsistent(d: Doc, anchor: NodeId, value: NodeData)
    requires Consistent(d) && anchor < |d.nodes| && d.nodes[anchor].parent.Some?
    ensures Consistent(WithNewSiblingAfter(d, anchor, value))
  {
    var p := d.nodes[anchor].parent.value;
    var n := |d.nodes|;
    var d0 := Doc(d.nodes + [Node(value, None, [])]);
    ExtendedKeepsConsistent(d, value);
    ChildrenInRange(d, p);
    PlaceAfterKeepsNoDuplicates(d0.nodes[p].children, anchor, n);
    AttachKeepsConsistent(d0, p, n, PlaceAfter(d0.nodes[p].children, anchor, n));
    assert WithNewSiblingAfter(d, anchor, value) == SetParent(SetChildren(d0, p, PlaceAfter(d0.nodes[p].children, anchor, n)), n, Some(p));
  }

  // ---------------------------------------------------------- the tree

  /** The mutable tree the editors change in place (`ego_tree::Tree`). */
  class Tree {
    var nodes: seq<Node>

    function Value(): Doc
      reads this
    {
      Doc(nodes)
    }

    predicate Valid()
      reads this
    {
      LinksInRange(Value())
    }

    constructor(d: Doc)
      requires LinksInRange(d)
      ensures Value() == d && Valid()
    {
      nodes := d.nodes;
    }

    method Detach(x: NodeId)
      requires Valid()
      modifies this
      ensures Valid()
      ensures Value() == Detached(old(Value()), x)
    {
      DetachedKeepsLinksInRange(Value(), x);
      if x < |nodes| && nodes[x].parent.Some? {
        var p := nodes[x].parent.value;
        nodes := nodes[p := nodes[p].(children := Without(nodes[p].children, x))];
        nodes := nodes[x := nodes[x].(parent := None)];
      }
    }

    method InsertIdAfter(anchor: NodeId, sib: NodeId)
      requires Valid() && CanInsertAfter(Value(), anchor, sib)
      modifies this
      ensures Valid()
      ensures Value() == WithSiblingAfter(old(Value()), anchor, sib)
    {
      SiblingAfterKeepsLinksInRange(Value(), anchor, sib);
      var p := nodes[anchor].parent.value;
      Detach(sib);
      nodes := nodes[p := nodes[p].(children := PlaceAfter(nodes[p].children, anchor, sib))];
      nodes := nodes[sib := nodes[sib].(parent := Some(p))];
    }

    method InsertAfter(anchor: NodeId, value: NodeData) returns (id: NodeId)
      requires Valid()
      requires anchor < |nodes| && nodes[anchor].parent.Some?
      modifies this
      ensures Valid()
      ensures id == |old(nodes)|
      ensures Value() == WithNewSiblingAfter(old(Value()), anchor, value)
    {
      NewSiblingKeepsLinksInRange(Value(), anchor, value);
      var p := nodes[anchor].parent.value;
      id := |nodes|;
      nodes := nodes + [Node(value, Some(p), [])];
      nodes := nodes[p := nodes[p].(children := PlaceAfter(nodes[p].children, anchor, id))];
    }

    method AppendId(parent: NodeId, child: NodeId)
      requires Valid() && parent < |nodes| && child < |nodes| && parent != child
      modifies this
      ensures Valid()
      ensures Value() == WithChildAppended(old(Value()), parent, child)
    {
      AppendedKeepsLinksInRange(Value(), parent, child);
      Detach(child);
      nodes := nodes[parent := nodes[parent].(children := nodes[parent].children + [child])];
      nodes := nodes[child := nodes[child].(parent := Some(parent))];
    }
  }
}
