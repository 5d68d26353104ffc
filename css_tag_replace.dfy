/** The `css_tag_replace` editor: every matched element is replaced by an
    element of another name with the same attributes and the same children.
    What each match needs is captured before the tree changes; then the new
    element is inserted after the old one, the old children are appended to
    it, and the old element is detached. */
module CssTagReplace {
  import opened Wrappers
  import opened Dom

  /** What `apply` records for one match before any change: its id, a copy
      of its element and the ids of its children. */
  datatype Capture = Capture(id: NodeId, element: NodeData, children: seq<NodeId>)

  function Captures(d: Doc, matches: seq<NodeId>): (r: seq<Capture>)
    requires forall i :: 0 <= i < |matches| ==> matches[i] < |d.nodes|
    ensures |r| == |matches|
  {
    seq(|matches|, i requires 0 <= i < |matches| =>
      Capture(matches[i], d.nodes[matches[i]].value, d.nodes[matches[i]].children))
  }

  /** The copied element with its name set to `local` in the HTML namespace. */
  function Renamed(e: NodeData, local: string): (r: NodeData)
    ensures e.ElementNode? ==> r.ElementNode? && r.name == QualName(HtmlNamespace, local) && r.attrs == e.attrs
    ensures !e.ElementNode? ==> r == e
  {
    if e.ElementNode? then e.(name := QualName(HtmlNamespace, local)) else e
  }

  /** `append_id(c)` on `n` for each `c` in turn. */
  function AppendEach(d: Doc, n: NodeId, cs: seq<NodeId>): (r: Doc)
    requires LinksInRange(d) && n < |d.nodes|
    requires forall i :: 0 <= i < |cs| ==> cs[i] < |d.nodes| && cs[i] != n
    ensures LinksInRange(r) && |r.nodes| == |d.nodes|
    decreases |cs|
  {
    if cs == [] then d
    else
      var prev := AppendEach(d, n, cs[..|cs| - 1]);
      AppendedKeepsLinksInRange(prev, n, cs[|cs| - 1]);
      WithChildAppended(prev, n, cs[|cs| - 1])
  }

  /** One replacement does not panic: the old node is in the tree and has a
      parent, and its captured children are in the tree. */
  predicate StepOk(d: Doc, c: Capture) {
    c.id < |d.nodes| && d.nodes[c.id].parent.Some? && d.nodes[c.id].parent.value < |d.nodes|
    && forall i :: 0 <= i < |c.children| ==> c.children[i] < |d.nodes|
  }

  /** One iteration of the loop in `apply`. */
  function ReplaceOne(d: Doc, c: Capture, local: string): (r: Doc)
    requires LinksInRange(d) && StepOk(d, c)
    ensures LinksInRange(r) && |r.nodes| == |d.nodes| + 1
  {
    NewSiblingKeepsLinksInRange(d, c.id, Renamed(c.element, local));
    var d1 := WithNewSiblingAfter(d, c.id, Renamed(c.element, local));
    var d2 := AppendEach(d1, |d.nodes|, c.children);
    DetachedKeepsLinksInRange(d2, c.id);
    Detached(d2, c.id)
  }

  predicate Replaceable(d: Doc, cs: seq<Capture>, local: string)
    requires LinksInRange(d)
    decreases |cs|
  {
    cs == [] || (StepOk(d, cs[0]) && Replaceable(ReplaceOne(d, cs[0], local), cs[1..], local))
  }

  function ReplaceAll(d: Doc, cs: seq<Capture>, local: string): (r: Doc)
    requires LinksInRange(d) && Replaceable(d, cs, local)
    ensures LinksInRange(r) && |r.nodes| == |d.nodes| + |cs|
    decreases |cs|
  {
    if cs == [] then d else ReplaceAll(ReplaceOne(d, cs[0], local), cs[1..], local)
  }

  /** `CssTagReplace::apply` on the parsed document and the matched ids. */
  method Apply(d: Doc, matches: seq<NodeId>, local: string) returns (html: string)
    requires LinksInRange(d)
    requires forall i :: 0 <= i < |matches| ==> matches[i] < |d.nodes|
    requires Replaceable(d, Captures(d, matches), local)
    ensures html == Html(ReplaceAll(d, Captures(d, matches), local))
    ensures matches == [] ==> html == Html(d)
  {
    var selected := Captures(d, matches);
    var tree := new Tree(d);
    for i := 0 to |selected|
      invariant tree.Valid()
      invariant Replaceable(tree.Value(), selected[i..], local)
      invariant ReplaceAll(d, selected, local) == ReplaceAll(tree.Value(), selected[i..], local)
    {
      assert selected[i..][1..] == selected[i + 1..];
      ReplaceStep(tree, selected[i], local);
    }
    html := Html(tree.Value());
  }

  method ReplaceStep(tree: Tree, c: Capture, local: string)
    requires tree.Valid() && StepOk(tree.Value(), c)
    modifies tree
    ensures tree.Valid()
    ensures tree.Value() == ReplaceOne(old(tree.Value()), c, local)
  {
    var n := tree.InsertAfter(c.id, Renamed(c.element, local));
    AppendAll(tree, n, c.children);
    tree.Detach(c.id);
  }

  /** The inner loop of `apply`: `append_id` of each captured child, in turn. */
  method AppendAll(tree: Tree, n: NodeId, cs: seq<NodeId>)
    requires tree.Valid() && n < |tree.nodes|
    requires forall i :: 0 <= i < |cs| ==> cs[i] < |tree.nodes| && cs[i] != n
    modifies tree
    ensures tree.Valid()
    ensures tree.Value() == AppendEach(old(tree.Value()), n, cs)
  {
    ghost var start := tree.Value();
    for k := 0 to |cs|
      invariant tree.Valid() && |tree.nodes| == |start.nodes|
      invariant tree.Value() == AppendEach(start, n, cs[..k])
    {
      assert cs[..k + 1][..k] == cs[..k];
      tree.AppendId(n, cs[k]);
    }
    assert cs[..|cs|] == cs;
  }

  // ------------------------------------------------- what one step does

  /** `append_id(c)` where `c` is the first remaining child of `x`. */
  lemma AppendStep(r: Doc, n: NodeId, c: NodeId, x: NodeId, rest: seq<NodeId>)
    requires LinksInRange(r) && n < |r.nodes| && c < |r.nodes| && x < |r.nodes|
    requires n != c && x != n
    requires r.nodes[c].parent == Some(x)
    requires r.nodes[x].children == [c] + rest && c !in rest
    ensures WithChildAppended(r, n, c).nodes[n].children == r.nodes[n].children + [c]
    ensures WithChildAppended(r, n, c).nodes[x].children == rest
    ensures WithChildAppended(r, n, c).nodes[c].parent == Some(n)
    ensures forall q :: 0 <= q < |r.nodes| && q != n && q != x && q != c ==>
      WithChildAppended(r, n, c).nodes[q] == r.nodes[q]
  {
    DetachedShape(r, c, n);
    DetachedShape(r, c, x);
    WithoutAbsent(rest, c);
    forall q | 0 <= q < |r.nodes| && q != n && q != x && q != c
      ensures WithChildAppended(r, n, c).nodes[q] == r.nodes[q]
    {
      DetachedShape(r, c, q);
    }
  }

  /** The setting of one replacement in a consistent tree. */
  predicate Target(d: Doc, x: NodeId, pre: seq<NodeId>, post: seq<NodeId>) {
    Consistent(d) && x < |d.nodes| && d.nodes[x].parent.Some?
    && d.nodes[x].parent.value != x
    && d.nodes[x].parent.value !in d.nodes[x].children
    && d.nodes[d.nodes[x].parent.value].children == pre + [x] + post
  }

  lemma TargetFacts(d: Doc, x: NodeId, pre: seq<NodeId>, post: seq<NodeId>)
    requires Target(d, x, pre, post)
    ensures x !in pre && x !in post
    ensures NoDuplicates(d.nodes[x].children)
    ensures forall i :: 0 <= i < |d.nodes[x].children| ==> d.nodes[d.nodes[x].children[i]].parent == Some(x)
    ensures forall i :: 0 <= i < |d.nodes[x].children| ==> d.nodes[x].children[i] < |d.nodes|
  {
    var p := d.nodes[x].parent.value;
    assert NoDuplicates(d.nodes[p].children);
    var s := pre + [x] + post;
    assert s[|pre|] == x;
    forall i | 0 <= i < |pre|
      ensures pre[i] != x
    {
      assert s[i] == pre[i];
    }
    forall i | 0 <= i < |post|
      ensures post[i] != x
    {
      assert s[|pre| + 1 + i] == post[i];
    }
  }

  /** After inserting the new node `n` and appending the first `k` children. */
  predicate AppendedShape(d: Doc, x: NodeId, pre: seq<NodeId>, post: seq<NodeId>, k: nat, r: Doc)
    requires Target(d, x, pre, post) && k <= |d.nodes[x].children|
  {
    var p := d.nodes[x].parent.value;
    var cs := d.nodes[x].children;
    var n := |d.nodes|;
    |r.nodes| == n + 1 && LinksInRange(r)
    && r.nodes[p].children == pre + [x, n] + post
    && r.nodes[x].parent == Some(p)
    && r.nodes[x].children == cs[k..]
    && r.nodes[n].children == cs[..k]
    && (forall j :: k <= j < |cs| ==> r.nodes[cs[j]].parent == Some(x))
    && (forall j :: 0 <= j < k ==> r.nodes[cs[j]].parent == Some(n))
    && (forall q :: 0 <= q < n && q != p && q != x && q !in cs ==> r.nodes[q] == d.nodes[q])
  }

  lemma AppendNext(d: Doc, x: NodeId, pre: seq<NodeId>, post: seq<NodeId>, k: nat, r: Doc)
    requires Target(d, x, pre, post) && k < |d.nodes[x].children|
    requires AppendedShape(d, x, pre, post, k, r)
    ensures AppendedShape(d, x, pre, post, k + 1, WithChildAppended(r, |d.nodes|, d.nodes[x].children[k]))
  {
    var cs := d.nodes[x].children;
    var c := cs[k];
    var n := |d.nodes|;
    TargetFacts(d, x, pre, post);
    assert c in cs;
    assert cs[k..] == [c] + cs[k + 1..];
    assert c !in cs[k + 1..];
    assert cs[..k + 1] == cs[..k] + [c];
    AppendStep(r, n, c, x, cs[k + 1..]);
    AppendedKeepsLinksInRange(r, n, c);
  }

  lemma {:induction false} AppendEachShape(d: Doc, x: NodeId, pre: seq<NodeId>, post: seq<NodeId>, v: NodeData, k: nat)
    requires Target(d, x, pre, post) && k <= |d.nodes[x].children|
    ensures var d1 := WithNewSiblingAfter(d, x, v);
            LinksInRange(d1)
            && (forall i :: 0 <= i < k ==> d.nodes[x].children[i] < |d1.nodes| && d.nodes[x].children[i] != |d.nodes|)
            && AppendedShape(d, x, pre, post, k, AppendEach(d1, |d.nodes|, d.nodes[x].children[..k]))
  {
    var cs := d.nodes[x].children;
    var d1 := WithNewSiblingAfter(d, x, v);
    NewSiblingKeepsLinksInRange(d, x, v);
    ChildrenBelowNew(d, x, pre, post, v);
    if k == 0 {
      assert cs[..0] == [];
      NothingAppended(d, x, pre, post, v);
    } else {
      AppendEachShape(d, x, pre, post, v, k - 1);
      AppendEachPrefix(d1, |d.nodes|, cs, k);
      AppendNext(d, x, pre, post, k - 1, AppendEach(d1, |d.nodes|, cs[..k - 1]));
    }
  }

  /** The old children are nodes of the tree other than the new node. */
  lemma ChildrenBelowNew(d: Doc, x: NodeId, pre: seq<NodeId>, post: seq<NodeId>, v: NodeData)
    requires Target(d, x, pre, post)
    ensures forall i :: 0 <= i < |d.nodes[x].children| ==>
      d.nodes[x].children[i] < |WithNewSiblingAfter(d, x, v).nodes| && d.nodes[x].children[i] != |d.nodes|
  {
    TargetFacts(d, x, pre, post);
  }

  /** Right after the new node is inserted, nothing is appended to it yet. */
  lemma NothingAppended(d: Doc, x: NodeId, pre: seq<NodeId>, post: seq<NodeId>, v: NodeData)
    requires Target(d, x, pre, post)
    ensures LinksInRange(WithNewSiblingAfter(d, x, v))
    ensures AppendedShape(d, x, pre, post, 0, WithNewSiblingAfter(d, x, v))
  {
    var p := d.nodes[x].parent.value;
    var cs := d.nodes[x].children;
    var d1 := WithNewSiblingAfter(d, x, v);
    TargetFacts(d, x, pre, post);
    NewSiblingKeepsLinksInRange(d, x, v);
    assert cs[..0] == [] && cs[0..] == cs;
    PlaceAfterSplit(pre, x, post, |d.nodes|);
    assert d1.nodes[x] == d.nodes[x];
    forall j | 0 <= j < |cs|
      ensures d1.nodes[cs[j]].parent == Some(x)
    {
      assert cs[j] != p;
    }
  }

  /** The first `k` appends are the first `k - 1` and one more. */
  lemma AppendEachPrefix(d: Doc, n: NodeId, cs: seq<NodeId>, k: nat)
    requires LinksInRange(d) && n < |d.nodes| && 0 < k <= |cs|
    requires forall i :: 0 <= i < |cs| ==> cs[i] < |d.nodes| && cs[i] != n
    ensures AppendEach(d, n, cs[..k]) == WithChildAppended(AppendEach(d, n, cs[..k - 1]), n, cs[k - 1])
  {
    var prefix := cs[..k];
    assert prefix[..k - 1] == cs[..k - 1];
    AppendEachLast(d, n, prefix);
  }

  lemma AppendEachLast(d: Doc, n: NodeId, s: seq<NodeId>)
    requires LinksInRange(d) && n < |d.nodes| && s != []
    requires forall i :: 0 <= i < |s| ==> s[i] < |d.nodes| && s[i] != n
    ensures AppendEach(d, n, s) == WithChildAppended(AppendEach(d, n, s[..|s| - 1]), n, s[|s| - 1])
  {
  }

  /** One replacement: the new element takes the old one's place among its
      parent's children, has the renamed element as its value and the old
      children in their order below it; the old element is unlinked and
      childless, and no other node of the tree changes. */
  lemma ReplaceOneShape(d: Doc, c: Capture, local: string, pre: seq<NodeId>, post: seq<NodeId>)
    requires Target(d, c.id, pre, post)
    requires c.children == d.nodes[c.id].children
    ensures StepOk(d, c)
    ensures var r := ReplaceOne(d, c, local);
            var p := d.nodes[c.id].parent.value;
            var n := |d.nodes|;
            && r.nodes[p].children == pre + [n] + post
            && r.nodes[n] == Node(Renamed(c.element, local), Some(p), c.children)
            && r.nodes[c.id].parent == None && r.nodes[c.id].children == []
            && (forall j :: 0 <= j < |c.children| ==> r.nodes[c.children[j]].parent == Some(n))
            && (forall q :: 0 <= q < n && q != p && q != c.id && q !in c.children ==> r.nodes[q] == d.nodes[q])
  {
    var x := c.id;
    var cs := c.children;
    var n := |d.nodes|;
    var v := Renamed(c.element, local);
    TargetFacts(d, x, pre, post);
    AppendEachShape(d, x, pre, post, v, |cs|);
    assert cs[..|cs|] == cs;
    var d1 := WithNewSiblingAfter(d, x, v);
    var d2 := AppendEach(d1, n, cs);
    assert ReplaceOne(d, c, local) == Detached(d2, x);
    assert d2.nodes[n].value == v && d2.nodes[n].parent == d.nodes[x].parent by {
      assert d1.nodes[n] == Node(v, d.nodes[x].parent, []);
      AppendEachKeepsNew(d1, n, cs);
    }
    DetachOld(d, x, pre, post, v, d2);
  }

  /** The last step of one replacement: detaching the old node. */
  lemma DetachOld(d: Doc, x: NodeId, pre: seq<NodeId>, post: seq<NodeId>, v: NodeData, d2: Doc)
    requires Target(d, x, pre, post)
    requires AppendedShape(d, x, pre, post, |d.nodes[x].children|, d2)
    requires d2.nodes[|d.nodes|].value == v && d2.nodes[|d.nodes|].parent == d.nodes[x].parent
    ensures var r := Detached(d2, x);
            var p := d.nodes[x].parent.value;
            var n := |d.nodes|;
            var cs := d.nodes[x].children;
            && r.nodes[p].children == pre + [n] + post
            && r.nodes[n] == Node(v, Some(p), cs)
            && r.nodes[x].parent == None && r.nodes[x].children == []
            && (forall j :: 0 <= j < |cs| ==> r.nodes[cs[j]].parent == Some(n))
            && (forall q :: 0 <= q < n && q != p && q != x && q !in cs ==> r.nodes[q] == d.nodes[q])
  {
    var p := d.nodes[x].parent.value;
    var cs := d.nodes[x].children;
    var n := |d.nodes|;
    TargetFacts(d, x, pre, post);
    assert cs[|cs|..] == [] && cs[..|cs|] == cs;
    DetachedShape(d2, x, p);
    DetachedShape(d2, x, n);
    DetachedShape(d2, x, x);
    WithoutBeforeNew(pre, x, n, post);
    forall j | 0 <= j < |cs|
      ensures Detached(d2, x).nodes[cs[j]].parent == Some(n)
    {
      DetachedShape(d2, x, cs[j]);
    }
    forall q | 0 <= q < n && q != p && q != x && q !in cs
      ensures Detached(d2, x).nodes[q] == d.nodes[q]
    {
      DetachedShape(d2, x, q);
    }
  }

  lemma {:induction false} AppendEachKeepsNew(d: Doc, n: NodeId, cs: seq<NodeId>)
    requires LinksInRange(d) && n < |d.nodes|
    requires forall i :: 0 <= i < |cs| ==> cs[i] < |d.nodes| && cs[i] != n
    ensures AppendEach(d, n, cs).nodes[n].value == d.nodes[n].value
    ensures AppendEach(d, n, cs).nodes[n].parent == d.nodes[n].parent
    decreases |cs|
  {
    if cs != [] {
      AppendEachKeepsNew(d, n, cs[..|cs| - 1]);
    }
  }

  lemma WithoutBeforeNew(pre: seq<NodeId>, x: NodeId, n: NodeId, post: seq<NodeId>)
    requires x !in pre && x !in post && x != n
    ensures Without(pre + [x, n] + post, x) == pre + [n] + post
  {
    assert pre + [x, n] + post == pre + [x] + ([n] + post);
    WithoutOnce(pre, x, [n] + post);
    assert pre + ([n] + post) == pre + [n] + post;
  }

  // ------------------------------------------------ several matches

  /** After the appends each appended node has the new node as its parent;
      no other node's parent changes, and no value changes. */
  lemma {:induction false} AppendEachNode(d: Doc, n: NodeId, cs: seq<NodeId>, q: NodeId)
    requires LinksInRange(d) && n < |d.nodes| && q < |d.nodes|
    requires forall i :: 0 <= i < |cs| ==> cs[i] < |d.nodes| && cs[i] != n
    ensures AppendEach(d, n, cs).nodes[q].value == d.nodes[q].value
    ensures AppendEach(d, n, cs).nodes[q].parent == if q in cs then Some(n) else d.nodes[q].parent
    decreases |cs|
  {
    if cs != [] {
      var init := cs[..|cs| - 1];
      AppendEachNode(d, n, init, q);
      assert cs == init + [cs[|cs| - 1]];
    }
  }

  /** Appending distinct children of `x` changes no child list but `x`'s
      and the new node's. */
  lemma {:induction false} AppendEachChildren(d: Doc, n: NodeId, cs: seq<NodeId>, x: NodeId, q: NodeId)
    requires Consistent(d) && n < |d.nodes| && NoDuplicates(cs)
    requires forall i :: 0 <= i < |cs| ==> cs[i] < |d.nodes| && cs[i] != n
    requires forall c :: c in cs ==> d.nodes[c].parent == Some(x)
    requires q < |d.nodes| && q != x && q != n
    ensures AppendEach(d, n, cs).nodes[q].children == d.nodes[q].children
    decreases |cs|
  {
    if cs != [] {
      var init := cs[..|cs| - 1];
      var c := cs[|cs| - 1];
      assert c !in init by {
        assert forall i :: 0 <= i < |init| ==> init[i] == cs[i];
      }
      AppendEachChildren(d, n, init, x, q);
      AppendEachNode(d, n, init, c);
      AppendedChildren(AppendEach(d, n, init), n, c, q);
    }
  }

  lemma {:induction false} AppendEachKeepsConsistent(d: Doc, n: NodeId, cs: seq<NodeId>)
    requires Consistent(d) && n < |d.nodes|
    requires forall i :: 0 <= i < |cs| ==> cs[i] < |d.nodes| && cs[i] != n
    ensures Consistent(AppendEach(d, n, cs))
    decreases |cs|
  {
    if cs != [] {
      var init := cs[..|cs| - 1];
      AppendEachKeepsConsistent(d, n, init);
      AppendedKeepsConsistent(AppendEach(d, n, init), n, cs[|cs| - 1]);
    }
  }

  /** One replacement on any tree: the old node loses its parent, the
      captured children get the new node as parent, the new node holds the
      renamed element beside the old one, and no other parent or value
      changes. */
  lemma ReplaceOneNode(d: Doc, c: Capture, local: string, q: NodeId)
    requires LinksInRange(d) && StepOk(d, c) && q < |d.nodes|
    ensures ReplaceOne(d, c, local).nodes[q].value == d.nodes[q].value
    ensures ReplaceOne(d, c, local).nodes[q].parent ==
      if q == c.id then None
      else if q in c.children then Some(|d.nodes|)
      else d.nodes[q].parent
    ensures ReplaceOne(d, c, local).nodes[|d.nodes|].value == Renamed(c.element, local)
    ensures ReplaceOne(d, c, local).nodes[|d.nodes|].parent == d.nodes[c.id].parent
  {
    var n := |d.nodes|;
    var d1 := WithNewSiblingAfter(d, c.id, Renamed(c.element, local));
    NewSiblingKeepsLinksInRange(d, c.id, Renamed(c.element, local));
    var d2 := AppendEach(d1, n, c.children);
    AppendEachNode(d1, n, c.children, q);
    AppendEachNode(d1, n, c.children, c.id);
    AppendEachKeepsNew(d1, n, c.children);
    if d2.nodes[c.id].parent.Some? {
      DetachedShape(d2, c.id, q);
      DetachedShape(d2, c.id, n);
    }
  }

  /** In a consistent tree, with the capture current, one replacement
      changes no child list but the old node's and its parent's. */
  lemma ReplaceOneChildren(d: Doc, c: Capture, local: string, q: NodeId)
    requires Consistent(d) && StepOk(d, c) && c.children == d.nodes[c.id].children
    requires q < |d.nodes| && q != c.id && q != d.nodes[c.id].parent.value
    ensures ReplaceOne(d, c, local).nodes[q].children == d.nodes[q].children
  {
    var n := |d.nodes|;
    var x := c.id;
    var v := Renamed(c.element, local);
    var d1 := WithNewSiblingAfter(d, x, v);
    NewSiblingKeepsConsistent(d, x, v);
    NewSiblingChildren(d, x, v, q);
    forall k | k in c.children
      ensures d1.nodes[k].parent == Some(x)
    {
      ListedByParent(d, x, k);
    }
    AppendEachChildren(d1, n, c.children, x, q);
    var d2 := AppendEach(d1, n, c.children);
    AppendEachNode(d1, n, c.children, x);
    if d2.nodes[x].parent.Some? {
      DetachedShape(d2, x, q);
    }
  }

  lemma ReplaceOneKeepsConsistent(d: Doc, c: Capture, local: string)
    requires Consistent(d) && StepOk(d, c)
    ensures Consistent(ReplaceOne(d, c, local))
  {
    var n := |d.nodes|;
    var v := Renamed(c.element, local);
    var d1 := WithNewSiblingAfter(d, c.id, v);
    NewSiblingKeepsConsistent(d, c.id, v);
    AppendEachKeepsConsistent(d1, n, c.children);
    DetachedKeepsConsistent(AppendEach(d1, n, c.children), c.id);
  }

  /** Every capture names a node of the tree with a parent, and its
      children are nodes of the tree. */
  predicate Ready(d: Doc, cs: seq<Capture>) {
    forall i :: 0 <= i < |cs| ==>
      cs[i].id < |d.nodes| && d.nodes[cs[i].id].parent.Some?
      && forall j :: 0 <= j < |cs[i].children| ==> cs[i].children[j] < |d.nodes|
  }

  predicate DistinctIds(cs: seq<Capture>) {
    forall i, j :: 0 <= i < j < |cs| ==> cs[i].id != cs[j].id
  }

  /** Captures of distinct matches that each have a parent never make the
      loop panic, in any order. */
  lemma {:induction false} ReplaceableWhenReady(d: Doc, cs: seq<Capture>, local: string)
    requires LinksInRange(d) && Ready(d, cs) && DistinctIds(cs)
    ensures Replaceable(d, cs, local)
    decreases |cs|
  {
    if cs != [] {
      var d2 := ReplaceOne(d, cs[0], local);
      var rest := cs[1..];
      forall i | 0 <= i < |rest|
        ensures rest[i].id < |d2.nodes| && d2.nodes[rest[i].id].parent.Some?
        ensures forall j :: 0 <= j < |rest[i].children| ==> rest[i].children[j] < |d2.nodes|
      {
        assert rest[i] == cs[i + 1] && cs[0].id != cs[i + 1].id;
        ReplaceOneNode(d, cs[0], local, rest[i].id);
      }
      ReplaceableWhenReady(d2, rest, local);
    }
  }

  /** The captures of distinct matches that each have a parent. */
  lemma CapturesReady(d: Doc, ids: seq<NodeId>)
    requires LinksInRange(d) && NoDuplicates(ids)
    requires forall i :: 0 <= i < |ids| ==> ids[i] < |d.nodes| && d.nodes[ids[i]].parent.Some?
    ensures Ready(d, Captures(d, ids)) && DistinctIds(Captures(d, ids))
  {
  }

  // ------------------------------------------- where every node ends up

  /** Where node `z` stands once the matches `ids` are replaced: the new
      node of its match, numbered from `base` in match order, or itself. */
  function Image(ids: seq<NodeId>, base: nat, z: NodeId): (r: NodeId)
    ensures z !in ids ==> r == z
    ensures z in ids ==> base <= r < base + |ids|
    decreases |ids|
  {
    if ids == [] then z
    else if ids[0] == z then base
    else Image(ids[1..], base + 1, z)
  }

  function ImageOpt(ids: seq<NodeId>, base: nat, a: Option<NodeId>): Option<NodeId> {
    if a.Some? then Some(Image(ids, base, a.value)) else None
  }

  function ImageSeq(ids: seq<NodeId>, base: nat, s: seq<NodeId>): (r: seq<NodeId>)
    ensures |r| == |s|
  {
    seq(|s|, j requires 0 <= j < |s| => Image(ids, base, s[j]))
  }

  /** The i-th match becomes the i-th new node. */
  lemma {:induction false} ImageAt(ids: seq<NodeId>, base: nat, i: nat)
    requires NoDuplicates(ids) && i < |ids|
    ensures Image(ids, base, ids[i]) == base + i
    decreases |ids|
  {
    if i > 0 {
      assert ids[0] != ids[i];
      assert ids[1..][i - 1] == ids[i];
      ImageAt(ids[1..], base + 1, i - 1);
    }
  }

  /** One more match: only that match's image changes. */
  lemma {:induction false} ImageSnoc(ids: seq<NodeId>, base: nat, x: NodeId, z: NodeId)
    requires x !in ids
    ensures Image(ids + [x], base, z) == if z == x then base + |ids| else Image(ids, base, z)
    decreases |ids|
  {
    if ids != [] {
      assert (ids + [x])[1..] == ids[1..] + [x];
      ImageSnoc(ids[1..], base + 1, x, z);
    }
  }

  /** A list without the new match keeps its image. */
  lemma ImageSeqSame(ids: seq<NodeId>, base: nat, x: NodeId, s: seq<NodeId>)
    requires x !in ids && x !in s
    ensures ImageSeq(ids + [x], base, s) == ImageSeq(ids, base, s)
  {
    forall j | 0 <= j < |s|
      ensures ImageSeq(ids + [x], base, s)[j] == ImageSeq(ids, base, s)[j]
    {
      ImageSnoc(ids, base, x, s[j]);
    }
  }

  lemma ImageOptSame(ids: seq<NodeId>, base: nat, x: NodeId, a: Option<NodeId>)
    requires x !in ids && a != Some(x)
    ensures ImageOpt(ids + [x], base, a) == ImageOpt(ids, base, a)
  {
    if a.Some? {
      ImageSnoc(ids, base, x, a.value);
    }
  }

  /** A list holding the new match once: the new node takes its place. */
  lemma ImageSeqSubst(ids: seq<NodeId>, base: nat, x: NodeId, s: seq<NodeId>, pre: seq<NodeId>, post: seq<NodeId>)
    requires x !in ids && x < base && x !in pre && x !in post
    requires ImageSeq(ids, base, s) == pre + [x] + post
    ensures ImageSeq(ids + [x], base, s) == pre + [base + |ids|] + post
  {
    var t := ImageSeq(ids, base, s);
    forall j | 0 <= j < |s|
      ensures ImageSeq(ids + [x], base, s)[j] == (pre + [base + |ids|] + post)[j]
    {
      ImageSnoc(ids, base, x, s[j]);
      assert t[j] == Image(ids, base, s[j]);
      if j < |pre| {
        assert t[j] == pre[j];
      } else if j > |pre| {
        assert t[j] == post[j - |pre| - 1];
      }
    }
  }

  /** No match is a child of a later match: `select` walks the tree in
      document order, so a match comes before everything below it. */
  predicate InDocumentOrder(d: Doc, ids: seq<NodeId>)
    requires forall i :: 0 <= i < |ids| ==> ids[i] < |d.nodes|
  {
    forall i, j :: 0 <= i < j < |ids| ==> d.nodes[ids[i]].parent != Some(ids[j])
  }

  /** What `apply` gets from `select` on a parsed document: a consistent
      tree without cycles and distinct matches, each with a parent, in
      document order. */
  predicate Selection(d: Doc, ids: seq<NodeId>, rank: seq<nat>) {
    Consistent(d) && Ranked(d, rank) && NoDuplicates(ids)
    && (forall i :: 0 <= i < |ids| ==> ids[i] < |d.nodes| && d.nodes[ids[i]].parent.Some?)
    && InDocumentOrder(d, ids)
  }

  /** The tree after the first `k` replacements: each of those matches is
      unlinked and childless, its new node holds the renamed element in
      its place, and every other node has its value and the images of its
      links. */
  predicate Replaced(d: Doc, ids: seq<NodeId>, local: string, k: nat, r: Doc)
    requires k <= |ids| && forall i :: 0 <= i < |ids| ==> ids[i] < |d.nodes|
  {
    var n := |d.nodes|;
    var done := ids[..k];
    |r.nodes| == n + k
    && (forall i :: 0 <= i < k ==> r.nodes[ids[i]] == Node(d.nodes[ids[i]].value, None, []))
    && (forall i :: 0 <= i < k ==>
          r.nodes[n + i] == Node(Renamed(d.nodes[ids[i]].value, local),
                                 ImageOpt(done, n, d.nodes[ids[i]].parent),
                                 ImageSeq(done, n, d.nodes[ids[i]].children)))
    && (forall q {:trigger r.nodes[q]} :: 0 <= q < n && q !in done ==>
          r.nodes[q] == Node(d.nodes[q].value, ImageOpt(done, n, d.nodes[q].parent), ImageSeq(done, n, d.nodes[q].children)))
  }

  /** The i-th new node, as `Replaced` describes it. */
  lemma ReplacedNewNode(d: Doc, ids: seq<NodeId>, local: string, k: nat, r: Doc, i: nat)
    requires k <= |ids| && (forall j :: 0 <= j < |ids| ==> ids[j] < |d.nodes|)
    requires Replaced(d, ids, local, k, r) && i < k
    ensures r.nodes[|d.nodes| + i] ==
      Node(Renamed(d.nodes[ids[i]].value, local),
           ImageOpt(ids[..k], |d.nodes|, d.nodes[ids[i]].parent),
           ImageSeq(ids[..k], |d.nodes|, d.nodes[ids[i]].children))
  {
  }

  /** Before the k-th replacement the match still has its own children and
      stands under the image of its parent, which is neither itself nor
      one of its children. */
  lemma StepTarget(d: Doc, ids: seq<NodeId>, local: string, rank: seq<nat>, k: nat, r: Doc)
    returns (pre: seq<NodeId>, post: seq<NodeId>)
    requires Selection(d, ids, rank) && k < |ids| && Replaced(d, ids, local, k, r) && Consistent(r)
    ensures Target(r, ids[k], pre, post)
    ensures r.nodes[ids[k]].value == d.nodes[ids[k]].value
    ensures r.nodes[ids[k]].children == d.nodes[ids[k]].children
    ensures r.nodes[ids[k]].parent == Some(Image(ids[..k], |d.nodes|, d.nodes[ids[k]].parent.value))
  {
    var n := |d.nodes|;
    var done := ids[..k];
    var x := ids[k];
    var p := d.nodes[x].parent.value;
    var cs := d.nodes[x].children;
    assert x !in done by {
      forall i | 0 <= i < k
        ensures done[i] != x
      {
      }
    }
    assert r.nodes[x] == Node(d.nodes[x].value, ImageOpt(done, n, d.nodes[x].parent), ImageSeq(done, n, cs));
    forall j | 0 <= j < |cs|
      ensures Image(done, n, cs[j]) == cs[j]
    {
      ListedByParent(d, x, cs[j]);
    }
    assert ImageSeq(done, n, cs) == cs;
    var p2 := Image(done, n, p);
    assert p != x && p !in cs by {
      if p in cs {
        ListedByParent(d, x, p);
      }
    }
    ChildrenInRange(d, x);
    assert Consistent(r);
    assert x in r.nodes[p2].children;
    var j :| 0 <= j < |r.nodes[p2].children| && r.nodes[p2].children[j] == x;
    pre := r.nodes[p2].children[..j];
    post := r.nodes[p2].children[j + 1..];
    SplitAround(r.nodes[p2].children, j);
  }

  lemma SplitAround(s: seq<NodeId>, j: nat)
    requires j < |s|
    ensures s == s[..j] + [s[j]] + s[j + 1..]
  {
  }

  /** The k-th replacement about to happen, in the setting `StepTarget`
      establishes. */
  predicate AtStep(d: Doc, ids: seq<NodeId>, local: string, rank: seq<nat>, k: nat, r: Doc, pre: seq<NodeId>, post: seq<NodeId>) {
    Selection(d, ids, rank) && k < |ids| && Replaced(d, ids, local, k, r)
    && Target(r, ids[k], pre, post)
    && r.nodes[ids[k]].value == d.nodes[ids[k]].value
    && r.nodes[ids[k]].children == d.nodes[ids[k]].children
    && r.nodes[ids[k]].parent == Some(Image(ids[..k], |d.nodes|, d.nodes[ids[k]].parent.value))
  }

  /** The facts every part of the step uses. */
  lemma StepFacts(d: Doc, ids: seq<NodeId>, local: string, rank: seq<nat>, k: nat, r: Doc, pre: seq<NodeId>, post: seq<NodeId>)
    requires AtStep(d, ids, local, rank, k, r, pre, post)
    ensures Captures(d, ids)[k] == Capture(ids[k], r.nodes[ids[k]].value, r.nodes[ids[k]].children)
    ensures ids[k] !in ids[..k] && ids[..k + 1] == ids[..k] + [ids[k]] && NoDuplicates(ids[..k])
    ensures d.nodes[ids[k]].parent.value != ids[k]
    ensures ids[k] !in d.nodes[ids[k]].children
    ensures ImageSeq(ids[..k], |d.nodes|, d.nodes[ids[k]].children) == d.nodes[ids[k]].children
  {
    var x := ids[k];
    var done := ids[..k];
    assert x !in done by {
      forall i | 0 <= i < k
        ensures done[i] != x
      {
      }
    }
    assert ids[..k + 1] == done + [x];
    assert d.nodes[x].parent.value != x;
    if x in d.nodes[x].children {
      ListedByParent(d, x, x);
    }
    assert r.nodes[x] == Node(d.nodes[x].value, ImageOpt(done, |d.nodes|, d.nodes[x].parent), ImageSeq(done, |d.nodes|, d.nodes[x].children));
  }

  /** One replacement stated node by node, without the functions that
      perform it: the new node `n` holds the renamed element under the
      match's parent and takes over the match's children, the match is
      unlinked and childless, the match's parent lists `n` in its place,
      the captured children name `n` as their parent, and nothing else
      changes. */
  predicate OneReplaced(r: Doc, c: Capture, local: string, pre: seq<NodeId>, post: seq<NodeId>, r2: Doc)
    requires Target(r, c.id, pre, post)
  {
    var n := |r.nodes|;
    var p := r.nodes[c.id].parent.value;
    |r2.nodes| == n + 1
    && r2.nodes[n] == Node(Renamed(c.element, local), Some(p), c.children)
    && r2.nodes[c.id] == Node(r.nodes[c.id].value, None, [])
    && forall q {:trigger r2.nodes[q]} :: 0 <= q < n && q != c.id ==>
         r2.nodes[q] == Node(r.nodes[q].value,
                             if q in c.children then Some(n) else r.nodes[q].parent,
                             if q == p then pre + [n] + post else r.nodes[q].children)
  }

  /** One iteration of the loop in `apply`, with the capture still current,
      performs exactly `OneReplaced`. */
  lemma ReplaceOneStep(r: Doc, c: Capture, local: string, pre: seq<NodeId>, post: seq<NodeId>)
    requires Target(r, c.id, pre, post) && c.children == r.nodes[c.id].children
    ensures StepOk(r, c) && Consistent(ReplaceOne(r, c, local))
    ensures OneReplaced(r, c, local, pre, post, ReplaceOne(r, c, local))
  {
    var r2 := ReplaceOne(r, c, local);
    var n := |r.nodes|;
    var p := r.nodes[c.id].parent.value;
    ReplaceOneShape(r, c, local, pre, post);
    ReplaceOneKeepsConsistent(r, c, local);
    ReplaceOneNode(r, c, local, c.id);
    forall q | 0 <= q < n && q != c.id
      ensures r2.nodes[q] == Node(r.nodes[q].value,
                                  if q in c.children then Some(n) else r.nodes[q].parent,
                                  if q == p then pre + [n] + post else r.nodes[q].children)
    {
      ReplaceOneNode(r, c, local, q);
      if q != p {
        ReplaceOneChildren(r, c, local, q);
      }
    }
  }

  /** A node listed among the images of `kids` is listed among the real
      children, and it is the new match only if the match stands there. */
  lemma ImagedChild(r: Doc, q: NodeId, done: seq<NodeId>, n: nat, kids: seq<NodeId>, x: NodeId)
    requires Consistent(r) && q < |r.nodes| && r.nodes[q].children == ImageSeq(done, n, kids)
    requires x < |r.nodes| && x !in done && x in kids
    ensures r.nodes[x].parent == Some(q)
  {
    var j :| 0 <= j < |kids| && kids[j] == x;
    assert r.nodes[q].children[j] == x;
  }

  /** A node whose value and parent stay and whose children change only
      by the new node taking the new match's place keeps matching its
      image, now with one more match. */
  lemma ImageStep(done: seq<NodeId>, n: nat, x: NodeId, value: NodeData, a: Option<NodeId>, kids: seq<NodeId>,
                  pre: seq<NodeId>, post: seq<NodeId>, before: Node, after: Node, isParent: bool)
    requires x !in done && x < n && x !in pre && x !in post && a != Some(x)
    requires before == Node(value, ImageOpt(done, n, a), ImageSeq(done, n, kids))
    requires after.value == before.value && after.parent == before.parent
    requires isParent ==> before.children == pre + [x] + post && after.children == pre + [n + |done|] + post
    requires !isParent ==> x !in kids && after.children == before.children
    ensures after == Node(value, ImageOpt(done + [x], n, a), ImageSeq(done + [x], n, kids))
  {
    ImageOptSame(done, n, x, a);
    if isParent {
      ImageSeqSubst(done, n, x, kids, pre, post);
    } else {
      ImageSeqSame(done, n, x, kids);
    }
  }

  /** A child of the new match: its parent becomes the new node made now. */
  lemma ImageStepChild(done: seq<NodeId>, n: nat, x: NodeId, value: NodeData, kids: seq<NodeId>,
                       before: Node, after: Node)
    requires x !in done && x !in kids
    requires before == Node(value, ImageOpt(done, n, Some(x)), ImageSeq(done, n, kids))
    requires after.value == before.value && after.parent == Some(n + |done|)
    requires after.children == before.children
    ensures after == Node(value, ImageOpt(done + [x], n, Some(x)), ImageSeq(done + [x], n, kids))
  {
    ImageSnoc(done, n, x, x);
    ImageSeqSame(done, n, x, kids);
  }

  // The kinds of node after one more replacement, each stated on the tree
  // `r` before it, the tree `r2` after it and the images before and after
  // the new match `c.id`.

  /** A new node made earlier changes only if it is the match's parent:
      then the new node made now takes the match's place among its
      children. */
  lemma NewNodeEarlier(r: Doc, c: Capture, local: string, pre: seq<NodeId>, post: seq<NodeId>, r2: Doc,
                       done: seq<NodeId>, n: nat, i: nat, value: NodeData, a: Option<NodeId>, kids: seq<NodeId>)
    requires Target(r, c.id, pre, post) && OneReplaced(r, c, local, pre, post, r2)
    requires |r.nodes| == n + |done| && c.id !in done && c.id < n && i < |done|
    requires forall z :: z in c.children ==> z < n
    requires r.nodes[n + i] == Node(value, ImageOpt(done, n, a), ImageSeq(done, n, kids))
    requires a != Some(c.id)
    ensures r2.nodes[n + i] == Node(value, ImageOpt(done + [c.id], n, a), ImageSeq(done + [c.id], n, kids))
  {
    var x := c.id;
    var q := n + i;
    TargetFacts(r, x, pre, post);
    if x in kids {
      ImagedChild(r, q, done, n, kids, x);
    }
    ImageStep(done, n, x, value, a, kids, pre, post, r.nodes[q], r2.nodes[q], q == r.nodes[x].parent.value);
  }

  /** An old node that is not a match yet: the match's parent gets the new
      node in the match's place, the match's children get the new node as
      their parent, and every other node keeps its value and links. */
  lemma OldNodeNext(r: Doc, c: Capture, local: string, pre: seq<NodeId>, post: seq<NodeId>, r2: Doc,
                    done: seq<NodeId>, n: nat, q: NodeId, value: NodeData, a: Option<NodeId>, kids: seq<NodeId>)
    requires Target(r, c.id, pre, post) && OneReplaced(r, c, local, pre, post, r2)
    requires c.children == r.nodes[c.id].children
    requires |r.nodes| == n + |done| && c.id !in done && c.id < n
    requires q < n && q != c.id && q !in done
    requires r.nodes[q] == Node(value, ImageOpt(done, n, a), ImageSeq(done, n, kids))
    requires a == Some(c.id) ==> c.id !in kids
    ensures r2.nodes[q] == Node(value, ImageOpt(done + [c.id], n, a), ImageSeq(done + [c.id], n, kids))
  {
    var x := c.id;
    TargetFacts(r, x, pre, post);
    if x in kids {
      ImagedChild(r, q, done, n, kids, x);
    }
    if q in c.children {
      ListedByParent(r, x, q);
      assert a == Some(x);
      ImageStepChild(done, n, x, value, kids, r.nodes[q], r2.nodes[q]);
    } else {
      ImageStep(done, n, x, value, a, kids, pre, post, r.nodes[q], r2.nodes[q], q == r.nodes[x].parent.value);
    }
  }

  /** The matches replaced so far, and the one replaced now, stay unlinked
      and childless. */
  lemma NextMatch(d: Doc, ids: seq<NodeId>, local: string, rank: seq<nat>, k: nat, r: Doc,
                  pre: seq<NodeId>, post: seq<NodeId>, r2: Doc, i: nat)
    requires AtStep(d, ids, local, rank, k, r, pre, post)
    requires OneReplaced(r, Captures(d, ids)[k], local, pre, post, r2) && i <= k
    ensures r2.nodes[ids[i]] == Node(d.nodes[ids[i]].value, None, [])
  {
    var x := ids[k];
    var c := Captures(d, ids)[k];
    StepFacts(d, ids, local, rank, k, r, pre, post);
    if i < k {
      var y := ids[i];
      assert y != x;
      assert r.nodes[y] == Node(d.nodes[y].value, None, []);
      if y in c.children {
        ListedByParent(r, x, y);
      }
      assert y != r.nodes[x].parent.value by {
        assert x in r.nodes[r.nodes[x].parent.value].children;
      }
    }
  }

  /** The new node made now holds the renamed element under the image of
      the match's parent, with the match's children. */
  lemma NewNodeNow(r: Doc, c: Capture, local: string, pre: seq<NodeId>, post: seq<NodeId>, r2: Doc,
                   done: seq<NodeId>, n: nat, a: Option<NodeId>, kids: seq<NodeId>)
    requires Target(r, c.id, pre, post) && OneReplaced(r, c, local, pre, post, r2)
    requires |r.nodes| == n + |done| && c.id !in done
    requires c.children == kids && c.id !in kids && ImageSeq(done, n, kids) == kids
    requires a.Some? && a.value != c.id && r.nodes[c.id].parent == ImageOpt(done, n, a)
    ensures r2.nodes[n + |done|] ==
      Node(Renamed(c.element, local), ImageOpt(done + [c.id], n, a), ImageSeq(done + [c.id], n, kids))
  {
    ImageOptSame(done, n, c.id, a);
    ImageSeqSame(done, n, c.id, kids);
  }

  /** The new nodes, the one made now and those made earlier, hold their
      renamed elements and the images of their matches' links. */
  lemma NextNew(d: Doc, ids: seq<NodeId>, local: string, k: nat, r: Doc,
                c: Capture, pre: seq<NodeId>, post: seq<NodeId>, r2: Doc, done: seq<NodeId>)
    requires k < |ids| && done == ids[..k] && (forall j :: 0 <= j < |ids| ==> ids[j] < |d.nodes|)
    requires Target(r, c.id, pre, post) && OneReplaced(r, c, local, pre, post, r2)
    requires c == Capture(ids[k], d.nodes[ids[k]].value, d.nodes[ids[k]].children)
    requires c.children == r.nodes[c.id].children && c.id !in c.children
    requires forall z :: z in c.children ==> z < |d.nodes|
    requires |r.nodes| == |d.nodes| + k && c.id !in done
    requires ImageSeq(done, |d.nodes|, c.children) == c.children
    requires d.nodes[c.id].parent.Some? && d.nodes[c.id].parent.value != c.id
    requires r.nodes[c.id].parent == ImageOpt(done, |d.nodes|, d.nodes[c.id].parent)
    requires forall i :: 0 <= i < k ==> d.nodes[ids[i]].parent != Some(c.id)
    requires Replaced(d, ids, local, k, r)
    ensures forall i :: 0 <= i < k + 1 ==>
      r2.nodes[|d.nodes| + i] ==
        Node(Renamed(d.nodes[ids[i]].value, local),
             ImageOpt(done + [c.id], |d.nodes|, d.nodes[ids[i]].parent),
             ImageSeq(done + [c.id], |d.nodes|, d.nodes[ids[i]].children))
  {
    var n := |d.nodes|;
    forall i | 0 <= i < k
      ensures r2.nodes[n + i] ==
        Node(Renamed(d.nodes[ids[i]].value, local),
             ImageOpt(done + [c.id], n, d.nodes[ids[i]].parent),
             ImageSeq(done + [c.id], n, d.nodes[ids[i]].children))
    {
      var y := ids[i];
      ReplacedNewNode(d, ids, local, k, r, i);
      NewNodeEarlier(r, c, local, pre, post, r2, done, n, i, Renamed(d.nodes[y].value, local),
                     d.nodes[y].parent, d.nodes[y].children);
    }
    NewNodeNow(r, c, local, pre, post, r2, done, n, d.nodes[c.id].parent, c.children);
  }

  /** The nodes that are not matches keep their values and get the images
      of their links. */
  lemma NextOther(d: Doc, ids: seq<NodeId>, local: string, rank: seq<nat>, k: nat, r: Doc,
                  pre: seq<NodeId>, post: seq<NodeId>, r2: Doc, q: NodeId)
    requires AtStep(d, ids, local, rank, k, r, pre, post)
    requires OneReplaced(r, Captures(d, ids)[k], local, pre, post, r2)
    requires q < |d.nodes| && q !in ids[..k + 1]
    ensures r2.nodes[q] ==
      Node(d.nodes[q].value, ImageOpt(ids[..k + 1], |d.nodes|, d.nodes[q].parent),
           ImageSeq(ids[..k + 1], |d.nodes|, d.nodes[q].children))
  {
    var n := |d.nodes|;
    var x := ids[k];
    var done := ids[..k];
    var c := Captures(d, ids)[k];
    StepFacts(d, ids, local, rank, k, r, pre, post);
    assert q !in done && q != x;
    if d.nodes[q].parent == Some(x) {
      ParentNotChild(d, rank, q, x);
    }
    OldNodeNext(r, c, local, pre, post, r2, done, n, q, d.nodes[q].value, d.nodes[q].parent, d.nodes[q].children);
  }

  /** The new nodes after one more iteration, in the setting of `AtStep`. */
  lemma NextNewNodes(d: Doc, ids: seq<NodeId>, local: string, rank: seq<nat>, k: nat, r: Doc,
                     pre: seq<NodeId>, post: seq<NodeId>, r2: Doc)
    requires AtStep(d, ids, local, rank, k, r, pre, post)
    requires OneReplaced(r, Captures(d, ids)[k], local, pre, post, r2)
    ensures forall i :: 0 <= i < k + 1 ==>
      r2.nodes[|d.nodes| + i] ==
        Node(Renamed(d.nodes[ids[i]].value, local),
             ImageOpt(ids[..k + 1], |d.nodes|, d.nodes[ids[i]].parent),
             ImageSeq(ids[..k + 1], |d.nodes|, d.nodes[ids[i]].children))
  {
    var n := |d.nodes|;
    StepFacts(d, ids, local, rank, k, r, pre, post);
    ChildrenInRange(d, ids[k]);
    NextNew(d, ids, local, k, r, Captures(d, ids)[k], pre, post, r2, ids[..k]);
  }

  /** One more iteration keeps the description of the tree, now with one
      more match replaced. */
  lemma ReplaceNext(d: Doc, ids: seq<NodeId>, local: string, rank: seq<nat>, k: nat, r: Doc,
                    pre: seq<NodeId>, post: seq<NodeId>, r2: Doc)
    requires AtStep(d, ids, local, rank, k, r, pre, post)
    requires OneReplaced(r, Captures(d, ids)[k], local, pre, post, r2)
    ensures Replaced(d, ids, local, k + 1, r2)
  {
    var n := |d.nodes|;
    var done := ids[..k + 1];
    forall i | 0 <= i < k + 1
      ensures r2.nodes[ids[i]] == Node(d.nodes[ids[i]].value, None, [])
    {
      NextMatch(d, ids, local, rank, k, r, pre, post, r2, i);
    }
    NextNewNodes(d, ids, local, rank, k, r, pre, post, r2);
    forall q | 0 <= q < n && q !in done
      ensures r2.nodes[q] == Node(d.nodes[q].value, ImageOpt(done, n, d.nodes[q].parent), ImageSeq(done, n, d.nodes[q].children))
    {
      NextOther(d, ids, local, rank, k, r, pre, post, r2, q);
    }
  }

  /** With no match replaced every node is its own image. */
  lemma ImageNone(base: nat, s: seq<NodeId>)
    ensures ImageSeq([], base, s) == s
  {
    assert forall j :: 0 <= j < |s| ==> ImageSeq([], base, s)[j] == s[j];
  }

  /** Before the loop the tree is described with no match replaced. */
  lemma ReplaceStart(d: Doc, ids: seq<NodeId>, local: string, rank: seq<nat>)
    requires Selection(d, ids, rank)
    ensures Replaced(d, ids, local, 0, d)
  {
    assert ids[..0] == [];
    forall q | 0 <= q < |d.nodes|
      ensures d.nodes[q] == Node(d.nodes[q].value, ImageOpt([], |d.nodes|, d.nodes[q].parent),
                                 ImageSeq([], |d.nodes|, d.nodes[q].children))
    {
      ImageNone(|d.nodes|, d.nodes[q].children);
    }
  }

  /** The rest of the loop, from the k-th capture on, never panics and
      ends with every match replaced. */
  lemma {:induction false} ReplaceTail(d: Doc, ids: seq<NodeId>, local: string, rank: seq<nat>, k: nat, r: Doc)
    requires Selection(d, ids, rank) && k <= |ids| && Replaced(d, ids, local, k, r) && Consistent(r)
    ensures Replaceable(r, Captures(d, ids)[k..], local)
    ensures Consistent(ReplaceAll(r, Captures(d, ids)[k..], local))
    ensures Replaced(d, ids, local, |ids|, ReplaceAll(r, Captures(d, ids)[k..], local))
    decreases |ids| - k
  {
    var cs := Captures(d, ids);
    if k == |ids| {
      assert cs[k..] == [];
    } else {
      var pre, post := StepTarget(d, ids, local, rank, k, r);
      StepFacts(d, ids, local, rank, k, r, pre, post);
      ReplaceOneStep(r, cs[k], local, pre, post);
      var r2 := ReplaceOne(r, cs[k], local);
      ReplaceNext(d, ids, local, rank, k, r, pre, post, r2);
      ReplaceTail(d, ids, local, rank, k + 1, r2);
      assert cs[k..][0] == cs[k] && cs[k..][1..] == cs[k + 1..];
    }
  }

  /** `apply` on the matches `select` returns: the loop never panics; each
      match ends unlinked and childless; the i-th new node, numbered from
      the old size in match order, holds the match's element renamed, under
      the image of the match's parent and over the images of its children;
      every other node keeps its value, and its parent and children are
      replaced by their images. */
  lemma ReplaceAllShape(d: Doc, ids: seq<NodeId>, local: string, rank: seq<nat>)
    requires Selection(d, ids, rank)
    ensures Replaceable(d, Captures(d, ids), local)
    ensures var r := ReplaceAll(d, Captures(d, ids), local);
            var n := |d.nodes|;
            && |r.nodes| == n + |ids| && Consistent(r)
            && (forall i :: 0 <= i < |ids| ==> r.nodes[ids[i]] == Node(d.nodes[ids[i]].value, None, []))
            && (forall i :: 0 <= i < |ids| ==>
                  r.nodes[n + i] == Node(Renamed(d.nodes[ids[i]].value, local),
                                         ImageOpt(ids, n, d.nodes[ids[i]].parent),
                                         ImageSeq(ids, n, d.nodes[ids[i]].children)))
            && (forall q :: 0 <= q < n && q !in ids ==>
                  r.nodes[q] == Node(d.nodes[q].value, ImageOpt(ids, n, d.nodes[q].parent),
                                     ImageSeq(ids, n, d.nodes[q].children)))
  {
    ReplaceStart(d, ids, local, rank);
    ReplaceTail(d, ids, local, rank, 0, d);
    assert Captures(d, ids)[0..] == Captures(d, ids);
    assert ids[..|ids|] == ids;
  }

  /** A list naming no match is its own image. */
  lemma ImageSeqOutside(ids: seq<NodeId>, base: nat, s: seq<NodeId>)
    requires forall z :: z in s ==> z !in ids
    ensures ImageSeq(ids, base, s) == s
  {
    forall j | 0 <= j < |s|
      ensures ImageSeq(ids, base, s)[j] == s[j]
    {
      assert s[j] in s;
    }
  }

  /** A match none of whose children is a match: its new node holds the
      captured element renamed and exactly the captured children, and
      stands under its old parent, or under that parent's new node when
      the parent was a match too. */
  lemma ReplaceAllCapture(d: Doc, ids: seq<NodeId>, local: string, rank: seq<nat>, i: nat)
    requires Selection(d, ids, rank) && i < |ids|
    requires forall z :: z in d.nodes[ids[i]].children ==> z !in ids
    ensures Replaceable(d, Captures(d, ids), local)
    ensures var c := Captures(d, ids)[i];
            var p := d.nodes[ids[i]].parent.value;
            ReplaceAll(d, Captures(d, ids), local).nodes[|d.nodes| + i] ==
              Node(Renamed(c.element, local), Some(Image(ids, |d.nodes|, p)), c.children)
  {
    ReplaceAllShape(d, ids, local, rank);
    ImageSeqOutside(ids, |d.nodes|, d.nodes[ids[i]].children);
  }
}
