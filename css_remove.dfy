/** The `css_remove` editor: every node the selector matched is detached from
    the parsed tree, and the remaining document is serialized again. */
module CssRemove {
  import opened Wrappers
  import opened Dom

  /** The tree after `detach` of each id in turn; an id that is not in the
      tree is skipped (`get_mut` gives `None`). */
  function RemoveAll(d: Doc, ids: seq<NodeId>): (r: Doc)
    ensures |r.nodes| == |d.nodes|
    decreases |ids|
  {
    if ids == [] then d else RemoveAll(Detached(d, ids[0]), ids[1..])
  }

  /** `s` without the members of `gone`, order kept. */
  function Drop(s: seq<NodeId>, gone: set<NodeId>): (r: seq<NodeId>)
    ensures forall y :: y in r <==> y in s && y !in gone
    ensures |r| <= |s|
  {
    if s == [] then []
    else if s[0] in gone then Drop(s[1..], gone)
    else [s[0]] + Drop(s[1..], gone)
  }

  /** The ids of `s`, as a set. */
  function Members(s: seq<NodeId>): (r: set<NodeId>)
    ensures forall y :: y in r <==> y in s
  {
    if s == [] then {} else {s[0]} + Members(s[1..])
  }

  /** The closed form of the removal: each node of `gone` is unlinked from its
      parent, keeps its own subtree, and nothing else changes. */
  function Pruned(d: Doc, gone: set<NodeId>): (r: Doc)
    ensures |r.nodes| == |d.nodes|
  {
    Doc(seq(|d.nodes|, i requires 0 <= i < |d.nodes| =>
      Node(d.nodes[i].value,
           if i in gone then None else d.nodes[i].parent,
           Drop(d.nodes[i].children, gone))))
  }

  /** `apply`: detach every match in a mutable tree, then serialize. */
  method Apply(d: Doc, matches: seq<NodeId>) returns (html: string)
    requires LinksInRange(d)
    ensures html == Html(RemoveAll(d, matches))
    ensures matches == [] ==> html == Html(d)
  {
    var tree := new Tree(d);
    var i := 0;
    while i < |matches|
      invariant 0 <= i <= |matches|
      invariant tree.Valid()
      invariant RemoveAll(d, matches) == RemoveAll(tree.Value(), matches[i..])
    {
      assert matches[i..][1..] == matches[i + 1..];
      tree.Detach(matches[i]);
      i := i + 1;
    }
    html := Html(tree.Value());
  }

  // ------------------------------------------------------------ proofs

  lemma {:induction false} DropWithout(s: seq<NodeId>, x: NodeId, gone: set<NodeId>)
    ensures Drop(Without(s, x), gone) == Drop(s, gone + {x})
  {
    if s != [] {
      DropWithout(s[1..], x, gone);
    }
  }

  lemma {:induction false} DropAbsent(s: seq<NodeId>, x: NodeId, gone: set<NodeId>)
    requires x !in s
    ensures Drop(s, gone + {x}) == Drop(s, gone)
  {
    if s != [] {
      DropAbsent(s[1..], x, gone);
    }
  }

  lemma {:induction false} DropNothing(s: seq<NodeId>)
    ensures Drop(s, {}) == s
  {
    if s != [] {
      DropNothing(s[1..]);
    }
  }

  /** Detaching one more node is the closed form with one more node gone. */
  lemma PrunedDetached(d: Doc, x: NodeId, gone: set<NodeId>)
    requires Consistent(d)
    ensures Pruned(Detached(d, x), gone) == Pruned(d, gone + {x})
  {
    var a := Pruned(Detached(d, x), gone);
    var b := Pruned(d, gone + {x});
    forall q | 0 <= q < |d.nodes|
      ensures a.nodes[q] == b.nodes[q]
    {
      PrunedDetachedAt(d, x, gone, q);
    }
  }

  lemma PrunedDetachedAt(d: Doc, x: NodeId, gone: set<NodeId>, q: NodeId)
    requires Consistent(d) && q < |d.nodes|
    ensures Pruned(Detached(d, x), gone).nodes[q] == Pruned(d, gone + {x}).nodes[q]
  {
    if x < |d.nodes| && d.nodes[x].parent.Some? {
      DetachedShape(d, x, q);
      if q == d.nodes[x].parent.value {
        DropWithout(d.nodes[q].children, x, gone);
      } else {
        if x in d.nodes[q].children {
          ListedByParent(d, q, x);
        }
        DropAbsent(d.nodes[q].children, x, gone);
      }
    } else {
      if x in d.nodes[q].children {
        ListedByParent(d, q, x);
      }
      DropAbsent(d.nodes[q].children, x, gone);
    }
  }

  lemma PrunedNothing(d: Doc)
    ensures Pruned(d, {}) == d
  {
    forall q | 0 <= q < |d.nodes|
      ensures Pruned(d, {}).nodes[q] == d.nodes[q]
    {
      DropNothing(d.nodes[q].children);
    }
  }

  /** Removing the matches one by one gives the closed form. */
  lemma {:induction false} RemoveAllIsPruned(d: Doc, ids: seq<NodeId>)
    requires Consistent(d)
    ensures RemoveAll(d, ids) == Pruned(d, Members(ids))
    decreases |ids|
  {
    if ids == [] {
      PrunedNothing(d);
    } else {
      var rest := ids[1..];
      DetachedKeepsConsistent(d, ids[0]);
      RemoveAllIsPruned(Detached(d, ids[0]), rest);
      PrunedDetached(d, ids[0], Members(rest));
      assert Members(rest) + {ids[0]} == Members(ids);
    }
  }

  /** The order of the matches does not matter, so selecting an ancestor and
      its descendant gives one result whichever is detached first. */
  lemma RemoveOrderIrrelevant(d: Doc, a: seq<NodeId>, b: seq<NodeId>)
    requires Consistent(d)
    requires forall x :: x in a <==> x in b
    ensures RemoveAll(d, a) == RemoveAll(d, b)
  {
    RemoveAllIsPruned(d, a);
    RemoveAllIsPruned(d, b);
    assert Members(a) == Members(b);
  }

  /** A removed node is no longer anyone's child and has no parent, while it
      keeps its own subtree below it. */
  lemma RemovedNodeUnlinked(d: Doc, ids: seq<NodeId>, x: NodeId)
    requires Consistent(d) && x in ids && x < |d.nodes|
    ensures RemoveAll(d, ids).nodes[x].parent == None
    ensures forall q :: 0 <= q < |d.nodes| ==> x !in RemoveAll(d, ids).nodes[q].children
    ensures RemoveAll(d, ids).nodes[x].children == Drop(d.nodes[x].children, Members(ids))
  {
    RemoveAllIsPruned(d, ids);
  }

  /** Every node that was not matched keeps its value and its parent, and only
      matched nodes leave its child list: a look-alike elsewhere survives. */
  lemma UnmatchedNodeKept(d: Doc, ids: seq<NodeId>, y: NodeId)
    requires Consistent(d) && y !in ids && y < |d.nodes|
    ensures RemoveAll(d, ids).nodes[y].value == d.nodes[y].value
    ensures RemoveAll(d, ids).nodes[y].parent == d.nodes[y].parent
    ensures forall c :: c in RemoveAll(d, ids).nodes[y].children <==> c in d.nodes[y].children && c !in ids
  {
    RemoveAllIsPruned(d, ids);
  }
}
