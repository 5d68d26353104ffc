/** The `css_flatten` editor: every matched element is replaced by its own
    children. The code moves each child next to the wrapper with
    `insert_id_after` on the wrapper and then detaches the wrapper. */
module CssFlatten {
  import opened Wrappers
  import opened Dom
  import Sorting

  /** `insert_id_after` needs the wrapper to have a parent and refuses to
      place a node beside itself (ego_tree panics otherwise). */
  predicate CanMove(d: Doc, w: NodeId, cs: seq<NodeId>) {
    w < |d.nodes| && d.nodes[w].parent.Some? && d.nodes[w].parent.value < |d.nodes|
    && forall i :: 0 <= i < |cs| ==> cs[i] < |d.nodes| && cs[i] != w
  }

  /** `insert_id_after(c)` on the wrapper for each `c` in turn. */
  function InsertEach(d: Doc, w: NodeId, cs: seq<NodeId>): (r: Doc)
    requires LinksInRange(d) && CanMove(d, w, cs)
    ensures LinksInRange(r) && |r.nodes| == |d.nodes|
    ensures r.nodes[w].parent == d.nodes[w].parent
    decreases |cs|
  {
    if cs == [] then d
    else
      var prev := InsertEach(d, w, cs[..|cs| - 1]);
      SiblingAfterKeepsLinksInRange(prev, w, cs[|cs| - 1]);
      WithSiblingAfter(prev, w, cs[|cs| - 1])
  }

  /** Flattening `w` does not panic: it is missing, has no children, or can
      take its children beside it. */
  predicate StepOk(d: Doc, w: NodeId) {
    w >= |d.nodes| || d.nodes[w].children == [] || CanMove(d, w, d.nodes[w].children)
  }

  /** One iteration of the loop in `apply`: the children of `w` (none when
      `w` is missing) go beside it, then `w` is detached. */
  function FlattenOne(d: Doc, w: NodeId): (r: Doc)
    requires LinksInRange(d) && StepOk(d, w)
    ensures LinksInRange(r) && |r.nodes| == |d.nodes|
  {
    if w >= |d.nodes| then d
    else
      var moved := if d.nodes[w].children == [] then d else InsertEach(d, w, d.nodes[w].children);
      DetachedKeepsLinksInRange(moved, w);
      Detached(moved, w)
  }

  /** The whole loop runs without a panic. */
  predicate Flattenable(d: Doc, ids: seq<NodeId>)
    requires LinksInRange(d)
    decreases |ids|
  {
    ids == [] || (StepOk(d, ids[0]) && Flattenable(FlattenOne(d, ids[0]), ids[1..]))
  }

  function FlattenAll(d: Doc, ids: seq<NodeId>): (r: Doc)
    requires LinksInRange(d) && Flattenable(d, ids)
    ensures LinksInRange(r) && |r.nodes| == |d.nodes|
    decreases |ids|
  {
    if ids == [] then d else FlattenAll(FlattenOne(d, ids[0]), ids[1..])
  }

  /** `apply`: the loop over the matches on a mutable tree, then serialize. */
  method Apply(d: Doc, matches: seq<NodeId>) returns (html: string)
    requires LinksInRange(d) && Flattenable(d, matches)
    ensures html == Html(FlattenAll(d, matches))
    ensures matches == [] ==> html == Html(d)
  {
    var tree := new Tree(d);
    for i := 0 to |matches|
      invariant tree.Valid()
      invariant Flattenable(tree.Value(), matches[i..])
      invariant FlattenAll(d, matches) == FlattenAll(tree.Value(), matches[i..])
    {
      assert matches[i..][1..] == matches[i + 1..];
      FlattenStep(tree, matches[i]);
    }
    html := Html(tree.Value());
  }

  /** The body of the loop in `apply` for one match `w`. */
  method FlattenStep(tree: Tree, w: NodeId)
    requires tree.Valid() && StepOk(tree.Value(), w)
    modifies tree
    ensures tree.Valid()
    ensures tree.Value() == FlattenOne(old(tree.Value()), w)
  {
    if w < |tree.nodes| {
      var children := tree.nodes[w].children;
      ghost var before := tree.Value();
      for k := 0 to |children|
        invariant tree.Valid()
        invariant children == [] ==> tree.Value() == before
        invariant children != [] ==> tree.Value() == InsertEach(before, w, children[..k])
      {
        assert children[..k + 1][..k] == children[..k];
        tree.InsertIdAfter(w, children[k]);
      }
      assert children != [] ==> children[..|children|] == children;
      tree.Detach(w);
    }
  }

  // ---------------------------------------------------- what a move does

  /** `insert_id_after(c)` on `a`, where `c` is the first child of `w` and
      `a` is a child of `p`: `c` leaves `w` and follows `a` under `p`. */
  lemma MoveStep(r: Doc, a: NodeId, c: NodeId, w: NodeId, p: NodeId,
                 rest: seq<NodeId>, before: seq<NodeId>, after: seq<NodeId>)
    requires LinksInRange(r) && CanInsertAfter(r, a, c)
    requires r.nodes[a].parent == Some(p) && w < |r.nodes| && w != p && c != p
    requires r.nodes[c].parent == Some(w)
    requires r.nodes[w].children == [c] + rest && c !in rest
    requires r.nodes[p].children == before + [a] + after && a !in before
    ensures WithSiblingAfter(r, a, c).nodes[p].children == before + [a, c] + after
    ensures WithSiblingAfter(r, a, c).nodes[w].children == rest
    ensures WithSiblingAfter(r, a, c).nodes[c].parent == Some(p)
    ensures forall q :: 0 <= q < |r.nodes| && q != p && q != w && q != c ==>
      WithSiblingAfter(r, a, c).nodes[q] == r.nodes[q]
  {
    var d1 := Detached(r, c);
    DetachedShape(r, c, p);
    DetachedShape(r, c, w);
    WithoutAbsent(rest, c);
    PlaceAfterSplit(before, a, after, c);
    forall q | 0 <= q < |r.nodes| && q != p && q != w && q != c
      ensures WithSiblingAfter(r, a, c).nodes[q] == r.nodes[q]
    {
      DetachedShape(r, c, q);
    }
  }

  /** The wrapper's own setting, shared by both flattening orders. */
  predicate Wrapper(d: Doc, w: NodeId, pre: seq<NodeId>, post: seq<NodeId>) {
    Consistent(d) && w < |d.nodes| && d.nodes[w].parent.Some?
    && d.nodes[w].parent.value != w
    && d.nodes[w].parent.value !in d.nodes[w].children
    && w !in d.nodes[w].children
    && d.nodes[d.nodes[w].parent.value].children == pre + [w] + post
  }

  lemma WrapperFacts(d: Doc, w: NodeId, pre: seq<NodeId>, post: seq<NodeId>)
    requires Wrapper(d, w, pre, post)
    ensures CanMove(d, w, d.nodes[w].children)
    ensures w !in pre && w !in post
    ensures NoDuplicates(d.nodes[w].children)
    ensures forall c :: c in d.nodes[w].children ==> c !in pre && c !in post
  {
    var p := d.nodes[w].parent.value;
    var cs := d.nodes[w].children;
    assert NoDuplicates(d.nodes[p].children);
    NoDuplicatesAround(pre, w, post);
    forall c | c in cs
      ensures c !in pre && c !in post
    {
      ListedByParent(d, w, c);
      if c in pre + [w] + post {
        ListedByParent(d, p, c);
      }
    }
    forall i | 0 <= i < |cs|
      ensures cs[i] < |d.nodes| && cs[i] != w
    {
      assert cs[i] in cs;
    }
  }

  lemma NoDuplicatesAround(pre: seq<NodeId>, w: NodeId, post: seq<NodeId>)
    requires NoDuplicates(pre + [w] + post)
    ensures w !in pre && w !in post
  {
    var s := pre + [w] + post;
    assert s[|pre|] == w;
    forall i | 0 <= i < |pre|
      ensures pre[i] != w
    {
      assert s[i] == pre[i];
    }
    forall i | 0 <= i < |post|
      ensures post[i] != w
    {
      assert s[|pre| + 1 + i] == post[i];
    }
  }

  /** The state after the first `k` moves: the moved children stand right
      after the wrapper as `placed`, the others are still below it, and no
      other node has changed. */
  predicate Moved(d: Doc, w: NodeId, pre: seq<NodeId>, post: seq<NodeId>, k: nat, placed: seq<NodeId>, r: Doc)
    requires Wrapper(d, w, pre, post) && k <= |d.nodes[w].children|
  {
    var p := d.nodes[w].parent.value;
    var cs := d.nodes[w].children;
    |r.nodes| == |d.nodes| && LinksInRange(r)
    && r.nodes[w].parent == Some(p)
    && r.nodes[p].children == pre + [w] + placed + post
    && r.nodes[w].children == cs[k..]
    && (forall j :: k <= j < |cs| ==> r.nodes[cs[j]].parent == Some(w))
    && (forall j :: 0 <= j < k ==> r.nodes[cs[j]].parent == Some(p))
    && (forall q :: 0 <= q < |d.nodes| && q != p && q != w && q !in cs ==> r.nodes[q] == d.nodes[q])
  }

  /** The code as written: the moved children stand in reverse order. */
  predicate MovedReversed(d: Doc, w: NodeId, pre: seq<NodeId>, post: seq<NodeId>, k: nat, r: Doc)
    requires Wrapper(d, w, pre, post) && k <= |d.nodes[w].children|
  {
    Moved(d, w, pre, post, k, Sorting.Reverse(d.nodes[w].children[..k]), r)
  }

  lemma NothingMoved(d: Doc, w: NodeId, pre: seq<NodeId>, post: seq<NodeId>)
    requires Wrapper(d, w, pre, post)
    ensures Moved(d, w, pre, post, 0, [], d)
  {
    var cs := d.nodes[w].children;
    assert pre + [w] + [] + post == pre + [w] + post;
    assert cs[0..] == cs;
    forall j | 0 <= j < |cs|
      ensures d.nodes[cs[j]].parent == Some(w)
    {
      ListedByParent(d, w, cs[j]);
    }
  }

  /** `insert_id_after(cs[k])` on the wrapper itself: the child leaves the
      wrapper and stands right after it. */
  lemma MoveAfterWrapper(d: Doc, w: NodeId, pre: seq<NodeId>, post: seq<NodeId>, k: nat, placed: seq<NodeId>, r: Doc)
    requires Wrapper(d, w, pre, post) && k < |d.nodes[w].children|
    requires Moved(d, w, pre, post, k, placed, r)
    ensures CanInsertAfter(r, w, d.nodes[w].children[k])
    ensures var r2 := WithSiblingAfter(r, w, d.nodes[w].children[k]);
      var p := d.nodes[w].parent.value;
      var cs := d.nodes[w].children;
      |r2.nodes| == |r.nodes| && LinksInRange(r2)
      && r2.nodes[w].parent == r.nodes[w].parent
      && r2.nodes[p].children == pre + [w, cs[k]] + placed + post
      && r2.nodes[w].children == cs[k + 1..]
      && r2.nodes[cs[k]].parent == Some(p)
      && forall q :: 0 <= q < |r.nodes| && q != p && q != w && q != cs[k] ==> r2.nodes[q] == r.nodes[q]
  {
    var p := d.nodes[w].parent.value;
    var cs := d.nodes[w].children;
    var c := cs[k];
    WrapperFacts(d, w, pre, post);
    assert c in cs;
    assert cs[k..] == [c] + cs[k + 1..];
    assert c !in cs[k + 1..];
    assert pre + [w] + placed + post == pre + [w] + (placed + post);
    MoveStep(r, w, c, w, p, cs[k + 1..], pre, placed + post);
    SiblingAfterKeepsLinksInRange(r, w, c);
    assert pre + [w, c] + (placed + post) == pre + [w, c] + placed + post;
    assert c != w;
  }

  /** The `Moved` bookkeeping after the k-th child has moved. */
  lemma MovedOneMore(d: Doc, w: NodeId, pre: seq<NodeId>, post: seq<NodeId>, k: nat,
                     placed: seq<NodeId>, placed2: seq<NodeId>, r: Doc, r2: Doc)
    requires Wrapper(d, w, pre, post) && k < |d.nodes[w].children|
    requires Moved(d, w, pre, post, k, placed, r)
    requires |r2.nodes| == |r.nodes| && LinksInRange(r2)
    requires r2.nodes[w].parent == r.nodes[w].parent
    requires r2.nodes[d.nodes[w].parent.value].children == pre + [w] + placed2 + post
    requires r2.nodes[w].children == d.nodes[w].children[k + 1..]
    requires r2.nodes[d.nodes[w].children[k]].parent == d.nodes[w].parent
    requires forall q :: 0 <= q < |r.nodes| && q != d.nodes[w].parent.value && q != w && q != d.nodes[w].children[k] ==>
      r2.nodes[q] == r.nodes[q]
    ensures Moved(d, w, pre, post, k + 1, placed2, r2)
  {
    var p := d.nodes[w].parent.value;
    var cs := d.nodes[w].children;
    WrapperFacts(d, w, pre, post);
    forall j | k + 1 <= j < |cs|
      ensures r2.nodes[cs[j]].parent == Some(w)
    {
      assert cs[j] in cs && cs[j] != cs[k];
    }
    forall j | 0 <= j < k + 1
      ensures r2.nodes[cs[j]].parent == Some(p)
    {
      assert cs[j] in cs;
      if j < k {
        assert cs[j] != cs[k];
      }
    }
  }

  lemma MoveNextReversed(d: Doc, w: NodeId, pre: seq<NodeId>, post: seq<NodeId>, k: nat, r: Doc)
    requires Wrapper(d, w, pre, post) && k < |d.nodes[w].children|
    requires MovedReversed(d, w, pre, post, k, r)
    ensures CanInsertAfter(r, w, d.nodes[w].children[k])
    ensures MovedReversed(d, w, pre, post, k + 1, WithSiblingAfter(r, w, d.nodes[w].children[k]))
  {
    var cs := d.nodes[w].children;
    var c := cs[k];
    var rev := Sorting.Reverse(cs[..k]);
    MoveAfterWrapper(d, w, pre, post, k, rev, r);
    ReversedPrefixSplits(pre, w, cs, k, post);
    MovedOneMore(d, w, pre, post, k, rev, Sorting.Reverse(cs[..k + 1]), r, WithSiblingAfter(r, w, c));
  }

  /** Moving the next child right after the wrapper puts it first in the
      reversed prefix. */
  lemma ReversedPrefixSplits(pre: seq<NodeId>, w: NodeId, cs: seq<NodeId>, k: nat, post: seq<NodeId>)
    requires k < |cs|
    ensures pre + [w, cs[k]] + Sorting.Reverse(cs[..k]) + post == pre + [w] + Sorting.Reverse(cs[..k + 1]) + post
  {
    assert cs[..k + 1][..k] == cs[..k];
    assert Sorting.Reverse(cs[..k + 1]) == [cs[k]] + Sorting.Reverse(cs[..k]);
  }

  /** The code as written, move by move. */
  lemma {:induction false} InsertEachReverses(d: Doc, w: NodeId, pre: seq<NodeId>, post: seq<NodeId>, k: nat)
    requires Wrapper(d, w, pre, post)
    requires k <= |d.nodes[w].children|
    ensures CanMove(d, w, d.nodes[w].children[..k])
    ensures MovedReversed(d, w, pre, post, k, InsertEach(d, w, d.nodes[w].children[..k]))
  {
    var cs := d.nodes[w].children;
    WrapperFacts(d, w, pre, post);
    if k == 0 {
      assert cs[..0] == [];
      NothingMoved(d, w, pre, post);
    } else {
      InsertEachReverses(d, w, pre, post, k - 1);
      InsertEachSnoc(d, w, cs, k);
      MoveNextReversed(d, w, pre, post, k - 1, InsertEach(d, w, cs[..k - 1]));
    }
  }

  /** The first k moves are the first k - 1 followed by one more. */
  lemma InsertEachSnoc(d: Doc, w: NodeId, cs: seq<NodeId>, k: nat)
    requires LinksInRange(d) && CanMove(d, w, cs) && 0 < k <= |cs|
    ensures CanMove(d, w, cs[..k]) && CanMove(d, w, cs[..k - 1])
    ensures InsertEach(d, w, cs[..k]) == WithSiblingAfter(InsertEach(d, w, cs[..k - 1]), w, cs[k - 1])
  {
    assert cs[..k][..k - 1] == cs[..k - 1];
    assert cs[..k][k - 1] == cs[k - 1];
  }

  lemma WithoutAround(pre: seq<NodeId>, w: NodeId, mid: seq<NodeId>, post: seq<NodeId>)
    requires w !in pre && w !in mid && w !in post
    ensures Without(pre + [w] + mid + post, w) == pre + mid + post
  {
    assert pre + [w] + mid + post == pre + [w] + (mid + post);
    WithoutOnce(pre, w, mid + post);
  }

  /** Flattening a wrapper as written: its parent's child list gets the
      wrapper's children in REVERSE order in the wrapper's place, each of
      them now a child of that parent, and the wrapper is unlinked. */
  lemma FlattenOneReverses(d: Doc, w: NodeId, pre: seq<NodeId>, post: seq<NodeId>)
    requires Wrapper(d, w, pre, post)
    ensures StepOk(d, w)
    ensures FlattenOne(d, w).nodes[d.nodes[w].parent.value].children
            == pre + Sorting.Reverse(d.nodes[w].children) + post
    ensures FlattenOne(d, w).nodes[w].parent == None
    ensures forall c :: c in d.nodes[w].children ==>
              FlattenOne(d, w).nodes[c].parent == d.nodes[w].parent
    ensures forall q :: 0 <= q < |d.nodes| && q != w && q != d.nodes[w].parent.value && q !in d.nodes[w].children
              ==> FlattenOne(d, w).nodes[q] == d.nodes[q]
  {
    var p := d.nodes[w].parent.value;
    var cs := d.nodes[w].children;
    WrapperFacts(d, w, pre, post);
    InsertEachReverses(d, w, pre, post, |cs|);
    assert cs[..|cs|] == cs;
    var moved := InsertEach(d, w, cs);
    assert FlattenOne(d, w) == Detached(moved, w);
    DetachedShape(moved, w, p);
    Sorting.ReverseMembers(cs);
    WithoutAround(pre, w, Sorting.Reverse(cs), post);
    forall c | c in cs
      ensures FlattenOne(d, w).nodes[c].parent == d.nodes[w].parent
    {
      var j :| 0 <= j < |cs| && cs[j] == c;
      DetachedShape(moved, w, c);
    }
    forall q | 0 <= q < |d.nodes| && q != w && q != p && q !in cs
      ensures FlattenOne(d, w).nodes[q] == d.nodes[q]
    {
      DetachedShape(moved, w, q);
    }
  }

  /** The input that shows it: a wrapper with two children `x`, `y` leaves
      them as `y`, `x`. */
  lemma FlattenSwapsTwoChildren(d: Doc, w: NodeId, pre: seq<NodeId>, post: seq<NodeId>, x: NodeId, y: NodeId)
    requires Wrapper(d, w, pre, post) && d.nodes[w].children == [x, y]
    ensures StepOk(d, w)
    ensures FlattenOne(d, w).nodes[d.nodes[w].parent.value].children == pre + [y, x] + post
    ensures FlattenOne(d, w).nodes[d.nodes[w].parent.value].children != pre + [x, y] + post
  {
    FlattenOneReverses(d, w, pre, post);
    assert Sorting.Reverse([x, y]) == [y, x];
    assert x != y by {
      assert NoDuplicates(d.nodes[w].children);
    }
    assert (pre + [y, x] + post)[|pre|] == y;
  }

  // ------------------------------------------- the order-keeping variant

  /** Each child after the one moved just before it (the first after the
      wrapper); needs neighbours to differ, as children of one node do. */
  predicate CanMoveInOrder(d: Doc, w: NodeId, cs: seq<NodeId>) {
    CanMove(d, w, cs) && forall i :: 0 < i < |cs| ==> cs[i - 1] != cs[i]
  }

  function InsertInOrder(d: Doc, w: NodeId, cs: seq<NodeId>): (r: Doc)
    requires LinksInRange(d) && CanMoveInOrder(d, w, cs)
    ensures LinksInRange(r) && |r.nodes| == |d.nodes|
    ensures r.nodes[w].parent == d.nodes[w].parent
    ensures cs != [] ==> r.nodes[cs[|cs| - 1]].parent == d.nodes[w].parent
    decreases |cs|
  {
    if cs == [] then d
    else
      var prev := InsertInOrder(d, w, cs[..|cs| - 1]);
      var anchor := if |cs| == 1 then w else cs[|cs| - 2];
      SiblingAfterKeepsLinksInRange(prev, anchor, cs[|cs| - 1]);
      WithSiblingAfter(prev, anchor, cs[|cs| - 1])
  }

  predicate StepOkInOrder(d: Doc, w: NodeId) {
    w >= |d.nodes| || d.nodes[w].children == [] || CanMoveInOrder(d, w, d.nodes[w].children)
  }

  /** Flattening one wrapper so that its children keep their order. */
  function FlattenOneInOrder(d: Doc, w: NodeId): (r: Doc)
    requires LinksInRange(d) && StepOkInOrder(d, w)
    ensures LinksInRange(r) && |r.nodes| == |d.nodes|
  {
    if w >= |d.nodes| then d
    else
      var moved := if d.nodes[w].children == [] then d else InsertInOrder(d, w, d.nodes[w].children);
      DetachedKeepsLinksInRange(moved, w);
      Detached(moved, w)
  }

  /** The intended order: the moved children stand in their own order. */
  predicate MovedInOrder(d: Doc, w: NodeId, pre: seq<NodeId>, post: seq<NodeId>, k: nat, r: Doc)
    requires Wrapper(d, w, pre, post) && k <= |d.nodes[w].children|
  {
    Moved(d, w, pre, post, k, d.nodes[w].children[..k], r)
  }

  lemma MoveNextInOrder(d: Doc, w: NodeId, pre: seq<NodeId>, post: seq<NodeId>, k: nat, r: Doc)
    requires Wrapper(d, w, pre, post) && k < |d.nodes[w].children|
    requires MovedInOrder(d, w, pre, post, k, r)
    ensures var cs := d.nodes[w].children;
            var anchor := if k == 0 then w else cs[k - 1];
            CanInsertAfter(r, anchor, cs[k])
            && MovedInOrder(d, w, pre, post, k + 1, WithSiblingAfter(r, anchor, cs[k]))
  {
    if k == 0 {
      MoveFirstInOrder(d, w, pre, post, r);
    } else {
      MoveLaterInOrder(d, w, pre, post, k, r);
    }
  }

  /** Moving the first child after the wrapper itself. */
  lemma MoveFirstInOrder(d: Doc, w: NodeId, pre: seq<NodeId>, post: seq<NodeId>, r: Doc)
    requires Wrapper(d, w, pre, post) && 0 < |d.nodes[w].children|
    requires MovedInOrder(d, w, pre, post, 0, r)
    ensures CanInsertAfter(r, w, d.nodes[w].children[0])
    ensures MovedInOrder(d, w, pre, post, 1, WithSiblingAfter(r, w, d.nodes[w].children[0]))
  {
    var cs := d.nodes[w].children;
    var c := cs[0];
    MoveAfterWrapper(d, w, pre, post, 0, cs[..0], r);
    FirstPrefixSplits(pre, w, cs, post);
    MovedOneMore(d, w, pre, post, 0, cs[..0], cs[..1], r, WithSiblingAfter(r, w, c));
  }

  lemma FirstPrefixSplits(pre: seq<NodeId>, w: NodeId, cs: seq<NodeId>, post: seq<NodeId>)
    requires 0 < |cs|
    ensures pre + [w, cs[0]] + cs[..0] + post == pre + [w] + cs[..1] + post
  {
    assert cs[..0] == [] && cs[..1] == [cs[0]];
  }

  /** Moving a later child after the one moved before it. */
  lemma MoveLaterInOrder(d: Doc, w: NodeId, pre: seq<NodeId>, post: seq<NodeId>, k: nat, r: Doc)
    requires Wrapper(d, w, pre, post) && 0 < k < |d.nodes[w].children|
    requires MovedInOrder(d, w, pre, post, k, r)
    ensures CanInsertAfter(r, d.nodes[w].children[k - 1], d.nodes[w].children[k])
    ensures MovedInOrder(d, w, pre, post, k + 1,
              WithSiblingAfter(r, d.nodes[w].children[k - 1], d.nodes[w].children[k]))
  {
    var cs := d.nodes[w].children;
    MoveAfterPrevious(d, w, pre, post, k, r);
    MovedOneMore(d, w, pre, post, k, cs[..k], cs[..k + 1], r, WithSiblingAfter(r, cs[k - 1], cs[k]));
  }

  /** `insert_id_after(cs[k])` on the child moved just before it. */
  lemma MoveAfterPrevious(d: Doc, w: NodeId, pre: seq<NodeId>, post: seq<NodeId>, k: nat, r: Doc)
    requires Wrapper(d, w, pre, post) && 0 < k < |d.nodes[w].children|
    requires MovedInOrder(d, w, pre, post, k, r)
    ensures CanInsertAfter(r, d.nodes[w].children[k - 1], d.nodes[w].children[k])
    ensures var cs := d.nodes[w].children;
      var p := d.nodes[w].parent.value;
      var r2 := WithSiblingAfter(r, cs[k - 1], cs[k]);
      |r2.nodes| == |r.nodes| && LinksInRange(r2)
      && r2.nodes[w].parent == r.nodes[w].parent
      && r2.nodes[p].children == pre + [w] + cs[..k + 1] + post
      && r2.nodes[w].children == cs[k + 1..]
      && r2.nodes[cs[k]].parent == Some(p)
      && forall q :: 0 <= q < |r.nodes| && q != p && q != w && q != cs[k] ==> r2.nodes[q] == r.nodes[q]
  {
    var p := d.nodes[w].parent.value;
    var cs := d.nodes[w].children;
    var c := cs[k];
    var a := cs[k - 1];
    WrapperFacts(d, w, pre, post);
    assert c in cs && a in cs;
    assert cs[k..] == [c] + cs[k + 1..];
    assert c !in cs[k + 1..];
    var before := pre + [w] + cs[..k - 1];
    PrefixSplits(pre + [w], cs, k, post);
    assert a !in cs[..k - 1];
    assert a !in before;
    MoveStep(r, a, c, w, p, cs[k + 1..], before, post);
    SiblingAfterKeepsLinksInRange(r, a, c);
    assert c != w;
  }

  /** The two ways of cutting the moved prefix around its last two children. */
  lemma PrefixSplits(head: seq<NodeId>, cs: seq<NodeId>, k: nat, post: seq<NodeId>)
    requires 0 < k < |cs|
    ensures head + cs[..k] + post == head + cs[..k - 1] + [cs[k - 1]] + post
    ensures head + cs[..k - 1] + [cs[k - 1], cs[k]] + post == head + cs[..k + 1] + post
  {
    assert cs[..k] == cs[..k - 1] + [cs[k - 1]];
    assert cs[..k + 1] == cs[..k - 1] + [cs[k - 1], cs[k]];
  }

  lemma NothingMovedYet(d: Doc, w: NodeId, pre: seq<NodeId>, post: seq<NodeId>)
    requires Wrapper(d, w, pre, post)
    ensures MovedInOrder(d, w, pre, post, 0, d)
  {
    assert d.nodes[w].children[..0] == [];
    NothingMoved(d, w, pre, post);
  }

  lemma {:induction false} InsertInOrderShape(d: Doc, w: NodeId, pre: seq<NodeId>, post: seq<NodeId>, k: nat)
    requires Wrapper(d, w, pre, post)
    requires k <= |d.nodes[w].children|
    ensures CanMoveInOrder(d, w, d.nodes[w].children[..k])
    ensures MovedInOrder(d, w, pre, post, k, InsertInOrder(d, w, d.nodes[w].children[..k]))
  {
    var cs := d.nodes[w].children;
    WrapperFacts(d, w, pre, post);
    if k == 0 {
      assert cs[..0] == [];
      NothingMovedYet(d, w, pre, post);
    } else {
      InsertInOrderShape(d, w, pre, post, k - 1);
      InsertInOrderStep(d, w, pre, post, k);
    }
  }

  lemma InsertInOrderStep(d: Doc, w: NodeId, pre: seq<NodeId>, post: seq<NodeId>, k: nat)
    requires Wrapper(d, w, pre, post)
    requires 0 < k <= |d.nodes[w].children|
    requires CanMoveInOrder(d, w, d.nodes[w].children[..k - 1])
    requires MovedInOrder(d, w, pre, post, k - 1, InsertInOrder(d, w, d.nodes[w].children[..k - 1]))
    ensures CanMoveInOrder(d, w, d.nodes[w].children[..k])
    ensures MovedInOrder(d, w, pre, post, k, InsertInOrder(d, w, d.nodes[w].children[..k]))
  {
    var cs := d.nodes[w].children;
    var prev := InsertInOrder(d, w, cs[..k - 1]);
    var anchor := if k == 1 then w else cs[k - 2];
    MoveNextInOrder(d, w, pre, post, k - 1, prev);
    var next := WithSiblingAfter(prev, anchor, cs[k - 1]);
    assert MovedInOrder(d, w, pre, post, k, next);
    PrefixCanMoveInOrder(d, w, pre, post, k);
    InsertInOrderPrefix(d, w, cs, k);
    assert InsertInOrder(d, w, cs[..k]) == next;
  }

  lemma PrefixCanMoveInOrder(d: Doc, w: NodeId, pre: seq<NodeId>, post: seq<NodeId>, k: nat)
    requires Wrapper(d, w, pre, post)
    requires k <= |d.nodes[w].children|
    ensures CanMoveInOrder(d, w, d.nodes[w].children[..k])
  {
    var cs := d.nodes[w].children;
    WrapperFacts(d, w, pre, post);
    forall i | 0 < i < k
      ensures cs[..k][i - 1] != cs[..k][i]
    {
      assert cs[i - 1] != cs[i];
    }
    forall i | 0 <= i < k
      ensures cs[..k][i] < |d.nodes| && cs[..k][i] != w
    {
      assert cs[i] in cs;
    }
  }

  /** The first `k` moves are the first `k - 1` and one more. */
  lemma InsertInOrderPrefix(d: Doc, w: NodeId, cs: seq<NodeId>, k: nat)
    requires LinksInRange(d) && 0 < k <= |cs| && CanMoveInOrder(d, w, cs[..k])
    ensures CanMoveInOrder(d, w, cs[..k - 1])
    ensures var anchor := if k == 1 then w else cs[k - 2];
      var prev := InsertInOrder(d, w, cs[..k - 1]);
      CanInsertAfter(prev, anchor, cs[k - 1])
      && InsertInOrder(d, w, cs[..k]) == WithSiblingAfter(prev, anchor, cs[k - 1])
  {
    var prefix := cs[..k];
    assert prefix[..k - 1] == cs[..k - 1];
    assert prefix[k - 1] == cs[k - 1];
    assert k >= 2 ==> prefix[k - 2] == cs[k - 2];
  }

  /** The intended result: the wrapper's children take its place in their
      own order, each now a child of the wrapper's parent. */
  lemma FlattenOneKeepsOrder(d: Doc, w: NodeId, pre: seq<NodeId>, post: seq<NodeId>)
    requires Wrapper(d, w, pre, post)
    ensures StepOkInOrder(d, w)
    ensures FlattenOneInOrder(d, w).nodes[d.nodes[w].parent.value].children
            == pre + d.nodes[w].children + post
    ensures FlattenOneInOrder(d, w).nodes[w].parent == None
    ensures forall c :: c in d.nodes[w].children ==>
              FlattenOneInOrder(d, w).nodes[c].parent == d.nodes[w].parent
    ensures forall q :: 0 <= q < |d.nodes| && q != w && q != d.nodes[w].parent.value && q !in d.nodes[w].children
              ==> FlattenOneInOrder(d, w).nodes[q] == d.nodes[q]
  {
    var p := d.nodes[w].parent.value;
    var cs := d.nodes[w].children;
    WrapperFacts(d, w, pre, post);
    InsertInOrderShape(d, w, pre, post, |cs|);
    assert cs[..|cs|] == cs;
    var moved := InsertInOrder(d, w, cs);
    assert FlattenOneInOrder(d, w) == Detached(moved, w);
    DetachedShape(moved, w, p);
    WithoutAround(pre, w, cs, post);
    forall c | c in cs
      ensures FlattenOneInOrder(d, w).nodes[c].parent == d.nodes[w].parent
    {
      var j :| 0 <= j < |cs| && cs[j] == c;
      DetachedShape(moved, w, c);
    }
    forall q | 0 <= q < |d.nodes| && q != w && q != p && q !in cs
      ensures FlattenOneInOrder(d, w).nodes[q] == d.nodes[q]
    {
      DetachedShape(moved, w, q);
    }
  }

  // ------------------------------------------------ several matches

  /** After the moves, a moved child has the wrapper's parent; no other
      node's parent changes, and no value changes. */
  lemma {:induction false} InsertEachNode(d: Doc, w: NodeId, cs: seq<NodeId>, q: NodeId)
    requires LinksInRange(d) && CanMove(d, w, cs) && q < |d.nodes|
    ensures InsertEach(d, w, cs).nodes[q].value == d.nodes[q].value
    ensures InsertEach(d, w, cs).nodes[q].parent == if q in cs then d.nodes[w].parent else d.nodes[q].parent
    decreases |cs|
  {
    if cs != [] {
      var init := cs[..|cs| - 1];
      var c := cs[|cs| - 1];
      InsertEachNode(d, w, init, q);
      InInitOrLast(cs, q);
      assert InsertEach(d, w, cs) == WithSiblingAfter(InsertEach(d, w, init), w, c);
    }
  }

  lemma InInitOrLast(cs: seq<NodeId>, q: NodeId)
    requires cs != []
    ensures (q in cs) == (q in cs[..|cs| - 1] || q == cs[|cs| - 1])
  {
    assert cs == cs[..|cs| - 1] + [cs[|cs| - 1]];
  }

  /** Moving distinct children of the wrapper changes no child list but the
      wrapper's and its parent's. */
  lemma {:induction false} InsertEachChildren(d: Doc, w: NodeId, cs: seq<NodeId>, q: NodeId)
    requires Consistent(d) && CanMove(d, w, cs) && NoDuplicates(cs)
    requires forall c :: c in cs ==> d.nodes[c].parent == Some(w)
    requires q < |d.nodes| && q != w && q != d.nodes[w].parent.value
    ensures InsertEach(d, w, cs).nodes[q].children == d.nodes[q].children
    decreases |cs|
  {
    if cs != [] {
      var init := cs[..|cs| - 1];
      var c := cs[|cs| - 1];
      assert c !in init by {
        assert forall i :: 0 <= i < |init| ==> init[i] == cs[i];
      }
      InsertEachChildren(d, w, init, q);
      InsertEachNode(d, w, init, c);
      SiblingAfterChildren(InsertEach(d, w, init), w, c, q);
    }
  }

  lemma {:induction false} InsertEachKeepsConsistent(d: Doc, w: NodeId, cs: seq<NodeId>)
    requires Consistent(d) && CanMove(d, w, cs)
    ensures Consistent(InsertEach(d, w, cs))
    decreases |cs|
  {
    if cs != [] {
      var init := cs[..|cs| - 1];
      InsertEachKeepsConsistent(d, w, init);
      SiblingAfterKeepsConsistent(InsertEach(d, w, init), w, cs[|cs| - 1]);
    }
  }

  /** One flattening step on any tree: the wrapper loses its parent, its
      children take the wrapper's parent, no other node's parent changes,
      and no value changes. */
  lemma FlattenOneNode(d: Doc, w: NodeId, q: NodeId)
    requires LinksInRange(d) && StepOk(d, w) && w < |d.nodes| && q < |d.nodes|
    ensures FlattenOne(d, w).nodes[q].value == d.nodes[q].value
    ensures FlattenOne(d, w).nodes[q].parent ==
      if q == w then None
      else if q in d.nodes[w].children then d.nodes[w].parent
      else d.nodes[q].parent
  {
    var cs := d.nodes[w].children;
    var moved := if cs == [] then d else InsertEach(d, w, cs);
    if cs != [] {
      InsertEachNode(d, w, cs, q);
    }
    if moved.nodes[w].parent.Some? {
      DetachedShape(moved, w, q);
    }
  }

  /** In a consistent tree one flattening step changes no child list but
      the wrapper's and its parent's. */
  lemma FlattenOneChildren(d: Doc, w: NodeId, q: NodeId)
    requires Consistent(d) && StepOk(d, w) && w < |d.nodes| && d.nodes[w].parent.Some?
    requires q < |d.nodes| && q != w && q != d.nodes[w].parent.value
    ensures FlattenOne(d, w).nodes[q].children == d.nodes[q].children
  {
    var cs := d.nodes[w].children;
    var moved := if cs == [] then d else InsertEach(d, w, cs);
    if cs != [] {
      forall c | c in cs
        ensures d.nodes[c].parent == Some(w)
      {
        ListedByParent(d, w, c);
      }
      InsertEachChildren(d, w, cs, q);
    }
    DetachedShape(moved, w, q);
  }

  lemma FlattenOneKeepsConsistent(d: Doc, w: NodeId)
    requires Consistent(d) && StepOk(d, w)
    ensures Consistent(FlattenOne(d, w))
  {
    if w < |d.nodes| {
      var cs := d.nodes[w].children;
      var moved := if cs == [] then d else InsertEach(d, w, cs);
      if cs != [] {
        InsertEachKeepsConsistent(d, w, cs);
      }
      DetachedKeepsConsistent(moved, w);
    }
  }

  /** The children move up past their wrapper, so a depth witness of the
      tree before is one of the tree after. */
  lemma FlattenOneKeepsRanked(d: Doc, w: NodeId, rank: seq<nat>)
    requires Consistent(d) && StepOk(d, w) && Ranked(d, rank)
    ensures Ranked(FlattenOne(d, w), rank)
  {
    var r := FlattenOne(d, w);
    forall x | 0 <= x < |r.nodes| && r.nodes[x].parent.Some? && r.nodes[x].parent.value < |r.nodes|
      ensures rank[r.nodes[x].parent.value] < rank[x]
    {
      if w < |d.nodes| {
        FlattenOneNode(d, w, x);
        if x != w && x in d.nodes[w].children {
          ListedByParent(d, w, x);
        }
      }
    }
  }

  /** Every match is a node of the tree with a parent, as every element
      `select` yields from a parsed document is. */
  predicate Parented(d: Doc, ids: seq<NodeId>) {
    forall i :: 0 <= i < |ids| ==> ids[i] < |d.nodes| && d.nodes[ids[i]].parent.Some?
  }

  /** A node with a parent in a ranked consistent tree can be flattened. */
  lemma StepOkWhenParented(d: Doc, w: NodeId, rank: seq<nat>)
    requires Consistent(d) && Ranked(d, rank) && w < |d.nodes| && d.nodes[w].parent.Some?
    ensures StepOk(d, w)
  {
    var cs := d.nodes[w].children;
    forall i | 0 <= i < |cs|
      ensures cs[i] < |d.nodes| && cs[i] != w
    {
      ListedByParent(d, w, cs[i]);
    }
  }

  /** Flattening the first match: the tree stays consistent and ranked, and
      the other matches keep a parent. */
  lemma FirstStep(d: Doc, ids: seq<NodeId>, rank: seq<nat>)
    requires Consistent(d) && Ranked(d, rank) && NoDuplicates(ids) && Parented(d, ids) && ids != []
    ensures StepOk(d, ids[0])
    ensures Consistent(FlattenOne(d, ids[0])) && Ranked(FlattenOne(d, ids[0]), rank)
    ensures NoDuplicates(ids[1..]) && Parented(FlattenOne(d, ids[0]), ids[1..])
  {
    var w := ids[0];
    var rest := ids[1..];
    StepOkWhenParented(d, w, rank);
    var d2 := FlattenOne(d, w);
    FlattenOneKeepsConsistent(d, w);
    FlattenOneKeepsRanked(d, w, rank);
    forall i | 0 <= i < |rest|
      ensures rest[i] < |d2.nodes| && d2.nodes[rest[i]].parent.Some?
    {
      assert rest[i] == ids[i + 1] && ids[0] != ids[i + 1];
      FlattenOneNode(d, w, rest[i]);
    }
  }

  /** In a tree whose matches each have a parent the loop never panics. */
  lemma {:induction false} FlattenableWhenParented(d: Doc, ids: seq<NodeId>, rank: seq<nat>)
    requires Consistent(d) && Ranked(d, rank) && NoDuplicates(ids) && Parented(d, ids)
    ensures Flattenable(d, ids)
    decreases |ids|
  {
    if ids != [] {
      FirstStep(d, ids, rank);
      FlattenableWhenParented(FlattenOne(d, ids[0]), ids[1..], rank);
    }
  }

  /** The nearest node at or above `a` that is not a match: a match's
      children end up there once every match has been flattened. */
  function Nearest(d: Doc, rank: seq<nat>, ids: seq<NodeId>, a: Option<NodeId>): (r: Option<NodeId>)
    requires Ranked(d, rank)
    ensures r.Some? && r.value < |d.nodes| ==> r.value !in ids
    ensures a.None? ==> r.None?
    decreases if a.Some? && a.value < |rank| then rank[a.value] + 1 else 0
  {
    if a.None? || a.value >= |d.nodes| || a.value !in ids then a
    else Nearest(d, rank, ids, d.nodes[a.value].parent)
  }

  /** Flattening the first match leaves the nearest unmatched ancestor of
      every other place unchanged. */
  lemma {:induction false} NearestAfterStep(d: Doc, rank: seq<nat>, ids: seq<NodeId>, a: Option<NodeId>)
    requires Consistent(d) && Ranked(d, rank) && ids != [] && NoDuplicates(ids)
    requires ids[0] < |d.nodes| && StepOk(d, ids[0]) && Ranked(FlattenOne(d, ids[0]), rank)
    requires a != Some(ids[0])
    ensures Nearest(FlattenOne(d, ids[0]), rank, ids[1..], a) == Nearest(d, rank, ids, a)
    decreases if a.Some? && a.value < |rank| then rank[a.value] + 1 else 0
  {
    var w := ids[0];
    if a.Some? && a.value < |d.nodes| {
      var x := a.value;
      if x in ids {
        var d2 := FlattenOne(d, w);
        var up := ParentAfterStep(d, w, x);
        InRest(ids, x);
        FlattenOneNode(d, w, x);
        assert Nearest(d2, rank, ids[1..], a) == Nearest(d2, rank, ids[1..], up);
        assert Nearest(d, rank, ids, a) == Nearest(d, rank, ids, up) by {
          if x in d.nodes[w].children {
            ListedByParent(d, w, x);
          }
        }
        NearestAfterStep(d, rank, ids, up);
      } else {
        assert x !in ids[1..];
      }
    }
  }

  /** Where the chain of parents goes on from `x` once `w` is flattened;
      never back to `w`. */
  function ParentAfterStep(d: Doc, w: NodeId, x: NodeId): (r: Option<NodeId>)
    requires Consistent(d) && w < |d.nodes| && x < |d.nodes| && x != w
    requires forall c :: c in d.nodes[w].children ==> c != w
    ensures d.nodes[w].parent != Some(w) ==> r != Some(w)
  {
    if x in d.nodes[w].children then d.nodes[w].parent else d.nodes[x].parent
  }

  lemma InRest(ids: seq<NodeId>, x: NodeId)
    requires ids != [] && x in ids && x != ids[0]
    ensures x in ids[1..]
  {
    var i :| 0 <= i < |ids| && ids[i] == x;
    assert ids[1..][i - 1] == x;
  }

  /** A node that is not a match looks up to the same place before and
      after the first match is flattened. */
  lemma NearestOfNode(d: Doc, ids: seq<NodeId>, rank: seq<nat>, q: NodeId)
    requires Consistent(d) && Ranked(d, rank) && NoDuplicates(ids) && Parented(d, ids) && ids != []
    requires q < |d.nodes| && q !in ids
    ensures StepOk(d, ids[0]) && Ranked(FlattenOne(d, ids[0]), rank)
    ensures var d2 := FlattenOne(d, ids[0]);
      Nearest(d2, rank, ids[1..], d2.nodes[q].parent) == Nearest(d, rank, ids, d.nodes[q].parent)
  {
    var w := ids[0];
    FirstStep(d, ids, rank);
    var up := ParentAfterStep(d, w, q);
    FlattenOneNode(d, w, q);
    assert Nearest(d, rank, ids, d.nodes[q].parent) == Nearest(d, rank, ids, up) by {
      if q in d.nodes[w].children {
        ListedByParent(d, w, q);
      }
    }
    NearestAfterStep(d, rank, ids, up);
  }

  /** Flattening distinct matches that each have a parent, in any order:
      the loop never panics, the tree stays consistent, every value is
      kept, every match ends without a parent, and every other node ends
      under the nearest of its ancestors that is not a match. */
  lemma {:induction false} FlattenAllParents(d: Doc, ids: seq<NodeId>, rank: seq<nat>)
    requires Consistent(d) && Ranked(d, rank) && NoDuplicates(ids) && Parented(d, ids)
    ensures Flattenable(d, ids)
    ensures Consistent(FlattenAll(d, ids))
    ensures forall q :: 0 <= q < |d.nodes| ==>
      FlattenAll(d, ids).nodes[q].value == d.nodes[q].value
      && FlattenAll(d, ids).nodes[q].parent == if q in ids then None else Nearest(d, rank, ids, d.nodes[q].parent)
    decreases |ids|
  {
    FlattenableWhenParented(d, ids, rank);
    if ids != [] {
      var w := ids[0];
      var rest := ids[1..];
      FirstStep(d, ids, rank);
      var d2 := FlattenOne(d, w);
      FlattenAllParents(d2, rest, rank);
      forall q | 0 <= q < |d.nodes|
        ensures FlattenAll(d, ids).nodes[q].value == d.nodes[q].value
        ensures FlattenAll(d, ids).nodes[q].parent == if q in ids then None else Nearest(d, rank, ids, d.nodes[q].parent)
      {
        FlattenOneNode(d, w, q);
        if q !in ids {
          NearestOfNode(d, ids, rank, q);
        } else if q == w {
          assert w !in rest;
        } else {
          InRest(ids, q);
        }
      }
    }
  }

  /** Every match ends with neither parent nor children: nothing of the
      wrapper is left in the tree. */
  lemma FlattenAllUnlinksMatches(d: Doc, ids: seq<NodeId>, rank: seq<nat>)
    requires Consistent(d) && Ranked(d, rank) && NoDuplicates(ids) && Parented(d, ids)
    ensures Flattenable(d, ids)
    ensures forall q :: 0 <= q < |d.nodes| && q in ids ==>
      FlattenAll(d, ids).nodes[q].parent == None && FlattenAll(d, ids).nodes[q].children == []
  {
    FlattenAllParents(d, ids, rank);
    var r := FlattenAll(d, ids);
    forall q | 0 <= q < |d.nodes| && q in ids
      ensures r.nodes[q].children == []
    {
      forall c | 0 <= c < |r.nodes|
        ensures r.nodes[c].parent != Some(q)
      {
      }
      NoChildWithoutParentLink(r, q);
    }
  }

  /** A match whose only child is another match, flattened in document
      order: the inner match's children take the outer match's place
      (`<div class="a"><p>A</p></div>` with both `.a` and `p` selected
      leaves just `A`). */
  lemma FlattenNested(d: Doc, outer: NodeId, inner: NodeId, pre: seq<NodeId>, post: seq<NodeId>, rank: seq<nat>)
    requires Wrapper(d, outer, pre, post) && d.nodes[outer].children == [inner] && Ranked(d, rank)
    ensures Flattenable(d, [outer, inner])
    ensures var r := FlattenAll(d, [outer, inner]);
            var p := d.nodes[outer].parent.value;
            && r.nodes[p].children == pre + Sorting.Reverse(d.nodes[inner].children) + post
            && r.nodes[outer].parent == None && r.nodes[inner].parent == None
            && forall c :: c in d.nodes[inner].children ==> r.nodes[c].parent == Some(p)
  {
    var p := d.nodes[outer].parent.value;
    FlattenOneReverses(d, outer, pre, post);
    var d1 := FlattenOne(d, outer);
    assert Sorting.Reverse([inner]) == [inner];
    assert inner in d.nodes[outer].children;
    FlattenOneKeepsConsistent(d, outer);
    FlattenOneChildren(d, outer, inner);
    assert p !in d.nodes[inner].children by {
      if p in d.nodes[inner].children {
        ListedByParent(d, outer, inner);
        ListedByParent(d, inner, p);
      }
    }
    assert inner !in d.nodes[inner].children && outer !in d.nodes[inner].children by {
      ListedByParent(d, outer, inner);
      if inner in d.nodes[inner].children {
        ListedByParent(d, inner, inner);
      }
      if outer in d.nodes[inner].children {
        ListedByParent(d, inner, outer);
      }
    }
    assert Wrapper(d1, inner, pre, post);
    FlattenOneReverses(d1, inner, pre, post);
    var d2 := FlattenOne(d1, inner);
    assert [outer, inner][1..] == [inner] && [inner][1..] == [];
    assert Flattenable(d1, [inner]);
    assert FlattenAll(d1, [inner]) == FlattenAll(d2, []) == d2;
    assert FlattenAll(d, [outer, inner]) == d2;
  }
}
