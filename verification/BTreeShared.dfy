/** After a split of an inner node both halves hold the middle child. In the right half it sits in slot 0, in front of a
    separator that equals the lower bound of the node, and no later operation brings it back to life. */
module BTreeShared {
  import opened Basics
  import opened EntriesHelper
  import opened BTreePages
  import opened BTreeIndex
  import opened BTreeSteps

  /** The first separator of a node with a lower bound is that bound: nothing is left for slot 0. */
  ghost predicate StartsAtBound(t: Index, p: PageId)
    requires p in t.info
  {
    IsInner(t, p) && |t.pages[p].node.entries| > 1 &&
    (t.info[p].lo.Some? ==> t.pages[p].node.entries[1].key == t.info[p].lo)
  }

  ghost predicate NodesStartAtBound(t: Index) {
    forall p {:trigger StartsAtBound(t, p)} :: p in t.info && t.info[p].level > 0 ==> StartsAtBound(t, p)
  }

  /** A separator from a split below never gets in front of the first one of a node with a lower bound. */
  lemma ParentStarts(t: Index, parent: PageId, id: PageId, s: int, newId: PageId, grown: InnerNode)
    requires Consistent(t) && NodesStartAtBound(t) && ParentReady(t, parent, id) && StrictlyIn(s, t.info[id])
    requires var n := t.pages[parent].node;
             n.keyCount + 1 < |n.entries| && Sorted(n.entries, 1, n.keyCount + 1)
             && n.InsertDefiniteFit(s, id, newId) == Success(grown)
    ensures |grown.entries| == |t.pages[parent].node.entries|
    ensures parent in t.info && t.info[parent].lo.Some? ==> grown.entries[1].key == t.info[parent].lo
  {
    var n := t.pages[parent].node;
    hide Consistent, NodesStartAtBound;
    if parent in t.info && t.info[parent].lo.Some? {
      FirstSeparator(t, parent, id);
      var i: nat;
      i :| IsChild(n, t.info[parent], i, id, t.info[id]);
      hide ParentReady;
      FirstStays(n, i, s, id, newId, grown);
    }
  }

  lemma FirstSeparator(t: Index, parent: PageId, id: PageId)
    requires Consistent(t) && NodesStartAtBound(t) && ParentReady(t, parent, id)
    requires parent in t.info && t.info[parent].lo.Some?
    ensures t.info[parent].level > 0 && t.pages[parent].node.keyCount < |t.pages[parent].node.entries|
    ensures t.pages[parent].node.keyCount >= 1 && t.pages[parent].node.entries[1].key == t.info[parent].lo
  {
    assert PageOk(t, parent) && StartsAtBound(t, parent);
  }

  lemma FirstStays(n: InnerNode, i: nat, s: int, left: PageId, right: PageId, grown: InnerNode)
    requires 1 <= i <= n.keyCount < |n.entries| - 1 && Sorted(n.entries, 1, n.keyCount + 1)
    requires n.entries[i].key.value < s && n.InsertDefiniteFit(s, left, right) == Success(grown)
    ensures |grown.entries| == |n.entries| && grown.entries[1].key == n.entries[1].key
  {
    var p := FindInsertPosition(n.entries, s, 1, n.keyCount + 1).value;
    assert n.entries[1].key.value <= n.entries[i].key.value < s;
  }

  lemma RightStarts(n: InnerNode)
    requires 2 <= n.keyCount < |n.entries| && Sorted(n.entries, 1, n.keyCount + 1)
    ensures var (left, s, right) := SplitNode(n);
            left.entries == n.entries && |right.entries| > 1 && right.entries[1].key == Some(s)
  {
  }

  lemma InnerHalvesStart(t: Index, id: PageId, parent: PageId, k: int)
    requires SplitReady(t, id, parent, k) && IsInner(t, id) && t.pages[id].node.keyCount == t.nodeCapacity
    requires NodesStartAtBound(t)
    ensures NodesStartAtBound(InnerHalves(t, id, parent, k).tree)
  {
    hide InnerHalves, SplitReady, Good, SameLeaves, SplitNode, InnerNode.InsertDefiniteFit, Sorted, In, StrictlyIn,
         ParentReady, Consistent;
    SplitReadyParts(t, id, parent, k);
    var t', left, s, right, grown := InnerSplit(t, id, parent, k);
    InnerHalvesAre(t, id, parent, k, t', left, s, right, grown);
    RightStarts(t.pages[id].node);
    ParentStarts(t, parent, id, s, t.lastPageId, grown);
    forall p | p in t'.info && t'.info[p].level > 0 ensures StartsAtBound(t', p) {
      if p in t.info && t.info[p].level > 0 {
        assert StartsAtBound(t, p);
      }
    }
  }

  lemma OuterHalvesStart(t: Index, id: PageId, parent: PageId, k: int)
    requires SplitReady(t, id, parent, k) && IsOuter(t, id) && t.pages[id].leaf.keyCount == t.leafCapacity
    requires NodesStartAtBound(t)
    ensures NodesStartAtBound(OuterHalves(t, id, parent, k).tree)
  {
    hide OuterHalves, SplitReady, Good, SplitOuter, InnerNode.InsertDefiniteFit, Sorted, In, StrictlyIn, ParentReady,
         Consistent, Leaf.PastHit;
    SplitReadyParts(t, id, parent, k);
    KindOfPage(t, id);
    var t', left, s, right, grown := OuterSplit(t, id, parent, k);
    OuterHalvesAre(t, id, parent, k, t', left, s, right, grown);
    ParentStarts(t, parent, id, s, t.lastPageId, grown);
    forall p | p in t'.info && t'.info[p].level > 0 ensures StartsAtBound(t', p) {
      if p in t.info && t.info[p].level > 0 {
        assert StartsAtBound(t, p);
      }
    }
  }

  /** A new page that nothing leads to yet, or an edited leaf, makes no difference. */
  lemma NodesStay(t: Index, t': Index)
    requires NodesStartAtBound(t) && t'.info == t.info
    requires forall p :: p in t.info && t.info[p].level > 0 ==>
      p in t.pages && p in t'.pages && t'.pages[p] == t.pages[p]
    ensures NodesStartAtBound(t')
  {
    forall p | p in t'.info && t'.info[p].level > 0 ensures StartsAtBound(t', p) {
      assert StartsAtBound(t, p);
    }
  }

  lemma GrownStart(t: Index)
    requires Good(t) && NodesStartAtBound(t)
    ensures NodesStartAtBound(Grown(t))
  {
    NodesStay(t, Grown(t));
  }

  lemma NodeSpotStart(t: Index, page: PageId, above: Option<PageId>, key: int)
    requires SpotOk(t, page, above, key) && t.info[page].level > 0 && NodesStartAtBound(t)
    ensures NodesStartAtBound(NodeSpot(t, page, above, key).tree)
  {
    hide Good, SplitReady, In, InnerHalves, NodesStartAtBound;
    PageKind(t, page);
    if t.pages[page].node.keyCount >= t.nodeCapacity {
      if above == None {
        GrownOk(t);
        RootStored(t);
        GrownStart(t);
        InnerHalvesStart(Grown(t), page, Grown(t).root, key);
      } else {
        InnerHalvesStart(t, page, above.value, key);
      }
    }
  }

  lemma LeafSpotStart(t: Index, page: PageId, above: Option<PageId>, key: int)
    requires SpotOk(t, page, above, key) && t.info[page].level == 0 && NodesStartAtBound(t)
    ensures NodesStartAtBound(LeafSpot(t, page, above, key).tree)
  {
    hide Good, SplitReady, In, OuterHalves, NodesStartAtBound;
    PageKind(t, page);
    if t.pages[page].leaf.keyCount >= t.leafCapacity {
      if above == None {
        GrownOk(t);
        RootStored(t);
        GrownStart(t);
        OuterHalvesStart(Grown(t), page, Grown(t).root, key);
      } else {
        OuterHalvesStart(t, page, above.value, key);
      }
    }
  }

  lemma {:induction false} InsertFromStart(t: Index, page: PageId, above: Option<PageId>, key: int, tid: nat)
    requires SpotOk(t, page, above, key) && NodesStartAtBound(t)
    ensures NodesStartAtBound(InsertFrom(t, page, above, key, tid))
    decreases t.info[page].level
  {
    hide Good, SplitReady, In, NodeSpot, LeafSpot, Leaf.InsertDefiniteFit, Sorted, SameLeaves, NodesStartAtBound;
    if t.info[page].level == 0 {
      LeafSpotStart(t, page, above, key);
      LeafSpotOk(t, page, above, key);
      var h := LeafSpot(t, page, above, key);
      InsertStep(h.tree, h.page, key, tid);
      NodesInPages(h.tree);
      NodesStay(h.tree, InsertFrom(t, page, above, key, tid));
    } else {
      NodeSpotStart(t, page, above, key);
      NodeSpotOk(t, page, above, key);
      var h := NodeSpot(t, page, above, key);
      DescendReady(h.tree, h.page, key);
      var n := h.tree.pages[h.page].node;
      InsertFromStart(h.tree, n.entries[ChildSlot(n.entries, key, 1, n.keyCount)].value, Some(h.page), key, tid);
    }
  }

  lemma NodesInPages(t: Index)
    requires Good(t)
    ensures forall p :: p in t.info ==> p in t.pages
  {
  }

  lemma RemovedStart(t: Index, key: int)
    requires Good(t) && NodesStartAtBound(t)
    ensures NodesStartAtBound(Removed(t, key))
  {
    hide Good, LeafPage, NodesStartAtBound;
    NodesInPages(t);
    if key in t.model {
      NodesStay(t, Removed(t, key));
    }
  }

  /** In such a tree slot 0 of a node is alive exactly when the node has no lower bound, and a search in any other node
      never follows it. */
  lemma SharedChildDead(t: Index, p: PageId)
    requires Good(t) && NodesStartAtBound(t) && p in t.info && t.info[p].level > 0
    ensures IsInner(t, p)
    ensures var n := t.pages[p].node;
            && 0 < n.keyCount < |n.entries| && Sorted(n.entries, 1, n.keyCount + 1)
            && (Live(n, t.info[p], 0) <==> t.info[p].lo == None)
            && forall key :: In(key, t.info[p]) && t.info[p].lo.Some? ==> ChildSlot(n.entries, key, 1, n.keyCount) > 0
  {
    assert StartsAtBound(t, p) && PageOk(t, p);
    var n := t.pages[p].node;
    forall key | In(key, t.info[p]) && t.info[p].lo.Some? ensures ChildSlot(n.entries, key, 1, n.keyCount) > 0 {
      ChildForKey(n, t.info[p], t.nodeCapacity, key);
    }
  }
}
