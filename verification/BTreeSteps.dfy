/** What an operation makes of the whole structure, as a function: every split on the way down, and the edit of the
    leaf. */
module BTreeSteps {
  import opened Basics
  import opened EntriesHelper
  import opened BTreePages
  import opened BTreeIndex

  /** A page reached on the way down, below a node that can still take a separator, if it is not the root. */
  datatype Spot = Spot(tree: Index, page: PageId, above: Option<PageId>)

  ghost predicate SpotOk(t: Index, page: PageId, above: Option<PageId>, key: int) {
    && Good(t) && page in t.info && In(key, t.info[page])
    && (above == None ==> page == t.root)
    && (above.Some? ==> SplitReady(t, page, above.value, key))
  }

  ghost function Empty(nodeCapacity: nat, leafCapacity: nat): Index {
    Index(map[0 := Outer(Leaf(0, Unwritten(leafCapacity + 1), None, None))], 0, 0, 0, 1,
          map[0 := Span(0, None, None)], map[], {}, nodeCapacity, leafCapacity)
  }

  lemma EmptyGood(nodeCapacity: nat, leafCapacity: nat)
    requires nodeCapacity >= 2 && leafCapacity >= 2
    ensures Good(Empty(nodeCapacity, leafCapacity))
  {
    assert PageOk(Empty(nodeCapacity, leafCapacity), 0);
  }

  // ----- splits

  /** A new root above the old one. */
  ghost function Grown(t: Index): Index {
    t.(pages := t.pages[t.lastPageId := Inner(InnerNode(0, Unwritten(t.nodeCapacity + 1)))],
       root := t.lastPageId, height := t.height + 1, lastPageId := t.lastPageId + 1)
  }

  lemma RootStored(t: Index)
    requires Good(t)
    ensures t.root in t.pages && t.root < t.lastPageId
  {
    RootAnswersForAll(t, 0);
    PageKind(t, t.root);
  }

  lemma GrownOk(t: Index)
    requires Good(t)
    ensures SameLeaves(t, Grown(t)) && forall key :: SplitReady(Grown(t), t.root, Grown(t).root, key)
  {
    var t' := RootGrows(t);
  }

  lemma InnerSplitFits(t: Index, id: PageId, parent: PageId, k: int)
    requires SplitReady(t, id, parent, k) && IsInner(t, id) && t.pages[id].node.keyCount == t.nodeCapacity
    ensures id in t.info && IsInner(t, parent)
    ensures var n := t.pages[id].node; 2 <= n.keyCount < |n.entries| && Sorted(n.entries, 1, n.keyCount + 1)
    ensures var m := t.pages[parent].node; var s := SplitNode(t.pages[id].node).1;
            && m.keyCount + 1 < |m.entries| && Sorted(m.entries, 1, m.keyCount + 1)
            && m.InsertDefiniteFit(s, id, t.lastPageId).Success?
  {
    hide SplitReady, Good, SameLeaves, SplitNode, InnerNode.InsertDefiniteFit, Sorted, In;
    var t', left, s, right, grown := InnerSplit(t, id, parent, k);
  }

  /** Both halves of a full inner node, and the one that answers for the key. */
  ghost function InnerHalves(t: Index, id: PageId, parent: PageId, k: int): Spot
    requires SplitReady(t, id, parent, k) && IsInner(t, id) && t.pages[id].node.keyCount == t.nodeCapacity
  {
    InnerSplitFits(t, id, parent, k);
    var halves := SplitNode(t.pages[id].node);
    var grown := t.pages[parent].node.InsertDefiniteFit(halves.1, id, t.lastPageId).value;
    Spot(t.(pages := t.pages[id := Inner(halves.0)][parent := Inner(grown)][t.lastPageId := Inner(halves.2)],
            info := SplitInfo(t, id, t.lastPageId, parent, halves.1), lastPageId := t.lastPageId + 1),
         if k < halves.1 then id else t.lastPageId, Some(parent))
  }

  lemma InnerHalvesAre(t: Index, id: PageId, parent: PageId, k: int, t': Index, left: InnerNode, s: int,
                       right: InnerNode, grown: InnerNode)
    requires SplitReady(t, id, parent, k) && IsInner(t, id) && t.pages[id].node.keyCount == t.nodeCapacity
    requires id in t.info && IsInner(t, parent)
    requires var n := t.pages[id].node;
             2 <= n.keyCount < |n.entries| && Sorted(n.entries, 1, n.keyCount + 1) && (left, s, right) == SplitNode(n)
    requires var m := t.pages[parent].node;
             && m.keyCount + 1 < |m.entries| && Sorted(m.entries, 1, m.keyCount + 1)
             && m.InsertDefiniteFit(s, id, t.lastPageId) == Success(grown)
    requires t' == t.(pages := t.pages[id := Inner(left)][parent := Inner(grown)][t.lastPageId := Inner(right)],
                      info := SplitInfo(t, id, t.lastPageId, parent, s), lastPageId := t.lastPageId + 1)
    ensures InnerHalves(t, id, parent, k) == Spot(t', if k < s then id else t.lastPageId, Some(parent))
  {
    hide SplitReady, SplitNode, InnerNode.InsertDefiniteFit, Sorted, SplitInfo;
  }

  lemma InnerHalvesOk(t: Index, id: PageId, parent: PageId, k: int)
    requires SplitReady(t, id, parent, k) && IsInner(t, id) && t.pages[id].node.keyCount == t.nodeCapacity
    ensures var h := InnerHalves(t, id, parent, k);
            && Good(h.tree) && SameLeaves(t, h.tree) && id in t.info
            && h.page in h.tree.info && In(k, h.tree.info[h.page]) && h.tree.info[h.page].level == t.info[id].level
            && IsInner(h.tree, h.page) && h.tree.pages[h.page].node.keyCount < t.nodeCapacity
            && h.tree.leafCapacity == t.leafCapacity
  {
    hide SplitReady, Good, SameLeaves, SplitNode, InnerNode.InsertDefiniteFit, Sorted, In;
    var t', left, s, right, grown := InnerSplit(t, id, parent, k);
    assert t' == InnerHalves(t, id, parent, k).tree;
  }

  lemma OuterSplitFits(t: Index, id: PageId, parent: PageId, k: int)
    requires SplitReady(t, id, parent, k) && IsOuter(t, id) && t.pages[id].leaf.keyCount == t.leafCapacity
    ensures id in t.info && IsInner(t, parent)
    ensures var l := t.pages[id].leaf; 2 <= l.keyCount < |l.entries| && Sorted(l.entries, 0, l.keyCount)
    ensures var m := t.pages[parent].node; var s := SplitOuter(t.pages[id].leaf, id, t.lastPageId).1;
            && m.keyCount + 1 < |m.entries| && Sorted(m.entries, 1, m.keyCount + 1)
            && m.InsertDefiniteFit(s, id, t.lastPageId).Success?
  {
    hide SplitReady, Good, SplitOuter, InnerNode.InsertDefiniteFit, Sorted, In, Leaf.PastHit;
    var t', left, s, right, grown := OuterSplit(t, id, parent, k);
  }

  /** Both halves of a full leaf, and the one that answers for the key. */
  ghost function OuterHalves(t: Index, id: PageId, parent: PageId, k: int): Spot
    requires SplitReady(t, id, parent, k) && IsOuter(t, id) && t.pages[id].leaf.keyCount == t.leafCapacity
  {
    OuterSplitFits(t, id, parent, k);
    var halves := SplitOuter(t.pages[id].leaf, id, t.lastPageId);
    var grown := t.pages[parent].node.InsertDefiniteFit(halves.1, id, t.lastPageId).value;
    Spot(t.(pages := t.pages[id := Outer(halves.0)][parent := Inner(grown)][t.lastPageId := Outer(halves.2)],
            info := SplitInfo(t, id, t.lastPageId, parent, halves.1), lastPageId := t.lastPageId + 1),
         if k < halves.1 then id else t.lastPageId, Some(parent))
  }

  lemma OuterHalvesAre(t: Index, id: PageId, parent: PageId, k: int, t': Index, left: Leaf, s: int, right: Leaf,
                       grown: InnerNode)
    requires SplitReady(t, id, parent, k) && IsOuter(t, id) && t.pages[id].leaf.keyCount == t.leafCapacity
    requires id in t.info && IsInner(t, parent)
    requires var l := t.pages[id].leaf;
             2 <= l.keyCount < |l.entries| && Sorted(l.entries, 0, l.keyCount) &&
               (left, s, right) == SplitOuter(l, id, t.lastPageId)
    requires var m := t.pages[parent].node;
             && m.keyCount + 1 < |m.entries| && Sorted(m.entries, 1, m.keyCount + 1)
             && m.InsertDefiniteFit(s, id, t.lastPageId) == Success(grown)
    requires t' == t.(pages := t.pages[id := Outer(left)][parent := Inner(grown)][t.lastPageId := Outer(right)],
                      info := SplitInfo(t, id, t.lastPageId, parent, s), lastPageId := t.lastPageId + 1)
    ensures OuterHalves(t, id, parent, k) == Spot(t', if k < s then id else t.lastPageId, Some(parent))
  {
    hide SplitReady, SplitOuter, InnerNode.InsertDefiniteFit, Sorted, SplitInfo;
  }

  lemma OuterHalvesOk(t: Index, id: PageId, parent: PageId, k: int)
    requires SplitReady(t, id, parent, k) && IsOuter(t, id) && t.pages[id].leaf.keyCount == t.leafCapacity
    ensures var h := OuterHalves(t, id, parent, k);
            && Good(h.tree) && h.page in h.tree.info && In(k, h.tree.info[h.page]) && h.tree.info[h.page].level == 0
            && IsOuter(h.tree, h.page) && h.tree.pages[h.page].leaf.keyCount < h.tree.leafCapacity
            && h.tree.erased == t.erased && h.tree.leafCapacity == t.leafCapacity
  {
    hide SplitReady, Good, SplitOuter, InnerNode.InsertDefiniteFit, Sorted, In, Leaf.PastHit;
    var t', left, s, right, grown := OuterSplit(t, id, parent, k);
    assert t' == OuterHalves(t, id, parent, k).tree;
  }

  // ----- the way down

  /** An inner node with room for one more separator: the one reached, or the half of it that answers for the key. */
  ghost function NodeSpot(t: Index, page: PageId, above: Option<PageId>, key: int): Spot
    requires SpotOk(t, page, above, key) && t.info[page].level > 0
  {
    PageKind(t, page);
    if t.pages[page].node.keyCount < t.nodeCapacity then Spot(t, page, above)
    else if above == None then
      GrownOk(t);
      InnerHalves(Grown(t), page, Grown(t).root, key)
    else InnerHalves(t, page, above.value, key)
  }

  lemma NodeSpotOk(t: Index, page: PageId, above: Option<PageId>, key: int)
    requires SpotOk(t, page, above, key) && t.info[page].level > 0
    ensures var h := NodeSpot(t, page, above, key);
            && Good(h.tree) && h.page in h.tree.info && h.tree.info[h.page].level == t.info[page].level
            && In(key, h.tree.info[h.page]) && IsInner(h.tree, h.page)
            && h.tree.pages[h.page].node.keyCount < h.tree.nodeCapacity
            && h.tree.erased == t.erased && SameLeaves(t, h.tree) && h.tree.leafCapacity == t.leafCapacity
  {
    PageKind(t, page);
    SameLeavesRefl(t);
    if t.pages[page].node.keyCount >= t.nodeCapacity {
      hide Good, SplitReady, In, InnerHalves;
      if above == None {
        GrownOk(t);
        InnerHalvesOk(Grown(t), page, Grown(t).root, key);
        SameLeavesTrans(t, Grown(t), NodeSpot(t, page, above, key).tree);
      } else {
        InnerHalvesOk(t, page, above.value, key);
      }
    }
  }

  /** A leaf with room, in the same way. */
  ghost function LeafSpot(t: Index, page: PageId, above: Option<PageId>, key: int): Spot
    requires SpotOk(t, page, above, key) && t.info[page].level == 0
  {
    PageKind(t, page);
    if t.pages[page].leaf.keyCount < t.leafCapacity then Spot(t, page, above)
    else if above == None then
      GrownOk(t);
      OuterHalves(Grown(t), page, Grown(t).root, key)
    else OuterHalves(t, page, above.value, key)
  }

  lemma LeafSpotOk(t: Index, page: PageId, above: Option<PageId>, key: int)
    requires SpotOk(t, page, above, key) && t.info[page].level == 0
    ensures var h := LeafSpot(t, page, above, key);
            && Good(h.tree) && h.page in h.tree.info && h.tree.info[h.page].level == 0
            && In(key, h.tree.info[h.page]) && IsOuter(h.tree, h.page)
            && h.tree.pages[h.page].leaf.keyCount < h.tree.leafCapacity
            && h.tree.erased == t.erased
  {
    PageKind(t, page);
    if t.pages[page].leaf.keyCount >= t.leafCapacity {
      hide Good, SplitReady, In, OuterHalves;
      if above == None {
        GrownOk(t);
        OuterHalvesOk(Grown(t), page, Grown(t).root, key);
      } else {
        OuterHalvesOk(t, page, above.value, key);
      }
    }
  }

  /** The insert from a page on. A refused key leaves the splits that were made on the way. */
  ghost function InsertFrom(t: Index, page: PageId, above: Option<PageId>, key: int, tid: nat): Index
    requires SpotOk(t, page, above, key)
    decreases t.info[page].level
  {
    if t.info[page].level == 0 then
      LeafSpotOk(t, page, above, key);
      var h := LeafSpot(t, page, above, key);
      InsertStep(h.tree, h.page, key, tid);
      match h.tree.pages[h.page].leaf.InsertDefiniteFit(key, tid)
      case Failure(_) => h.tree
      case Success(leaf) =>
        h.tree.(pages := h.tree.pages[h.page := Outer(leaf)], treeSize := h.tree.treeSize + 1,
                model := h.tree.model[key := tid])
    else
      NodeSpotOk(t, page, above, key);
      var h := NodeSpot(t, page, above, key);
      DescendReady(h.tree, h.page, key);
      var n := h.tree.pages[h.page].node;
      InsertFrom(h.tree, n.entries[ChildSlot(n.entries, key, 1, n.keyCount)].value, Some(h.page), key, tid)
  }

  lemma {:induction false} InsertFromOk(t: Index, page: PageId, above: Option<PageId>, key: int, tid: nat)
    requires SpotOk(t, page, above, key)
    ensures Good(InsertFrom(t, page, above, key, tid)) && InsertFrom(t, page, above, key, tid).erased == t.erased
    decreases t.info[page].level
  {
    hide Good, SplitReady, In, NodeSpot, LeafSpot, Leaf.InsertDefiniteFit, Sorted, SameLeaves;
    if t.info[page].level == 0 {
      LeafSpotOk(t, page, above, key);
      var h := LeafSpot(t, page, above, key);
      InsertStep(h.tree, h.page, key, tid);
    } else {
      NodeSpotOk(t, page, above, key);
      var h := NodeSpot(t, page, above, key);
      DescendReady(h.tree, h.page, key);
      var n := h.tree.pages[h.page].node;
      InsertFromOk(h.tree, n.entries[ChildSlot(n.entries, key, 1, n.keyCount)].value, Some(h.page), key, tid);
    }
  }

  /** The way down leaves all leaves alone. */
  lemma {:induction false} InsertAtLeaf(t: Index, page: PageId, above: Option<PageId>, key: int, tid: nat)
    returns (u: Index, p: PageId, last: Option<PageId>)
    requires SpotOk(t, page, above, key)
    ensures SpotOk(u, p, last, key) && u.info[p].level == 0 && SameLeaves(t, u) && u.leafCapacity == t.leafCapacity
    ensures InsertFrom(t, page, above, key, tid) == InsertFrom(u, p, last, key, tid)
    decreases t.info[page].level
  {
    hide Good, SplitReady, In, NodeSpot, LeafSpot, Leaf.InsertDefiniteFit, Sorted, SameLeaves, InsertFrom;
    if t.info[page].level == 0 {
      SameLeavesRefl(t);
      u, p, last := t, page, above;
    } else {
      NodeSpotOk(t, page, above, key);
      var h := NodeSpot(t, page, above, key);
      DescendReady(h.tree, h.page, key);
      var n := h.tree.pages[h.page].node;
      var next := n.entries[ChildSlot(n.entries, key, 1, n.keyCount)].value;
      InsertFromNode(t, page, above, key, tid, next);
      u, p, last := InsertAtLeaf(h.tree, next, Some(h.page), key, tid);
      SameLeavesTrans(t, h.tree, u);
    }
  }

  // ----- whole operations

  ghost function Inserted(t: Index, key: int, tid: nat): Index
    requires Good(t)
  {
    InsertFrom(t, t.root, None, key, tid)
  }

  /** Erasing a key; nothing happens to a key that is not stored. */
  ghost function Removed(t: Index, key: int): Index
    requires Good(t)
  {
    if key !in t.model then t
    else
      var p := LeafPage(t, key);
      var i: nat :| i < t.pages[p].leaf.keyCount && t.pages[p].leaf.entries[i].key == Some(key);
      t.(pages := t.pages[p := Outer(t.pages[p].leaf.Without(i))], treeSize := t.treeSize - 1,
         model := t.model - {key}, erased := t.erased + {key})
  }

  lemma InsertFromLeaf(t: Index, page: PageId, above: Option<PageId>, key: int, tid: nat)
    requires SpotOk(t, page, above, key) && t.info[page].level == 0
    ensures var h := LeafSpot(t, page, above, key);
            && IsOuter(h.tree, h.page)
            && var leaf := h.tree.pages[h.page].leaf;
               && leaf.keyCount < |leaf.entries| && Sorted(leaf.entries, 0, leaf.keyCount)
               && InsertFrom(t, page, above, key, tid)
                  == match leaf.InsertDefiniteFit(key, tid)
                     case Failure(_) => h.tree
                     case Success(grown) =>
                       h.tree.(pages := h.tree.pages[h.page := Outer(grown)], treeSize := h.tree.treeSize + 1,
                               model := h.tree.model[key := tid])
  {
    LeafSpotOk(t, page, above, key);
    var h := LeafSpot(t, page, above, key);
    InsertStep(h.tree, h.page, key, tid);
    hide SpotOk, Good, LeafSpot;
  }

  lemma InsertFromNode(t: Index, page: PageId, above: Option<PageId>, key: int, tid: nat, next: PageId)
    requires SpotOk(t, page, above, key) && t.info[page].level > 0
    requires var h := NodeSpot(t, page, above, key);
             && IsInner(h.tree, h.page)
             && var n := h.tree.pages[h.page].node;
                && 0 < n.keyCount < |n.entries| && Sorted(n.entries, 1, n.keyCount + 1)
                && next == n.entries[ChildSlot(n.entries, key, 1, n.keyCount)].value
    ensures var h := NodeSpot(t, page, above, key);
            && SpotOk(h.tree, next, Some(h.page), key)
            && InsertFrom(t, page, above, key, tid) == InsertFrom(h.tree, next, Some(h.page), key, tid)
  {
    NodeSpotOk(t, page, above, key);
    var h := NodeSpot(t, page, above, key);
    DescendReady(h.tree, h.page, key);
  }

  lemma InsertedGood(t: Index, key: int, tid: nat)
    requires Good(t)
    ensures Good(Inserted(t, key, tid)) && Inserted(t, key, tid).erased == t.erased
  {
    InsertFromOk(t, t.root, None, key, tid);
  }

  lemma RemovedGood(t: Index, key: int)
    requires Good(t)
    ensures Good(Removed(t, key))
    ensures Removed(t, key).erased == if key in t.model then t.erased + {key} else t.erased
  {
    if key in t.model {
      var p := LeafPage(t, key);
      var i: nat :| i < t.pages[p].leaf.keyCount && t.pages[p].leaf.entries[i].key == Some(key);
      hide Good, LeafPage;
      var t' := EraseStep(t, key, i);
      KeySlotUnique(t.pages[p].leaf, key, i);
    }
  }

  lemma RemovedAt(t: Index, key: int, i: nat)
    requires Good(t) && i < t.pages[LeafPage(t, key)].leaf.keyCount
    requires t.pages[LeafPage(t, key)].leaf.entries[i].key == Some(key)
    ensures var p := LeafPage(t, key);
            Removed(t, key) == t.(pages := t.pages[p := Outer(t.pages[p].leaf.Without(i))], treeSize := t.treeSize - 1,
                                  model := t.model - {key}, erased := t.erased + {key})
  {
    KeySlotUnique(t.pages[LeafPage(t, key)].leaf, key, i);
    hide Good, LeafPage;
  }

  lemma RemovedNothing(t: Index, key: int)
    requires Good(t) && key !in t.model
    ensures Removed(t, key) == t
  {
  }

  lemma KeySlotUnique(leaf: Leaf, key: int, i: nat)
    requires i < leaf.keyCount < |leaf.entries| && Sorted(leaf.entries, 0, leaf.keyCount) &&
             leaf.entries[i].key == Some(key)
    ensures forall j: nat :: j < leaf.keyCount && leaf.entries[j].key == Some(key) ==> j == i
  {
  }
}
