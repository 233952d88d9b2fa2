/** The B+ tree over a store of pages: top-down insert with preemptive splits, lookup, erase without merging. */
module Tree {
  import opened Basics
  import opened EntriesHelper
  import opened BTreePages
  import opened BTreeIndex
  import opened BTreeRange
  import opened BTreeSteps

  class BTree {
    const maxNodeCapacity: nat
    const maxLeafCapacity: nat

    var pages: map<PageId, Page>
    var rootPageId: PageId
    var treeSize: int
    var height: nat
    var lastPageId: PageId

    // pages held fixed in the buffer, and the most that were ever held at once
    var pins: multiset<PageId>
    ghost var peak: nat

    // the map the tree stands for, the keys ever erased, and the span each page answers for
    ghost var model: map<int, nat>
    ghost var erased: set<int>
    ghost var info: map<PageId, Span>

    ghost function View(): Index
      reads this
    {
      Index(pages, rootPageId, treeSize, height, lastPageId, info, model, erased, maxNodeCapacity, maxLeafCapacity)
    }

    ghost predicate Valid()
      reads this
    {
      Good(View())
    }

    constructor (nodeCapacity: nat, leafCapacity: nat)
      requires nodeCapacity >= 2 && leafCapacity >= 2
      ensures Valid() && model == map[] && erased == {} && treeSize == 0 && height == 0 && pins == multiset{}
      ensures peak == 1
      ensures maxNodeCapacity == nodeCapacity && maxLeafCapacity == leafCapacity && ChainComplete(View())
      ensures View() == Empty(nodeCapacity, leafCapacity)
    {
      maxNodeCapacity, maxLeafCapacity := nodeCapacity, leafCapacity;
      rootPageId, lastPageId, treeSize, height := 0, 1, 0, 0;
      var leaf := Leaf(0, Unwritten(leafCapacity + 1), None, None);
      pages := map[0 := Outer(leaf)];
      pins, peak := multiset{}, 1;
      model, erased, info := map[], {}, map[0 := Span(0, None, None)];
      new;
      assert PageOk(View(), 0) && LinkComplete(View(), 0);
    }

    // ----- buffer access

    method Fix(p: PageId)
      modifies `pins, `peak
      ensures pins == old(pins) + multiset{p} && peak == Max(old(peak), |old(pins)| + 1)
    {
      pins := pins + multiset{p};
      peak := Max(peak, |pins|);
    }

    method Unfix(p: PageId, ghost rest: multiset<PageId>)
      requires pins == rest + multiset{p}
      modifies `pins
      ensures pins == rest
    {
      pins := pins - multiset{p};
    }

    /** Unfixes the parent page, if there is one. */
    method UnfixParent(parent: Option<PageId>, ghost rest: multiset<PageId>, ghost child: multiset<PageId>)
      requires pins == rest + Held(parent) + child
      modifies `pins
      ensures pins == rest + child
    {
      if parent.Some? {
        Unfix(parent.value, rest + child);
      }
    }

    method NextPageId() returns (p: PageId)
      modifies `lastPageId
      ensures p == old(lastPageId) && lastPageId == old(lastPageId) + 1
    {
      p := lastPageId;
      lastPageId := lastPageId + 1;
    }

    // ----- lookup

    /** Finds every stored key, and besides them exactly the keys still seen behind their leaf, with the TID there. */
    method Lookup(key: int) returns (tid: Option<nat>)
      requires Valid()
      ensures tid.Some? <==> key in model || Ghosted(View(), key)
      ensures key in model ==> tid == Some(model[key])
      ensures Ghosted(View(), key) ==> tid == Some(TidBehind(View(), key))
    {
      tid := SearchForKey(key, rootPageId, 0);
    }

    method SearchForKey(key: int, pageId: PageId, currentHeight: nat) returns (tid: Option<nat>)
      requires Valid() && currentHeight <= height
      requires pageId in info && info[pageId].level == height - currentHeight && In(key, info[pageId])
      ensures tid.Some? <==> key in model || Ghosted(View(), key)
      ensures key in model ==> tid == Some(model[key])
      ensures Ghosted(View(), key) ==> tid == Some(TidBehind(View(), key))
      decreases height - currentHeight
    {
      if currentHeight == height {
        OnlyLeaf(View(), pageId, key);
        RoutedLeaf(View(), pageId, key);
        tid := pages[pageId].leaf.Lookup(key);
      } else {
        var next := NextChild(pageId, key);
        tid := SearchForKey(key, next, currentHeight + 1);
      }
    }

    /** The child a search descends to. Below a node with room the child is ready to be split. */
    method NextChild(pageId: PageId, key: int) returns (child: PageId)
      requires Valid() && pageId in info && info[pageId].level > 0 && In(key, info[pageId])
      ensures child in info && info[child].level + 1 == info[pageId].level && In(key, info[child])
      ensures IsInner(View(), pageId)
      ensures var n := pages[pageId].node;
              && 0 < n.keyCount < |n.entries| && Sorted(n.entries, 1, n.keyCount + 1)
              && child == n.entries[ChildSlot(n.entries, key, 1, n.keyCount)].value
      ensures pages[pageId].node.keyCount < maxNodeCapacity ==> SplitReady(View(), child, pageId, key)
    {
      Descend(View(), pageId, key);
      if pages[pageId].node.keyCount < maxNodeCapacity {
        DescendReady(View(), pageId, key);
      }
      var next := pages[pageId].node.GetNextNode(key);
      child := next.value;
    }

    /** The page of the leaf a key belongs to, found by descending from the root. */
    method FindLeaf(key: int) returns (pageId: PageId)
      requires Valid()
      ensures pageId == LeafPage(View(), key)
    {
      pageId := rootPageId;
      var currentDepth := 0;
      while currentDepth != height
        invariant currentDepth <= height && pageId in info
        invariant info[pageId].level == height - currentDepth && In(key, info[pageId])
        decreases height - currentDepth
      {
        pageId := NextChild(pageId, key);
        currentDepth := currentDepth + 1;
      }
      OnlyLeaf(View(), pageId, key);
    }

    // ----- range lookup

    /** The TIDs of the stored keys of [begin, end] that the leaf chain reaches, in key order; all of them when the
        chain was never cut; none when the bounds are reversed. */
    method LookupRange(begin: int, end: int) returns (tids: seq<nat>)
      requires Valid()
      ensures TidsInOrder(model, ReachedInRange(View(), begin, end), tids)
      ensures ChainComplete(View()) ==> TidsInOrder(model, InRange(View(), begin, end), tids)
      ensures begin > end ==>
        tids == [] && (TidsInOrder(model, InRange(View(), end, begin), tids) <==> InRange(View(), end, begin) == {})
    {
      hide Good, Hits, HitsOf, TidsInOrder, ChainComplete, Sorted, In;
      var left, right := begin, end;
      if end < begin {
        left, right := end, begin;
      }
      var p := FindLeaf(left);
      NextLeaf(View(), p);
      var leftLeaf := pages[p].leaf;
      var position := FindPosition(leftLeaf.entries, left, 0, leftLeaf.keyCount);
      ghost var keys;
      tids, keys := ScanLeaf(leftLeaf, position.value, begin, end);
      ScanStarts(View(), p, position.value, begin, end, keys, tids);
      ghost var path := [p];
      while leftLeaf.next.Some?
        invariant Scanned(View(), path, begin, end, keys, tids)
        invariant path[0] == LeafPage(View(), left) && path[|path| - 1] == p
        invariant p in info && info[p].level == 0 && IsOuter(View(), p) && pages[p].leaf == leftLeaf
        decreases NotLeftOf(View(), p)
      {
        NextLeaf(View(), p);
        NextIsCloser(View(), p);
        p := leftLeaf.next.value;
        NextLeaf(View(), p);
        leftLeaf := pages[p].leaf;
        ghost var more;
        var found;
        found, more := ScanLeaf(leftLeaf, 0, begin, end);
        ScanContinues(View(), path, begin, end, keys, tids, p, more, found);
        tids, keys, path := tids + found, keys + more, path + [p];
      }
      ScanResult(View(), path, begin, end, keys, tids, left);
      ScannedHits(View(), path, begin, end, keys, tids);
      HitsInOrder(model, begin, end, keys, tids, ReachedInRange(View(), begin, end));
      if ChainComplete(View()) {
        HitsInOrder(model, begin, end, keys, tids, InRange(View(), begin, end));
      }
      NoneReversed(View(), begin, end, tids);
    }

    // ----- erase

    /** A stored key goes, and is still seen behind its leaf exactly when it was the leaf's largest key. */
    method Erase(key: int) returns (outcome: Result<()>)
      requires Valid()
      modifies `pages, `treeSize, `model, `erased
      ensures Valid()
      ensures outcome.Success? <==> key in old(model)
      ensures outcome.Success? ==>
        model == old(model) - {key} && erased == old(erased) + {key} && treeSize == old(treeSize) - 1
      ensures outcome.Success? ==> (Ghosted(View(), key) <==> forall k :: InLeafOf(old(View()), key, k) ==> k <= key)
      ensures ChainComplete(old(View())) ==> ChainComplete(View())
      ensures View() == Removed(old(View()), key)
      ensures outcome.Failure? ==> View() == old(View())
      ensures outcome.Failure? ==> outcome.error == if Ghosted(old(View()), key) then MemoryFault else KeyNotFound
    {
      hide Good, LeafPage, Removed, Sorted, Leaf.Without, Leaf.PastHit, ChainComplete, InLeafOf, Ghosted;
      GhostedAt(View(), key);
      var p := FindLeaf(key);
      var leaf := pages[p].leaf;
      var result := leaf.Erase(key);
      if result.Failure? {
        RemovedNothing(View(), key);
        return Failure(result.error);
      }
      ghost var i: nat :| i < leaf.keyCount && leaf.entries[i].key == Some(key) && result.value == leaf.Without(i);
      ghost var t' := EraseStep(View(), key, i);
      RemovedAt(View(), key, i);
      pages := pages[p := Outer(result.value)];
      treeSize := treeSize - 1;
      model, erased := model - {key}, erased + {key};
      assert View() == t';
      LeafEditKeepsChain(old(View()), t', p, result.value);
      return Success(());
    }

    // ----- insert

    method CreateEmptyNode(currPageId: PageId) returns (newPageId: PageId)
      requires Valid() && currPageId == rootPageId
      modifies `pages, `rootPageId, `height, `lastPageId, `pins, `peak
      ensures newPageId == rootPageId
      ensures forall key :: SplitReady(View(), currPageId, newPageId, key)
      ensures SameLeaves(old(View()), View())
      ensures model == old(model) && erased == old(erased) && treeSize == old(treeSize)
      ensures info == old(info) && height == old(height) + 1 && newPageId != currPageId
      ensures currPageId in pages && currPageId in old(pages) && pages[currPageId] == old(pages)[currPageId]
      ensures View() == Grown(old(View()))
      ensures pins == old(pins) + multiset{newPageId} && peak == Max(old(peak), |old(pins)| + 1)
    {
      hide Good, SplitReady, SameLeaves, In, IsInner, IsOuter;
      RootStored(View());
      GrownOk(View());
      newPageId := NextPageId();
      Fix(newPageId);
      pages := pages[newPageId := Inner(InnerNode(0, Unwritten(maxNodeCapacity + 1)))];
      if currPageId == rootPageId {
        rootPageId := newPageId;
      }
      height := height + 1;
      assert View() == Grown(old(View()));
    }

    /** Unfixes the half of a split that does not answer for the key. */
    method KeepHalf(key: int, splitKey: int, id: PageId, newPageId: PageId, ghost rest: multiset<PageId>)
      returns (chosen: PageId)
      requires pins == rest + multiset{id} + multiset{newPageId}
      modifies `pins
      ensures chosen == (if key < splitKey then id else newPageId) && pins == rest + multiset{chosen}
    {
      if key < splitKey {
        Unfix(newPageId, rest + multiset{id});
        chosen := id;
      } else {
        Unfix(id, rest + multiset{newPageId});
        chosen := newPageId;
      }
    }

    method SplitInnerNode(id: PageId, parent: PageId, key: int, ghost rest: multiset<PageId>) returns (chosen: PageId)
      requires SplitReady(View(), id, parent, key)
      requires IsInner(View(), id) && pages[id].node.keyCount == maxNodeCapacity && pins == rest + multiset{id}
      modifies `pages, `lastPageId, `pins, `peak, `info
      ensures Valid() && SameLeaves(old(View()), View())
      ensures chosen in info && In(key, info[chosen]) && info[chosen].level == old(View()).info[id].level
      ensures IsInner(View(), chosen) && pages[chosen].node.keyCount < maxNodeCapacity
      ensures model == old(model) && erased == old(erased) && treeSize == old(treeSize)
      ensures height == old(height)
      ensures pins == rest + multiset{chosen} && peak == Max(old(peak), |rest| + 2)
      ensures InnerHalves(old(View()), id, parent, key) == Spot(View(), chosen, Some(parent))
    {
      hide SplitReady, Good, SameLeaves, SplitNode, InnerNode.InsertDefiniteFit, Sorted, In, SplitInfo,
           InnerHalves;
      ghost var t', l, s, r, g := InnerSplit(View(), id, parent, key);
      InnerHalvesAre(View(), id, parent, key, t', l, s, r, g);
      var (left, splitKey, right) := SplitNode(pages[id].node);
      var newPageId := NextPageId();
      pages := pages[id := Inner(left)];
      var grown := pages[parent].node.InsertDefiniteFit(splitKey, id, newPageId);
      pages := pages[parent := Inner(grown.value)];
      Fix(newPageId);
      pages := pages[newPageId := Inner(right)];
      info := t'.info;
      assert View() == t';
      chosen := KeepHalf(key, splitKey, id, newPageId, rest);
    }

    method SplitLeaf(id: PageId, parent: PageId, key: int, ghost rest: multiset<PageId>) returns (chosen: PageId)
      requires SplitReady(View(), id, parent, key)
      requires IsOuter(View(), id) && pages[id].leaf.keyCount == maxLeafCapacity && pins == rest + multiset{id}
      modifies `pages, `lastPageId, `pins, `peak, `info
      ensures Valid()
      ensures chosen in info && In(key, info[chosen]) && info[chosen].level == 0
      ensures IsOuter(View(), chosen) && 0 < pages[chosen].leaf.keyCount < maxLeafCapacity
      ensures |pages[chosen].leaf.entries| == maxLeafCapacity + 1 && !pages[chosen].leaf.PastHit(key)
      ensures ChainComplete(old(View())) ==> (ChainComplete(View()) <==> old(pages[id]).leaf.next == None)
      ensures model == old(model) && erased == old(erased) && treeSize == old(treeSize)
      ensures height == old(height)
      ensures pins == rest + multiset{chosen} && peak == Max(old(peak), |rest| + 2)
      ensures OuterHalves(old(View()), id, parent, key) == Spot(View(), chosen, Some(parent))
    {
      hide SplitReady, Good, SplitOuter, InnerNode.InsertDefiniteFit, Leaf.PastHit, Sorted, In, ChainComplete,
           SplitInfo, OuterHalves, IsInner;
      ghost var t', l, s, r, g := SplitLeafPlan(View(), id, parent, key);
      OuterHalvesAre(View(), id, parent, key, t', l, s, r, g);
      var newPageId := NextPageId();
      var (left, splitKey, right) := SplitOuter(pages[id].leaf, id, newPageId);
      pages := pages[id := Outer(left)];
      var grown := pages[parent].node.InsertDefiniteFit(splitKey, id, newPageId);
      pages := pages[parent := Inner(grown.value)];
      Fix(newPageId);
      pages := pages[newPageId := Outer(right)];
      info := t'.info;
      assert View() == t';
      chosen := KeepHalf(key, splitKey, id, newPageId, rest);
    }

    static function Max(a: nat, b: nat): (r: nat)
      ensures r >= a && r >= b && (r == a || r == b)
    {
      if a < b then b else a
    }

    static ghost function Held(p: Option<PageId>): multiset<PageId> {
      if p.Some? then multiset{p.value} else multiset{}
    }

    /** Stores a new key. It is refused, with nothing changed in the map, exactly when it is stored already or still
        shows behind a non-empty leaf; only then is the leaf's page left fixed. */
    method Insert(key: int, tid: nat) returns (outcome: Result<()>)
      requires Valid()
      modifies this
      ensures Valid()
      ensures outcome.Success? <==> !Refused(old(View()), key)
      ensures outcome.Success? ==> model == old(model)[key := tid] && treeSize == old(treeSize) + 1
      ensures outcome.Failure? ==> outcome.error == KeyExists && model == old(model) && treeSize == old(treeSize)
      ensures erased == old(erased) && View() == Inserted(old(View()), key, tid)
      ensures ChainComplete(old(View())) ==> (ChainComplete(View()) <==> !CutsChain(old(View()), key))
      ensures outcome.Success? ==> pins == old(pins)
      ensures outcome.Failure? ==> pins == old(pins) + multiset{LeafPage(View(), key)}
      ensures peak <= Max(old(peak), |old(pins)| + 3)
    {
      hide Good, SplitReady, SameLeaves, LeafPage, Refused, CutsChain, ChainComplete, In, Sorted, IsInner, IsOuter,
        InsertFrom;
      ghost var rest := pins;
      var currHeight, currPageId := 0, rootPageId;
      var parent: Option<PageId>, curr: Option<PageId> := None, None;
      SameLeavesRefl(View());
      RootAnswersForAll(View(), key);
      while currHeight != height
        invariant Valid() && SameLeaves(old(View()), View()) && treeSize == old(treeSize)
        invariant currHeight <= height
        invariant SpotOk(View(), currPageId, curr, key) && info[currPageId].level == height - currHeight
        invariant InsertFrom(View(), currPageId, curr, key, tid) == Inserted(old(View()), key, tid)
        invariant curr == None ==> parent == None
        invariant rest == old(pins) && pins == rest + Held(parent) + Held(curr)
        invariant peak <= Max(old(peak), |rest| + 3)
        decreases height - currHeight
      {
        ghost var before := View();
        var above, node, next := DescendOneLevel(key, currPageId, parent, curr, rest, tid);
        SameLeavesTrans(old(View()), before, View());
        if curr != above {
          currHeight := currHeight + 1;
        }
        parent, curr, currPageId := above, Some(node), next;
        currHeight := currHeight + 1;
      }
      UnfixParent(parent, rest, Held(curr));
      SameLeafPage(old(View()), View(), key, currPageId);
      SameCut(old(View()), View(), key);
      outcome := InsertIntoLeaf(key, tid, currPageId, curr, rest);
    }

    /** One round of the descent: lets go of the parent, fixes the next node, makes room in it and picks its child. */
    method DescendOneLevel(key: int, pageId: PageId, parent: Option<PageId>, curr: Option<PageId>,
                           ghost rest: multiset<PageId>, ghost tid: nat)
      returns (above: Option<PageId>, node: PageId, next: PageId)
      requires SpotOk(View(), pageId, curr, key) && info[pageId].level > 0
      requires pins == rest + Held(parent) + Held(curr)
      modifies `pages, `rootPageId, `height, `lastPageId, `pins, `peak, `info
      ensures Valid() && SameLeaves(old(View()), View())
      ensures node in info && SpotOk(View(), next, Some(node), key)
      ensures info[next].level + 1 == old(info)[pageId].level
      ensures InsertFrom(View(), next, Some(node), key, tid) == InsertFrom(old(View()), pageId, curr, key, tid)
      ensures model == old(model) && erased == old(erased) && treeSize == old(treeSize)
      ensures if curr == above then height == old(height) else curr == None && above.Some? && height == old(height) + 1
      ensures pins == rest + Held(above) + multiset{node} && peak <= Max(old(peak), |rest| + 3)
    {
      hide Good, SplitReady, SameLeaves, In, Sorted, InsertFrom, NodeSpot;
      UnfixParent(parent, rest, Held(curr));
      Fix(pageId);
      node, above := NodeWithRoom(key, pageId, curr, rest);
      next := NextChild(node, key);
      InsertFromNode(old(View()), pageId, curr, key, tid, next);
    }

    /** An inner node with room for one more separator: the given one, or the half of it that answers for the key.
        A full root gets a new node above it first. */
    method NodeWithRoom(key: int, pageId: PageId, parent: Option<PageId>, ghost rest: multiset<PageId>)
      returns (node: PageId, above: Option<PageId>)
      requires SpotOk(View(), pageId, parent, key) && info[pageId].level > 0
      requires pins == rest + Held(parent) + multiset{pageId}
      modifies `pages, `rootPageId, `height, `lastPageId, `pins, `peak, `info
      ensures Valid() && SameLeaves(old(View()), View())
      ensures node in info && info[node].level == old(info)[pageId].level && In(key, info[node])
      ensures IsInner(View(), node) && pages[node].node.keyCount < maxNodeCapacity
      ensures model == old(model) && erased == old(erased) && treeSize == old(treeSize)
      ensures if parent == above then height == old(height)
              else parent == None && above.Some? && height == old(height) + 1
      ensures pins == rest + Held(above) + multiset{node} && peak <= Max(old(peak), |rest| + 3)
      ensures NodeSpot(old(View()), pageId, parent, key) == Spot(View(), node, above)
    {
      hide Good, SplitReady, SameLeaves, InnerHalves, In;
      PageKind(View(), pageId);
      SameLeavesRefl(View());
      node, above := pageId, parent;
      if !pages[pageId].node.HasSpaceForOneMoreEntry(maxNodeCapacity) {
        if parent.None? {
          var newRoot := CreateEmptyNode(pageId);
          above := Some(newRoot);
        }
        ghost var grown := View();
        node := SplitInnerNode(pageId, above.value, key, rest + Held(above));
        SameLeavesTrans(old(View()), grown, View());
      }
    }

    /** A leaf with room for the key: the given one, or the half of it that answers for the key. */
    method LeafWithRoom(key: int, leafPageId: PageId, parent: Option<PageId>, ghost rest: multiset<PageId>)
      returns (leafPage: PageId)
      requires SpotOk(View(), leafPageId, parent, key) && info[leafPageId].level == 0
      requires pins == rest + Held(parent)
      modifies `pages, `rootPageId, `height, `lastPageId, `pins, `peak, `info
      ensures Valid() && leafPage in info && info[leafPage].level == 0 && In(key, info[leafPage])
      ensures IsOuter(View(), leafPage) && pages[leafPage].leaf.keyCount < maxLeafCapacity
      ensures pages[leafPage].leaf.keyCount < |pages[leafPage].leaf.entries|
      ensures old(IsOuter(View(), leafPageId))
      ensures if old(pages[leafPageId]).leaf.keyCount < maxLeafCapacity
              then leafPage == leafPageId && pages == old(pages)
              else old(pages[leafPageId]).leaf.keyCount == maxLeafCapacity && !pages[leafPage].leaf.PastHit(key)
      ensures ChainComplete(old(View())) ==>
        (ChainComplete(View()) <==>
         !(old(pages[leafPageId]).leaf.keyCount == maxLeafCapacity && old(pages[leafPageId]).leaf.next.Some?))
      ensures model == old(model) && erased == old(erased) && treeSize == old(treeSize)
      ensures pins == rest + multiset{leafPage} && peak <= Max(old(peak), |rest| + 3)
      ensures var h := LeafSpot(old(View()), leafPageId, parent, key); h.tree == View() && h.page == leafPage
    {
      hide Good, SplitReady, Leaf.PastHit, Leaf.HasKey, In, SameLeaves, ChainComplete, Sorted, OuterHalves;
      PageKind(View(), leafPageId);
      RoutedLeaf(View(), leafPageId, key);
      leafPage := leafPageId;
      var above := parent;
      Fix(leafPage);
      if !pages[leafPage].leaf.HasSpaceForOneMoreEntry(maxLeafCapacity) {
        if above.None? {
          ghost var before := View();
          var newRoot := CreateEmptyNode(leafPage);
          above := Some(newRoot);
          if ChainComplete(before) {
            SameLeavesChain(before, View());
          }
        }
        leafPage := SplitLeaf(leafPage, above.value, key, rest + Held(above));
      }
      UnfixParent(above, rest, multiset{leafPage});
    }

    /** The leaf end of an insert. */
    method InsertIntoLeaf(key: int, tid: nat, leafPageId: PageId, parent: Option<PageId>, ghost rest: multiset<PageId>)
      returns (outcome: Result<()>)
      requires SpotOk(View(), leafPageId, parent, key) && info[leafPageId].level == 0
      requires pins == rest + Held(parent)
      modifies this
      ensures Valid()
      ensures outcome.Success? <==> !Refused(old(View()), key)
      ensures outcome.Success? ==> model == old(model)[key := tid] && treeSize == old(treeSize) + 1
      ensures outcome.Failure? ==> outcome.error == KeyExists && model == old(model) && treeSize == old(treeSize)
      ensures erased == old(erased)
      ensures ChainComplete(old(View())) ==> (ChainComplete(View()) <==> !CutsChain(old(View()), key))
      ensures outcome.Success? ==> pins == rest
      ensures outcome.Failure? ==> pins == rest + multiset{LeafPage(View(), key)}
      ensures peak <= Max(old(peak), |rest| + 3)
      ensures View() == InsertFrom(old(View()), leafPageId, parent, key, tid)
    {
      hide Good, SplitReady, LeafPage, Refused, CutsChain, ChainComplete, Leaf.PastHit, Leaf.InsertDefiniteFit, Sorted,
           In, InsertFrom, LeafSpot;
      InsertFromLeaf(View(), leafPageId, parent, key, tid);
      RefusedAtLeaf(View(), leafPageId, key);
      CutsAtLeaf(View(), leafPageId, key);
      var leafPage := LeafWithRoom(key, leafPageId, parent, rest);
      OnlyLeaf(View(), leafPage, key);
      RoutedLeaf(View(), leafPage, key);
      InsertStep(View(), leafPage, key, tid);
      match pages[leafPage].leaf.InsertDefiniteFit(key, tid) {
        case Failure(e) =>
          return Failure(e);
        case Success(grown) =>
          ghost var before := View();
          pages := pages[leafPage := Outer(grown)];
          Unfix(leafPage, rest);
          treeSize := treeSize + 1;
          model := model[key := tid];
          LeafEditKeepsChain(before, View(), leafPage, grown);
          return Success(());
      }
    }
  }
}
