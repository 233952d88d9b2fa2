/** What inserts and erasures do to the stored keys, to the chain of leaves and to what shows behind the entries of a
    leaf. */
module BTreeEffects {
  import opened Basics
  import opened EntriesHelper
  import opened BTreePages
  import opened BTreeIndex
  import opened BTreeRange
  import opened BTreeSteps

  // ----- the leaf end of an insert

  ghost predicate Full(t: Index, key: int)
    requires Good(t)
  {
    t.pages[LeafPage(t, key)].leaf.keyCount >= t.leafCapacity
  }

  /** A full leaf is split below its parent, or below a new root. */
  lemma LeafSpotSplits(t: Index, p: PageId, above: Option<PageId>, key: int)
    returns (w: Index, parent: PageId, left: Leaf, s: int, right: Leaf, grown: InnerNode)
    requires SpotOk(t, p, above, key) && t.info[p].level == 0
    requires IsOuter(t, p) && t.pages[p].leaf.keyCount == t.leafCapacity
    ensures SameLeaves(t, w) && w.info == t.info && w.leafCapacity == t.leafCapacity
    ensures IsOuter(w, p) && w.pages[p] == t.pages[p] && parent != p && p < w.lastPageId && w.lastPageId !in w.info
    ensures var l := t.pages[p].leaf;
            2 <= l.keyCount < |l.entries| && Sorted(l.entries, 0, l.keyCount)
            && (left, s, right) == SplitOuter(l, p, w.lastPageId)
    ensures StrictlyIn(s, t.info[p]) && IsInner(w, parent) && parent != w.lastPageId
    ensures var h := LeafSpot(t, p, above, key);
            && Good(h.tree) && h.page == (if key < s then p else w.lastPageId)
            && h.tree == w.(pages := w.pages[p := Outer(left)][parent := Inner(grown)][w.lastPageId := Outer(right)],
                            info := SplitInfo(w, p, w.lastPageId, parent, s), lastPageId := w.lastPageId + 1)
            && (ChainComplete(t) ==> (ChainComplete(h.tree) <==> t.pages[p].leaf.next == None))
  {
    hide Good, SplitReady, In, OuterHalves, SplitOuter, Sorted, InnerNode.InsertDefiniteFit, Leaf.PastHit, SameLeaves,
         ChainComplete, StrictlyIn;
    RootStored(t);
    GrownOk(t);
    SameLeavesRefl(t);
    w := if above == None then Grown(t) else t;
    parent := if above == None then w.root else above.value;
    SplitReadyParts(w, p, parent, key);
    var t';
    t', left, s, right, grown := SplitLeafPlan(w, p, parent, key);
    OuterHalvesAre(w, p, parent, key, t', left, s, right, grown);
    if ChainComplete(t) {
      SameLeavesChain(t, w);
    }
  }

  /** A leaf with room takes the key, or the whole tree stays as it is. */
  lemma InsertWithRoom(t: Index, p: PageId, above: Option<PageId>, key: int, tid: nat)
    requires SpotOk(t, p, above, key) && t.info[p].level == 0
    requires IsOuter(t, p) && t.pages[p].leaf.keyCount < t.leafCapacity
    ensures p == LeafPage(t, key)
    ensures var leaf := t.pages[p].leaf;
            && leaf.keyCount + 1 < |leaf.entries| && Sorted(leaf.entries, 0, leaf.keyCount)
            && (Refused(t, key) <==> leaf.InsertDefiniteFit(key, tid).Failure?)
            && (!Refused(t, key) ==> leaf.InsertDefiniteFit(key, tid).value.next == leaf.next
                                     && leaf.InsertDefiniteFit(key, tid).value.previous == leaf.previous)
            && InsertFrom(t, p, above, key, tid)
               == if Refused(t, key) then t
                  else t.(pages := t.pages[p := Outer(leaf.InsertDefiniteFit(key, tid).value)],
                          treeSize := t.treeSize + 1, model := t.model[key := tid])
  {
    RefusedAtLeaf(t, p, key);
    RoutedLeaf(t, p, key);
    hide Good, SplitReady, In, Sorted, Refused, InsertFrom, Leaf.InsertDefiniteFit, Leaf.PastHit, LeafPage, Leaf.HasKey;
    InsertFromLeaf(t, p, above, key, tid);
    InsertStep(t, p, key, tid);
  }

  // ----- behind the entries

  ghost predicate Behind(leaf: Leaf, key: int, v: nat, d: nat) {
    leaf.keyCount + d < |leaf.entries| && leaf.entries[leaf.keyCount + d] == Slot(Some(key), v)
  }

  /** Slot d behind the entries of the leaf that answers for the key holds the key with this TID. */
  ghost predicate Shown(t: Index, key: int, v: nat, d: nat)
    requires Good(t)
  {
    Behind(t.pages[LeafPage(t, key)].leaf, key, v, d)
  }

  lemma ShownAt(t: Index, p: PageId, key: int, v: nat, d: nat)
    requires Good(t) && p in t.info && t.info[p].level == 0 && In(key, t.info[p])
    ensures p == LeafPage(t, key) && IsOuter(t, p) && (Shown(t, key, v, d) <==> Behind(t.pages[p].leaf, key, v, d))
  {
    OnlyLeaf(t, p, key);
  }

  /** A key is seen behind its leaf exactly when it is in the first slot there and above all stored keys of the leaf. */
  lemma SeenIff(t: Index, key: int, v: nat)
    requires Good(t)
    ensures Seen(t, key, v) <==> Shown(t, key, v, 0) && forall j :: InLeafOf(t, key, j) ==> j < key
  {
    var leaf := t.pages[LeafPage(t, key)].leaf;
    if Shown(t, key, v, 0) && forall j :: InLeafOf(t, key, j) ==> j < key {
      forall i | 0 <= i < leaf.keyCount ensures SlotSmaller(leaf.entries[i], key) {
        assert InLeafOf(t, key, leaf.entries[i].key.value);
      }
    }
  }

  lemma GhostedIff(t: Index, key: int)
    requires Good(t)
    ensures Ghosted(t, key) <==> exists v :: Seen(t, key, v)
  {
    if Ghosted(t, key) {
      assert Seen(t, key, TidBehind(t, key));
    }
  }

  lemma TakesShows(leaf: Leaf, key: int, tid: nat, k: int, v: nat, d: nat)
    requires leaf.keyCount + 1 < |leaf.entries| && Sorted(leaf.entries, 0, leaf.keyCount)
    requires leaf.InsertDefiniteFit(key, tid).Success?
    ensures Behind(leaf.InsertDefiniteFit(key, tid).value, k, v, d) <==> Behind(leaf, k, v, d + 1)
  {
    hide Sorted, AllSmaller, Leaf.InsertDefiniteFit;
    var p := LeafTakes(leaf, key, tid);
  }

  lemma WithoutShows(leaf: Leaf, i: nat, k: int, v: nat, d: nat)
    requires i < leaf.keyCount < |leaf.entries|
    ensures Behind(leaf.Without(i), k, v, d)
      <==> if d == 0 then leaf.entries[leaf.keyCount - 1] == Slot(Some(k), v) else Behind(leaf, k, v, d - 1)
  {
    hide Leaf.Without;
  }

  /** Nothing of interest lies behind the entries. */
  ghost predicate Clear(leaf: Leaf, hi: Option<int>) {
    forall i :: leaf.keyCount <= i < |leaf.entries| && leaf.entries[i].key.Some? ==>
      !Below(leaf.entries[i].key.value, hi)
  }

  lemma ClearHidesAll(leaf: Leaf, span: Span, k: int, v: nat, d: nat)
    requires Clear(leaf, span.hi) && In(k, span)
    ensures !Behind(leaf, k, v, d)
  {
  }

  lemma HalvesClear(leaf: Leaf, span: Span, capacity: nat, id: PageId, newId: PageId)
    requires LeafShape(leaf, span, capacity) && leaf.keyCount == capacity >= 2
    ensures var (l, s, r) := SplitOuter(leaf, id, newId);
            Clear(l, Some(s)) && Clear(r, span.hi)
  {
  }

  lemma TakesClear(leaf: Leaf, key: int, tid: nat, hi: Option<int>)
    requires leaf.keyCount + 1 < |leaf.entries| && Sorted(leaf.entries, 0, leaf.keyCount)
    requires leaf.InsertDefiniteFit(key, tid).Success? && Clear(leaf, hi)
    ensures Clear(leaf.InsertDefiniteFit(key, tid).value, hi)
  {
    hide Sorted, AllSmaller, Leaf.InsertDefiniteFit;
    var p := LeafTakes(leaf, key, tid);
  }

  lemma FullShowsNothing(t: Index, p: PageId, key: int, v: nat, d: nat)
    requires Good(t) && p in t.info && t.info[p].level == 0 && In(key, t.info[p])
    requires IsOuter(t, p) && t.pages[p].leaf.keyCount >= t.leafCapacity
    ensures !Shown(t, key, v, d)
  {
    assert PageOk(t, p);
    ShownAt(t, p, key, v, d);
  }

  /** A leaf was split at s: both halves are clear, and all other leaves are as they were. */
  ghost predicate SplitClear(t: Index, v: Index, p: PageId, newId: PageId, s: int)
    requires p in t.info && IsOuter(t, p)
  {
    && newId !in t.info && newId != p && StrictlyIn(s, t.info[p]) && v.leafCapacity == t.leafCapacity
    && p in v.info && v.info[p] == t.info[p].(hi := Some(s)) && IsOuter(v, p) && Clear(v.pages[p].leaf, Some(s))
    && newId in v.info && v.info[newId] == t.info[p].(lo := Some(s))
    && IsOuter(v, newId) && Clear(v.pages[newId].leaf, t.info[p].hi) && v.pages[newId].leaf.next == None
    && v.pages[p].leaf.previous == t.pages[p].leaf.previous && v.pages[newId].leaf.previous == Some(p)
    && OthersSame(t, v, p) && NoOthers(t, v, newId)
  }

  ghost predicate OthersSame(t: Index, v: Index, p: PageId) {
    forall q :: q in t.info && t.info[q].level == 0 && q != p ==>
      q in v.info && v.info[q] == t.info[q] && q in t.pages && q in v.pages && v.pages[q] == t.pages[q]
  }

  ghost predicate NoOthers(t: Index, v: Index, newId: PageId) {
    forall q :: q in v.info && v.info[q].level == 0 && q != newId ==> q in t.info && t.info[q].level == 0
  }

  lemma LeafSpotClear(t: Index, p: PageId, above: Option<PageId>, key: int) returns (newId: PageId, s: int)
    requires SpotOk(t, p, above, key) && t.info[p].level == 0
    requires IsOuter(t, p) && t.pages[p].leaf.keyCount == t.leafCapacity
    ensures var h := LeafSpot(t, p, above, key);
            && SplitClear(t, h.tree, p, newId, s) && h.page == (if key < s then p else newId)
            && h.tree.model == t.model
            && (ChainComplete(t) ==> (ChainComplete(h.tree) <==> t.pages[p].leaf.next == None))
  {
    hide Good, SplitReady, In, Sorted, SplitOuter, StrictlyIn, LeafSpot, ChainComplete, Clear, Below, SameLeaves,
         OthersSame, NoOthers, IsInner;
    var w, parent, left, right, grown;
    w, parent, left, s, right, grown := LeafSpotSplits(t, p, above, key);
    newId := w.lastPageId;
    FullLeafClear(t, p, above, key, newId);
    OthersStay(t, w, LeafSpot(t, p, above, key).tree, p, parent, left, s, right, grown);
  }

  lemma OthersStay(t: Index, w: Index, v: Index, p: PageId, parent: PageId, left: Leaf, s: int, right: Leaf,
                   grown: InnerNode)
    requires Good(t) && SameLeaves(t, w) && w.info == t.info && w.lastPageId !in w.info && IsInner(w, parent)
    requires p in w.info && t.info[p].level == 0 && IsOuter(t, p) && parent != w.lastPageId
    requires v.pages == w.pages[p := Outer(left)][parent := Inner(grown)][w.lastPageId := Outer(right)]
    requires v.info == SplitInfo(w, p, w.lastPageId, parent, s) && v.model == w.model
    ensures parent != p && p in v.info && v.info[p] == t.info[p].(hi := Some(s))
    ensures w.lastPageId in v.info && v.info[w.lastPageId] == t.info[p].(lo := Some(s))
    ensures OthersSame(t, v, p) && NoOthers(t, v, w.lastPageId) && v.model == t.model
  {
    ParentAbove(t, w, parent);
    hide Good, IsInner, SplitInfo;
    InfoAfterSplit(w, p, w.lastPageId, parent, s);
  }

  lemma InfoAfterSplit(w: Index, p: PageId, newId: PageId, parent: PageId, s: int)
    requires p in w.info && newId !in w.info && parent != p && parent != newId
    requires parent in w.info ==> w.info[parent].level > 0
    ensures var info := SplitInfo(w, p, newId, parent, s);
            && p in info && info[p] == w.info[p].(hi := Some(s))
            && newId in info && info[newId] == w.info[p].(lo := Some(s))
            && (forall q :: q in w.info && q != p && w.info[q].level == 0 ==> q in info && info[q] == w.info[q])
            && forall q :: q in info && info[q].level == 0 && q != newId ==> q in w.info && w.info[q].level == 0
  {
  }

  lemma ParentAbove(t: Index, w: Index, parent: PageId)
    requires Good(t) && SameLeaves(t, w) && IsInner(w, parent)
    ensures parent in t.info ==> t.info[parent].level > 0
    ensures forall q :: q in t.info && t.info[q].level == 0 ==> q != parent
  {
    if parent in t.info {
      KindOfPage(t, parent);
    }
  }

  lemma FullLeafClear(t: Index, p: PageId, above: Option<PageId>, key: int, newId: PageId)
    requires SpotOk(t, p, above, key) && t.info[p].level == 0
    requires IsOuter(t, p) && t.pages[p].leaf.keyCount == t.leafCapacity
    ensures var leaf := t.pages[p].leaf;
            2 <= leaf.keyCount < |leaf.entries| && Sorted(leaf.entries, 0, leaf.keyCount)
            && var (l, s, r) := SplitOuter(leaf, p, newId);
               Clear(l, Some(s)) && Clear(r, t.info[p].hi) && r.next == None
               && l.previous == leaf.previous && r.previous == Some(p)
  {
    assert PageOk(t, p);
    HalvesClear(t.pages[p].leaf, t.info[p], t.leafCapacity, p, newId);
  }

  /** The edit of one half after the split, if there is one. */
  lemma InsertSplitting(t: Index, p: PageId, above: Option<PageId>, key: int, tid: nat)
    returns (newId: PageId, s: int, r: Index)
    requires SpotOk(t, p, above, key) && t.info[p].level == 0
    requires IsOuter(t, p) && t.pages[p].leaf.keyCount == t.leafCapacity
    ensures r == InsertFrom(t, p, above, key, tid) && SplitClear(t, r, p, newId, s)
    ensures r.model == if key in t.model then t.model else t.model[key := tid]
    ensures ChainComplete(t) ==> (ChainComplete(r) <==> t.pages[p].leaf.next == None)
  {
    hide Good, SplitReady, Sorted, LeafSpot, InsertFrom, ChainComplete, Clear, Below, Leaf.InsertDefiniteFit,
         Leaf.PastHit, OthersSame, NoOthers, StrictlyIn;
    newId, s := LeafSpotClear(t, p, above, key);
    LeafSpotOk(t, p, above, key);
    InsertFromLeaf(t, p, above, key, tid);
    var h := LeafSpot(t, p, above, key);
    r := InsertFrom(t, p, above, key, tid);
    EditClear(h.tree, h.page, key, tid, if key < s then Some(s) else t.info[p].hi);
    if key !in t.model {
      var leaf := h.tree.pages[h.page].leaf.InsertDefiniteFit(key, tid).value;
      LeafEditKeepsChain(h.tree, r, h.page, leaf);
      OthersEdited(t, h.tree, r, p, newId, h.page, leaf);
    }
  }

  /** A clear leaf refuses only what it stores, and stays clear. */
  lemma EditClear(t: Index, p: PageId, key: int, tid: nat, hi: Option<int>)
    requires Good(t) && p in t.info && t.info[p].level == 0 && In(key, t.info[p]) && t.info[p].hi == hi
    requires IsOuter(t, p) && t.pages[p].leaf.keyCount < t.leafCapacity && Clear(t.pages[p].leaf, hi)
    ensures var leaf := t.pages[p].leaf;
            && leaf.keyCount + 1 < |leaf.entries| && Sorted(leaf.entries, 0, leaf.keyCount)
            && var r := leaf.InsertDefiniteFit(key, tid);
               && (r.Failure? <==> key in t.model)
               && (r.Success? ==> r.value.next == leaf.next && r.value.previous == leaf.previous && Clear(r.value, hi))
  {
    RoutedLeaf(t, p, key);
    InsertStep(t, p, key, tid);
    var leaf := t.pages[p].leaf;
    ClearHidesAll(leaf, t.info[p], key, leaf.entries[leaf.keyCount].value, 0);
    if leaf.InsertDefiniteFit(key, tid).Success? {
      hide Leaf.InsertDefiniteFit;
      TakesClear(leaf, key, tid, hi);
    }
  }

  lemma OthersEdited(t: Index, v: Index, r: Index, p: PageId, newId: PageId, q: PageId, leaf: Leaf)
    requires OthersSame(t, v, p) && r.info == v.info && r.pages == v.pages[q := Outer(leaf)]
    requires q == p || (q == newId && newId !in t.info)
    ensures OthersSame(t, r, p) && (NoOthers(t, v, newId) ==> NoOthers(t, r, newId))
  {
  }

  // ----- whole inserts

  /** The stored keys after an insert, and whether it cuts the chain. */
  lemma InsertedEffect(t: Index, key: int, tid: nat)
    requires Good(t)
    ensures Inserted(t, key, tid).model == if Refused(t, key) then t.model else t.model[key := tid]
    ensures ChainComplete(t) ==> (ChainComplete(Inserted(t, key, tid)) <==> !CutsChain(t, key))
  {
    RootAnswersForAll(t, key);
    hide Good, SplitReady, In, InsertFrom, ChainComplete, CutsChain, Refused, SameLeaves, Leaf.InsertDefiniteFit,
         Sorted;
    var u, p, last := InsertAtLeaf(t, t.root, None, key, tid);
    SameLeafPage(t, u, key, p);
    SameCut(t, u, key);
    RefusedAtLeaf(u, p, key);
    RoutedLeaf(u, p, key);
    CutsAtLeaf(u, p, key);
    if u.pages[p].leaf.keyCount < u.leafCapacity {
      InsertWithRoom(u, p, last, key, tid);
      var r := InsertFrom(u, p, last, key, tid);
      if !Refused(u, key) {
        LeafEditKeepsChain(u, r, p, u.pages[p].leaf.InsertDefiniteFit(key, tid).value);
      }
    } else {
      var newId, s, r := InsertSplitting(u, p, last, key, tid);
    }
  }

  /** A leaf that is not the last one has no successor. */
  ghost predicate Broken(t: Index) {
    exists p :: LastTooEarly(t, p)
  }

  ghost predicate LastTooEarly(t: Index, p: PageId) {
    p in t.info && t.info[p].level == 0 && IsOuter(t, p) && t.pages[p].leaf.next == None && t.info[p].hi.Some?
  }

  lemma BrokenIsIncomplete(t: Index)
    ensures Broken(t) ==> !ChainComplete(t)
  {
    if Broken(t) {
      var p :| LastTooEarly(t, p);
      assert !LinkComplete(t, p);
    }
  }

  lemma SameLeavesBroken(t: Index, u: Index)
    requires SameLeaves(t, u) && Broken(t)
    ensures Broken(u)
  {
    var b :| LastTooEarly(t, b);
    assert LastTooEarly(u, b);
  }

  lemma EditBroken(t: Index, r: Index, p: PageId, leaf: Leaf)
    requires IsOuter(t, p) && leaf.next == t.pages[p].leaf.next
    requires r.info == t.info && r.pages == t.pages[p := Outer(leaf)] && Broken(t)
    ensures Broken(r)
  {
    var b :| LastTooEarly(t, b);
    assert LastTooEarly(r, b);
  }

  lemma SplitBroken(t: Index, r: Index, p: PageId, newId: PageId, s: int)
    requires p in t.info && t.info[p].level == 0 && IsOuter(t, p) && SplitClear(t, r, p, newId, s)
    requires t.info[p].hi.Some? || Broken(t)
    ensures Broken(r)
  {
    if t.info[p].hi.Some? {
      assert LastTooEarly(r, newId);
    } else {
      var b :| LastTooEarly(t, b);
      assert b != p && b in r.info && r.info[b] == t.info[b];
      assert LastTooEarly(r, b);
    }
  }

  /** An insert that splits a leaf with a successor breaks the chain, and no insert mends it. */
  lemma InsertedBreaks(t: Index, key: int, tid: nat)
    requires Good(t) && (Broken(t) || CutsChain(t, key))
    ensures Broken(Inserted(t, key, tid))
  {
    RootAnswersForAll(t, key);
    hide Good, SplitReady, In, InsertFrom, Refused, Leaf.InsertDefiniteFit, Sorted, Broken, SplitClear, SameLeaves,
         LeafPage, CutsChain, Leaf.HasKey, Leaf.PastHit, ChainComplete;
    var u, p, last := InsertAtLeaf(t, t.root, None, key, tid);
    SameLeafPage(t, u, key, p);
    SameCut(t, u, key);
    RoutedLeaf(u, p, key);
    CutsAtLeaf(u, p, key);
    NextLeaf(u, p);
    if Broken(t) {
      SameLeavesBroken(t, u);
    }
    if u.pages[p].leaf.keyCount < u.leafCapacity {
      InsertWithRoom(u, p, last, key, tid);
      if !Refused(u, key) {
        EditBroken(u, InsertFrom(u, p, last, key, tid), p, u.pages[p].leaf.InsertDefiniteFit(key, tid).value);
      }
    } else {
      var newId, s, r := InsertSplitting(u, p, last, key, tid);
      SplitBroken(u, r, p, newId, s);
    }
  }

  // ----- previous pointers

  /** The previous pointer leads strictly to the left; only the leftmost leaf has none. */
  ghost predicate PreviousLeads(t: Index, p: PageId)
    requires p in t.info
  {
    && IsOuter(t, p)
    && var previous := t.pages[p].leaf.previous;
       && (previous == None <==> t.info[p].lo == None)
       && (previous.Some? ==>
            var q := previous.value;
            && q in t.info && t.info[q].level == 0 && t.info[q].hi.Some? && t.info[q].hi.value <= t.info[p].lo.value)
  }

  ghost predicate PreviousOk(t: Index) {
    forall p {:trigger PreviousLeads(t, p)} :: p in t.info && t.info[p].level == 0 ==> PreviousLeads(t, p)
  }

  lemma SameLeavesPrevious(t: Index, u: Index)
    requires SameLeaves(t, u) && PreviousOk(t)
    ensures PreviousOk(u)
  {
    forall p | p in u.info && u.info[p].level == 0 ensures PreviousLeads(u, p) {
      assert PreviousLeads(t, p);
    }
  }

  lemma EditPrevious(t: Index, r: Index, p: PageId, leaf: Leaf)
    requires IsOuter(t, p) && leaf.previous == t.pages[p].leaf.previous
    requires r.info == t.info && r.pages == t.pages[p := Outer(leaf)] && PreviousOk(t)
    ensures PreviousOk(r)
  {
    forall q | q in r.info && r.info[q].level == 0 ensures PreviousLeads(r, q) {
      assert PreviousLeads(t, q);
    }
  }

  lemma SplitPrevious(t: Index, r: Index, p: PageId, newId: PageId, s: int)
    requires p in t.info && t.info[p].level == 0 && IsOuter(t, p) && SplitClear(t, r, p, newId, s) && PreviousOk(t)
    ensures PreviousOk(r)
  {
    hide Clear;
    forall q | q in r.info && r.info[q].level == 0 ensures PreviousLeads(r, q) {
      var q0 := if q == newId then p else q;
      assert PreviousLeads(t, q0);
      if q != newId && t.pages[q].leaf.previous.Some? {
        var before := t.pages[q].leaf.previous.value;
        assert before in r.info && r.info[before].level == 0;
      }
    }
  }

  /** No insert makes a previous pointer lead elsewhere. */
  lemma InsertedPrevious(t: Index, key: int, tid: nat)
    requires Good(t) && PreviousOk(t)
    ensures PreviousOk(Inserted(t, key, tid))
  {
    RootAnswersForAll(t, key);
    hide Good, SplitReady, In, InsertFrom, Refused, Leaf.InsertDefiniteFit, Sorted, PreviousOk, SplitClear, SameLeaves,
         LeafPage, Leaf.HasKey, Leaf.PastHit, ChainComplete;
    var u, p, last := InsertAtLeaf(t, t.root, None, key, tid);
    RoutedLeaf(u, p, key);
    SameLeavesPrevious(t, u);
    if u.pages[p].leaf.keyCount < u.leafCapacity {
      InsertWithRoom(u, p, last, key, tid);
      if !Refused(u, key) {
        EditPrevious(u, InsertFrom(u, p, last, key, tid), p, u.pages[p].leaf.InsertDefiniteFit(key, tid).value);
      }
    } else {
      var newId, s, r := InsertSplitting(u, p, last, key, tid);
      SplitPrevious(u, r, p, newId, s);
    }
  }

  lemma RemovedPrevious(t: Index, key: int)
    requires Good(t) && PreviousOk(t)
    ensures PreviousOk(Removed(t, key))
  {
    hide Good, LeafPage, PreviousOk;
    if key in t.model {
      var p := LeafPage(t, key);
      EditPrevious(t, Removed(t, key), p, Removed(t, key).pages[p].leaf);
    }
  }

  /** An erasure changes no link. */
  lemma RemovedKeepsChain(t: Index, key: int)
    requires Good(t)
    ensures ChainComplete(t) ==> ChainComplete(Removed(t, key))
    ensures Broken(t) ==> Broken(Removed(t, key))
  {
    hide Good, LeafPage;
    var r := Removed(t, key);
    if key in t.model {
      var p := LeafPage(t, key);
      LeafEditKeepsChain(t, r, p, r.pages[p].leaf);
      if Broken(t) {
        EditBroken(t, r, p, r.pages[p].leaf);
      }
    }
  }

  /** The leaf of a key, and what is in it, are the same in both trees. */
  ghost predicate SameLeaf(t: Index, t': Index, key: int)
    requires Good(t) && Good(t')
  {
    LeafPage(t', key) == LeafPage(t, key) && t'.pages[LeafPage(t', key)] == t.pages[LeafPage(t, key)]
  }

  lemma SameLeafAt(t: Index, t': Index, p: PageId, key: int)
    requires Good(t) && Good(t') && p == LeafPage(t, key)
    requires p in t'.info && t'.info[p] == t.info[p] && p in t'.pages && t'.pages[p] == t.pages[p]
    ensures SameLeaf(t, t', key)
  {
    OnlyLeaf(t', p, key);
  }

  /** What an insert of another key does to the leaf of a key. */
  lemma InsertedElsewhere(t: Index, key: int, tid: nat, k: int)
    requires Good(t) && LeafPage(t, k) != LeafPage(t, key)
    ensures Good(Inserted(t, key, tid)) && SameLeaf(t, Inserted(t, key, tid), k)
  {
    RootAnswersForAll(t, key);
    InsertedGood(t, key, tid);
    hide Good, SplitReady, In, InsertFrom, Refused, Leaf.InsertDefiniteFit, Sorted, StrictlyIn, Clear, ChainComplete,
         LeafPage;
    var u, p, last := InsertAtLeaf(t, t.root, None, key, tid);
    SameLeafPage(t, u, key, p);
    RoutedLeaf(u, p, key);
    var q := LeafPage(t, k);
    if u.pages[p].leaf.keyCount < u.leafCapacity {
      InsertWithRoom(u, p, last, key, tid);
    } else {
      var newId, s, r := InsertSplitting(u, p, last, key, tid);
    }
    SameLeafAt(t, Inserted(t, key, tid), q, k);
  }

  lemma InsertedHere(t: Index, key: int, tid: nat, k: int)
    requires Good(t) && LeafPage(t, k) == LeafPage(t, key) && !Full(t, key)
    ensures var r := Inserted(t, key, tid);
            && Good(r) && LeafPage(r, k) == LeafPage(t, k)
            && r.info[LeafPage(r, k)] == t.info[LeafPage(t, k)]
            && var leaf := t.pages[LeafPage(t, key)].leaf;
               && leaf.keyCount + 1 < |leaf.entries| && Sorted(leaf.entries, 0, leaf.keyCount)
               && (Refused(t, key) <==> leaf.InsertDefiniteFit(key, tid).Failure?)
               && r.pages[LeafPage(r, k)].leaf
                  == if Refused(t, key) then leaf else leaf.InsertDefiniteFit(key, tid).value
  {
    RootAnswersForAll(t, key);
    InsertedGood(t, key, tid);
    hide Good, SplitReady, In, InsertFrom, Refused, Leaf.InsertDefiniteFit, Sorted, LeafPage;
    var u, p, last := InsertAtLeaf(t, t.root, None, key, tid);
    SameLeafPage(t, u, key, p);
    RoutedLeaf(u, p, key);
    InsertWithRoom(u, p, last, key, tid);
    OnlyLeaf(Inserted(t, key, tid), p, k);
  }

  lemma InsertedFull(t: Index, key: int, tid: nat, k: int, v: nat, d: nat)
    requires Good(t) && LeafPage(t, k) == LeafPage(t, key) && Full(t, key)
    ensures Good(Inserted(t, key, tid)) && !Shown(t, k, v, d) && !Shown(Inserted(t, key, tid), k, v, d)
  {
    FullShowsNothing(t, LeafPage(t, k), k, v, d);
    RootAnswersForAll(t, key);
    InsertedGood(t, key, tid);
    hide Good, SplitReady, InsertFrom, Refused, Leaf.InsertDefiniteFit, Sorted, LeafPage, Clear, ChainComplete;
    var u, p, last := InsertAtLeaf(t, t.root, None, key, tid);
    SameLeafPage(t, u, key, p);
    RoutedLeaf(u, p, key);
    var newId, s, r := InsertSplitting(u, p, last, key, tid);
    var q := if k < s then p else newId;
    ShownAt(r, q, k, v, d);
    ClearHidesAll(r.pages[q].leaf, r.info[q], k, v, d);
  }

  /** An insert takes the first slot behind the entries of its leaf away; what shows in the slots behind moves up. */
  lemma InsertedShows(t: Index, key: int, tid: nat, k: int, v: nat, d: nat)
    requires Good(t)
    ensures Good(Inserted(t, key, tid))
    ensures Shown(Inserted(t, key, tid), k, v, d)
      <==> if Refused(t, key) || LeafPage(t, k) != LeafPage(t, key) then Shown(t, k, v, d) else Shown(t, k, v, d + 1)
  {
    hide Good, Inserted, Refused, Leaf.InsertDefiniteFit, Sorted, Behind, LeafPage;
    if LeafPage(t, k) != LeafPage(t, key) {
      InsertedElsewhere(t, key, tid, k);
    } else if Full(t, key) {
      InsertedFull(t, key, tid, k, v, d);
      InsertedFull(t, key, tid, k, v, d + 1);
    } else {
      InsertedHere(t, key, tid, k);
      if !Refused(t, key) {
        TakesShows(t.pages[LeafPage(t, key)].leaf, key, tid, k, v, d);
      }
    }
  }

  // ----- whole erasures

  ghost predicate LargestIn(leaf: Leaf, key: int)
    requires leaf.keyCount < |leaf.entries|
  {
    leaf.HasKey(key) && forall j :: leaf.HasKey(j) ==> j <= key
  }

  lemma LastIsLargestIn(leaf: Leaf, key: int)
    requires 0 < leaf.keyCount < |leaf.entries| && Sorted(leaf.entries, 0, leaf.keyCount)
    ensures leaf.entries[leaf.keyCount - 1].key == Some(key) <==> LargestIn(leaf, key)
  {
    assert leaf.HasKey(leaf.entries[leaf.keyCount - 1].key.value);
  }

  /** The key is the largest stored one of its leaf. */
  ghost predicate Largest(t: Index, key: int)
    requires Good(t)
  {
    key in t.model && LargestIn(t.pages[LeafPage(t, key)].leaf, key)
  }

  lemma LastEntryStored(t: Index, key: int)
    requires Good(t) && t.pages[LeafPage(t, key)].leaf.keyCount > 0
    ensures var leaf := t.pages[LeafPage(t, key)].leaf; var last := leaf.entries[leaf.keyCount - 1];
            last.key.Some? && last.key.value in t.model && last.value == t.model[last.key.value]
  {
    NextLeaf(t, LeafPage(t, key));
  }

  lemma RemovedElsewhere(t: Index, key: int, k: int)
    requires Good(t) && (key !in t.model || LeafPage(t, k) != LeafPage(t, key))
    ensures Good(Removed(t, key)) && SameLeaf(t, Removed(t, key), k)
  {
    RemovedGood(t, key);
    if key in t.model {
      SameLeafAt(t, Removed(t, key), LeafPage(t, k), k);
    }
  }

  lemma RemovedHere(t: Index, key: int, k: int) returns (i: nat)
    requires Good(t) && key in t.model && LeafPage(t, k) == LeafPage(t, key)
    ensures var p := LeafPage(t, k); var leaf := t.pages[p].leaf; var r := Removed(t, key);
            && i < leaf.keyCount < |leaf.entries| && Sorted(leaf.entries, 0, leaf.keyCount)
            && leaf.entries[i].key == Some(key)
            && Good(r) && LeafPage(r, k) == p && r.info[p] == t.info[p] && r.pages[p] == Outer(leaf.Without(i))
            && r.model == t.model - {key}
  {
    RemovedGood(t, key);
    var p := LeafPage(t, key);
    i :| i < t.pages[p].leaf.keyCount && t.pages[p].leaf.entries[i].key == Some(key);
    RemovedAt(t, key, i);
    hide Good, LeafPage, Removed;
    OnlyLeaf(Removed(t, key), p, k);
  }

  /** An erasure puts the largest stored key of its leaf into the first slot behind the entries; what shows there moves
      back. */
  lemma RemovedShows(t: Index, key: int, k: int, v: nat, d: nat)
    requires Good(t)
    ensures Good(Removed(t, key))
    ensures Shown(Removed(t, key), k, v, d)
      <==> if key !in t.model || LeafPage(t, k) != LeafPage(t, key) then Shown(t, k, v, d)
           else if d == 0 then Largest(t, k) && t.model[k] == v else Shown(t, k, v, d - 1)
  {
    hide Good, Removed, Sorted, Behind, LeafPage, LargestIn, Leaf.Without;
    if key !in t.model || LeafPage(t, k) != LeafPage(t, key) {
      RemovedElsewhere(t, key, k);
    } else {
      var i := RemovedHere(t, key, k);
      var leaf := t.pages[LeafPage(t, k)].leaf;
      WithoutShows(leaf, i, k, v, d);
      LastIsLargestIn(leaf, k);
      LastEntryStored(t, k);
    }
  }

  // ----- which keys are seen behind their leaves

  lemma StoredInLeaf(t: Index, key: int, j: int)
    requires Good(t)
    ensures InLeafOf(t, key, j) <==> j in t.model && In(j, t.info[LeafPage(t, key)])
  {
    var p := LeafPage(t, key);
    assert PageOk(t, p);
    if In(j, t.info[p]) {
      RoutedLeaf(t, p, j);
    }
  }

  /** An insert brings a key back that was one slot further behind, if no larger key is stored in its leaf. */
  lemma SeenAfterInsert(t: Index, key: int, tid: nat, k: int, v: nat)
    requires Good(t)
    ensures Good(Inserted(t, key, tid))
    ensures Seen(Inserted(t, key, tid), k, v)
      <==> if Refused(t, key) || LeafPage(t, k) != LeafPage(t, key) then Seen(t, k, v)
           else key < k && Shown(t, k, v, 1) && forall j :: InLeafOf(t, k, j) ==> j < k
  {
    hide Good, Inserted, Refused, Leaf.InsertDefiniteFit, Sorted, Behind, LeafPage, Shown, InLeafOf, In, Seen;
    var r := Inserted(t, key, tid);
    InsertedShows(t, key, tid, k, v, 0);
    InsertedEffect(t, key, tid);
    SeenIff(t, k, v);
    SeenIff(r, k, v);
    if LeafPage(t, k) != LeafPage(t, key) {
      InsertedElsewhere(t, key, tid, k);
      SameInLeaf(t, r, k);
    } else if Full(t, key) {
      InsertedFull(t, key, tid, k, v, 0);
      InsertedFull(t, key, tid, k, v, 1);
    } else {
      InsertedHere(t, key, tid, k);
      AnswersFor(t, key);
      forall j ensures InLeafOf(r, k, j) <==> InLeafOf(t, k, j) || (j == key && !Refused(t, key)) {
        StoredInLeaf(t, k, j);
        StoredInLeaf(r, k, j);
      }
      assert !Refused(t, key) ==> InLeafOf(r, k, key);
    }
  }

  lemma AnswersFor(t: Index, key: int)
    requires Good(t)
    ensures In(key, t.info[LeafPage(t, key)])
  {
  }

  lemma SameInLeaf(t: Index, t': Index, k: int)
    requires Good(t) && Good(t') && SameLeaf(t, t', k)
    ensures forall j :: InLeafOf(t', k, j) <==> InLeafOf(t, k, j)
  {
  }

  /** An erasure hides whatever was seen behind its leaf before; it shows the erased key if that was the largest. */
  lemma SeenAfterErase(t: Index, key: int, k: int, v: nat)
    requires Good(t)
    ensures Good(Removed(t, key))
    ensures Seen(Removed(t, key), k, v)
      <==> if key !in t.model || LeafPage(t, k) != LeafPage(t, key) then Seen(t, k, v)
           else k == key && Largest(t, k) && t.model[k] == v
  {
    hide Good, Removed, Sorted, Behind, LeafPage, Shown, In, Seen;
    var r := Removed(t, key);
    RemovedShows(t, key, k, v, 0);
    SeenIff(t, k, v);
    SeenIff(r, k, v);
    if key !in t.model || LeafPage(t, k) != LeafPage(t, key) {
      RemovedElsewhere(t, key, k);
      SameInLeaf(t, r, k);
    } else {
      var i := RemovedHere(t, key, k);
      forall j ensures InLeafOf(r, k, j) <==> InLeafOf(t, k, j) && j != key {
        StoredInLeaf(t, k, j);
        StoredInLeaf(r, k, j);
      }
      assert Largest(t, k) ==> InLeafOf(t, k, k) && (InLeafOf(r, k, k) || k == key);
    }
  }
}
