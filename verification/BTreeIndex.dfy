/** The whole page structure: which page is responsible for which span, and how splits and leaf edits keep it. */
module BTreeIndex {
  import opened Basics
  import opened EntriesHelper
  import opened BTreePages

  /** The fields of the tree with the span each live page answers for, the map the pages stand for and the keys
      ever erased from it. */
  datatype Index = Index(pages: map<PageId, Page>, root: PageId, treeSize: int, height: nat, lastPageId: PageId,
                         info: map<PageId, Span>, model: map<int, nat>, erased: set<int>,
                         nodeCapacity: nat, leafCapacity: nat)

  ghost predicate PageOk(t: Index, p: PageId)
    requires p in t.info
  {
    && p in t.pages
    && match t.pages[p]
       case Inner(n) => InnerOk(n, t.info[p], t.nodeCapacity, t.info)
       case Outer(l) => LeafOk(l, t.info[p], t.leafCapacity, t.model, t.erased) && NextOk(l, t.info[p], t.info)
  }

  /** Two pages of one level never answer for the same key. */
  ghost predicate Disjoint(info: map<PageId, Span>) {
    forall p, q, k {:trigger In(k, info[p]), In(k, info[q])} ::
      p in info && q in info && info[p].level == info[q].level && In(k, info[p]) && In(k, info[q]) ==> p == q
  }

  ghost predicate Consistent(t: Index) {
    && t.nodeCapacity >= 2 && t.leafCapacity >= 2
    && Disjoint(t.info)
    && forall p {:trigger PageOk(t, p)} :: p in t.info ==> PageOk(t, p)
  }

  ghost predicate IsInner(t: Index, p: PageId) {
    p in t.pages && t.pages[p].Inner?
  }

  ghost predicate IsOuter(t: Index, p: PageId) {
    p in t.pages && t.pages[p].Outer?
  }

  /** The level of a page tells its kind. */
  lemma KindOfPage(t: Index, p: PageId)
    requires Consistent(t) && p in t.info
    ensures t.info[p].level == 0 <==> IsOuter(t, p)
    ensures t.info[p].level > 0 <==> IsInner(t, p)
  {
    assert PageOk(t, p);
  }

  // ----- routing

  /** The page reached from p by following a key through h levels. */
  ghost function Route(pages: map<PageId, Page>, p: PageId, h: nat, key: int): PageId
    decreases h
  {
    if h == 0 || p !in pages || pages[p].Outer? then p
    else
      var n := pages[p].node;
      if n.keyCount < |n.entries| && Sorted(n.entries, 1, n.keyCount + 1)
      then Route(pages, n.entries[ChildSlot(n.entries, key, 1, n.keyCount)].value, h - 1, key)
      else p
  }

  /** Routing arrives at the one leaf that answers for the key. */
  lemma {:induction false} RouteArrives(t: Index, p: PageId, h: nat, key: int)
    requires Consistent(t) && p in t.info && t.info[p].level == h && In(key, t.info[p])
    ensures var q := Route(t.pages, p, h, key);
            && q in t.info && t.info[q].level == 0 && In(key, t.info[q])
            && forall r :: r in t.info && t.info[r].level == 0 && In(key, t.info[r]) ==> r == q
    decreases h
  {
    assert PageOk(t, p);
    if h > 0 {
      var n := t.pages[p].node;
      ChildForKey(n, t.info[p], t.nodeCapacity, key);
      var i := ChildSlot(n.entries, key, 1, n.keyCount);
      assert ChildOk(n, t.info[p], i, t.info);
      RouteArrives(t, n.entries[i].value, h - 1, key);
    }
  }

  // ----- splits

  ghost predicate IsChild(n: InnerNode, span: Span, i: nat, child: PageId, childSpan: Span) {
    && i <= n.keyCount < |n.entries| && span.level > 0
    && Live(n, span, i) && n.entries[i].value == child && Gap(n, span, i) == childSpan
  }

  /** The parent can take one more separator for this child: it is a node with room that holds the child,
      or the empty node just put above the root. */
  ghost predicate ParentReady(t: Index, parent: PageId, child: PageId) {
    && child in t.info && parent != child && IsInner(t, parent)
    && var n := t.pages[parent].node;
       if parent in t.info then
         && n.keyCount < t.nodeCapacity && t.info[parent].level == t.info[child].level + 1
         && exists i :: IsChild(n, t.info[parent], i, child, t.info[child])
       else
         && n == InnerNode(0, Unwritten(t.nodeCapacity + 1))
         && t.info[child].lo == None && t.info[child].hi == None
         && forall p :: p in t.info ==> t.info[p].level <= t.info[child].level
  }

  ghost function ParentSpan(t: Index, parent: PageId, child: PageId): Span
    requires child in t.info
  {
    if parent in t.info then t.info[parent] else Span(t.info[child].level + 1, None, None)
  }

  ghost function SplitInfo(t: Index, id: PageId, newId: PageId, parent: PageId, s: int): map<PageId, Span>
    requires id in t.info
  {
    t.info[id := t.info[id].(hi := Some(s))][newId := t.info[id].(lo := Some(s))][parent := ParentSpan(t, parent, id)]
  }

  ghost function SplitIndex(t: Index, id: PageId, newId: PageId, parent: PageId, s: int,
                            left: Page, right: Page, grown: InnerNode): Index
    requires id in t.info
  {
    t.(pages := t.pages[id := left][newId := right][parent := Inner(grown)],
       info := SplitInfo(t, id, newId, parent, s))
  }

  /** No page but the parent holds the child. */
  lemma OnlyParent(t: Index, parent: PageId, id: PageId, k: int, p: PageId, i: nat)
    requires Consistent(t) && ParentReady(t, parent, id) && In(k, t.info[id])
    requires p in t.info && t.info[p].level > 0 && IsInner(t, p) && i <= t.pages[p].node.keyCount
    requires PageOk(t, p) && Live(t.pages[p].node, t.info[p], i) && t.pages[p].node.entries[i].value == id
    ensures p == parent
  {
    var n := t.pages[p].node;
    assert ChildOk(n, t.info[p], i, t.info);
    GapInSpan(n, t.info[p], t.nodeCapacity, i, k);
    if parent in t.info {
      var m := t.pages[parent].node;
      var j :| IsChild(m, t.info[parent], j, id, t.info[id]);
      assert PageOk(t, parent);
      GapInSpan(m, t.info[parent], t.nodeCapacity, j, k);
    }
  }

  lemma SplitKeepsPage(t: Index, id: PageId, newId: PageId, parent: PageId, s: int, left: Page, right: Page,
                       grown: InnerNode, k: int, p: PageId)
    requires Consistent(t) && ParentReady(t, parent, id) && In(k, t.info[id]) && newId !in t.info && newId != parent
    requires p in t.info && p != id && p != parent
    ensures PageOk(SplitIndex(t, id, newId, parent, s, left, right, grown), p)
  {
    var t' := SplitIndex(t, id, newId, parent, s, left, right, grown);
    assert PageOk(t, p);
    if t.pages[p].Inner? {
      var n := t.pages[p].node;
      forall i | 0 <= i <= n.keyCount ensures ChildOk(n, t'.info[p], i, t'.info) {
        assert ChildOk(n, t.info[p], i, t.info);
        if Live(n, t.info[p], i) && n.entries[i].value == id {
          OnlyParent(t, parent, id, k, p, i);
        }
      }
    }
  }

  lemma SplitDisjoint(t: Index, id: PageId, newId: PageId, parent: PageId, s: int)
    requires Consistent(t) && ParentReady(t, parent, id) && newId !in t.info && newId != parent
    requires StrictlyIn(s, t.info[id])
    ensures Disjoint(SplitInfo(t, id, newId, parent, s))
  {
    var info' := SplitInfo(t, id, newId, parent, s);
    forall p, q, k | p in info' && q in info' && info'[p].level == info'[q].level && In(k, info'[p]) && In(k, info'[q])
      ensures p == q
    {
      var p0 := if p == newId then id else p;
      var q0 := if q == newId then id else q;
      if p0 in t.info && q0 in t.info {
        assert In(k, t.info[p0]) && In(k, t.info[q0]);
        assert p0 == q0;
      }
    }
  }

  /** The parent after the split, and what a search finds in it. */
  lemma SplitParent(t: Index, id: PageId, newId: PageId, parent: PageId, s: int) returns (grown: InnerNode)
    requires Consistent(t) && ParentReady(t, parent, id) && newId !in t.info && newId != parent
    requires StrictlyIn(s, t.info[id])
    ensures var n := t.pages[parent].node; var info' := SplitInfo(t, id, newId, parent, s);
            && |n.entries| == t.nodeCapacity + 1 && n.keyCount < t.nodeCapacity && Sorted(n.entries, 1, n.keyCount + 1)
            && n.InsertDefiniteFit(s, id, newId) == Success(grown)
            && grown.keyCount == n.keyCount + 1
            && InnerOk(grown, info'[parent], t.nodeCapacity, info')
  {
    var n := t.pages[parent].node;
    var info' := SplitInfo(t, id, newId, parent, s);
    var span := ParentSpan(t, parent, id);
    var i: nat;
    if parent in t.info {
      assert PageOk(t, parent);
      i :| IsChild(n, span, i, id, t.info[id]);
    } else {
      i := 0;
    }
    forall j | 0 <= j <= n.keyCount && j != i ensures ChildOk(n, span, j, info') {
      if Live(n, span, j) {
        assert ChildOk(n, span, j, t.info);
        if n.entries[j].value == id {
          GapsDiffer(n, span, t.nodeCapacity, i, j, s);
        }
      }
    }
    grown := InsertSeparator(n, span, t.nodeCapacity, i, s, id, newId, info');
  }

  lemma GapsDiffer(n: InnerNode, span: Span, capacity: nat, i: nat, j: nat, k: int)
    requires NodeKeys(n, span, capacity) && i <= n.keyCount && j <= n.keyCount
    requires In(k, Gap(n, span, i)) && In(k, Gap(n, span, j))
    ensures i == j
  {
    GapInSpan(n, span, capacity, i, k);
    ChildForKey(n, span, capacity, k);
  }

  /** Nodes below a split page are not touched by it. */
  lemma InnerOkUnder(t: Index, id: PageId, newId: PageId, parent: PageId, s: int, n: InnerNode, span: Span)
    requires Consistent(t) && ParentReady(t, parent, id) && newId !in t.info
    requires InnerOk(n, span, t.nodeCapacity, t.info) && span.level == t.info[id].level
    ensures InnerOk(n, span, t.nodeCapacity, SplitInfo(t, id, newId, parent, s))
  {
    var info' := SplitInfo(t, id, newId, parent, s);
    forall i | 0 <= i <= n.keyCount ensures ChildOk(n, span, i, info') {
      assert ChildOk(n, span, i, t.info);
    }
  }

  ghost predicate SplitDone(t: Index, t': Index, id: PageId, newId: PageId, parent: PageId, s: int) {
    && id in t.info && StrictlyIn(s, t.info[id])
    && t'.info == SplitInfo(t, id, newId, parent, s)
    && t' == t.(pages := t'.pages, info := t'.info)
  }

  /** Splitting a full inner node keeps the structure and leaves room in both halves. */
  lemma InnerSplitKeeps(t: Index, id: PageId, newId: PageId, parent: PageId, k: int)
    returns (t': Index, left: InnerNode, s: int, right: InnerNode, grown: InnerNode)
    requires Consistent(t) && ParentReady(t, parent, id) && In(k, t.info[id])
    requires newId !in t.info && newId != parent
    requires IsInner(t, id) && t.pages[id].node.keyCount == t.nodeCapacity
    ensures var n := t.pages[id].node;
            2 <= n.keyCount < |n.entries| && Sorted(n.entries, 1, n.keyCount + 1) && (left, s, right) == SplitNode(n)
    ensures t.nodeCapacity / 2 <= left.keyCount < t.nodeCapacity &&
            t.nodeCapacity / 2 <= right.keyCount < t.nodeCapacity
    ensures var m := t.pages[parent].node;
            && m.keyCount + 1 < |m.entries| && Sorted(m.entries, 1, m.keyCount + 1)
            && m.InsertDefiniteFit(s, id, newId) == Success(grown) && grown.keyCount == m.keyCount + 1
    ensures SplitDone(t, t', id, newId, parent, s) && Consistent(t')
    ensures t'.pages == t.pages[id := Inner(left)][newId := Inner(right)][parent := Inner(grown)]
  {
    assert PageOk(t, id);
    var n, span := t.pages[id].node, t.info[id];
    var halves := SplitNode(n);
    left, s, right := halves.0, halves.1, halves.2;
    SplitNodeOk(n, span, t.nodeCapacity, t.info);
    grown := SplitParent(t, id, newId, parent, s);
    t' := SplitIndex(t, id, newId, parent, s, Inner(left), Inner(right), grown);
    InnerOkUnder(t, id, newId, parent, s, left, span.(hi := Some(s)));
    InnerOkUnder(t, id, newId, parent, s, right, span.(lo := Some(s)));
    SplitDisjoint(t, id, newId, parent, s);
    forall p | p in t'.info ensures PageOk(t', p) {
      if p != id && p != newId && p != parent {
        SplitKeepsPage(t, id, newId, parent, s, Inner(left), Inner(right), grown, k, p);
      }
    }
  }

  /** Splitting a full leaf keeps the structure; neither half can be hit behind its entries by a key it answers for. */
  lemma OuterSplitKeeps(t: Index, id: PageId, newId: PageId, parent: PageId, k: int)
    returns (t': Index, left: Leaf, s: int, right: Leaf, grown: InnerNode)
    requires Consistent(t) && ParentReady(t, parent, id) && In(k, t.info[id])
    requires newId !in t.info && newId != parent
    requires IsOuter(t, id) && t.pages[id].leaf.keyCount == t.leafCapacity
    ensures var l := t.pages[id].leaf;
            2 <= l.keyCount < |l.entries| && Sorted(l.entries, 0, l.keyCount) &&
              (left, s, right) == SplitOuter(l, id, newId)
    ensures t.leafCapacity / 2 <= left.keyCount < t.leafCapacity &&
            t.leafCapacity / 2 <= right.keyCount < t.leafCapacity
    ensures left.keyCount > 0 && right.keyCount > 0
    ensures |left.entries| == |right.entries| == t.leafCapacity + 1
    ensures (forall j :: Below(j, Some(s)) ==> !left.PastHit(j)) && (forall j :: !right.PastHit(j))
    ensures var m := t.pages[parent].node;
            && m.keyCount + 1 < |m.entries| && Sorted(m.entries, 1, m.keyCount + 1)
            && m.InsertDefiniteFit(s, id, newId) == Success(grown) && grown.keyCount == m.keyCount + 1
    ensures SplitDone(t, t', id, newId, parent, s) && Consistent(t')
    ensures t'.pages == t.pages[id := Outer(left)][newId := Outer(right)][parent := Inner(grown)]
  {
    assert PageOk(t, id);
    var leaf, span := t.pages[id].leaf, t.info[id];
    var halves := SplitOuter(leaf, id, newId);
    left, s, right := halves.0, halves.1, halves.2;
    SplitOuterOk(leaf, span, t.leafCapacity, t.model, t.erased, id, newId);
    grown := SplitParent(t, id, newId, parent, s);
    t' := SplitIndex(t, id, newId, parent, s, Outer(left), Outer(right), grown);
    SplitDisjoint(t, id, newId, parent, s);
    forall p | p in t'.info ensures PageOk(t', p) {
      if p != id && p != newId && p != parent {
        SplitKeepsPage(t, id, newId, parent, s, Outer(left), Outer(right), grown, k, p);
      }
    }
  }

  /** No leaf and no leaf's span differs. */
  ghost predicate SameLeaves(t: Index, t': Index) {
    && t'.model == t.model && t'.erased == t.erased
    && (forall p :: p in t.info && t.info[p].level == 0 ==> p in t'.info && t'.info[p] == t.info[p])
    && (forall p :: p in t'.info && t'.info[p].level == 0 ==> p in t.info && t'.info[p] == t.info[p])
    && (forall p :: p in t.info && t.info[p].level == 0 ==> p in t.pages && p in t'.pages && t'.pages[p] == t.pages[p])
  }

  /** Everything but the root: holds between putting a node above the root and splitting the old root. */
  ghost predicate Sound(t: Index) {
    && Consistent(t)
    && t.treeSize == |t.model|
    && t.root < t.lastPageId
    && (forall p :: p in t.pages ==> p < t.lastPageId)
    && (forall p :: p in t.info ==> p in t.pages && t.info[p].level <= t.height && NonEmpty(t.info[p]))
  }

  ghost predicate HalfFull(t: Index, p: PageId) {
    p in t.pages && match t.pages[p]
                    case Inner(n) => n.keyCount >= t.nodeCapacity / 2
                    case Outer(l) => l.keyCount >= t.leafCapacity / 2
  }

  /** Without erasures every page but the root and one other is at least half full. */
  ghost predicate Packed(t: Index, other: PageId) {
    t.erased == {} ==> forall p {:trigger HalfFull(t, p)} :: p in t.info && p != t.root && p != other ==> HalfFull(t, p)
  }

  ghost predicate Good(t: Index) {
    Sound(t) && Packed(t, t.root) && t.root in t.info && t.info[t.root] == Span(t.height, None, None)
  }

  /** A child on the path of a key may be split below this parent. */
  ghost predicate SplitReady(t: Index, id: PageId, parent: PageId, key: int) {
    && Sound(t) && ParentReady(t, parent, id) && In(key, t.info[id])
    && Packed(t, id)
    && if parent in t.info then Good(t) else parent == t.root && t.info[id].level + 1 == t.height
  }

  lemma SameTables(t: Index, t': Index)
    requires Consistent(t) && t'.pages == t.pages && t'.info == t.info && t'.model == t.model && t'.erased == t.erased
    requires t'.nodeCapacity == t.nodeCapacity && t'.leafCapacity == t.leafCapacity
    ensures Consistent(t')
  {
    forall p | p in t'.info ensures PageOk(t', p) {
      assert PageOk(t, p);
    }
  }

  /** A split keeps everything about the tree as a whole. */
  lemma SplitGood(t: Index, t': Index, id: PageId, parent: PageId, k: int, s: int)
    requires SplitReady(t, id, parent, k) && SplitDone(t, t', id, t.lastPageId, parent, s) && Consistent(t')
    requires t'.pages.Keys == t.pages.Keys + {id, t.lastPageId, parent}
    requires HalfFull(t', id) && HalfFull(t', t.lastPageId)
    requires forall p :: p in t.pages && p != id && p != parent ==> t'.pages[p] == t.pages[p]
    requires IsInner(t', parent) && t'.pages[parent].node.keyCount == t.pages[parent].node.keyCount + 1
    ensures Good(t'.(lastPageId := t.lastPageId + 1))
  {
    hide Consistent, HalfFull, Packed, ParentReady, Sound;
    SplitSound(t, t', id, parent, k, s);
    SplitPacked(t, t', id, parent, k, s);
    ParentLevel(t, id, parent, k);
  }

  lemma SplitSound(t: Index, t': Index, id: PageId, parent: PageId, k: int, s: int)
    requires SplitReady(t, id, parent, k) && SplitDone(t, t', id, t.lastPageId, parent, s) && Consistent(t')
    requires t'.pages.Keys == t.pages.Keys + {id, t.lastPageId, parent}
    ensures Sound(t'.(lastPageId := t.lastPageId + 1))
  {
    hide Consistent, Packed, ParentReady;
    SameTables(t', t'.(lastPageId := t.lastPageId + 1));
    ParentLevel(t, id, parent, k);
    forall p | p in t'.info ensures p in t'.pages && t'.info[p].level <= t.height && NonEmpty(t'.info[p]) {
      assert p in t.info || p == t.lastPageId || p == parent;
    }
  }

  lemma ParentLevel(t: Index, id: PageId, parent: PageId, k: int)
    requires SplitReady(t, id, parent, k)
    ensures id in t.info && parent != id && parent in t.pages
    ensures id in t.pages && t.root < t.lastPageId && id < t.lastPageId && parent < t.lastPageId
    ensures parent in t.info ==> t.root != id && t.root in t.info && t.info[t.root] == Span(t.height, None, None)
    ensures parent !in t.info ==>
      parent == t.root && t.info[id].lo == None && t.info[id].hi == None && t.info[id].level + 1 == t.height
  {
  }

  lemma SplitPacked(t: Index, t': Index, id: PageId, parent: PageId, k: int, s: int)
    requires SplitReady(t, id, parent, k) && SplitDone(t, t', id, t.lastPageId, parent, s)
    requires HalfFull(t', id) && HalfFull(t', t.lastPageId)
    requires forall p :: p in t.pages && p != id && p != parent ==> p in t'.pages && t'.pages[p] == t.pages[p]
    requires IsInner(t', parent) && t'.pages[parent].node.keyCount == t.pages[parent].node.keyCount + 1
    ensures Packed(t'.(lastPageId := t.lastPageId + 1), t.root)
  {
    hide Consistent;
    var u := t'.(lastPageId := t.lastPageId + 1);
    if t.erased == {} {
      forall p | p in u.info && p != u.root ensures HalfFull(u, p) {
        assert p != id && p != t.lastPageId ==> HalfFull(t, p);
        assert HalfFull(t', id) && HalfFull(t', t.lastPageId);
      }
    }
  }

  lemma SplitReadyParts(t: Index, id: PageId, parent: PageId, k: int)
    requires SplitReady(t, id, parent, k)
    ensures Consistent(t) && ParentReady(t, parent, id) && id in t.info && In(k, t.info[id])
    ensures IsInner(t, parent) && parent != id && parent < t.lastPageId && id < t.lastPageId && t.lastPageId !in t.info
    ensures forall p :: p in t.pages ==> p < t.lastPageId
  {
  }

  /** What splitInnerNode does to a full node, and that it may do it. */
  lemma InnerSplit(t: Index, id: PageId, parent: PageId, k: int)
    returns (t': Index, left: InnerNode, s: int, right: InnerNode, grown: InnerNode)
    requires SplitReady(t, id, parent, k)
    requires IsInner(t, id) && t.pages[id].node.keyCount == t.nodeCapacity
    ensures IsInner(t, parent) && parent != id && parent != t.lastPageId && id < t.lastPageId
    ensures var n := t.pages[id].node;
            2 <= n.keyCount < |n.entries| && Sorted(n.entries, 1, n.keyCount + 1) && (left, s, right) == SplitNode(n)
    ensures var m := t.pages[parent].node;
            && m.keyCount + 1 < |m.entries| && Sorted(m.entries, 1, m.keyCount + 1)
            && m.InsertDefiniteFit(s, id, t.lastPageId) == Success(grown)
    ensures t' == t.(pages := t.pages[id := Inner(left)][parent := Inner(grown)][t.lastPageId := Inner(right)],
                     info := t'.info, lastPageId := t.lastPageId + 1)
    ensures Good(t') && SameLeaves(t, t')
    ensures id in t.info && StrictlyIn(s, t.info[id]) && t'.info == SplitInfo(t, id, t.lastPageId, parent, s)
    ensures var chosen := if k < s then id else t.lastPageId;
            && chosen in t'.info && In(k, t'.info[chosen]) && t'.info[chosen].level == t.info[id].level
            && IsInner(t', chosen) && t'.pages[chosen].node.keyCount < t.nodeCapacity
  {
    hide Consistent, SplitNode, InnerNode.InsertDefiniteFit, SameLeaves, ParentReady, Sorted, SplitReady, Good;
    SplitReadyParts(t, id, parent, k);
    var newId := t.lastPageId;
    KindOfPage(t, id);
    var u;
    u, left, s, right, grown := InnerSplitKeeps(t, id, newId, parent, k);
    t' := u.(lastPageId := newId + 1);
    assert u.pages == t.pages[id := Inner(left)][parent := Inner(grown)][newId := Inner(right)];
    SplitGood(t, u, id, parent, k, s);
    SplitSameLeaves(t, u, id, newId, parent, s, Inner(left), Inner(right), Inner(grown));
  }

  lemma SplitSameLeaves(t: Index, t': Index, id: PageId, newId: PageId, parent: PageId, s: int, a: Page, b: Page,
                        c: Page)
    requires Consistent(t) && ParentReady(t, parent, id) && newId !in t.info && newId != parent
    requires t.info[id].level > 0 && SplitDone(t, t', id, newId, parent, s)
    requires t'.pages == t.pages[id := a][newId := b][parent := c]
    ensures SameLeaves(t, t'.(lastPageId := newId + 1))
  {
    forall p | p in t.info && t.info[p].level == 0
      ensures p in t.pages && p in t'.pages && t'.pages[p] == t.pages[p]
    {
      assert PageOk(t, p);
      if parent in t.info {
        assert PageOk(t, parent);
      }
    }
  }

  /** What splitLeaf does to a full leaf, and that it may do it. */
  lemma OuterSplit(t: Index, id: PageId, parent: PageId, k: int)
    returns (t': Index, left: Leaf, s: int, right: Leaf, grown: InnerNode)
    requires SplitReady(t, id, parent, k)
    requires IsOuter(t, id) && t.pages[id].leaf.keyCount == t.leafCapacity
    ensures IsInner(t, parent) && parent != id && parent != t.lastPageId && id < t.lastPageId
    ensures var l := t.pages[id].leaf;
            2 <= l.keyCount < |l.entries| && Sorted(l.entries, 0, l.keyCount) &&
              (left, s, right) == SplitOuter(l, id, t.lastPageId)
    ensures var m := t.pages[parent].node;
            && m.keyCount + 1 < |m.entries| && Sorted(m.entries, 1, m.keyCount + 1)
            && m.InsertDefiniteFit(s, id, t.lastPageId) == Success(grown)
    ensures t' == t.(pages := t.pages[id := Outer(left)][parent := Inner(grown)][t.lastPageId := Outer(right)],
                     info := t'.info, lastPageId := t.lastPageId + 1)
    ensures id in t.info && StrictlyIn(s, t.info[id])
    ensures t'.info == SplitInfo(t, id, t.lastPageId, parent, s) && t.lastPageId !in t.info
    ensures Good(t')
    ensures var chosen := if k < s then id else t.lastPageId;
            && chosen in t'.info && In(k, t'.info[chosen]) && t'.info[chosen].level == 0
            && IsOuter(t', chosen) && 0 < t'.pages[chosen].leaf.keyCount < t.leafCapacity
            && |t'.pages[chosen].leaf.entries| == t.leafCapacity + 1 && !t'.pages[chosen].leaf.PastHit(k)
  {
    hide Consistent, SplitOuter, InnerNode.InsertDefiniteFit, ParentReady, Sorted, SplitReady, Good, Leaf.PastHit;
    SplitReadyParts(t, id, parent, k);
    var newId := t.lastPageId;
    KindOfPage(t, id);
    var u;
    u, left, s, right, grown := OuterSplitKeeps(t, id, newId, parent, k);
    t' := u.(lastPageId := newId + 1);
    assert u.pages == t.pages[id := Outer(left)][parent := Inner(grown)][newId := Outer(right)];
    SplitGood(t, u, id, parent, k, s);
  }

  /** A new root above the old one; it is still without entries. */
  lemma RootGrows(t: Index) returns (t': Index)
    requires Good(t)
    ensures t' == t.(pages := t.pages[t.lastPageId := Inner(InnerNode(0, Unwritten(t.nodeCapacity + 1)))],
                     root := t.lastPageId, height := t.height + 1, lastPageId := t.lastPageId + 1)
    ensures SameLeaves(t, t')
    ensures forall key :: SplitReady(t', t.root, t'.root, key)
  {
    t' := t.(pages := t.pages[t.lastPageId := Inner(InnerNode(0, Unwritten(t.nodeCapacity + 1)))],
             root := t.lastPageId, height := t.height + 1, lastPageId := t.lastPageId + 1);
    forall p | p in t'.info ensures PageOk(t', p) {
      assert PageOk(t, p);
    }
    assert Packed(t', t.root) by {
      forall p | p in t'.info && p != t'.root && p != t.root && t.erased == {} ensures HalfFull(t', p) {
        assert HalfFull(t, p);
      }
    }
  }

  // ----- leaf edits

  lemma LeafInsertKeeps(t: Index, id: PageId, key: int, tid: nat)
    requires Consistent(t) && id in t.info && t.info[id].level == 0 && In(key, t.info[id])
    requires IsOuter(t, id) && t.pages[id].leaf.keyCount < t.leafCapacity
    ensures PageOk(t, id)
    ensures var leaf := t.pages[id].leaf;
            var r := leaf.InsertDefiniteFit(key, tid);
            && (r.Failure? <==> key in t.model || (leaf.keyCount > 0 && leaf.PastHit(key)))
            && (r.Failure? ==> r.error == KeyExists)
            && (r.Success? ==> r.value.keyCount == leaf.keyCount + 1 && r.value.next == leaf.next
                               && Consistent(t.(pages := t.pages[id := Outer(r.value)], model := t.model[key := tid])))
  {
    assert PageOk(t, id);
    var leaf := t.pages[id].leaf;
    LeafInsertOk(leaf, t.info[id], t.leafCapacity, t.model, t.erased, key, tid);
    var r := leaf.InsertDefiniteFit(key, tid);
    if r.Success? {
      var t' := t.(pages := t.pages[id := Outer(r.value)], model := t.model[key := tid]);
      forall p | p in t'.info ensures PageOk(t', p) {
        if p != id {
          OtherLeafKeeps(t, id, key, p);
          OtherLeafInsert(t, id, key, tid, p);
        }
      }
    }
  }

  /** Another leaf does not answer for the key and does not hold it. */
  lemma OtherLeafKeeps(t: Index, id: PageId, key: int, p: PageId)
    requires Consistent(t) && id in t.info && t.info[id].level == 0 && In(key, t.info[id]) && p in t.info && p != id
    ensures PageOk(t, p)
    ensures t.pages[p].Outer? ==> !In(key, t.info[p])
  {
    assert PageOk(t, p);
  }

  lemma OtherLeafInsert(t: Index, id: PageId, key: int, tid: nat, p: PageId)
    requires Consistent(t) && p in t.info && p in t.pages && p != id && PageOk(t, p)
    requires t.pages[p].Outer? ==> !In(key, t.info[p])
    ensures t.pages[p].Outer? ==>
      LeafOk(t.pages[p].leaf, t.info[p], t.leafCapacity, t.model[key := tid], t.erased)
  {
  }

  lemma OtherLeafErase(t: Index, id: PageId, key: int, p: PageId)
    requires Consistent(t) && p in t.info && p in t.pages && p != id && PageOk(t, p)
    requires t.pages[p].Outer? ==> !In(key, t.info[p])
    ensures t.pages[p].Outer? ==>
      LeafOk(t.pages[p].leaf, t.info[p], t.leafCapacity, t.model - {key}, t.erased + {key})
  {
  }

  lemma LeafEraseKeeps(t: Index, id: PageId, key: int, i: nat)
    requires Consistent(t) && id in t.info && t.info[id].level == 0 && In(key, t.info[id])
    requires IsOuter(t, id) && i < t.pages[id].leaf.keyCount < |t.pages[id].leaf.entries|
    requires t.pages[id].leaf.entries[i].key == Some(key)
    ensures PageOk(t, id)
    ensures Consistent(t.(pages := t.pages[id := Outer(t.pages[id].leaf.Without(i))],
                          model := t.model - {key}, erased := t.erased + {key}))
    ensures t.pages[id].leaf.Without(i).PastHit(key) <==> i == t.pages[id].leaf.keyCount - 1
  {
    assert PageOk(t, id);
    LeafEraseOk(t.pages[id].leaf, t.info[id], t.leafCapacity, t.model, t.erased, key, i);
    var t' := t.(pages := t.pages[id := Outer(t.pages[id].leaf.Without(i))],
                 model := t.model - {key}, erased := t.erased + {key});
    forall p | p in t'.info ensures PageOk(t', p) {
      if p != id {
        OtherLeafKeeps(t, id, key, p);
        OtherLeafErase(t, id, key, p);
      }
    }
  }

  lemma SameLeavesRefl(t: Index)
    requires Good(t)
    ensures SameLeaves(t, t)
  {
  }

  lemma SameLeavesTrans(t: Index, u: Index, v: Index)
    requires SameLeaves(t, u) && SameLeaves(u, v)
    ensures SameLeaves(t, v)
  {
  }

  lemma RootAnswersForAll(t: Index, key: int)
    requires Good(t)
    ensures t.root in t.info && t.info[t.root].level == t.height && In(key, t.info[t.root])
  {
  }

  // ----- the leaf of a key

  /** The page of the leaf a key is routed to: the only leaf that answers for it. */
  ghost function LeafPage(t: Index, key: int): (p: PageId)
    requires Good(t)
    ensures p in t.info && t.info[p].level == 0 && In(key, t.info[p]) && IsOuter(t, p)
    ensures t.pages[p].leaf.keyCount < |t.pages[p].leaf.entries|
    ensures Sorted(t.pages[p].leaf.entries, 0, t.pages[p].leaf.keyCount)
    ensures key in t.model <==> t.pages[p].leaf.HasKey(key)
  {
    RouteArrives(t, t.root, t.height, key);
    RoutedLeaf(t, Route(t.pages, t.root, t.height, key), key);
    Route(t.pages, t.root, t.height, key)
  }

  lemma RoutedLeaf(t: Index, p: PageId, key: int)
    requires Good(t) && p in t.info && t.info[p].level == 0 && In(key, t.info[p])
    ensures IsOuter(t, p)
    ensures var leaf := t.pages[p].leaf;
            && leaf.keyCount <= t.leafCapacity && |leaf.entries| == t.leafCapacity + 1
            && Sorted(leaf.entries, 0, leaf.keyCount)
            && (key in t.model <==> leaf.HasKey(key))
            && (forall i :: 0 <= i < leaf.keyCount && leaf.entries[i].key == Some(key) ==>
                 key in t.model && t.model[key] == leaf.entries[i].value)
            && (leaf.keyCount == t.leafCapacity ==> !leaf.PastHit(key))
            && (leaf.PastHit(key) ==> key in t.model || key in t.erased)
  {
    assert PageOk(t, p);
    var leaf := t.pages[p].leaf;
    if key in t.model {
      assert leaf.HasKey(key);
    }
  }

  lemma OnlyLeaf(t: Index, p: PageId, key: int)
    requires Good(t) && p in t.info && t.info[p].level == 0 && In(key, t.info[p])
    ensures p == LeafPage(t, key)
  {
  }

  /** The key is not stored, but the slot just behind the entries of its leaf still shows it. */
  ghost predicate Ghosted(t: Index, key: int)
    requires Good(t)
  {
    key !in t.model && t.pages[LeafPage(t, key)].leaf.PastHit(key)
  }

  /** The TID in the slot just behind the entries of the key's leaf. */
  ghost function TidBehind(t: Index, key: int): nat
    requires Good(t)
  {
    var leaf := t.pages[LeafPage(t, key)].leaf;
    leaf.entries[leaf.keyCount].value
  }

  /** What a search sees of a key that is not stored. */
  ghost predicate Seen(t: Index, key: int, tid: nat)
    requires Good(t)
  {
    Ghosted(t, key) && TidBehind(t, key) == tid
  }

  lemma GhostedAt(t: Index, key: int)
    requires Good(t)
    ensures Ghosted(t, key) <==> key !in t.model && t.pages[LeafPage(t, key)].leaf.PastHit(key)
  {
  }

  /** Only an erased key can be seen behind its leaf. */
  lemma GhostedWasErased(t: Index, key: int)
    requires Good(t) && Ghosted(t, key)
    ensures key in t.erased
  {
    RoutedLeaf(t, LeafPage(t, key), key);
  }

  /** The keys stored in the leaf a key is routed to. */
  ghost predicate InLeafOf(t: Index, key: int, k: int)
    requires Good(t)
  {
    t.pages[LeafPage(t, key)].leaf.HasKey(k)
  }

  /** Erasing a stored key: it stays visible behind its leaf exactly when it was the largest there. */
  lemma EraseStep(t: Index, key: int, i: nat) returns (t': Index)
    requires Good(t) && i < t.pages[LeafPage(t, key)].leaf.keyCount
    requires t.pages[LeafPage(t, key)].leaf.entries[i].key == Some(key)
    ensures var p := LeafPage(t, key);
            t' == t.(pages := t.pages[p := Outer(t.pages[p].leaf.Without(i))], treeSize := t.treeSize - 1,
                     model := t.model - {key}, erased := t.erased + {key})
    ensures Good(t') && LeafPage(t', key) == LeafPage(t, key)
    ensures Ghosted(t', key) <==> forall k :: InLeafOf(t, key, k) ==> k <= key
  {
    var p := LeafPage(t, key);
    var leaf := t.pages[p].leaf;
    LeafEraseKeeps(t, p, key, i);
    t' := t.(pages := t.pages[p := Outer(leaf.Without(i))], treeSize := t.treeSize - 1,
             model := t.model - {key}, erased := t.erased + {key});
    SameTables(t'.(treeSize := t.treeSize), t');
    assert key in t.model;
    assert t.model.Keys == t'.model.Keys + {key};
    OnlyLeaf(t', p, key);
    LastKey(leaf, i);
    assert t'.pages[p].leaf == leaf.Without(i);
    assert forall k :: InLeafOf(t, key, k) <==> leaf.HasKey(k);
  }

  lemma LastKey(leaf: Leaf, i: nat)
    requires i < leaf.keyCount < |leaf.entries| && Sorted(leaf.entries, 0, leaf.keyCount)
    ensures i == leaf.keyCount - 1 <==> forall k :: leaf.HasKey(k) ==> k <= leaf.entries[i].key.value
  {
    assert leaf.HasKey(leaf.entries[leaf.keyCount - 1].key.value);
  }

  /** Putting a key into the leaf that answers for it. */
  lemma InsertStep(t: Index, p: PageId, key: int, tid: nat)
    requires Good(t) && p in t.info && t.info[p].level == 0 && In(key, t.info[p])
    requires IsOuter(t, p) && t.pages[p].leaf.keyCount < t.leafCapacity
    ensures var leaf := t.pages[p].leaf;
            && leaf.keyCount < |leaf.entries| && Sorted(leaf.entries, 0, leaf.keyCount)
            && var r := leaf.InsertDefiniteFit(key, tid);
               && (r.Failure? <==> key in t.model || (leaf.keyCount > 0 && leaf.PastHit(key)))
               && (r.Failure? ==> r.error == KeyExists)
               && (r.Success? ==> r.value.next == leaf.next)
               && (r.Success? ==> Good(t.(pages := t.pages[p := Outer(r.value)], treeSize := t.treeSize + 1,
                                          model := t.model[key := tid])))
  {
    LeafInsertKeeps(t, p, key, tid);
    var r := t.pages[p].leaf.InsertDefiniteFit(key, tid);
    if r.Success? {
      var u := t.(pages := t.pages[p := Outer(r.value)], model := t.model[key := tid]);
      SameTables(u, u.(treeSize := t.treeSize + 1));
      assert u.model.Keys == t.model.Keys + {key};
      forall q | q in t.info && q != t.root && t.erased == {} ensures HalfFull(u.(treeSize := t.treeSize + 1), q) {
        assert HalfFull(t, q);
      }
    }
  }

  /** When an insert of a key is refused. */
  ghost predicate Refused(t: Index, key: int)
    requires Good(t)
  {
    key in t.model || (Ghosted(t, key) && t.pages[LeafPage(t, key)].leaf.keyCount > 0)
  }

  lemma RefusedAtLeaf(t: Index, p: PageId, key: int)
    requires Good(t) && p in t.info && t.info[p].level == 0 && In(key, t.info[p])
    ensures p == LeafPage(t, key) && IsOuter(t, p) && t.pages[p].leaf.keyCount < |t.pages[p].leaf.entries|
    ensures Refused(t, key) <==> key in t.model || (t.pages[p].leaf.keyCount > 0 && t.pages[p].leaf.PastHit(key))
    ensures t.pages[p].leaf.keyCount == t.leafCapacity ==> !t.pages[p].leaf.PastHit(key)
  {
    OnlyLeaf(t, p, key);
    RoutedLeaf(t, p, key);
  }

  /** What a leaf shows of a key is the same as long as no leaf changes. */
  lemma SameLeafPage(t: Index, t': Index, key: int, p: PageId)
    requires Good(t) && Good(t') && SameLeaves(t, t')
    requires p in t'.info && t'.info[p].level == 0 && In(key, t'.info[p])
    ensures p == LeafPage(t, key) == LeafPage(t', key) && p in t'.pages && t'.pages[p] == t.pages[p]
    ensures t'.model == t.model && t'.erased == t.erased && (Refused(t, key) <==> Refused(t', key))
  {
    OnlyLeaf(t, p, key);
    OnlyLeaf(t', p, key);
  }

  lemma PackedBut(t: Index, id: PageId)
    requires Good(t)
    ensures Packed(t, id)
  {
    forall p | p in t.info && p != t.root && p != id && t.erased == {} ensures HalfFull(t, p) {
    }
  }

  /** A node with room is ready to take the split of the child a search descends to. */
  lemma DescendReady(t: Index, p: PageId, key: int)
    requires Good(t) && p in t.info && t.info[p].level > 0 && In(key, t.info[p])
    requires IsInner(t, p) && t.pages[p].node.keyCount < t.nodeCapacity
    ensures var n := t.pages[p].node;
            && 0 < n.keyCount < |n.entries| && Sorted(n.entries, 1, n.keyCount + 1)
            && var c := n.entries[ChildSlot(n.entries, key, 1, n.keyCount)].value;
               c in t.info && t.info[c].level + 1 == t.info[p].level && In(key, t.info[c]) && SplitReady(t, c, p, key)
  {
    assert PageOk(t, p);
    var n := t.pages[p].node;
    ChildForKey(n, t.info[p], t.nodeCapacity, key);
    var i := ChildSlot(n.entries, key, 1, n.keyCount);
    assert ChildOk(n, t.info[p], i, t.info);
    assert IsChild(n, t.info[p], i, n.entries[i].value, t.info[n.entries[i].value]);
    PackedBut(t, n.entries[i].value);
  }

  /** A search always finds a live child that answers for its key. */
  lemma Descend(t: Index, p: PageId, key: int)
    requires Good(t) && p in t.info && t.info[p].level > 0 && In(key, t.info[p])
    ensures IsInner(t, p)
    ensures var n := t.pages[p].node;
            && 0 < n.keyCount < |n.entries| && Sorted(n.entries, 1, n.keyCount + 1)
            && var c := n.entries[ChildSlot(n.entries, key, 1, n.keyCount)].value;
               c in t.info && t.info[c].level + 1 == t.info[p].level && In(key, t.info[c])
  {
    assert PageOk(t, p);
    var n := t.pages[p].node;
    ChildForKey(n, t.info[p], t.nodeCapacity, key);
    assert ChildOk(n, t.info[p], ChildSlot(n.entries, key, 1, n.keyCount), t.info);
  }

  /** The level of a page tells its kind, and no page is over capacity. */
  lemma PageKind(t: Index, p: PageId)
    requires Good(t) && p in t.info
    ensures t.info[p].level == 0 ==> IsOuter(t, p) && t.pages[p].leaf.keyCount <= t.leafCapacity
    ensures t.info[p].level > 0 ==> IsInner(t, p) && t.pages[p].node.keyCount <= t.nodeCapacity
  {
    assert PageOk(t, p);
  }
}
