/** A run that cuts the chain of leaves, so that a range lookup misses a stored key. */
module BTreeCut {
  import opened Basics
  import opened EntriesHelper
  import opened BTreePages
  import opened BTreeIndex
  import opened BTreeRange
  import opened BTreeSteps
  import opened BTreeRuns
  import opened Tree

  function S(key: int, value: nat): Slot {
    Slot(Some(key), value)
  }

  const N := Slot(None, 0)

  /** A tree with two entries a leaf and two separators a node. */
  ghost function Small(pages: map<PageId, Page>, root: PageId, size: nat, height: nat, lastPageId: PageId,
                       info: map<PageId, Span>, model: map<int, nat>): Index {
    Index(pages, root, size, height, lastPageId, info, model, {}, 2, 2)
  }

  ghost function T1(): Index {
    Small(map[0 := Outer(Leaf(1, [S(10, 1), N, N], None, None))], 0, 1, 0, 1,
          map[0 := Span(0, None, None)], map[10 := 1])
  }

  ghost function T2(): Index {
    Small(map[0 := Outer(Leaf(2, [S(10, 1), S(20, 2), N], None, None))], 0, 2, 0, 1,
          map[0 := Span(0, None, None)], map[10 := 1, 20 := 2])
  }

  /** The first leaf was split at 20, below a new root. */
  ghost function T3(): Index {
    Small(map[0 := Outer(Leaf(2, [S(10, 1), S(15, 3), N], None, Some(2))),
              1 := Inner(InnerNode(1, [N, S(20, 2), N])),
              2 := Outer(Leaf(1, [S(20, 2), N, N], Some(0), None))],
          1, 3, 1, 3,
          map[0 := Span(0, None, Some(20)), 1 := Span(1, None, None), 2 := Span(0, Some(20), None)],
          map[10 := 1, 20 := 2, 15 := 3])
  }

  /** Leaf 0 was split again, at 15; the new leaf 3 has no successor. */
  ghost function T4(): Index {
    Small(map[0 := Outer(Leaf(2, [S(10, 1), S(12, 4), N], None, Some(3))),
              1 := Inner(InnerNode(2, [N, S(15, 3), S(20, 2)])),
              2 := Outer(Leaf(1, [S(20, 2), N, N], Some(0), None)),
              3 := Outer(Leaf(1, [S(15, 3), N, N], Some(0), None))],
          1, 4, 1, 4,
          map[0 := Span(0, None, Some(15)), 1 := Span(1, None, None), 2 := Span(0, Some(20), None),
              3 := Span(0, Some(15), Some(20))],
          map[10 := 1, 20 := 2, 15 := 3, 12 := 4])
  }

  // ----- leaf by leaf

  lemma InsertsAt(leaf: Leaf, key: int, tid: nat, p: nat, entries: seq<Slot>)
    requires leaf.keyCount < |leaf.entries| && Sorted(leaf.entries, 0, leaf.keyCount)
    requires p <= leaf.keyCount && AllSmaller(leaf.entries, 0, p, key) && leaf.entries[p].key != Some(key)
    requires forall i :: p <= i < leaf.keyCount ==> key < leaf.entries[i].key.value
    requires entries ==
        leaf.entries[..p] + [Slot(Some(key), tid)] + leaf.entries[p..leaf.keyCount] + leaf.entries[leaf.keyCount + 1..]
    ensures leaf.InsertDefiniteFit(key, tid) == Success(leaf.(keyCount := leaf.keyCount + 1, entries := entries))
  {
    assert FindInsertPosition(leaf.entries, key, 0, leaf.keyCount) == Success(p);
    assert MoveEntriesToRight(leaf.entries, p, leaf.keyCount)[p := Slot(Some(key), tid)] == entries;
  }

  lemma SeparatesAt(node: InnerNode, key: int, left: PageId, right: PageId, p: nat, grown: InnerNode)
    requires node.keyCount + 1 < |node.entries| && Sorted(node.entries, 1, node.keyCount + 1)
    requires 1 <= p <= node.keyCount + 1 && AllSmaller(node.entries, 1, p, key) && node.entries[p].key != Some(key)
    requires forall i :: p <= i < node.keyCount + 1 ==> key < node.entries[i].key.value
    requires grown.keyCount == node.keyCount + 1 && Separated(node, grown, p - 1, key, left, right)
    ensures node.InsertDefiniteFit(key, left, right) == Success(grown)
  {
    assert FindInsertPosition(node.entries, key, 1, node.keyCount + 1) == Success(p);
    hide FindInsertPosition, Sorted, AllSmaller, InnerNode.InsertDefiniteFit;
    var open := SeparatorResult(node, p - 1, key, left, right);
    assert open[p - 1 := Slot(open[p - 1].key, left)] == grown.entries;
  }

  lemma First()
    ensures Good(Empty(2, 2)) && Inserted(Empty(2, 2), 10, 1) == T1() && Good(T1())
  {
    EmptyGood(2, 2);
    var t := Empty(2, 2);
    InsertedGood(t, 10, 1);
    RootAnswersForAll(t, 10);
    var leaf := Leaf(0, [N, N, N], None, None);
    assert t.pages[0] == Outer(leaf);
    InsertsAt(leaf, 10, 1, 0, [S(10, 1), N, N]);
    InsertFromLeaf(t, 0, None, 10, 1);
    hide Good, Leaf.InsertDefiniteFit;
    assert Inserted(t, 10, 1) == T1();
  }

  lemma Second()
    requires Good(T1())
    ensures Inserted(T1(), 20, 2) == T2() && Good(T2())
  {
    var t := T1();
    InsertedGood(t, 20, 2);
    RootAnswersForAll(t, 20);
    var leaf := Leaf(1, [S(10, 1), N, N], None, None);
    InsertsAt(leaf, 20, 2, 1, [S(10, 1), S(20, 2), N]);
    InsertFromLeaf(t, 0, None, 20, 2);
    hide Good, Leaf.InsertDefiniteFit;
    assert Inserted(t, 20, 2) == T2();
  }

  lemma SplitsInTwo(a: Slot, b: Slot, next: Option<PageId>, id: PageId, newId: PageId)
    requires a.key.Some? && b.key.Some? && a.key.value < b.key.value
    ensures SplitOuter(Leaf(2, [a, b, N], None, next), id, newId)
      == (Leaf(1, [a, b, N], None, Some(newId)), b.key.value, Leaf(1, [b, N, N], Some(id), None))
  {
    var leaf := Leaf(2, [a, b, N], None, next);
    assert leaf.entries[1..2] + Unwritten(2) == [b, N, N];
  }

  // ----- the two splits

  /** The first leaf split below a new root. */
  ghost function Split3(): Index {
    T2().(pages := map[0 := Outer(Leaf(1, [S(10, 1), S(20, 2), N], None, Some(2))),
                       1 := Inner(InnerNode(1, [N, S(20, 2), N])),
                       2 := Outer(Leaf(1, [S(20, 2), N, N], Some(0), None))],
          root := 1, height := 1, lastPageId := 3, info := T3().info)
  }

  /** What a leaf split makes of some pages. */
  ghost predicate SplitsTo(t: Index, parent: PageId, s: int, t': Index) {
    && 0 in t.info && IsOuter(t, 0) && IsInner(t, parent)
    && var leaf := t.pages[0].leaf; var node := t.pages[parent].node;
       && 2 <= leaf.keyCount < |leaf.entries| && Sorted(leaf.entries, 0, leaf.keyCount)
       && leaf.keyCount == t.leafCapacity
       && node.keyCount + 1 < |node.entries| && Sorted(node.entries, 1, node.keyCount + 1)
       && var halves := SplitOuter(leaf, 0, t.lastPageId);
          && halves.1 == s && node.InsertDefiniteFit(s, 0, t.lastPageId).Success?
          && var grown := node.InsertDefiniteFit(s, 0, t.lastPageId).value;
             t' == t.(pages := t.pages[0 := Outer(halves.0)][parent := Inner(grown)][t.lastPageId := Outer(halves.2)],
                      info := SplitInfo(t, 0, t.lastPageId, parent, s), lastPageId := t.lastPageId + 1)
  }

  lemma SplitsToHalves(t: Index, parent: PageId, s: int, t': Index, k: int)
    requires SplitsTo(t, parent, s, t') && SplitReady(t, 0, parent, k)
    ensures OuterHalves(t, 0, parent, k) == Spot(t', if k < s then 0 else t.lastPageId, Some(parent))
  {
    hide SplitReady, SplitOuter, InnerNode.InsertDefiniteFit, SplitInfo, Sorted;
    var halves := SplitOuter(t.pages[0].leaf, 0, t.lastPageId);
    OuterHalvesAre(t, 0, parent, k, t', halves.0, s, halves.2,
                   t.pages[parent].node.InsertDefiniteFit(s, 0, t.lastPageId).value);
  }

  lemma FirstPieces()
    ensures SplitsTo(Grown(T2()), 1, 20, Split3())
  {
    SplitsInTwo(S(10, 1), S(20, 2), None, 0, 2);
    var above := InnerNode(0, [N, N, N]);
    assert Unwritten(3) == above.entries;
    SeparatesAt(above, 20, 0, 2, 1, InnerNode(1, [N, S(20, 2), N]));
    hide SplitOuter, InnerNode.InsertDefiniteFit;
  }

  lemma FirstSplit()
    requires Good(T2())
    ensures SpotOk(T2(), 0, None, 15) && LeafSpot(T2(), 0, None, 15) == Spot(Split3(), 0, Some(1))
  {
    hide Good, SplitReady, SplitsTo, OuterHalves, Split3, In;
    var t := T2();
    RootAnswersForAll(t, 15);
    GrownOk(t);
    FirstPieces();
    SplitsToHalves(Grown(t), 1, 20, Split3(), 15);
  }

  lemma ThirdLeaf()
    ensures IsOuter(Split3(), 0)
    ensures var leaf := Split3().pages[0].leaf;
            && leaf.keyCount < |leaf.entries| && Sorted(leaf.entries, 0, leaf.keyCount)
            && leaf.InsertDefiniteFit(15, 3).Success?
            && T3() == Split3().(pages := Split3().pages[0 := Outer(leaf.InsertDefiniteFit(15, 3).value)],
                                 treeSize := Split3().treeSize + 1, model := Split3().model[15 := 3])
  {
    InsertsAt(Leaf(1, [S(10, 1), S(20, 2), N], None, Some(2)), 15, 3, 1, [S(10, 1), S(15, 3), N]);
    hide Leaf.InsertDefiniteFit;
  }

  lemma Third()
    requires Good(T2())
    ensures Inserted(T2(), 15, 3) == T3() && Good(T3())
  {
    hide Good, Leaf.InsertDefiniteFit, LeafSpot, T3, Split3, SplitReady, InsertFrom, In;
    InsertedGood(T2(), 15, 3);
    FirstSplit();
    ThirdLeaf();
    InsertFromLeaf(T2(), 0, None, 15, 3);
  }

  /** Leaf 0 split again. */
  ghost function Split4(): Index {
    T3().(pages := map[0 := Outer(Leaf(1, [S(10, 1), S(15, 3), N], None, Some(3))),
                       1 := Inner(InnerNode(2, [N, S(15, 3), S(20, 2)])),
                       2 := Outer(Leaf(1, [S(20, 2), N, N], Some(0), None)),
                       3 := Outer(Leaf(1, [S(15, 3), N, N], Some(0), None))],
          lastPageId := 4, info := T4().info)
  }

  lemma SecondInfo()
    ensures SplitInfo(T3(), 0, 3, 1, 15) == T4().info
  {
  }

  lemma SecondPieces()
    ensures SplitsTo(T3(), 1, 15, Split4())
  {
    hide SplitInfo, T4;
    SecondInfo();
    SplitsInTwo(S(10, 1), S(15, 3), Some(2), 0, 3);
    SeparatesAt(InnerNode(1, [N, S(20, 2), N]), 15, 0, 3, 1, InnerNode(2, [N, S(15, 3), S(20, 2)]));
    hide SplitOuter, InnerNode.InsertDefiniteFit, Separated, AllSmaller;
  }

  lemma SecondSplit()
    requires Good(T3()) && SpotOk(T3(), 0, Some(1), 12)
    ensures LeafSpot(T3(), 0, Some(1), 12) == Spot(Split4(), 0, Some(1))
  {
    hide Good, SplitReady, SplitsTo, OuterHalves, Split4, In;
    SecondPieces();
    SplitsToHalves(T3(), 1, 15, Split4(), 12);
  }

  lemma FourthLeaf()
    ensures IsOuter(Split4(), 0)
    ensures var leaf := Split4().pages[0].leaf;
            && leaf.keyCount < |leaf.entries| && Sorted(leaf.entries, 0, leaf.keyCount)
            && leaf.InsertDefiniteFit(12, 4).Success?
            && T4() == Split4().(pages := Split4().pages[0 := Outer(leaf.InsertDefiniteFit(12, 4).value)],
                                 treeSize := Split4().treeSize + 1, model := Split4().model[12 := 4])
  {
    InsertsAt(Leaf(1, [S(10, 1), S(15, 3), N], None, Some(3)), 12, 4, 1, [S(10, 1), S(12, 4), N]);
    hide Leaf.InsertDefiniteFit;
  }

  /** The root has room, and leads to leaf 0. */
  lemma ToLeaf()
    requires Good(T3())
    ensures SpotOk(T3(), 1, None, 12) && SpotOk(T3(), 0, Some(1), 12) && T3().root == 1 && T3().info[0].level == 0
    ensures InsertFrom(T3(), 1, None, 12, 4) == InsertFrom(T3(), 0, Some(1), 12, 4)
  {
    var t := T3();
    RootAnswersForAll(t, 12);
    var node := InnerNode(1, [N, S(20, 2), N]);
    ChildSlotUnique(node.entries, 12, 1, 1, 0);
    assert NodeSpot(t, 1, None, 12) == Spot(t, 1, None);
    hide Good, SplitReady, NodeSpot, InsertFrom;
    InsertFromNode(t, 1, None, 12, 4, 0);
  }

  lemma Fourth()
    requires Good(T3())
    ensures Inserted(T3(), 12, 4) == T4() && Good(T4())
  {
    var t := T3();
    InsertedGood(t, 12, 4);
    RootAnswersForAll(t, 12);
    ToLeaf();
    hide Good, Leaf.InsertDefiniteFit, LeafSpot, NodeSpot, SplitReady, T3, T4, Split4, InsertFrom, In;
    SecondSplit();
    FourthLeaf();
    InsertFromLeaf(t, 0, Some(1), 12, 4);
  }

  // ----- what a range lookup finds

  lemma Leaves()
    requires Good(T4())
    ensures LeafPage(T4(), 10) == LeafPage(T4(), 12) == 0 && LeafPage(T4(), 15) == 3 && LeafPage(T4(), 20) == 2
  {
    hide Good, LeafPage;
    OnlyLeaf(T4(), 0, 10);
    OnlyLeaf(T4(), 0, 12);
    OnlyLeaf(T4(), 3, 15);
    OnlyLeaf(T4(), 2, 20);
  }

  lemma Chain()
    ensures OnChain(T4(), 0, 0) && OnChain(T4(), 0, 3) && !OnChain(T4(), 0, 2)
  {
    var t, path := T4(), [0, 3];
    assert IsChain(t, path) && t.pages[path[1]].leaf.next == None;
    hide OnChain, T4, IsChain;
    PathIsChain(t, path, 0);
    PathIsChain(t, path, 3);
    PathIsChain(t, path, 2);
  }

  lemma Reached()
    requires Good(T4())
    ensures ReachedInRange(T4(), 10, 20) == {10, 12, 15}
  {
    hide Good, LeafPage, OnChain;
    Leaves();
    Chain();
  }

  lemma Three(model: map<int, nat>)
    requires 10 in model && 12 in model && 15 in model && model[10] == 1 && model[12] == 4 && model[15] == 3
    ensures TidsInOrder(model, {10, 12, 15}, [1, 4, 3])
  {
    assert InOrder({10, 12, 15}, [10, 12, 15]);
    hide InOrder;
  }

  lemma Misses(tids: seq<nat>)
    requires Good(T4()) && TidsInOrder(T4().model, ReachedInRange(T4(), 10, 20), tids)
    ensures tids == [1, 4, 3] && 20 in T4().model && T4().model[20] == 2
  {
    hide Good, ReachedInRange, TidsInOrder;
    Reached();
    Three(T4().model);
    TidsUnique(T4().model, {10, 12, 15}, tids, [1, 4, 3]);
  }

  /** 20 is stored and in the range, and not found. */
  method MissedKey() returns (found: seq<nat>, missed: Option<nat>)
    ensures found == [1, 4, 3] && missed == Some(2)
  {
    hide Good, Empty, T1, T2, T3, T4, Inserted, ReachedInRange, TidsInOrder, Refused, CutsChain, ChainComplete, Ghosted;
    var tree := new BTree(2, 2);
    First();
    var r := tree.Insert(10, 1);
    Second();
    r := tree.Insert(20, 2);
    Third();
    r := tree.Insert(15, 3);
    Fourth();
    r := tree.Insert(12, 4);
    assert tree.View() == T4();
    found := tree.LookupRange(10, 20);
    Misses(found);
    missed := tree.Lookup(20);
  }

  /** The operations of this run. */
  function Cutting(): seq<Op> {
    [Put(10, 1), Put(20, 2), Put(15, 3), Put(12, 4)]
  }

  /** In the tree they lead to, the range from 10 to 20 is not found completely. */
  lemma MissedState()
    ensures States(2, 2, Cutting()) == T4() && !FindsAll(States(2, 2, Cutting()), 10, 20)
  {
    hide Good, Empty, T1, T2, T3, Inserted, ReachedInRange, States;
    First();
    Second();
    Third();
    Fourth();
    var ops := Cutting();
    NoOps(2, 2);
    assert ops[..0] == [] && ops[..4] == ops;
    StatesMore(2, 2, ops, 0);
    StatesMore(2, 2, ops, 1);
    StatesMore(2, 2, ops, 2);
    StatesMore(2, 2, ops, 3);
    Reached();
    assert 20 in InRange(T4(), 10, 20);
  }
}
