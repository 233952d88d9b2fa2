/** Whole runs of the B+ tree against a finite map, and the runs where the two differ. */
module BTreeRuns {
  import opened Basics
  import opened EntriesHelper
  import opened BTreePages
  import opened BTreeIndex
  import opened BTreeShared
  import opened BTreeSteps
  import opened Tree

  datatype Op = Put(key: int, tid: nat) | Get(key: int) | Del(key: int)

  /** Fault: memory was moved by a negative length. */
  datatype Answer = Stored | Rejected | Found(tid: nat) | Missing | Erased | Fault

  /** The map semantics of one operation. */
  function Apply(m: map<int, nat>, op: Op): (map<int, nat>, Answer) {
    match op
    case Put(k, v) => if k in m then (m, Rejected) else (m[k := v], Stored)
    case Get(k) => (m, if k in m then Found(m[k]) else Missing)
    case Del(k) => if k in m then (m - {k}, Erased) else (m, Missing)
  }

  function ApplyAll(m: map<int, nat>, ops: seq<Op>): (map<int, nat>, seq<Answer>) {
    if ops == [] then (m, [])
    else
      var (before, answers) := ApplyAll(m, ops[..|ops| - 1]);
      var (after, answer) := Apply(before, ops[|ops| - 1]);
      (after, answers + [answer])
  }

  /** No operation comes back to a key that an earlier operation was to erase. */
  ghost predicate ErasedForGood(ops: seq<Op>) {
    forall i, j :: 0 <= i < j < |ops| && ops[i].Del? ==> ops[j].key != ops[i].key
  }

  /** The operation is taken in by an erased key that still shows behind its leaf. An insert looks there only when the
      leaf has entries. */
  ghost predicate Misled(t: Index, op: Op)
    requires Good(t)
  {
    Ghosted(t, op.key) && (op.Put? ==> t.pages[LeafPage(t, op.key)].leaf.keyCount > 0)
  }

  /** What an operation makes of the tree. */
  ghost function After(t: Index, op: Op): Index
    requires Good(t)
  {
    match op
    case Put(k, v) => Inserted(t, k, v)
    case Get(_) => t
    case Del(k) => Removed(t, k)
  }

  /** What the tree answers: an erased key that is seen is found with the TID there, its erasure faults, and it cannot
      be stored while its leaf has entries. */
  ghost function Reply(t: Index, op: Op): Answer
    requires Good(t)
  {
    match op
    case Put(k, _) => if k in t.model || Misled(t, op) then Rejected else Stored
    case Get(k) => if k in t.model then Found(t.model[k]) else if Ghosted(t, k) then Found(TidBehind(t, k)) else Missing
    case Del(k) => if k in t.model then Erased else if Ghosted(t, k) then Fault else Missing
  }

  /** The tree after some operations on a new one. */
  ghost function States(nodeCapacity: nat, leafCapacity: nat, ops: seq<Op>): (t: Index)
    requires nodeCapacity >= 2 && leafCapacity >= 2
    ensures Good(t)
  {
    EmptyGood(nodeCapacity, leafCapacity);
    if ops == [] then Empty(nodeCapacity, leafCapacity)
    else
      var before := States(nodeCapacity, leafCapacity, ops[..|ops| - 1]);
      AfterGood(before, ops[|ops| - 1]);
      After(before, ops[|ops| - 1])
  }

  lemma AfterGood(t: Index, op: Op)
    requires Good(t)
    ensures Good(After(t, op))
    ensures After(t, op).erased == if op.Del? && op.key in t.model then t.erased + {op.key} else t.erased
  {
    hide Good;
    match op
    case Put(k, v) => InsertedGood(t, k, v);
    case Get(_) =>
    case Del(k) => RemovedGood(t, k);
  }

  lemma StatesMore(nodeCapacity: nat, leafCapacity: nat, ops: seq<Op>, i: nat)
    requires nodeCapacity >= 2 && leafCapacity >= 2 && i < |ops|
    ensures States(nodeCapacity, leafCapacity, ops[..i + 1]) ==
            After(States(nodeCapacity, leafCapacity, ops[..i]), ops[i])
  {
    assert ops[..i + 1][..i] == ops[..i];
    hide Good, After;
  }

  lemma NoOps(nodeCapacity: nat, leafCapacity: nat)
    requires nodeCapacity >= 2 && leafCapacity >= 2
    ensures States(nodeCapacity, leafCapacity, []) == Empty(nodeCapacity, leafCapacity)
    ensures ApplyAll(map[], []) == (map[], [])
  {
  }

  /** One operation. It answers like the map exactly when it is not misled, and leaves the stored keys alone when it
      is. */
  method Perform(tree: BTree, op: Op) returns (answer: Answer)
    requires tree.Valid()
    modifies tree
    ensures tree.Valid() && tree.View() == After(old(tree.View()), op) && answer == Reply(old(tree.View()), op)
    ensures answer == Apply(old(tree.model), op).1 <==> !Misled(old(tree.View()), op)
    ensures tree.model == if Misled(old(tree.View()), op) then old(tree.model) else Apply(old(tree.model), op).0
  {
    hide Good, Inserted, Removed;
    match op
    case Put(k, v) =>
      var r := tree.Insert(k, v);
      answer := if r.Success? then Stored else Rejected;
    case Get(k) =>
      var r := tree.Lookup(k);
      answer := if r.Some? then Found(r.value) else Missing;
    case Del(k) =>
      var r := tree.Erase(k);
      answer := if r.Success? then Erased else if r.error == MemoryFault then Fault else Missing;
  }

  /** Any run on a new tree answers like the map exactly when no operation of it is misled in the tree that the
      operations before it have made, at every capacity; and then the size is the map's. */
  method Run(nodeCapacity: nat, leafCapacity: nat, ops: seq<Op>) returns (answers: seq<Answer>, size: int)
    requires nodeCapacity >= 2 && leafCapacity >= 2
    ensures answers == ApplyAll(map[], ops).1
      <==> forall i :: 0 <= i < |ops| ==> !Misled(States(nodeCapacity, leafCapacity, ops[..i]), ops[i])
    ensures answers == ApplyAll(map[], ops).1 ==> size == |ApplyAll(map[], ops).0|
    ensures |answers| == |ops|
    ensures forall i :: 0 <= i < |ops| ==> answers[i] == Reply(States(nodeCapacity, leafCapacity, ops[..i]), ops[i])
  {
    hide Good, ApplyAll, Apply, Ghosted, Misled, States, After, Empty, Reply;
    var tree := new BTree(nodeCapacity, leafCapacity);
    NoOps(nodeCapacity, leafCapacity);
    answers := [];
    var i := 0;
    while i < |ops|
      invariant 0 <= i <= |ops| && tree.Valid() && fresh(tree) && |answers| == i
      invariant tree.View() == States(nodeCapacity, leafCapacity, ops[..i])
      invariant answers == ApplyAll(map[], ops[..i]).1
        <==> forall j :: 0 <= j < i ==> !Misled(States(nodeCapacity, leafCapacity, ops[..j]), ops[j])
      invariant answers == ApplyAll(map[], ops[..i]).1 ==> tree.model == ApplyAll(map[], ops[..i]).0
      invariant forall j :: 0 <= j < i ==> answers[j] == Reply(States(nodeCapacity, leafCapacity, ops[..j]), ops[j])
    {
      ApplyMore(ops, i);
      StatesMore(nodeCapacity, leafCapacity, ops, i);
      var answer := Perform(tree, ops[i]);
      OneMore(answers, answer, ApplyAll(map[], ops[..i]).1, Apply(ApplyAll(map[], ops[..i]).0, ops[i]).1);
      answers := answers + [answer];
      i := i + 1;
    }
    assert ops[..|ops|] == ops;
    size := tree.treeSize;
    TreeSize(tree.View());
  }

  lemma OneMore<T>(a: seq<T>, x: T, b: seq<T>, y: T)
    ensures |a| == |b| ==> (a + [x] == b + [y] <==> a == b && x == y)
  {
    if |a| == |b| && a + [x] == b + [y] {
      assert (a + [x])[..|a|] == a && (b + [y])[..|b|] == b;
      assert (a + [x])[|a|] == x && (b + [y])[|b|] == y;
    }
  }

  /** So a run that does not come back to an erased key is never misled. */
  lemma NeverMisled(nodeCapacity: nat, leafCapacity: nat, ops: seq<Op>, i: nat)
    requires nodeCapacity >= 2 && leafCapacity >= 2 && ErasedForGood(ops) && i < |ops|
    ensures !Misled(States(nodeCapacity, leafCapacity, ops[..i]), ops[i])
  {
    var t := States(nodeCapacity, leafCapacity, ops[..i]);
    StatesErased(nodeCapacity, leafCapacity, ops[..i]);
    hide Good, Ghosted, States, ErasedForGood;
    NotYetErased(t.erased, ops, i);
    NeverErased(t, ops[i].key);
  }

  lemma {:induction false} StatesErased(nodeCapacity: nat, leafCapacity: nat, ops: seq<Op>)
    requires nodeCapacity >= 2 && leafCapacity >= 2
    ensures ErasedBy(States(nodeCapacity, leafCapacity, ops).erased, ops)
  {
    if ops != [] {
      var n := |ops| - 1;
      var before := States(nodeCapacity, leafCapacity, ops[..n]);
      StatesErased(nodeCapacity, leafCapacity, ops[..n]);
      assert ops[..n + 1] == ops;
      StatesMore(nodeCapacity, leafCapacity, ops, n);
      hide Good, States, After;
      AfterGood(before, ops[n]);
      ErasedMore(before.erased, ops, n);
    }
  }

  ghost predicate ErasedBy(erased: set<int>, ops: seq<Op>) {
    forall k :: k in erased ==> Del(k) in ops
  }

  lemma ErasedMore(erased: set<int>, ops: seq<Op>, i: nat)
    requires i < |ops| && ErasedBy(erased, ops[..i])
    ensures ErasedBy(erased, ops[..i + 1])
    ensures ops[i].Del? ==> ErasedBy(erased + {ops[i].key}, ops[..i + 1])
  {
    assert ops[..i + 1] == ops[..i] + [ops[i]];
  }

  lemma NotYetErased(erased: set<int>, ops: seq<Op>, i: nat)
    requires ErasedForGood(ops) && i < |ops| && ErasedBy(erased, ops[..i])
    ensures ops[i].key !in erased
  {
    var done := ops[..i];
    forall k | k in erased ensures k != ops[i].key {
      assert Del(k) in done;
      var j :| 0 <= j < i && done[j] == Del(k);
      assert ops[j] == Del(k);
    }
  }

  lemma ApplyMore(ops: seq<Op>, i: nat)
    requires i < |ops|
    ensures var (m, answers) := ApplyAll(map[], ops[..i]);
            var (m', answer) := Apply(m, ops[i]);
            ApplyAll(map[], ops[..i + 1]) == (m', answers + [answer]) && |answers| == i
  {
    assert ops[..i + 1][..i] == ops[..i];
    AnswerEach(ops[..i]);
  }

  lemma {:induction false} AnswerEach(ops: seq<Op>)
    ensures |ApplyAll(map[], ops).1| == |ops|
  {
    if ops != [] {
      AnswerEach(ops[..|ops| - 1]);
    }
  }

  lemma TreeSize(t: Index)
    requires Good(t)
    ensures t.treeSize == |t.model|
  {
  }

  lemma NeverErased(t: Index, key: int)
    requires Good(t) && key !in t.erased
    ensures !Ghosted(t, key)
  {
    if Ghosted(t, key) {
      GhostedWasErased(t, key);
    }
  }

  // ----- splits and routes

  /** Splitting an inner node below its parent changes no key's leaf, although both halves keep the middle child. */
  lemma NodeSplitKeepsRoutes(t: Index, id: PageId, parent: PageId, k: int)
    requires Good(t) && SplitReady(t, id, parent, k)
    requires IsInner(t, id) && t.pages[id].node.keyCount == t.nodeCapacity
    ensures var t' := InnerHalves(t, id, parent, k).tree;
            && Good(t') && IsInner(t', id) && IsInner(t', t.lastPageId) && SharesChild(t', id, t.lastPageId)
            && forall key :: Route(t'.pages, t'.root, t'.height, key) == Route(t.pages, t.root, t.height, key)
  {
    hide Good, SplitReady, SplitNode, Sorted, InnerNode.InsertDefiniteFit, SameLeaves, Route, InnerHalves;
    InnerHalvesOk(t, id, parent, k);
    HalvesShareChild(t, id, parent, k);
    RoutesKept(t, InnerHalves(t, id, parent, k).tree);
  }

  /** The last child of one node is also in slot 0 of the other, and dead there. */
  ghost predicate SharesChild(t: Index, id: PageId, newId: PageId)
    requires IsInner(t, id) && IsInner(t, newId)
  {
    var left, right := t.pages[id].node, t.pages[newId].node;
    && newId in t.info && left.keyCount < |left.entries| && right.keyCount < |right.entries|
    && right.entries[0].value == left.entries[left.keyCount].value && !Live(right, t.info[newId], 0)
  }

  lemma HalvesShareChild(t: Index, id: PageId, parent: PageId, k: int)
    requires SplitReady(t, id, parent, k)
    requires IsInner(t, id) && t.pages[id].node.keyCount == t.nodeCapacity
    ensures var t' := InnerHalves(t, id, parent, k).tree;
            IsInner(t', id) && IsInner(t', t.lastPageId) && SharesChild(t', id, t.lastPageId)
  {
    hide Good, SplitReady, SplitNode, Sorted, InnerNode.InsertDefiniteFit, SameLeaves, Consistent, In;
    SplitReadyParts(t, id, parent, k);
    KindOfPage(t, id);
    NodeHalvesShare(t, id);
    InnerSplitFits(t, id, parent, k);
  }

  lemma NodeHalvesShare(t: Index, id: PageId)
    requires Consistent(t) && id in t.info && IsInner(t, id) && t.pages[id].node.keyCount == t.nodeCapacity
    ensures var n := t.pages[id].node;
            2 <= n.keyCount < |n.entries| && Sorted(n.entries, 1, n.keyCount + 1)
    ensures var (left, s, right) := SplitNode(t.pages[id].node);
            && left.keyCount < |left.entries| && right.keyCount < |right.entries|
            && right.entries[0].value == left.entries[left.keyCount].value
            && !Live(right, t.info[id].(lo := Some(s)), 0)
  {
    assert PageOk(t, id);
    SplitNodeOk(t.pages[id].node, t.info[id], t.nodeCapacity, t.info);
  }

  /** So does splitting the root below a new one. */
  lemma RootSplitKeepsRoutes(t: Index, k: int)
    requires Good(t) && IsInner(t, t.root) && t.pages[t.root].node.keyCount == t.nodeCapacity
    ensures SplitReady(Grown(t), t.root, Grown(t).root, k) && IsInner(Grown(t), t.root)
    ensures var t' := InnerHalves(Grown(t), t.root, Grown(t).root, k).tree;
            && Good(t') && t'.height == t.height + 1
            && IsInner(t', t.root) && IsInner(t', t.lastPageId + 1) && SharesChild(t', t.root, t.lastPageId + 1)
            && forall key :: Route(t'.pages, t'.root, t'.height, key) == Route(t.pages, t.root, t.height, key)
  {
    hide Good, SplitReady, SplitNode, Sorted, InnerNode.InsertDefiniteFit, SameLeaves, Route, SharesChild;
    RootStored(t);
    GrownOk(t);
    var u := Grown(t);
    InnerHalvesOk(u, t.root, u.root, k);
    HalvesShareChild(u, t.root, u.root, k);
    var t' := InnerHalves(u, t.root, u.root, k).tree;
    SameLeavesTrans(t, u, t');
    RoutesKept(t, t');
  }

  /** And in every tree that any operations lead to, a node keeps slot 0 dead unless it has no lower bound. */
  lemma SharedChildrenStayDead(nodeCapacity: nat, leafCapacity: nat, ops: seq<Op>, p: PageId)
    requires nodeCapacity >= 2 && leafCapacity >= 2
    ensures var t := States(nodeCapacity, leafCapacity, ops);
            p in t.info && t.info[p].level > 0 ==>
              IsInner(t, p)
              && var n := t.pages[p].node;
                 && 0 < n.keyCount < |n.entries| && Sorted(n.entries, 1, n.keyCount + 1)
                 && (Live(n, t.info[p], 0) <==> t.info[p].lo == None)
                 && forall key :: In(key, t.info[p]) && t.info[p].lo.Some? ==>
                      ChildSlot(n.entries, key, 1, n.keyCount) > 0
  {
    StatesStart(nodeCapacity, leafCapacity, ops);
    var t := States(nodeCapacity, leafCapacity, ops);
    if p in t.info && t.info[p].level > 0 {
      SharedChildDead(t, p);
    }
  }

  lemma {:induction false} StatesStart(nodeCapacity: nat, leafCapacity: nat, ops: seq<Op>)
    requires nodeCapacity >= 2 && leafCapacity >= 2
    ensures NodesStartAtBound(States(nodeCapacity, leafCapacity, ops))
  {
    if ops != [] {
      var n := |ops| - 1;
      var before := States(nodeCapacity, leafCapacity, ops[..n]);
      StatesStart(nodeCapacity, leafCapacity, ops[..n]);
      assert ops[..n + 1] == ops;
      StatesMore(nodeCapacity, leafCapacity, ops, n);
      hide Good, States, NodesStartAtBound;
      match ops[n]
      case Put(key, tid) => InsertFromStart(before, before.root, None, key, tid);
      case Get(_) =>
      case Del(key) => RemovedStart(before, key);
    }
  }

  lemma RoutesKept(t: Index, t': Index)
    requires Good(t) && Good(t') && SameLeaves(t, t')
    ensures forall key :: Route(t'.pages, t'.root, t'.height, key) == Route(t.pages, t.root, t.height, key)
  {
    forall key ensures Route(t'.pages, t'.root, t'.height, key) == Route(t.pages, t.root, t.height, key) {
      SameLeafPage(t, t', key, LeafPage(t', key));
    }
  }
}
