/** What runs leave behind: when the chain of leaves is whole, and which erased keys are seen. */
module BTreeHistories {
  import opened Basics
  import opened EntriesHelper
  import opened BTreePages
  import opened BTreeIndex
  import opened BTreeRange
  import opened BTreeSize
  import opened BTreeEffects
  import opened BTreeSteps
  import opened BTreeRuns
  import opened Tree

  // ----- the chain of leaves

  /** Operation i splits a leaf that has a successor. */
  ghost predicate Cuts(nodeCapacity: nat, leafCapacity: nat, ops: seq<Op>, i: nat)
    requires nodeCapacity >= 2 && leafCapacity >= 2 && i < |ops|
  {
    ops[i].Put? && CutsChain(States(nodeCapacity, leafCapacity, ops[..i]), ops[i].key)
  }

  ghost predicate NeverCuts(nodeCapacity: nat, leafCapacity: nat, ops: seq<Op>)
    requires nodeCapacity >= 2 && leafCapacity >= 2
  {
    forall i :: 0 <= i < |ops| ==> !Cuts(nodeCapacity, leafCapacity, ops, i)
  }

  lemma NeverCutsMore(nodeCapacity: nat, leafCapacity: nat, ops: seq<Op>, n: nat)
    requires nodeCapacity >= 2 && leafCapacity >= 2 && |ops| == n + 1
    ensures NeverCuts(nodeCapacity, leafCapacity, ops)
      <==> NeverCuts(nodeCapacity, leafCapacity, ops[..n]) && !Cuts(nodeCapacity, leafCapacity, ops, n)
  {
    forall i | 0 <= i < n
      ensures Cuts(nodeCapacity, leafCapacity, ops[..n], i) <==> Cuts(nodeCapacity, leafCapacity, ops, i)
    {
      assert ops[..n][..i] == ops[..i];
    }
    hide Cuts;
  }

  /** After any operations the chain is complete exactly when none of them split a leaf that had a successor. */
  lemma {:induction false} CompleteIffNeverCut(nodeCapacity: nat, leafCapacity: nat, ops: seq<Op>)
    requires nodeCapacity >= 2 && leafCapacity >= 2
    ensures ChainComplete(States(nodeCapacity, leafCapacity, ops)) <==> NeverCuts(nodeCapacity, leafCapacity, ops)
    ensures ChainComplete(States(nodeCapacity, leafCapacity, ops)) || Broken(States(nodeCapacity, leafCapacity, ops))
  {
    hide States, ChainComplete, Broken, CutsChain, After, Good;
    if ops == [] {
      NoOps(nodeCapacity, leafCapacity);
      EmptyComplete(nodeCapacity, leafCapacity);
    } else {
      var n := |ops| - 1;
      var before := States(nodeCapacity, leafCapacity, ops[..n]);
      CompleteIffNeverCut(nodeCapacity, leafCapacity, ops[..n]);
      assert ops[..n + 1] == ops;
      StatesMore(nodeCapacity, leafCapacity, ops, n);
      AfterChain(before, ops[n]);
      NeverCutsMore(nodeCapacity, leafCapacity, ops, n);
      BrokenIsIncomplete(States(nodeCapacity, leafCapacity, ops));
    }
  }

  /** After any operations every previous pointer leads to a leaf on the left, and only the leftmost leaf has none. */
  lemma {:induction false} PreviousAlwaysLeads(nodeCapacity: nat, leafCapacity: nat, ops: seq<Op>)
    requires nodeCapacity >= 2 && leafCapacity >= 2
    ensures PreviousOk(States(nodeCapacity, leafCapacity, ops))
  {
    if ops == [] {
      NoOps(nodeCapacity, leafCapacity);
      assert PreviousLeads(Empty(nodeCapacity, leafCapacity), 0);
    } else {
      var n := |ops| - 1;
      var before := States(nodeCapacity, leafCapacity, ops[..n]);
      PreviousAlwaysLeads(nodeCapacity, leafCapacity, ops[..n]);
      assert ops[..n + 1] == ops;
      StatesMore(nodeCapacity, leafCapacity, ops, n);
      hide Good, States, PreviousOk;
      match ops[n]
      case Put(key, tid) => InsertedPrevious(before, key, tid);
      case Get(_) =>
      case Del(key) => RemovedPrevious(before, key);
    }
  }

  lemma EmptyComplete(nodeCapacity: nat, leafCapacity: nat)
    ensures ChainComplete(Empty(nodeCapacity, leafCapacity))
  {
    assert LinkComplete(Empty(nodeCapacity, leafCapacity), 0);
  }

  lemma AfterChain(t: Index, op: Op)
    requires Good(t)
    ensures ChainComplete(t) ==> (ChainComplete(After(t, op)) <==> !(op.Put? && CutsChain(t, op.key)))
    ensures Broken(t) || (op.Put? && CutsChain(t, op.key)) ==> Broken(After(t, op))
  {
    hide Good, ChainComplete, Broken, CutsChain, Inserted, Removed;
    match op
    case Put(key, tid) =>
      InsertedEffect(t, key, tid);
      if Broken(t) || CutsChain(t, key) {
        InsertedBreaks(t, key, tid);
      }
    case Get(_) =>
    case Del(key) =>
      RemovedKeepsChain(t, key);
  }

  /** So after inserts and lookups alone, all range lookups are complete exactly when no insert split a leaf that had a
      successor. */
  lemma RangesCompleteIffNoCut(nodeCapacity: nat, leafCapacity: nat, ops: seq<Op>)
    requires nodeCapacity >= 2 && leafCapacity >= 2 && forall i :: 0 <= i < |ops| ==> !ops[i].Del?
    ensures var t := States(nodeCapacity, leafCapacity, ops);
            (forall begin, end :: FindsAll(t, begin, end)) <==> NeverCuts(nodeCapacity, leafCapacity, ops)
  {
    hide States, NeverCuts, ChainComplete, FindsAll, Good;
    CompleteIffNeverCut(nodeCapacity, leafCapacity, ops);
    NothingErased(nodeCapacity, leafCapacity, ops);
    RangesCompleteIffNeverCut(States(nodeCapacity, leafCapacity, ops));
  }

  lemma NothingErased(nodeCapacity: nat, leafCapacity: nat, ops: seq<Op>)
    requires nodeCapacity >= 2 && leafCapacity >= 2 && forall i :: 0 <= i < |ops| ==> !ops[i].Del?
    ensures States(nodeCapacity, leafCapacity, ops).erased == {}
  {
    StatesErased(nodeCapacity, leafCapacity, ops);
    hide States;
    var erased := States(nodeCapacity, leafCapacity, ops).erased;
    forall k ensures k !in erased {
      if Del(k) in ops {
        assert false;
      }
    }
  }

  // ----- runs of inserts in increasing order

  /** All operations store keys, each above the one before. */
  ghost predicate Rising(ops: seq<Op>) {
    && (forall i :: 0 <= i < |ops| ==> ops[i].Put?)
    && (forall i, j :: 0 <= i < j < |ops| ==> ops[i].key < ops[j].key)
  }

  /** The map stores just what the operations put. */
  ghost predicate StoresAll(model: map<int, nat>, ops: seq<Op>) {
    && (forall i :: 0 <= i < |ops| ==> ops[i].Put? && ops[i].key in model && model[ops[i].key] == ops[i].tid)
    && (forall k :: k in model ==> exists i :: 0 <= i < |ops| && ops[i].key == k)
  }

  /** They never cut the chain, so all range lookups are complete. */
  lemma RisingComplete(nodeCapacity: nat, leafCapacity: nat, ops: seq<Op>)
    requires nodeCapacity >= 2 && leafCapacity >= 2 && Rising(ops)
    ensures var t := States(nodeCapacity, leafCapacity, ops);
            ChainComplete(t) && StoresAll(t.model, ops) && forall begin, end :: FindsAll(t, begin, end)
  {
    hide States, ChainComplete, FindsAll, Good, StoresAll;
    RisingStates(nodeCapacity, leafCapacity, ops);
    RangesCompleteIffNeverCut(States(nodeCapacity, leafCapacity, ops));
  }

  lemma {:induction false} RisingStates(nodeCapacity: nat, leafCapacity: nat, ops: seq<Op>)
    requires nodeCapacity >= 2 && leafCapacity >= 2 && Rising(ops)
    ensures var t := States(nodeCapacity, leafCapacity, ops);
            ChainComplete(t) && t.erased == {} && StoresAll(t.model, ops)
  {
    NoOps(nodeCapacity, leafCapacity);
    EmptyComplete(nodeCapacity, leafCapacity);
    hide States, ChainComplete, CutsChain, Good, Inserted;
    if ops != [] {
      var n := |ops| - 1;
      var before := States(nodeCapacity, leafCapacity, ops[..n]);
      RisingStates(nodeCapacity, leafCapacity, ops[..n]);
      assert ops[..n + 1] == ops;
      StatesMore(nodeCapacity, leafCapacity, ops, n);
      RisingInsert(before, ops, n);
    }
  }

  lemma RisingInsert(t: Index, ops: seq<Op>, n: nat)
    requires Rising(ops) && |ops| == n + 1 && Good(t) && ChainComplete(t) && t.erased == {} &&
             StoresAll(t.model, ops[..n])
    ensures var t' := After(t, ops[n]);
            ChainComplete(t') && t'.erased == {} && StoresAll(t'.model, ops)
  {
    hide ChainComplete, CutsChain, Good, Inserted, Ghosted;
    var key, tid := ops[n].key, ops[n].tid;
    forall k | k in t.model ensures k < key {
      var i :| 0 <= i < n && ops[..n][i].key == k;
      assert ops[i].key == k;
    }
    AscendingKeepsChain(t, key);
    NeverErased(t, key);
    InsertedGood(t, key, tid);
    InsertedEffect(t, key, tid);
    StoresOneMore(t.model, ops, n);
  }

  lemma StoresOneMore(model: map<int, nat>, ops: seq<Op>, n: nat)
    requires Rising(ops) && |ops| == n + 1 && StoresAll(model, ops[..n])
    ensures StoresAll(model[ops[n].key := ops[n].tid], ops)
  {
    var model' := model[ops[n].key := ops[n].tid];
    forall k | k in model' ensures exists i :: 0 <= i < |ops| && ops[i].key == k {
      if k == ops[n].key {
        assert ops[n].key == k;
      } else {
        var i :| 0 <= i < n && ops[..n][i].key == k;
        assert ops[i].key == k;
      }
    }
    forall i | 0 <= i < n ensures ops[i].key in model && model[ops[i].key] == ops[i].tid {
      assert ops[..n][i] == ops[i];
    }
  }

  /** The TIDs of the keys of [begin, end], in the order of the keys. */
  function Select(keys: seq<int>, tids: seq<nat>, begin: int, end: int): (seq<int>, seq<nat>)
    requires |keys| == |tids|
  {
    if keys == [] then ([], [])
    else
      var n := |keys| - 1;
      var (ks, ts) := Select(keys[..n], tids[..n], begin, end);
      if begin <= keys[n] <= end then (ks + [keys[n]], ts + [tids[n]]) else (ks, ts)
  }

  lemma HitsMore(model: map<int, nat>, begin: int, end: int, keys: seq<int>, tids: seq<nat>, key: int)
    requires Hits(model, begin, end, keys, tids) && begin <= key <= end && key in model
    requires forall k :: k in keys ==> k < key
    ensures Hits(model, begin, end, keys + [key], tids + [model[key]])
  {
    forall i | 0 <= i < |keys| ensures keys[i] < key {
      assert keys[i] in keys;
    }
  }

  lemma {:induction false} SelectHits(model: map<int, nat>, keys: seq<int>, tids: seq<nat>, begin: int, end: int)
    requires |keys| == |tids| && Ascending(keys)
    requires forall i :: 0 <= i < |keys| ==> keys[i] in model && model[keys[i]] == tids[i]
    ensures var (ks, ts) := Select(keys, tids, begin, end);
            Hits(model, begin, end, ks, ts) && forall k :: k in ks <==> k in keys && begin <= k <= end
  {
    if keys != [] {
      var n := |keys| - 1;
      SelectHits(model, keys[..n], tids[..n], begin, end);
      assert keys == keys[..n] + [keys[n]];
      var (ks, ts) := Select(keys[..n], tids[..n], begin, end);
      if begin <= keys[n] <= end {
        HitsMore(model, begin, end, ks, ts, keys[n]);
        assert Select(keys, tids, begin, end) == (ks + [keys[n]], ts + [tids[n]]);
      } else {
        assert Select(keys, tids, begin, end) == (ks, ts);
      }
    }
  }

  /** Stores keys with their TIDs, one after the other. */
  function Puts(keys: seq<int>, tids: seq<nat>): seq<Op>
    requires |keys| == |tids|
  {
    seq(|keys|, i requires 0 <= i < |keys| => Put(keys[i], tids[i]))
  }

  /** After inserting keys in increasing order, a range lookup returns exactly the TIDs of the range, in key order. */
  method ScanAfterAscending(nodeCapacity: nat, leafCapacity: nat, keys: seq<int>, tids: seq<nat>, begin: int, end: int)
    returns (found: seq<nat>)
    requires nodeCapacity >= 2 && leafCapacity >= 2 && |keys| == |tids| && Ascending(keys)
    ensures found == Select(keys, tids, begin, end).1
    ensures var t := States(nodeCapacity, leafCapacity, Puts(keys, tids));
            TidsInOrder(t.model, ReachedInRange(t, begin, end), found)
  {
    hide Good, States, After, Misled, Empty, Apply, ApplyAll, ReachedInRange, TidsInOrder, ChainComplete;
    var ops := Puts(keys, tids);
    var tree := new BTree(nodeCapacity, leafCapacity);
    NoOps(nodeCapacity, leafCapacity);
    var i := 0;
    while i < |ops|
      invariant 0 <= i <= |ops| && fresh(tree) && tree.Valid()
      invariant tree.View() == States(nodeCapacity, leafCapacity, ops[..i])
    {
      StatesMore(nodeCapacity, leafCapacity, ops, i);
      var answer := Perform(tree, ops[i]);
      i := i + 1;
    }
    assert ops[..|ops|] == ops;
    found := tree.LookupRange(begin, end);
    SelectScan(nodeCapacity, leafCapacity, keys, tids, begin, end, found);
  }

  lemma PutsStored(model: map<int, nat>, keys: seq<int>, tids: seq<nat>)
    requires |keys| == |tids| && StoresAll(model, Puts(keys, tids))
    ensures forall k :: k in keys <==> k in model
    ensures forall i :: 0 <= i < |keys| ==> keys[i] in model && model[keys[i]] == tids[i]
  {
    var ops := Puts(keys, tids);
    forall k | k in model ensures k in keys {
      var i :| 0 <= i < |ops| && ops[i].key == k;
      assert keys[i] == k;
    }
    forall i | 0 <= i < |keys| ensures keys[i] in model && model[keys[i]] == tids[i] {
      assert ops[i] == Put(keys[i], tids[i]);
    }
  }

  lemma SelectScan(nodeCapacity: nat, leafCapacity: nat, keys: seq<int>, tids: seq<nat>, begin: int, end: int,
                   found: seq<nat>)
    requires nodeCapacity >= 2 && leafCapacity >= 2 && |keys| == |tids| && Ascending(keys)
    requires var t := States(nodeCapacity, leafCapacity, Puts(keys, tids));
             TidsInOrder(t.model, ReachedInRange(t, begin, end), found)
    ensures found == Select(keys, tids, begin, end).1
  {
    RisingComplete(nodeCapacity, leafCapacity, Puts(keys, tids));
    var t := States(nodeCapacity, leafCapacity, Puts(keys, tids));
    hide States, Select, TidsInOrder, ReachedInRange, ChainComplete, Hits, StoresAll, Puts, Good, Ascending;
    assert FindsAll(t, begin, end);
    PutsStored(t.model, keys, tids);
    SelectHits(t.model, keys, tids, begin, end);
    var (ks, ts) := Select(keys, tids, begin, end);
    HitsInOrder(t.model, begin, end, ks, ts, InRange(t, begin, end));
    TidsUnique(t.model, InRange(t, begin, end), found, ts);
  }

  // ----- which erased keys are seen

  /** What every operation does to the slots behind the entries of a key's leaf: an insert takes the first one away, an
      erasure puts the largest stored key of the leaf in front. */
  lemma ShownAfter(t: Index, op: Op, k: int, v: nat, d: nat)
    requires Good(t)
    ensures Good(After(t, op))
    ensures Shown(After(t, op), k, v, d)
      <==> match op
           case Put(key, _) =>
             if Refused(t, key) || LeafPage(t, k) != LeafPage(t, key) then Shown(t, k, v, d) else Shown(t, k, v, d + 1)
           case Get(_) => Shown(t, k, v, d)
           case Del(key) =>
             if key !in t.model || LeafPage(t, k) != LeafPage(t, key) then Shown(t, k, v, d)
             else if d == 0 then Largest(t, k) && t.model[k] == v else Shown(t, k, v, d - 1)
  {
    hide Good, Inserted, Removed, Refused, Largest, Shown, LeafPage;
    match op
    case Put(key, tid) => InsertedShows(t, key, tid, k, v, d);
    case Get(_) =>
    case Del(key) => RemovedShows(t, key, k, v, d);
  }

  /** So an erasure shows its own key, if that was the largest of its leaf, and hides the others of the leaf; an insert
      brings a key back that was one slot further behind, if no larger key is stored in the leaf. Each comes with the
      TID it had. */
  lemma SeenAfter(t: Index, op: Op, k: int, v: nat)
    requires Good(t)
    ensures Good(After(t, op))
    ensures Seen(After(t, op), k, v)
      <==> match op
           case Put(key, _) =>
             if Refused(t, key) || LeafPage(t, k) != LeafPage(t, key) then Seen(t, k, v)
             else key < k && Shown(t, k, v, 1) && forall j :: InLeafOf(t, k, j) ==> j < k
           case Get(_) => Seen(t, k, v)
           case Del(key) =>
             if key !in t.model || LeafPage(t, k) != LeafPage(t, key) then Seen(t, k, v)
             else k == key && Largest(t, k) && t.model[k] == v
  {
    hide Good, Inserted, Removed, Refused, Largest, Shown, LeafPage, Seen;
    match op
    case Put(key, tid) => SeenAfterInsert(t, key, tid, k, v);
    case Get(_) =>
    case Del(key) => SeenAfterErase(t, key, k, v);
  }

  // ----- runs in a single leaf

  ghost predicate OneLeaf(t: Index) {
    Good(t) && t.height == 0
  }

  lemma OnlyOneLeaf(t: Index)
    requires OneLeaf(t)
    ensures IsOuter(t, t.root) && forall k :: LeafPage(t, k) == t.root
    ensures forall k, j :: InLeafOf(t, k, j) <==> j in t.model
    ensures t.pages[t.root].leaf.keyCount <= |t.model|
    ensures t.model != map[] ==> 0 < t.pages[t.root].leaf.keyCount
  {
    forall k ensures LeafPage(t, k) == t.root {
      RootAnswersForAll(t, k);
      OnlyLeaf(t, t.root, k);
    }
    RootAnswersForAll(t, 0);
    NextLeaf(t, t.root);
    LeafKeyCount(t.pages[t.root].leaf, t.pages[t.root].leaf.keyCount, t.model.Keys);
    forall k, j ensures InLeafOf(t, k, j) <==> j in t.model {
      StoredInLeaf(t, k, j);
      RootAnswersForAll(t, j);
    }
    if t.pages[t.root].leaf.keyCount == 0 {
      forall k ensures k !in t.model {
        assert !InLeafOf(t, k, k);
      }
      assert t.model == map[];
    }
  }

  lemma GhostedRefuses(t: Index, k: int)
    requires OneLeaf(t)
    ensures Refused(t, k) <==> k in t.model || (Ghosted(t, k) && t.pages[LeafPage(t, k)].leaf.keyCount > 0)
  {
  }

  lemma SeenInOne(t: Index, k: int, v: nat)
    requires OneLeaf(t)
    ensures Seen(t, k, v) <==> Shown(t, k, v, 0) && forall j :: j in t.model ==> j < k
    ensures k !in t.model && k !in t.erased ==> !Refused(t, k)
    ensures Ghosted(t, k) && t.model != map[] ==> Refused(t, k)
  {
    OnlyOneLeaf(t);
    SeenIff(t, k, v);
    hide Good, LeafPage, Shown, InLeafOf, Ghosted, Seen;
    GhostedRefuses(t, k);
    if k !in t.erased {
      NeverErased(t, k);
    }
    assert forall j :: j in t.model ==> InLeafOf(t, k, j);
  }

  /** A new key in a leaf with room. */
  lemma PutInOne(t: Index, key: int, tid: nat)
    requires OneLeaf(t) && |t.model| < t.leafCapacity && key !in t.model && key !in t.erased
    ensures !Refused(t, key)
    ensures var t' := Inserted(t, key, tid);
            && OneLeaf(t') && t'.leafCapacity == t.leafCapacity && t'.erased == t.erased
            && t'.model == t.model[key := tid]
            && forall k, v: nat, d: nat :: Shown(t', k, v, d) <==> Shown(t, k, v, d + 1)
  {
    hide Good, LeafPage, Shown, InLeafOf, Ghosted, Refused, SplitReady;
    SeenInOne(t, key, 0);
    OnlyOneLeaf(t);
    RootAnswersForAll(t, key);
    InsertedGood(t, key, tid);
    InsertedEffect(t, key, tid);
    InsertWithRoom(t, t.root, None, key, tid);
    forall k, v: nat, d: nat ensures Shown(Inserted(t, key, tid), k, v, d) <==> Shown(t, k, v, d + 1) {
      InsertedShows(t, key, tid, k, v, d);
    }
  }

  lemma DeleteInOne(t: Index, key: int)
    requires OneLeaf(t) && key in t.model
    ensures var t' := Removed(t, key);
            && OneLeaf(t') && t'.leafCapacity == t.leafCapacity && t'.erased == t.erased + {key}
            && t'.model == t.model - {key}
            && (forall k, v: nat :: Shown(t', k, v, 0)
                                    <==> k in t.model && t.model[k] == v && forall j :: j in t.model ==> j <= k)
            && (forall k, v: nat, d: nat :: Shown(t', k, v, d + 1) <==> Shown(t, k, v, d))
  {
    OnlyOneLeaf(t);
    hide Good, LeafPage, Shown, Ghosted, Largest;
    RemovedGood(t, key);
    var t' := Removed(t, key);
    forall k, v: nat
      ensures Shown(t', k, v, 0) <==> k in t.model && t.model[k] == v && forall j :: j in t.model ==> j <= k
    {
      RemovedShows(t, key, k, v, 0);
      LargestInOne(t, k);
    }
    forall k, v: nat, d: nat ensures Shown(t', k, v, d + 1) <==> Shown(t, k, v, d) {
      RemovedShows(t, key, k, v, d + 1);
    }
  }

  lemma LargestInOne(t: Index, k: int)
    requires OneLeaf(t)
    ensures Largest(t, k) <==> k in t.model && forall j :: j in t.model ==> j <= k
  {
    OnlyOneLeaf(t);
    var leaf := t.pages[LeafPage(t, k)].leaf;
    forall j ensures leaf.HasKey(j) <==> j in t.model {
      assert leaf.HasKey(j) <==> InLeafOf(t, k, j);
    }
    hide Leaf.HasKey;
    assert forall j :: j in t.model ==> leaf.HasKey(j);
  }

  lemma NewIsOneLeaf(nodeCapacity: nat, leafCapacity: nat)
    requires nodeCapacity >= 2 && leafCapacity >= 2
    ensures OneLeaf(Empty(nodeCapacity, leafCapacity))
  {
    EmptyGood(nodeCapacity, leafCapacity);
  }

  /** One operation on a tree that is one leaf. */
  method PutNew(tree: BTree, key: int, tid: nat)
    requires OneLeaf(tree.View()) && key !in tree.model && key !in tree.erased && |tree.model| < tree.maxLeafCapacity
    modifies tree
    ensures OneLeaf(tree.View()) && tree.model == old(tree.model)[key := tid] && tree.erased == old(tree.erased)
    ensures forall k, v: nat, d: nat :: Shown(tree.View(), k, v, d) <==> Shown(old(tree.View()), k, v, d + 1)
  {
    hide Good, Inserted, LeafPage, Refused, Shown, CutsChain, ChainComplete;
    PutInOne(tree.View(), key, tid);
    var r := tree.Insert(key, tid);
  }

  method EraseStored(tree: BTree, key: int)
    requires OneLeaf(tree.View()) && key in tree.model
    modifies tree
    ensures OneLeaf(tree.View()) && tree.model == old(tree.model) - {key} && tree.erased == old(tree.erased) + {key}
    ensures forall k, v: nat ::
      Shown(tree.View(), k, v, 0)
      <==> k in old(tree.model) && old(tree.model)[k] == v && forall j :: j in old(tree.model) ==> j <= k
    ensures forall k, v: nat, d: nat :: Shown(tree.View(), k, v, d + 1) <==> Shown(old(tree.View()), k, v, d)
  {
    hide Good, Removed, LeafPage, Ghosted, Shown, ChainComplete, InLeafOf;
    DeleteInOne(tree.View(), key);
    var r := tree.Erase(key);
  }

  /** The erased largest key of a leaf is still found, its erasure cannot be repeated and it cannot be inserted
      again. */
  method ComingBack() returns (found: Option<nat>, again: Result<()>, refused: Result<()>)
    ensures found == Some(20) && again == Failure(MemoryFault) && refused == Failure(KeyExists)
  {
    hide Good, Inserted, Removed, LeafPage, Refused, Ghosted, Shown, TidBehind, CutsChain, ChainComplete, Empty,
         InLeafOf;
    NewIsOneLeaf(2, 4);
    var tree := new BTree(2, 4);
    PutNew(tree, 1, 10);
    PutNew(tree, 2, 20);
    EraseStored(tree, 2);
    SeenInOne(tree.View(), 2, 20);
    found := tree.Lookup(2);
    again := tree.Erase(2);
    assert 1 in tree.model;
    refused := tree.Insert(2, 21);
  }

  method FourKeys() returns (tree: BTree)
    ensures fresh(tree) && OneLeaf(tree.View()) && tree.maxLeafCapacity == 4 && tree.erased == {}
    ensures tree.model == map[1 := 10, 2 := 20, 3 := 30, 4 := 40]
  {
    hide Good, Shown, Empty, OneLeaf;
    NewIsOneLeaf(2, 4);
    tree := new BTree(2, 4);
    assert |tree.model| == 0;
    PutNew(tree, 1, 10);
    assert |tree.model| == 1;
    PutNew(tree, 2, 20);
    assert |tree.model| == 2;
    PutNew(tree, 3, 30);
    assert |tree.model| == 3;
    PutNew(tree, 4, 40);
  }

  /** A second erasure hides the key that the first one showed. */
  method EraseTwo(tree: BTree) returns (seen: Option<nat>, hidden: Option<nat>)
    requires OneLeaf(tree.View()) && tree.model == map[1 := 10, 2 := 20, 3 := 30, 4 := 40]
    modifies tree
    ensures OneLeaf(tree.View()) && tree.model == map[1 := 10, 2 := 20] && tree.erased == old(tree.erased) + {3, 4}
    ensures seen == Some(40) && hidden == None && Shown(tree.View(), 4, 40, 1)
  {
    hide Good, LeafPage, Ghosted, Shown, TidBehind, Refused;
    EraseStored(tree, 4);
    SeenInOne(tree.View(), 4, 40);
    assert Shown(tree.View(), 4, 40, 0);
    seen := tree.Lookup(4);
    EraseStored(tree, 3);
    assert Shown(tree.View(), 4, 40, 0 + 1);
    SeenInOne(tree.View(), 4, TidBehind(tree.View(), 4));
    hidden := tree.Lookup(4);
  }

  /** An insert of another key brings it back. */
  method BackAgain() returns (seen: Option<nat>, hidden: Option<nat>, seenAgain: Option<nat>)
    ensures seen == seenAgain == Some(40) && hidden == None
  {
    hide Good, LeafPage, Ghosted, Shown, TidBehind, Refused;
    var tree := FourKeys();
    seen, hidden := EraseTwo(tree);
    assert |tree.model| <= 2;
    PutNew(tree, 0, 50);
    assert Shown(tree.View(), 4, 40, 0);
    SeenInOne(tree.View(), 4, 40);
    seenAgain := tree.Lookup(4);
  }
}
