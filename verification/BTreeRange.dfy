/** The chain of leaves and what a range scan along it returns. */
module BTreeRange {
  import opened Basics
  import opened EntriesHelper
  import opened BTreePages
  import opened BTreeIndex

  ghost predicate IsLeafPage(t: Index, p: PageId) {
    p in t.info && t.info[p].level == 0 && IsOuter(t, p)
  }

  /** Leaf pages each pointing to the one after it. */
  ghost predicate IsChain(t: Index, path: seq<PageId>) {
    && |path| > 0
    && (forall i :: 0 <= i < |path| ==> IsLeafPage(t, path[i]))
    && (forall i :: 0 <= i < |path| - 1 ==> t.pages[path[i]].leaf.next == Some(path[i + 1]))
  }

  ghost predicate OnChain(t: Index, from: PageId, to: PageId) {
    exists path :: IsChain(t, path) && path[0] == from && path[|path| - 1] == to
  }

  /** Every key right of a leaf is found by following the chain: no split cut it. */
  ghost predicate ChainComplete(t: Index) {
    forall p {:trigger LinkComplete(t, p)} :: p in t.info && t.info[p].level == 0 ==> LinkComplete(t, p)
  }

  ghost predicate LinkComplete(t: Index, p: PageId)
    requires p in t.info
  {
    && IsOuter(t, p)
    && var next := t.pages[p].leaf.next;
       if next == None then t.info[p].hi == None
       else next.value in t.info && t.info[next.value].level == 0 && t.info[next.value].lo == t.info[p].hi
  }

  /** The next leaf lies strictly to the right. */
  lemma NextLeaf(t: Index, p: PageId)
    requires Good(t) && p in t.info && t.info[p].level == 0
    ensures IsLeafPage(t, p) && t.pages[p].leaf.keyCount < |t.pages[p].leaf.entries|
    ensures Sorted(t.pages[p].leaf.entries, 0, t.pages[p].leaf.keyCount)
    ensures forall i :: 0 <= i < t.pages[p].leaf.keyCount ==> In(t.pages[p].leaf.entries[i].key.value, t.info[p])
    ensures forall i :: 0 <= i < t.pages[p].leaf.keyCount ==>
      t.pages[p].leaf.entries[i].key.value in t.model &&
      t.model[t.pages[p].leaf.entries[i].key.value] == t.pages[p].leaf.entries[i].value
    ensures t.pages[p].leaf.next.Some? ==>
      var q := t.pages[p].leaf.next.value;
      IsLeafPage(t, q) && t.info[p].hi.Some? && t.info[q].lo.Some? && t.info[p].hi.value <= t.info[q].lo.value
  {
    assert PageOk(t, p);
    if t.pages[p].leaf.next.Some? {
      assert PageOk(t, t.pages[p].leaf.next.value);
    }
  }

  /** The leaf pages not left of p. */
  ghost function NotLeftOf(t: Index, p: PageId): set<PageId>
    requires p in t.info
  {
    set q | q in t.info && (t.info[p].lo == None || (t.info[q].lo.Some? && t.info[p].lo.value <= t.info[q].lo.value))
  }

  lemma NextIsCloser(t: Index, p: PageId)
    requires Good(t) && p in t.info && t.info[p].level == 0 && IsOuter(t, p) && t.pages[p].leaf.next.Some?
    ensures PageOk(t, p) && t.pages[p].leaf.next.value in t.info
    ensures NotLeftOf(t, t.pages[p].leaf.next.value) < NotLeftOf(t, p)
  {
    NextLeaf(t, p);
    assert PageOk(t, p);
    var q := t.pages[p].leaf.next.value;
    assert p in NotLeftOf(t, p) && p !in NotLeftOf(t, q);
  }

  // ----- the keys of a scan

  /** Stored keys of [begin, end] in strictly increasing order, with their TIDs. */
  ghost predicate Hits(model: map<int, nat>, begin: int, end: int, keys: seq<int>, tids: seq<nat>) {
    && |tids| == |keys|
    && (forall i :: 0 <= i < |keys| ==> begin <= keys[i] <= end && keys[i] in model && tids[i] == model[keys[i]])
    && (forall i, j :: 0 <= i < j < |keys| ==> keys[i] < keys[j])
  }

  ghost predicate Ascending(keys: seq<int>) {
    forall i, j :: 0 <= i < j < |keys| ==> keys[i] < keys[j]
  }

  ghost predicate SameElements(a: seq<int>, b: seq<int>) {
    forall k :: k in a <==> k in b
  }

  lemma LastIsLargest(a: seq<int>, b: seq<int>)
    requires Ascending(a) && Ascending(b) && a != [] && SameElements(a, b)
    ensures b != [] && a[|a| - 1] == b[|b| - 1]
  {
    var x := a[|a| - 1];
    assert x in a;
    var y := b[|b| - 1];
    assert y in b;
  }

  lemma WithoutLast(a: seq<int>, k: int)
    requires Ascending(a) && a != []
    ensures k in a[..|a| - 1] <==> k in a && k != a[|a| - 1]
  {
    assert a == a[..|a| - 1] + [a[|a| - 1]];
  }

  /** Ascending sequences with the same elements are equal. */
  lemma {:induction false} AscendingUnique(a: seq<int>, b: seq<int>)
    requires Ascending(a) && Ascending(b) && SameElements(a, b)
    ensures a == b
  {
    if a != [] {
      LastIsLargest(a, b);
      var a0, b0 := a[..|a| - 1], b[..|b| - 1];
      forall k ensures k in a0 <==> k in b0 {
        WithoutLast(a, k);
        WithoutLast(b, k);
      }
      AscendingUnique(a0, b0);
      assert a == a0 + [a[|a| - 1]] && b == b0 + [b[|b| - 1]];
    } else if b != [] {
      LastIsLargest(b, a);
    }
  }

  /** The keys of a set in increasing order, which is unique. */
  ghost predicate InOrder(keys: set<int>, s: seq<int>) {
    Ascending(s) && forall k :: k in s <==> k in keys
  }

  /** The TIDs of some stored keys, in the order of the keys. */
  ghost predicate TidsInOrder(model: map<int, nat>, keys: set<int>, tids: seq<nat>) {
    exists s :: InOrder(keys, s) && |tids| == |s| && forall i :: 0 <= i < |s| ==>
      s[i] in model && tids[i] == model[s[i]]
  }

  lemma TidsUnique(model: map<int, nat>, keys: set<int>, tids: seq<nat>, other: seq<nat>)
    requires TidsInOrder(model, keys, tids) && TidsInOrder(model, keys, other)
    ensures tids == other
  {
    var s :| InOrder(keys, s) && |tids| == |s| && forall i :: 0 <= i < |s| ==> s[i] in model && tids[i] == model[s[i]];
    var r :| InOrder(keys, r) && |other| == |r| && forall i :: 0 <= i < |r| ==>
      r[i] in model && other[i] == model[r[i]];
    AscendingUnique(s, r);
  }

  lemma HitsInOrder(model: map<int, nat>, begin: int, end: int, keys: seq<int>, tids: seq<nat>, all: set<int>)
    requires Hits(model, begin, end, keys, tids) && forall k :: k in keys <==> k in all
    ensures TidsInOrder(model, all, tids)
  {
    assert InOrder(all, keys);
  }

  /** The stored keys of a range. */
  ghost function InRange(t: Index, begin: int, end: int): set<int> {
    set k | k in t.model && begin <= k <= end
  }

  /** Those of them that the chain leads to from the leaf of the range's start. */
  ghost function ReachedInRange(t: Index, begin: int, end: int): set<int>
    requires Good(t)
  {
    set k | k in t.model && begin <= k <= end && OnChain(t, LeafPage(t, begin), LeafPage(t, k))
  }

  lemma NoTids(model: map<int, nat>, keys: set<int>)
    ensures TidsInOrder(model, keys, []) <==> keys == {}
  {
    assert InOrder({}, []);
    if TidsInOrder(model, keys, []) {
      var s :| InOrder(keys, s) && |s| == 0;
      assert forall k :: k in keys ==> k in s;
    }
  }

  lemma NoneReversed(t: Index, begin: int, end: int, tids: seq<nat>)
    requires Good(t) && TidsInOrder(t.model, ReachedInRange(t, begin, end), tids)
    ensures begin > end ==>
      tids == [] && (TidsInOrder(t.model, InRange(t, end, begin), tids) <==> InRange(t, end, begin) == {})
  {
    NoTids(t.model, InRange(t, end, begin));
    var s :| InOrder(ReachedInRange(t, begin, end), s) && |tids| == |s|;
    assert s == [] || s[0] in s;
  }

  predicate HitAt(leaf: Leaf, j: int, key: int, tid: nat)
    requires 0 <= j < |leaf.entries|
  {
    leaf.entries[j] == Slot(Some(key), tid)
  }

  ghost predicate HitBetween(leaf: Leaf, from: int, upto: int, key: int, tid: nat)
    requires 0 <= from <= upto <= |leaf.entries|
  {
    exists j :: from <= j < upto && HitAt(leaf, j, key, tid)
  }

  /** keys are those of [begin, end] among the entries of a leaf from a slot on. */
  ghost predicate HitsOf(leaf: Leaf, from: int, upto: int, begin: int, end: int, keys: seq<int>, tids: seq<nat>)
    requires 0 <= from <= upto <= |leaf.entries| && Sorted(leaf.entries, 0, upto)
  {
    && |tids| == |keys|
    && (forall i :: 0 <= i < |keys| ==>
      begin <= keys[i] <= end && HitBetween(leaf, from, upto, keys[i], tids[i]))
    && (forall i, j :: 0 <= i < j < |keys| ==> keys[i] < keys[j])
    && (forall j :: from <= j < upto && begin <= leaf.entries[j].key.value <= end ==> leaf.entries[j].key.value in keys)
  }

  /** The TIDs of the entries from a slot on whose keys are in [begin, end]. */
  function Picked(entries: seq<Slot>, from: int, upto: int, begin: int, end: int): seq<nat>
    requires 0 <= from <= upto <= |entries| && Sorted(entries, 0, upto)
    decreases upto
  {
    if from == upto then []
    else Picked(entries, from, upto - 1, begin, end)
         + if begin <= entries[upto - 1].key.value <= end then [entries[upto - 1].value] else []
  }

  /** Scans the entries of one leaf. */
  method ScanLeaf(leaf: Leaf, from: int, begin: int, end: int) returns (tids: seq<nat>, ghost keys: seq<int>)
    requires 0 <= from <= leaf.keyCount <= |leaf.entries| && Sorted(leaf.entries, 0, leaf.keyCount)
    ensures tids == Picked(leaf.entries, from, leaf.keyCount, begin, end)
    ensures HitsOf(leaf, from, leaf.keyCount, begin, end, keys, tids)
  {
    assert HitsOf(leaf, from, from, begin, end, [], []);
    hide HitsOf;
    tids, keys := [], [];
    var position := from;
    while position < leaf.keyCount
      invariant from <= position <= leaf.keyCount
      invariant tids == Picked(leaf.entries, from, position, begin, end)
      invariant HitsOf(leaf, from, position, begin, end, keys, tids)
    {
      var entry := leaf.entries[position];
      NextEntry(leaf, from, position, begin, end, keys, tids);
      if begin <= entry.key.value && entry.key.value <= end {
        tids, keys := tids + [entry.value], keys + [entry.key.value];
      }
      position := position + 1;
    }
  }

  lemma NextEntry(leaf: Leaf, from: int, position: int, begin: int, end: int, keys: seq<int>, tids: seq<nat>)
    requires 0 <= from <= position < leaf.keyCount <= |leaf.entries| && Sorted(leaf.entries, 0, leaf.keyCount)
    requires HitsOf(leaf, from, position, begin, end, keys, tids)
    ensures var e := leaf.entries[position];
            if begin <= e.key.value <= end
              then HitsOf(leaf, from, position + 1, begin, end, keys + [e.key.value], tids + [e.value])
            else HitsOf(leaf, from, position + 1, begin, end, keys, tids)
  {
    var e := leaf.entries[position];
    forall i | 0 <= i < |keys| ensures HitBetween(leaf, from, position + 1, keys[i], tids[i]) && keys[i] < e.key.value {
      HitEarlier(leaf, from, position, keys[i], tids[i]);
    }
    assert HitAt(leaf, position, e.key.value, e.value);
    assert HitBetween(leaf, from, position + 1, e.key.value, e.value);
    hide HitBetween, HitAt;
    if begin <= e.key.value <= end {
      assert forall k :: k in keys ==> k in keys + [e.key.value];
    }
  }

  lemma HitEarlier(leaf: Leaf, from: int, position: int, key: int, tid: nat)
    requires 0 <= from <= position < leaf.keyCount <= |leaf.entries| && Sorted(leaf.entries, 0, leaf.keyCount)
    requires HitBetween(leaf, from, position, key, tid)
    ensures HitBetween(leaf, from, position + 1, key, tid) && key < leaf.entries[position].key.value
  {
  }

  /** A complete chain leads from the leaf of a key to the leaf of every larger key. */
  lemma {:induction false} CompleteChainReaches(t: Index, p: PageId, key: int, k: int)
    requires Good(t) && ChainComplete(t) && p in t.info && t.info[p].level == 0
    requires In(key, t.info[p]) && key <= k
    ensures OnChain(t, p, LeafPage(t, k))
    decreases NotLeftOf(t, p)
  {
    NextLeaf(t, p);
    assert LinkComplete(t, p);
    if Below(k, t.info[p].hi) {
      OnlyLeaf(t, p, k);
      assert IsChain(t, [p]);
    } else {
      var q := t.pages[p].leaf.next.value;
      NextIsCloser(t, p);
      assert t.info[q].lo == t.info[p].hi;
      NextNonEmpty(t, q);
      CompleteChainReaches(t, q, t.info[q].lo.value, k);
      Prepend(t, p, q, LeafPage(t, k));
    }
  }

  lemma Prepend(t: Index, p: PageId, q: PageId, to: PageId)
    requires IsLeafPage(t, p) && t.pages[p].leaf.next == Some(q) && OnChain(t, q, to)
    ensures OnChain(t, p, to)
  {
    var path :| IsChain(t, path) && path[0] == q && path[|path| - 1] == to;
    var longer := [p] + path;
    assert IsChain(t, longer) && longer[0] == p && longer[|longer| - 1] == to;
  }

  /** The span of a page is never empty: its lower bound belongs to it. */
  lemma NextNonEmpty(t: Index, q: PageId)
    requires Good(t) && q in t.info && t.info[q].lo.Some?
    ensures In(t.info[q].lo.value, t.info[q])
  {
  }

  // ----- a scan from leaf to leaf

  /** After the leaves of a path are scanned: exactly the keys of [begin, end] that lie in them. */
  ghost predicate Scanned(t: Index, path: seq<PageId>, begin: int, end: int, keys: seq<int>, tids: seq<nat>)
    requires Good(t)
  {
    && IsChain(t, path) && Hits(t.model, begin, end, keys, tids)
    && (forall k :: k in keys ==> LeafPage(t, k) in path)
    && (forall k :: k in t.model && begin <= k <= end && LeafPage(t, k) in path ==> k in keys)
  }

  lemma ScannedHits(t: Index, path: seq<PageId>, begin: int, end: int, keys: seq<int>, tids: seq<nat>)
    requires Good(t) && Scanned(t, path, begin, end, keys, tids)
    ensures Hits(t.model, begin, end, keys, tids)
  {
  }

  /** The first leaf, entered at a position before which every key is below the range. */
  lemma ScanStarts(t: Index, p: PageId, from: int, begin: int, end: int, keys: seq<int>, tids: seq<nat>)
    requires Good(t) && IsLeafPage(t, p)
    requires 0 <= from <= t.pages[p].leaf.keyCount < |t.pages[p].leaf.entries|
    requires Sorted(t.pages[p].leaf.entries, 0, t.pages[p].leaf.keyCount)
    requires AllSmaller(t.pages[p].leaf.entries, 0, from, begin) || begin > end
    requires HitsOf(t.pages[p].leaf, from, t.pages[p].leaf.keyCount, begin, end, keys, tids)
    ensures Scanned(t, [p], begin, end, keys, tids)
  {
    LeafHits(t, p, from, begin, end, keys, tids);
  }

  lemma LeafHits(t: Index, p: PageId, from: int, begin: int, end: int, keys: seq<int>, tids: seq<nat>)
    requires Good(t) && IsLeafPage(t, p)
    requires 0 <= from <= t.pages[p].leaf.keyCount < |t.pages[p].leaf.entries|
    requires Sorted(t.pages[p].leaf.entries, 0, t.pages[p].leaf.keyCount)
    requires AllSmaller(t.pages[p].leaf.entries, 0, from, begin) || begin > end
    requires HitsOf(t.pages[p].leaf, from, t.pages[p].leaf.keyCount, begin, end, keys, tids)
    ensures Hits(t.model, begin, end, keys, tids)
    ensures forall k :: k in keys ==> In(k, t.info[p]) && LeafPage(t, k) == p
    ensures forall k :: k in t.model && begin <= k <= end && LeafPage(t, k) == p ==> k in keys
  {
    NextLeaf(t, p);
    var leaf := t.pages[p].leaf;
    forall i | 0 <= i < |keys|
      ensures In(keys[i], t.info[p]) && LeafPage(t, keys[i]) == p && keys[i] in t.model && tids[i] == t.model[keys[i]]
    {
      assert HitBetween(leaf, from, leaf.keyCount, keys[i], tids[i]);
      var j :| from <= j < leaf.keyCount && HitAt(leaf, j, keys[i], tids[i]);
      OnlyLeaf(t, p, keys[i]);
    }
    forall k | k in t.model && begin <= k <= end && LeafPage(t, k) == p ensures k in keys {
      RoutedLeaf(t, p, k);
      assert leaf.HasKey(k);
      var j :| 0 <= j < leaf.keyCount && leaf.entries[j].key == Some(k);
    }
  }

  /** Going on to the next leaf keeps the order and adds exactly its keys. */
  lemma ScanContinues(t: Index, path: seq<PageId>, begin: int, end: int, keys: seq<int>, tids: seq<nat>,
                      q: PageId, more: seq<int>, moreTids: seq<nat>)
    requires Good(t) && Scanned(t, path, begin, end, keys, tids)
    requires t.pages[path[|path| - 1]].leaf.next == Some(q) && IsLeafPage(t, q)
    requires t.pages[q].leaf.keyCount < |t.pages[q].leaf.entries| &&
             Sorted(t.pages[q].leaf.entries, 0, t.pages[q].leaf.keyCount)
    requires HitsOf(t.pages[q].leaf, 0, t.pages[q].leaf.keyCount, begin, end, more, moreTids)
    ensures Scanned(t, path + [q], begin, end, keys + more, tids + moreTids)
  {
    LeafHits(t, q, 0, begin, end, more, moreTids);
    var longer := path + [q];
    assert IsChain(t, longer);
    ScanRises(t, path, q, keys, more);
    HitsJoin(t.model, begin, end, keys, tids, more, moreTids);
    var all := keys + more;
    forall k | k in all ensures LeafPage(t, k) in longer {
      if k in more {
        assert LeafPage(t, k) == longer[|path|];
      }
    }
    forall k | k in t.model && begin <= k <= end && LeafPage(t, k) in longer ensures k in all {
      if LeafPage(t, k) !in path {
        assert LeafPage(t, k) == q;
      }
    }
  }

  lemma HitsJoin(model: map<int, nat>, begin: int, end: int, keys: seq<int>, tids: seq<nat>, more: seq<int>,
                 moreTids: seq<nat>)
    requires Hits(model, begin, end, keys, tids) && Hits(model, begin, end, more, moreTids)
    requires forall i, j :: 0 <= i < |keys| && 0 <= j < |more| ==> keys[i] < more[j]
    ensures Hits(model, begin, end, keys + more, tids + moreTids)
  {
  }

  lemma ScanRises(t: Index, path: seq<PageId>, q: PageId, keys: seq<int>, more: seq<int>)
    requires Good(t) && IsChain(t, path + [q])
    requires forall k :: k in keys ==> LeafPage(t, k) in path
    requires forall k :: k in more ==> LeafPage(t, k) == q
    ensures forall i, j :: 0 <= i < |keys| && 0 <= j < |more| ==> keys[i] < more[j]
  {
    var longer := path + [q];
    forall i, j | 0 <= i < |keys| && 0 <= j < |more| ensures keys[i] < more[j] {
      assert keys[i] in keys && more[j] in more;
      var m :| 0 <= m < |path| && path[m] == LeafPage(t, keys[i]);
      ChainRises(t, longer, m, |path|, keys[i], more[j]);
    }
  }

  /** Keys further along a chain are larger. */
  lemma {:induction false} ChainRises(t: Index, path: seq<PageId>, i: nat, j: nat, k: int, l: int)
    requires Good(t) && IsChain(t, path) && i < j < |path|
    requires In(k, t.info[path[i]]) && In(l, t.info[path[j]])
    ensures k < l
    decreases j - i
  {
    NextLeaf(t, path[i]);
    assert t.pages[path[i]].leaf.next == Some(path[i + 1]);
    if i + 1 < j {
      NextNonEmpty(t, path[i + 1]);
      ChainRises(t, path, i + 1, j, t.info[path[i + 1]].lo.value, l);
    }
  }

  /** A chain that ran to its end contains every leaf on it. */
  lemma {:induction false} WholeChain(t: Index, path: seq<PageId>, other: seq<PageId>)
    requires IsChain(t, path) && IsChain(t, other) && other[0] == path[0]
    requires t.pages[path[|path| - 1]].leaf.next == None
    ensures |other| <= |path| && other == path[..|other|]
    decreases |other|
  {
    if |other| > 1 {
      var shorter := other[..|other| - 1];
      assert IsChain(t, shorter);
      WholeChain(t, path, shorter);
      assert other[|shorter| - 1] == path[|shorter| - 1];
      assert t.pages[other[|shorter| - 1]].leaf.next == Some(other[|shorter|]);
      if |shorter| < |path| {
        assert t.pages[path[|shorter| - 1]].leaf.next == Some(path[|shorter|]);
      }
    }
  }

  /** What a finished scan has found: the keys of the range on the chain, and with a complete chain all of them. */
  lemma ScanResult(t: Index, path: seq<PageId>, begin: int, end: int, keys: seq<int>, tids: seq<nat>, left: int)
    requires Good(t) && Scanned(t, path, begin, end, keys, tids)
    requires t.pages[path[|path| - 1]].leaf.next == None
    requires path[0] == LeafPage(t, left) && left <= begin
    ensures forall k :: k in keys <==> k in t.model && begin <= k <= end && OnChain(t, path[0], LeafPage(t, k))
    ensures ChainComplete(t) ==> forall k :: k in keys <==> k in t.model && begin <= k <= end
  {
    forall k | k in t.model && begin <= k <= end
      ensures LeafPage(t, k) in path <==> OnChain(t, path[0], LeafPage(t, k))
      ensures ChainComplete(t) ==> OnChain(t, path[0], LeafPage(t, k))
    {
      PathIsChain(t, path, LeafPage(t, k));
      if ChainComplete(t) {
        CompleteChainReaches(t, path[0], left, k);
      }
    }
  }

  lemma PathIsChain(t: Index, path: seq<PageId>, q: PageId)
    requires IsChain(t, path) && t.pages[path[|path| - 1]].leaf.next == None
    ensures q in path <==> OnChain(t, path[0], q)
  {
    if q in path {
      var m :| 0 <= m < |path| && path[m] == q;
      var part := path[..m + 1];
      assert IsChain(t, part) && part[0] == path[0] && part[|part| - 1] == q;
    }
    if OnChain(t, path[0], q) {
      var other :| IsChain(t, other) && other[0] == path[0] && other[|other| - 1] == q;
      WholeChain(t, path, other);
    }
  }

  // ----- when a range lookup finds everything

  /** No stored key lies between a leaf's span and where its next pointer leads. */
  ghost predicate NoKeySkipped(t: Index, p: PageId)
    requires p in t.info && IsOuter(t, p)
  {
    forall k :: k in t.model && !Below(k, t.info[p].hi) ==>
      var next := t.pages[p].leaf.next;
      && next.Some? && next.value in t.info
      && (t.info[next.value].lo.Some? ==> t.info[next.value].lo.value <= k)
  }

  /** The chain passes by no stored key. */
  ghost predicate KeysLinked(t: Index) {
    forall p {:trigger NoKeySkipped(t, p)} :: p in t.info && t.info[p].level == 0 ==>
      IsOuter(t, p) && NoKeySkipped(t, p)
  }

  ghost predicate FindsAll(t: Index, begin: int, end: int)
    requires Good(t)
  {
    ReachedInRange(t, begin, end) == InRange(t, begin, end)
  }

  /** Every range lookup finds all stored keys of its range exactly when the chain passes by no stored key. */
  lemma RangesCompleteIff(t: Index)
    requires Good(t)
    ensures KeysLinked(t) <==> forall begin, end :: FindsAll(t, begin, end)
  {
    if KeysLinked(t) {
      forall begin, end ensures FindsAll(t, begin, end) {
        forall k | k in InRange(t, begin, end) ensures k in ReachedInRange(t, begin, end) {
          LinkedKeysReached(t, LeafPage(t, begin), begin, k);
        }
      }
    }
    if forall begin, end :: FindsAll(t, begin, end) {
      forall p | p in t.info && t.info[p].level == 0 ensures IsOuter(t, p) && NoKeySkipped(t, p) {
        KindOfPage(t, p);
        forall k | k in t.model && !Below(k, t.info[p].hi)
          ensures var next := t.pages[p].leaf.next;
                  && next.Some? && next.value in t.info
                  && (t.info[next.value].lo.Some? ==> t.info[next.value].lo.value <= k)
        {
          var b := SomeKeyInSpan(t, p);
          assert FindsAll(t, b, k);
          assert k in InRange(t, b, k);
          ReachedPast(t, p, k);
        }
      }
    }
  }

  /** A number that a page with an upper bound answers for. */
  lemma SomeKeyInSpan(t: Index, p: PageId) returns (b: int)
    requires Good(t) && p in t.info && t.info[p].level == 0 && t.info[p].hi.Some?
    ensures In(b, t.info[p]) && p == LeafPage(t, b) && b < t.info[p].hi.value
  {
    b := if t.info[p].lo.Some? then t.info[p].lo.value else t.info[p].hi.value - 1;
    OnlyLeaf(t, p, b);
  }

  /** A key behind a leaf that is reached from it is reached through the next leaf. */
  lemma ReachedPast(t: Index, p: PageId, k: int)
    requires Good(t) && p in t.info && t.info[p].level == 0 && !Below(k, t.info[p].hi) && OnChain(t, p, LeafPage(t, k))
    ensures IsOuter(t, p) && t.pages[p].leaf.next.Some?
    ensures var q := t.pages[p].leaf.next.value; q in t.info && (t.info[q].lo.Some? ==> t.info[q].lo.value <= k)
  {
    NextLeaf(t, p);
    var path :| IsChain(t, path) && path[0] == p && path[|path| - 1] == LeafPage(t, k);
    assert |path| > 1 && t.pages[path[0]].leaf.next == Some(path[1]);
    var q := path[1];
    if |path| > 2 && t.info[q].lo.Some? {
      NextNonEmpty(t, q);
      ChainRises(t, path, 1, |path| - 1, t.info[q].lo.value, k);
    }
  }

  lemma {:induction false} LinkedKeysReached(t: Index, p: PageId, key: int, k: int)
    requires Good(t) && KeysLinked(t) && p in t.info && t.info[p].level == 0
    requires In(key, t.info[p]) && key <= k && k in t.model
    ensures OnChain(t, p, LeafPage(t, k))
    decreases NotLeftOf(t, p)
  {
    NextLeaf(t, p);
    assert NoKeySkipped(t, p);
    if Below(k, t.info[p].hi) {
      OnlyLeaf(t, p, k);
      assert IsChain(t, [p]);
    } else {
      var q := t.pages[p].leaf.next.value;
      NextIsCloser(t, p);
      NextNonEmpty(t, q);
      LinkedKeysReached(t, q, t.info[q].lo.value, k);
      Prepend(t, p, q, LeafPage(t, k));
    }
  }

  /** Without erasures no key is passed by exactly when no split cut the chain. */
  lemma LinkedIffComplete(t: Index)
    requires Good(t) && t.erased == {}
    ensures KeysLinked(t) <==> ChainComplete(t)
  {
    forall p | p in t.info && t.info[p].level == 0
      ensures IsOuter(t, p) && (LinkComplete(t, p) ==> NoKeySkipped(t, p)) &&
              (NoKeySkipped(t, p) ==> LinkComplete(t, p))
    {
      NextLeaf(t, p);
      if NoKeySkipped(t, p) && t.info[p].hi.Some? {
        NextIsAdjacent(t, p);
      }
    }
  }

  lemma NextIsAdjacent(t: Index, p: PageId)
    requires Good(t) && t.erased == {} && p in t.info && t.info[p].level == 0 && IsOuter(t, p)
    requires NoKeySkipped(t, p) && t.info[p].hi.Some?
    ensures LinkComplete(t, p)
  {
    var hi := t.info[p].hi.value;
    var r := LeafPage(t, hi);
    var b := SomeKeyInSpan(t, p);
    LeftEnd(t, p, r);
    RootIsAlone(t, p, r);
    var k := SomeKeyOf(t, r);
    NextLeaf(t, p);
    var q := t.pages[p].leaf.next.value;
    NextNonEmpty(t, q);
    OnlyLeaf(t, q, t.info[q].lo.value);
    if t.info[q].lo.value != hi {
      OnlyLeaf(t, r, t.info[q].lo.value);
    }
  }

  /** The leaf that answers for the upper bound of a leaf starts there. */
  lemma LeftEnd(t: Index, p: PageId, r: PageId)
    requires Good(t) && p in t.info && t.info[p].level == 0 && t.info[p].hi.Some? &&
             r == LeafPage(t, t.info[p].hi.value)
    ensures r != p && t.info[r].lo == t.info[p].hi
  {
    var hi := t.info[p].hi.value;
    if t.info[r].lo != Some(hi) {
      assert In(hi - 1, t.info[r]) && In(hi - 1, t.info[p]);
      OnlyLeaf(t, p, hi - 1);
      OnlyLeaf(t, r, hi - 1);
    }
  }

  /** A root leaf is the only leaf. */
  lemma RootIsAlone(t: Index, p: PageId, r: PageId)
    requires Good(t) && p in t.info && t.info[p].level == 0 && t.info[p].hi.Some? && r in t.info && t.info[r].level == 0
    ensures r != t.root
  {
    var b := SomeKeyInSpan(t, p);
    if r == t.root {
      OnlyLeaf(t, r, b);
    }
  }

  /** So without erasures all range lookups are complete exactly when the chain was never cut. */
  lemma RangesCompleteIffNeverCut(t: Index)
    requires Good(t) && t.erased == {}
    ensures ChainComplete(t) <==> forall begin, end :: FindsAll(t, begin, end)
  {
    LinkedIffComplete(t);
    RangesCompleteIff(t);
  }

  // ----- what keeps the chain complete

  lemma SameLeavesChain(t: Index, t': Index)
    requires SameLeaves(t, t') && ChainComplete(t)
    ensures ChainComplete(t')
  {
    forall p | p in t'.info && t'.info[p].level == 0 ensures LinkComplete(t', p) {
      assert LinkComplete(t, p);
    }
  }

  /** An insert that splits a leaf in the middle of the chain. */
  ghost predicate CutsChain(t: Index, key: int)
    requires Good(t)
  {
    var leaf := t.pages[LeafPage(t, key)].leaf;
    leaf.keyCount == t.leafCapacity && leaf.next.Some?
  }

  lemma CutsAtLeaf(t: Index, p: PageId, key: int)
    requires Good(t) && p == LeafPage(t, key) && IsOuter(t, p)
    ensures CutsChain(t, key) <==> t.pages[p].leaf.keyCount == t.leafCapacity && t.pages[p].leaf.next.Some?
  {
  }

  /** Splitting a leaf keeps the chain complete exactly when it was the last one: the new leaf gets no successor. */
  lemma OuterSplitChain(t: Index, t': Index, id: PageId, parent: PageId, k: int, left: Leaf, s: int, right: Leaf,
                        grown: InnerNode)
    requires SplitReady(t, id, parent, k) && IsOuter(t, id) && t.info[id].level == 0 && StrictlyIn(s, t.info[id])
    requires t.lastPageId !in t.info && t.lastPageId != parent && IsInner(t, parent) && ChainComplete(t)
    requires t'.info == SplitInfo(t, id, t.lastPageId, parent, s)
    requires t'.pages == t.pages[id := Outer(left)][parent := Inner(grown)][t.lastPageId := Outer(right)]
    requires left.next == Some(t.lastPageId) && right.next == None
    ensures ChainComplete(t') <==> t.pages[id].leaf.next == None
  {
    var newId := t.lastPageId;
    assert PageOk(t, id) && LinkComplete(t, id);
    if t.pages[id].leaf.next == None {
      forall p | p in t'.info && t'.info[p].level == 0 ensures LinkComplete(t', p) {
        if p != id && p != newId {
          assert LinkComplete(t, p);
        }
      }
    } else {
      assert t'.info[newId].hi.Some?;
      assert !LinkComplete(t', newId);
    }
  }

  lemma LeafEditKeepsChain(t: Index, t': Index, p: PageId, leaf: Leaf)
    requires IsOuter(t, p) && leaf.next == t.pages[p].leaf.next
    requires t'.info == t.info && t'.pages == t.pages[p := Outer(leaf)]
    ensures ChainComplete(t') <==> ChainComplete(t)
  {
    forall q | q in t.info && t.info[q].level == 0 ensures LinkComplete(t', q) <==> LinkComplete(t, q) {
    }
  }

  /** Without erasures every leaf but a root leaf has a key. */
  lemma SomeKeyOf(t: Index, q: PageId) returns (k: int)
    requires Good(t) && t.erased == {} && q in t.info && t.info[q].level == 0 && q != t.root
    ensures k in t.model && In(k, t.info[q])
  {
    assert PageOk(t, q) && HalfFull(t, q);
    k := t.pages[q].leaf.entries[0].key.value;
  }

  /** In a complete tree without erasures, the leaf for a key above all stored keys is the last one: such an insert
      never cuts the chain. */
  lemma AscendingKeepsChain(t: Index, key: int)
    requires Good(t) && ChainComplete(t) && t.erased == {}
    requires forall k :: k in t.model ==> k < key
    ensures !CutsChain(t, key)
  {
    var p := LeafPage(t, key);
    NextLeaf(t, p);
    assert LinkComplete(t, p);
    if t.pages[p].leaf.next.Some? {
      var k := SomeKeyOf(t, t.pages[p].leaf.next.value);
    }
  }

  /** Splitting inner nodes changes neither the chain nor which insert would cut it. */
  lemma SameCut(t: Index, t': Index, key: int)
    requires Good(t) && Good(t') && SameLeaves(t, t') && t'.leafCapacity == t.leafCapacity
    ensures CutsChain(t, key) <==> CutsChain(t', key)
    ensures ChainComplete(t) ==> ChainComplete(t')
  {
    SameLeafPage(t, t', key, LeafPage(t', key));
    if ChainComplete(t) {
      SameLeavesChain(t, t');
    }
  }

  /** The leaf split with what it does to the chain. */
  lemma SplitLeafPlan(t: Index, id: PageId, parent: PageId, k: int)
    returns (t': Index, left: Leaf, s: int, right: Leaf, grown: InnerNode)
    requires SplitReady(t, id, parent, k)
    requires IsOuter(t, id) && t.pages[id].leaf.keyCount == t.leafCapacity
    ensures IsInner(t, parent) && parent != id && parent != t.lastPageId && id < t.lastPageId
    ensures var l := t.pages[id].leaf;
            2 <= l.keyCount < |l.entries| && Sorted(l.entries, 0, l.keyCount) &&
              (left, s, right) == SplitOuter(l, id, t.lastPageId)
    ensures var m := t.pages[parent].node;
            && m.keyCount + 1 < |m.entries| && Sorted(m.entries, 1, m.keyCount + 1)
            && m.InsertDefiniteFit(s, id, t.lastPageId) == Success(grown)
    ensures t' == t.(pages := t.pages[id := Outer(left)][parent := Inner(grown)][t.lastPageId := Outer(right)],
                     info := t'.info, lastPageId := t.lastPageId + 1)
    ensures id in t.info && StrictlyIn(s, t.info[id])
    ensures Good(t') && t'.info == SplitInfo(t, id, t.lastPageId, parent, s)
    ensures var chosen := if k < s then id else t.lastPageId;
            && chosen in t'.info && In(k, t'.info[chosen]) && t'.info[chosen].level == 0
            && IsOuter(t', chosen) && 0 < t'.pages[chosen].leaf.keyCount < t.leafCapacity
            && |t'.pages[chosen].leaf.entries| == t.leafCapacity + 1 && !t'.pages[chosen].leaf.PastHit(k)
    ensures ChainComplete(t) ==> (ChainComplete(t') <==> t.pages[id].leaf.next == None)
  {
    t', left, s, right, grown := OuterSplit(t, id, parent, k);
    KindOfPage(t, id);
    if ChainComplete(t) {
      OuterSplitChain(t, t', id, parent, k, left, s, right, grown);
    }
  }
}
