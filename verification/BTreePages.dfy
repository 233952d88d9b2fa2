/** Inner nodes and leaves as they lie in a page, and the local invariants of a page.

    A page is responsible for a span of keys. After a split the right node keeps the shared middle child in
    slot 0, where its gap is empty: such a child is dead and nothing is required of it. */
module BTreePages {
  import opened Basics
  import opened EntriesHelper

  type PageId = nat

  /** f is e with a slot put in at p, the slots p..n moved up by one. */
  ghost predicate Opened(e: seq<Slot>, f: seq<Slot>, p: int, n: int, slot: Slot)
    requires 0 <= p <= n < |e|
  {
    && |f| == |e|
    && forall i {:trigger f[i]} :: 0 <= i < |e| ==>
      f[i] == if i == p then slot else if p < i <= n then e[i - 1] else e[i]
  }

  /** f is e with slot p taken out, the slots p+1..n moved down by one. */
  ghost predicate Closed(e: seq<Slot>, f: seq<Slot>, p: int, n: int)
    requires 0 <= p < n <= |e|
  {
    && |f| == |e|
    && forall i {:trigger f[i]} :: 0 <= i < |e| ==> f[i] == if p <= i < n - 1 then e[i + 1] else e[i]
  }

  datatype InnerNode = InnerNode(keyCount: nat, entries: seq<Slot>) {
    predicate HasSpaceForOneMoreEntry(capacity: nat) {
      keyCount < capacity
    }

    /** Inserts a separator with the pages to its left and right. */
    function InsertDefiniteFit(key: int, left: PageId, right: PageId): Result<InnerNode>
      requires keyCount + 1 < |entries| && Sorted(entries, 1, keyCount + 1)
    {
      match FindInsertPosition(entries, key, 1, keyCount + 1)
      case Failure(e) => Failure(e)
      case Success(p) =>
        var moved := MoveEntriesToRight(entries, p, keyCount + 1);
        Success(InnerNode(keyCount + 1, moved[p := Slot(Some(key), right)][p - 1 := Slot(moved[p - 1].key, left)]))
    }

    /** The child page a search for the key descends to. */
    method GetNextNode(key: int) returns (child: Result<PageId>)
      requires keyCount < |entries| && Sorted(entries, 1, keyCount + 1)
      ensures keyCount == 0 ==> child == Failure(InvalidArgument)
      ensures keyCount > 0 ==> child == Success(entries[ChildSlot(entries, key, 1, keyCount)].value)
    {
      child := FindDirectionValue(entries, key, 1, keyCount);
    }
  }

  datatype Leaf = Leaf(keyCount: nat, entries: seq<Slot>, previous: Option<PageId>, next: Option<PageId>) {
    predicate HasSpaceForOneMoreEntry(capacity: nat) {
      keyCount < capacity
    }

    function InsertDefiniteFit(key: int, tid: nat): Result<Leaf>
      requires keyCount < |entries| && Sorted(entries, 0, keyCount)
    {
      match FindInsertPosition(entries, key, 0, keyCount)
      case Failure(e) => Failure(e)
      case Success(p) =>
        Success(this.(keyCount := keyCount + 1,
                      entries := MoveEntriesToRight(entries, p, keyCount)[p := Slot(Some(key), tid)]))
    }

    /** The key sits in the slot just behind the live entries and is above all of them. */
    ghost predicate PastHit(key: int)
      requires keyCount < |entries|
    {
      entries[keyCount].key == Some(key) && AllSmaller(entries, 0, keyCount, key)
    }

    ghost predicate HasKey(key: int)
      requires keyCount < |entries|
    {
      exists i :: 0 <= i < keyCount && entries[i].key == Some(key)
    }

    method Erase(key: int) returns (result: Result<Leaf>)
      requires keyCount < |entries| && Sorted(entries, 0, keyCount)
      ensures result.Success? <==> HasKey(key)
      ensures result.Failure? ==> result.error == if PastHit(key) then MemoryFault else KeyNotFound
      ensures result.Success? ==>
        exists p :: 0 <= p < keyCount && entries[p].key == Some(key) && result.value == Without(p)
    {
      hide MoveEntriesToLeft, Without, Sorted, Closed;
      var p := SearchKeyPosition(entries, key, 0, keyCount);
      if p < 0 {
        return Failure(KeyNotFound);
      }
      match MoveEntriesToLeft(entries, p + 1, keyCount) {
        case Failure(e) => return Failure(e);
        case Success(moved) =>
          MovedIsWithout(p);
          result := Success(this.(keyCount := keyCount - 1, entries := moved));
      }
    }

    lemma MovedIsWithout(p: nat)
      requires p < keyCount <= |entries|
      ensures MoveEntriesToLeft(entries, p + 1, keyCount).Success?
      ensures this.(keyCount := keyCount - 1, entries := MoveEntriesToLeft(entries, p + 1, keyCount).value) ==
              Without(p)
    {
    }

    /** This leaf with entry p taken out; the last entry stays behind in the slot it had. */
    ghost function Without(p: nat): (rest: Leaf)
      requires p < keyCount <= |entries|
      ensures rest.keyCount == keyCount - 1 && rest.next == next && rest.previous == previous
      ensures Closed(entries, rest.entries, p, keyCount)
    {
      this.(keyCount := keyCount - 1, entries := entries[..p] + entries[p + 1..keyCount] + entries[keyCount - 1..])
    }

    method Lookup(key: int) returns (tid: Option<nat>)
      requires keyCount < |entries| && Sorted(entries, 0, keyCount)
      ensures tid.Some? <==> HasKey(key) || PastHit(key)
      ensures tid.Some? ==> exists p :: 0 <= p <= keyCount && entries[p] == Slot(Some(key), tid.value)
                                        && (p == keyCount ==> PastHit(key))
    {
      var p := SearchKeyPosition(entries, key, 0, keyCount);
      if p < 0 {
        return None;
      }
      assert entries[p] == Slot(Some(key), entries[p].value);
      return Some(entries[p].value);
    }
  }

  datatype Page = Inner(node: InnerNode) | Outer(leaf: Leaf)

  // ----- spans

  /** The keys lo <= k < hi (None: unbounded) at a level above the leaves. */
  datatype Span = Span(level: nat, lo: Option<int>, hi: Option<int>)

  predicate Below(key: int, hi: Option<int>) {
    hi.None? || key < hi.value
  }

  predicate In(key: int, span: Span) {
    (span.lo.None? || span.lo.value <= key) && Below(key, span.hi)
  }

  predicate NonEmpty(span: Span) {
    span.lo.Some? && span.hi.Some? ==> span.lo.value < span.hi.value
  }

  predicate StrictlyIn(key: int, span: Span) {
    (span.lo.None? || span.lo.value < key) && Below(key, span.hi)
  }

  /** What is left for child i of a node responsible for a span. */
  function Gap(node: InnerNode, span: Span, i: nat): Span
    requires i <= node.keyCount < |node.entries| && span.level > 0
  {
    Span(span.level - 1,
         if i == 0 then span.lo else node.entries[i].key,
         if i == node.keyCount then span.hi else node.entries[i + 1].key)
  }

  /** Only the gap of slot 0 can be empty. */
  predicate Live(node: InnerNode, span: Span, i: nat)
    requires node.keyCount < |node.entries|
  {
    i > 0 || node.keyCount == 0 || span.lo.None? || node.entries[1].key.None? ||
      span.lo.value < node.entries[1].key.value
  }

  // ----- inner nodes

  ghost predicate NodeKeys(node: InnerNode, span: Span, capacity: nat) {
    && span.level > 0
    && |node.entries| == capacity + 1 && node.keyCount <= capacity
    && Sorted(node.entries, 1, node.keyCount + 1)
    && (forall i :: 1 <= i <= node.keyCount ==> In(node.entries[i].key.value, span))
    // what lies behind the live separators can never collide with a new one
    && (forall i :: node.keyCount < i <= capacity && node.entries[i].key.Some? ==>
         !Below(node.entries[i].key.value, span.hi))
  }

  ghost predicate ChildOk(node: InnerNode, span: Span, i: nat, info: map<PageId, Span>)
    requires i <= node.keyCount < |node.entries| && span.level > 0
  {
    Live(node, span, i) ==> node.entries[i].value in info && info[node.entries[i].value] == Gap(node, span, i)
  }

  ghost predicate InnerOk(node: InnerNode, span: Span, capacity: nat, info: map<PageId, Span>) {
    && NodeKeys(node, span, capacity)
    && node.keyCount >= 1
    && (forall i :: 0 <= i <= node.keyCount ==> ChildOk(node, span, i, info))
  }

  /** The child a search follows is live and its gap contains the key. */
  lemma ChildForKey(node: InnerNode, span: Span, capacity: nat, key: int)
    requires NodeKeys(node, span, capacity) && In(key, span)
    ensures var i := ChildSlot(node.entries, key, 1, node.keyCount);
            Live(node, span, i) && In(key, Gap(node, span, i))
    ensures forall j: nat :: j <= node.keyCount && In(key, Gap(node, span, j)) ==>
      j == ChildSlot(node.entries, key, 1, node.keyCount)
  {
    forall j: nat | j <= node.keyCount && In(key, Gap(node, span, j))
      ensures j == ChildSlot(node.entries, key, 1, node.keyCount)
    {
      ChildSlotUnique(node.entries, key, 1, node.keyCount, j);
    }
  }

  lemma GapInSpan(node: InnerNode, span: Span, capacity: nat, i: nat, key: int)
    requires NodeKeys(node, span, capacity) && i <= node.keyCount && In(key, Gap(node, span, i))
    ensures In(key, span)
  {
  }

  lemma SeparatorPosition(node: InnerNode, span: Span, capacity: nat, i: nat, key: int)
    requires NodeKeys(node, span, capacity) && node.keyCount < capacity && i <= node.keyCount
    requires StrictlyIn(key, Gap(node, span, i))
    ensures In(key, span)
    ensures FindInsertPosition(node.entries, key, 1, node.keyCount + 1) == Success(i + 1)
  {
    var e := node.entries;
    var p := LowerBound(e, key, 1, node.keyCount + 1);
    assert p == i + 1 by {
      assert i >= 1 ==> e[i].key.value < key;
      assert i < node.keyCount ==> key < e[i + 1].key.value;
    }
    assert In(key, span);
    assert e[p].key != Some(key) by {
      if p == node.keyCount + 1 && e[p].key.Some? {
        assert !Below(e[p].key.value, span.hi);
      }
    }
  }

  /** A separator strictly inside gap i always fits, and splits that gap between its two pages. */
  lemma InsertSeparator(node: InnerNode, span: Span, capacity: nat, i: nat, key: int, left: PageId, right: PageId,
                        info: map<PageId, Span>) returns (grown: InnerNode)
    requires NodeKeys(node, span, capacity) && node.keyCount < capacity && i <= node.keyCount
    requires Live(node, span, i) && StrictlyIn(key, Gap(node, span, i))
    requires forall j :: 0 <= j <= node.keyCount && j != i ==> ChildOk(node, span, j, info)
    requires left in info && info[left] == Gap(node, span, i).(hi := Some(key))
    requires right in info && info[right] == Gap(node, span, i).(lo := Some(key))
    ensures node.InsertDefiniteFit(key, left, right) == Success(grown)
    ensures grown.keyCount == node.keyCount + 1 && InnerOk(grown, span, capacity, info)
    ensures grown.entries[i].value == left && grown.entries[i + 1] == Slot(Some(key), right)
    ensures Gap(grown, span, i) == info[left] && Gap(grown, span, i + 1) == info[right]
  {
    SeparatorPosition(node, span, capacity, i, key);
    var open := SeparatorResult(node, i, key, left, right);
    grown := InnerNode(node.keyCount + 1, open[i := Slot(open[i].key, left)]);
    SeparatorKeys(node, grown, open, span, capacity, i, key, left, right);
    SeparatorChildren(node, grown, span, capacity, i, key, left, right, info);
    assert grown.entries[i].value == left;
  }

  lemma SeparatorResult(node: InnerNode, i: nat, key: int, left: PageId, right: PageId) returns (open: seq<Slot>)
    requires i <= node.keyCount && node.keyCount + 1 < |node.entries| && Sorted(node.entries, 1, node.keyCount + 1)
    requires FindInsertPosition(node.entries, key, 1, node.keyCount + 1) == Success(i + 1)
    ensures Opened(node.entries, open, i + 1, node.keyCount + 1, Slot(Some(key), right))
    ensures node.InsertDefiniteFit(key, left, right) ==
            Success(InnerNode(node.keyCount + 1, open[i := Slot(open[i].key, left)]))
  {
    hide Sorted, AllSmaller, FindInsertPosition;
    var moved := MoveEntriesToRight(node.entries, i + 1, node.keyCount + 1);
    open := moved[i + 1 := Slot(Some(key), right)];
    assert open[i] == moved[i];
  }

  /** The separator sits at i + 1 with its pages at i and i + 1; the later entries moved up by one. */
  ghost predicate Separated(node: InnerNode, grown: InnerNode, i: nat, key: int, left: PageId, right: PageId)
    requires i <= node.keyCount < |node.entries|
  {
    && |grown.entries| == |node.entries|
    && forall j {:trigger grown.entries[j]} :: 0 <= j < |node.entries| ==>
      grown.entries[j] ==
        if j == i then Slot(node.entries[i].key, left)
        else if j == i + 1 then Slot(Some(key), right)
        else if i + 1 < j <= node.keyCount + 1 then node.entries[j - 1] else node.entries[j]
  }

  lemma SeparatorKeys(node: InnerNode, grown: InnerNode, open: seq<Slot>, span: Span, capacity: nat, i: nat, key: int,
                      left: PageId, right: PageId)
    requires NodeKeys(node, span, capacity) && node.keyCount < capacity && i <= node.keyCount
    requires StrictlyIn(key, Gap(node, span, i)) && In(key, span)
    requires Opened(node.entries, open, i + 1, node.keyCount + 1, Slot(Some(key), right))
    requires grown == InnerNode(node.keyCount + 1, open[i := Slot(open[i].key, left)])
    ensures NodeKeys(grown, span, capacity)
    ensures Separated(node, grown, i, key, left, right)
  {
    var e, g := node.entries, grown.entries;
    assert Separated(node, grown, i, key, left, right);
    assert forall j :: 1 <= j <= i ==> e[j].key.value < key;
    assert forall j :: i < j <= node.keyCount ==> key < e[j].key.value;
    assert Sorted(g, 1, grown.keyCount + 1);
  }

  lemma SeparatorChildren(node: InnerNode, grown: InnerNode, span: Span, capacity: nat, i: nat, key: int, left: PageId,
                          right: PageId, info: map<PageId, Span>)
    requires NodeKeys(node, span, capacity) && NodeKeys(grown, span, capacity) && i <= node.keyCount
    requires grown.keyCount == node.keyCount + 1
    requires Live(node, span, i) && StrictlyIn(key, Gap(node, span, i))
    requires Separated(node, grown, i, key, left, right)
    requires forall j :: 0 <= j <= node.keyCount && j != i ==> ChildOk(node, span, j, info)
    requires left in info && info[left] == Gap(node, span, i).(hi := Some(key))
    requires right in info && info[right] == Gap(node, span, i).(lo := Some(key))
    ensures InnerOk(grown, span, capacity, info)
    ensures Gap(grown, span, i) == info[left] && Gap(grown, span, i + 1) == info[right]
  {
    assert grown.entries[i].key == node.entries[i].key && grown.entries[i + 1].key == Some(key);
    assert i < node.keyCount ==> grown.entries[i + 2].key == node.entries[i + 1].key;
    assert i == 0 ==> Live(grown, span, 0);
    forall j | 0 <= j <= grown.keyCount ensures ChildOk(grown, span, j, info) {
      if j < i {
        assert ChildOk(node, span, j, info);
      } else if j > i + 1 {
        assert ChildOk(node, span, j - 1, info);
      }
    }
  }

  /** splitInnerNode: the left half, the separator, the right half. The middle child stays in both. */
  function SplitNode(node: InnerNode): (InnerNode, int, InnerNode)
    requires 2 <= node.keyCount < |node.entries| && Sorted(node.entries, 1, node.keyCount + 1)
  {
    var keysHalf := node.keyCount / 2;
    var newKeysCount := node.keyCount - keysHalf;
    var capacity := |node.entries| - 1;
    (InnerNode(keysHalf, node.entries),
     node.entries[keysHalf + 1].key.value,
     InnerNode(newKeysCount,
               node.entries[keysHalf..keysHalf + newKeysCount + 1] + Unwritten(capacity - newKeysCount)))
  }

  function Unwritten(n: nat): (slots: seq<Slot>)
    ensures |slots| == n && forall i :: 0 <= i < n ==> slots[i].key == None
  {
    seq(n, i => Slot(None, 0))
  }

  lemma SplitNodeOk(node: InnerNode, span: Span, capacity: nat, info: map<PageId, Span>)
    requires InnerOk(node, span, capacity, info) && node.keyCount == capacity >= 2
    ensures var (l, s, r) := SplitNode(node);
            && StrictlyIn(s, span)
            && InnerOk(l, span.(hi := Some(s)), capacity, info) && l.keyCount < capacity
            && InnerOk(r, span.(lo := Some(s)), capacity, info) && r.keyCount < capacity
            && l.keyCount == capacity / 2 && r.keyCount == capacity - capacity / 2
            // the shared child is dead on the right
            && r.entries[0].value == l.entries[l.keyCount].value && !Live(r, span.(lo := Some(s)), 0)
  {
    var (l, s, r) := SplitNode(node);
    assert node.entries[1].key.value < s;
    LeftNodeOk(node, l, span, capacity, s, info);
    RightNodeOk(node, r, span, capacity, s, capacity / 2, info);
  }

  lemma LeftNodeOk(node: InnerNode, l: InnerNode, span: Span, capacity: nat, s: int, info: map<PageId, Span>)
    requires InnerOk(node, span, capacity, info) && 1 <= l.keyCount < node.keyCount == capacity
    requires l.entries == node.entries && node.entries[l.keyCount + 1].key == Some(s)
    ensures InnerOk(l, span.(hi := Some(s)), capacity, info)
  {
    forall i | 0 <= i <= l.keyCount ensures ChildOk(l, span.(hi := Some(s)), i, info) {
      assert ChildOk(node, span, i, info);
    }
  }

  lemma RightNodeOk(node: InnerNode, r: InnerNode, span: Span, capacity: nat, s: int, half: nat,
                    info: map<PageId, Span>)
    requires InnerOk(node, span, capacity, info) && node.keyCount == capacity && 1 <= half < capacity
    requires r.keyCount == capacity - half && |r.entries| == capacity + 1 && node.entries[half + 1].key == Some(s)
    requires forall i {:trigger r.entries[i]} :: 0 <= i <= capacity ==>
      if i <= r.keyCount then r.entries[i] == node.entries[half + i] else r.entries[i].key == None
    ensures InnerOk(r, span.(lo := Some(s)), capacity, info) && !Live(r, span.(lo := Some(s)), 0)
  {
    forall i | 0 <= i <= r.keyCount ensures ChildOk(r, span.(lo := Some(s)), i, info) {
      assert ChildOk(node, span, half + i, info);
    }
  }

  // ----- leaves

  ghost predicate LeafShape(leaf: Leaf, span: Span, capacity: nat) {
    && span.level == 0
    && |leaf.entries| == capacity + 1 && leaf.keyCount <= capacity && leaf.entries[capacity].key == None
    && Sorted(leaf.entries, 0, leaf.keyCount)
    && (forall i :: 0 <= i < leaf.keyCount ==> In(leaf.entries[i].key.value, span))
  }

  /** The live entries are exactly the map's keys in the span. */
  ghost predicate LeafHolds(leaf: Leaf, span: Span, model: map<int, nat>)
    requires leaf.keyCount < |leaf.entries| && Sorted(leaf.entries, 0, leaf.keyCount)
  {
    && (forall i :: 0 <= i < leaf.keyCount ==>
      leaf.entries[i].key.value in model && model[leaf.entries[i].key.value] == leaf.entries[i].value)
    && (forall k :: k in model && In(k, span) ==> leaf.HasKey(k))
  }

  /** Behind the live entries there are only keys of no interest to this leaf, mapped keys and erased keys. */
  ghost predicate LeafRest(leaf: Leaf, span: Span, model: map<int, nat>, erased: set<int>) {
    forall i :: leaf.keyCount <= i < |leaf.entries| && leaf.entries[i].key.Some? ==>
      !Below(leaf.entries[i].key.value, span.hi) || leaf.entries[i].key.value in model ||
        leaf.entries[i].key.value in erased
  }

  ghost predicate LeafOk(leaf: Leaf, span: Span, capacity: nat, model: map<int, nat>, erased: set<int>) {
    LeafShape(leaf, span, capacity) && LeafHolds(leaf, span, model) && LeafRest(leaf, span, model, erased)
  }

  /** The next pointer leads strictly to the right. */
  ghost predicate NextOk(leaf: Leaf, span: Span, info: map<PageId, Span>) {
    leaf.next.Some? ==>
      && leaf.next.value in info && info[leaf.next.value].level == 0
      && span.hi.Some? && info[leaf.next.value].lo.Some? && span.hi.value <= info[leaf.next.value].lo.value
  }

  lemma LeafInsertOk(leaf: Leaf, span: Span, capacity: nat, model: map<int, nat>, erased: set<int>, key: int, tid: nat)
    requires LeafOk(leaf, span, capacity, model, erased) && leaf.keyCount < capacity && In(key, span)
    ensures var r := leaf.InsertDefiniteFit(key, tid);
            && (r.Failure? <==> key in model || (leaf.keyCount > 0 && leaf.PastHit(key)))
            && (r.Failure? ==> r.error == KeyExists)
            && (r.Success? ==> r.value.next == leaf.next && r.value.keyCount == leaf.keyCount + 1
                               && LeafOk(r.value, span, capacity, model[key := tid], erased))
  {
    assert key in model <==> leaf.HasKey(key);
    hide Leaf.InsertDefiniteFit, Leaf.HasKey, Leaf.PastHit, Opened, LeafHolds, LeafRest, Sorted, AllSmaller;
    LeafRefuses(leaf, key, tid);
    var r := leaf.InsertDefiniteFit(key, tid);
    if r.Success? {
      var p := LeafTakes(leaf, key, tid);
      LeafInsertShape(leaf, r.value, span, capacity, key, tid, p);
      LeafInsertHolds(leaf, r.value, span, capacity, model, key, tid, p);
      LeafInsertRest(leaf, r.value, span, capacity, model, erased, key, tid, p);
    }
  }

  lemma LeafRefuses(leaf: Leaf, key: int, tid: nat)
    requires leaf.keyCount < |leaf.entries| && Sorted(leaf.entries, 0, leaf.keyCount)
    ensures var r := leaf.InsertDefiniteFit(key, tid);
            && (r.Failure? <==> leaf.keyCount > 0 && (leaf.HasKey(key) || leaf.PastHit(key)))
            && (r.Failure? ==> r.error == KeyExists)
    ensures leaf.HasKey(key) ==> leaf.keyCount > 0
  {
    hide Sorted, AllSmaller, MoveEntriesToRight;
  }

  lemma LeafTakes(leaf: Leaf, key: int, tid: nat) returns (p: nat)
    requires leaf.keyCount + 1 < |leaf.entries| && Sorted(leaf.entries, 0, leaf.keyCount)
    requires leaf.InsertDefiniteFit(key, tid).Success?
    ensures p <= leaf.keyCount && AllSmaller(leaf.entries, 0, p, key)
    ensures forall i :: p <= i < leaf.keyCount ==> key < leaf.entries[i].key.value
    ensures var grown := leaf.InsertDefiniteFit(key, tid).value;
            && Opened(leaf.entries, grown.entries, p, leaf.keyCount, Slot(Some(key), tid))
            && grown == leaf.(keyCount := leaf.keyCount + 1, entries := grown.entries)
  {
    hide Sorted, AllSmaller;
    p := FindInsertPosition(leaf.entries, key, 0, leaf.keyCount).value;
  }

  lemma LeafInsertRest(leaf: Leaf, grown: Leaf, span: Span, capacity: nat, model: map<int, nat>, erased: set<int>,
                       key: int, tid: nat, p: nat)
    requires LeafShape(leaf, span, capacity) && leaf.keyCount < capacity && LeafRest(leaf, span, model, erased)
    requires p <= leaf.keyCount && grown.keyCount == leaf.keyCount + 1
    requires Opened(leaf.entries, grown.entries, p, leaf.keyCount, Slot(Some(key), tid))
    ensures LeafRest(grown, span, model[key := tid], erased)
  {
    hide Sorted;
  }

  lemma LeafInsertShape(leaf: Leaf, grown: Leaf, span: Span, capacity: nat, key: int, tid: nat, p: nat)
    requires LeafShape(leaf, span, capacity) && leaf.keyCount < capacity && In(key, span)
    requires p <= leaf.keyCount && AllSmaller(leaf.entries, 0, p, key)
    requires forall i :: p <= i < leaf.keyCount ==> key < leaf.entries[i].key.value
    requires grown.keyCount == leaf.keyCount + 1 &&
             Opened(leaf.entries, grown.entries, p, leaf.keyCount, Slot(Some(key), tid))
    ensures LeafShape(grown, span, capacity)
  {
  }

  lemma LeafInsertHolds(leaf: Leaf, grown: Leaf, span: Span, capacity: nat, model: map<int, nat>, key: int, tid: nat,
                        p: nat)
    requires LeafShape(leaf, span, capacity) && leaf.keyCount < capacity && LeafHolds(leaf, span, model)
    requires LeafShape(grown, span, capacity) && key !in model
    requires p <= leaf.keyCount
    requires grown.keyCount == leaf.keyCount + 1 &&
             Opened(leaf.entries, grown.entries, p, leaf.keyCount, Slot(Some(key), tid))
    ensures LeafHolds(grown, span, model[key := tid])
  {
    forall k | k in model[key := tid] && In(k, span) ensures grown.HasKey(k) {
      if k == key {
        assert grown.entries[p].key == Some(k);
      } else {
        var i :| 0 <= i < leaf.keyCount && leaf.entries[i].key == Some(k);
        assert grown.entries[if i < p then i else i + 1].key == Some(k);
      }
    }
  }

  /** splitLeaf: the old leaf cut in half and pointing to the new one, the separator, the new last leaf. */
  function SplitOuter(leaf: Leaf, leafPageId: PageId, newPageId: PageId): (Leaf, int, Leaf)
    requires 2 <= leaf.keyCount < |leaf.entries| && Sorted(leaf.entries, 0, leaf.keyCount)
  {
    var half := leaf.keyCount / 2;
    var splitLength := leaf.keyCount - half;
    (leaf.(keyCount := half, next := Some(newPageId)),
     leaf.entries[half].key.value,
     Leaf(splitLength, leaf.entries[half..leaf.keyCount] + Unwritten(|leaf.entries| - splitLength), Some(leafPageId),
          None))
  }

  lemma SplitOuterOk(leaf: Leaf, span: Span, capacity: nat, model: map<int, nat>, erased: set<int>, id: PageId,
                     newId: PageId)
    requires LeafOk(leaf, span, capacity, model, erased) && leaf.keyCount == capacity >= 2
    ensures var (l, s, r) := SplitOuter(leaf, id, newId);
            && StrictlyIn(s, span)
            && LeafOk(l, span.(hi := Some(s)), capacity, model, erased)
            && LeafOk(r, span.(lo := Some(s)), capacity, model, erased)
            && l.keyCount == capacity / 2 && r.keyCount == capacity - capacity / 2
            && (forall k :: Below(k, Some(s)) ==> !l.PastHit(k))
            && (forall k :: !r.PastHit(k))
  {
    var (l, s, r) := SplitOuter(leaf, id, newId);
    var half := capacity / 2;
    assert leaf.entries[0].key.value < s;
    assert forall i {:trigger r.entries[i]} :: 0 <= i <= capacity ==>
      if i < r.keyCount then r.entries[i] == leaf.entries[half + i] else r.entries[i].key == None;
    LeafLeftHalf(leaf, l, span, capacity, model, s);
    LeafRightHalf(leaf, r, span, capacity, model, s, half);
  }

  lemma LeafLeftHalf(leaf: Leaf, l: Leaf, span: Span, capacity: nat, model: map<int, nat>, s: int)
    requires LeafShape(leaf, span, capacity) && leaf.keyCount == capacity && LeafHolds(leaf, span, model)
    requires l.keyCount < capacity && l.entries == leaf.entries && leaf.entries[l.keyCount].key == Some(s)
    ensures LeafShape(l, span.(hi := Some(s)), capacity) && LeafHolds(l, span.(hi := Some(s)), model)
    ensures forall i :: l.keyCount <= i < capacity ==> !Below(leaf.entries[i].key.value, Some(s))
  {
    forall k | k in model && In(k, span.(hi := Some(s))) ensures l.HasKey(k) {
      assert In(k, span);
      var i :| 0 <= i < leaf.keyCount && leaf.entries[i].key == Some(k);
    }
  }

  lemma LeafRightHalf(leaf: Leaf, r: Leaf, span: Span, capacity: nat, model: map<int, nat>, s: int, half: nat)
    requires LeafShape(leaf, span, capacity) && leaf.keyCount == capacity && LeafHolds(leaf, span, model)
    requires half < capacity && r.keyCount == capacity - half && leaf.entries[half].key == Some(s)
    requires |r.entries| == capacity + 1 && r.keyCount <= capacity && StrictlyIn(s, span)
    requires forall i {:trigger r.entries[i]} :: 0 <= i <= capacity ==>
      if i < r.keyCount then r.entries[i] == leaf.entries[half + i] else r.entries[i].key == None
    ensures LeafShape(r, span.(lo := Some(s)), capacity)
    ensures LeafHolds(r, span.(lo := Some(s)), model)
  {
    assert r.entries[capacity].key == None || r.keyCount > capacity;
    forall k | k in model && In(k, span.(lo := Some(s))) ensures r.HasKey(k) {
      assert In(k, span);
      var i :| 0 <= i < leaf.keyCount && leaf.entries[i].key == Some(k);
      assert r.entries[i - half].key == Some(k);
    }
  }

  /** Taking entry p out of a leaf leaves the old last key just behind the entries. */
  lemma LeafEraseOk(leaf: Leaf, span: Span, capacity: nat, model: map<int, nat>, erased: set<int>, key: int, p: nat)
    requires LeafOk(leaf, span, capacity, model, erased)
    requires p < leaf.keyCount && leaf.entries[p].key == Some(key)
    ensures var rest := leaf.Without(p);
            && LeafOk(rest, span, capacity, model - {key}, erased + {key})
            && (rest.PastHit(key) <==> p == leaf.keyCount - 1)
  {
    var rest := leaf.Without(p);
    LeafEraseShape(leaf, rest, span, capacity, key, p);
    LeafEraseHolds(leaf, rest, span, capacity, model, key, p);
    LeafEraseRest(leaf, rest, span, capacity, model, erased, key, p);
  }

  lemma LeafEraseRest(leaf: Leaf, rest: Leaf, span: Span, capacity: nat, model: map<int, nat>, erased: set<int>,
                      key: int, p: nat)
    requires LeafOk(leaf, span, capacity, model, erased) && p < leaf.keyCount && leaf.entries[p].key == Some(key)
    requires rest.keyCount == leaf.keyCount - 1 && Closed(leaf.entries, rest.entries, p, leaf.keyCount)
    ensures LeafRest(rest, span, model - {key}, erased + {key})
    ensures rest.entries[rest.keyCount].key == Some(key) <==> p == leaf.keyCount - 1
  {
    forall i | rest.keyCount <= i < |rest.entries| && rest.entries[i].key.Some?
      ensures var k := rest.entries[i].key.value;
              !Below(k, span.hi) || k in model - {key} || k in erased + {key}
    {
      assert rest.entries[i] == leaf.entries[i];
    }
  }

  lemma LeafEraseShape(leaf: Leaf, rest: Leaf, span: Span, capacity: nat, key: int, p: nat)
    requires LeafShape(leaf, span, capacity) && p < leaf.keyCount && leaf.entries[p].key == Some(key)
    requires rest.keyCount == leaf.keyCount - 1 && Closed(leaf.entries, rest.entries, p, leaf.keyCount)
    ensures LeafShape(rest, span, capacity)
    ensures p == leaf.keyCount - 1 ==> AllSmaller(rest.entries, 0, rest.keyCount, key)
  {
  }

  lemma LeafEraseHolds(leaf: Leaf, rest: Leaf, span: Span, capacity: nat, model: map<int, nat>, key: int, p: nat)
    requires LeafShape(leaf, span, capacity) && p < leaf.keyCount && leaf.entries[p].key == Some(key)
    requires LeafShape(rest, span, capacity) && LeafHolds(leaf, span, model)
    requires rest.keyCount == leaf.keyCount - 1 && Closed(leaf.entries, rest.entries, p, leaf.keyCount)
    ensures LeafHolds(rest, span, model - {key})
  {
    hide In;
    forall k | k in model && k != key && In(k, span) ensures rest.HasKey(k) {
      var i :| 0 <= i < leaf.keyCount && leaf.entries[i].key == Some(k);
      assert rest.entries[if i < p then i else i - 1].key == Some(k);
    }
  }
}
