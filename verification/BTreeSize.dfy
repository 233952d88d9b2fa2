/** How many keys a tree of a given height holds when nothing was ever erased. */
module BTreeSize {
  import opened Basics
  import opened EntriesHelper
  import opened BTreePages
  import opened BTreeIndex

  function Pow(base: nat, exponent: nat): nat {
    if exponent == 0 then 1 else base * Pow(base, exponent - 1)
  }

  /** It is the power: the one function that adds up exponents this way. */
  lemma {:induction false} PowAdds(base: nat, m: nat, n: nat)
    ensures Pow(base, m + n) == Pow(base, m) * Pow(base, n) && Pow(base, 0) == 1 && Pow(base, 1) == base
  {
    PowStep(base, m);
    PowStep(base, m + n);
    PowStep(base, 0);
    PowStep(base, 1);
    hide Pow;
    if m > 0 {
      PowAdds(base, m - 1, n);
      MulAssoc(base, Pow(base, m - 1), Pow(base, n));
    }
  }

  lemma PowStep(base: nat, exponent: nat)
    ensures Pow(base, exponent) == if exponent == 0 then 1 else base * Pow(base, exponent - 1)
  {
  }

  ghost function KeysIn(model: map<int, nat>, lo: Option<int>, hi: Option<int>): set<int> {
    set k | k in model && In(k, Span(0, lo, hi))
  }

  /** The least number of keys below a page that is not the root. */
  function Least(t: Index, level: nat): nat {
    Pow(t.nodeCapacity / 2, level) * (t.leafCapacity / 2)
  }

  lemma LeastStep(t: Index, level: nat)
    requires level > 0
    ensures Least(t, level) == (t.nodeCapacity / 2) * Least(t, level - 1)
  {
    MulAssoc(t.nodeCapacity / 2, Pow(t.nodeCapacity / 2, level - 1), t.leafCapacity / 2);
  }

  lemma MulAssoc(a: nat, b: nat, c: nat)
    ensures a * b * c == a * (b * c)
  {
  }

  lemma {:induction false} LeafKeyCount(leaf: Leaf, n: nat, keys: set<int>)
    requires n <= leaf.keyCount <= |leaf.entries| && Sorted(leaf.entries, 0, leaf.keyCount)
    requires forall i :: 0 <= i < n ==> leaf.entries[i].key.value in keys
    ensures |keys| >= n
  {
    if n > 0 {
      var last := leaf.entries[n - 1].key.value;
      LeafKeyCount(leaf, n - 1, keys - {last});
    }
  }

  lemma KeysJoin(model: map<int, nat>, lo: Option<int>, middle: int, hi: Option<int>)
    requires lo.Some? ==> lo.value <= middle
    requires hi.Some? ==> middle <= hi.value
    ensures |KeysIn(model, lo, hi)| >= |KeysIn(model, lo, Some(middle))| + |KeysIn(model, Some(middle), hi)|
  {
    var before, last := KeysIn(model, lo, Some(middle)), KeysIn(model, Some(middle), hi);
    assert before !! last;
    SubsetSize(before + last, KeysIn(model, lo, hi));
  }

  /** The first m live children of a node together hold at least m times what one of them holds. */
  lemma {:induction false} ChildrenCount(t: Index, n: InnerNode, span: Span, from: nat, upto: nat, each: nat)
    requires NodeKeys(n, span, t.nodeCapacity) && from <= upto <= n.keyCount
    requires forall i :: from <= i <= upto ==> |KeysIn(t.model, Gap(n, span, i).lo, Gap(n, span, i).hi)| >= each
    ensures |KeysIn(t.model, Gap(n, span, from).lo, Gap(n, span, upto).hi)| >= (upto - from + 1) * each
    decreases upto - from
  {
    if from < upto {
      ChildrenCount(t, n, span, from, upto - 1, each);
      KeysJoin(t.model, Gap(n, span, from).lo, n.entries[upto].key.value, Gap(n, span, upto).hi);
      assert from > 0 ==> n.entries[from].key.value < n.entries[upto].key.value;
      assert (upto - from) * each + each == (upto - from + 1) * each;
    }
  }

  lemma {:induction false} SubtreeCount(t: Index, p: PageId)
    requires Good(t) && t.erased == {} && p in t.info && p != t.root
    ensures |KeysIn(t.model, t.info[p].lo, t.info[p].hi)| >= Least(t, t.info[p].level)
    decreases t.info[p].level
  {
    assert PageOk(t, p) && HalfFull(t, p);
    var span := t.info[p];
    if span.level == 0 {
      LeafKeyCount(t.pages[p].leaf, t.pages[p].leaf.keyCount, KeysIn(t.model, span.lo, span.hi));
    } else {
      var n := t.pages[p].node;
      NodeCount(t, p, 1);
      LeastStep(t, span.level);
      MulMonotone(n.keyCount, t.nodeCapacity / 2, Least(t, span.level - 1));
    }
  }

  lemma MulMonotone(a: nat, b: nat, c: nat)
    requires a >= b
    ensures a * c >= b * c
  {
  }

  /** A node holds at least the least number of keys once for each live child it counts. */
  lemma {:induction false} NodeCount(t: Index, p: PageId, from: nat)
    requires Good(t) && t.erased == {} && p in t.info && t.info[p].level > 0
    requires IsInner(t, p) && from <= t.pages[p].node.keyCount < |t.pages[p].node.entries|
    requires from == 0 ==> t.info[p].lo == None
    ensures |KeysIn(t.model, t.info[p].lo, t.info[p].hi)|
         >= (t.pages[p].node.keyCount - from + 1) * Least(t, t.info[p].level - 1)
    decreases t.info[p].level, 0
  {
    assert PageOk(t, p);
    var n, span := t.pages[p].node, t.info[p];
    forall i | from <= i <= n.keyCount
      ensures |KeysIn(t.model, Gap(n, span, i).lo, Gap(n, span, i).hi)| >= Least(t, span.level - 1)
    {
      assert ChildOk(n, span, i, t.info);
      SubtreeCount(t, n.entries[i].value);
    }
    ChildrenCount(t, n, span, from, n.keyCount, Least(t, span.level - 1));
    SubsetSize(KeysIn(t.model, Gap(n, span, from).lo, span.hi), KeysIn(t.model, span.lo, span.hi));
  }

  /** Insert-only trees of height h >= 1 hold at least 2 * (N/2)^(h-1) * (L/2) keys. */
  lemma {:induction false} SizeBound(t: Index)
    requires Good(t) && t.erased == {} && t.height >= 1
    ensures t.treeSize >= 2 * Pow(t.nodeCapacity / 2, t.height - 1) * (t.leafCapacity / 2)
  {
    assert PageOk(t, t.root);
    NodeCount(t, t.root, 0);
    var each := Least(t, t.height - 1);
    MulMonotone(t.pages[t.root].node.keyCount + 1, 2, each);
    SubsetSize(KeysIn(t.model, None, None), t.model.Keys);
    MulAssoc(2, Pow(t.nodeCapacity / 2, t.height - 1), t.leafCapacity / 2);
  }
}
