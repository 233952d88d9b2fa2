/** Singly linked chains of hash table entries in memory, and counting over them. */
module Chains {

  /** An entry: its key and the address of the next one. */
  datatype Node<A, K> = Node(key: K, next: A)

  /** The entries met from head until the null address. */
  ghost predicate Linked<A, K>(memory: map<A, Node<A, K>>, nil: A, head: A, chain: seq<A>) {
    if chain == [] then head == nil
    else
      && head == chain[0] && head != nil && head in memory
      && Linked(memory, nil, memory[head].next, chain[1..])
  }

  /** How many entries of a chain hold a key. */
  ghost function Count<A, K>(memory: map<A, Node<A, K>>, chain: seq<A>, key: K): nat {
    if chain == [] then 0
    else (if chain[0] in memory && memory[chain[0]].key == key then 1 else 0) + Count(memory, chain[1..], key)
  }

  /** A chain is determined by its head. */
  lemma {:induction false} LinkedUnique<A, K>(memory: map<A, Node<A, K>>, nil: A, head: A, chain: seq<A>, other: seq<A>)
    requires Linked(memory, nil, head, chain) && Linked(memory, nil, head, other)
    ensures chain == other
    decreases |chain|
  {
    if chain != [] {
      LinkedUnique(memory, nil, memory[head].next, chain[1..], other[1..]);
      assert chain == [chain[0]] + chain[1..] && other == [other[0]] + other[1..];
    }
  }

  lemma {:induction false} LinkedSuffix<A, K>(memory: map<A, Node<A, K>>, nil: A, head: A, chain: seq<A>, i: nat)
    requires Linked(memory, nil, head, chain) && i < |chain|
    ensures Linked(memory, nil, chain[i], chain[i..])
  {
    if i > 0 {
      LinkedSuffix(memory, nil, memory[head].next, chain[1..], i - 1);
      assert chain[1..][i - 1..] == chain[i..];
    }
  }

  /** A chain that reaches null meets no entry twice. */
  lemma Acyclic<A, K>(memory: map<A, Node<A, K>>, nil: A, head: A, chain: seq<A>, i: nat, j: nat)
    requires Linked(memory, nil, head, chain) && i < j < |chain|
    ensures chain[i] != chain[j]
  {
    LinkedSuffix(memory, nil, head, chain, i);
    LinkedSuffix(memory, nil, head, chain, j);
    if chain[i] == chain[j] {
      LinkedUnique(memory, nil, chain[i], chain[i..], chain[j..]);
    }
  }

  /** Writing the next field of an entry off the chain leaves the chain as it is. */
  lemma {:induction false} LinkedFrame<A, K>(memory: map<A, Node<A, K>>, nil: A, head: A, chain: seq<A>, entry: A,
                                             node: Node<A, K>)
    requires Linked(memory, nil, head, chain) && entry !in chain
    ensures Linked(memory[entry := node], nil, head, chain)
  {
    if chain != [] {
      LinkedFrame(memory, nil, memory[head].next, chain[1..], entry, node);
    }
  }

  /** Memory that agrees on the keys counts alike. */
  lemma {:induction false} CountFrame<A, K>(memory: map<A, Node<A, K>>, memory': map<A, Node<A, K>>, chain: seq<A>,
                                            key: K)
    requires forall e :: e in chain ==> e in memory && e in memory' && memory'[e].key == memory[e].key
    ensures Count(memory', chain, key) == Count(memory, chain, key)
  {
    if chain != [] {
      assert chain[0] in chain;
      CountFrame(memory, memory', chain[1..], key);
    }
  }

  lemma {:induction false} CountAppend<A, K>(memory: map<A, Node<A, K>>, a: seq<A>, b: seq<A>, key: K)
    ensures Count(memory, a + b, key) == Count(memory, a, key) + Count(memory, b, key)
  {
    if a == [] {
      assert a + b == b;
    } else {
      assert (a + b)[1..] == a[1..] + b;
      CountAppend(memory, a[1..], b, key);
    }
  }

  lemma TakeOut<A, K>(memory: map<A, Node<A, K>>, b: seq<A>, x: A, key: K) returns (rest: seq<A>)
    requires x in b
    ensures multiset(b) == multiset{x} + multiset(rest)
    ensures Count(memory, b, key) == Count(memory, [x], key) + Count(memory, rest, key)
  {
    var i :| 0 <= i < |b| && b[i] == x;
    rest := b[..i] + b[i + 1..];
    assert b == b[..i] + ([x] + b[i + 1..]);
    CountAppend(memory, b[..i], [x] + b[i + 1..], key);
    CountAppend(memory, [x], b[i + 1..], key);
    CountAppend(memory, b[..i], b[i + 1..], key);
  }

  /** Counting does not depend on the order. */
  lemma {:induction false} CountOrder<A, K>(memory: map<A, Node<A, K>>, a: seq<A>, b: seq<A>, key: K)
    requires multiset(a) == multiset(b)
    ensures Count(memory, a, key) == Count(memory, b, key)
    decreases |a|
  {
    if a == [] {
      assert |b| == |multiset(b)|;
    } else {
      assert a[0] in multiset(b);
      var rest := TakeOut(memory, b, a[0], key);
      assert a == [a[0]] + a[1..];
      assert multiset(a) == multiset{a[0]} + multiset(a[1..]);
      SameRest(multiset(a[1..]), multiset(rest), a[0]);
      CountOrder(memory, a[1..], rest, key);
      CountAppend(memory, [a[0]], a[1..], key);
    }
  }

  lemma SameRest<A>(a: multiset<A>, b: multiset<A>, x: A)
    requires multiset{x} + a == multiset{x} + b
    ensures a == b
  {
    assert a == (multiset{x} + a) - multiset{x} && b == (multiset{x} + b) - multiset{x};
  }

  // ----- the selected elements of a sequence

  ghost function Selected<T>(xs: seq<T>, on: seq<bool>): seq<T>
    requires |xs| == |on|
  {
    if xs == [] then []
    else
      var n := |xs| - 1;
      Selected(xs[..n], on[..n]) + if on[n] then [xs[n]] else []
  }

  lemma {:induction false} NoneSelected<T>(xs: seq<T>, on: seq<bool>)
    requires |xs| == |on| && forall i :: 0 <= i < |on| ==> !on[i]
    ensures Selected(xs, on) == []
  {
    if xs != [] {
      NoneSelected(xs[..|xs| - 1], on[..|on| - 1]);
    }
  }

  ghost function IndexOf<T>(xs: seq<T>, x: T): (i: nat)
    requires x in xs
    ensures i < |xs| && xs[i] == x
  {
    var i :| 0 <= i < |xs| && xs[i] == x;
    i
  }

  /** Selecting one more element adds exactly it. */
  lemma {:induction false} SelectMore<T>(xs: seq<T>, on: seq<bool>, t: nat)
    requires |xs| == |on| && t < |xs| && !on[t]
    ensures multiset(Selected(xs, on[t := true])) == multiset(Selected(xs, on)) + multiset{xs[t]}
  {
    var n := |xs| - 1;
    if t < n {
      SelectMore(xs[..n], on[..n], t);
      assert on[t := true][..n] == on[..n][t := true];
    } else {
      assert on[t := true][..n] == on[..n];
    }
  }

  /** Selecting three positions selects three elements. */
  lemma SelectThree<T>(xs: seq<T>, on: seq<bool>, i: nat, j: nat, t: nat)
    requires |xs| == |on| && i < |xs| && j < |xs| && t < |xs| && i != j && i != t && j != t
    requires forall u :: 0 <= u < |xs| ==> (on[u] <==> u == i || u == j || u == t)
    ensures |Selected(xs, on)| == 3
  {
    var none := seq(|xs|, u => false);
    NoneSelected(xs, none);
    var one := none[i := true];
    var two := one[j := true];
    assert on == two[t := true];
    SelectMore(xs, none, i);
    SelectMore(xs, one, j);
    SelectMore(xs, two, t);
    hide Selected;
    assert |multiset(Selected(xs, on))| == 3;
  }

  lemma {:induction false} SelectedFrom<T>(xs: seq<T>, on: seq<bool>, x: T)
    requires |xs| == |on|
    ensures x in Selected(xs, on) <==> exists i :: 0 <= i < |xs| && on[i] && xs[i] == x
  {
    if xs != [] {
      var n := |xs| - 1;
      SelectedFrom(xs[..n], on[..n], x);
      if on[n] && xs[n] == x {
        assert x in Selected(xs, on);
      }
    }
  }

  /** Counting a key over selected entries counts it among their keys. */
  lemma {:induction false} CountSelected<A, K>(memory: map<A, Node<A, K>>, entries: seq<A>, keys: seq<K>,
                                               on: seq<bool>, key: K)
    requires |entries| == |keys| == |on|
    requires forall i :: 0 <= i < |entries| ==> entries[i] in memory && memory[entries[i]].key == keys[i]
    ensures Count(memory, Selected(entries, on), key) == multiset(Selected(keys, on))[key]
  {
    if entries != [] {
      var n := |entries| - 1;
      CountSelected(memory, entries[..n], keys[..n], on[..n], key);
      if on[n] {
        CountAppend(memory, Selected(entries[..n], on[..n]), [entries[n]], key);
      } else {
        assert Selected(entries, on) == Selected(entries[..n], on[..n]);
      }
    }
  }

  /** Where every occurrence of a key is selected, none is missed. */
  lemma {:induction false} SelectedAll<K>(keys: seq<K>, on: seq<bool>, key: K)
    requires |keys| == |on| && forall i :: 0 <= i < |keys| && keys[i] == key ==> on[i]
    ensures multiset(Selected(keys, on))[key] == multiset(keys)[key]
  {
    if keys != [] {
      var n := |keys| - 1;
      SelectedAll(keys[..n], on[..n], key);
      assert keys == keys[..n] + [keys[n]];
    }
  }

  ghost predicate Distinct<T>(xs: seq<T>) {
    forall i, j :: 0 <= i < j < |xs| ==> xs[i] != xs[j]
  }

  /** A chain of exactly the selected entries, each once. */
  ghost predicate Holds<A, K>(memory: map<A, Node<A, K>>, nil: A, head: A, chain: seq<A>, entries: seq<A>,
                              on: seq<bool>) {
    && |entries| == |on|
    && Linked(memory, nil, head, chain)
    && multiset(chain) == multiset(Selected(entries, on))
  }

  /** Pushing an entry that points to the head. */
  lemma Push<A, K>(memory: map<A, Node<A, K>>, nil: A, head: A, chain: seq<A>, entries: seq<A>, on: seq<bool>, t: nat)
    requires Holds(memory, nil, head, chain, entries, on) && t < |entries| && !on[t]
    requires entries[t] != nil && entries[t] in memory && memory[entries[t]].next == head
    ensures Holds(memory, nil, entries[t], [entries[t]] + chain, entries, on[t := true])
  {
    SelectMore(entries, on, t);
    assert ([entries[t]] + chain)[1..] == chain;
  }

  /** Setting the next field of an entry not yet selected. */
  lemma SetNext<A, K>(memory: map<A, Node<A, K>>, nil: A, head: A, chain: seq<A>, entries: seq<A>, on: seq<bool>,
                      t: nat, node: Node<A, K>)
    requires Holds(memory, nil, head, chain, entries, on) && t < |entries| && !on[t] && Distinct(entries)
    ensures Holds(memory[entries[t] := node], nil, head, chain, entries, on)
  {
    SelectedFrom(entries, on, entries[t]);
    assert entries[t] !in multiset(chain);
    LinkedFrame(memory, nil, head, chain, entries[t], node);
  }

  /** A chain of the entries of one bucket counts a key of that bucket exactly. */
  lemma ChainCounts<A, K>(memory: map<A, Node<A, K>>, nil: A, head: A, chain: seq<A>, entries: seq<A>, keys: seq<K>,
                          on: seq<bool>, key: K)
    requires Holds(memory, nil, head, chain, entries, on) && |keys| == |entries|
    requires forall i :: 0 <= i < |entries| ==> entries[i] in memory && memory[entries[i]].key == keys[i]
    requires forall i :: 0 <= i < |keys| && keys[i] == key ==> on[i]
    ensures Count(memory, chain, key) == multiset(keys)[key]
  {
    CountOrder(memory, chain, Selected(entries, on), key);
    CountSelected(memory, entries, keys, on, key);
    SelectedAll(keys, on, key);
  }
}
