/** The lock-free linear probing table: claim a slot's marker, then write its key. */
module LinearProbingHT {
  import opened Basics
  import opened Chains
  import opened Schedules

  /** A slot; its key is unwritten until the claiming insert writes it. */
  datatype Slot = Slot(marker: bool, key: Option<nat>)

  /** A build phase of at most buildSize inserts. */
  datatype Build = Build(keys: seq<nat>, buildSize: nat, hashKey: nat -> nat) {
    predicate Valid() {
      buildSize > 0 && |keys| <= buildSize
    }

    function Size(): nat {
      buildSize * 5
    }

    function Home(key: nat): nat
      requires Size() > 0
    {
      hashKey(key) % Size()
    }
  }

  /** Where an insert stands, always at a slot. */
  datatype Pc =
    | ReadMarker(slot: nat)
    | Claim(slot: nat)
    | WriteKey(slot: nat)
    | SetMarker(slot: nat)
    | Finished(slot: nat)
  {
    predicate Owns() {
      WriteKey? || SetMarker? || Finished?
    }

    predicate Wrote() {
      SetMarker? || Finished?
    }
  }

  datatype State = State(slots: seq<Slot>, pcs: seq<Pc>)

  ghost predicate Shaped(b: Build, s: State) {
    && b.Valid() && |s.slots| == b.Size() && |s.pcs| == |b.keys|
    && forall t :: 0 <= t < |s.pcs| ==> s.pcs[t].slot < b.Size()
  }

  ghost function Init(b: Build): State
    requires b.Valid()
  {
    State(seq(b.Size(), i => Slot(false, None)),
          seq(|b.keys|, t requires 0 <= t < |b.keys| => ReadMarker(b.Home(b.keys[t]))))
  }

  /** One atomic step of insert t. */
  ghost function Step(b: Build, s: State, t: nat): (s': State)
    requires Shaped(b, s)
    ensures Shaped(b, s')
  {
    if t >= |s.pcs| then s
    else
      var i := s.pcs[t].slot;
      match s.pcs[t]
      case ReadMarker(_) =>
        s.(pcs := s.pcs[t := if s.slots[i].marker then ReadMarker((i + 1) % b.Size()) else Claim(i)])
      case Claim(_) =>
        if s.slots[i].marker then s.(pcs := s.pcs[t := ReadMarker((i + 1) % b.Size())])
        else s.(slots := s.slots[i := s.slots[i].(marker := true)], pcs := s.pcs[t := WriteKey(i)])
      case WriteKey(_) =>
        s.(slots := s.slots[i := s.slots[i].(key := Some(b.keys[t]))], pcs := s.pcs[t := SetMarker(i)])
      case SetMarker(_) =>
        s.(slots := s.slots[i := s.slots[i].(marker := true)], pcs := s.pcs[t := Finished(i)])
      case Finished(_) => s
  }

  ghost function Run(b: Build, schedule: seq<nat>): (s: State)
    requires b.Valid()
    ensures Shaped(b, s)
  {
    if schedule == [] then Init(b)
    else Step(b, Run(b, schedule[..|schedule| - 1]), schedule[|schedule| - 1])
  }

  // ----- going around

  /** How far a slot lies behind another, going around the table. */
  function Distance(from: nat, to: nat, size: nat): nat
    requires from < size && to < size
  {
    if from <= to then to - from else to + size - from
  }

  lemma NextSlot(i: nat, size: nat)
    requires i < size
    ensures (i + 1) % size == if i + 1 == size then 0 else i + 1
  {
  }

  // ----- the invariant

  /** All slots from the home of insert t up to where it stands are marked. */
  ghost predicate PathMarked(b: Build, s: State, t: nat)
    requires Shaped(b, s) && t < |s.pcs|
  {
    forall j :: 0 <= j < b.Size() &&
      Distance(b.Home(b.keys[t]), j, b.Size()) < Distance(b.Home(b.keys[t]), s.pcs[t].slot, b.Size())
      ==> s.slots[j].marker
  }

  ghost predicate OwnsSlot(b: Build, s: State, t: nat, i: nat)
    requires Shaped(b, s)
  {
    t < |s.pcs| && s.pcs[t].Owns() && s.pcs[t].slot == i
  }

  /** A slot is marked exactly when some insert owns it, and shows that insert's key once it is written. */
  ghost predicate SlotInv(b: Build, s: State, i: nat)
    requires Shaped(b, s) && i < b.Size()
  {
    && (s.slots[i].marker <==> exists t: nat :: OwnsSlot(b, s, t, i))
    && (s.slots[i].key.Some? ==>
         exists t: nat :: OwnsSlot(b, s, t, i) && s.pcs[t].Wrote() && s.slots[i].key == Some(b.keys[t]))
  }

  ghost predicate Inv(b: Build, s: State) {
    && Shaped(b, s)
    && (forall t: nat, u: nat, i: nat :: OwnsSlot(b, s, t, i) && OwnsSlot(b, s, u, i) ==> t == u)
    && (forall t :: 0 <= t < |s.pcs| ==> PathMarked(b, s, t))
    && (forall i :: 0 <= i < b.Size() ==> SlotInv(b, s, i))
    && (forall t :: 0 <= t < |s.pcs| && s.pcs[t].Wrote() ==> s.slots[s.pcs[t].slot].key == Some(b.keys[t]))
    && StoredKeys(s.slots) == multiset(Selected(b.keys, Written(b, s)))
  }

  /** The keys written to slots. */
  ghost function StoredKeys(slots: seq<Slot>): multiset<nat> {
    if slots == [] then multiset{}
    else
      var n := |slots| - 1;
      StoredKeys(slots[..n]) + if slots[n].key.Some? then multiset{slots[n].key.value} else multiset{}
  }

  ghost function Written(b: Build, s: State): seq<bool>
    requires Shaped(b, s)
  {
    seq(|s.pcs|, t requires 0 <= t < |s.pcs| => s.pcs[t].Wrote())
  }

  lemma StoredLast(slots: seq<Slot>)
    requires slots != []
    ensures var n := |slots| - 1;
            StoredKeys(slots)
            == StoredKeys(slots[..n]) + if slots[n].key.Some? then multiset{slots[n].key.value} else multiset{}
  {
  }

  lemma {:induction false} StoredMore(slots: seq<Slot>, i: nat, key: nat)
    requires i < |slots| && slots[i].key == None
    ensures StoredKeys(slots[i := slots[i].(key := Some(key))]) == StoredKeys(slots) + multiset{key}
  {
    hide StoredKeys;
    var n := |slots| - 1;
    var slots' := slots[i := slots[i].(key := Some(key))];
    StoredLast(slots);
    StoredLast(slots');
    if i < n {
      StoredMore(slots[..n], i, key);
      assert slots'[..n] == slots[..n][i := slots[i].(key := Some(key))];
    } else {
      assert slots'[..n] == slots[..n];
    }
  }

  lemma {:induction false} StoredSame(slots: seq<Slot>, slots': seq<Slot>)
    requires |slots| == |slots'| && forall i :: 0 <= i < |slots| ==> slots'[i].key == slots[i].key
    ensures StoredKeys(slots') == StoredKeys(slots)
  {
    if slots != [] {
      StoredSame(slots[..|slots| - 1], slots'[..|slots| - 1]);
    }
  }

  lemma {:induction false} NothingStored(slots: seq<Slot>)
    requires forall i :: 0 <= i < |slots| ==> slots[i].key == None
    ensures StoredKeys(slots) == multiset{}
  {
    if slots != [] {
      NothingStored(slots[..|slots| - 1]);
    }
  }

  lemma InitInv(b: Build)
    requires b.Valid()
    ensures Inv(b, Init(b))
  {
    NothingStored(Init(b).slots);
    NoneSelected(b.keys, Written(b, Init(b)));
  }

  lemma NotYetWritten(b: Build, s: State, t: nat)
    requires Inv(b, s) && t < |s.pcs| && s.pcs[t].WriteKey?
    ensures s.slots[s.pcs[t].slot].key == None
  {
    var i := s.pcs[t].slot;
    assert OwnsSlot(b, s, t, i) && SlotInv(b, s, i);
  }

  /** The stored keys stay the written ones. */
  lemma StoredStep(b: Build, s: State, t: nat)
    requires Inv(b, s)
    ensures StoredKeys(Step(b, s, t).slots) == multiset(Selected(b.keys, Written(b, Step(b, s, t))))
  {
    var s' := Step(b, s, t);
    if t < |s.pcs| && s.pcs[t].WriteKey? {
      var i := s.pcs[t].slot;
      NotYetWritten(b, s, t);
      hide Selected, StoredKeys, SlotInv, PathMarked, OwnsSlot;
      assert Written(b, s') == Written(b, s)[t := true];
      SelectMore(b.keys, Written(b, s), t);
      StoredMore(s.slots, i, b.keys[t]);
    } else {
      hide Selected, StoredKeys, SlotInv, PathMarked, OwnsSlot;
      assert Written(b, s') == Written(b, s);
      StoredSame(s.slots, s'.slots);
    }
  }

  /** Claims stay distinct and slots keep showing their owner. */
  lemma SlotsStep(b: Build, s: State, t: nat)
    requires Inv(b, s)
    ensures var s' := Step(b, s, t);
            && (forall u: nat, v: nat, i: nat :: OwnsSlot(b, s', u, i) && OwnsSlot(b, s', v, i) ==> u == v)
            && (forall i :: 0 <= i < b.Size() ==> SlotInv(b, s', i))
            && (forall u :: 0 <= u < |s'.pcs| && s'.pcs[u].Wrote() ==> s'.slots[s'.pcs[u].slot].key == Some(b.keys[u]))
  {
    hide Selected, StoredKeys, PathMarked;
    var s' := Step(b, s, t);
    if t < |s.pcs| {
      var k := s.pcs[t].slot;
      assert SlotInv(b, s, k);
      forall u: nat, v: nat, i: nat | OwnsSlot(b, s', u, i) && OwnsSlot(b, s', v, i) ensures u == v {
        assert u != t || s.pcs[t].Owns() ==> OwnsSlot(b, s, u, i);
        assert v != t || s.pcs[t].Owns() ==> OwnsSlot(b, s, v, i);
      }
      forall u | 0 <= u < |s'.pcs| && s'.pcs[u].Wrote() ensures s'.slots[s'.pcs[u].slot].key == Some(b.keys[u]) {
        assert OwnsSlot(b, s', u, s'.pcs[u].slot);
        assert u != t ==> OwnsSlot(b, s, u, s.pcs[u].slot);
        assert s.pcs[t].Owns() ==> OwnsSlot(b, s, t, k);
      }
      forall i | 0 <= i < b.Size() ensures SlotInv(b, s', i) {
        SlotStep(b, s, t, i);
      }
    }
  }

  lemma SlotStep(b: Build, s: State, t: nat, i: nat)
    requires Inv(b, s) && t < |s.pcs| && i < b.Size()
    ensures SlotInv(b, Step(b, s, t), i)
  {
    hide Selected, StoredKeys, PathMarked;
    var s' := Step(b, s, t);
    assert SlotInv(b, s, i);
    forall u: nat | OwnsSlot(b, s, u, i) ensures OwnsSlot(b, s', u, i) {
    }
    if s.pcs[t].slot == i && s'.pcs[t].Owns() {
      assert OwnsSlot(b, s', t, i);
      assert s.pcs[t].Owns() ==> OwnsSlot(b, s, t, i);
    }
    if s'.slots[i].key.Some? && s.slots[i].key.Some? {
      var u: nat :| OwnsSlot(b, s, u, i) && s.pcs[u].Wrote() && s.slots[i].key == Some(b.keys[u]);
      assert OwnsSlot(b, s', u, i) && s'.pcs[u].Wrote();
    }
    forall u: nat | OwnsSlot(b, s', u, i) && u != t ensures OwnsSlot(b, s, u, i) {
    }
  }

  /** The slots an insert passed stay marked, and it only goes on past a marked one. */
  lemma PathStep(b: Build, s: State, t: nat, u: nat)
    requires Inv(b, s) && u < |s.pcs|
    ensures PathMarked(b, Step(b, s, t), u)
  {
    hide Selected, StoredKeys, SlotInv;
    assert PathMarked(b, s, u);
    NextSlot(s.pcs[u].slot, b.Size());
  }

  lemma StepInv(b: Build, s: State, t: nat)
    requires Inv(b, s)
    ensures Inv(b, Step(b, s, t))
  {
    StoredStep(b, s, t);
    SlotsStep(b, s, t);
    hide Selected, StoredKeys, SlotInv, PathMarked, OwnsSlot;
    forall u | 0 <= u < |s.pcs| ensures PathMarked(b, Step(b, s, t), u) {
      PathStep(b, s, t, u);
    }
  }

  /** In every reachable state each insert has a slot of its own and everything it passed is marked. */
  lemma {:induction false} RunInv(b: Build, schedule: seq<nat>)
    requires b.Valid()
    ensures Inv(b, Run(b, schedule))
  {
    if schedule == [] {
      InitInv(b);
    } else {
      RunInv(b, schedule[..|schedule| - 1]);
      StepInv(b, Run(b, schedule[..|schedule| - 1]), schedule[|schedule| - 1]);
    }
  }

  // ----- the table is never full

  lemma {:induction false} FewSlots(pcs: seq<Pc>, slots: set<nat>)
    requires forall i :: i in slots ==> exists t :: 0 <= t < |pcs| && pcs[t].slot == i
    ensures |slots| <= |pcs|
    decreases |pcs|
  {
    if pcs == [] {
      assert slots == {};
    } else {
      var n := |pcs| - 1;
      var rest := slots - {pcs[n].slot};
      forall i | i in rest ensures exists t :: 0 <= t < n && pcs[..n][t].slot == i {
        var t :| 0 <= t < |pcs| && pcs[t].slot == i;
        assert pcs[..n][t].slot == i;
      }
      FewSlots(pcs[..n], rest);
      assert slots <= rest + {pcs[n].slot};
      SubsetSize(slots, rest + {pcs[n].slot});
    }
  }

  /** At most buildSize inserts never fill five times as many slots. */
  lemma NeverFull(b: Build, s: State)
    requires Inv(b, s)
    ensures exists i :: 0 <= i < b.Size() && !s.slots[i].marker
  {
    if forall i :: 0 <= i < b.Size() ==> s.slots[i].marker {
      var all := FirstNumbers(b.Size());
      forall i | i in all ensures exists t :: 0 <= t < |s.pcs| && s.pcs[t].slot == i {
        assert SlotInv(b, s, i);
        var t: nat :| OwnsSlot(b, s, t, i);
      }
      FewSlots(s.pcs, all);
    }
  }

  /** An insert that has to go on never comes back to its home slot: it gets one slot further away each time. */
  lemma NeverWraps(b: Build, s: State, t: nat)
    requires Inv(b, s) && t < |s.pcs| && !s.pcs[t].Owns() && s.slots[s.pcs[t].slot].marker
    ensures var home := b.Home(b.keys[t]);
            var s' := Step(b, s, t);
            Distance(home, s'.pcs[t].slot, b.Size()) == Distance(home, s.pcs[t].slot, b.Size()) + 1
  {
    var home, i := b.Home(b.keys[t]), s.pcs[t].slot;
    NextSlot(i, b.Size());
    NeverFull(b, s);
    assert PathMarked(b, s, t);
    var free :| 0 <= free < b.Size() && !s.slots[free].marker;
    assert Distance(home, free, b.Size()) > Distance(home, i, b.Size());
  }

  // ----- every insert ends

  /** At least the steps an insert has taken to get where it stands: two for each slot it passed, one for each access to
      the slot it took. */
  ghost function Progress(b: Build, s: State, t: nat): nat
    requires Shaped(b, s) && t < |s.pcs|
  {
    2 * Distance(b.Home(b.keys[t]), s.pcs[t].slot, b.Size())
    + match s.pcs[t]
      case ReadMarker(_) => 0
      case Claim(_) => 1
      case WriteKey(_) => 2
      case SetMarker(_) => 3
      case Finished(_) => 4
  }

  lemma ProgressStep(b: Build, s: State, t: nat)
    requires Inv(b, s) && t < |s.pcs| && !s.pcs[t].Finished?
    ensures Progress(b, Step(b, s, t), t) > Progress(b, s, t)
  {
    if !s.pcs[t].Owns() && s.slots[s.pcs[t].slot].marker {
      NeverWraps(b, s, t);
    }
    hide Inv;
  }

  lemma {:induction false} TurnsAreProgress(b: Build, schedule: seq<nat>, t: nat)
    requires b.Valid() && t < |b.keys|
    ensures var s := Run(b, schedule); s.pcs[t].Finished? || Turns(schedule, t) <= Progress(b, s, t)
  {
    if schedule != [] {
      var before, u := schedule[..|schedule| - 1], schedule[|schedule| - 1];
      TurnsAreProgress(b, before, t);
      RunInv(b, before);
      hide Inv, Distance;
      if u == t && !Run(b, before).pcs[t].Finished? {
        ProgressStep(b, Run(b, before), t);
      }
    }
  }

  /** However the inserts are interleaved, an insert has returned after two steps for each slot and two more. */
  lemma InsertEnds(b: Build, schedule: seq<nat>, t: nat)
    requires b.Valid() && t < |b.keys| && Turns(schedule, t) >= 10 * b.buildSize + 2
    ensures Run(b, schedule).pcs[t].Finished?
  {
    TurnsAreProgress(b, schedule, t);
  }

  /** So every build phase can come to its end. */
  lemma AllReturn(b: Build) returns (schedule: seq<nat>)
    requires b.Valid()
    ensures forall t :: 0 <= t < |b.keys| ==> Run(b, schedule).pcs[t].Finished?
  {
    schedule := EveryTurn(|b.keys|, 10 * b.buildSize + 2);
    forall t | 0 <= t < |b.keys| ensures Run(b, schedule).pcs[t].Finished? {
      InsertEnds(b, schedule, t);
    }
  }

  // ----- lookup

  /** How many of the slots from..upto show a key. */
  ghost function CountRange(slots: seq<Slot>, from: nat, upto: nat, key: nat): nat
    requires from <= upto <= |slots|
    decreases upto
  {
    if from == upto then 0
    else CountRange(slots, from, upto - 1, key) + if slots[upto - 1].key == Some(key) then 1 else 0
  }

  lemma {:induction false} CountNone(slots: seq<Slot>, from: nat, upto: nat, key: nat)
    requires from <= upto <= |slots| && forall j :: from <= j < upto ==> slots[j].key != Some(key)
    ensures CountRange(slots, from, upto, key) == 0
    decreases upto
  {
    if from < upto {
      CountNone(slots, from, upto - 1, key);
    }
  }

  lemma {:induction false} CountSplit(slots: seq<Slot>, from: nat, mid: nat, upto: nat, key: nat)
    requires from <= mid <= upto <= |slots|
    ensures CountRange(slots, from, upto, key) == CountRange(slots, from, mid, key) + CountRange(slots, mid, upto, key)
    decreases upto
  {
    if mid < upto {
      CountSplit(slots, from, mid, upto - 1, key);
    }
  }

  lemma {:induction false} CountStored(slots: seq<Slot>, n: nat, key: nat)
    requires n <= |slots|
    ensures CountRange(slots, 0, n, key) == StoredKeys(slots[..n])[key]
  {
    if n > 0 {
      CountStored(slots, n - 1, key);
      assert slots[..n][..n - 1] == slots[..n - 1];
      StoredLast(slots[..n]);
      hide StoredKeys;
    }
  }

  /** The slots met after d moves from a home slot, going around. */
  ghost function CountAround(slots: seq<Slot>, home: nat, d: nat, key: nat): nat
    requires home < |slots| && d <= |slots|
  {
    if home + d <= |slots| then CountRange(slots, home, home + d, key)
    else CountRange(slots, home, |slots|, key) + CountRange(slots, 0, home + d - |slots|, key)
  }

  /** Every slot that shows the key lies before the first unmarked slot after the key's home. */
  lemma Reached(b: Build, s: State, key: nat, pos: nat, j: nat)
    requires Inv(b, s) && pos < b.Size() && j < b.Size()
    requires !s.slots[pos].marker && s.slots[j].key == Some(key)
    ensures Distance(b.Home(key), j, b.Size()) < Distance(b.Home(key), pos, b.Size())
  {
    assert SlotInv(b, s, j) && SlotInv(b, s, pos);
    var t: nat :| OwnsSlot(b, s, t, j) && s.slots[j].key == Some(b.keys[t]);
    assert PathMarked(b, s, t);
  }

  /** Having gone around to an unmarked slot, or once around, all of a key's slots were met. */
  lemma AllMet(b: Build, s: State, key: nat, d: nat, pos: nat)
    requires Inv(b, s) && d <= b.Size() && pos < b.Size()
    requires d == b.Size() || (!s.slots[pos].marker && d == Distance(b.Home(key), pos, b.Size()))
    ensures CountAround(s.slots, b.Home(key), d, key) == StoredKeys(s.slots)[key]
  {
    var home, size := b.Home(key), b.Size();
    hide Inv, StoredKeys, CountRange;
    CountStored(s.slots, size, key);
    assert s.slots[..size] == s.slots;
    if d < size {
      forall j | 0 <= j < size && Distance(home, j, size) >= d ensures s.slots[j].key != Some(key) {
        if s.slots[j].key == Some(key) {
          Reached(b, s, key, pos, j);
        }
      }
    }
    CountAll(s.slots, home, d, key);
  }

  /** Going around counts all when nothing lies beyond. */
  lemma CountAll(slots: seq<Slot>, home: nat, d: nat, key: nat)
    requires home < |slots| && d <= |slots|
    requires forall j :: 0 <= j < |slots| && Distance(home, j, |slots|) >= d ==> slots[j].key != Some(key)
    ensures CountAround(slots, home, d, key) == CountRange(slots, 0, |slots|, key)
  {
    var size := |slots|;
    hide CountRange;
    CountSplit(slots, 0, home, size, key);
    if home + d <= size {
      CountSplit(slots, home, home + d, size, key);
      CountNone(slots, 0, if d == size then 0 else home, key);
      CountNone(slots, home + d, size, key);
    } else {
      CountSplit(slots, 0, home + d - size, home, key);
      CountNone(slots, home + d - size, home, key);
    }
  }

  lemma AtRest(b: Build, s: State, schedule: seq<nat>, key: nat)
    requires b.Valid() && s == Run(b, schedule) && forall t :: 0 <= t < |s.pcs| ==> s.pcs[t].Finished?
    ensures Inv(b, s) && StoredKeys(s.slots)[key] == multiset(b.keys)[key]
    ensures b.Size() == |s.slots| > b.Home(key)
    ensures CountAround(s.slots, b.Home(key), 0, key) == 0 && Distance(b.Home(key), b.Home(key), b.Size()) == 0
  {
    RunInv(b, schedule);
    SelectedAll(b.keys, Written(b, s), key);
  }

  /** After any build phase that came to rest, a lookup returns how often the key was inserted. */
  method Lookup(b: Build, s: State, key: nat, ghost schedule: seq<nat>) returns (count: nat)
    requires b.Valid() && s == Run(b, schedule) && forall t :: 0 <= t < |s.pcs| ==> s.pcs[t].Finished?
    ensures count == multiset(b.keys)[key]
  {
    hide *;
    AtRest(b, s, schedule, key);
    var size, pos := b.Size(), b.Home(key);
    var initialPos := pos;
    ghost var d := 0;
    count := 0;
    if s.slots[pos].marker {
      count := count + (if s.slots[pos].key == Some(key) then 1 else 0);
      MetOneMore(s.slots, initialPos, 0, key);
      pos := Next(pos, size);
      d := 1;
      while s.slots[pos].marker
        invariant 1 <= d <= size && pos == Around(initialPos, d, size)
        invariant count == CountAround(s.slots, initialPos, d, key)
        decreases size - d
      {
        AroundHome(initialPos, d, size);
        if pos == initialPos {
          break;
        }
        count := count + (if s.slots[pos].key == Some(key) then 1 else 0);
        MetOneMore(s.slots, initialPos, d, key);
        pos := Next(pos, size);
        d := d + 1;
      }
      AroundHome(initialPos, d, size);
    }
    AllMet(b, s, key, d, pos);
  }

  function Next(pos: nat, size: nat): nat
    requires size > 0
  {
    (pos + 1) % size
  }

  /** The slot d steps behind the home. */
  function Around(home: nat, d: nat, size: nat): (pos: nat)
    requires home < size && d <= size
    ensures pos < size
  {
    if home + d < size then home + d else home + d - size
  }

  lemma AroundHome(home: nat, d: nat, size: nat)
    requires home < size && 0 < d <= size
    ensures Around(home, d, size) == home <==> d == size
    ensures d < size ==> Distance(home, Around(home, d, size), size) == d
  {
  }

  lemma MetOneMore(slots: seq<Slot>, home: nat, d: nat, key: nat)
    requires home < |slots| && d < |slots|
    ensures var pos := Around(home, d, |slots|);
            && CountAround(slots, home, d + 1, key) ==
                 CountAround(slots, home, d, key) + (if slots[pos].key == Some(key) then 1 else 0)
            && Next(pos, |slots|) == Around(home, d + 1, |slots|) && (d == 0 ==> pos == home)
  {
    NextSlot(Around(home, d, |slots|), |slots|);
  }
}
