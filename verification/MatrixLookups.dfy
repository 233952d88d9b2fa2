/** What lookups in the matrix hash table return after a build phase, in every interleaving of the inserts. */
module MatrixLookups {
  import opened Chains
  import opened MatrixHT

  // ----- columns fill in order and the chain ends, whoever overwrites whom

  ghost predicate RowFormed(b: Build, s: State, row: nat, chain: seq<nat>)
    requires Shaped(b, s) && row < b.numRows
  {
    && (forall c :: 0 <= c < 3 && s.cells[row][c] != INVALID_FLAG ==> Filled(s, row, c))
    && s.cells[row][3] != 0 && (s.cells[row][3] != INVALID_FLAG ==> Filled(s, row, 3))
    && Linked(s.memory, 0, HeadOf(s.cells[row][3]), chain)
    && (forall i :: 0 <= i < |s.pcs| && s.pcs[i] != Finished(3) ==> b.entries[i] !in chain)
  }

  ghost predicate PcFormed(b: Build, s: State, t: nat)
    requires Shaped(b, s) && t < |s.pcs|
  {
    var row := b.Row(b.keys[t]);
    match s.pcs[t]
    case Scan(c, _) => Filled(s, row, c)
    case Claim(c, _) => Filled(s, row, c)
    case ReadHead => Filled(s, row, 3)
    case SetNext(_) => Filled(s, row, 3)
    case Swap(head) => Filled(s, row, 3) && s.memory[b.entries[t]].next == HeadOf(head)
    case Finished(_) => true
  }

  ghost predicate Formed(b: Build, s: State, chains: seq<seq<nat>>) {
    && Shaped(b, s) && |chains| == b.numRows
    && (forall row :: 0 <= row < b.numRows ==> RowFormed(b, s, row, chains[row]))
    && (forall t :: 0 <= t < |s.pcs| ==> PcFormed(b, s, t))
  }

  lemma CellsStay(b: Build, s: State, t: nat)
    requires Shaped(b, s)
    ensures forall row, c :: 0 <= row < b.numRows && 0 <= c < COLUMNS && s.cells[row][c] != INVALID_FLAG ==>
      Step(b, s, t).cells[row][c] != INVALID_FLAG
    ensures forall u :: 0 <= u < |s.pcs| && u != t ==>
      Step(b, s, t).pcs[u] == s.pcs[u] && Step(b, s, t).memory[b.entries[u]] == s.memory[b.entries[u]]
  {
  }

  lemma RowStep(b: Build, s: State, t: nat, row: nat, chain: seq<nat>)
    requires Shaped(b, s) && row < b.numRows && RowFormed(b, s, row, chain) && (t < |s.pcs| ==> PcFormed(b, s, t))
    ensures RowFormed(b, Step(b, s, t), row, NewChain(b, s, t, row, chain))
  {
    var s' := Step(b, s, t);
    CellsStay(b, s, t);
    if t < |s.pcs| {
      var entry := b.entries[t];
      if s.pcs[t].SetNext? {
        LinkedFrame(s.memory, 0, HeadOf(s.cells[row][3]), chain, entry, s'.memory[entry]);
      } else if NewChain(b, s, t, row, chain) != chain {
        assert ([entry] + chain)[1..] == chain;
      }
    }
    hide Linked;
  }

  lemma PcStays(b: Build, s: State, t: nat)
    requires Shaped(b, s) && forall u :: 0 <= u < |s.pcs| ==> PcFormed(b, s, u)
    ensures forall u :: 0 <= u < |s.pcs| ==> PcFormed(b, Step(b, s, t), u)
  {
    CellsStay(b, s, t);
    forall u | 0 <= u < |s.pcs| ensures PcFormed(b, Step(b, s, t), u) {
      assert PcFormed(b, s, u);
    }
  }

  /** In every reachable state of every build phase. */
  lemma {:induction false} RunFormed(b: Build, schedule: seq<nat>) returns (chains: seq<seq<nat>>)
    requires b.Valid()
    ensures Formed(b, Run(b, schedule), chains)
  {
    if schedule == [] {
      chains := seq(b.numRows, row => []);
    } else {
      var s, t := Run(b, schedule[..|schedule| - 1]), schedule[|schedule| - 1];
      var before := RunFormed(b, schedule[..|schedule| - 1]);
      chains := seq(b.numRows, row requires 0 <= row < b.numRows => NewChain(b, s, t, row, before[row]));
      forall row | 0 <= row < b.numRows ensures RowFormed(b, Step(b, s, t), row, chains[row]) {
        RowStep(b, s, t, row, before[row]);
      }
      PcStays(b, s, t);
      hide RowFormed, PcFormed, Step;
    }
  }

  // ----- lookup

  /** A lookup of the key returns n: it is in the columns and on the chain of its row so often. */
  ghost predicate Shows(b: Build, s: State, key: nat, n: nat)
    requires Shaped(b, s)
  {
    exists chain ::
      RowFormed(b, s, b.Row(key), chain) && n == ColumnKeys(s.cells[b.Row(key)])[key] + Count(s.memory, chain, key)
  }

  lemma ShowsOnce(b: Build, s: State, key: nat, n: nat, m: nat)
    requires Shaped(b, s) && Shows(b, s, key, n) && Shows(b, s, key, m)
    ensures n == m
  {
    var row := b.Row(key);
    var chain :| RowFormed(b, s, row, chain) && n == ColumnKeys(s.cells[row])[key] + Count(s.memory, chain, key);
    var other :| RowFormed(b, s, row, other) && m == ColumnKeys(s.cells[row])[key] + Count(s.memory, other, key);
    LinkedUnique(s.memory, 0, HeadOf(s.cells[row][3]), chain, other);
  }

  /** Behind an empty column there is nothing. */
  lemma EmptyFrom(b: Build, s: State, row: nat, chain: seq<nat>)
    requires Shaped(b, s) && row < b.numRows && RowFormed(b, s, row, chain)
    ensures forall c, d :: 0 <= c <= d < 3 && s.cells[row][c] == INVALID_FLAG ==> s.cells[row][d] == INVALID_FLAG
    ensures s.cells[row][3] == INVALID_FLAG || s.cells[row][2] == INVALID_FLAG ==> chain == []
    ensures Linked(s.memory, 0, HeadOf(s.cells[row][3]), chain) && s.cells[row][3] != 0
  {
  }

  /** The lookup, in any state that any interleaving leads to. */
  method Lookup(b: Build, s: State, key: nat, ghost schedule: seq<nat>) returns (count: nat)
    requires b.Valid() && s == Run(b, schedule)
    ensures Shows(b, s, key, count)
    ensures AllReturned(s) && (NoTriple(b) || Sequential(b, schedule)) ==> count == multiset(b.keys)[key]
  {
    hide Run, NoTriple, Sequential, ColumnKeys, Passed, Linked, Count, b.Row, RowFormed, PcFormed, AllReturned;
    ghost var chains := RunFormed(b, schedule);
    var row := b.Row(key);
    ghost var chain := chains[row];
    EmptyFrom(b, s, row, chain);
    if AllReturned(s) && (NoTriple(b) || Sequential(b, schedule)) {
      ShowsAll(b, schedule, key);
    }
    ghost var all := ColumnKeys(s.cells[row])[key] + Count(s.memory, chain, key);
    ShowsHere(b, s, key, chain);
    NonePassed(s.cells[row], key);
    count := 0;
    var c := 0;
    while c < COLUMNS - 1
      invariant 0 <= c <= 3 && count == Passed(s.cells[row], c, key)
      invariant forall d :: 0 <= d < c ==> s.cells[row][d] != INVALID_FLAG
    {
      if s.cells[row][c] == INVALID_FLAG {
        PassedAll(s.cells[row], c, key);
        NoneCounted(s.memory, key);
        return count;
      }
      var inc := s.cells[row][c] == key;
      PassedOneMore(s.cells[row], c, key);
      count := count + (if inc then 1 else 0);
      c := c + 1;
    }
    PassedAll(s.cells[row], 3, key);
    if c == COLUMNS - 1 && s.cells[row][c] != INVALID_FLAG {
      var hits := CountChain(s.memory, s.cells[row][3], key, chain);
      count := count + hits;
    } else {
      NoneCounted(s.memory, key);
    }
  }

  lemma ShowsHere(b: Build, s: State, key: nat, chain: seq<nat>)
    requires Shaped(b, s) && RowFormed(b, s, b.Row(key), chain)
    ensures Shows(b, s, key, ColumnKeys(s.cells[b.Row(key)])[key] + Count(s.memory, chain, key))
    ensures forall n: nat :: Shows(b, s, key, n) ==>
      n == ColumnKeys(s.cells[b.Row(key)])[key] + Count(s.memory, chain, key)
  {
    forall n: nat | Shows(b, s, key, n)
      ensures n == ColumnKeys(s.cells[b.Row(key)])[key] + Count(s.memory, chain, key)
    {
      ShowsOnce(b, s, key, n, ColumnKeys(s.cells[b.Row(key)])[key] + Count(s.memory, chain, key));
    }
  }

  /** The walk along the overflow chain, which is not empty. */
  method CountChain(memory: map<nat, Node<nat, nat>>, first: nat, key: nat, ghost chain: seq<nat>) returns (count: nat)
    requires first != 0 && Linked(memory, 0, first, chain)
    ensures count == Count(memory, chain, key)
  {
    var entry := first;
    ghost var rest := chain;
    count := 0;
    while true
      invariant entry != 0 && Linked(memory, 0, entry, rest)
      invariant count + Count(memory, rest, key) == Count(memory, chain, key)
      decreases |rest|
    {
      var inc := memory[entry].key == key;
      count := count + (if inc then 1 else 0);
      entry := memory[entry].next;
      rest := rest[1..];
      if entry == 0 {
        break;
      }
    }
  }

  ghost function Passed(cells: seq<nat>, upto: nat, key: nat): nat
    requires upto <= 3 < |cells|
  {
    if upto == 0 then 0 else Passed(cells, upto - 1, key) + if cells[upto - 1] == key then 1 else 0
  }

  lemma NonePassed(cells: seq<nat>, key: nat)
    requires |cells| == COLUMNS
    ensures Passed(cells, 0, key) == 0
  {
  }

  lemma NoneCounted(memory: map<nat, Node<nat, nat>>, key: nat)
    ensures Count(memory, [], key) == 0
  {
  }

  lemma PassedOneMore(cells: seq<nat>, c: nat, key: nat)
    requires |cells| == COLUMNS && c < 3
    ensures Passed(cells, c + 1, key) == Passed(cells, c, key) + if cells[c] == key then 1 else 0
  {
  }

  lemma PassedAll(cells: seq<nat>, upto: nat, key: nat)
    requires upto <= 3 && |cells| == COLUMNS && forall c :: 0 <= c < upto ==> cells[c] != INVALID_FLAG
    requires forall c :: upto <= c < 3 ==> cells[c] == INVALID_FLAG
    ensures ColumnKeys(cells)[key] == Passed(cells, upto, key)
  {
    assert Passed(cells, 3, key) == Passed(cells, 2, key) + if cells[2] == key then 1 else 0;
    assert Passed(cells, 2, key) == Passed(cells, 1, key) + if cells[1] == key then 1 else 0;
  }

  // ----- what was inserted and what shows

  ghost predicate AllReturned(s: State) {
    forall t :: 0 <= t < |s.pcs| ==> s.pcs[t].Finished?
  }

  lemma InvFormed(b: Build, s: State, chains: seq<seq<nat>>, row: nat)
    requires Inv(b, s, chains) && row < b.numRows
    ensures RowFormed(b, s, row, chains[row]) && RowExact(b, s, row, chains[row])
  {
    assert RowInv(b, s, row, chains[row]);
    hide Linked, ColumnKeys, ChainKeys;
  }

  /** Without a triple, or one after the other, the inserts of a key all show. */
  lemma ShowsAll(b: Build, schedule: seq<nat>, key: nat)
    requires b.Valid() && AllReturned(Run(b, schedule)) && (NoTriple(b) || Sequential(b, schedule))
    ensures Shows(b, Run(b, schedule), key, multiset(b.keys)[key])
  {
    var s, row := Run(b, schedule), b.Row(key);
    var chains: seq<seq<nat>>;
    if NoTriple(b) {
      chains := RunInv(b, schedule);
    } else {
      chains := SequentialInv(b, schedule);
    }
    hide Run, NoTriple, Sequential, Inv;
    ShowsCompleted(b, s, chains, key);
    SelectedAll(b.keys, Through(b, s, row), key);
  }

  /** A row shows what its returned inserts brought. */
  lemma ShowsCompleted(b: Build, s: State, chains: seq<seq<nat>>, key: nat)
    requires Inv(b, s, chains)
    ensures Shows(b, s, key, Completed(b, s, b.Row(key))[key])
  {
    var row := b.Row(key);
    InvFormed(b, s, chains, row);
    ChainKeysCount(s.memory, chains[row], key);
    hide Inv, RowFormed, Linked, ColumnKeys, Completed;
  }

  // ----- completing a build phase, one insert after the other

  /** Insert u has not begun. */
  ghost predicate Unbegun(s: State, u: nat)
    requires u < |s.pcs|
  {
    s.pcs[u] == Scan(0, INVALID_FLAG)
  }

  /** Every insert but u has returned or not begun. */
  ghost predicate Alone(s: State, u: nat) {
    forall v :: 0 <= v < |s.pcs| && v != u ==> s.pcs[v].Finished? || Unbegun(s, v)
  }

  /** What an insert still has to do when nothing disturbs it. */
  ghost function ToDo(pc: Pc): nat {
    match pc
    case Scan(c, _) => if c < 3 then 12 - 2 * c else 0
    case Claim(c, _) => if c < 3 then 11 - 2 * c else 0
    case ReadHead => 3
    case SetNext(_) => 2
    case Swap(_) => 1
    case Finished(_) => 0
  }

  lemma SequentialMore(b: Build, schedule: seq<nat>, u: nat)
    requires b.Valid() && Sequential(b, schedule) && u < |b.keys| && Alone(Run(b, schedule), u)
    ensures Sequential(b, schedule + [u])
  {
    var longer := schedule + [u];
    forall k, v | 0 <= k < |longer| && 0 <= v < |b.keys| && v != longer[k]
      ensures Run(b, longer[..k]).pcs[v].Finished? || Run(b, longer[..k]).pcs[v] == Scan(0, INVALID_FLAG)
    {
      assert longer[..k] == schedule[..k] && (k < |schedule| ==> longer[k] == schedule[k]);
      assert schedule[..|schedule|] == schedule;
    }
  }

  /** An insert alone goes on with every step. */
  lemma StepAlone(b: Build, s: State, u: nat)
    requires Shaped(b, s) && Undisturbed(b, s) && u < |s.pcs| && !s.pcs[u].Finished?
    ensures ToDo(Step(b, s, u).pcs[u]) < ToDo(s.pcs[u])
    ensures forall v :: 0 <= v < |s.pcs| && v != u ==> Step(b, s, u).pcs[v] == s.pcs[v]
  {
  }

  /** So it returns, and the others stay where they are. */
  lemma {:induction false} FinishAlone(b: Build, schedule: seq<nat>, u: nat) returns (more: seq<nat>)
    requires b.Valid() && Sequential(b, schedule) && u < |b.keys| && Alone(Run(b, schedule), u)
    ensures Sequential(b, schedule + more) && (forall v :: v in more ==> v == u)
    ensures Run(b, schedule + more).pcs[u].Finished?
    ensures forall v :: 0 <= v < |b.keys| && v != u ==> Run(b, schedule + more).pcs[v] == Run(b, schedule).pcs[v]
    decreases ToDo(Run(b, schedule).pcs[u])
  {
    hide Run, Sequential, ToDo, Alone;
    if Run(b, schedule).pcs[u].Finished? {
      more := [];
      assert schedule + more == schedule;
    } else {
      AloneGoesOn(b, schedule, u);
      var rest := FinishAlone(b, schedule + [u], u);
      more := [u] + rest;
      assert schedule + more == schedule + [u] + rest;
    }
  }

  lemma AloneGoesOn(b: Build, schedule: seq<nat>, u: nat)
    requires b.Valid() && Sequential(b, schedule) && u < |b.keys| && Alone(Run(b, schedule), u)
    requires !Run(b, schedule).pcs[u].Finished?
    ensures Sequential(b, schedule + [u]) && Alone(Run(b, schedule + [u]), u)
    ensures ToDo(Run(b, schedule + [u]).pcs[u]) < ToDo(Run(b, schedule).pcs[u])
    ensures forall v :: 0 <= v < |b.keys| && v != u ==> Run(b, schedule + [u]).pcs[v] == Run(b, schedule).pcs[v]
  {
    hide Sequential, Inv, Step, Undisturbed, Run, ToDo;
    var chains := SequentialInv(b, schedule);
    RunMore(b, schedule, u);
    SequentialMore(b, schedule, u);
    StepAlone(b, Run(b, schedule), u);
  }

  /** All inserts up to n but one are brought to their end. */
  lemma {:induction false} FinishAllBut(b: Build, schedule: seq<nat>, j: nat, n: nat) returns (more: seq<nat>)
    requires b.Valid() && Sequential(b, schedule) && j < |b.keys| && n <= |b.keys|
    requires forall v :: 0 <= v < |b.keys| ==> Run(b, schedule).pcs[v].Finished? || Unbegun(Run(b, schedule), v)
    ensures Sequential(b, schedule + more) && j !in more
    ensures forall v :: 0 <= v < n && v != j ==> Run(b, schedule + more).pcs[v].Finished?
    ensures forall v :: 0 <= v < |b.keys| ==>
      Run(b, schedule + more).pcs[v].Finished? || Unbegun(Run(b, schedule + more), v)
    ensures Run(b, schedule + more).pcs[j] == Run(b, schedule).pcs[j]
  {
    hide Run, Sequential;
    if n == 0 {
      more := [];
      assert schedule + more == schedule;
    } else {
      var first := FinishAllBut(b, schedule, j, n - 1);
      if n - 1 == j {
        more := first;
      } else {
        var last := FinishAlone(b, schedule + first, n - 1);
        more := first + last;
        assert schedule + more == schedule + first + last;
      }
    }
  }

  // ----- an insert that returned without a trace

  /** The same but for the program counter of insert j. */
  ghost predicate Twins(s: State, t: State, j: nat) {
    j < |s.pcs| && |t.pcs| == |s.pcs| && t == s.(pcs := s.pcs[j := t.pcs[j]])
  }

  lemma TwinStep(b: Build, s: State, t: State, j: nat, u: nat)
    requires Shaped(b, s) && Shaped(b, t) && Twins(s, t, j) && u != j
    ensures Twins(Step(b, s, u), Step(b, t, u), j) && Step(b, t, u).pcs[j] == t.pcs[j]
  {
  }

  lemma {:induction false} TwinRuns(b: Build, schedule: seq<nat>, other: seq<nat>, j: nat, more: seq<nat>)
    requires b.Valid() && Twins(Run(b, schedule), Run(b, other), j) && j !in more
    ensures Twins(Run(b, schedule + more), Run(b, other + more), j)
    ensures Run(b, other + more).pcs[j] == Run(b, other).pcs[j]
  {
    if more == [] {
      assert schedule + more == schedule && other + more == other;
    } else {
      var n := |more| - 1;
      var before, u := more[..n], more[n];
      assert u in more && more == before + [u];
      TwinRuns(b, schedule, other, j, before);
      assert schedule + more == schedule + before + [u] && other + more == other + before + [u];
      RunMore(b, schedule + before, u);
      RunMore(b, other + before, u);
      hide Run, Step, Twins;
      TwinStep(b, Run(b, schedule + before), Run(b, other + before), j, u);
    }
  }

  lemma FirstInsert(b: Build, i: nat) returns (s: State)
    requires b.Valid() && i < |b.keys|
    ensures Sequential(b, [i, i]) && Run(b, [i, i]) == s && s.pcs == Init(b).pcs[i := Finished(0)]
    ensures s.cells == Init(b).cells[b.Row(b.keys[i]) := [b.keys[i], INVALID_FLAG, INVALID_FLAG, INVALID_FLAG]]
    ensures s.memory == Init(b).memory
  {
    assert Sequential(b, []);
    hide Run, Sequential, Init, Build.Row;
    InitUntouched(b);
    SequentialMore(b, [], i);
    var s1 := Looks(b, Init(b), [], i, 0, INVALID_FLAG);
    SequentialMore(b, [] + [i], i);
    s := Takes(b, s1, [] + [i], i, 0, INVALID_FLAG);
    assert [] + [i] + [i] == [i, i];
    assert s.cells[b.Row(b.keys[i])] == [b.keys[i], INVALID_FLAG, INVALID_FLAG, INVALID_FLAG];
  }

  lemma SecondInsert(b: Build, s: State, schedule: seq<nat>, u: nat, key: nat) returns (s': State)
    requires b.Valid() && s == Run(b, schedule) && Sequential(b, schedule) && u < |b.keys| && Unbegun(s, u) &&
             Alone(s, u)
    requires key != INVALID_FLAG && s.cells[b.Row(b.keys[u])] == [key, INVALID_FLAG, INVALID_FLAG, INVALID_FLAG]
    ensures Sequential(b, schedule + [u, u, u]) && Run(b, schedule + [u, u, u]) == s'
    ensures s'.pcs == s.pcs[u := Finished(1)] && s'.memory == s.memory
    ensures s'.cells == s.cells[b.Row(b.keys[u]) := [key, b.keys[u], INVALID_FLAG, INVALID_FLAG]]
  {
    hide Run, Sequential;
    SequentialMore(b, schedule, u);
    var s1 := Looks(b, s, schedule, u, 0, INVALID_FLAG);
    SequentialMore(b, schedule + [u], u);
    var s2 := Looks(b, s1, schedule + [u], u, 1, INVALID_FLAG);
    SequentialMore(b, schedule + [u] + [u], u);
    s' := Takes(b, s2, schedule + [u] + [u], u, 1, INVALID_FLAG);
    assert schedule + [u] + [u] + [u] == schedule + [u, u, u];
    assert s'.cells[b.Row(b.keys[u])] == [key, b.keys[u], INVALID_FLAG, INVALID_FLAG];
  }

  /** Inserts i and t one after the other, into the first two columns of a row. */
  lemma TwoInserts(b: Build, i: nat, t: nat) returns (schedule: seq<nat>)
    requires b.Valid() && i < |b.keys| && t < |b.keys| && i != t && b.Row(b.keys[t]) == b.Row(b.keys[i])
    ensures Sequential(b, schedule)
    ensures var s := Run(b, schedule);
            && s.pcs == Init(b).pcs[i := Finished(0)][t := Finished(1)] && s.memory == Init(b).memory
            && s.cells == Init(b).cells[b.Row(b.keys[i]) := [b.keys[i], b.keys[t], INVALID_FLAG, INVALID_FLAG]]
  {
    var s1 := FirstInsert(b, i);
    hide Run, Sequential;
    var s2 := SecondInsert(b, s1, [i, i], t, b.keys[i]);
    schedule := [i, i] + [t, t, t];
  }

  /** With a triple there is a build phase after whose end a lookup misses one of the two equal keys. */
  lemma TripleHides(b: Build, i: nat, j: nat, t: nat) returns (schedule: seq<nat>)
    requires b.Valid() && i < |b.keys| && j < |b.keys| && t < |b.keys| && Triple(b, i, j, t)
    ensures AllReturned(Run(b, schedule)) && multiset(b.keys)[b.keys[j]] > 0
    ensures Shows(b, Run(b, schedule), b.keys[j], multiset(b.keys)[b.keys[j]] - 1)
  {
    hide Run, Sequential, Exact, Step;
    var lossy := TripleLoses(b, i, j, t);
    var plain := TwoInserts(b, i, t);
    assert Run(b, lossy).pcs == Run(b, plain).pcs[j := Finished(1)];
    var more := FinishAllBut(b, plain, j, |b.keys|);
    TwinRuns(b, plain, lossy, j, more);
    schedule := lossy + more;
    var s, s' := Run(b, plain + more), Run(b, schedule);
    ShowsAllBut(b, plain + more, j);
    SameShows(b, s, s', j, b.keys[j], multiset(b.keys)[b.keys[j]] - 1);
  }

  /** Sequential inserts all show, but for one that has not begun. */
  lemma ShowsAllBut(b: Build, schedule: seq<nat>, j: nat)
    requires b.Valid() && Sequential(b, schedule) && j < |b.keys| && Unbegun(Run(b, schedule), j)
    requires forall u :: 0 <= u < |b.keys| && u != j ==> Run(b, schedule).pcs[u].Finished?
    ensures multiset(b.keys)[b.keys[j]] > 0
    ensures Shows(b, Run(b, schedule), b.keys[j], multiset(b.keys)[b.keys[j]] - 1)
  {
    var s, key := Run(b, schedule), b.keys[j];
    var chains := SequentialInv(b, schedule);
    hide Run, Sequential, Inv;
    ShowsCompleted(b, s, chains, key);
    var on := Through(b, s, b.Row(key));
    SelectMore(b.keys, on, j);
    SelectedAll(b.keys, on[j := true], key);
  }

  lemma SameShows(b: Build, s: State, t: State, j: nat, key: nat, n: nat)
    requires Shaped(b, s) && Shaped(b, t) && Twins(s, t, j) && t.pcs[j] == Finished(1) && s.pcs[j] != Finished(3) &&
             Shows(b, s, key, n)
    ensures Shows(b, t, key, n)
  {
    var row := b.Row(key);
    var chain :| RowFormed(b, s, row, chain) && n == ColumnKeys(s.cells[row])[key] + Count(s.memory, chain, key);
    assert RowFormed(b, t, row, chain);
    hide RowFormed;
  }

  /** Whatever the interleaving, lookups after the build phase return for every key how often it was inserted, exactly
      when no row gets two equal keys and a third insert. */
  lemma LookupsExactIffNoTriple(b: Build)
    requires b.Valid()
    ensures NoTriple(b) <==> forall schedule: seq<nat>, key: nat :: AllReturned(Run(b, schedule)) ==>
      Shows(b, Run(b, schedule), key, multiset(b.keys)[key])
  {
    hide Run, Shows;
    if NoTriple(b) {
      forall schedule: seq<nat>, key: nat | AllReturned(Run(b, schedule))
        ensures Shows(b, Run(b, schedule), key, multiset(b.keys)[key])
      {
        ShowsAll(b, schedule, key);
      }
    } else {
      var i, j, t :| 0 <= i < |b.keys| && 0 <= j < |b.keys| && 0 <= t < |b.keys| && Triple(b, i, j, t);
      var schedule := TripleHides(b, i, j, t);
      var key := b.keys[j];
      if Shows(b, Run(b, schedule), key, multiset(b.keys)[key]) {
        ShowsOnce(b, Run(b, schedule), key, multiset(b.keys)[key], multiset(b.keys)[key] - 1);
      }
    }
  }
}
