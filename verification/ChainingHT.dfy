/** The lock-free chaining hash table: any number of inserts in flight, one atomic access per step. */
module ChainingHT {
  import opened Basics
  import opened Chains
  import opened Schedules

  /** Addresses of entries; 0 is the null pointer. */
  type Address = nat

  /** A build phase: insert i puts the entry at address entries[i] with key keys[i] into the table. */
  datatype Build = Build(keys: seq<nat>, entries: seq<Address>, size: nat, hashKey: nat -> nat) {
    ghost predicate Valid() {
      && |entries| == |keys| && size > 0
      && Distinct(entries) && (forall i :: 0 <= i < |entries| ==> entries[i] != 0)
    }

    function Bucket(key: nat): nat
      requires size > 0
    {
      hashKey(key) % size
    }
  }

  /** Where an insert stands: about to read the head, about to link its entry to it, about to swap the head. */
  datatype Pc = ReadHead | SetNext(oldEntry: Address) | Swap(oldEntry: Address) | Finished

  datatype State = State(heads: seq<Address>, memory: map<Address, Node<Address, nat>>, pcs: seq<Pc>)

  ghost function Init(b: Build): State
    requires b.Valid()
  {
    State(seq(b.size, i => 0),
          map e | e in b.entries :: Node(b.keys[IndexOf(b.entries, e)], 0),
          seq(|b.keys|, i => ReadHead))
  }

  ghost predicate Shaped(b: Build, s: State) {
    && b.Valid() && |s.heads| == b.size && |s.pcs| == |b.keys|
    && forall i :: 0 <= i < |b.keys| ==> b.entries[i] in s.memory && s.memory[b.entries[i]].key == b.keys[i]
  }

  /** One atomic step of insert t. */
  ghost function Step(b: Build, s: State, t: nat): State
    requires Shaped(b, s)
  {
    if t >= |s.pcs| then s
    else
      var hash := b.Bucket(b.keys[t]);
      var entry := b.entries[t];
      match s.pcs[t]
      case ReadHead => s.(pcs := s.pcs[t := SetNext(s.heads[hash])])
      case SetNext(seen) => s.(memory := s.memory[entry := s.memory[entry].(next := seen)],
                               pcs := s.pcs[t := Swap(seen)])
      case Swap(seen) =>
        if s.heads[hash] == seen then s.(heads := s.heads[hash := entry], pcs := s.pcs[t := Finished])
        else s.(pcs := s.pcs[t := ReadHead])
      case Finished => s
  }

  /** The state after the inserts took turns as the schedule says. */
  ghost function Run(b: Build, schedule: seq<nat>): (s: State)
    requires b.Valid()
    ensures Shaped(b, s)
  {
    if schedule == [] then Init(b)
    else Step(b, Run(b, schedule[..|schedule| - 1]), schedule[|schedule| - 1])
  }

  /** The inserts that are through, for one bucket. */
  ghost function Through(b: Build, s: State, hash: nat): seq<bool>
    requires Shaped(b, s)
  {
    seq(|b.keys|, i requires 0 <= i < |b.keys| => s.pcs[i] == Finished && b.Bucket(b.keys[i]) == hash)
  }

  /** Every bucket chains exactly the finished inserts of its keys, each once. */
  ghost predicate Inv(b: Build, s: State, chains: seq<seq<Address>>) {
    && Shaped(b, s) && |chains| == b.size
    && (forall h :: 0 <= h < b.size ==> BucketInv(b, s, h, chains[h]))
    && (forall t :: 0 <= t < |s.pcs| && s.pcs[t].Swap? ==> s.memory[b.entries[t]].next == s.pcs[t].oldEntry)
  }

  lemma InitInv(b: Build)
    requires b.Valid()
    ensures Inv(b, Init(b), seq(b.size, i => []))
  {
    forall h | 0 <= h < b.size ensures BucketInv(b, Init(b), h, []) {
      NoneSelected(b.entries, Through(b, Init(b), h));
    }
  }

  ghost predicate BucketInv(b: Build, s: State, h: nat, chain: seq<Address>)
    requires Shaped(b, s) && h < b.size
  {
    Holds(s.memory, 0, s.heads[h], chain, b.entries, Through(b, s, h))
  }

  /** The chain of a bucket after a step: longer by the entry that was swapped in. */
  ghost function NewChain(b: Build, s: State, t: nat, h: nat, chain: seq<Address>): seq<Address>
    requires Shaped(b, s) && h < b.size
  {
    if t < |s.pcs| && h == b.Bucket(b.keys[t]) && s.pcs[t].Swap? && s.heads[h] == s.pcs[t].oldEntry
    then [b.entries[t]] + chain else chain
  }

  lemma StepBucket(b: Build, s: State, t: nat, h: nat, chain: seq<Address>)
    requires Shaped(b, s) && h < b.size && BucketInv(b, s, h, chain)
    requires t < |s.pcs| && s.pcs[t].Swap? ==> s.memory[b.entries[t]].next == s.pcs[t].oldEntry
    ensures Shaped(b, Step(b, s, t)) && BucketInv(b, Step(b, s, t), h, NewChain(b, s, t, h, chain))
  {
    hide Linked, Selected, Distinct;
    var s' := Step(b, s, t);
    if t < |s.pcs| {
      if s'.pcs[t] == Finished && s.pcs[t] != Finished && h == b.Bucket(b.keys[t]) {
        Push(s.memory, 0, s.heads[h], chain, b.entries, Through(b, s, h), t);
        assert Through(b, s', h) == Through(b, s, h)[t := true];
      } else {
        assert Through(b, s', h) == Through(b, s, h);
        if s.pcs[t].SetNext? {
          Chains.SetNext(s.memory, 0, s.heads[h], chain, b.entries, Through(b, s, h), t, s'.memory[b.entries[t]]);
        }
      }
    }
  }

  lemma StepInv(b: Build, s: State, t: nat, chains: seq<seq<Address>>) returns (chains': seq<seq<Address>>)
    requires Inv(b, s, chains)
    ensures Inv(b, Step(b, s, t), chains')
  {
    chains' := seq(b.size, h requires 0 <= h < b.size => NewChain(b, s, t, h, chains[h]));
    forall h | 0 <= h < b.size ensures Shaped(b, Step(b, s, t)) && BucketInv(b, Step(b, s, t), h, chains'[h]) {
      StepBucket(b, s, t, h, chains[h]);
    }
  }

  /** In every reachable state every bucket is an acyclic chain of exactly its finished inserts. */
  lemma {:induction false} RunInv(b: Build, schedule: seq<nat>) returns (chains: seq<seq<Address>>)
    requires b.Valid()
    ensures Inv(b, Run(b, schedule), chains)
    ensures forall h, i, j :: 0 <= h < b.size && 0 <= i < j < |chains[h]| ==> chains[h][i] != chains[h][j]
  {
    if schedule == [] {
      InitInv(b);
      chains := seq(b.size, i => []);
    } else {
      var before := RunInv(b, schedule[..|schedule| - 1]);
      chains := StepInv(b, Run(b, schedule[..|schedule| - 1]), schedule[|schedule| - 1], before);
    }
    forall h, i, j | 0 <= h < b.size && 0 <= i < j < |chains[h]| ensures chains[h][i] != chains[h][j] {
      Acyclic(Run(b, schedule).memory, 0, Run(b, schedule).heads[h], chains[h], i, j);
    }
  }

  // ----- every insert ends

  /** The inserts that have returned. */
  ghost function Returned(s: State): set<nat> {
    set t: nat | t < |s.pcs| && s.pcs[t] == Finished
  }

  /** How far an insert is, in steps since it began to read the head. */
  function Phase(pc: Pc): nat {
    match pc
    case ReadHead => 0
    case SetNext(_) => 1
    case Swap(_) => 2
    case Finished => 3
  }

  /** The inserts in done had returned when insert t read the head it goes on with. It was not the first time for at
      most as many tries as there are of them, and only another one can have changed the head since. */
  ghost predicate Trying(b: Build, s: State, t: nat, turns: nat, done: set<nat>)
    requires Shaped(b, s) && t < |s.pcs|
  {
    && done <= Returned(s) && turns <= 3 * |done| + Phase(s.pcs[t])
    && (s.pcs[t].SetNext? || s.pcs[t].Swap? ==>
         s.heads[b.Bucket(b.keys[t])] == s.pcs[t].oldEntry || |done| < |Returned(s)|)
  }

  lemma ReturnedStep(b: Build, s: State, u: nat)
    requires Shaped(b, s)
    ensures Returned(s) <= Returned(Step(b, s, u))
    ensures Step(b, s, u).heads != s.heads ==> |Returned(s)| < |Returned(Step(b, s, u))|
  {
    if Step(b, s, u).heads != s.heads {
      OneMore(Returned(s), Returned(Step(b, s, u)), u);
    }
  }

  lemma TryingStep(b: Build, s: State, t: nat, turns: nat, done: set<nat>, u: nat) returns (done': set<nat>)
    requires Shaped(b, s) && t < |s.pcs| && s.pcs[t] != Finished && Trying(b, s, t, turns, done)
    ensures var s' := Step(b, s, u);
            |s'.pcs| == |s.pcs| && Shaped(b, s')
            && (s'.pcs[t] == Finished || Trying(b, s', t, if u == t then turns + 1 else turns, done'))
  {
    ReturnedStep(b, s, u);
    var s' := Step(b, s, u);
    SubsetSize(done, Returned(s));
    SubsetSize(Returned(s), Returned(s'));
    hide Returned;
    done' := if u == t && !s.pcs[t].SetNext? then Returned(s) else done;
  }

  lemma {:induction false} AlwaysTrying(b: Build, schedule: seq<nat>, t: nat) returns (done: set<nat>)
    requires b.Valid() && t < |b.keys|
    ensures Run(b, schedule).pcs[t] == Finished || Trying(b, Run(b, schedule), t, Turns(schedule, t), done)
  {
    if schedule == [] {
      done := {};
    } else {
      var before, u := schedule[..|schedule| - 1], schedule[|schedule| - 1];
      done := AlwaysTrying(b, before, t);
      hide Trying;
      if Run(b, before).pcs[t] != Finished {
        done := TryingStep(b, Run(b, before), t, Turns(before, t), done, u);
      }
    }
  }

  /** A swap fails only when another insert has returned since the head was read. So however the inserts are
      interleaved, three steps for each of them are enough for one to return. */
  lemma InsertEnds(b: Build, schedule: seq<nat>, t: nat)
    requires b.Valid() && t < |b.keys| && Turns(schedule, t) >= 3 * |b.keys|
    ensures Run(b, schedule).pcs[t] == Finished
  {
    var done := AlwaysTrying(b, schedule, t);
    var s := Run(b, schedule);
    hide Run;
    if s.pcs[t] != Finished {
      FewerThanAll(done, |b.keys|, t);
    }
  }

  /** So every build phase can come to its end. */
  lemma AllReturn(b: Build) returns (schedule: seq<nat>)
    requires b.Valid()
    ensures forall t :: 0 <= t < |b.keys| ==> Run(b, schedule).pcs[t] == Finished
  {
    schedule := EveryTurn(|b.keys|, 3 * |b.keys|);
    forall t | 0 <= t < |b.keys| ensures Run(b, schedule).pcs[t] == Finished {
      InsertEnds(b, schedule, t);
    }
  }

  /** After any build phase that came to rest, a lookup returns how often the key was inserted. */
  method Lookup(b: Build, s: State, key: nat, ghost schedule: seq<nat>) returns (count: nat)
    requires b.Valid() && s == Run(b, schedule) && forall t :: 0 <= t < |s.pcs| ==> s.pcs[t] == Finished
    ensures count == multiset(b.keys)[key]
  {
    ghost var chains := RunInv(b, schedule);
    var hash := b.hashKey(key) % b.size;
    var entry := s.heads[hash];
    ghost var rest := chains[hash];
    count := 0;
    while entry != 0
      invariant Linked(s.memory, 0, entry, rest)
      invariant count + Count(s.memory, rest, key) == Count(s.memory, chains[hash], key)
      decreases |rest|
    {
      var inc := s.memory[entry].key == key;
      count := count + (if inc then 1 else 0);
      entry := s.memory[entry].next;
      rest := rest[1..];
    }
    ChainCounts(s.memory, 0, s.heads[hash], chains[hash], b.entries, b.keys, Through(b, s, hash), key);
  }
}
