/** The chaining table whose head words carry, in their upper 16 bits, the or of the control hashes of the chain. */
module ChainingBloomHT {
  import opened Basics
  import opened Chains
  import opened Schedules

  const CONTROL_MASK: bv64 := 0xFFFF_0000_0000_0000
  const ADDRESS_MASK: bv64 := 0x0000_FFFF_FFFF_FFFF

  /** A machine word: a key, an address, or an address with a tag above it. */
  datatype Word = Word(bits: bv64)

  const NULL := Word(0)

  function Or(a: Word, b: Word): Word {
    Word(a.bits | b.bits)
  }

  function And(a: Word, b: Word): Word {
    Word(a.bits & b.bits)
  }

  function Low(key: Word): bv64 {
    key.bits % 16
  }

  function ControlHash(key: Word): Word {
    Word(Low(key) << 48)
  }

  /** The pointer part and the tag part of a head word. */
  function Plain(word: Word): Word {
    Word(word.bits & ADDRESS_MASK)
  }

  function Tag(word: Word): Word {
    Word(word.bits & CONTROL_MASK)
  }

  // ----- bits

  lemma ShiftedOut(x: bv64)
    ensures (x << 48) & 0x0000_FFFF_FFFF_FFFF == 0
  {
  }

  /** A control hash stays clear of the pointer part. */
  lemma ControlHashInTag(key: Word)
    ensures Plain(ControlHash(key)) == NULL
  {
    hide Low;
    ShiftedOut(Low(key));
  }

  /** Control hashes differ exactly where the keys differ modulo 16. */
  lemma ControlHashTells(a: Word, b: Word)
    ensures Low(a) == a.bits % 16 && Low(a) < 16
    ensures ControlHash(a) == ControlHash(b) <==> Low(a) == Low(b)
  {
    LowIsSmall(a);
    LowIsSmall(b);
    hide Low;
    ShiftTells(Low(a), Low(b));
  }

  lemma LowIsSmall(key: Word)
    ensures Low(key) == key.bits % 16 && Low(key) < 16
  {
  }

  lemma ShiftTells(x: bv64, y: bv64)
    requires x < 16 && y < 16
    ensures x << 48 == y << 48 <==> x == y
  {
  }

  /** Packing an address, a control hash and an old tag into a word, and what a reader gets back. */
  lemma Pack(address: Word, hash2: Word, tag: Word)
    requires Tag(address) == NULL && Plain(hash2) == NULL && Plain(tag) == NULL
    ensures Plain(Or(Or(address, hash2), tag)) == address
    ensures Tag(Or(Or(address, hash2), tag)) == Or(hash2, tag)
  {
  }

  lemma PlainTag(word: Word)
    ensures Plain(Tag(word)) == NULL && Plain(NULL) == NULL && Tag(NULL) == NULL
  {
  }

  lemma TestTag(word: Word, hash2: Word)
    requires Plain(hash2) == NULL
    ensures And(word, hash2) == And(Tag(word), hash2)
  {
  }

  lemma OrCovers(a: Word, b: Word, c: Word)
    ensures And(Or(a, b), a) == a
    ensures And(b, c) == c ==> And(Or(a, b), c) == c
  {
  }

  /** The or of the control hashes along a chain. */
  ghost function Tags(memory: map<Word, Node<Word, Word>>, chain: seq<Word>): Word
    requires forall e :: e in chain ==> e in memory
  {
    if chain == [] then NULL else
      assert chain[0] in chain;
      Or(ControlHash(memory[chain[0]].key), Tags(memory, chain[1..]))
  }

  /** A key on the chain has its control hash in the tag. */
  lemma {:induction false} TagsCover(memory: map<Word, Node<Word, Word>>, chain: seq<Word>, key: Word)
    requires forall e :: e in chain ==> e in memory
    requires Count(memory, chain, key) > 0
    ensures And(Tags(memory, chain), ControlHash(key)) == ControlHash(key)
  {
    hide ControlHash, Or, And;
    assert chain[0] in chain;
    var first := ControlHash(memory[chain[0]].key);
    OrCovers(first, Tags(memory, chain[1..]), ControlHash(key));
    if memory[chain[0]].key != key {
      TagsCover(memory, chain[1..], key);
    }
  }

  lemma {:induction false} TagsFrame(memory: map<Word, Node<Word, Word>>, memory': map<Word, Node<Word, Word>>,
                                     chain: seq<Word>)
    requires forall e :: e in chain ==> e in memory && e in memory' && memory'[e].key == memory[e].key
    ensures Tags(memory', chain) == Tags(memory, chain)
  {
    if chain != [] {
      assert chain[0] in chain;
      TagsFrame(memory, memory', chain[1..]);
    }
  }

  // ----- the protocol

  /** A build phase: insert i puts the entry at entries[i] with key keys[i]; addresses leave the upper 16 bits free. */
  datatype Build = Build(keys: seq<Word>, entries: seq<Word>, size: nat, hashKey: Word -> nat) {
    ghost predicate Valid() {
      && |entries| == |keys| && size > 0 && Distinct(entries)
      && forall i :: 0 <= i < |entries| ==> entries[i] != NULL && Tag(entries[i]) == NULL
    }

    function Bucket(key: Word): nat
      requires size > 0
    {
      hashKey(key) % size
    }
  }

  datatype Pc = ReadHead | SetNext(currHead: Word) | Swap(currHead: Word) | Finished

  datatype State = State(heads: seq<Word>, memory: map<Word, Node<Word, Word>>, pcs: seq<Pc>)

  ghost predicate Shaped(b: Build, s: State) {
    && b.Valid() && |s.heads| == b.size && |s.pcs| == |b.keys|
    && forall i :: 0 <= i < |b.keys| ==> b.entries[i] in s.memory && s.memory[b.entries[i]].key == b.keys[i]
  }

  ghost function Init(b: Build): State
    requires b.Valid()
  {
    State(seq(b.size, i => NULL),
          map e | e in b.entries :: Node(b.keys[IndexOf(b.entries, e)], NULL),
          seq(|b.keys|, i => ReadHead))
  }

  /** One atomic step of insert t. */
  ghost function Step(b: Build, s: State, t: nat): State
    requires Shaped(b, s)
  {
    if t >= |s.pcs| then s
    else
      var hash := b.Bucket(b.keys[t]);
      var entry := b.entries[t];
      match s.pcs[t]
      case ReadHead => s.(pcs := s.pcs[t := SetNext(s.heads[hash])])
      case SetNext(head) =>
        s.(memory := s.memory[entry := s.memory[entry].(next := Plain(head))], pcs := s.pcs[t := Swap(head)])
      case Swap(head) =>
        if s.heads[hash] == head
        then s.(heads := s.heads[hash := Or(Or(entry, ControlHash(b.keys[t])), Tag(head))], pcs := s.pcs[t := Finished])
        else s.(pcs := s.pcs[t := ReadHead])
      case Finished => s
  }

  ghost function Run(b: Build, schedule: seq<nat>): (s: State)
    requires b.Valid()
    ensures Shaped(b, s)
  {
    if schedule == [] then Init(b)
    else Step(b, Run(b, schedule[..|schedule| - 1]), schedule[|schedule| - 1])
  }

  ghost function Through(b: Build, s: State, hash: nat): seq<bool>
    requires Shaped(b, s)
  {
    seq(|b.keys|, i requires 0 <= i < |b.keys| => s.pcs[i] == Finished && b.Bucket(b.keys[i]) == hash)
  }

  /** The pointer part heads a chain of exactly the finished inserts; the tag part is the or of their control hashes. */
  ghost predicate BucketInv(b: Build, s: State, h: nat, chain: seq<Word>)
    requires Shaped(b, s) && h < b.size
  {
    && Holds(s.memory, NULL, Plain(s.heads[h]), chain, b.entries, Through(b, s, h))
    && (forall e :: e in chain ==> e in b.entries && e in s.memory)
    && Tag(s.heads[h]) == Tags(s.memory, chain)
  }

  ghost predicate Inv(b: Build, s: State, chains: seq<seq<Word>>) {
    && Shaped(b, s) && |chains| == b.size
    && (forall h :: 0 <= h < b.size ==> BucketInv(b, s, h, chains[h]))
    && (forall t :: 0 <= t < |s.pcs| && s.pcs[t].Swap? ==> s.memory[b.entries[t]].next == Plain(s.pcs[t].currHead))
  }

  lemma InitInv(b: Build)
    requires b.Valid()
    ensures Inv(b, Init(b), seq(b.size, i => []))
  {
    var s := Init(b);
    PlainTag(NULL);
    assert forall h :: 0 <= h < b.size ==> s.heads[h] == NULL;
    hide Init, BucketInv, Plain, Tag;
    forall h | 0 <= h < b.size ensures BucketInv(b, s, h, []) {
      EmptyBucket(b, s, h);
    }
  }

  lemma EmptyBucket(b: Build, s: State, h: nat)
    requires Shaped(b, s) && h < b.size && s.heads[h] == NULL && forall i :: 0 <= i < |s.pcs| ==> s.pcs[i] == ReadHead
    ensures BucketInv(b, s, h, [])
  {
    hide Plain, Tag, Selected;
    PlainTag(NULL);
    NoneSelected(b.entries, Through(b, s, h));
  }

  ghost function NewChain(b: Build, s: State, t: nat, h: nat, chain: seq<Word>): seq<Word>
    requires Shaped(b, s) && h < b.size
  {
    if t < |s.pcs| && h == b.Bucket(b.keys[t]) && s.pcs[t].Swap? && s.heads[h] == s.pcs[t].currHead
    then [b.entries[t]] + chain else chain
  }

  lemma StepBucket(b: Build, s: State, t: nat, h: nat, chain: seq<Word>)
    requires Shaped(b, s) && h < b.size && BucketInv(b, s, h, chain)
    requires t < |s.pcs| && s.pcs[t].Swap? ==> s.memory[b.entries[t]].next == Plain(s.pcs[t].currHead)
    ensures Shaped(b, Step(b, s, t)) && BucketInv(b, Step(b, s, t), h, NewChain(b, s, t, h, chain))
  {
    hide Linked, Selected, Distinct, ControlHash, Tag, Plain, Or;
    var s' := Step(b, s, t);
    if t < |s.pcs| {
      var entry := b.entries[t];
      if s'.pcs[t] == Finished && s.pcs[t] != Finished && h == b.Bucket(b.keys[t]) {
        ControlHashInTag(b.keys[t]);
        PlainTag(s.heads[h]);
        Pack(entry, ControlHash(b.keys[t]), Tag(s.heads[h]));
        Push(s.memory, NULL, Plain(s.heads[h]), chain, b.entries, Through(b, s, h), t);
        assert Through(b, s', h) == Through(b, s, h)[t := true];
        assert ([entry] + chain)[1..] == chain;
      } else {
        assert Through(b, s', h) == Through(b, s, h);
        if s.pcs[t].SetNext? {
          Chains.SetNext(s.memory, NULL, Plain(s.heads[h]), chain, b.entries, Through(b, s, h), t, s'.memory[entry]);
          TagsFrame(s.memory, s'.memory, chain);
        }
      }
    }
  }

  lemma StepInv(b: Build, s: State, t: nat, chains: seq<seq<Word>>) returns (chains': seq<seq<Word>>)
    requires Inv(b, s, chains)
    ensures Inv(b, Step(b, s, t), chains')
  {
    hide ControlHash, Or, And, Plain, Tag, Linked, Selected, Tags;
    chains' := seq(b.size, h requires 0 <= h < b.size => NewChain(b, s, t, h, chains[h]));
    forall h | 0 <= h < b.size ensures Shaped(b, Step(b, s, t)) && BucketInv(b, Step(b, s, t), h, chains'[h]) {
      StepBucket(b, s, t, h, chains[h]);
    }
  }

  /** The tag and chain invariant of every bucket holds in every reachable state. */
  lemma {:induction false} RunInv(b: Build, schedule: seq<nat>) returns (chains: seq<seq<Word>>)
    requires b.Valid()
    ensures Inv(b, Run(b, schedule), chains)
  {
    if schedule == [] {
      InitInv(b);
      chains := seq(b.size, i => []);
    } else {
      var before := RunInv(b, schedule[..|schedule| - 1]);
      chains := StepInv(b, Run(b, schedule[..|schedule| - 1]), schedule[|schedule| - 1], before);
    }
  }

  // ----- every insert ends

  /** The inserts that have returned. */
  ghost function Returned(s: State): set<nat> {
    set t: nat | t < |s.pcs| && s.pcs[t] == Finished
  }

  /** How far an insert is, in steps since it began to read the head. */
  function Phase(pc: Pc): nat {
    match pc
    case ReadHead => 0
    case SetNext(_) => 1
    case Swap(_) => 2
    case Finished => 3
  }

  /** The inserts in done had returned when insert t read the head it goes on with. It was not the first time for at
      most as many tries as there are of them, and only another one can have changed the head since. */
  ghost predicate Trying(b: Build, s: State, t: nat, turns: nat, done: set<nat>)
    requires Shaped(b, s) && t < |s.pcs|
  {
    && done <= Returned(s) && turns <= 3 * |done| + Phase(s.pcs[t])
    && (s.pcs[t].SetNext? || s.pcs[t].Swap? ==>
         s.heads[b.Bucket(b.keys[t])] == s.pcs[t].currHead || |done| < |Returned(s)|)
  }

  lemma ReturnedStep(b: Build, s: State, u: nat)
    requires Shaped(b, s)
    ensures Returned(s) <= Returned(Step(b, s, u))
    ensures Step(b, s, u).heads != s.heads ==> |Returned(s)| < |Returned(Step(b, s, u))|
  {
    if Step(b, s, u).heads != s.heads {
      OneMore(Returned(s), Returned(Step(b, s, u)), u);
    }
  }

  lemma TryingStep(b: Build, s: State, t: nat, turns: nat, done: set<nat>, u: nat) returns (done': set<nat>)
    requires Shaped(b, s) && t < |s.pcs| && s.pcs[t] != Finished && Trying(b, s, t, turns, done)
    ensures var s' := Step(b, s, u);
            |s'.pcs| == |s.pcs| && Shaped(b, s')
            && (s'.pcs[t] == Finished || Trying(b, s', t, if u == t then turns + 1 else turns, done'))
  {
    ReturnedStep(b, s, u);
    var s' := Step(b, s, u);
    SubsetSize(done, Returned(s));
    SubsetSize(Returned(s), Returned(s'));
    hide Returned;
    done' := if u == t && !s.pcs[t].SetNext? then Returned(s) else done;
  }

  lemma {:induction false} AlwaysTrying(b: Build, schedule: seq<nat>, t: nat) returns (done: set<nat>)
    requires b.Valid() && t < |b.keys|
    ensures Run(b, schedule).pcs[t] == Finished || Trying(b, Run(b, schedule), t, Turns(schedule, t), done)
  {
    if schedule == [] {
      done := {};
    } else {
      var before, u := schedule[..|schedule| - 1], schedule[|schedule| - 1];
      done := AlwaysTrying(b, before, t);
      hide Trying;
      if Run(b, before).pcs[t] != Finished {
        done := TryingStep(b, Run(b, before), t, Turns(before, t), done, u);
      }
    }
  }

  /** A swap fails only when another insert has returned since the head was read. So however the inserts are
      interleaved, three steps for each of them are enough for one to return. */
  lemma InsertEnds(b: Build, schedule: seq<nat>, t: nat)
    requires b.Valid() && t < |b.keys| && Turns(schedule, t) >= 3 * |b.keys|
    ensures Run(b, schedule).pcs[t] == Finished
  {
    var done := AlwaysTrying(b, schedule, t);
    var s := Run(b, schedule);
    hide Run;
    if s.pcs[t] != Finished {
      FewerThanAll(done, |b.keys|, t);
    }
  }

  /** So every build phase can come to its end. */
  lemma AllReturn(b: Build) returns (schedule: seq<nat>)
    requires b.Valid()
    ensures forall t :: 0 <= t < |b.keys| ==> Run(b, schedule).pcs[t] == Finished
  {
    schedule := EveryTurn(|b.keys|, 3 * |b.keys|);
    forall t | 0 <= t < |b.keys| ensures Run(b, schedule).pcs[t] == Finished {
      InsertEnds(b, schedule, t);
    }
  }

  /** Leaving early on a tag that lacks the key's control hash never loses a hit. */
  lemma EarlyExit(b: Build, s: State, h: nat, chain: seq<Word>, key: Word)
    requires Shaped(b, s) && h < b.size && BucketInv(b, s, h, chain)
    requires And(s.heads[h], ControlHash(key)) != ControlHash(key)
    ensures Count(s.memory, chain, key) == 0
  {
    hide ControlHash, Or, And, Plain, Tag, Linked, Selected;
    ControlHashInTag(key);
    TestTag(s.heads[h], ControlHash(key));
    if Count(s.memory, chain, key) > 0 {
      TagsCover(s.memory, chain, key);
    }
  }

  lemma BucketCounts(b: Build, s: State, key: Word, schedule: seq<nat>) returns (chain: seq<Word>)
    requires b.Valid() && s == Run(b, schedule) && forall t :: 0 <= t < |s.pcs| ==> s.pcs[t] == Finished
    ensures b.Bucket(key) < |s.heads| && BucketInv(b, s, b.Bucket(key), chain)
    ensures Linked(s.memory, NULL, Plain(s.heads[b.Bucket(key)]), chain)
    ensures Count(s.memory, chain, key) == multiset(b.keys)[key]
  {
    hide Plain, Tag, Tags, Linked, Selected;
    var h := b.Bucket(key);
    var chains := RunInv(b, schedule);
    hide Run, Inv;
    chain := chains[h];
    assert BucketInv(b, s, h, chain);
    ChainCounts(s.memory, NULL, Plain(s.heads[h]), chain, b.entries, b.keys, Through(b, s, h), key);
  }

  /** After any build phase that came to rest, a lookup returns how often the key was inserted. */
  method Lookup(b: Build, s: State, key: Word, ghost schedule: seq<nat>) returns (count: nat)
    requires b.Valid() && s == Run(b, schedule) && forall t :: 0 <= t < |s.pcs| ==> s.pcs[t] == Finished
    ensures count == multiset(b.keys)[key]
  {
    hide ControlHash, Or, And, Plain, Tag, Run, BucketInv;
    var hash := b.hashKey(key) % b.size;
    ghost var chain := BucketCounts(b, s, key, schedule);
    var entry := s.heads[hash];
    PlainTag(entry);
    if entry == NULL {
      return 0;
    }
    var hash2 := ControlHash(key);
    if And(entry, hash2) != hash2 {
      EarlyExit(b, s, hash, chain, key);
      return 0;
    }
    entry := Plain(entry);
    ghost var rest := chain;
    count := 0;
    while entry != NULL
      invariant Linked(s.memory, NULL, entry, rest)
      invariant count + Count(s.memory, rest, key) == Count(s.memory, chain, key)
      decreases |rest|
    {
      var inc := s.memory[entry].key == key;
      count := count + (if inc then 1 else 0);
      entry := s.memory[entry].next;
      rest := rest[1..];
    }
  }
}
