/** The matrix hash table: three key columns a row, then an overflow chain headed by the fourth cell.

    An insert that loses a column to another keeps the winner's key as the expected value of its next
    compare-exchange, so a later column that holds the same key is overwritten. */
module MatrixHT {
  import opened Chains

  const COLUMNS: nat := 4
  const INVALID_FLAG: nat := 0xFFFF_FFFF_FFFF_FFFF

  /** A build phase: insert i brings the entry at entries[i] with key keys[i]. */
  datatype Build = Build(keys: seq<nat>, entries: seq<nat>, numRows: nat, hashKey: nat -> nat) {
    ghost predicate Valid() {
      && |entries| == |keys| && numRows > 0 && Distinct(entries)
      && (forall i :: 0 <= i < |entries| ==> entries[i] != 0 && entries[i] != INVALID_FLAG)
      && (forall i :: 0 <= i < |keys| ==> keys[i] != INVALID_FLAG)
    }

    function Row(key: nat): (row: nat)
      requires numRows > 0
      ensures row < numRows
    {
      hashKey(key) % numRows
    }
  }

  /** Where an insert stands: about to look at column c, about to compare-exchange it, then the three steps at the
      chain head, then returned after writing to a column (3 is the chain). */
  datatype Pc =
    | Scan(c: nat, expected: nat)
    | Claim(c: nat, expected: nat)
    | ReadHead | SetNext(oldEntry: nat) | Swap(oldEntry: nat)
    | Finished(column: nat)

  datatype State = State(cells: seq<seq<nat>>, memory: map<nat, Node<nat, nat>>, pcs: seq<Pc>)

  ghost predicate Shaped(b: Build, s: State) {
    && b.Valid() && |s.cells| == b.numRows && |s.pcs| == |b.keys|
    && (forall row :: 0 <= row < b.numRows ==> |s.cells[row]| == COLUMNS)
    && (forall i :: 0 <= i < |b.keys| ==> b.entries[i] in s.memory && s.memory[b.entries[i]].key == b.keys[i])
    && (forall i :: 0 <= i < |s.pcs| && (s.pcs[i].Scan? || s.pcs[i].Claim?) ==> s.pcs[i].c < COLUMNS - 1)
  }

  ghost function Init(b: Build): State
    requires b.Valid()
  {
    State(seq(b.numRows, row => [INVALID_FLAG, INVALID_FLAG, INVALID_FLAG, INVALID_FLAG]),
          map e | e in b.entries :: Node(b.keys[IndexOf(b.entries, e)], 0),
          seq(|b.keys|, i => Scan(0, INVALID_FLAG)))
  }

  function Write(cells: seq<seq<nat>>, row: nat, c: nat, word: nat): seq<seq<nat>>
    requires row < |cells| && c < |cells[row]|
  {
    var changed: seq<nat> := cells[row][c := word];
    cells[row := changed]
  }

  function HeadOf(word: nat): nat {
    if word == INVALID_FLAG then 0 else word
  }

  /** One atomic step of insert t. */
  ghost function Step(b: Build, s: State, t: nat): (s': State)
    requires Shaped(b, s)
    ensures Shaped(b, s')
  {
    if t >= |s.pcs| then s
    else
      var row := b.Row(b.keys[t]);
      var entry: nat := b.entries[t];
      match s.pcs[t]
      case Scan(c, x) =>
        if s.cells[row][c] == INVALID_FLAG then s.(pcs := s.pcs[t := Claim(c, x)])
        else if c + 1 < COLUMNS - 1 then s.(pcs := s.pcs[t := Scan(c + 1, x)])
        else s.(pcs := s.pcs[t := ReadHead])
      case Claim(c, x) =>
        if s.cells[row][c] == x
        then s.(cells := Write(s.cells, row, c, b.keys[t]), pcs := s.pcs[t := Finished(c)])
        else s.(pcs := s.pcs[t := Scan(c, s.cells[row][c])])
      case ReadHead => s.(pcs := s.pcs[t := SetNext(s.cells[row][3])])
      case SetNext(head) =>
        s.(memory := s.memory[entry := s.memory[entry].(next := HeadOf(head))], pcs := s.pcs[t := Swap(head)])
      case Swap(head) =>
        if s.cells[row][3] == head
        then s.(cells := Write(s.cells, row, 3, entry), pcs := s.pcs[t := Finished(3)])
        else s.(pcs := s.pcs[t := ReadHead])
      case Finished(c) => s
  }

  ghost function Run(b: Build, schedule: seq<nat>): (s: State)
    requires b.Valid()
    ensures Shaped(b, s)
  {
    if schedule == [] then Init(b)
    else Step(b, Run(b, schedule[..|schedule| - 1]), schedule[|schedule| - 1])
  }

  // ----- what is stored and what was inserted

  function ColumnKey(word: nat): multiset<nat> {
    if word == INVALID_FLAG then multiset{} else multiset{word}
  }

  function ColumnKeys(cells: seq<nat>): multiset<nat>
    requires |cells| == COLUMNS
  {
    ColumnKey(cells[0]) + ColumnKey(cells[1]) + ColumnKey(cells[2])
  }

  lemma ColumnWritten(cells: seq<nat>, cells': seq<nat>, c: nat, key: nat)
    requires |cells| == COLUMNS && c < 3 && cells[c] == INVALID_FLAG && key != INVALID_FLAG && cells' == cells[c := key]
    ensures ColumnKeys(cells') == ColumnKeys(cells) + multiset{key}
  {
    if c == 0 {
    } else if c == 1 {
    } else {
    }
  }

  lemma Regroup(a: multiset<nat>, b: multiset<nat>, x: multiset<nat>)
    ensures (a + x) + b == (a + b) + x
    ensures a + (x + b) == (a + b) + x
  {
  }

  ghost function ChainKeys(memory: map<nat, Node<nat, nat>>, chain: seq<nat>): multiset<nat> {
    if chain == [] then multiset{}
    else (if chain[0] in memory then multiset{memory[chain[0]].key} else multiset{}) + ChainKeys(memory, chain[1..])
  }

  ghost function Through(b: Build, s: State, row: nat): seq<bool>
    requires Shaped(b, s)
  {
    seq(|b.keys|, i requires 0 <= i < |b.keys| => s.pcs[i].Finished? && b.Row(b.keys[i]) == row)
  }

  /** The keys of the finished inserts of a row. */
  ghost function Completed(b: Build, s: State, row: nat): multiset<nat>
    requires Shaped(b, s)
  {
    multiset(Selected(b.keys, Through(b, s, row)))
  }

  /** A row stores exactly the keys of its finished inserts: columns and chain together. */
  ghost predicate RowExact(b: Build, s: State, row: nat, chain: seq<nat>)
    requires Shaped(b, s) && row < b.numRows
  {
    && Linked(s.memory, 0, HeadOf(s.cells[row][3]), chain)
    && ColumnKeys(s.cells[row]) + ChainKeys(s.memory, chain) == Completed(b, s, row)
  }

  ghost predicate RowStoresAll(b: Build, s: State, row: nat)
    requires Shaped(b, s) && row < b.numRows
  {
    exists chain :: RowExact(b, s, row, chain)
  }

  ghost predicate Exact(b: Build, s: State)
    requires Shaped(b, s)
  {
    forall row :: 0 <= row < b.numRows ==> RowStoresAll(b, s, row)
  }

  // ----- the invariant

  /** Insert i put its key into column c of the row. */
  ghost predicate Owner(b: Build, s: State, row: nat, c: nat, key: nat, i: nat)
    requires Shaped(b, s)
  {
    i < |b.keys| && s.pcs[i] == Finished(c) && b.Row(b.keys[i]) == row && b.keys[i] == key
  }

  ghost predicate Filled(s: State, row: nat, upto: nat)
    requires row < |s.cells| && |s.cells[row]| == COLUMNS && upto <= 3
  {
    forall c :: 0 <= c < upto ==> s.cells[row][c] != INVALID_FLAG
  }

  /** Columns fill as a prefix, the chain starts after them, and every stored key was put there by some insert. */
  ghost predicate RowInv(b: Build, s: State, row: nat, chain: seq<nat>)
    requires Shaped(b, s) && row < b.numRows
  {
    RowExact(b, s, row, chain) && RowRest(b, s, row, chain)
  }

  ghost predicate RowRest(b: Build, s: State, row: nat, chain: seq<nat>)
    requires Shaped(b, s) && row < b.numRows
  {
    && (forall c :: 0 <= c < 3 && s.cells[row][c] != INVALID_FLAG ==> Filled(s, row, c))
    && s.cells[row][3] != 0 && (s.cells[row][3] != INVALID_FLAG ==> Filled(s, row, 3))
    && (forall c :: 0 <= c < 3 && s.cells[row][c] != INVALID_FLAG ==>
         exists i :: Owner(b, s, row, c, s.cells[row][c], i))
    && (forall i :: 0 <= i < |s.pcs| && s.pcs[i] != Finished(3) ==> b.entries[i] !in chain)
  }

  /** An expected value other than the flag is the key of another insert, in a column already passed. */
  ghost predicate Seen(b: Build, s: State, row: nat, x: nat, upto: nat)
    requires Shaped(b, s)
  {
    x == INVALID_FLAG || exists c, i :: 0 <= c < upto && Owner(b, s, row, c, x, i)
  }

  ghost predicate PcInv(b: Build, s: State, t: nat)
    requires Shaped(b, s) && t < |s.pcs|
  {
    var row := b.Row(b.keys[t]);
    match s.pcs[t]
    case Scan(c, x) => Filled(s, row, c) && Seen(b, s, row, x, c + 1)
    case Claim(c, x) => Filled(s, row, c) && Seen(b, s, row, x, c)
    case ReadHead => Filled(s, row, 3)
    case SetNext(head) => Filled(s, row, 3)
    case Swap(head) => Filled(s, row, 3) && s.memory[b.entries[t]].next == HeadOf(head)
    case Finished(c) => true
  }

  ghost predicate Inv(b: Build, s: State, chains: seq<seq<nat>>) {
    && Shaped(b, s) && |chains| == b.numRows
    && (forall row :: 0 <= row < b.numRows ==> RowInv(b, s, row, chains[row]))
    && (forall t :: 0 <= t < |s.pcs| ==> PcInv(b, s, t))
    && (forall t :: 0 <= t < |s.pcs| && s.pcs[t].Finished? && s.pcs[t].column < 3 ==> Taken(b, s, t))
  }

  /** The column an insert wrote to stays taken. */
  ghost predicate Taken(b: Build, s: State, t: nat)
    requires Shaped(b, s) && t < |s.pcs| && s.pcs[t].Finished? && s.pcs[t].column < 3
  {
    s.cells[b.Row(b.keys[t])][s.pcs[t].column] != INVALID_FLAG
  }

  lemma OwnedIsTaken(b: Build, s: State, chains: seq<seq<nat>>, row: nat, c: nat, x: nat, i: nat)
    requires Inv(b, s, chains) && row < b.numRows && c < 3 && Owner(b, s, row, c, x, i)
    ensures s.cells[row][c] != INVALID_FLAG
  {
    assert Taken(b, s, i);
  }

  /** The step that loses a key: a compare-exchange that succeeds on a column already taken. */
  ghost predicate Overwrites(b: Build, s: State, t: nat)
    requires Shaped(b, s)
  {
    t < |s.pcs| && s.pcs[t].Claim? && s.pcs[t].expected != INVALID_FLAG &&
    s.cells[b.Row(b.keys[t])][s.pcs[t].c] == s.pcs[t].expected
  }

  /** Three inserts into one row, two of them with the same key. */
  ghost predicate Triple(b: Build, i: nat, j: nat, t: nat)
    requires b.Valid() && i < |b.keys| && j < |b.keys| && t < |b.keys|
  {
    i != j && t != i && t != j && b.keys[i] == b.keys[j] && b.Row(b.keys[t]) == b.Row(b.keys[i])
  }

  /** No row gets two equal keys and a third insert. */
  ghost predicate NoTriple(b: Build)
    requires b.Valid()
  {
    forall i, j, t :: 0 <= i < |b.keys| && 0 <= j < |b.keys| && 0 <= t < |b.keys| ==> !Triple(b, i, j, t)
  }

  /** An overwrite takes three inserts into one row, two of them with the same key. */
  lemma OverwriteNeedsTriple(b: Build, s: State, chains: seq<seq<nat>>, t: nat) returns (i: nat, j: nat)
    requires Inv(b, s, chains) && Overwrites(b, s, t)
    ensures i < |b.keys| && j < |b.keys| && Triple(b, i, j, t)
  {
    var row := b.Row(b.keys[t]);
    var x := s.pcs[t].expected;
    assert PcInv(b, s, t) && RowInv(b, s, row, chains[row]);
    var c: nat;
    c, i :| 0 <= c < s.pcs[t].c && Owner(b, s, row, c, x, i);
    j :| Owner(b, s, row, s.pcs[t].c, x, j);
  }

  lemma NoOverwrite(b: Build, s: State, chains: seq<seq<nat>>, t: nat)
    requires Inv(b, s, chains) && NoTriple(b)
    ensures !Overwrites(b, s, t)
  {
    if Overwrites(b, s, t) {
      var i, j := OverwriteNeedsTriple(b, s, chains, t);
    }
  }

  // ----- one step keeps the invariant unless it overwrites

  /** What every harmless step keeps. */
  ghost predicate Grows(b: Build, s: State, s': State) {
    && Shaped(b, s) && Shaped(b, s')
    && (forall row, c :: 0 <= row < b.numRows && 0 <= c < COLUMNS && s.cells[row][c] != INVALID_FLAG ==>
         s'.cells[row][c] != INVALID_FLAG)
    && (forall i :: 0 <= i < |s.pcs| && s.pcs[i].Finished? ==> s'.pcs[i] == s.pcs[i])
  }

  lemma StepGrows(b: Build, s: State, t: nat)
    requires Shaped(b, s) && !Overwrites(b, s, t)
    ensures Grows(b, s, Step(b, s, t))
  {
  }

  lemma PcFrame(b: Build, s: State, s': State, u: nat)
    requires Grows(b, s, s') && u < |s.pcs| && s'.pcs[u] == s.pcs[u] && PcInv(b, s, u)
    requires s'.memory[b.entries[u]] == s.memory[b.entries[u]]
    ensures PcInv(b, s', u)
  {
    var row := b.Row(b.keys[u]);
    if s.pcs[u].Scan? {
      SeenFrame(b, s, s', row, s.pcs[u].expected, s.pcs[u].c + 1);
    } else if s.pcs[u].Claim? {
      SeenFrame(b, s, s', row, s.pcs[u].expected, s.pcs[u].c);
    }
  }

  lemma SeenFrame(b: Build, s: State, s': State, row: nat, x: nat, upto: nat)
    requires Grows(b, s, s') && Seen(b, s, row, x, upto)
    ensures Seen(b, s', row, x, upto)
  {
    if x != INVALID_FLAG {
      var c, i :| 0 <= c < upto && Owner(b, s, row, c, x, i);
      assert Owner(b, s', row, c, x, i);
    }
  }

  lemma PcStep(b: Build, s: State, t: nat, chains: seq<seq<nat>>)
    requires Inv(b, s, chains) && t < |s.pcs| && !Overwrites(b, s, t)
    ensures PcInv(b, Step(b, s, t), t)
  {
    if s.pcs[t].Scan? {
      ScanStep(b, s, t, chains);
    } else {
      ClaimStep(b, s, t, chains);
    }
  }

  lemma ScanStep(b: Build, s: State, t: nat, chains: seq<seq<nat>>)
    requires Inv(b, s, chains) && t < |s.pcs| && s.pcs[t].Scan?
    ensures PcInv(b, Step(b, s, t), t)
  {
    hide RowExact, RowRest, Distinct;
    var s' := Step(b, s, t);
    var row := b.Row(b.keys[t]);
    assert PcInv(b, s, t) && RowInv(b, s, row, chains[row]);
    var c, x := s.pcs[t].c, s.pcs[t].expected;
    if s.cells[row][c] == INVALID_FLAG {
      // the column the expected value came from is taken, so it is an earlier one
      if x != INVALID_FLAG {
        var d, i :| 0 <= d < c + 1 && Owner(b, s, row, d, x, i);
        OwnedIsTaken(b, s, chains, row, d, x, i);
        assert Owner(b, s', row, d, x, i);
      }
    } else {
      StepGrows(b, s, t);
      SeenFrame(b, s, s', row, x, c + 1);
    }
  }

  lemma ClaimStep(b: Build, s: State, t: nat, chains: seq<seq<nat>>)
    requires Inv(b, s, chains) && t < |s.pcs| && !s.pcs[t].Scan? && !Overwrites(b, s, t)
    ensures PcInv(b, Step(b, s, t), t)
  {
    hide RowExact, Distinct;
    var s' := Step(b, s, t);
    var row := b.Row(b.keys[t]);
    assert PcInv(b, s, t) && RowInv(b, s, row, chains[row]);
    match s.pcs[t]
    case Claim(c, x) =>
      if s.cells[row][c] != x && s.cells[row][c] != INVALID_FLAG {
        var i :| Owner(b, s, row, c, s.cells[row][c], i);
        assert Owner(b, s', row, c, s.cells[row][c], i);
      }
    case _ =>
  }

  // ----- rows

  lemma {:induction false} ChainKeysFrame(memory: map<nat, Node<nat, nat>>, memory': map<nat, Node<nat, nat>>,
                                          chain: seq<nat>)
    requires forall e :: e in chain ==> e in memory && e in memory' && memory'[e].key == memory[e].key
    ensures ChainKeys(memory', chain) == ChainKeys(memory, chain)
  {
    if chain != [] {
      assert chain[0] in chain;
      ChainKeysFrame(memory, memory', chain[1..]);
    }
  }

  lemma {:induction false} ChainKeysCount(memory: map<nat, Node<nat, nat>>, chain: seq<nat>, key: nat)
    ensures ChainKeys(memory, chain)[key] == Count(memory, chain, key)
  {
    if chain != [] {
      ChainKeysCount(memory, chain[1..], key);
    }
  }

  lemma {:induction false} LinkedInMemory(memory: map<nat, Node<nat, nat>>, head: nat, chain: seq<nat>, e: nat)
    requires Linked(memory, 0, head, chain) && e in chain
    ensures e in memory
    decreases |chain|
  {
    if e != chain[0] {
      LinkedInMemory(memory, memory[head].next, chain[1..], e);
    }
  }

  /** The chain of a row after a step: longer by the entry that was swapped in. */
  ghost function NewChain(b: Build, s: State, t: nat, row: nat, chain: seq<nat>): seq<nat>
    requires Shaped(b, s) && row < b.numRows
  {
    if t < |s.pcs| && row == b.Row(b.keys[t]) && s.pcs[t].Swap? && s.cells[row][3] == s.pcs[t].oldEntry
    then [b.entries[t]] + chain else chain
  }

  /** A claim of an empty column stores the key. */
  lemma ExactClaim(b: Build, s: State, t: nat, row: nat, chain: seq<nat>)
    requires Shaped(b, s) && row < b.numRows && RowExact(b, s, row, chain)
    requires t < |s.pcs| && s.pcs[t].Claim? && b.Row(b.keys[t]) == row
    requires s.cells[row][s.pcs[t].c] == s.pcs[t].expected == INVALID_FLAG
    ensures RowExact(b, Step(b, s, t), row, chain)
  {
    hide Selected, Linked, Distinct, ColumnKeys, ChainKeys;
    var s' := Step(b, s, t);
    assert Through(b, s', row) == Through(b, s, row)[t := true];
    SelectMore(b.keys, Through(b, s, row), t);
    assert s'.cells[row] == s.cells[row][s.pcs[t].c := b.keys[t]];
    ColumnWritten(s.cells[row], s'.cells[row], s.pcs[t].c, b.keys[t]);
    Regroup(ColumnKeys(s.cells[row]), ChainKeys(s.memory, chain), multiset{b.keys[t]});
  }

  /** Linking an entry that is not chained yet changes no row. */
  lemma ExactSetNext(b: Build, s: State, t: nat, row: nat, chain: seq<nat>)
    requires Shaped(b, s) && row < b.numRows && RowInv(b, s, row, chain)
    requires t < |s.pcs| && s.pcs[t].SetNext?
    ensures RowExact(b, Step(b, s, t), row, chain)
  {
    assert b.entries[t] !in chain;
    hide Selected, Linked, Distinct, ChainKeys, ColumnKeys, RowRest, HeadOf;
    var s' := Step(b, s, t);
    ChainStays(s.memory, HeadOf(s.cells[row][3]), chain, b.entries[t], s'.memory[b.entries[t]]);
    assert Through(b, s', row) == Through(b, s, row);
  }

  lemma ChainStays(memory: map<nat, Node<nat, nat>>, head: nat, chain: seq<nat>, entry: nat, node: Node<nat, nat>)
    requires Linked(memory, 0, head, chain) && entry !in chain
    ensures Linked(memory[entry := node], 0, head, chain)
    ensures ChainKeys(memory[entry := node], chain) == ChainKeys(memory, chain)
  {
    hide Linked, ChainKeys;
    LinkedFrame(memory, 0, head, chain, entry, node);
    forall e | e in chain ensures e in memory {
      LinkedInMemory(memory, head, chain, e);
    }
    ChainKeysFrame(memory, memory[entry := node], chain);
  }

  /** A successful swap chains the entry. */
  lemma ExactSwap(b: Build, s: State, t: nat, row: nat, chain: seq<nat>)
    requires Shaped(b, s) && row < b.numRows && RowExact(b, s, row, chain)
    requires t < |s.pcs| && s.pcs[t].Swap? && b.Row(b.keys[t]) == row && PcInv(b, s, t)
    requires s.cells[row][3] == s.pcs[t].oldEntry
    ensures RowExact(b, Step(b, s, t), row, [b.entries[t]] + chain)
  {
    hide Selected, Distinct, Filled;
    var s' := Step(b, s, t);
    assert Through(b, s', row) == Through(b, s, row)[t := true];
    SelectMore(b.keys, Through(b, s, row), t);
    assert ([b.entries[t]] + chain)[1..] == chain;
    Regroup(ColumnKeys(s.cells[row]), ChainKeys(s.memory, chain), multiset{b.keys[t]});
  }

  /** The order in which a row fills. */
  lemma RestStep(b: Build, s: State, t: nat, row: nat, chain: seq<nat>)
    requires Shaped(b, s) && row < b.numRows && RowRest(b, s, row, chain) && !Overwrites(b, s, t)
    requires t < |s.pcs| ==> PcInv(b, s, t)
    ensures RowRest(b, Step(b, s, t), row, NewChain(b, s, t, row, chain))
  {
    hide Selected, Linked;
    var s' := Step(b, s, t);
    StepGrows(b, s, t);
    forall d | 0 <= d < 3 && s'.cells[row][d] != INVALID_FLAG
      ensures Filled(s', row, d) && exists i :: Owner(b, s', row, d, s'.cells[row][d], i)
    {
      if s.cells[row][d] != INVALID_FLAG {
        var i :| Owner(b, s, row, d, s.cells[row][d], i);
        assert Owner(b, s', row, d, s'.cells[row][d], i);
      } else {
        assert Owner(b, s', row, d, s'.cells[row][d], t);
      }
    }
  }

  lemma ExactStep(b: Build, s: State, t: nat, row: nat, chain: seq<nat>)
    requires Shaped(b, s) && row < b.numRows && RowInv(b, s, row, chain) && !Overwrites(b, s, t)
    requires t < |s.pcs| ==> PcInv(b, s, t)
    ensures RowExact(b, Step(b, s, t), row, NewChain(b, s, t, row, chain))
  {
    hide Selected, Linked, Distinct, Filled, Seen, ColumnKeys, ChainKeys;
    var s' := Step(b, s, t);
    if t < |s.pcs| {
      var own := row == b.Row(b.keys[t]);
      if own && s.pcs[t].Claim? && s.cells[row][s.pcs[t].c] == s.pcs[t].expected {
        ExactClaim(b, s, t, row, chain);
      } else if s.pcs[t].SetNext? {
        ExactSetNext(b, s, t, row, chain);
      } else if own && s.pcs[t].Swap? && s.cells[row][3] == s.pcs[t].oldEntry {
        ExactSwap(b, s, t, row, chain);
      } else {
        assert Through(b, s', row) == Through(b, s, row);
      }
    }
  }

  /** Every step that does not overwrite keeps the invariant. */
  lemma StepInv(b: Build, s: State, chains: seq<seq<nat>>, t: nat) returns (chains': seq<seq<nat>>)
    requires Inv(b, s, chains) && !Overwrites(b, s, t)
    ensures Inv(b, Step(b, s, t), chains')
  {
    chains' := seq(b.numRows, row requires 0 <= row < b.numRows => NewChain(b, s, t, row, chains[row]));
    hide RowExact, RowRest, PcInv, Taken, Step, Overwrites, NewChain;
    forall row | 0 <= row < b.numRows ensures RowInv(b, Step(b, s, t), row, chains'[row]) {
      ExactStep(b, s, t, row, chains[row]);
      RestStep(b, s, t, row, chains[row]);
    }
    forall u | 0 <= u < |s.pcs| ensures PcInv(b, Step(b, s, t), u) {
      PcsStep(b, s, t, chains, u);
    }
    TakenStep(b, s, t, chains);
  }

  lemma PcsStep(b: Build, s: State, t: nat, chains: seq<seq<nat>>, u: nat)
    requires Inv(b, s, chains) && !Overwrites(b, s, t) && u < |s.pcs|
    ensures PcInv(b, Step(b, s, t), u)
  {
    if u == t {
      PcStep(b, s, t, chains);
    } else {
      assert PcInv(b, s, u);
      hide PcInv, RowInv, Taken, Grows, Overwrites;
      StepGrows(b, s, t);
      PcFrame(b, s, Step(b, s, t), u);
    }
  }

  lemma TakenStep(b: Build, s: State, t: nat, chains: seq<seq<nat>>)
    requires Inv(b, s, chains) && !Overwrites(b, s, t)
    ensures var s' := Step(b, s, t);
            forall u :: 0 <= u < |s'.pcs| && s'.pcs[u].Finished? && s'.pcs[u].column < 3 ==> Taken(b, s', u)
  {
    hide PcInv, RowInv;
    var s' := Step(b, s, t);
    StepGrows(b, s, t);
    forall u | 0 <= u < |s'.pcs| && s'.pcs[u].Finished? && s'.pcs[u].column < 3 ensures Taken(b, s', u) {
      if u != t || s.pcs[u].Finished? {
        assert Taken(b, s, u);
      }
    }
  }

  // ----- all runs

  /** Every cell is free, and no insert has begun. */
  ghost predicate Untouched(b: Build, s: State)
    requires Shaped(b, s)
  {
    && (forall i :: 0 <= i < |s.pcs| ==> s.pcs[i] == Scan(0, INVALID_FLAG))
    && (forall row :: 0 <= row < b.numRows ==>
         s.cells[row] == [INVALID_FLAG, INVALID_FLAG, INVALID_FLAG, INVALID_FLAG])
  }

  lemma InitUntouched(b: Build)
    requires b.Valid()
    ensures Run(b, []) == Init(b) && Untouched(b, Init(b))
  {
  }

  lemma UntouchedRow(b: Build, s: State, row: nat)
    requires Shaped(b, s) && Untouched(b, s) && row < b.numRows
    ensures RowInv(b, s, row, [])
  {
    hide Selected;
    NoneSelected(b.keys, Through(b, s, row));
  }

  lemma InitInv(b: Build)
    requires b.Valid()
    ensures Inv(b, Init(b), seq(b.numRows, row => []))
  {
    hide Init, RowInv;
    InitUntouched(b);
    forall row | 0 <= row < b.numRows ensures RowInv(b, Init(b), row, []) {
      UntouchedRow(b, Init(b), row);
    }
  }

  /** Without a triple every reachable state stores exactly what was inserted. */
  lemma {:induction false} RunInv(b: Build, schedule: seq<nat>) returns (chains: seq<seq<nat>>)
    requires b.Valid() && NoTriple(b)
    ensures Inv(b, Run(b, schedule), chains)
  {
    if schedule == [] {
      InitInv(b);
      chains := seq(b.numRows, row => []);
    } else {
      var s, t := Run(b, schedule[..|schedule| - 1]), schedule[|schedule| - 1];
      var before := RunInv(b, schedule[..|schedule| - 1]);
      NoOverwrite(b, s, before, t);
      chains := StepInv(b, s, before, t);
    }
  }

  lemma InvExact(b: Build, s: State, chains: seq<seq<nat>>)
    requires Inv(b, s, chains)
    ensures Exact(b, s)
  {
    forall row | 0 <= row < b.numRows ensures RowStoresAll(b, s, row) {
      assert RowExact(b, s, row, chains[row]);
    }
  }

  lemma RunMore(b: Build, schedule: seq<nat>, t: nat)
    requires b.Valid()
    ensures Run(b, schedule + [t]) == Step(b, Run(b, schedule), t)
  {
    assert (schedule + [t])[..|schedule|] == schedule;
  }

  /** Insert t looks at column 0; insert i takes it. */
  lemma FirstLost(b: Build, i: nat, t: nat) returns (s: State)
    requires b.Valid() && i < |b.keys| && t < |b.keys| && i != t && b.Row(b.keys[t]) == b.Row(b.keys[i])
    ensures s == Run(b, [t, i, i]) && s.pcs == Init(b).pcs[t := Claim(0, INVALID_FLAG)][i := Finished(0)]
    ensures s.cells[b.Row(b.keys[i])] == [b.keys[i], INVALID_FLAG, INVALID_FLAG, INVALID_FLAG]
    ensures s.cells == Init(b).cells[b.Row(b.keys[i]) := s.cells[b.Row(b.keys[i])]] && s.memory == Init(b).memory
  {
    hide Run, Init, Build.Row;
    InitUntouched(b);
    var s1 := Looks(b, Init(b), [], t, 0, INVALID_FLAG);
    var s2 := Looks(b, s1, [] + [t], i, 0, INVALID_FLAG);
    s := Takes(b, s2, [] + [t] + [i], i, 0, INVALID_FLAG);
    assert [] + [t] + [i] + [i] == [t, i, i];
    assert s.cells[b.Row(b.keys[i])] == [b.keys[i], INVALID_FLAG, INVALID_FLAG, INVALID_FLAG];
  }

  /** Insert t, expecting an empty column 0, loses it, keeps the winner's key and goes on to column 1. */
  lemma GoesOn(b: Build, s: State, t: nat, schedule: seq<nat>, key: nat) returns (s': State)
    requires b.Valid() && s == Run(b, schedule) && t < |b.keys| && s.pcs[t] == Claim(0, INVALID_FLAG) &&
             key != INVALID_FLAG
    requires s.cells[b.Row(b.keys[t])] == [key, INVALID_FLAG, INVALID_FLAG, INVALID_FLAG]
    ensures s' == Run(b, schedule + [t, t, t]) && s'.pcs == s.pcs[t := Claim(1, key)] && s'.cells == s.cells
    ensures s'.memory == s.memory
  {
    RunMore(b, schedule, t);
    hide Run;
    var s1 := Step(b, s, t);
    var s2 := Looks(b, s1, schedule + [t], t, 0, key);
    s' := Looks(b, s2, schedule + [t] + [t], t, 1, key);
    assert schedule + [t] + [t] + [t] == schedule + [t, t, t];
  }

  lemma Looks(b: Build, s: State, schedule: seq<nat>, u: nat, c: nat, x: nat) returns (s': State)
    requires b.Valid() && s == Run(b, schedule) && u < |b.keys| && s.pcs[u] == Scan(c, x)
    ensures c < 3 && s' == Run(b, schedule + [u])
    ensures s' == s.(pcs := s.pcs[u := if s.cells[b.Row(b.keys[u])][c] == INVALID_FLAG then Claim(c, x)
                                       else if c < 2 then Scan(c + 1, x) else ReadHead])
  {
    RunMore(b, schedule, u);
    hide Run;
    s' := Step(b, s, u);
  }

  lemma Takes(b: Build, s: State, schedule: seq<nat>, u: nat, c: nat, x: nat) returns (s': State)
    requires b.Valid() && s == Run(b, schedule) && u < |b.keys| && s.pcs[u] == Claim(c, x)
    requires c < 3 && s.cells[b.Row(b.keys[u])][c] == x
    ensures s' == Run(b, schedule + [u])
    ensures s'.pcs == s.pcs[u := Finished(c)] && s'.memory == s.memory
    ensures s'.cells == s.cells[b.Row(b.keys[u]) := s.cells[b.Row(b.keys[u])][c := b.keys[u]]]
  {
    RunMore(b, schedule, u);
    hide Run;
    s' := Step(b, s, u);
  }

  /** Insert j finds column 0 taken and takes column 1; insert t then overwrites it. */
  lemma Overwritten(b: Build, s: State, j: nat, t: nat, schedule: seq<nat>, key: nat) returns (s': State)
    requires b.Valid() && s == Run(b, schedule) && j < |b.keys| && t < |b.keys| && j != t
    requires b.keys[j] == key && b.Row(b.keys[t]) == b.Row(key)
    requires s.pcs[j] == Scan(0, INVALID_FLAG) && s.pcs[t] == Claim(1, key)
    requires s.cells[b.Row(key)] == [key, INVALID_FLAG, INVALID_FLAG, INVALID_FLAG]
    ensures s' == Run(b, schedule + [j, j, j, t]) && s'.pcs == s.pcs[j := Finished(1)][t := Finished(1)]
    ensures s'.cells == s.cells[b.Row(key) := [key, b.keys[t], INVALID_FLAG, INVALID_FLAG]] && s'.memory == s.memory
  {
    hide Run, Build.Row;
    var s1 := Looks(b, s, schedule, j, 0, INVALID_FLAG);
    var s2 := Looks(b, s1, schedule + [j], j, 1, INVALID_FLAG);
    var s3 := Takes(b, s2, schedule + [j] + [j], j, 1, INVALID_FLAG);
    s' := Takes(b, s3, schedule + [j] + [j] + [j], t, 1, key);
    var row := b.Row(key);
    assert s3.cells[row] == [key, key, INVALID_FLAG, INVALID_FLAG];
    assert s'.cells[row] == [key, b.keys[t], INVALID_FLAG, INVALID_FLAG];
    assert s'.cells == s.cells[row := s'.cells[row]];
    assert s'.pcs == s.pcs[j := Finished(1)][t := Finished(1)];
    assert schedule + [j] + [j] + [j] + [t] == schedule + [j, j, j, t];
  }

  /** Three inserts of one row, two with the same key: the third loses column 0 to one of them, remembers its key and
      overwrites the other in column 1. */
  lemma TripleLoses(b: Build, i: nat, j: nat, t: nat) returns (schedule: seq<nat>)
    requires b.Valid() && i < |b.keys| && j < |b.keys| && t < |b.keys| && Triple(b, i, j, t)
    ensures !Exact(b, Run(b, schedule))
    ensures var s := Run(b, schedule);
            && s.pcs == Init(b).pcs[i := Finished(0)][t := Finished(1)][j := Finished(1)] && s.memory == Init(b).memory
            && s.cells == Init(b).cells[b.Row(b.keys[i]) := [b.keys[i], b.keys[t], INVALID_FLAG, INVALID_FLAG]]
  {
    hide Run, Init, Completed, Build.Row, RowStoresAll;
    InitUntouched(b);
    var row := b.Row(b.keys[i]);
    var s1 := FirstLost(b, i, t);
    var s2 := GoesOn(b, s1, t, [t, i, i], b.keys[i]);
    var s := Overwritten(b, s2, j, t, [t, i, i] + [t, t, t], b.keys[i]);
    schedule := [t, i, i] + [t, t, t] + [j, j, j, t];
    assert s.pcs == Init(b).pcs[i := Finished(0)][t := Finished(1)][j := Finished(1)];
    ThreeFinished(b, s, row, i, j, t);
    TwoStored(b, s, row, b.keys[i], b.keys[t]);
  }

  lemma ThreeFinished(b: Build, s: State, row: nat, i: nat, j: nat, t: nat)
    requires Shaped(b, s) && i < |b.keys| && j < |b.keys| && t < |b.keys| && i != j && i != t && j != t
    requires forall u :: 0 <= u < |b.keys| ==> (s.pcs[u].Finished? <==> u == i || u == j || u == t)
    requires b.Row(b.keys[i]) == b.Row(b.keys[j]) == b.Row(b.keys[t]) == row
    ensures |Completed(b, s, row)| == 3
  {
    SelectThree(b.keys, Through(b, s, row), i, j, t);
    hide Selected;
    assert |multiset(Selected(b.keys, Through(b, s, row)))| == 3;
  }

  lemma TwoStored(b: Build, s: State, row: nat, x: nat, y: nat)
    requires Shaped(b, s) && row < b.numRows
    requires x != INVALID_FLAG && y != INVALID_FLAG && s.cells[row] == [x, y, INVALID_FLAG, INVALID_FLAG]
    ensures RowStoresAll(b, s, row) ==> |Completed(b, s, row)| == 2
  {
    forall chain | RowExact(b, s, row, chain) ensures |Completed(b, s, row)| == 2 {
      assert chain == [];
      assert ColumnKeys(s.cells[row]) == multiset{x, y};
    }
  }

  /** The table keeps every key in every interleaving exactly when no row gets two equal keys and a third insert. */
  lemma ExactIffNoTriple(b: Build)
    requires b.Valid()
    ensures NoTriple(b) <==> forall schedule :: Exact(b, Run(b, schedule))
  {
    if NoTriple(b) {
      forall schedule ensures Exact(b, Run(b, schedule)) {
        var chains := RunInv(b, schedule);
        InvExact(b, Run(b, schedule), chains);
      }
    } else {
      var i, j, t :| 0 <= i < |b.keys| && 0 <= j < |b.keys| && 0 <= t < |b.keys| && Triple(b, i, j, t);
      var schedule := TripleLoses(b, i, j, t);
    }
  }

  // ----- one insert after the other

  /** While an insert runs, every other one has returned or not begun. */
  ghost predicate Sequential(b: Build, schedule: seq<nat>)
    requires b.Valid()
  {
    forall k, u :: 0 <= k < |schedule| && 0 <= u < |b.keys| && u != schedule[k] ==>
      Run(b, schedule[..k]).pcs[u].Finished? || Run(b, schedule[..k]).pcs[u] == Scan(0, INVALID_FLAG)
  }

  /** Nobody lost a column, or the head of a chain, to anybody. */
  ghost predicate Undisturbed(b: Build, s: State)
    requires Shaped(b, s)
  {
    && (forall u :: 0 <= u < |s.pcs| && (s.pcs[u].SetNext? || s.pcs[u].Swap?) ==>
      s.cells[b.Row(b.keys[u])][3] == s.pcs[u].oldEntry)
    && (forall u :: 0 <= u < |s.pcs| && s.pcs[u].Scan? ==> s.pcs[u].expected == INVALID_FLAG)
    && (forall u :: 0 <= u < |s.pcs| && s.pcs[u].Claim? ==>
      s.pcs[u].expected == INVALID_FLAG && s.cells[b.Row(b.keys[u])][s.pcs[u].c] == INVALID_FLAG)
  }

  lemma SequentialPrefix(b: Build, schedule: seq<nat>, n: nat)
    requires b.Valid() && Sequential(b, schedule) && n < |schedule|
    ensures Sequential(b, schedule[..n])
    ensures var s := Run(b, schedule[..n]);
            |s.pcs| == |b.keys| && forall u :: 0 <= u < |s.pcs| && u != schedule[n] ==>
              s.pcs[u].Finished? || s.pcs[u] == Scan(0, INVALID_FLAG)
  {
    assert forall k :: 0 <= k < n ==> schedule[..n][..k] == schedule[..k] && schedule[..n][k] == schedule[k];
  }

  /** Inserts that run one after the other lose no key, whatever keys are equal. */
  lemma {:induction false} SequentialInv(b: Build, schedule: seq<nat>) returns (chains: seq<seq<nat>>)
    requires b.Valid() && Sequential(b, schedule)
    ensures Inv(b, Run(b, schedule), chains) && Undisturbed(b, Run(b, schedule))
  {
    if schedule == [] {
      InitInv(b);
      chains := seq(b.numRows, row => []);
    } else {
      var n := |schedule| - 1;
      var s, t := Run(b, schedule[..n]), schedule[n];
      SequentialPrefix(b, schedule, n);
      var before := SequentialInv(b, schedule[..n]);
      hide Sequential, Undisturbed;
      chains := StepInv(b, s, before, t);
      UndisturbedStep(b, s, t);
    }
  }

  lemma UndisturbedStep(b: Build, s: State, t: nat)
    requires Shaped(b, s) && Undisturbed(b, s)
    requires forall u :: 0 <= u < |s.pcs| && u != t ==> s.pcs[u].Finished? || s.pcs[u] == Scan(0, INVALID_FLAG)
    ensures Undisturbed(b, Step(b, s, t))
  {
  }
}
