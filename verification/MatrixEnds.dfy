/** Every insert into the matrix table returns, whichever columns and whichever swaps it loses. */
module MatrixEnds {
  import opened Basics
  import opened Chains
  import opened Schedules
  import opened MatrixHT

  /** The inserts that have returned. */
  ghost function Returned(s: State): set<nat> {
    set t: nat | t < |s.pcs| && s.pcs[t].Finished?
  }

  /** How many turns an insert has had at most. It looks at a column, claims it, perhaps with a stale expected value and
      once more with the right one, and looks again before it goes on: five turns. At the chain it has three for each
      try, and there was at most one try for each of the inserts in done, which had returned when it read the head. */
  ghost predicate Trying(b: Build, s: State, t: nat, turns: nat, done: set<nat>)
    requires Shaped(b, s) && t < |s.pcs|
  {
    var cells := s.cells[b.Row(b.keys[t])];
    && done <= Returned(s)
    && match s.pcs[t]
       case Scan(c, x) => turns <= 5 * c + if cells[c] != INVALID_FLAG then 4 else if x == INVALID_FLAG then 2 else 0
       case Claim(c, x) => turns <= 5 * c + if x == INVALID_FLAG then 3 else 1
       case ReadHead => turns <= 15 + 3 * |done|
       case SetNext(head) => turns <= 16 + 3 * |done| && (cells[3] == head || |done| < |Returned(s)|)
       case Swap(head) => turns <= 17 + 3 * |done| && (cells[3] == head || |done| < |Returned(s)|)
       case Finished(_) => true
  }

  /** Columns are never emptied, and a chain gets a new head only from an insert that returns. */
  lemma ReturnedStep(b: Build, s: State, u: nat, row: nat)
    requires Shaped(b, s) && row < b.numRows
    ensures var s' := Step(b, s, u);
            && Returned(s) <= Returned(s')
            && (s'.cells[row][3] != s.cells[row][3] ==> |Returned(s)| < |Returned(s')|)
            && forall c :: 0 <= c < 3 && s.cells[row][c] != INVALID_FLAG ==> s'.cells[row][c] != INVALID_FLAG
  {
    if Step(b, s, u).cells[row][3] != s.cells[row][3] {
      OneMore(Returned(s), Returned(Step(b, s, u)), u);
    }
  }

  lemma TryingStep(b: Build, s: State, t: nat, turns: nat, done: set<nat>, u: nat) returns (done': set<nat>)
    requires Shaped(b, s) && t < |s.pcs| && !s.pcs[t].Finished? && Trying(b, s, t, turns, done)
    ensures Trying(b, Step(b, s, u), t, if u == t then turns + 1 else turns, done')
  {
    ReturnedStep(b, s, u, b.Row(b.keys[t]));
    var s' := Step(b, s, u);
    SubsetSize(done, Returned(s));
    SubsetSize(Returned(s), Returned(s'));
    hide Returned, Build.Row;
    done' := if u == t && !s.pcs[t].SetNext? then Returned(s) else done;
  }

  lemma {:induction false} AlwaysTrying(b: Build, schedule: seq<nat>, t: nat) returns (done: set<nat>)
    requires b.Valid() && t < |b.keys|
    ensures Run(b, schedule).pcs[t].Finished? || Trying(b, Run(b, schedule), t, Turns(schedule, t), done)
  {
    if schedule == [] {
      done := {};
    } else {
      var before, u := schedule[..|schedule| - 1], schedule[|schedule| - 1];
      done := AlwaysTrying(b, before, t);
      if Run(b, before).pcs[t].Finished? {
        FinishedStays(b, Run(b, before), t, u);
      } else {
        done := TryingStep(b, Run(b, before), t, Turns(before, t), done, u);
      }
      hide Trying, Step;
    }
  }

  lemma FinishedStays(b: Build, s: State, t: nat, u: nat)
    requires Shaped(b, s) && t < |s.pcs| && s.pcs[t].Finished?
    ensures Step(b, s, u).pcs[t] == s.pcs[t]
  {
  }

  /** However the inserts are interleaved, five steps for each column and three for each insert are enough for one to
      return. */
  lemma InsertEnds(b: Build, schedule: seq<nat>, t: nat)
    requires b.Valid() && t < |b.keys| && Turns(schedule, t) >= 15 + 3 * |b.keys|
    ensures Run(b, schedule).pcs[t].Finished?
  {
    var done := AlwaysTrying(b, schedule, t);
    var s := Run(b, schedule);
    hide Run;
    if !s.pcs[t].Finished? {
      FewerThanAll(done, |b.keys|, t);
    }
  }

  /** So every build phase can come to its end. */
  lemma AllReturn(b: Build) returns (schedule: seq<nat>)
    requires b.Valid()
    ensures forall t :: 0 <= t < |b.keys| ==> Run(b, schedule).pcs[t].Finished?
  {
    schedule := EveryTurn(|b.keys|, 15 + 3 * |b.keys|);
    forall t | 0 <= t < |b.keys| ensures Run(b, schedule).pcs[t].Finished? {
      InsertEnds(b, schedule, t);
    }
  }
}
