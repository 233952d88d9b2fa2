/** Schedules: which of several inserts takes the next atomic step. */
module Schedules {
  import opened Basics

  /** How many steps of a schedule are those of insert t. */
  function Turns(schedule: seq<nat>, t: nat): nat {
    if schedule == [] then 0
    else Turns(schedule[..|schedule| - 1], t) + if schedule[|schedule| - 1] == t then 1 else 0
  }

  lemma TurnsMore(schedule: seq<nat>, u: nat, t: nat)
    ensures Turns(schedule + [u], t) == Turns(schedule, t) + if u == t then 1 else 0
  {
    assert (schedule + [u])[..|schedule|] == schedule;
  }

  /** There is a schedule in which each of n inserts has k turns. */
  lemma {:induction false} EveryTurn(n: nat, k: nat) returns (schedule: seq<nat>)
    ensures forall t :: 0 <= t < n ==> Turns(schedule, t) >= k
  {
    if n == 0 {
      schedule := [];
    } else {
      var before := EveryTurn(n - 1, k);
      schedule := TurnsOf(before, n - 1, k);
    }
  }

  lemma {:induction false} TurnsOf(before: seq<nat>, u: nat, k: nat) returns (schedule: seq<nat>)
    ensures Turns(schedule, u) >= k && forall t :: t != u ==> Turns(schedule, t) == Turns(before, t)
  {
    if k == 0 {
      schedule := before;
    } else {
      var less := TurnsOf(before, u, k - 1);
      schedule := less + [u];
      forall t: nat ensures Turns(schedule, t) == Turns(less, t) + if u == t then 1 else 0 {
        TurnsMore(less, u, t);
      }
    }
  }

  lemma {:induction false} FirstNumbers(n: nat) returns (all: set<nat>)
    ensures (forall i: nat :: i in all <==> i < n) && |all| == n
  {
    if n == 0 {
      all := {};
    } else {
      var less := FirstNumbers(n - 1);
      all := less + {n - 1};
    }
  }

  /** Some of n inserts, but not all, are fewer than n. */
  lemma FewerThanAll(some: set<nat>, n: nat, t: nat)
    requires t < n && t !in some && forall i :: i in some ==> i < n
    ensures |some| < n
  {
    var all := FirstNumbers(n);
    SubsetSize(some + {t}, all);
  }

  /** One more makes more. */
  lemma OneMore(some: set<nat>, more: set<nat>, u: nat)
    requires some <= more && u in more && u !in some
    ensures |some| < |more|
  {
    SubsetSize(some + {u}, more);
  }
}
