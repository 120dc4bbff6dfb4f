/** Schedules of concurrent steps: which participant moves at each turn. */
module Schedules {
  predicate Fits(schedule: seq<nat>, n: nat) {
    forall k :: 0 <= k < |schedule| ==> schedule[k] < n
  }

  /** The turns participant `i` gets. */
  function Turns(schedule: seq<nat>, i: nat): nat {
    if schedule == [] then 0 else (if schedule[0] == i then 1 else 0) + Turns(schedule[1..], i)
  }
}
