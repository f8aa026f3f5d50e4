/** The ways in which a parallel loop may run: the steps of its iterations in any order. */
module Schedules {

  // ---- Turns ---------------------------------------------------------------------------------

  ghost function Occurrences(turns: seq<nat>, k: nat): nat {
    if |turns| == 0 then 0
    else
      var last := |turns| - 1;
      Occurrences(turns[..last], k) + if turns[last] == k then 1 else 0
  }

  lemma OccurrencesPush(turns: seq<nat>, last: nat, k: nat)
    ensures Occurrences(turns + [last], k) == Occurrences(turns, k) + if last == k then 1 else 0
  {
    assert (turns + [last])[..|turns|] == turns;
  }

  lemma {:induction false} OccurrencesPrefix(turns: seq<nat>, t: nat, k: nat)
    requires t <= |turns|
    ensures Occurrences(turns[..t], k) <= Occurrences(turns, k)
  {
    if t == |turns| {
      assert turns[..t] == turns;
    } else {
      var last := |turns| - 1;
      OccurrencesPrefix(turns[..last], t, k);
      assert turns[..last][..t] == turns[..t];
    }
  }

  /** Iteration `k` makes its `steps[k]` steps in its own order; steps of different iterations
      come in any order whatever. The t-th entry says whose turn it is. */
  ghost predicate Interleaves(turns: seq<nat>, steps: seq<nat>) {
    && (forall t :: 0 <= t < |turns| ==> turns[t] < |steps|)
    && (forall k: nat :: k < |steps| ==> Occurrences(turns, k) == steps[k])
  }

  /** Whoever has turn `t` has not made all its steps yet. */
  lemma TurnsSoFar(turns: seq<nat>, steps: seq<nat>, t: nat)
    requires Interleaves(turns, steps) && t < |turns|
    ensures turns[t] < |steps|
    ensures Occurrences(turns[..t], turns[t]) < steps[turns[t]]
    ensures forall k: nat ::
              Occurrences(turns[..t + 1], k) == Occurrences(turns[..t], k) + if turns[t] == k then 1 else 0
  {
    assert turns[..t + 1] == turns[..t] + [turns[t]];
    forall k: nat
      ensures Occurrences(turns[..t + 1], k) == Occurrences(turns[..t], k) + if turns[t] == k then 1 else 0
    {
      OccurrencesPush(turns[..t], turns[t], k);
    }
    OccurrencesPrefix(turns, t + 1, turns[t]);
  }

  lemma NoTurns(turns: seq<nat>)
    ensures forall k: nat :: Occurrences(turns[..0], k) == 0
  {
  }

  lemma AllTurns(turns: seq<nat>, steps: seq<nat>)
    requires Interleaves(turns, steps)
    ensures forall k: nat :: k < |steps| ==> Occurrences(turns[..|turns|], k) == steps[k]
  {
    assert turns[..|turns|] == turns;
  }

  // ---- Whole iterations in any order -----------------------------------------------------------

  /** Every index below `n` occurs exactly once. */
  ghost predicate IsSchedule(order: seq<nat>, n: nat) {
    && |order| == n
    && (forall t :: 0 <= t < |order| ==> order[t] < n)
    && (forall t, u :: 0 <= t < u < |order| ==> order[t] != order[u])
    && (forall k :: 0 <= k < n ==> k in order)
  }

  ghost function Repeated(k: nat, times: nat): seq<nat> {
    if times == 0 then [] else Repeated(k, times - 1) + [k]
  }

  /** Iterations run one at a time, in the given order. */
  ghost function OneAtATime(order: seq<nat>, steps: seq<nat>): seq<nat>
    requires forall t :: 0 <= t < |order| ==> order[t] < |steps|
  {
    if |order| == 0 then []
    else
      var last := |order| - 1;
      OneAtATime(order[..last], steps) + Repeated(order[last], steps[order[last]])
  }

  lemma {:induction false} RepeatedTurns(turns: seq<nat>, last: nat, times: nat, k: nat)
    ensures Occurrences(turns + Repeated(last, times), k) == Occurrences(turns, k) + if last == k then times else 0
    ensures forall t :: 0 <= t < |Repeated(last, times)| ==> Repeated(last, times)[t] == last
  {
    if times == 0 {
      assert turns + Repeated(last, times) == turns;
    } else {
      RepeatedTurns(turns, last, times - 1, k);
      OccurrencesPush(turns + Repeated(last, times - 1), last, k);
      assert turns + Repeated(last, times) == turns + Repeated(last, times - 1) + [last];
    }
  }

  lemma {:induction false} OneAtATimeBelow(order: seq<nat>, steps: seq<nat>)
    requires forall t :: 0 <= t < |order| ==> order[t] < |steps|
    ensures forall t :: 0 <= t < |OneAtATime(order, steps)| ==> OneAtATime(order, steps)[t] < |steps|
  {
    if |order| == 0 {
    } else {
      var last := order[|order| - 1];
      OneAtATimeBelow(order[..|order| - 1], steps);
      RepeatedTurns([], last, steps[last], last);
    }
  }

  lemma {:induction false} OneAtATimeTurns(order: seq<nat>, steps: seq<nat>, k: nat)
    requires forall t :: 0 <= t < |order| ==> order[t] < |steps|
    requires forall t, u :: 0 <= t < u < |order| ==> order[t] != order[u]
    requires k < |steps|
    ensures Occurrences(OneAtATime(order, steps), k) == if k in order then steps[k] else 0
  {
    if |order| == 0 {
    } else {
      var last := |order| - 1;
      OneAtATimeTurns(order[..last], steps, k);
      RepeatedTurns(OneAtATime(order[..last], steps), order[last], steps[order[last]], k);
      assert order == order[..last] + [order[last]];
    }
  }

  /** Every order of whole iterations is one of the interleavings. */
  lemma SchedulesAreInterleavings(order: seq<nat>, steps: seq<nat>)
    requires IsSchedule(order, |steps|)
    ensures Interleaves(OneAtATime(order, steps), steps)
  {
    OneAtATimeBelow(order, steps);
    forall k: nat | k < |steps|
      ensures Occurrences(OneAtATime(order, steps), k) == steps[k]
    {
      OneAtATimeTurns(order, steps, k);
    }
  }
}
