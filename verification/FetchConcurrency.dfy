/**
 Any number of concurrent fetches contending for the slots of one client, interleaved step by
 step. Contexts may be cancelled, attempts may end and sleeps may fail in every possible way.
 */
module FetchConcurrency {

  /**
   Where a call is. From `Validating` to `Sleeping` it holds a slot. A call that was cancelled while
   waiting for one ends `Cancelled`; every other way out of a call ends `Returned`.
   */
  datatype Phase =
    | Waiting
    | Validating
    | Checking(attempt: nat)
    | Attempting(attempt: nat)
    | Sleeping(attempt: nat)
    | Cancelled
    | Returned

  datatype Call = Call(phase: Phase, attempts: nat, acquired: nat, released: nat)

  /** `occupied` is the number of elements in the semaphore channel. */
  datatype System = System(occupied: nat, calls: seq<Call>)

  predicate Holds(c: Call) {
    !c.phase.Waiting? && !Finished(c)
  }

  predicate Finished(c: Call) {
    c.phase.Cancelled? || c.phase.Returned?
  }

  /** The call returns: its deferred function gives the slot back. */
  function Finish(s: System, i: nat): System
    requires i < |s.calls| && s.occupied > 0
  {
    System(s.occupied - 1, s.calls[i := s.calls[i].(phase := Returned, released := s.calls[i].released + 1)])
  }

  function Move(s: System, i: nat, phase: Phase): System
    requires i < |s.calls|
  {
    s.(calls := s.calls[i := s.calls[i].(phase := phase)])
  }

  /** One step of call `i`, on a client with `capacity` slots and at most `limit` attempts a call. */
  ghost predicate CallStep(capacity: nat, limit: nat, s: System, s': System, i: nat) {
    && i < |s.calls|
    && var c := s.calls[i];
       match c.phase
       case Waiting =>
         || (&& s.occupied < capacity
             && s' == System(s.occupied + 1, s.calls[i := c.(phase := Validating, acquired := c.acquired + 1)]))
         || s' == Move(s, i, Cancelled)
       case Validating =>
         s.occupied > 0 && (s' == Finish(s, i) || s' == Move(s, i, Checking(1)))
       case Checking(k) =>
         && s.occupied > 0
         && (|| s' == Finish(s, i)                                    // cancelled, or no attempt left
             || (&& k <= limit
                 && s' == s.(calls := s.calls[i := c.(phase := Attempting(k), attempts := c.attempts + 1)])))
       case Attempting(k) =>
         s.occupied > 0 && (s' == Finish(s, i) || (k < limit && s' == Move(s, i, Sleeping(k))))
       case Sleeping(k) =>
         s.occupied > 0 && (s' == Finish(s, i) || s' == Move(s, i, Checking(k + 1)))
       case Cancelled => false
       case Returned => false
  }

  ghost predicate Next(capacity: nat, limit: nat, s: System, s': System) {
    exists i :: CallStep(capacity, limit, s, s', i)
  }

  ghost predicate Initial(s: System) {
    s.occupied == 0 && forall i :: 0 <= i < |s.calls| ==> s.calls[i] == Call(Waiting, 0, 0, 0)
  }

  /** A run of the system: any interleaving of steps. */
  ghost predicate Behavior(capacity: nat, limit: nat, run: seq<System>) {
    && |run| > 0 && Initial(run[0])
    && forall t :: 0 < t < |run| ==> Next(capacity, limit, run[t - 1], run[t])
  }

  // ---------- Counting over calls ----------

  function Holders(calls: seq<Call>): nat {
    if calls == [] then 0 else Holders(calls[1..]) + (if Holds(calls[0]) then 1 else 0)
  }

  function TotalAttempts(calls: seq<Call>): nat {
    if calls == [] then 0 else TotalAttempts(calls[1..]) + calls[0].attempts
  }

  /** An upper bound on the steps a call has left. */
  function Left(limit: nat, c: Call): nat {
    match c.phase
    case Waiting => 3 * limit + 3
    case Validating => 3 * limit + 2
    case Checking(k) => if k <= limit then 3 * (limit - k) + 4 else 1
    case Attempting(k) => if k <= limit then 3 * (limit - k) + 3 else 1
    case Sleeping(k) => if k <= limit then 3 * (limit - k) + 2 else 2
    case Cancelled => 0
    case Returned => 0
  }

  function Measure(limit: nat, calls: seq<Call>): nat {
    if calls == [] then 0 else Measure(limit, calls[1..]) + Left(limit, calls[0])
  }

  lemma {:induction false} OneCallChanges(limit: nat, calls: seq<Call>, i: nat, c: Call)
    requires i < |calls|
    ensures var after := calls[i := c];
      && Holders(after) + (if Holds(calls[i]) then 1 else 0) == Holders(calls) + (if Holds(c) then 1 else 0)
      && TotalAttempts(after) + calls[i].attempts == TotalAttempts(calls) + c.attempts
      && Measure(limit, after) + Left(limit, calls[i]) == Measure(limit, calls) + Left(limit, c)
  {
    if i > 0 {
      OneCallChanges(limit, calls[1..], i - 1, c);
      assert calls[i := c][1..] == calls[1..][i - 1 := c];
    } else {
      assert calls[i := c][1..] == calls[1..];
    }
  }

  lemma {:induction false} HolderCounted(calls: seq<Call>, i: nat)
    requires i < |calls| && Holds(calls[i])
    ensures Holders(calls) > 0
  {
    if i > 0 { HolderCounted(calls[1..], i - 1); }
  }

  lemma {:induction false} CountedHolder(calls: seq<Call>) returns (i: nat)
    requires Holders(calls) > 0
    ensures i < |calls| && Holds(calls[i])
  {
    if Holds(calls[0]) {
      i := 0;
    } else {
      i := CountedHolder(calls[1..]);
      i := i + 1;
    }
  }

  // ---------- The invariant ----------

  /** A call's bookkeeping agrees with where it is. */
  predicate CallOk(limit: nat, c: Call) {
    && c.released <= c.acquired <= 1
    && (Holds(c) <==> c.acquired == 1 && c.released == 0)
    && (c.phase.Waiting? || c.phase.Cancelled? ==> c.acquired == 0)
    && (c.phase.Returned? ==> c.acquired == 1 && c.released == 1)
    && (c.acquired == 0 ==> c.attempts == 0)
    && c.attempts <= limit
    && match c.phase
       case Validating => c.attempts == 0
       case Checking(k) => 1 <= k <= limit && c.attempts == k - 1
       case Attempting(k) => 1 <= k <= limit && c.attempts == k
       case Sleeping(k) => 1 <= k < limit && c.attempts == k
       case _ => true
  }

  /** Occupied slots are exactly the calls between acquiring and returning, never over capacity. */
  ghost predicate Invariant(capacity: nat, limit: nat, s: System) {
    && s.occupied == Holders(s.calls) <= capacity
    && forall i :: 0 <= i < |s.calls| ==> CallOk(limit, s.calls[i])
  }

  lemma {:induction false} InitialHolds(capacity: nat, limit: nat, calls: seq<Call>)
    requires forall i :: 0 <= i < |calls| ==> calls[i] == Call(Waiting, 0, 0, 0)
    ensures Holders(calls) == 0 && TotalAttempts(calls) == 0 && Measure(limit, calls) == |calls| * (3 * limit + 3)
  {
    if calls != [] {
      InitialHolds(capacity, limit, calls[1..]);
      assert |calls| * (3 * limit + 3) == (|calls| - 1) * (3 * limit + 3) + (3 * limit + 3);
    }
  }

  /** Every step keeps the invariant and uses up some of the measure. */
  lemma {:induction false} StepKeeps(capacity: nat, limit: nat, s: System, s': System, i: nat)
    requires limit > 0 && Invariant(capacity, limit, s) && CallStep(capacity, limit, s, s', i)
    ensures Invariant(capacity, limit, s') && |s'.calls| == |s.calls|
    ensures Measure(limit, s'.calls) < Measure(limit, s.calls)
  {
    assert CallOk(limit, s.calls[i]);
    OneCallChanges(limit, s.calls, i, s'.calls[i]);
    assert s'.calls == s.calls[i := s'.calls[i]];
    assert CallOk(limit, s'.calls[i]);
  }

  lemma {:induction false} BehaviorKeeps(capacity: nat, limit: nat, run: seq<System>, t: nat)
    requires limit > 0 && Behavior(capacity, limit, run) && t < |run|
    ensures Invariant(capacity, limit, run[t]) && |run[t].calls| == |run[0].calls|
    ensures Measure(limit, run[t].calls) + t <= |run[0].calls| * (3 * limit + 3)
  {
    if t == 0 {
      InitialHolds(capacity, limit, run[0].calls);
    } else {
      BehaviorKeeps(capacity, limit, run, t - 1);
      assert Next(capacity, limit, run[t - 1], run[t]);
      var i :| CallStep(capacity, limit, run[t - 1], run[t], i);
      StepKeeps(capacity, limit, run[t - 1], run[t], i);
    }
  }

  lemma {:induction false} AttemptsBounded(limit: nat, calls: seq<Call>)
    requires forall i :: 0 <= i < |calls| ==> CallOk(limit, calls[i])
    ensures TotalAttempts(calls) <= |calls| * limit
  {
    if calls != [] {
      AttemptsBounded(limit, calls[1..]);
      assert calls[0].attempts <= limit;
      assert |calls| * limit == (|calls| - 1) * limit + limit;
    }
  }

  /**
   At every point of every interleaving: occupied slots are the calls holding one and within
   capacity; a call cancelled while waiting took no slot and made no attempt; a call that returned,
   by whichever exit, took one slot and gave it back once; attempts are bounded for each call and
   in total.
   */
  lemma {:induction false} SlotsAreSafe(capacity: nat, limit: nat, run: seq<System>, t: nat, i: nat)
    requires limit > 0 && Behavior(capacity, limit, run) && t < |run| && i < |run[t].calls|
    ensures run[t].occupied == Holders(run[t].calls) <= capacity
    ensures var c := run[t].calls[i];
      && (c.phase.Waiting? || c.phase.Cancelled? ==> c.acquired == c.released == c.attempts == 0)
      && (c.phase.Returned? ==> c.acquired == c.released == 1)
      && (Holds(c) ==> c.acquired == 1 && c.released == 0)
      && c.attempts <= limit
    ensures TotalAttempts(run[t].calls) <= |run[0].calls| * limit
  {
    BehaviorKeeps(capacity, limit, run, t);
    assert CallOk(limit, run[t].calls[i]);
    AttemptsBounded(limit, run[t].calls);
  }

  /** How a call goes on when nothing is cancelled and no sleep fails; an attempt may end it. */
  function Onward(s: System, i: nat): System
    requires i < |s.calls| && Holds(s.calls[i]) && s.occupied > 0
  {
    match s.calls[i].phase
    case Validating => Move(s, i, Checking(1))
    case Checking(k) =>
      s.(calls := s.calls[i := s.calls[i].(phase := Attempting(k), attempts := s.calls[i].attempts + 1)])
    case Sleeping(k) => Move(s, i, Checking(k + 1))
    case _ => Finish(s, i)
  }

  /**
   While a call is unfinished some call can take a step that is neither a cancellation nor a
   failed sleep nor a rejected URL: only an attempt ends a call on the way.
   */
  lemma {:induction false} SomethingCanMove(capacity: nat, limit: nat, s: System, i: nat) returns (j: nat, s': System)
    requires capacity > 0 && limit > 0 && Invariant(capacity, limit, s)
    requires i < |s.calls| && !Finished(s.calls[i])
    ensures CallStep(capacity, limit, s, s', j)
    ensures s.calls[j].phase.Attempting? || !Finished(s'.calls[j])
  {
    if s.occupied == 0 {
      j := i;
      if Holds(s.calls[i]) { HolderCounted(s.calls, i); }
      var c := s.calls[i];
      s' := System(1, s.calls[i := c.(phase := Validating, acquired := c.acquired + 1)]);
    } else {
      j := CountedHolder(s.calls);
      s' := Onward(s, j);
      assert CallOk(limit, s.calls[j]);
    }
  }

  ghost predicate Stuck(capacity: nat, limit: nat, s: System) {
    forall s': System :: !Next(capacity, limit, s, s')
  }

  ghost predicate AllReturned(s: System) {
    s.occupied == 0 && forall i :: 0 <= i < |s.calls| ==> Finished(s.calls[i])
  }

  /**
   Every interleaving is finite, and one that cannot be continued has finished every call and
   given back every slot.
   */
  lemma {:induction false} EveryRunFinishes(capacity: nat, limit: nat, run: seq<System>)
    requires capacity > 0 && limit > 0 && Behavior(capacity, limit, run)
    ensures |run| <= |run[0].calls| * (3 * limit + 3) + 1
    ensures Stuck(capacity, limit, run[|run| - 1]) <==> AllReturned(run[|run| - 1])
  {
    var last := run[|run| - 1];
    BehaviorKeeps(capacity, limit, run, |run| - 1);
    if Stuck(capacity, limit, last) {
      forall i | 0 <= i < |last.calls| ensures Finished(last.calls[i]) {
        if !Finished(last.calls[i]) {
          var j, s' := SomethingCanMove(capacity, limit, last, i);
          assert Next(capacity, limit, last, s');
        }
      }
      if last.occupied > 0 {
        var i := CountedHolder(last.calls);
      }
    }
  }
}
