/**
 Any number of processes migrating one database at the same time, statement by statement. The
 advisory lock is taken inside the transaction and released when it ends.
 */
module MigratorInterleaving {
  import opened Options
  import opened MigrationLedger

  /** `Working(tx, next)` holds the lock, a working copy, and the index of the migration it is at. */
  datatype Phase = Idle | Waiting | Working(tx: Db, next: nat) | Succeeded | Failed

  datatype Migrator = Migrator(plan: seq<Planned>, phase: Phase)

  datatype System = System(db: Db, holder: Option<nat>, migrators: seq<Migrator>)

  function Goto(s: System, i: nat, phase: Phase): System
    requires i < |s.migrators|
  {
    s.(migrators := s.migrators[i := s.migrators[i].(phase := phase)])
  }

  /** One step of migrator `i`. At every point it may also fail, which rolls its transaction back. */
  ghost predicate MigratorStep(s: System, s': System, i: nat) {
    && i < |s.migrators|
    && var m := s.migrators[i];
       match m.phase
       case Idle => s' == Goto(s, i, Waiting) || s' == Goto(s, i, Failed)
       case Waiting =>
         || s' == Goto(s, i, Failed)
         || (s.holder.None? && s' == Goto(s, i, Working(s.db, 0)).(holder := Some(i)))
       case Working(tx, next) =>
         || s' == Goto(s, i, Failed).(holder := None)
         || (&& next < |m.plan| && One(tx, m.plan[next]).Ok?
             && s' == Goto(s, i, Working(One(tx, m.plan[next]).value, next + 1)))
         || (next == |m.plan| && s' == Goto(s, i, Succeeded).(db := tx, holder := None))
       case Succeeded => false
       case Failed => false
  }

  ghost predicate Next(s: System, s': System) {
    exists i :: MigratorStep(s, s', i)
  }

  /** Nothing has run; every process was built with a list that loading accepted. */
  ghost predicate Initial(s: System) {
    && s.db == EMPTY && s.holder.None?
    && forall i :: 0 <= i < |s.migrators| ==> s.migrators[i].phase.Idle? && ValidPlan(s.migrators[i].plan)
  }

  ghost predicate Behavior(run: seq<System>) {
    && |run| > 0 && Initial(run[0])
    && forall t :: 0 < t < |run| ==> Next(run[t - 1], run[t])
  }

  // ---------- The invariant ----------

  ghost predicate MigratorOk(s: System, i: nat)
    requires i < |s.migrators|
  {
    var m := s.migrators[i];
    && ValidPlan(m.plan)
    && (m.phase.Working? <==> s.holder == Some(i))
    && (m.phase.Working? ==>
          && m.phase.next <= |m.plan|
          && Extends(m.plan, m.phase.next, s.db, m.phase.tx)
          && Agrees(m.plan, m.phase.next, s.db))
    && (m.phase.Succeeded? ==> |m.plan| <= |s.db.applied| && Agrees(m.plan, |m.plan|, s.db))
  }

  ghost predicate Invariant(s: System) {
    && DbOk(s.db)
    && (s.holder.Some? ==> s.holder.value < |s.migrators|)
    && forall i :: 0 <= i < |s.migrators| ==> MigratorOk(s, i)
  }

  lemma {:induction false} ExtensionAgrees(plan: seq<Planned>, n: nat, db: Db, after: Db)
    requires n <= |plan| && Extends(plan, n, db, after) && Agrees(plan, n, db)
    ensures Agrees(plan, n, after) && n <= |after.applied|
  {
    forall j | 0 <= j < n && j < |after.applied| ensures after.applied[j].row == plan[j].row {
      if j < |db.applied| { assert after.applied[j] == db.applied[j]; }
    }
  }

  /** What a finished migrator found in the record stays there as the record grows. */
  lemma {:induction false} AgreementKept(plan: seq<Planned>, db: Db, after: Db)
    requires |plan| <= |db.applied| && Agrees(plan, |plan|, db) && db.applied <= after.applied
    ensures |plan| <= |after.applied| && Agrees(plan, |plan|, after)
  {
  }

  /** What a step of another migrator, or none of its own progress, leaves of a migrator's condition. */
  lemma {:induction false} OthersKept(s: System, s': System, i: nat)
    requires Invariant(s) && |s'.migrators| == |s.migrators| && s.db.applied <= s'.db.applied
    requires i < |s.migrators| && s'.migrators[i] == s.migrators[i]
    requires s'.holder == Some(i) <==> s.holder == Some(i)
    requires s.holder == Some(i) ==> s'.db == s.db
    ensures MigratorOk(s', i)
  {
    assert MigratorOk(s, i);
    var m := s.migrators[i];
    if m.phase.Succeeded? { AgreementKept(m.plan, s.db, s'.db); }
  }

  lemma {:induction false} CommitKeeps(s: System, s': System, i: nat)
    requires Invariant(s) && i < |s.migrators| && s.migrators[i].phase.Working?
    requires s.migrators[i].phase.next == |s.migrators[i].plan|
    requires s' == Goto(s, i, Succeeded).(db := s.migrators[i].phase.tx, holder := None)
    ensures Invariant(s') && s.db.applied <= s'.db.applied
  {
    assert MigratorOk(s, i);
    var m := s.migrators[i];
    ExtensionAgrees(m.plan, |m.plan|, s.db, m.phase.tx);
    forall k | 0 <= k < |s'.migrators| ensures MigratorOk(s', k) {
      assert MigratorOk(s, k);
      if k != i { OthersKept(s, s', k); }
    }
  }

  lemma {:induction false} WorkKeeps(s: System, s': System, i: nat)
    requires Invariant(s) && i < |s.migrators| && s.migrators[i].phase.Working?
    requires var m := s.migrators[i];
      && m.phase.next < |m.plan| && One(m.phase.tx, m.plan[m.phase.next]).Ok?
      && s' == Goto(s, i, Working(One(m.phase.tx, m.plan[m.phase.next]).value, m.phase.next + 1))
    ensures Invariant(s') && s'.db == s.db
  {
    assert MigratorOk(s, i);
    var m := s.migrators[i];
    OneExactly(m.plan, m.phase.next, s.db, m.phase.tx);
    forall k | 0 <= k < |s'.migrators| ensures MigratorOk(s', k) {
      if k != i { OthersKept(s, s', k); }
    }
  }

  /** A step keeps the invariant; only a commit changes the committed record, and only by adding to it. */
  lemma {:induction false} StepKeeps(s: System, s': System, i: nat)
    requires Invariant(s) && MigratorStep(s, s', i)
    ensures Invariant(s') && s.db.applied <= s'.db.applied
    ensures s'.db != s.db ==> s'.migrators[i].phase.Succeeded?
    ensures |s'.migrators| == |s.migrators|
    ensures forall k :: 0 <= k < |s.migrators| ==> s'.migrators[k].plan == s.migrators[k].plan
  {
    assert MigratorOk(s, i);
    var m := s.migrators[i];
    if m.phase.Working? && m.phase.next == |m.plan| && s' == Goto(s, i, Succeeded).(db := m.phase.tx, holder := None) {
      CommitKeeps(s, s', i);
    } else if && m.phase.Working? && m.phase.next < |m.plan| && One(m.phase.tx, m.plan[m.phase.next]).Ok?
              && s' == Goto(s, i, Working(One(m.phase.tx, m.plan[m.phase.next]).value, m.phase.next + 1)) {
      WorkKeeps(s, s', i);
    } else {
      assert s'.db == s.db;
      forall k | 0 <= k < |s'.migrators| ensures MigratorOk(s', k) {
        assert MigratorOk(s, k);
        if k != i { OthersKept(s, s', k); }
      }
    }
  }

  lemma {:induction false} BehaviorKeeps(run: seq<System>, t: nat)
    requires Behavior(run) && t < |run|
    ensures Invariant(run[t]) && |run[t].migrators| == |run[0].migrators|
    ensures forall k :: 0 <= k < |run[0].migrators| ==> run[t].migrators[k].plan == run[0].migrators[k].plan
  {
    if t == 0 {
      forall i | 0 <= i < |run[0].migrators| ensures MigratorOk(run[0], i) {}
    } else {
      BehaviorKeeps(run, t - 1);
      assert Next(run[t - 1], run[t]);
      var i :| MigratorStep(run[t - 1], run[t], i);
      StepKeeps(run[t - 1], run[t], i);
    }
  }

  lemma {:induction false} RecordGrows(run: seq<System>, t: nat, u: nat)
    requires Behavior(run) && t <= u < |run|
    ensures run[t].db.applied <= run[u].db.applied
    decreases u
  {
    if t < u {
      RecordGrows(run, t, u - 1);
      BehaviorKeeps(run, u - 1);
      assert Next(run[u - 1], run[u]);
      var i :| MigratorStep(run[u - 1], run[u], i);
      StepKeeps(run[u - 1], run[u], i);
    }
  }

  /**
   In every interleaving: the committed ledger always names versions 1 to n, each body having been
   run once and in that order; what is committed at one time is a prefix of what is later; and a
   migrator that has succeeded finds all its migrations there with its own names and checksums.
   */
  lemma {:induction false} ExactlyOnceInOrder(run: seq<System>, t: nat, u: nat, i: nat)
    requires Behavior(run) && t <= u < |run| && i < |run[0].migrators|
    ensures DbOk(run[t].db) && run[t].db.applied <= run[u].db.applied
    ensures forall v :: v in run[t].db.ledger ==> v in run[u].db.ledger && run[u].db.ledger[v] == run[t].db.ledger[v]
    ensures i < |run[u].migrators|
    ensures run[u].migrators[i].phase.Succeeded? ==>
      var plan := run[0].migrators[i].plan;
      |plan| <= |run[u].db.applied| && Agrees(plan, |plan|, run[u].db)
  {
    BehaviorKeeps(run, t);
    BehaviorKeeps(run, u);
    RecordGrows(run, t, u);
    assert MigratorOk(run[u], i);
    var a, b := run[t].db, run[u].db;
    forall v | v in a.ledger ensures v in b.ledger && b.ledger[v] == a.ledger[v] {
      assert a.applied[v - 1] == b.applied[v - 1];
      assert a.ledger[(v - 1) + 1] == a.applied[v - 1].row && b.ledger[(v - 1) + 1] == b.applied[v - 1].row;
    }
  }

  /** At most one migrator has its transaction under way past the lock. */
  lemma {:induction false} OneAtATime(run: seq<System>, t: nat, i: nat, j: nat)
    requires Behavior(run) && t < |run| && i < |run[t].migrators| && j < |run[t].migrators|
    requires run[t].migrators[i].phase.Working? && run[t].migrators[j].phase.Working?
    ensures i == j
  {
    BehaviorKeeps(run, t);
    assert MigratorOk(run[t], i) && MigratorOk(run[t], j);
  }

  /** Two migrators that both succeed, whenever they do, have the same names and checksums in common. */
  lemma {:induction false} SuccessfulListsAgree(run: seq<System>, t: nat, i: nat, j: nat, k: nat)
    requires Behavior(run) && t < |run| && i < |run[0].migrators| && j < |run[0].migrators|
    requires |run[t].migrators| == |run[0].migrators|
    requires run[t].migrators[i].phase.Succeeded? && run[t].migrators[j].phase.Succeeded?
    requires k < |run[0].migrators[i].plan| && k < |run[0].migrators[j].plan|
    ensures run[0].migrators[i].plan[k].row == run[0].migrators[j].plan[k].row
  {
    ExactlyOnceInOrder(run, t, t, i);
    ExactlyOnceInOrder(run, t, t, j);
    assert run[t].db.applied[k].row == run[0].migrators[i].plan[k].row;
    assert run[t].db.applied[k].row == run[0].migrators[j].plan[k].row;
  }

  /** A migrator whose list has drifted from what is committed can never succeed from then on. */
  lemma {:induction false} DriftNeverSucceeds(run: seq<System>, t: nat, u: nat, i: nat, k: nat)
    requires Behavior(run) && t <= u < |run| && i < |run[0].migrators|
    requires k < |run[0].migrators[i].plan| && k < |run[t].db.applied|
    requires run[t].db.applied[k].row != run[0].migrators[i].plan[k].row
    ensures i < |run[u].migrators| && !run[u].migrators[i].phase.Succeeded?
  {
    ExactlyOnceInOrder(run, t, u, i);
    assert run[u].db.applied[k] == run[t].db.applied[k];
  }

  // ---------- Lists that extend one another ----------

  ghost predicate PrefixOf(plan: seq<Planned>, master: seq<Planned>) {
    plan <= master
  }

  /** All lists are prefixes of the longest one, whose bodies are proper. */
  ghost predicate OneHistory(s: System, master: seq<Planned>) {
    && (forall k :: 0 <= k < |master| ==> master[k].body.Ok?)
    && forall i :: 0 <= i < |s.migrators| ==> PrefixOf(s.migrators[i].plan, master)
  }

  /** The record is what running the master list up to some point gives. */
  ghost predicate Follows(db: Db, master: seq<Planned>) {
    && |db.applied| <= |master|
    && forall k :: 0 <= k < |db.applied| ==>
         master[k].body.Ok? && db.applied[k] == Applied(k + 1, master[k].row, master[k].body.value)
  }

  lemma {:induction false} ExtensionFollows(plan: seq<Planned>, n: nat, db: Db, after: Db, master: seq<Planned>)
    requires n <= |plan| && PrefixOf(plan, master) && Follows(db, master) && Extends(plan, n, db, after)
    ensures Follows(after, master)
  {
    forall k | 0 <= k < |after.applied|
      ensures master[k].body.Ok? && after.applied[k] == Applied(k + 1, master[k].row, master[k].body.value)
    {
      if k < |db.applied| { assert after.applied[k] == db.applied[k]; } else { assert plan[k] == master[k]; }
    }
  }

  lemma {:induction false} RecordFollows(run: seq<System>, t: nat, master: seq<Planned>)
    requires Behavior(run) && OneHistory(run[0], master) && t < |run|
    ensures Follows(run[t].db, master)
  {
    if t > 0 {
      RecordFollows(run, t - 1, master);
      BehaviorKeeps(run, t - 1);
      assert Next(run[t - 1], run[t]);
      var i: nat :| MigratorStep(run[t - 1], run[t], i);
      assert MigratorOk(run[t - 1], i);
      var m := run[t - 1].migrators[i];
      if run[t].db != run[t - 1].db {
        assert PrefixOf(run[0].migrators[i].plan, master);
        ExtensionFollows(m.plan, |m.plan|, run[t - 1].db, m.phase.tx, master);
      }
    }
  }

  /**
   When the lists extend one another, then in every interleaving the committed record is the
   longest list up to some version, and no migrator is ever stopped by drift, a bad body or a
   constraint: each one holding the lock can always take its next step towards success.
   */
  lemma {:induction false} NoDriftWithinOneHistory(run: seq<System>, t: nat, i: nat, master: seq<Planned>)
    requires Behavior(run) && OneHistory(run[0], master) && t < |run| && i < |run[t].migrators|
    ensures Follows(run[t].db, master)
    ensures var m := run[t].migrators[i];
      m.phase.Working? && m.phase.next < |m.plan| ==> One(m.phase.tx, m.plan[m.phase.next]).Ok?
  {
    RecordFollows(run, t, master);
    BehaviorKeeps(run, t);
    assert MigratorOk(run[t], i);
    var m, db := run[t].migrators[i], run[t].db;
    if m.phase.Working? && m.phase.next < |m.plan| {
      assert PrefixOf(run[0].migrators[i].plan, master) && m.plan == run[0].migrators[i].plan;
      forall j | 0 <= j < m.phase.next + 1 && j < |db.applied| ensures db.applied[j].row == m.plan[j].row {
        assert m.plan[j] == master[j];
      }
      forall j | |db.applied| <= j < m.phase.next + 1 ensures m.plan[j].body.Ok? {
        assert m.plan[j] == master[j];
      }
      forall j | |db.applied| <= j < m.phase.next ensures m.plan[j].body.Ok? {
        assert m.plan[j] == master[j];
      }
      OneExactly(m.plan, m.phase.next, db, m.phase.tx);
    }
  }

  /** Once a migrator carrying the whole history has succeeded, the record is that history, for good. */
  lemma {:induction false} WholeHistoryApplied(run: seq<System>, t: nat, u: nat, i: nat, master: seq<Planned>)
    requires Behavior(run) && OneHistory(run[0], master) && t <= u < |run| && i < |run[0].migrators|
    requires run[0].migrators[i].plan == master
    requires i < |run[t].migrators| && run[t].migrators[i].phase.Succeeded?
    ensures |run[u].db.applied| == |master| && Follows(run[u].db, master) && run[u].db.applied == run[t].db.applied
  {
    ExactlyOnceInOrder(run, t, t, i);
    ExactlyOnceInOrder(run, t, u, i);
    RecordFollows(run, t, master);
    RecordFollows(run, u, master);
  }

  // ---------- Runs are finite, and nobody is left behind ----------

  predicate Finished(m: Migrator) {
    m.phase.Succeeded? || m.phase.Failed?
  }

  /** An upper bound on the steps a migrator has left. */
  function Left(m: Migrator): nat {
    match m.phase
    case Idle => |m.plan| + 3
    case Waiting => |m.plan| + 2
    case Working(_, next) => if next <= |m.plan| then |m.plan| - next + 1 else 1
    case Succeeded => 0
    case Failed => 0
  }

  function Measure(ms: seq<Migrator>): nat {
    if ms == [] then 0 else Measure(ms[1..]) + Left(ms[0])
  }

  lemma {:induction false} OneMigratorMoves(ms: seq<Migrator>, i: nat, m: Migrator)
    requires i < |ms|
    ensures Measure(ms[i := m]) + Left(ms[i]) == Measure(ms) + Left(m)
  {
    if i > 0 {
      OneMigratorMoves(ms[1..], i - 1, m);
      assert ms[i := m][1..] == ms[1..][i - 1 := m];
    } else {
      assert ms[i := m][1..] == ms[1..];
    }
  }

  /** Every step of a migrator uses up some of the measure. */
  lemma {:induction false} StepUsesUp(s: System, s': System, i: nat)
    requires Invariant(s) && MigratorStep(s, s', i)
    ensures Measure(s'.migrators) < Measure(s.migrators)
  {
    assert MigratorOk(s, i);
    OneMigratorMoves(s.migrators, i, s'.migrators[i]);
    assert s'.migrators == s.migrators[i := s'.migrators[i]];
  }

  lemma {:induction false} RunUsesUp(run: seq<System>, t: nat)
    requires Behavior(run) && t < |run|
    ensures Measure(run[t].migrators) + t <= Measure(run[0].migrators)
  {
    if t > 0 {
      RunUsesUp(run, t - 1);
      BehaviorKeeps(run, t - 1);
      assert Next(run[t - 1], run[t]);
      var i :| MigratorStep(run[t - 1], run[t], i);
      StepUsesUp(run[t - 1], run[t], i);
    }
  }

  /** Migrator `i` stands before a migration that its transaction cannot take: drifted, or without a body. */
  ghost predicate Stopped(s: System, i: nat)
    requires i < |s.migrators|
  {
    var m := s.migrators[i];
    m.phase.Working? && m.phase.next < |m.plan| && One(m.phase.tx, m.plan[m.phase.next]).Err?
  }

  /**
   While a migrator is unfinished some migrator can take a step, and one that does not fail unless
   it has met drift or a bad body: nobody waits for a lock that is not given back.
   */
  lemma {:induction false} SomeoneCanMove(s: System, i: nat) returns (j: nat, s': System)
    requires Invariant(s) && i < |s.migrators| && !Finished(s.migrators[i])
    ensures MigratorStep(s, s', j)
    ensures Stopped(s, j) || !s'.migrators[j].phase.Failed?
  {
    j := if s.holder.Some? then s.holder.value else i;
    assert MigratorOk(s, i) && MigratorOk(s, j);
    var m := s.migrators[j];
    match m.phase {
      case Idle => s' := Goto(s, j, Waiting);
      case Waiting => s' := Goto(s, j, Working(s.db, 0)).(holder := Some(j));
      case Working(tx, next) =>
        if next == |m.plan| {
          s' := Goto(s, j, Succeeded).(db := tx, holder := None);
        } else if One(tx, m.plan[next]).Ok? {
          s' := Goto(s, j, Working(One(tx, m.plan[next]).value, next + 1));
        } else {
          s' := Goto(s, j, Failed).(holder := None);
        }
    }
  }

  lemma {:induction false} HolderIsUnfinished(s: System)
    requires Invariant(s)
    ensures s.holder.Some? ==> s.holder.value < |s.migrators| && !Finished(s.migrators[s.holder.value])
  {
    if s.holder.Some? {
      assert MigratorOk(s, s.holder.value);
    }
  }

  ghost predicate Stuck(s: System) {
    forall s': System :: !Next(s, s')
  }

  /** The most steps a run of these migrators can have. */
  function Steps(ms: seq<Migrator>): nat {
    if ms == [] then 0 else Steps(ms[1..]) + |ms[0].plan| + 3
  }

  lemma {:induction false} MeasureAtStart(ms: seq<Migrator>)
    requires forall i :: 0 <= i < |ms| ==> ms[i].phase.Idle?
    ensures Measure(ms) == Steps(ms)
  {
    if ms != [] {
      MeasureAtStart(ms[1..]);
    }
  }

  /**
   Every interleaving is finite, and one that cannot be continued has every migrator succeeded or
   failed and the lock free.
   */
  lemma {:induction false} EveryRunFinishes(run: seq<System>)
    requires Behavior(run)
    ensures |run| <= Steps(run[0].migrators) + 1
    ensures var last := run[|run| - 1];
      Stuck(last) <==> last.holder.None? && forall i :: 0 <= i < |last.migrators| ==> Finished(last.migrators[i])
  {
    var last := run[|run| - 1];
    RunUsesUp(run, |run| - 1);
    MeasureAtStart(run[0].migrators);
    BehaviorKeeps(run, |run| - 1);
    HolderIsUnfinished(last);
    if Stuck(last) {
      forall i | 0 <= i < |last.migrators| ensures Finished(last.migrators[i]) {
        if !Finished(last.migrators[i]) {
          var j, s' := SomeoneCanMove(last, i);
          assert Next(last, s');
        }
      }
    }
  }
}
