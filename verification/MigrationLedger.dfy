/** One call of Migrate: a transaction that checks the ledger, applies what is missing and records it. */
module MigrationLedger {
  import opened Options
  import opened Text
  import opened MigrationSources

  datatype Row = Row(name: string, checksum: string)

  /** A source migration as the call uses it: what the ledger must say, and what to run. */
  datatype Planned = Planned(version: int, row: Row, body: Result<string, BodyError>)

  /** A migration body that was run, with what the ledger recorded for it. */
  datatype Applied = Applied(version: int, row: Row, body: string)

  /** The ledger table, and the bodies run so far in the order they were run. */
  datatype Db = Db(ledger: map<int, Row>, applied: seq<Applied>)

  const EMPTY := Db(map[], [])

  datatype MigrateError = Mismatch(version: int) | BadBody(version: int) | Violation | Unavailable

  /** `hash` is SHA-256 in hex. */
  function Plan(hash: string -> string, m: Migration): Planned {
    Planned(m.version, Row(m.name, hash(TrimSpace(m.sql))), MigrationBody(m.sql))
  }

  function PlanAll(hash: string -> string, list: seq<Migration>): (plan: seq<Planned>)
    ensures |plan| == |list|
    ensures forall i :: 0 <= i < |list| ==> plan[i] == Plan(hash, list[i])
  {
    if list == [] then [] else PlanAll(hash, list[..|list| - 1]) + [Plan(hash, list[|list| - 1])]
  }

  /** Versions 1 to n in order, under names that carry them. */
  ghost predicate ValidPlan(plan: seq<Planned>) {
    forall i :: 0 <= i < |plan| ==> plan[i].version == i + 1 && MigrationVersion(plan[i].row.name) == Some(i + 1)
  }

  lemma {:induction false} LoadedListsArePlans(hash: string -> string, list: seq<Migration>)
    requires ValidList(list)
    ensures ValidPlan(PlanAll(hash, list))
  {
  }

  function Apply(db: Db, p: Planned): Db
    requires p.body.Ok?
  {
    Db(db.ledger[p.version := p.row], db.applied + [Applied(p.version, p.row, p.body.value)])
  }

  /** `INSERT INTO schema_migrations`: version and name are unique. */
  predicate InsertAllowed(db: Db, p: Planned) {
    p.version !in db.ledger && forall v :: v in db.ledger ==> db.ledger[v].name != p.row.name
  }

  /** What the loop makes of one migration, when no call is interrupted. */
  function One(db: Db, p: Planned): Result<Db, MigrateError> {
    if p.version in db.ledger then
      if db.ledger[p.version] == p.row then Ok(db) else Err(Mismatch(p.version))
    else if p.body.Err? then Err(BadBody(p.version))
    else if !InsertAllowed(db, p) then Err(Violation)
    else Ok(Apply(db, p))
  }

  // ---------- The ledgers that arise ----------

  /** Versions 1 to n, each recorded once under a name that carries it, as run in that order. */
  ghost predicate DbOk(db: Db) {
    && (forall v :: v in db.ledger <==> 1 <= v <= |db.applied|)
    && (forall j :: 0 <= j < |db.applied| ==>
          && db.applied[j].version == j + 1
          && db.ledger[j + 1] == db.applied[j].row
          && MigrationVersion(db.applied[j].row.name) == Some(j + 1))
  }

  /** No drift: of the first `n` migrations, those already applied carry the same name and checksum. */
  ghost predicate Agrees(plan: seq<Planned>, n: nat, db: Db)
    requires n <= |plan|
  {
    forall j :: 0 <= j < n && j < |db.applied| ==> db.applied[j].row == plan[j].row
  }

  /** Those of the first `n` migrations that are missing have a proper body. */
  ghost predicate BodiesOk(plan: seq<Planned>, n: nat, db: Db)
    requires n <= |plan|
  {
    forall j :: |db.applied| <= j < n ==> plan[j].body.Ok?
  }

  /** Everything a call needs of the ledger and the sources. */
  ghost predicate CanMigrate(plan: seq<Planned>, db: Db) {
    Agrees(plan, |plan|, db) && BodiesOk(plan, |plan|, db)
  }

  /** `after` is `db` with exactly the missing ones of the first `n` migrations applied, in order. */
  ghost predicate Extends(plan: seq<Planned>, n: nat, db: Db, after: Db)
    requires n <= |plan|
  {
    && DbOk(after)
    && db.applied <= after.applied
    && |after.applied| == (if n <= |db.applied| then |db.applied| else n)
    && forall j :: |db.applied| <= j < n ==>
         plan[j].body.Ok? && after.applied[j] == Applied(j + 1, plan[j].row, plan[j].body.value)
  }

  lemma {:induction false} ExtensionIsUnique(plan: seq<Planned>, n: nat, db: Db, a: Db, b: Db)
    requires n <= |plan| && Extends(plan, n, db, a) && Extends(plan, n, db, b)
    ensures a == b
  {
    assert |a.applied| == |b.applied|;
    forall j | 0 <= j < |a.applied| ensures a.applied[j] == b.applied[j] {
      if j < |db.applied| { assert a.applied[j] == db.applied[j] == b.applied[j]; }
    }
    forall v ensures v in a.ledger <==> v in b.ledger {}
    forall v | v in a.ledger ensures a.ledger[v] == b.ledger[v] {
      assert a.applied[v - 1].row == a.ledger[(v - 1) + 1] && b.applied[v - 1].row == b.ledger[(v - 1) + 1];
    }
  }

  /** On a proper ledger the unique constraints never stand in the way of the next version. */
  lemma {:induction false} NextIsAllowed(db: Db, p: Planned)
    requires DbOk(db) && p.version == |db.applied| + 1 && MigrationVersion(p.row.name) == Some(p.version)
    ensures InsertAllowed(db, p)
    ensures p.body.Ok? ==> DbOk(Apply(db, p))
  {
    forall v | v in db.ledger ensures db.ledger[v].name != p.row.name {
      assert db.ledger[(v - 1) + 1] == db.applied[v - 1].row;
    }
  }

  /** One turn of the loop succeeds exactly when it can, and then extends by exactly that migration. */
  lemma {:induction false} OneExactly(plan: seq<Planned>, i: nat, db: Db, tx: Db)
    requires i < |plan| && ValidPlan(plan) && DbOk(db)
    requires Extends(plan, i, db, tx) && Agrees(plan, i, db) && BodiesOk(plan, i, db)
    ensures One(tx, plan[i]).Ok? <==> Agrees(plan, i + 1, db) && BodiesOk(plan, i + 1, db)
    ensures One(tx, plan[i]).Ok? ==> Extends(plan, i + 1, db, One(tx, plan[i]).value)
    ensures plan[i].version in tx.ledger <==> i < |db.applied|
  {
    var p := plan[i];
    if i < |db.applied| {
      assert tx.applied[i] == db.applied[i];
      assert tx.ledger[i + 1] == tx.applied[i].row;
    } else {
      NextIsAllowed(tx, p);
    }
  }

  /** The calls to the database that may fail. Migration `i` is run and recorded when it is missing. */
  datatype Call = Begin | Lock | EnsureSchema | EnsureLedger | Read(i: nat) | Run(i: nat) | Record(i: nat) | Commit

  /** No call of turn `i` fails. */
  predicate TurnUninterrupted(fault: Call -> bool, applied: nat, i: nat) {
    !fault(Read(i)) && (applied <= i ==> !fault(Run(i)) && !fault(Record(i)))
  }

  /** No call up to and including the first `n` turns fails. */
  ghost predicate Uninterrupted(fault: Call -> bool, applied: nat, n: nat) {
    && !fault(Begin) && !fault(Lock) && !fault(EnsureSchema) && !fault(EnsureLedger)
    && forall i: nat :: i < n ==> TurnUninterrupted(fault, applied, i)
  }

  lemma {:induction false} StoppedEarlier(fault: Call -> bool, plan: seq<Planned>, db: Db, i: nat)
    requires i <= |plan|
    requires !Uninterrupted(fault, |db.applied|, i) || !Agrees(plan, i, db) || !BodiesOk(plan, i, db)
    ensures !(CanMigrate(plan, db) && Uninterrupted(fault, |db.applied|, |plan|))
  {
    if CanMigrate(plan, db) {
      assert Agrees(plan, i, db) && BodiesOk(plan, i, db);
    }
  }

  /** Migration `i` is the first that stands in the way: it has drifted, or is missing without a body. */
  ghost predicate BlockedAt(plan: seq<Planned>, i: nat, db: Db, e: MigrateError) {
    && i < |plan| && Agrees(plan, i, db) && BodiesOk(plan, i, db)
    && if i < |db.applied|
       then db.applied[i].row != plan[i].row && e == Mismatch(i + 1)
       else plan[i].body.Err? && e == BadBody(i + 1)
  }

  lemma {:induction false} OneBlocked(plan: seq<Planned>, i: nat, db: Db, tx: Db)
    requires i < |plan| && ValidPlan(plan) && DbOk(db)
    requires Extends(plan, i, db, tx) && Agrees(plan, i, db) && BodiesOk(plan, i, db)
    ensures One(tx, plan[i]).Err? ==> BlockedAt(plan, i, db, One(tx, plan[i]).error)
  {
    if i < |db.applied| {
      assert tx.applied[i] == db.applied[i];
      assert tx.ledger[i + 1] == tx.applied[i].row;
    } else {
      NextIsAllowed(tx, plan[i]);
    }
  }

  /** The loop has come to migration `i` without anything in its way. */
  ghost predicate Reached(plan: seq<Planned>, i: nat, db: Db, tx: Db, fault: Call -> bool) {
    && i <= |plan| && Extends(plan, i, db, tx) && Agrees(plan, i, db) && BodiesOk(plan, i, db)
    && Uninterrupted(fault, |db.applied|, i)
  }

  lemma {:induction false} TurnDecides(plan: seq<Planned>, i: nat, db: Db, tx: Db, fault: Call -> bool)
    requires i < |plan| && ValidPlan(plan) && DbOk(db) && Reached(plan, i, db, tx, fault)
    ensures plan[i].version in tx.ledger <==> i < |db.applied|
    ensures One(tx, plan[i]).Err? ==> BlockedAt(plan, i, db, One(tx, plan[i]).error)
    ensures if One(tx, plan[i]).Ok? && TurnUninterrupted(fault, |db.applied|, i)
            then Reached(plan, i + 1, db, One(tx, plan[i]).value, fault)
            else !(CanMigrate(plan, db) && Uninterrupted(fault, |db.applied|, |plan|))
  {
    OneExactly(plan, i, db, tx);
    OneBlocked(plan, i, db, tx);
    if One(tx, plan[i]).Err? || !TurnUninterrupted(fault, |db.applied|, i) {
      StoppedEarlier(fault, plan, db, i + 1);
    }
  }

  /** The loop over the source's migrations, on the transaction's working copy. */
  method ApplyMissing(db: Db, hash: string -> string, list: seq<Migration>, fault: Call -> bool)
    returns (tx: Db, err: Option<MigrateError>)
    requires DbOk(db) && ValidList(list) && Uninterrupted(fault, |db.applied|, 0)
    ensures err.None? <==> CanMigrate(PlanAll(hash, list), db) && Uninterrupted(fault, |db.applied|, |list|)
    ensures err.None? ==> Extends(PlanAll(hash, list), |list|, db, tx)
    ensures err.Some? && err.value != Unavailable ==> exists i :: BlockedAt(PlanAll(hash, list), i, db, err.value)
    ensures err == Some(Unavailable) ==> exists call :: fault(call)
  {
    ghost var plan := PlanAll(hash, list);
    LoadedListsArePlans(hash, list);
    tx := db;
    for i := 0 to |list|
      invariant Reached(plan, i, db, tx, fault)
    {
      var p := Plan(hash, list[i]);
      TurnDecides(plan, i, db, tx, fault);
      var r := ApplyOne(tx, p, fault(Read(i)), fault(Run(i)), fault(Record(i)));
      if r.Err? {
        return tx, Some(r.error);
      }
      tx := r.value;
    }
    err := None;
  }

  /** One turn of the loop: read the ledger, and run and record the migration when it is missing. */
  method ApplyOne(tx: Db, p: Planned, readFault: bool, runFault: bool, recordFault: bool)
    returns (r: Result<Db, MigrateError>)
    ensures r.Ok? <==> One(tx, p).Ok? && !readFault && (p.version !in tx.ledger ==> !runFault && !recordFault)
    ensures r.Ok? ==> r.value == One(tx, p).value
    ensures r == Err(Unavailable) ==> readFault || runFault || recordFault
    ensures r.Err? && r.error != Unavailable ==> One(tx, p) == Err(r.error)
  {
    if readFault {
      return Err(Unavailable);
    }
    if p.version in tx.ledger {
      if tx.ledger[p.version] != p.row {
        return Err(Mismatch(p.version));
      }
      return Ok(tx);
    }
    if p.body.Err? {
      return Err(BadBody(p.version));
    }
    if runFault || recordFault {
      return Err(Unavailable);
    }
    if !InsertAllowed(tx, p) {
      return Err(Violation);
    }
    return Ok(Apply(tx, p));
  }

  /** What was applied is this migration: its name, the checksum of its trimmed text, and its body. */
  predicate AppliedFrom(hash: string -> string, m: Migration, a: Applied) {
    && a.version == m.version && a.row.name == m.name && a.row.checksum == hash(TrimSpace(m.sql))
    && MigrationBody(m.sql) == Ok(a.body)
  }

  /** Exactly the missing migrations of the list were applied, each as it stands there. */
  ghost predicate AppliesList(hash: string -> string, list: seq<Migration>, before: Db, after: Db) {
    && before.applied <= after.applied
    && |after.applied| == (if |list| <= |before.applied| then |before.applied| else |list|)
    && forall i :: |before.applied| <= i < |list| ==> AppliedFrom(hash, list[i], after.applied[i])
  }

  lemma {:induction false} ExtensionAppliesList(hash: string -> string, list: seq<Migration>, db: Db, after: Db)
    requires ValidList(list) && Extends(PlanAll(hash, list), |list|, db, after)
    ensures AppliesList(hash, list, db, after)
  {
    forall i | |db.applied| <= i < |list| ensures AppliedFrom(hash, list[i], after.applied[i]) {
      assert PlanAll(hash, list)[i] == Plan(hash, list[i]);
    }
  }

  class MigrationStore {
    /** The committed tables. */
    var db: Db

    constructor ()
      ensures db == EMPTY
    {
      db := EMPTY;
    }

    /**
     Succeeds exactly when nothing has drifted, every missing body is proper and no call fails, and
     then has applied exactly the missing migrations in version order. Any drift or failure leaves
     the committed tables alone, and the error names the first migration that stands in the way.
     */
    method Migrate(hash: string -> string, list: seq<Migration>, fault: Call -> bool)
      returns (err: Option<MigrateError>)
      requires DbOk(db) && ValidList(list)
      modifies this
      ensures err.None? <==>
        && CanMigrate(PlanAll(hash, list), old(db))
        && Uninterrupted(fault, |old(db).applied|, |list|) && !fault(Commit)
      ensures err.None? ==> Extends(PlanAll(hash, list), |list|, old(db), db)
      ensures err.None? ==> AppliesList(hash, list, old(db), db)
      ensures err.Some? ==> db == old(db)
      ensures err.Some? && err.value != Unavailable ==>
        exists i :: BlockedAt(PlanAll(hash, list), i, old(db), err.value)
      ensures err == Some(Unavailable) ==> exists call :: fault(call)
      ensures DbOk(db)
    {
      if fault(Begin) || fault(Lock) || fault(EnsureSchema) || fault(EnsureLedger) {
        return Some(Unavailable);
      }
      var tx;
      tx, err := ApplyMissing(db, hash, list, fault);
      if err.Some? {
        return;
      }
      ExtensionAppliesList(hash, list, db, tx);
      if fault(Commit) {
        return Some(Unavailable);
      }
      db := tx;
    }
  }

  /** A repeated run applies nothing and changes nothing. */
  lemma {:induction false} SecondRunChangesNothing(plan: seq<Planned>, db: Db, after: Db, again: Db)
    requires CanMigrate(plan, db) && Extends(plan, |plan|, db, after)
    ensures CanMigrate(plan, after)
    ensures Extends(plan, |plan|, after, again) ==> again == after
  {
    forall j | 0 <= j < |plan| && j < |after.applied| ensures after.applied[j].row == plan[j].row {
      if j < |db.applied| { assert after.applied[j] == db.applied[j]; }
    }
    if Extends(plan, |plan|, after, again) {
      assert Extends(plan, |plan|, after, after);
      ExtensionIsUnique(plan, |plan|, after, again, after);
    }
  }

  // ---------- Edited sources ----------

  predicate SameSource(a: Migration, b: Migration) {
    a.name == b.name && TrimSpace(a.sql) == TrimSpace(b.sql)
  }

  /** The trimmed texts of the two migrations are not a collision of the hash. */
  predicate HashedApart(hash: string -> string, a: Migration, b: Migration) {
    hash(TrimSpace(a.sql)) == hash(TrimSpace(b.sql)) ==> TrimSpace(a.sql) == TrimSpace(b.sql)
  }

  /**
   On a ledger that one list agrees with, another list agrees exactly when every migration applied
   has the same name and the same trimmed text in both.
   */
  lemma {:induction false} AgreesExactly(hash: string -> string, list: seq<Migration>, edited: seq<Migration>, db: Db)
    requires |db.applied| <= |list| && |db.applied| <= |edited|
    requires Agrees(PlanAll(hash, list), |list|, db)
    requires forall i :: 0 <= i < |db.applied| ==> HashedApart(hash, list[i], edited[i])
    ensures Agrees(PlanAll(hash, edited), |edited|, db) <==>
      forall i :: 0 <= i < |db.applied| ==> SameSource(list[i], edited[i])
  {
    var plan, other := PlanAll(hash, list), PlanAll(hash, edited);
    forall i | 0 <= i < |db.applied| ensures other[i].row == db.applied[i].row <==> SameSource(list[i], edited[i]) {
      assert HashedApart(hash, list[i], edited[i]);
      assert plan[i] == Plan(hash, list[i]) && other[i] == Plan(hash, edited[i]);
    }
  }

  /** The first applied migration whose name or text was edited stops every later call with a mismatch. */
  lemma {:induction false} EditStops(
      hash: string -> string, list: seq<Migration>, edited: seq<Migration>, db: Db, i: nat)
    requires i < |db.applied| && i < |list| && i < |edited|
    requires Agrees(PlanAll(hash, list), |list|, db)
    requires (forall j :: 0 <= j < i ==> SameSource(list[j], edited[j])) && !SameSource(list[i], edited[i])
    requires HashedApart(hash, list[i], edited[i])
    ensures BlockedAt(PlanAll(hash, edited), i, db, Mismatch(i + 1))
    ensures !CanMigrate(PlanAll(hash, edited), db)
  {
    var plan, other := PlanAll(hash, list), PlanAll(hash, edited);
    assert forall j :: 0 <= j <= i ==> plan[j] == Plan(hash, list[j]) && other[j] == Plan(hash, edited[j]);
    assert forall j :: 0 <= j <= i ==> db.applied[j].row == plan[j].row;
  }
}
