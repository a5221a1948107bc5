/** The schema migrator `migrate` of `src/data/migrations.rs`.

    The database is reduced to what the migrator reads and writes: whether the
    `migrations` table exists, the `idx` values recorded in it, and the list
    of migration steps whose SQL has been executed (in execution order).  The
    outcome of each step's transaction is an oracle: `outcome(p)` is `None`
    when the transaction for the step at position `p` commits and
    `Some(message)` when one of its statements fails (the transaction is then
    rolled back, so nothing of that step persists). */
module Migrations {
  import opened Wrappers

  /** The number of entries of `MIGRATIONS`: selections, history, indexes. */
  const MigrationCount: nat := 3

  datatype Store = Store(hasTable: bool, recorded: seq<int>, applied: seq<int>)

  /** What one call of `migrate` leaves behind, and what it returns. */
  datatype Run = Run(store: Store, result: Result<()>)

  /** `SELECT idx FROM migrations ORDER BY idx DESC LIMIT 1`, or -1 when no row is read. */
  function LastIndex(recorded: seq<int>): (last: int)
    ensures |recorded| == 0 ==> last == -1
    ensures |recorded| > 0 ==> last in recorded && forall i :: 0 <= i < |recorded| ==> recorded[i] <= last
  {
    if |recorded| == 0 then -1
    else
      var rest := LastIndex(recorded[1..]);
      if |recorded| == 1 || recorded[0] >= rest then recorded[0] else rest
  }

  /** The number of steps skipped: `(last + 1) as usize`.  A negative value
      wraps to a huge unsigned one, which skips every step. */
  function Skipped(last: int, n: nat): (k: nat)
    ensures last + 1 >= 0 ==> k == last + 1
    ensures last + 1 < 0 ==> k >= n
  {
    if last + 1 < 0 then n else last + 1
  }

  /** The steps from position `pos` on, in list order, each in its own
      transaction that records `idx`, until one fails or the list ends. */
  function RunSteps(st: Store, pos: nat, n: nat, idx: int, outcome: nat -> Option<string>): (r: Run)
    ensures r.store.hasTable == st.hasTable
    ensures |r.store.applied| - |st.applied| == |r.store.recorded| - |st.recorded| >= 0
    ensures r.store.applied[..|st.applied|] == st.applied && r.store.recorded[..|st.recorded|] == st.recorded
    // the executed steps are the consecutive positions from `pos`, recorded with consecutive indices from `idx`
    ensures forall i :: |st.applied| <= i < |r.store.applied| ==>
              r.store.applied[i] == pos + (i - |st.applied|) < n && outcome(r.store.applied[i]).None?
    ensures forall i :: |st.recorded| <= i < |r.store.recorded| ==> r.store.recorded[i] == idx + (i - |st.recorded|)
    // success iff no step from `pos` on fails; a failure is the first failing step's error
    ensures r.result.Ok? <==> forall p :: pos <= p < n ==> outcome(p).None?
    ensures r.result.Ok? ==> |r.store.applied| - |st.applied| == if pos <= n then n - pos else 0
    ensures r.result.Err? ==>
              var f := pos + |r.store.applied| - |st.applied|;
              f < n && outcome(f).Some? && r.result.error == Failure(outcome(f).value)
    decreases n - pos
  {
    if pos >= n then Run(st, Ok(()))
    else
      match outcome(pos)
      case Some(message) => Run(st, Err(Failure(message)))
      case None =>
        RunSteps(Store(st.hasTable, st.recorded + [idx], st.applied + [pos]), pos + 1, n, idx + 1, outcome)
  }

  /** `migrate` over a list of `n` steps, as written: the first step of a run
      is recorded with `max(last, 0)`. */
  function Migrate(st: Store, n: nat, outcome: nat -> Option<string>): (r: Run)
    ensures r.store.hasTable
    // an existing table keeps its rows; a missing one is created empty
    ensures st.hasTable ==> |st.recorded| <= |r.store.recorded| && r.store.recorded[..|st.recorded|] == st.recorded
    ensures |st.applied| <= |r.store.applied| && r.store.applied[..|st.applied|] == st.applied
    // exactly the steps after the last recorded index are attempted, in list order
    ensures st.hasTable && LastIndex(st.recorded) + 1 >= 0 ==>
      var start := LastIndex(st.recorded) + 1;
      && (forall i :: |st.applied| <= i < |r.store.applied| ==> r.store.applied[i] == start + (i - |st.applied|))
      && (r.result.Ok? <==> forall p :: start <= p < n ==> outcome(p).None?)
    // once the last recorded index is n-1, nothing happens
    ensures st.hasTable && n > 0 && LastIndex(st.recorded) == n - 1 ==> r == Run(st, Ok(()))
    // resuming after index k >= 0 records the first new step with k again, although k is already recorded
    ensures st.hasTable && 0 <= LastIndex(st.recorded) && LastIndex(st.recorded) + 1 < n
            && outcome(LastIndex(st.recorded) + 1).None? ==>
      |r.store.recorded| > |st.recorded| && r.store.recorded[|st.recorded|] == LastIndex(st.recorded)
      && LastIndex(st.recorded) in st.recorded
  {
    var base := if st.hasTable then st else Store(true, [], st.applied);
    var last := LastIndex(base.recorded);
    var idx := if last < 0 then 0 else last;
    RunSteps(base, Skipped(last, n), n, idx, outcome)
  }

  /** The numbers 0 .. n-1 in order. */
  function Upto(n: nat): (s: seq<int>)
    ensures |s| == n && forall i :: 0 <= i < n ==> s[i] == i
  {
    seq(n, i => i)
  }

  /** A fresh store whose steps all commit ends with indices 0 .. n-1 recorded
      and every step executed once, in order. */
  lemma FreshRun(st: Store, n: nat, outcome: nat -> Option<string>)
    requires !st.hasTable || st.recorded == []
    requires forall p :: 0 <= p < n ==> outcome(p).None?
    ensures var r := Migrate(st, n, outcome);
      r.result.Ok? && r.store.recorded == Upto(n) && r.store.applied == st.applied + Upto(n)
  {
    var r := Migrate(st, n, outcome);
    assert r.store.recorded == Upto(n);
    assert r.store.applied == st.applied + Upto(n);
  }

  /** A failing step stops the run: the steps before it stay committed and
      recorded, the failing one is neither executed nor recorded, and its
      error is returned. */
  lemma FailureStops(st: Store, n: nat, outcome: nat -> Option<string>, f: nat)
    requires st.hasTable && LastIndex(st.recorded) + 1 >= 0
    requires LastIndex(st.recorded) + 1 <= f < n && outcome(f).Some?
    requires forall p :: LastIndex(st.recorded) + 1 <= p < f ==> outcome(p).None?
    ensures var r := Migrate(st, n, outcome);
      var start := LastIndex(st.recorded) + 1;
      && r.result == Err(Failure(outcome(f).value))
      && |r.store.applied| == |st.applied| + (f - start)
      && |r.store.recorded| == |st.recorded| + (f - start)
      && f !in r.store.applied[|st.applied|..]
  {
    var r := Migrate(st, n, outcome);
    var start := LastIndex(st.recorded) + 1;
    assert r.result.Err?;
    var stop := start + |r.store.applied| - |st.applied|;
    forall p | start <= p < stop ensures outcome(p).None? {
      assert r.store.applied[|st.applied| + (p - start)] == p;
    }
    assert stop == f;
  }

  /** A store the migrator itself produced: step p executed once, in order,
      and recorded with index p. */
  predicate Consistent(st: Store)
  {
    st.hasTable && st.recorded == st.applied == Upto(|st.applied|)
  }

  /** Appending a step to a database that completed every earlier one
      records the new step with the index of the last old one, so the store
      is no longer consistent even though nothing failed. */
  lemma AppendedStepReusesIndex(n: nat, outcome: nat -> Option<string>)
    requires n >= 1 && outcome(n).None?
    ensures var st := Store(true, Upto(n), Upto(n));
      Consistent(st)
      && Migrate(st, n + 1, outcome) == Run(Store(true, Upto(n) + [n - 1], Upto(n) + [n]), Ok(()))
      && !Consistent(Migrate(st, n + 1, outcome).store)
  {
    var st := Store(true, Upto(n), Upto(n));
    assert LastIndex(st.recorded) == n - 1 by {
      assert st.recorded[n - 1] == n - 1;
    }
    var done := Store(true, Upto(n) + [n - 1], Upto(n) + [n]);
    assert Skipped(n - 1, n + 1) == n;
    assert RunSteps(done, n + 1, n + 1, n, outcome) == Run(done, Ok(()));
    assert RunSteps(st, n, n + 1, n - 1, outcome) == Run(done, Ok(()));
    assert done.recorded[n] != Upto(n + 1)[n];
  }

  /** The three steps of `MIGRATIONS`, where the second step's transaction fails once. */
  function SecondStepFails(p: nat): Option<string>
  {
    if p == 1 then Some("database is locked") else None
  }

  /** SQLite's error for the first object step `p` creates, when it exists already. */
  function AlreadyExists(p: nat): string
  {
    if p == 0 then "table selections already exists"
    else if p == 1 then "table selections_history already exists"
    else "index sel_browser_hash already exists"
  }

  /** The steps' transactions on a working database: every step creates its
      tables or indexes without `IF NOT EXISTS`, so a step whose SQL was
      executed before fails on its first statement, and any other commits. */
  function Reexecution(applied: seq<int>): nat -> Option<string>
  {
    (p: nat) => if p in applied then Some(AlreadyExists(p)) else None
  }

  /** The store left by a resumed run: steps 0, 1, 2 executed, indices 0, 0, 1 recorded. */
  const Resumed: Store := Store(true, [0, 0, 1], [0, 1, 2])

  /** As written, a run that stops at step 1 is resumed by recording step 1
      with index 0 and step 2 with index 1; the next run therefore starts
      again at step 2, whose `CREATE INDEX` fails, and leaves the store as
      it was. */
  lemma ResumeReappliesStep()
    ensures var r1 := Migrate(Store(false, [], []), MigrationCount, SecondStepFails);
      var r2 := Migrate(r1.store, MigrationCount, Reexecution(r1.store.applied));
      var r3 := Migrate(r2.store, MigrationCount, Reexecution(r2.store.applied));
      && r1.store == Store(true, [0], [0])
      && r2 == Run(Resumed, Ok(()))
      && !Consistent(r2.store)
      && r3 == Run(Resumed, Err(Failure(AlreadyExists(2))))
  {
    FirstRunStops();
    SecondRunResumes();
    ThirdRunFails();
    assert Upto(3)[1] == 1;
  }

  lemma FirstRunStops()
    ensures Migrate(Store(false, [], []), MigrationCount, SecondStepFails)
            == Run(Store(true, [0], [0]), Err(Failure("database is locked")))
  {
    var s1 := Store(true, [0], [0]);
    assert RunSteps(s1, 1, 3, 1, SecondStepFails) == Run(s1, Err(Failure("database is locked")));
  }

  lemma SecondRunResumes()
    ensures Migrate(Store(true, [0], [0]), MigrationCount, Reexecution([0])) == Run(Resumed, Ok(()))
  {
    var o := Reexecution([0]);
    assert LastIndex([0]) == 0;
    assert o(1).None? && o(2).None?;
    assert RunSteps(Resumed, 3, 3, 2, o) == Run(Resumed, Ok(()));
    assert RunSteps(Store(true, [0, 0], [0, 1]), 2, 3, 1, o) == Run(Resumed, Ok(()));
  }

  lemma ThirdRunFails()
    ensures Migrate(Resumed, MigrationCount, Reexecution(Resumed.applied))
            == Run(Resumed, Err(Failure(AlreadyExists(2))))
  {
    assert LastIndex([1]) == 1;
    assert LastIndex([0, 1]) == 1;
    assert LastIndex([0, 0, 1]) == 1;
    assert Resumed.applied[2] == 2;
  }

  /** `k` successive calls of `migrate` from `st`, each on the database the
      previous one left. */
  function Runs(st: Store, k: nat): Run
    requires k >= 1
    decreases k
  {
    var r := Migrate(st, MigrationCount, Reexecution(st.applied));
    if k == 1 then r else Runs(r.store, k - 1)
  }

  /** Once resumed, every later start fails the same way: `migrate` returns
      the error (which `worker_main` propagates) and the store never changes. */
  lemma {:induction false} EveryLaterRunFails(k: nat)
    requires k >= 1
    ensures Runs(Resumed, k) == Run(Resumed, Err(Failure(AlreadyExists(2))))
    decreases k
  {
    ThirdRunFails();
    if k > 1 {
      EveryLaterRunFails(k - 1);
    }
  }

  /** `migrate` with the index it records taken from the step's position in
      the list (`already_migrated`), which is what the `idx` column means. */
  function MigrateCorrected(st: Store, n: nat, outcome: nat -> Option<string>): (r: Run)
    ensures r.store.hasTable
    ensures st.hasTable ==> |st.recorded| <= |r.store.recorded| && r.store.recorded[..|st.recorded|] == st.recorded
    ensures |st.applied| <= |r.store.applied| && r.store.applied[..|st.applied|] == st.applied
  {
    var base := if st.hasTable then st else Store(true, [], st.applied);
    var last := LastIndex(base.recorded);
    RunSteps(base, Skipped(last, n), n, Skipped(last, n), outcome)
  }

  /** With the correction, every run keeps the store consistent, whatever
      fails: no step is ever executed twice, and a resumed run continues
      exactly where the last one stopped. */
  lemma {:induction false} CorrectedKeepsConsistent(st: Store, n: nat, outcome: nat -> Option<string>)
    requires Consistent(st) && |st.applied| <= n
    ensures Consistent(MigrateCorrected(st, n, outcome).store)
    ensures |MigrateCorrected(st, n, outcome).store.applied| <= n
  {
    var m := |st.applied|;
    var last := LastIndex(st.recorded);
    assert last == m - 1 by {
      if m > 0 {
        assert st.recorded[m - 1] == m - 1;
        var j :| 0 <= j < m && st.recorded[j] == last;
      }
    }
    var r := MigrateCorrected(st, n, outcome);
    assert Skipped(last, n) == m;
    assert r.store.applied == r.store.recorded;
    assert r.store.recorded == Upto(|r.store.applied|);
  }

  /** With the correction, a consistent store whose steps all commit ends
      with every step executed exactly once. */
  lemma CorrectedCompletes(st: Store, n: nat, outcome: nat -> Option<string>)
    requires Consistent(st) && |st.applied| <= n
    requires forall p :: 0 <= p < n ==> outcome(p).None?
    ensures var r := MigrateCorrected(st, n, outcome);
      r.result.Ok? && r.store == Store(true, Upto(n), Upto(n))
  {
    CorrectedKeepsConsistent(st, n, outcome);
    var m := |st.applied|;
    var last := LastIndex(st.recorded);
    assert last == m - 1 by {
      if m > 0 {
        assert st.recorded[m - 1] == m - 1;
      }
    }
    var r := MigrateCorrected(st, n, outcome);
    assert r.result.Ok?;
    assert |r.store.applied| == n;
  }
}
