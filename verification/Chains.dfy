/** Schema chains: ordered migration steps, replayed and fast-forwarded against a database inside
    the caller's transaction, each step under its own savepoint. What a statement does to the
    database is left open. */
module Chains {
  import opened Bytes
  import opened Decimals
  import opened Selection

  // ----- chains

  /** A step is a batch of statements. */
  datatype Step<Stmt> = Step(ordinal: u32, slug: string, batch: seq<Stmt>)

  datatype Chain<Stmt> = Chain(name: string, steps: seq<Step<Stmt>>) {
    function Head(): nat { if steps == [] then 0 else steps[|steps| - 1].ordinal }
    predicate Contains(ordinal: nat) { exists i :: 0 <= i < |steps| && steps[i].ordinal == ordinal }
    ghost predicate WellShaped() { steps != [] && Ascending(steps) }
  }

  ghost predicate Ascending<Stmt>(steps: seq<Step<Stmt>>) {
    forall i, j :: 0 <= i < j < |steps| ==> steps[i].ordinal < steps[j].ordinal
  }

  datatype Defect = NoSteps | NotAscending

  datatype ChainError =
    | Shape(chain: string, defect: Defect)
    | UnknownOrdinal(chain: string, ordinal: nat)
    | StepFailed(chain: string, ordinal: nat, slug: string)

  datatype Status = Fine | Stopped(error: ChainError)

  /** The scan of neighbours decides strict ascent over all pairs. */
  method Validate<Stmt>(chain: Chain<Stmt>) returns (r: Status)
    ensures r.Fine? <==> chain.WellShaped()
    ensures r.Stopped? ==> r.error == Shape(chain.name, if chain.steps == [] then NoSteps else NotAscending)
  {
    if chain.steps == [] {
      return Stopped(Shape(chain.name, NoSteps));
    }
    var i := 1;
    while i < |chain.steps|
      invariant 1 <= i <= |chain.steps|
      invariant Ascending(chain.steps[..i])
    {
      if chain.steps[i].ordinal <= chain.steps[i - 1].ordinal {
        return Stopped(Shape(chain.name, NotAscending));
      }
      assert chain.steps[..i][i - 1] == chain.steps[i - 1];
      i := i + 1;
    }
    assert chain.steps[..i] == chain.steps;
    r := Fine;
  }

  // ----- what running steps means

  /** What one statement does: the new database and whether it succeeded; a statement that fails may
      still have changed the database. */
  type Exec<!Db, !Stmt> = (Db, Stmt) -> (Db, bool)

  function Batch<Db, Stmt>(exec: Exec<Db, Stmt>, db: Db, stmts: seq<Stmt>): (Db, bool)
    decreases |stmts|
  {
    if stmts == [] then (db, true) else
    var (d, ok) := exec(db, stmts[0]);
    if ok then Batch(exec, d, stmts[1..]) else (d, false)
  }

  /** The databases between statements that each succeeded, as far as `trace` goes. */
  ghost predicate Succeeding<Db, Stmt>(exec: Exec<Db, Stmt>, db: Db, stmts: seq<Stmt>, trace: seq<Db>) {
    && 1 <= |trace| <= |stmts| + 1 && trace[0] == db
    && forall i :: 0 <= i < |trace| - 1 ==> exec(trace[i], stmts[i]) == (trace[i + 1], true)
  }

  /** The whole batch succeeded and left `d`, or `d` is what its first failing statement left. */
  ghost predicate EndsIn<Db, Stmt>(exec: Exec<Db, Stmt>, db: Db, stmts: seq<Stmt>, trace: seq<Db>, d: Db, ok: bool) {
    && Succeeding(exec, db, stmts, trace)
    && var n := |trace| - 1;
       if ok then n == |stmts| && d == trace[n] else n < |stmts| && exec(trace[n], stmts[n]) == (d, false)
  }

  /** A batch runs its statements in order and ends at the first that fails, in whose state it leaves
      the database. */
  lemma {:induction false} BatchExact<Db(!new), Stmt>(exec: Exec<Db, Stmt>, db: Db, stmts: seq<Stmt>, d: Db, ok: bool)
    ensures Batch(exec, db, stmts) == (d, ok) <==> exists trace :: EndsIn(exec, db, stmts, trace, d, ok)
  {
    hide EndsIn;
    if Batch(exec, db, stmts) == (d, ok) {
      var trace := BatchTrace(exec, db, stmts);
      assert EndsIn(exec, db, stmts, trace, d, ok);
    }
    if trace :| EndsIn(exec, db, stmts, trace, d, ok) {
      TraceBatch(exec, db, stmts, trace, d, ok);
    }
  }

  lemma {:induction false} BatchTrace<Db, Stmt>(exec: Exec<Db, Stmt>, db: Db, stmts: seq<Stmt>) returns (trace: seq<Db>)
    ensures var (d, ok) := Batch(exec, db, stmts); EndsIn(exec, db, stmts, trace, d, ok)
    decreases |stmts|
  {
    if stmts == [] {
      trace := [db];
    } else {
      var (e, went) := exec(db, stmts[0]);
      if went {
        var rest := BatchTrace(exec, e, stmts[1..]);
        trace := [db] + rest;
        forall i | 0 <= i < |trace| - 1 ensures exec(trace[i], stmts[i]) == (trace[i + 1], true) {
          if i > 0 {
            assert exec(rest[i - 1], stmts[1..][i - 1]) == (rest[i], true);
          }
        }
      } else {
        trace := [db];
      }
    }
  }

  lemma {:induction false} TraceBatch<Db, Stmt>(exec: Exec<Db, Stmt>, db: Db, stmts: seq<Stmt>, trace: seq<Db>, d: Db,
      ok: bool)
    requires EndsIn(exec, db, stmts, trace, d, ok)
    ensures Batch(exec, db, stmts) == (d, ok)
    decreases |stmts|
  {
    if |trace| > 1 {
      assert exec(trace[0], stmts[0]) == (trace[0 + 1], true);
      var rest := trace[1..];
      forall i | 0 <= i < |rest| - 1 ensures exec(rest[i], stmts[1..][i]) == (rest[i + 1], true) {
        assert exec(trace[i + 1], stmts[i + 1]) == (trace[i + 1 + 1], true);
      }
      TraceBatch(exec, trace[1], stmts[1..], rest, d, ok);
    }
  }

  /** A step together with the chain it is run for. */
  datatype Job<Stmt> = Job(chain: string, step: Step<Stmt>)

  /** Where a run stopped: the database, how many steps were applied, and why it stopped early. */
  datatype Outcome<Db> = Outcome(db: Db, applied: nat, r: Status)

  function RunJobs<Db, Stmt>(exec: Exec<Db, Stmt>, db: Db, jobs: seq<Job<Stmt>>): (o: Outcome<Db>)
    ensures o.applied <= |jobs|
    decreases |jobs|
  {
    if jobs == [] then Outcome(db, 0, Fine) else
    var (d, ok) := Batch(exec, db, jobs[0].step.batch);
    if !ok then Outcome(db, 0, Stopped(StepFailed(jobs[0].chain, jobs[0].step.ordinal, jobs[0].step.slug))) else
    var o := RunJobs(exec, d, jobs[1..]);
    o.(applied := o.applied + 1)
  }

  /** The steps of a chain above `lo`, up to `hi`. */
  function Jobs<Stmt>(name: string, steps: seq<Step<Stmt>>, lo: int, hi: int): seq<Job<Stmt>> {
    if steps == [] then [] else
    var init, s := steps[..|steps| - 1], steps[|steps| - 1];
    Jobs(name, init, lo, hi) + (if lo < s.ordinal <= hi then [Job(name, s)] else [])
  }

  function Refused<Db>(db: Db, error: ChainError): Outcome<Db> { Outcome(db, 0, Stopped(error)) }

  ghost function ShapeError<Stmt>(chain: Chain<Stmt>): ChainError {
    Shape(chain.name, if chain.steps == [] then NoSteps else NotAscending)
  }

  ghost function Replayed<Db, Stmt>(exec: Exec<Db, Stmt>, db: Db, chain: Chain<Stmt>, to: nat): Outcome<Db> {
    if !chain.WellShaped() then Refused(db, ShapeError(chain))
    else if !chain.Contains(to) then Refused(db, UnknownOrdinal(chain.name, to))
    else RunJobs(exec, db, Jobs(chain.name, chain.steps, -1, to))
  }

  ghost function Advanced<Db, Stmt>(exec: Exec<Db, Stmt>, db: Db, chain: Chain<Stmt>, from: nat, to: nat): Outcome<Db> {
    if !chain.WellShaped() then Refused(db, ShapeError(chain))
    else if !chain.Contains(from) then Refused(db, UnknownOrdinal(chain.name, from))
    else if !chain.Contains(to) then Refused(db, UnknownOrdinal(chain.name, to))
    else RunJobs(exec, db, Jobs(chain.name, chain.steps, from, to))
  }

  /** What follows a run, when the run did not stop early. */
  function Then<Db>(o: Outcome<Db>, next: Outcome<Db>): Outcome<Db> {
    if o.r.Stopped? then o else next.(applied := o.applied + next.applied)
  }

  ghost function ReplayedAll<Db, Stmt>(exec: Exec<Db, Stmt>, db: Db, chains: seq<Chain<Stmt>>): Outcome<Db> {
    if chains == [] then Outcome(db, 0, Fine) else
    var init, last := chains[..|chains| - 1], chains[|chains| - 1];
    var o := ReplayedAll(exec, db, init);
    Then(o, Replayed(exec, o.db, last, last.Head()))
  }

  // ----- the connection

  datatype Savepoint<Db> = Savepoint(name: seq<byte>, saved: Db)

  function StepName(ordinal: nat): seq<byte> { Ascii("chain_step_") + Decimal(ordinal) }

  /** An open transaction with SQLite's stack of savepoints: names may repeat, and the most recent
      one of a name is meant. */
  class Connection<Db(!new), Stmt(!new)> {
    const exec: Exec<Db, Stmt>
    var db: Db
    var stack: seq<Savepoint<Db>>

    constructor (exec: Exec<Db, Stmt>, db: Db)
      ensures this.exec == exec && this.db == db && stack == []
    {
      this.exec, this.db, stack := exec, db, [];
    }

    /** Runs statements until one fails; what ran stays. */
    method ExecuteBatch(stmts: seq<Stmt>) returns (ok: bool)
      modifies this`db
      ensures (db, ok) == Batch(exec, old(db), stmts)
    {
      var i := 0;
      while i < |stmts|
        invariant 0 <= i <= |stmts|
        invariant Batch(exec, db, stmts[i..]) == Batch(exec, old(db), stmts)
      {
        var (d, succeeded) := exec(db, stmts[i]);
        db := d;
        if !succeeded {
          return false;
        }
        assert stmts[i..][1..] == stmts[i + 1..];
        i := i + 1;
      }
      ok := true;
    }

    method SetSavepoint(name: seq<byte>)
      modifies this`stack
      ensures stack == old(stack) + [Savepoint(name, db)]
    {
      stack := stack + [Savepoint(name, db)];
    }

    /** The most recent savepoint of a name. */
    method Find(name: seq<byte>) returns (i: int)
      ensures -1 <= i < |stack|
      ensures i >= 0 ==> stack[i].name == name
      ensures forall j :: i < j < |stack| ==> stack[j].name != name
    {
      i := |stack| - 1;
      while i >= 0 && stack[i].name != name
        invariant -1 <= i < |stack|
        invariant forall j :: i < j < |stack| ==> stack[j].name != name
      {
        i := i - 1;
      }
    }

    /** ROLLBACK TO: the database as saved; later savepoints are gone, the named one stays. */
    method RollbackTo(name: seq<byte>) returns (ok: bool)
      modifies this
      ensures ok <==> exists i :: 0 <= i < |old(stack)| && old(stack)[i].name == name
      ensures ok ==>
              stack != [] && stack <= old(stack) && stack[|stack| - 1].name == name && db == stack[|stack| - 1].saved
      ensures ok ==> forall j :: |stack| <= j < |old(stack)| ==> old(stack)[j].name != name
      ensures !ok ==> stack == old(stack) && db == old(db)
    {
      var i := Find(name);
      ok := i >= 0;
      if ok {
        db, stack := stack[i].saved, stack[..i + 1];
      }
    }

    /** RELEASE: the named savepoint and all later ones are gone, the database stays. */
    method Release(name: seq<byte>) returns (ok: bool)
      modifies this`stack
      ensures ok <==> exists i :: 0 <= i < |old(stack)| && old(stack)[i].name == name
      ensures ok ==> stack < old(stack) && old(stack)[|stack|].name == name
      ensures ok ==> forall j :: |stack| < j < |old(stack)| ==> old(stack)[j].name != name
      ensures !ok ==> stack == old(stack)
    {
      var i := Find(name);
      ok := i >= 0;
      if ok {
        stack := stack[..i];
      }
    }

    /** One step: all of it or nothing, and the caller's savepoints as they were, even when one of
        them has the step's own name. */
    method ApplyStep(chain: string, step: Step<Stmt>) returns (r: Status)
      modifies this
      ensures var (d, ok) := Batch(exec, old(db), step.batch);
              if ok then r == Fine && db == d
              else r == Stopped(StepFailed(chain, step.ordinal, step.slug)) && db == old(db)
      ensures stack == old(stack)
    {
      var sp := StepName(step.ordinal);
      SetSavepoint(sp);
      assert stack[|stack| - 1].name == sp;
      var ok := ExecuteBatch(step.batch);
      if ok {
        var released := Release(sp);
        assert released && stack == old(stack);
        r := Fine;
      } else {
        var undone := RollbackTo(sp);
        assert undone && |stack| == |old(stack)| + 1;
        var released := Release(sp);
        assert released && stack == old(stack);
        r := Stopped(StepFailed(chain, step.ordinal, step.slug));
      }
    }

    /** The loop behind replay and fast-forward. */
    method ApplyBetween(chain: Chain<Stmt>, lo: int, hi: int) returns (r: Status, applied: nat)
      modifies this
      ensures var o := RunJobs(exec, old(db), Jobs(chain.name, chain.steps, lo, hi));
              db == o.db && r == o.r && applied == o.applied
      ensures stack == old(stack)
    {
      hide RunJobs, Jobs, Batch;
      applied := 0;
      var i := 0;
      NoJobs(exec, db, chain.name, lo, hi);
      assert chain.steps[..0] == [];
      while i < |chain.steps|
        invariant 0 <= i <= |chain.steps|
        invariant RunJobs(exec, old(db), Jobs(chain.name, chain.steps[..i], lo, hi)) == Outcome(db, applied, Fine)
        invariant stack == old(stack)
      {
        var step := chain.steps[i];
        JobsStep(chain.name, chain.steps, i, lo, hi);
        if lo < step.ordinal <= hi {
          RunAppend(exec, old(db), Jobs(chain.name, chain.steps[..i], lo, hi), [Job(chain.name, step)]);
          RunOne(exec, db, Job(chain.name, step));
          r := ApplyStep(chain.name, step);
          if r.Stopped? {
            RunPrefix(exec, old(db), chain.name, chain.steps, i + 1, lo, hi);
            return;
          }
          applied := applied + 1;
        }
        i := i + 1;
      }
      assert chain.steps[..i] == chain.steps;
      r := Fine;
    }

    method Replay(chain: Chain<Stmt>, to: nat) returns (r: Status)
      modifies this
      ensures var o := Replayed(exec, old(db), chain, to); db == o.db && r == o.r
      ensures stack == old(stack)
    {
      r := Validate(chain);
      if r.Stopped? {
        return;
      }
      if !chain.Contains(to) {
        return Stopped(UnknownOrdinal(chain.name, to));
      }
      var applied;
      r, applied := ApplyBetween(chain, -1, to);
    }

    method Advance(chain: Chain<Stmt>, from: nat, to: nat) returns (r: Status, applied: nat)
      modifies this
      ensures var o := Advanced(exec, old(db), chain, from, to);
              db == o.db && r == o.r && applied == o.applied
      ensures stack == old(stack)
    {
      applied := 0;
      r := Validate(chain);
      if r.Stopped? {
        return;
      }
      if !chain.Contains(from) {
        return Stopped(UnknownOrdinal(chain.name, from)), 0;
      }
      if !chain.Contains(to) {
        return Stopped(UnknownOrdinal(chain.name, to)), 0;
      }
      r, applied := ApplyBetween(chain, from, to);
    }

    method ReplayAll(chains: seq<Chain<Stmt>>) returns (r: Status)
      modifies this
      ensures var o := ReplayedAll(exec, old(db), chains); db == o.db && r == o.r
      ensures stack == old(stack)
    {
      var i := 0;
      while i < |chains|
        invariant 0 <= i <= |chains|
        invariant var o := ReplayedAll(exec, old(db), chains[..i]); o.db == db && o.r == Fine
        invariant stack == old(stack)
      {
        assert chains[..i + 1][..i] == chains[..i];
        r := Replay(chains[i], chains[i].Head());
        if r.Stopped? {
          ReplayedAllStops(exec, old(db), chains, i + 1);
          return;
        }
        i := i + 1;
      }
      assert chains[..i] == chains;
      r := Fine;
    }
  }

  // ----- the steps of a run

  lemma {:induction false} JobsStep<Stmt>(name: string, steps: seq<Step<Stmt>>, i: nat, lo: int, hi: int)
    requires i < |steps|
    ensures if lo < steps[i].ordinal <= hi
            then Jobs(name, steps[..i + 1], lo, hi) == Jobs(name, steps[..i], lo, hi) + [Job(name, steps[i])]
            else Jobs(name, steps[..i + 1], lo, hi) == Jobs(name, steps[..i], lo, hi)
  {
    assert steps[..i + 1][..i] == steps[..i];
    assert Jobs(name, steps[..i], lo, hi) + [] == Jobs(name, steps[..i], lo, hi);
  }

  lemma {:induction false} RunOne<Db, Stmt>(exec: Exec<Db, Stmt>, db: Db, job: Job<Stmt>)
    ensures var (d, ok) := Batch(exec, db, job.step.batch);
            RunJobs(exec, db, [job])
            == if ok then Outcome(d, 1, Fine)
              else Outcome(db, 0, Stopped(StepFailed(job.chain, job.step.ordinal, job.step.slug)))
  {
    var (d, ok) := Batch(exec, db, job.step.batch);
    assert [job][1..] == [];
    assert RunJobs(exec, d, []) == Outcome(d, 0, Fine);
  }

  /** Running more steps is running on from where the first ones stopped. */
  lemma {:induction false} RunAppend<Db, Stmt>(exec: Exec<Db, Stmt>, db: Db, xs: seq<Job<Stmt>>, ys: seq<Job<Stmt>>)
    ensures var o := RunJobs(exec, db, xs); RunJobs(exec, db, xs + ys) == Then(o, RunJobs(exec, o.db, ys))
    decreases |xs|
  {
    hide Batch;
    if xs == [] {
      assert xs + ys == ys;
    } else {
      assert (xs + ys)[1..] == xs[1..] + ys;
      RunAppend(exec, Batch(exec, db, xs[0].step.batch).0, xs[1..], ys);
    }
  }

  lemma {:induction false} JobsSplit<Stmt>(name: string, steps: seq<Step<Stmt>>, n: nat, lo: int, hi: int)
    requires n <= |steps|
    ensures Jobs(name, steps, lo, hi) == Jobs(name, steps[..n], lo, hi) + Jobs(name, steps[n..], lo, hi)
    decreases |steps|
  {
    if n == |steps| {
      assert steps[..n] == steps;
    } else {
      var init := steps[..|steps| - 1];
      JobsSplit(name, init, n, lo, hi);
      assert init[..n] == steps[..n] && init[n..] == steps[n..][..|steps[n..]| - 1];
    }
  }

  lemma {:induction false} RunPrefix<Db, Stmt>(exec: Exec<Db, Stmt>, db: Db, name: string, steps: seq<Step<Stmt>>,
      n: nat, lo: int, hi: int)
    requires n <= |steps| && RunJobs(exec, db, Jobs(name, steps[..n], lo, hi)).r.Stopped?
    ensures RunJobs(exec, db, Jobs(name, steps, lo, hi)) == RunJobs(exec, db, Jobs(name, steps[..n], lo, hi))
  {
    hide RunJobs, Jobs;
    JobsSplit(name, steps, n, lo, hi);
    RunAppend(exec, db, Jobs(name, steps[..n], lo, hi), Jobs(name, steps[n..], lo, hi));
  }

  lemma {:induction false} ReplayedAllStops<Db, Stmt>(exec: Exec<Db, Stmt>, db: Db, chains: seq<Chain<Stmt>>, n: nat)
    requires n <= |chains| && ReplayedAll(exec, db, chains[..n]).r.Stopped?
    ensures ReplayedAll(exec, db, chains) == ReplayedAll(exec, db, chains[..n])
    decreases |chains|
  {
    hide Replayed;
    if n < |chains| {
      assert chains[..|chains| - 1][..n] == chains[..n];
      ReplayedAllStops(exec, db, chains[..|chains| - 1], n);
    } else {
      assert chains[..n] == chains;
    }
  }

  // ----- atomicity: a run that stops early stands exactly before its first failing step

  /** The database after the first `k` steps, each of which succeeded. */
  ghost predicate Reaches<Db, Stmt>(exec: Exec<Db, Stmt>, db: Db, jobs: seq<Job<Stmt>>, d: Db)
    decreases |jobs|
  {
    if jobs == [] then d == db
    else Batch(exec, db, jobs[0].step.batch).1 && Reaches(exec, Batch(exec, db, jobs[0].step.batch).0, jobs[1..], d)
  }

  lemma {:induction false} StopsBeforeFirstFailure<Db, Stmt>(exec: Exec<Db, Stmt>, db: Db, jobs: seq<Job<Stmt>>)
    ensures var o := RunJobs(exec, db, jobs);
            && Reaches(exec, db, jobs[..o.applied], o.db)
            && (o.r.Fine? ==> o.applied == |jobs|)
            && (o.r.Stopped? ==>
                  && o.applied < |jobs|
                  && !Batch(exec, o.db, jobs[o.applied].step.batch).1
                  && var job := jobs[o.applied];
                     o.r.error == StepFailed(job.chain, job.step.ordinal, job.step.slug))
    decreases |jobs|
  {
    hide Batch;
    if jobs != [] {
      var (d, ok) := Batch(exec, db, jobs[0].step.batch);
      if ok {
        StopsBeforeFirstFailure(exec, d, jobs[1..]);
        var n := RunJobs(exec, db, jobs).applied;
        assert jobs[..n][1..] == jobs[1..][..n - 1];
      }
    }
  }

  // ----- composition

  /** Positions split a chain: the steps up to `c` are those up to `b`, then those from `b` to `c`. */
  lemma {:induction false} JobsBetween<Stmt>(name: string, steps: seq<Step<Stmt>>, a: int, b: int, c: int)
    requires Ascending(steps) && a <= b <= c
    ensures Jobs(name, steps, a, c) == Jobs(name, steps, a, b) + Jobs(name, steps, b, c)
  {
    if steps != [] {
      var n := |steps| - 1;
      var init := steps[..n];
      JobsBetween(name, init, a, b, c);
      if steps[n].ordinal <= b {
        NoJobsAbove(name, init, b, c);
      }
    }
  }

  lemma {:induction false} NoJobsAbove<Stmt>(name: string, steps: seq<Step<Stmt>>, lo: int, hi: int)
    requires forall i :: 0 <= i < |steps| ==> steps[i].ordinal <= lo
    ensures Jobs(name, steps, lo, hi) == []
  {
    if steps != [] {
      NoJobsAbove(name, steps[..|steps| - 1], lo, hi);
    }
  }

  /** Replay to `a`, fast-forward to `b` and on to `c`: the same database, the same error and the
      same number of steps as replay to `c`, whatever the steps do. */
  lemma {:induction false} ReplayThenAdvance<Db, Stmt>(exec: Exec<Db, Stmt>, db: Db, chain: Chain<Stmt>, a: nat, b: nat,
      c: nat)
    requires chain.WellShaped() && chain.Contains(a) && chain.Contains(b) && chain.Contains(c) && a <= b <= c
    ensures var o1 := Replayed(exec, db, chain, a);
            var o2 := Then(o1, Advanced(exec, o1.db, chain, a, b));
            var o3 := Then(o2, Advanced(exec, o2.db, chain, b, c));
            o3 == Replayed(exec, db, chain, c)
    ensures Advanced(exec, db, chain, a, c) ==
            (var o := Advanced(exec, db, chain, a, b); Then(o, Advanced(exec, o.db, chain, b, c)))
  {
    hide RunJobs, Jobs;
    JobsBetween(chain.name, chain.steps, -1, a, b);
    JobsBetween(chain.name, chain.steps, -1, b, c);
    JobsBetween(chain.name, chain.steps, a, b, c);
    RunAppend(exec, db, Jobs(chain.name, chain.steps, -1, a), Jobs(chain.name, chain.steps, a, b));
    RunAppend(exec, db, Jobs(chain.name, chain.steps, -1, b), Jobs(chain.name, chain.steps, b, c));
    RunAppend(exec, db, Jobs(chain.name, chain.steps, a, b), Jobs(chain.name, chain.steps, b, c));
  }

  /** Fast-forward never applies more steps than the positions it crosses, so a 32-bit count cannot
      overflow; backwards or in place it does nothing. */
  lemma {:induction false} AdvanceCount<Db, Stmt>(exec: Exec<Db, Stmt>, db: Db, chain: Chain<Stmt>, from: nat, to: nat)
    requires chain.WellShaped() && chain.Contains(from) && chain.Contains(to)
    ensures Advanced(exec, db, chain, from, to).applied <= if from <= to then to - from else 0
    ensures from >= to ==> Advanced(exec, db, chain, from, to) == Outcome(db, 0, Fine)
  {
    hide RunJobs;
    JobsBounded(chain.name, chain.steps, from, to);
    if from >= to {
      assert RunJobs(exec, db, []) == Outcome(db, 0, Fine) by { RunNone(exec, db); }
    }
  }

  lemma {:induction false} NoJobs<Db, Stmt>(exec: Exec<Db, Stmt>, db: Db, name: string, lo: int, hi: int)
    ensures RunJobs(exec, db, Jobs<Stmt>(name, [], lo, hi)) == Outcome(db, 0, Fine)
  {
  }

  lemma {:induction false} RunNone<Db, Stmt>(exec: Exec<Db, Stmt>, db: Db)
    ensures RunJobs(exec, db, []) == Outcome(db, 0, Fine)
  {
  }

  lemma {:induction false} JobsBounded<Stmt>(name: string, steps: seq<Step<Stmt>>, lo: int, hi: int)
    requires Ascending(steps)
    ensures |Jobs(name, steps, lo, hi)| <= if lo <= hi then hi - lo else 0
    ensures steps != [] ==>
              var last := steps[|steps| - 1].ordinal;
              |Jobs(name, steps, lo, hi)| <= if lo <= last then last - lo else 0
  {
    if steps != [] {
      JobsBounded(name, steps[..|steps| - 1], lo, hi);
    }
  }

  /** The runs of a chain: exactly its steps above `lo` and up to `hi`, in the chain's order. */
  lemma {:induction false} JobsExact<Stmt>(name: string, steps: seq<Step<Stmt>>, lo: int, hi: int)
    ensures Selects(steps, (s: Step<Stmt>) => lo < s.ordinal <= hi, (s: Step<Stmt>) => Job(name, s),
                    Jobs(name, steps, lo, hi))
  {
    if steps != [] {
      var n := |steps| - 1;
      JobsExact(name, steps[..n], lo, hi);
      SelectsSnoc(steps[..n], (s: Step<Stmt>) => lo < s.ordinal <= hi, (s: Step<Stmt>) => Job(name, s),
                  Jobs(name, steps[..n], lo, hi), steps[n]);
      assert steps == steps[..n] + [steps[n]];
    }
  }

  // ----- all chains

  /** The head of a well-shaped chain is the greatest of its positions. */
  lemma {:induction false} HeadIsGreatest<Stmt>(chain: Chain<Stmt>)
    requires chain.WellShaped()
    ensures chain.Contains(chain.Head())
    ensures forall i :: 0 <= i < |chain.steps| ==> chain.steps[i].ordinal <= chain.Head()
  {
    assert chain.steps[|chain.steps| - 1].ordinal == chain.Head();
  }

  /** Every step of a chain, in order. */
  function EveryStep<Stmt>(chain: Chain<Stmt>): seq<Job<Stmt>> {
    seq(|chain.steps|, i requires 0 <= i < |chain.steps| => Job(chain.name, chain.steps[i]))
  }

  /** Every step of every chain, in order. */
  function AllJobs<Stmt>(chains: seq<Chain<Stmt>>): seq<Job<Stmt>> {
    if chains == [] then [] else AllJobs(chains[..|chains| - 1]) + EveryStep(chains[|chains| - 1])
  }

  /** Replayed to its head, a chain runs all of its steps. */
  lemma {:induction false} HeadRunsAll<Db, Stmt>(exec: Exec<Db, Stmt>, db: Db, chain: Chain<Stmt>)
    requires chain.WellShaped()
    ensures Replayed(exec, db, chain, chain.Head()) == RunJobs(exec, db, EveryStep(chain))
  {
    hide RunJobs, Jobs;
    HeadIsGreatest(chain);
    RunsAll(chain.name, chain.steps, chain.Head());
    assert Jobs(chain.name, chain.steps, -1, chain.Head()) == EveryStep(chain);
  }

  lemma {:induction false} RunsAll<Stmt>(name: string, steps: seq<Step<Stmt>>, head: nat)
    requires forall i :: 0 <= i < |steps| ==> steps[i].ordinal <= head
    ensures |Jobs(name, steps, -1, head)| == |steps|
    ensures forall i :: 0 <= i < |steps| ==> Jobs(name, steps, -1, head)[i] == Job(name, steps[i])
  {
    if steps != [] {
      RunsAll(name, steps[..|steps| - 1], head);
    }
  }

  /** Replaying every chain to its head is one run over all their steps in order. */
  lemma {:induction false} ReplayAllIsOneRun<Db, Stmt>(exec: Exec<Db, Stmt>, db: Db, chains: seq<Chain<Stmt>>)
    requires forall i :: 0 <= i < |chains| ==> chains[i].WellShaped()
    ensures ReplayedAll(exec, db, chains) == RunJobs(exec, db, AllJobs(chains))
  {
    hide Replayed, EveryStep;
    if chains == [] {
      RunNone<Db, Stmt>(exec, db);
    } else {
      var init, last := chains[..|chains| - 1], chains[|chains| - 1];
      ReplayAllIsOneRun(exec, db, init);
      HeadRunsAll(exec, ReplayedAll(exec, db, init).db, last);
      RunAppend(exec, db, AllJobs(init), EveryStep(last));
    }
  }

  /** An ill-shaped chain stops the run where the chains before it end. */
  lemma {:induction false} ReplayAllIllShaped<Db, Stmt>(exec: Exec<Db, Stmt>, db: Db, chains: seq<Chain<Stmt>>, k: nat)
    requires k < |chains| && !chains[k].WellShaped() && forall i :: 0 <= i < k ==> chains[i].WellShaped()
    ensures var o := RunJobs(exec, db, AllJobs(chains[..k]));
            ReplayedAll(exec, db, chains) == Then(o, Refused(o.db, ShapeError(chains[k])))
  {
    hide RunJobs, AllJobs;
    ReplayAllIsOneRun(exec, db, chains[..k]);
    assert chains[..k + 1][..k] == chains[..k];
    ReplayedAllStops(exec, db, chains, k + 1);
  }
}
