/**
 The jobs protocol with a clock, one loop iteration's read and write a step: when each
 run keeps to its bound, a claim is a lease that excludes every other run of its job.
 */
module JobLease {
  import opened Wrappers
  import opened JobRows

  /** A body in flight, from its claim to its finish. */
  datatype Run = Run(runner: RunnerId, job: JobId, claimedAt: int, bound: int, attempts: int, loaded: Option<Row>)

  /** stopped holds the runners that are not entered; draining what their exits still have to release. */
  datatype State = State(
    rows: Table,
    clock: int,
    runs: map<nat, Run>,
    nextRun: nat,
    stopped: set<RunnerId>,
    draining: set<(RunnerId, JobId)>)

  const EMPTY := State(map[], 0, map[], 0, {}, {})

  datatype Step =
    | Tick(to: int)
    | Create(job: JobId, row: Row)
    | Edit(job: JobId, patch: Patch)
    | Claim(runner: RunnerId, job: JobId, moment: int)
    | Load(run: nat)
    | Finish(run: nat, outcome: JobRun)
    | Abandon(run: nat)
    | Die(runner: RunnerId)
    | Exit(runner: RunnerId)
    | Release(runner: RunnerId, job: JobId)
    | Unreleased(runner: RunnerId, job: JobId)
    | Enter(runner: RunnerId)
    | Recover(job: JobId, moment: int)
    | Promote(job: JobId, moment: int)

  predicate WithinBound(run: Run, clock: int) {
    clock <= run.claimedAt + run.bound
  }

  /**
   What a run of the system is assumed to keep to. Timely: a body that is still going when
   its bound is reached ends, or its process dies, first. OneRunEach: a runner does not
   claim a job again while a body of its own for that job is still going. Free: nothing.
   */
  datatype Regime = Free | OneRunEach | Timely

  predicate RunsAlready(s: State, runner: RunnerId, job: JobId) {
    exists id | id in s.runs :: s.runs[id].runner == runner && s.runs[id].job == job
  }

  /**
   defaultBound is the runners' common default. An exit releases best effort, so a release may
   fail and be passed over; once its exit is through, a runner may be entered again.
   */
  predicate Enabled(s: State, step: Step, defaultBound: int, regime: Regime) {
    match step
    case Tick(to) => s.clock <= to && (regime.Timely? ==> forall id | id in s.runs :: WithinBound(s.runs[id], to))
    case Create(job, row) => job !in s.rows && Creatable(row)
    case Edit(job, patch) =>
      && ClientWritable(patch)
      && (job in s.rows && s.rows[job].status == RUNNING ==> patch.status == Some(CANCELLED))
    case Claim(runner, job, moment) =>
      && runner !in s.stopped && job in s.rows && s.rows[job].status == PENDING && moment <= s.clock
      && (regime.Timely? ==> s.clock <= moment + BoundOf(s.rows[job], defaultBound))
      && (regime.OneRunEach? ==> !RunsAlready(s, runner, job))
    case Load(id) => id in s.runs && s.runs[id].loaded.None? && s.runs[id].job in s.rows
    case Finish(id, _) => id in s.runs && s.runs[id].loaded.Some?
    case Abandon(id) => id in s.runs
    case Die(_) => true
    case Exit(runner) => runner !in s.stopped
    case Release(runner, job) => (runner, job) in s.draining
    case Unreleased(runner, job) => (runner, job) in s.draining
    case Enter(runner) => runner in s.stopped && forall p | p in s.draining :: p.0 != runner
    case Recover(job, moment) => job in s.rows && moment <= s.clock && Stale(s.rows[job], moment, defaultBound)
    case Promote(job, moment) => job in s.rows && moment <= s.clock && Due(s.rows[job], moment)
  }

  function RunsWithout(runs: map<nat, Run>, runner: RunnerId): map<nat, Run> {
    map id | id in runs && runs[id].runner != runner :: runs[id]
  }

  function Apply(s: State, step: Step, defaultBound: int): State
    requires Enabled(s, step, defaultBound, Free)
  {
    match step
    case Tick(to) => s.(clock := to)
    case Create(job, row) => s.(rows := s.rows[job := row])
    case Edit(job, patch) => s.(rows := Written(s.rows, job, patch, Always))
    case Claim(runner, job, moment) =>
      var row := s.rows[job];
      s.(rows := Written(s.rows, job, ClaimPatch(row, runner, moment), StatusIs(PENDING)),
         runs := s.runs[s.nextRun := Run(runner, job, moment, BoundOf(row, defaultBound), row.attempts + 1, None)],
         nextRun := s.nextRun + 1)
    case Load(id) => s.(runs := s.runs[id := s.runs[id].(loaded := Some(s.rows[s.runs[id].job]))])
    case Finish(id, outcome) =>
      var run := s.runs[id];
      s.(rows := Written(s.rows, run.job, FinishPatch(run.loaded.value, outcome), HeldBy(Some(run.runner))),
         runs := s.runs - {id})
    case Abandon(id) => s.(runs := s.runs - {id})
    case Die(runner) => s.(runs := RunsWithout(s.runs, runner), stopped := s.stopped + {runner})
    case Exit(runner) =>
      s.(runs := RunsWithout(s.runs, runner),
         stopped := s.stopped + {runner},
         draining := s.draining + set id | id in s.runs && s.runs[id].runner == runner :: (runner, s.runs[id].job))
    case Release(runner, job) =>
      s.(rows := Written(s.rows, job, RELEASE_PATCH, HeldBy(Some(runner))),
         draining := s.draining - {(runner, job)})
    case Unreleased(runner, job) => s.(draining := s.draining - {(runner, job)})
    case Enter(runner) => s.(stopped := s.stopped - {runner})
    case Recover(job, _) =>
      s.(rows := Written(s.rows, job, RecoverPatch(s.rows[job]), HeldBy(s.rows[job].claimedBy)))
    case Promote(job, _) => s.(rows := Written(s.rows, job, PROMOTE_PATCH, StatusIs(SCHEDULED)))
  }

  ghost predicate Allowed(s: State, steps: seq<Step>, defaultBound: int, regime: Regime)
    decreases steps
  {
    steps != [] ==>
      && Enabled(s, steps[0], defaultBound, regime)
      && Allowed(Apply(s, steps[0], defaultBound), steps[1..], defaultBound, regime)
  }

  ghost function After(s: State, steps: seq<Step>, defaultBound: int, regime: Regime): State
    requires Allowed(s, steps, defaultBound, regime)
    decreases steps
  {
    if steps == [] then s else After(Apply(s, steps[0], defaultBound), steps[1..], defaultBound, regime)
  }

  // ----- What the steps do, field by field -----

  /** Any runner may recover a claim that overran its bound, promote a schedule that is due, and claim a pending row. */
  lemma SweepStepsExactly(s: State, runner: RunnerId, job: JobId, moment: int, defaultBound: int)
    requires job in s.rows && moment <= s.clock
    ensures Enabled(s, Recover(job, moment), defaultBound, Free) <==> Overran(s.rows[job], moment, defaultBound)
    ensures Overran(s.rows[job], moment, defaultBound) ==>
              Apply(s, Recover(job, moment), defaultBound)
              == s.(rows := s.rows[job := RecoveredRow(s.rows[job], moment, defaultBound)])
    ensures Enabled(s, Promote(job, moment), defaultBound, Free) <==> PromotedRow(s.rows[job], moment) != s.rows[job]
    ensures PromotedRow(s.rows[job], moment) != s.rows[job] ==>
              Apply(s, Promote(job, moment), defaultBound)
              == s.(rows := s.rows[job := PromotedRow(s.rows[job], moment)])
    ensures Enabled(s, Claim(runner, job, moment), defaultBound, Free)
       <==> runner !in s.stopped && s.rows[job].status == PENDING
    ensures Enabled(s, Claim(runner, job, moment), defaultBound, Free) ==>
              var next := Apply(s, Claim(runner, job, moment), defaultBound);
              && next.rows == s.rows[job := ClaimedRow(s.rows[job], runner, moment)]
              && next.runs.Keys == s.runs.Keys + {s.nextRun} && next.runs[s.nextRun].job == job
              && next.runs[s.nextRun].runner == runner && next.runs[s.nextRun].loaded.None?
  {
    RunnerWritesExactly(s.rows[job], runner, moment, defaultBound);
  }

  /**
   A body that ends writes its outcome where its runner still holds the row, and is gone. An
   exit ends the runner's bodies, and each of their jobs is then to be released; a release
   gives back what the runner still holds.
   */
  lemma EndsExactly(s: State, id: nat, outcome: JobRun, runner: RunnerId, job: JobId, defaultBound: int)
    requires id in s.runs
    ensures s.runs[id].loaded.Some? ==>
              && Enabled(s, Finish(id, outcome), defaultBound, Free)
              && var next, run := Apply(s, Finish(id, outcome), defaultBound), s.runs[id];
                 && next.runs == s.runs - {id}
                 && next.rows == (if run.job in s.rows && Passes(HeldBy(Some(run.runner)), s.rows[run.job])
                                  then s.rows[run.job := FinishedRow(s.rows[run.job], run.loaded.value, outcome)]
                                  else s.rows)
    ensures Enabled(s, Exit(runner), defaultBound, Free) ==>
              var next := Apply(s, Exit(runner), defaultBound);
              && next.rows == s.rows && runner in next.stopped
              && (id in next.runs <==> s.runs[id].runner != runner)
              && (s.runs[id].runner == runner ==>
                    Enabled(next, Release(runner, s.runs[id].job), defaultBound, Free))
    ensures Enabled(s, Release(runner, job), defaultBound, Free) ==>
              var next := Apply(s, Release(runner, job), defaultBound);
              && next.runs == s.runs && (runner, job) !in next.draining
              && next.rows == (if job in s.rows then s.rows[job := ReleasedRow(s.rows[job], runner)] else s.rows)
  {
    var run := s.runs[id];
    if run.job in s.rows && run.loaded.Some? {
      FinishedRowExactly(s.rows[run.job], run.loaded.value, outcome);
    }
    if job in s.rows {
      RunnerWritesExactly(s.rows[job], runner, 0, defaultBound);
    }
  }

  /** The clients' steps, and those that only move time, load a row, or lose a body or a process. */
  lemma OtherStepsExactly(s: State, job: JobId, row: Row, patch: Patch, to: int, id: nat, runner: RunnerId, bound: int)
    ensures Enabled(s, Create(job, row), bound, Free) ==>
              job !in s.rows && Apply(s, Create(job, row), bound) == s.(rows := s.rows[job := row])
    ensures Enabled(s, Edit(job, patch), bound, Free) ==>
              var next := Apply(s, Edit(job, patch), bound);
              if job in s.rows && !Terminal(s.rows[job].status) then
                && next == s.(rows := s.rows[job := next.rows[job]])
                && WritesOnly(s.rows[job], next.rows[job], patch)
              else next == s
    ensures s.clock <= to ==>
              Enabled(s, Tick(to), bound, Free) && Apply(s, Tick(to), bound) == s.(clock := to)
    ensures id in s.runs && s.runs[id].loaded.None? && s.runs[id].job in s.rows ==>
              && Enabled(s, Load(id), bound, Free)
              && Apply(s, Load(id), bound)
                 == s.(runs := s.runs[id := s.runs[id].(loaded := Some(s.rows[s.runs[id].job]))])
    ensures id in s.runs ==> Apply(s, Abandon(id), bound) == s.(runs := s.runs - {id})
    ensures var next := Apply(s, Die(runner), bound);
            && next.rows == s.rows && next.draining == s.draining && next.stopped == s.stopped + {runner}
            && forall x :: x in next.runs <==> x in s.runs && s.runs[x].runner != runner
    ensures Enabled(s, Edit(job, patch), bound, Free) <==>
              && ClientWritable(patch)
              && (job in s.rows && s.rows[job].status == RUNNING ==> patch.status == Some(CANCELLED))
    ensures runner in s.stopped && (forall p :: p in s.draining ==> p.0 != runner) ==>
              && Enabled(s, Enter(runner), bound, Free)
              && Apply(s, Enter(runner), bound) == s.(stopped := s.stopped - {runner})
    ensures (runner, job) in s.draining ==>
              && Enabled(s, Unreleased(runner, job), bound, Free)
              && Apply(s, Unreleased(runner, job), bound) == s.(draining := s.draining - {(runner, job)})
  {
    WrittenExactly(s.rows, job, patch, Always);
  }

  // ----- Mutual exclusion -----

  /** What a live run can rely on: its row is still its own, or a client cancelled it. */
  ghost predicate RunConsistent(s: State, run: Run, defaultBound: int) {
    && run.job in s.rows
    && run.runner !in s.stopped
    && WithinBound(run, s.clock)
    && var row := s.rows[run.job];
       && row.attempts == run.attempts
       && (run.loaded.Some? ==> run.loaded.value.attempts == row.attempts)
       && (!Terminal(row.status) ==>
             && row.status == RUNNING
             && row.claimedBy == Some(run.runner)
             && row.claimedAt == Some(run.claimedAt)
             && BoundOf(row, defaultBound) == run.bound
             && (run.loaded.Some? ==> run.loaded.value.maxAttempts == row.maxAttempts))
  }

  ghost predicate AtMostOneRun(s: State) {
    forall a, b :: a in s.runs && b in s.runs && s.runs[a].job == s.runs[b].job ==> a == b
  }

  ghost predicate Invariant(s: State, defaultBound: int) {
    && (forall id :: id in s.runs ==> id < s.nextRun && RunConsistent(s, s.runs[id], defaultBound))
    && AtMostOneRun(s)
    && (forall p :: p in s.draining ==> p.0 in s.stopped)
  }

  /** A write that does not reach a live run's row, or only cancels it, keeps the run consistent. */
  lemma RunSurvives(s: State, step: Step, id: nat, defaultBound: int)
    requires Invariant(s, defaultBound) && Enabled(s, step, defaultBound, Timely)
    requires id in s.runs && id in Apply(s, step, defaultBound).runs
    ensures RunConsistent(Apply(s, step, defaultBound), Apply(s, step, defaultBound).runs[id], defaultBound)
  {
  }

  lemma InvariantStep(s: State, step: Step, defaultBound: int)
    requires Invariant(s, defaultBound) && Enabled(s, step, defaultBound, Timely)
    ensures Invariant(Apply(s, step, defaultBound), defaultBound)
  {
    var next := Apply(s, step, defaultBound);
    forall id | id in next.runs
      ensures id < next.nextRun && RunConsistent(next, next.runs[id], defaultBound)
    {
      if id in s.runs {
        RunSurvives(s, step, id, defaultBound);
      }
    }
    if step.Claim? {
      forall id | id in s.runs ensures s.runs[id].job != step.job {
        assert RunConsistent(s, s.runs[id], defaultBound);
      }
    }
  }

  lemma {:induction false} InvariantAlways(s: State, steps: seq<Step>, defaultBound: int)
    requires Invariant(s, defaultBound) && Allowed(s, steps, defaultBound, Timely)
    ensures Invariant(After(s, steps, defaultBound, Timely), defaultBound)
    decreases steps
  {
    if steps != [] {
      InvariantStep(s, steps[0], defaultBound);
      InvariantAlways(Apply(s, steps[0], defaultBound), steps[1..], defaultBound);
    }
  }

  /**
   Lease mutual exclusion: in every reachable state of any number of runners each job has
   at most one live run, and what that run loaded has the row's current attempts.
   */
  lemma LeaseMutualExclusion(steps: seq<Step>, defaultBound: int)
    requires Allowed(EMPTY, steps, defaultBound, Timely)
    ensures var s := After(EMPTY, steps, defaultBound, Timely);
            && AtMostOneRun(s)
            && (forall id :: id in s.runs && s.runs[id].loaded.Some? ==>
                  s.runs[id].job in s.rows && s.runs[id].loaded.value.attempts == s.rows[s.runs[id].job].attempts)
  {
    InvariantAlways(EMPTY, steps, defaultBound);
    var s := After(EMPTY, steps, defaultBound, Timely);
    forall id | id in s.runs && s.runs[id].loaded.Some?
      ensures s.runs[id].job in s.rows && s.runs[id].loaded.value.attempts == s.rows[s.runs[id].job].attempts
    {
      assert RunConsistent(s, s.runs[id], defaultBound);
    }
  }

  lemma {:induction false} Extended(s: State, steps: seq<Step>, step: Step, defaultBound: int, regime: Regime)
    returns (longer: seq<Step>)
    requires Allowed(s, steps, defaultBound, regime)
    requires Enabled(After(s, steps, defaultBound, regime), step, defaultBound, regime)
    ensures Allowed(s, longer, defaultBound, regime)
    ensures After(s, longer, defaultBound, regime)
         == Apply(After(s, steps, defaultBound, regime), step, defaultBound)
    decreases steps
  {
    if steps == [] {
      longer := [step];
      assert longer[1..] == [];
    } else {
      var rest := Extended(Apply(s, steps[0], defaultBound), steps[1..], step, defaultBound, regime);
      longer := [steps[0]] + rest;
      assert longer[1..] == rest;
    }
  }

  // ----- When a run is overdue -----

  /** Runs are of stored jobs, and fresh run ids are unused. */
  ghost predicate RunsKnown(s: State) {
    forall id :: id in s.runs ==> id < s.nextRun && s.runs[id].job in s.rows
  }

  lemma RunsKnownStep(s: State, step: Step, defaultBound: int, regime: Regime)
    requires RunsKnown(s) && Enabled(s, step, defaultBound, regime)
    ensures RunsKnown(Apply(s, step, defaultBound))
  {
  }

  lemma {:induction false} RunsKnownAlways(s: State, steps: seq<Step>, defaultBound: int, regime: Regime)
    requires RunsKnown(s) && Allowed(s, steps, defaultBound, regime)
    ensures RunsKnown(After(s, steps, defaultBound, regime))
    decreases steps
  {
    if steps != [] {
      RunsKnownStep(s, steps[0], defaultBound, regime);
      RunsKnownAlways(Apply(s, steps[0], defaultBound), steps[1..], defaultBound, regime);
    }
  }

  /** The row of a live run, recovered under it: claimable again exactly below its cap, and an error at it. */
  lemma RecoveredUnderRun(s: State, job: JobId, runner: RunnerId, defaultBound: int)
    requires job in s.rows && Stale(s.rows[job], s.clock, defaultBound) && runner !in s.stopped
    ensures Enabled(s, Recover(job, s.clock), defaultBound, Free)
    ensures var t := Apply(s, Recover(job, s.clock), defaultBound);
            && (Enabled(t, Claim(runner, job, s.clock), defaultBound, Free)
                <==> s.rows[job].attempts < s.rows[job].maxAttempts)
            && (s.rows[job].attempts >= s.rows[job].maxAttempts ==> t.rows[job].status == ERROR)
            && t.runs == s.runs && t.stopped == s.stopped && t.clock == s.clock && t.nextRun == s.nextRun
  {
  }

  /**
   Without the assumption the claim is no lease, because its token has no epoch. In any state
   the system can reach, a live run whose row is overdue and below its cap is joined by a
   second run of its job two steps later; and when the runner that claims is the one that
   still runs the old body, that body's finish ends the new claim.
   */
  lemma OverdueRunIsJoined(steps: seq<Step>, id: nat, runner: RunnerId, outcome: JobRun, defaultBound: int)
    returns (longer: seq<Step>)
    requires Allowed(EMPTY, steps, defaultBound, Free)
    requires var s := After(EMPTY, steps, defaultBound, Free);
             && id in s.runs && s.runs[id].job in s.rows && runner !in s.stopped
             && Stale(s.rows[s.runs[id].job], s.clock, defaultBound)
             && s.rows[s.runs[id].job].attempts < s.rows[s.runs[id].job].maxAttempts
    ensures Allowed(EMPTY, longer, defaultBound, Free)
    ensures var s, t := After(EMPTY, steps, defaultBound, Free), After(EMPTY, longer, defaultBound, Free);
            var job := s.runs[id].job;
            && id in t.runs && t.runs[id] == s.runs[id] && !AtMostOneRun(t)
            && job in t.rows && t.rows[job].status == RUNNING && t.rows[job].claimedBy == Some(runner)
            && s.nextRun != id && s.nextRun in t.runs && t.runs[s.nextRun].job == job
            && t.rows[job].claimedAt == Some(t.runs[s.nextRun].claimedAt)
            && (s.runs[id].runner == runner && s.runs[id].loaded.Some? ==>
                  && Enabled(t, Finish(id, outcome), defaultBound, Free)
                  && var u := Apply(t, Finish(id, outcome), defaultBound);
                     && job in u.rows && u.rows[job].status != RUNNING && u.runs == t.runs - {id}
                     && (!outcome.failed ==> u.rows[job].status == COMPLETED))
  {
    var s := After(EMPTY, steps, defaultBound, Free);
    var job := s.runs[id].job;
    RunsKnownAlways(EMPTY, steps, defaultBound, Free);
    RecoveredUnderRun(s, job, runner, defaultBound);
    longer := Extended(EMPTY, steps, Recover(job, s.clock), defaultBound, Free);
    longer := Extended(EMPTY, longer, Claim(runner, job, s.clock), defaultBound, Free);
    SecondRunJoins(s, id, runner, outcome, defaultBound);
  }

  /** The two steps themselves. */
  lemma SecondRunJoins(s: State, id: nat, runner: RunnerId, outcome: JobRun, defaultBound: int)
    requires RunsKnown(s) && id in s.runs && s.runs[id].job in s.rows && runner !in s.stopped
    requires var row := s.rows[s.runs[id].job];
             Stale(row, s.clock, defaultBound) && row.attempts < row.maxAttempts
    ensures var job := s.runs[id].job;
            && Enabled(s, Recover(job, s.clock), defaultBound, Free)
            && var r := Apply(s, Recover(job, s.clock), defaultBound);
               && Enabled(r, Claim(runner, job, s.clock), defaultBound, Free)
               && var t := Apply(r, Claim(runner, job, s.clock), defaultBound);
                  && id in t.runs && t.runs[id] == s.runs[id] && !AtMostOneRun(t)
                  && job in t.rows && t.rows[job].status == RUNNING && t.rows[job].claimedBy == Some(runner)
                  && s.nextRun != id && s.nextRun in t.runs && t.runs[s.nextRun].job == job
                  && t.rows[job].claimedAt == Some(t.runs[s.nextRun].claimedAt)
                  && (s.runs[id].runner == runner && s.runs[id].loaded.Some? ==>
                        && Enabled(t, Finish(id, outcome), defaultBound, Free)
                        && var u := Apply(t, Finish(id, outcome), defaultBound);
                           && job in u.rows && u.rows[job].status != RUNNING && u.runs == t.runs - {id}
                           && (!outcome.failed ==> u.rows[job].status == COMPLETED))
  {
    var job := s.runs[id].job;
    RecoveredUnderRun(s, job, runner, defaultBound);
    var t := Apply(Apply(s, Recover(job, s.clock), defaultBound), Claim(runner, job, s.clock), defaultBound);
    assert id in t.runs && s.nextRun in t.runs && t.runs[s.nextRun].job == job;
  }

  const JOB := JobId(7)
  const NEW_ROW := Row(PENDING, None, None, None, None, 0, 2, None)
  const CLAIMED := Patched(NEW_ROW, ClaimPatch(NEW_ROW, 1, 0))

  lemma OverdueRunIsLoaded() returns (steps: seq<Step>)
    ensures Allowed(EMPTY, steps, 10, Free)
    ensures After(EMPTY, steps, 10, Free)
         == State(map[JOB := CLAIMED], 0, map[0 := Run(1, JOB, 0, 10, 1, Some(CLAIMED))], 1, {}, {})
  {
    steps := Extended(EMPTY, [], Create(JOB, NEW_ROW), 10, Free);
    assert After(EMPTY, steps, 10, Free) == State(map[JOB := NEW_ROW], 0, map[], 0, {}, {});
    steps := Extended(EMPTY, steps, Claim(1, JOB, 0), 10, Free);
    assert After(EMPTY, steps, 10, Free)
        == State(map[JOB := CLAIMED], 0, map[0 := Run(1, JOB, 0, 10, 1, None)], 1, {}, {});
    steps := Extended(EMPTY, steps, Load(0), 10, Free);
  }

  /** An instance: the same runner claims again and runs the job twice at once, and the old body ends the new claim. */
  lemma OverdueRunBreaksLease() returns (steps: seq<Step>, last: Step)
    ensures Allowed(EMPTY, steps, 10, Free)
    ensures !AtMostOneRun(After(EMPTY, steps, 10, Free))
    ensures last.Finish? && Enabled(After(EMPTY, steps, 10, Free), last, 10, Free)
    ensures var s := After(EMPTY, steps, 10, Free);
            var t := Apply(s, last, 10);
            && JOB in s.rows && s.rows[JOB].status == RUNNING
            && JOB in t.rows && t.rows[JOB].status == COMPLETED
            && 1 in t.runs && t.runs[1].job == JOB && s.rows[JOB].claimedAt == Some(t.runs[1].claimedAt)
  {
    steps := OverdueRunIsLoaded();
    steps := Extended(EMPTY, steps, Tick(100), 10, Free);
    var outcome := JobRun(false, None);
    steps := OverdueRunIsJoined(steps, 0, 1, outcome, 10);
    last := Finish(0, outcome);
  }

  /** Timely runners never have two bodies of a job, so their runs are among the OneRunEach ones. */
  lemma {:induction false} TimelyMeansOneRunEach(s: State, steps: seq<Step>, defaultBound: int)
    requires Invariant(s, defaultBound) && Allowed(s, steps, defaultBound, Timely)
    ensures Allowed(s, steps, defaultBound, OneRunEach)
    ensures After(s, steps, defaultBound, OneRunEach) == After(s, steps, defaultBound, Timely)
    decreases steps
  {
    if steps != [] {
      if steps[0].Claim? {
        forall id | id in s.runs
          ensures s.runs[id].job != steps[0].job
        {
          assert RunConsistent(s, s.runs[id], defaultBound);
        }
      }
      InvariantStep(s, steps[0], defaultBound);
      TimelyMeansOneRunEach(Apply(s, steps[0], defaultBound), steps[1..], defaultBound);
    }
  }

  // ----- Termination -----

  /** How many runner writes a job can still get: two for each attempt left, and one more. */
  function Measure(row: Row): int {
    if Terminal(row.status) then 0
    else 2 * (row.maxAttempts - row.attempts) + (if row.status == PENDING then 0 else 1)
  }

  /** The attempt budget of a job with that many releases so far. */
  ghost predicate InBudget(row: Row, releases: nat) {
    && 0 <= row.attempts <= row.maxAttempts + releases
    && (row.status == PENDING || row.status == SCHEDULED ==> row.attempts < row.maxAttempts + releases)
  }

  /** A release that gives this job back; one that reaches no row does nothing. */
  predicate GivesBack(s: State, step: Step, job: JobId) {
    step.Release? && step.job == job && Reaches(s.rows, job, HeldBy(Some(step.runner)))
  }

  /** How many of the steps are such releases. */
  ghost function Releases(s: State, steps: seq<Step>, job: JobId, defaultBound: int): nat
    requires Allowed(s, steps, defaultBound, OneRunEach)
    decreases steps
  {
    if steps == [] then 0
    else (if GivesBack(s, steps[0], job) then 1 else 0)
         + Releases(Apply(s, steps[0], defaultBound), steps[1..], job, defaultBound)
  }

  predicate NoEdits(steps: seq<Step>, job: JobId) {
    forall i :: 0 <= i < |steps| ==> !(steps[i].Edit? && steps[i].job == job)
  }

  /** How many of the steps write the job's row. */
  ghost function Writes(s: State, steps: seq<Step>, job: JobId, defaultBound: int): nat
    requires Allowed(s, steps, defaultBound, OneRunEach) && job in s.rows
    decreases steps
  {
    if steps == [] then 0
    else
      var next := Apply(s, steps[0], defaultBound);
      (if next.rows[job] != s.rows[job] then 1 else 0) + Writes(next, steps[1..], job, defaultBound)
  }

  /**
   However late the bodies of this job are: a runner has at most one, and one whose runner
   holds the row has loaded, if anything, what the row still says.
   */
  ghost predicate Followed(s: State, job: JobId) {
    && (forall a, b | a in s.runs && b in s.runs && s.runs[a].job == s.runs[b].job == job ::
          s.runs[a].runner == s.runs[b].runner ==> a == b)
    && (forall id | id in s.runs && s.runs[id].job == job && job in s.rows && s.runs[id].loaded.Some? ::
          var run, row := s.runs[id], s.rows[job];
          row.status == RUNNING && row.claimedBy == Some(run.runner) ==>
            run.loaded.value.attempts == row.attempts && run.loaded.value.maxAttempts == row.maxAttempts)
  }

  lemma FollowedStep(s: State, step: Step, job: JobId, defaultBound: int)
    requires RunsKnown(s) && Followed(s, job) && job in s.rows && Enabled(s, step, defaultBound, OneRunEach)
    requires !(step.Edit? && step.job == job)
    ensures Followed(Apply(s, step, defaultBound), job)
  {
  }

  lemma BudgetStep(s: State, step: Step, job: JobId, defaultBound: int, releases: nat)
    requires Followed(s, job) && Enabled(s, step, defaultBound, OneRunEach)
    requires job in s.rows && InBudget(s.rows[job], releases)
    requires !(step.Edit? && step.job == job)
    ensures var next := Apply(s, step, defaultBound);
            && job in next.rows && next.rows[job].maxAttempts == s.rows[job].maxAttempts
            && InBudget(next.rows[job], releases + if GivesBack(s, step, job) then 1 else 0)
            && (releases == 0 && !GivesBack(s, step, job) && next.rows[job] != s.rows[job] ==>
                  0 <= Measure(next.rows[job]) < Measure(s.rows[job]))
  {
  }

  lemma {:induction false} FollowedFrom(
    s: State, steps: seq<Step>, job: JobId, defaultBound: int, releases: nat)
    requires RunsKnown(s) && Followed(s, job) && Allowed(s, steps, defaultBound, OneRunEach)
    requires job in s.rows && InBudget(s.rows[job], releases) && NoEdits(steps, job)
    ensures job in After(s, steps, defaultBound, OneRunEach).rows
    ensures After(s, steps, defaultBound, OneRunEach).rows[job].maxAttempts == s.rows[job].maxAttempts
    ensures After(s, steps, defaultBound, OneRunEach).rows[job].attempts
         <= s.rows[job].maxAttempts + releases + Releases(s, steps, job, defaultBound)
    ensures releases + Releases(s, steps, job, defaultBound) == 0 ==>
              Writes(s, steps, job, defaultBound)
              + Measure(After(s, steps, defaultBound, OneRunEach).rows[job]) <= Measure(s.rows[job])
              && 0 <= Measure(After(s, steps, defaultBound, OneRunEach).rows[job])
    decreases steps
  {
    if steps != [] {
      RunsKnownStep(s, steps[0], defaultBound, OneRunEach);
      FollowedStep(s, steps[0], job, defaultBound);
      BudgetStep(s, steps[0], job, defaultBound, releases);
      FollowedFrom(Apply(s, steps[0], defaultBound), steps[1..], job, defaultBound,
                   releases + if GivesBack(s, steps[0], job) then 1 else 0);
    }
  }

  /** A created job: no body runs it yet, and its budget is its cap. */
  lemma CreatedIsFollowed(before: seq<Step>, job: JobId, row: Row, defaultBound: int)
    requires Allowed(EMPTY, before, defaultBound, OneRunEach) && row.maxAttempts >= 1
    requires Enabled(After(EMPTY, before, defaultBound, OneRunEach), Create(job, row), defaultBound, Free)
    ensures var s := Apply(After(EMPTY, before, defaultBound, OneRunEach), Create(job, row), defaultBound);
            && RunsKnown(s) && Followed(s, job)
            && job in s.rows && s.rows[job] == row && InBudget(row, 0)
  {
    RunsKnownAlways(EMPTY, before, defaultBound, OneRunEach);
    var s := After(EMPTY, before, defaultBound, OneRunEach);
    assert forall id :: id in s.runs ==> s.runs[id].job in s.rows;
  }

  /** A job's attempts exceed its cap by at most one for each release of it. */
  lemma AttemptsBounded(before: seq<Step>, job: JobId, row: Row, steps: seq<Step>, defaultBound: int)
    requires Allowed(EMPTY, before, defaultBound, OneRunEach) && row.maxAttempts >= 1
    requires Enabled(After(EMPTY, before, defaultBound, OneRunEach), Create(job, row), defaultBound, Free)
    requires Allowed(Apply(After(EMPTY, before, defaultBound, OneRunEach), Create(job, row), defaultBound),
                     steps, defaultBound, OneRunEach)
    requires NoEdits(steps, job)
    ensures var s := Apply(After(EMPTY, before, defaultBound, OneRunEach), Create(job, row), defaultBound);
            && job in After(s, steps, defaultBound, OneRunEach).rows
            && After(s, steps, defaultBound, OneRunEach).rows[job].attempts
               <= row.maxAttempts + Releases(s, steps, job, defaultBound)
  {
    CreatedIsFollowed(before, job, row, defaultBound);
    FollowedFrom(Apply(After(EMPTY, before, defaultBound, OneRunEach), Create(job, row), defaultBound),
                 steps, job, defaultBound, 0);
  }

  /**
   Every job terminates: without releases and client edits each applied runner write lowers
   the measure, so a job created with a cap of n gets at most 2n + 1 of them, ever, and not
   one more than the measure says is left at any later moment.
   */
  lemma CreatedJobTerminates(before: seq<Step>, job: JobId, row: Row, steps: seq<Step>, defaultBound: int)
    requires Allowed(EMPTY, before, defaultBound, OneRunEach) && row.maxAttempts >= 1
    requires Enabled(After(EMPTY, before, defaultBound, OneRunEach), Create(job, row), defaultBound, Free)
    requires Allowed(Apply(After(EMPTY, before, defaultBound, OneRunEach), Create(job, row), defaultBound),
                     steps, defaultBound, OneRunEach)
    requires NoEdits(steps, job)
    requires Releases(Apply(After(EMPTY, before, defaultBound, OneRunEach), Create(job, row), defaultBound),
                      steps, job, defaultBound) == 0
    ensures var s := Apply(After(EMPTY, before, defaultBound, OneRunEach), Create(job, row), defaultBound);
            var end := After(s, steps, defaultBound, OneRunEach);
            && job in end.rows && Measure(end.rows[job]) >= 0
            && Writes(s, steps, job, defaultBound) + Measure(end.rows[job]) <= 2 * row.maxAttempts + 1
  {
    CreatedIsFollowed(before, job, row, defaultBound);
    FollowedFrom(Apply(After(EMPTY, before, defaultBound, OneRunEach), Create(job, row), defaultBound),
                 steps, job, defaultBound, 0);
  }
}
