/**
 The jobs protocol at its finest grain: any number of runners and clients, one atomic
 conditional update a step, and runners acting on rows they read arbitrarily long ago.
 */
module JobProtocol {
  import opened Wrappers
  import opened JobRows

  /** A row some runner has read and may still act on. */
  datatype Snapshot = Snapshot(runner: RunnerId, job: JobId, row: Row)

  /** One entry of a job's claim history. */
  datatype Mark = Won(runner: RunnerId, at: int) | Ended(holder: Option<RunnerId>)

  datatype State = State(rows: Table, snapshots: set<Snapshot>, history: map<JobId, seq<Mark>>)

  const EMPTY := State(map[], {}, map[])

  datatype Step =
    | Create(job: JobId, row: Row)
    | Edit(job: JobId, patch: Patch)
    | Look(runner: RunnerId, job: JobId)
    | Recover(seen: Snapshot, now: int, defaultBound: int)
    | Promote(seen: Snapshot, now: int)
    | Claim(seen: Snapshot, now: int)
    | Finish(seen: Snapshot, run: JobRun)
    | Release(runner: RunnerId, job: JobId)

  /** The branch conditions of the code, evaluated on the snapshot it acts on. */
  predicate Enabled(s: State, step: Step) {
    match step
    case Create(job, row) => job !in s.rows && Creatable(row)
    case Edit(_, patch) => ClientWritable(patch)
    case Look(_, job) => job in s.rows
    case Recover(seen, now, defaultBound) => seen in s.snapshots && Stale(seen.row, now, defaultBound)
    case Promote(seen, now) => seen in s.snapshots && Due(seen.row, now)
    case Claim(seen, _) => seen in s.snapshots && seen.row.status == PENDING
    case Finish(seen, _) => seen in s.snapshots
    case Release(_, _) => true
  }

  function Write(s: State, job: JobId, patch: Patch, gate: Gate, marks: seq<Mark>): State {
    if Reaches(s.rows, job, gate) then
      s.(rows := Written(s.rows, job, patch, gate),
         history := s.history[job := (if job in s.history then s.history[job] else []) + marks])
    else s
  }

  function Apply(s: State, step: Step): State {
    match step
    case Create(job, row) => s.(rows := s.rows[job := row], history := s.history[job := []])
    case Edit(job, patch) =>
      var ends := job in s.rows && s.rows[job].status == RUNNING && patch.status.Some?;
      Write(s, job, patch, Always, if ends then [Ended(s.rows[job].claimedBy)] else [])
    case Look(runner, job) =>
      if job in s.rows then s.(snapshots := s.snapshots + {Snapshot(runner, job, s.rows[job])}) else s
    case Recover(seen, _, _) =>
      Write(s, seen.job, RecoverPatch(seen.row), HeldBy(seen.row.claimedBy), [Ended(seen.row.claimedBy)])
    case Promote(seen, _) => Write(s, seen.job, PROMOTE_PATCH, StatusIs(SCHEDULED), [])
    case Claim(seen, now) =>
      Write(s, seen.job, ClaimPatch(seen.row, seen.runner, now), StatusIs(PENDING), [Won(seen.runner, now)])
    case Finish(seen, run) =>
      Write(s, seen.job, FinishPatch(seen.row, run), HeldBy(Some(seen.runner)), [Ended(Some(seen.runner))])
    case Release(runner, job) =>
      Write(s, job, RELEASE_PATCH, HeldBy(Some(runner)), [Ended(Some(runner))])
  }

  ghost predicate Allowed(s: State, steps: seq<Step>)
    decreases steps
  {
    steps != [] ==> Enabled(s, steps[0]) && Allowed(Apply(s, steps[0]), steps[1..])
  }

  function After(s: State, steps: seq<Step>): State
    decreases steps
  {
    if steps == [] then s else After(Apply(s, steps[0]), steps[1..])
  }

  // ----- What a step writes, field by field -----

  /**
   Where the stored row passes the writer's condition, it becomes what the writer made of the
   row it saw; every other row, and every row in any other case, stays.
   */
  lemma RunnerStepExactly(s: State, step: Step)
    requires Enabled(s, step)
    ensures var rows := Apply(s, step).rows;
            match step
            case Recover(seen, _, _) =>
              rows == if seen.job !in s.rows || !Passes(HeldBy(seen.row.claimedBy), s.rows[seen.job]) then s.rows
                      else if seen.row.attempts < seen.row.maxAttempts then
                        s.rows[seen.job := s.rows[seen.job].(
                          status := PENDING, claimedBy := None, claimedAt := None,
                          detail := Some("recovered stale claim"))]
                      else
                        s.rows[seen.job := s.rows[seen.job].(
                          status := ERROR, claimedBy := None, claimedAt := None,
                          detail := Some("stale claim; attempts exhausted"))]
            case Promote(seen, _) =>
              rows == if seen.job in s.rows && s.rows[seen.job].status == SCHEDULED
                      then s.rows[seen.job := s.rows[seen.job].(status := PENDING)] else s.rows
            case Claim(seen, now) =>
              rows == if seen.job in s.rows && s.rows[seen.job].status == PENDING
                      then s.rows[seen.job := s.rows[seen.job].(
                             status := RUNNING, claimedBy := Some(seen.runner), claimedAt := Some(now),
                             attempts := seen.row.attempts + 1)]
                      else s.rows
            case Finish(seen, run) =>
              rows == if seen.job !in s.rows || !Passes(HeldBy(Some(seen.runner)), s.rows[seen.job]) then s.rows
                      else s.rows[seen.job := FinishedRow(s.rows[seen.job], seen.row, run)]
            case Release(runner, job) =>
              rows == if job in s.rows then s.rows[job := ReleasedRow(s.rows[job], runner)] else s.rows
            case Look(_, _) => rows == s.rows
            case _ => true
  {
    match step
    case Release(runner, job) =>
      if job in s.rows {
        RunnerWritesExactly(s.rows[job], runner, 0, 0);
      }
    case Finish(seen, run) =>
      if seen.job in s.rows {
        FinishedRowExactly(s.rows[seen.job], seen.row, run);
      }
    case _ =>
  }

  /** And a client's: a create adds its row, an edit writes what it supplies to a row that is not terminal. */
  lemma ClientStepExactly(s: State, step: Step)
    requires Enabled(s, step)
    ensures step.Create? ==> step.job !in s.rows && Apply(s, step).rows == s.rows[step.job := step.row]
    ensures step.Edit? && step.job in s.rows && !Terminal(s.rows[step.job].status) ==>
              var rows := Apply(s, step).rows;
              && rows.Keys == s.rows.Keys && WritesOnly(s.rows[step.job], rows[step.job], step.patch)
              && forall other :: other in s.rows && other != step.job ==> rows[other] == s.rows[other]
    ensures step.Edit? && (step.job !in s.rows || Terminal(s.rows[step.job].status)) ==> Apply(s, step) == s
  {
    if step.Edit? {
      WrittenExactly(s.rows, step.job, step.patch, Always);
    }
  }

  /** A runner may act on whatever it has read, however long ago, as the row it read allows; anyone may read. */
  lemma RunnerMayExactly(s: State, seen: Snapshot, now: int, defaultBound: int, run: JobRun)
    requires seen in s.snapshots
    ensures Enabled(s, Recover(seen, now, defaultBound)) <==> Overran(seen.row, now, defaultBound)
    ensures Enabled(s, Promote(seen, now)) <==> PromotedRow(seen.row, now) != seen.row
    ensures Enabled(s, Claim(seen, now)) <==> seen.row.status == PENDING
    ensures Enabled(s, Finish(seen, run)) && Enabled(s, Release(seen.runner, seen.job))
    ensures seen.job in s.rows ==>
              && Enabled(s, Look(seen.runner, seen.job))
              && Apply(s, Look(seen.runner, seen.job)).snapshots
                 == s.snapshots + {Snapshot(seen.runner, seen.job, s.rows[seen.job])}
  {
    RunnerWritesExactly(seen.row, seen.runner, now, defaultBound);
  }

  /**
   A client may create any row that is not running, held or attempted, and may write any status
   but a runner's and every field but a runner's; nothing else.
   */
  lemma ClientMayExactly(s: State, job: JobId, row: Row, patch: Patch)
    ensures row.status != RUNNING && row.claimedBy == row.claimedAt == None && row.attempts == 0 && job !in s.rows
       <==> Enabled(s, Create(job, row))
    ensures Enabled(s, Edit(job, patch)) <==>
              patch in {patch.(status := None), patch.(status := Some(PENDING)), patch.(status := Some(SCHEDULED)),
                        patch.(status := Some(CANCELLED))}
              && patch == patch.(claimedBy := None, claimedAt := None, attempts := None)
  {
  }

  // ----- Terminal rows are frozen -----

  lemma TerminalStep(s: State, step: Step, job: JobId)
    requires Enabled(s, step) && job in s.rows && Terminal(s.rows[job].status)
    ensures job in Apply(s, step).rows && Apply(s, step).rows[job] == s.rows[job]
  {
  }

  /**
   Once a row is terminal no run of clients and runners changes any of its fields, so a
   job records at most one terminal outcome.
   */
  lemma {:induction false} TerminalFrozen(s: State, steps: seq<Step>, job: JobId)
    requires Allowed(s, steps) && job in s.rows && Terminal(s.rows[job].status)
    ensures job in After(s, steps).rows && After(s, steps).rows[job] == s.rows[job]
    decreases steps
  {
    if steps != [] {
      TerminalStep(s, steps[0], job);
      TerminalFrozen(Apply(s, steps[0]), steps[1..], job);
    }
  }

  // ----- Claims and their ends alternate -----

  predicate Fits(h: seq<Mark>, i: nat)
    requires i < |h|
  {
    if i % 2 == 0 then h[i].Won? else h[i - 1].Won? && h[i] == Ended(Some(h[i - 1].runner))
  }

  /** Wins and ends alternate, and each end ends the win before it. */
  ghost predicate Alternates(h: seq<Mark>) {
    forall i :: 0 <= i < |h| ==> Fits(h, i)
  }

  /** A running row is held by the last winner, since the moment it won. */
  ghost predicate JobConsistent(row: Row, h: seq<Mark>) {
    && Alternates(h)
    && (row.status == RUNNING <==> |h| % 2 == 1)
    && (row.status == RUNNING ==>
          && h[|h| - 1].Won?
          && row.claimedBy == Some(h[|h| - 1].runner) && row.claimedAt == Some(h[|h| - 1].at))
  }

  /** Snapshots are of stored jobs, and those of terminal rows are still current. */
  ghost predicate SnapshotsConsistent(s: State) {
    forall seen :: seen in s.snapshots ==>
      seen.job in s.rows && (Terminal(seen.row.status) ==> s.rows[seen.job] == seen.row)
  }

  ghost predicate Invariant(s: State) {
    && s.history.Keys == s.rows.Keys
    && (forall job :: job in s.rows ==> JobConsistent(s.rows[job], s.history[job]))
    && SnapshotsConsistent(s)
  }

  lemma MarkKeepsAlternating(h: seq<Mark>, mark: Mark)
    requires Alternates(h)
    requires if |h| % 2 == 0 then mark.Won? else h[|h| - 1].Won? && mark == Ended(Some(h[|h| - 1].runner))
    ensures Alternates(h + [mark])
  {
    var longer := h + [mark];
    forall i | 0 <= i < |longer| ensures Fits(longer, i) {
      assert i < |h| ==> Fits(h, i);
    }
  }

  lemma MarkKeepsConsistent(row: Row, h: seq<Mark>, after: Row, mark: Mark)
    requires JobConsistent(row, h)
    requires if row.status == RUNNING then mark == Ended(row.claimedBy) && after.status != RUNNING
             else && mark.Won? && after.status == RUNNING
                  && after.claimedBy == Some(mark.runner) && after.claimedAt == Some(mark.at)
    ensures JobConsistent(after, h + [mark])
  {
    MarkKeepsAlternating(h, mark);
  }

  lemma SnapshotsStep(s: State, step: Step)
    requires SnapshotsConsistent(s) && Enabled(s, step)
    ensures SnapshotsConsistent(Apply(s, step))
  {
  }

  lemma InvariantStep(s: State, step: Step)
    requires Invariant(s) && Enabled(s, step)
    ensures Invariant(Apply(s, step))
  {
    var next := Apply(s, step);
    SnapshotsStep(s, step);
    if !step.Create? && !step.Look? {
      var job := if step.Edit? || step.Release? then step.job else step.seen.job;
      if next != s && job in s.rows {
        JobConsistentAfter(s, step, job);
      }
    }
  }

  lemma JobConsistentAfter(s: State, step: Step, job: JobId)
    requires Invariant(s) && Enabled(s, step) && job in s.rows
    requires !step.Create? && !step.Look?
    requires job == if step.Edit? || step.Release? then step.job else step.seen.job
    ensures job in Apply(s, step).rows && job in Apply(s, step).history
    ensures JobConsistent(Apply(s, step).rows[job], Apply(s, step).history[job])
  {
    var row, h := s.rows[job], s.history[job];
    var next := Apply(s, step);
    if next.history[job] == h + [] {
      assert h + [] == h;
    } else {
      MarkKeepsConsistent(row, h, next.rows[job], next.history[job][|h|]);
      assert next.history[job] == h + [next.history[job][|h|]];
    }
  }

  lemma {:induction false} InvariantAlways(s: State, steps: seq<Step>)
    requires Invariant(s) && Allowed(s, steps)
    ensures Invariant(After(s, steps))
    decreases steps
  {
    if steps != [] {
      InvariantStep(s, steps[0]);
      InvariantAlways(Apply(s, steps[0]), steps[1..]);
    }
  }

  /**
   Claim ownership over every interleaving: each job's claims and claim ends alternate,
   so every PENDING period is won at most once; a running row is held by its last winner.
   */
  lemma ClaimOwnership(steps: seq<Step>, job: JobId)
    requires Allowed(EMPTY, steps) && job in After(EMPTY, steps).rows
    ensures job in After(EMPTY, steps).history
    ensures JobConsistent(After(EMPTY, steps).rows[job], After(EMPTY, steps).history[job])
  {
    InvariantAlways(EMPTY, steps);
  }

  /** A finish or a release reaches only a row its own runner holds. */
  lemma OnlyTheHolderWrites(s: State, step: Step, job: JobId)
    requires step.Finish? || step.Release?
    requires Enabled(s, step) && job in s.rows
    requires job !in Apply(s, step).rows || Apply(s, step).rows[job] != s.rows[job]
    ensures s.rows[job].status == RUNNING
    ensures s.rows[job].claimedBy == Some(if step.Finish? then step.seen.runner else step.runner)
    ensures Apply(s, step).rows[job].status != RUNNING
  {
  }

  // ----- What the attempt counter counts -----

  /** The step is a claim of this job that applies. */
  predicate Wins(s: State, step: Step, job: JobId) {
    step.Claim? && step.seen.job == job && job in s.rows && s.rows[job].status == PENDING
  }

  /** Attempts fall exactly at a claim that applies and acts on a row read at least two attempts ago. */
  lemma AttemptsFallExactly(s: State, step: Step, job: JobId)
    requires Enabled(s, step) && job in s.rows
    ensures job in Apply(s, step).rows
    ensures Apply(s, step).rows[job].attempts < s.rows[job].attempts
       <==> Wins(s, step, job) && step.seen.row.attempts + 1 < s.rows[job].attempts
    ensures Apply(s, step).rows[job].attempts != s.rows[job].attempts ==> Wins(s, step, job)
  {
  }

  function WonMarks(h: seq<Mark>): nat {
    if h == [] then 0 else WonMarks(h[..|h| - 1]) + if h[|h| - 1].Won? then 1 else 0
  }

  /** The row's attempts are the claims that have won it. */
  ghost predicate Counted(s: State, job: JobId) {
    job in s.rows ==> job in s.history && s.rows[job].attempts == WonMarks(s.history[job])
  }

  /** At every moment of the run. */
  ghost predicate CountedThroughout(s: State, steps: seq<Step>, job: JobId)
    decreases steps
  {
    Counted(s, job) && (steps != [] ==> CountedThroughout(Apply(s, steps[0]), steps[1..], job))
  }

  /** Every claim that applies acts on a row read with the attempts it still has. */
  ghost predicate ClaimsAreCurrent(s: State, steps: seq<Step>, job: JobId)
    decreases steps
  {
    steps != [] ==>
      && (Wins(s, steps[0], job) ==> steps[0].seen.row.attempts == s.rows[job].attempts)
      && ClaimsAreCurrent(Apply(s, steps[0]), steps[1..], job)
  }

  /** A step that wins sets the attempts anew; no other changes them. */
  lemma AttemptsStep(s: State, step: Step, job: JobId)
    requires Enabled(s, step) && job in s.rows
    ensures job in Apply(s, step).rows
    ensures Apply(s, step).rows[job].attempts
         == if Wins(s, step, job) then step.seen.row.attempts + 1 else s.rows[job].attempts
  {
  }

  /** Whatever a step appends to a job's history, it is one mark at most, and a win exactly if the step wins. */
  lemma MarksStep(s: State, step: Step, job: JobId)
    requires Enabled(s, step) && s.history.Keys == s.rows.Keys && job in s.rows
    ensures job in Apply(s, step).history
    ensures var h, next := s.history[job], Apply(s, step).history[job];
            if Wins(s, step, job) then |next| == |h| + 1 && next[..|h|] == h && next[|h|].Won?
            else next == h || (|next| == |h| + 1 && next[..|h|] == h && !next[|h|].Won?)
  {
    assert s.history[job] + [] == s.history[job];
  }

  lemma KeysStep(s: State, step: Step)
    requires Enabled(s, step) && s.history.Keys == s.rows.Keys
    ensures Apply(s, step).history.Keys == Apply(s, step).rows.Keys
  {
  }

  lemma CountedStep(s: State, step: Step, job: JobId)
    requires Enabled(s, step) && s.history.Keys == s.rows.Keys && Counted(s, job)
    ensures Apply(s, step).history.Keys == Apply(s, step).rows.Keys
    ensures Counted(Apply(s, step), job) <==> (Wins(s, step, job) ==> step.seen.row.attempts == s.rows[job].attempts)
  {
    KeysStep(s, step);
    if job in s.rows {
      AttemptsStep(s, step, job);
      MarksStep(s, step, job);
    }
  }

  lemma {:induction false} CountedFrom(s: State, steps: seq<Step>, job: JobId)
    requires Allowed(s, steps) && s.history.Keys == s.rows.Keys && Counted(s, job)
    ensures CountedThroughout(s, steps, job) <==> ClaimsAreCurrent(s, steps, job)
    decreases steps
  {
    if steps != [] {
      CountedStep(s, steps[0], job);
      if Counted(Apply(s, steps[0]), job) {
        CountedFrom(Apply(s, steps[0]), steps[1..], job);
      }
    }
  }

  /** Attempts count a job's wins all along a run exactly when no claim of it acts on stale attempts. */
  lemma AttemptsCountWinsExactly(steps: seq<Step>, job: JobId)
    requires Allowed(EMPTY, steps)
    ensures CountedThroughout(EMPTY, steps, job) <==> ClaimsAreCurrent(EMPTY, steps, job)
    ensures ClaimsAreCurrent(EMPTY, steps, job) ==> Counted(After(EMPTY, steps), job)
  {
    CountedFrom(EMPTY, steps, job);
    if ClaimsAreCurrent(EMPTY, steps, job) {
      CountedAtEnd(EMPTY, steps, job);
    }
  }

  lemma {:induction false} CountedAtEnd(s: State, steps: seq<Step>, job: JobId)
    requires CountedThroughout(s, steps, job)
    ensures Counted(After(s, steps), job)
    decreases steps
  {
    if steps != [] {
      CountedAtEnd(Apply(s, steps[0]), steps[1..], job);
    }
  }

  /** A run can be extended by any step its final state enables. */
  lemma {:induction false} Extended(s: State, steps: seq<Step>, step: Step) returns (longer: seq<Step>)
    requires Allowed(s, steps) && Enabled(After(s, steps), step)
    ensures Allowed(s, longer) && After(s, longer) == Apply(After(s, steps), step)
    decreases steps
  {
    if steps == [] {
      longer := [step];
      assert longer[1..] == [];
    } else {
      var rest := Extended(Apply(s, steps[0]), steps[1..], step);
      longer := [steps[0]] + rest;
      assert longer[1..] == rest;
    }
  }

  const JOB := JobId(7)

  lemma ClaimedAndFailed(steps: seq<Step>, runner: RunnerId, job: JobId, at: int) returns (longer: seq<Step>)
    requires Allowed(EMPTY, steps)
    requires var s := After(EMPTY, steps);
             job in s.rows && s.rows[job].status == PENDING && s.rows[job].attempts + 1 < s.rows[job].maxAttempts
    ensures Allowed(EMPTY, longer)
    ensures var s, t := After(EMPTY, steps), After(EMPTY, longer);
            && job in t.rows && t.rows[job].status == PENDING && s.snapshots <= t.snapshots
            && t.rows[job].attempts == s.rows[job].attempts + 1
            && t.rows[job].maxAttempts == s.rows[job].maxAttempts
  {
    var row := After(EMPTY, steps).rows[job];
    longer := Extended(EMPTY, steps, Look(runner, job));
    longer := Extended(EMPTY, longer, Claim(Snapshot(runner, job, row), at));
    var claimed := After(EMPTY, longer).rows[job];
    longer := Extended(EMPTY, longer, Look(runner, job));
    longer := Extended(EMPTY, longer, Finish(Snapshot(runner, job, claimed), JobRun(true, None)));
  }

  /**
   An instance in which the counter falls: runner 1 reads a new row, runner 2 claims it twice and fails it twice, and
   then runner 1's claim takes the counter from two back to one.
   */
  lemma StaleClaimLowersAttempts() returns (steps: seq<Step>, last: Step)
    ensures Allowed(EMPTY, steps) && Enabled(After(EMPTY, steps), last)
    ensures JOB in After(EMPTY, steps).rows && JOB in Apply(After(EMPTY, steps), last).rows
    ensures After(EMPTY, steps).rows[JOB].attempts == 2
    ensures Apply(After(EMPTY, steps), last).rows[JOB].attempts == 1
  {
    var initial := Row(PENDING, None, None, None, None, 0, 3, None);
    steps := Extended(EMPTY, [], Create(JOB, initial));
    steps := Extended(EMPTY, steps, Look(1, JOB));
    steps := ClaimedAndFailed(steps, 2, JOB, 10);
    steps := ClaimedAndFailed(steps, 2, JOB, 20);
    last := Claim(Snapshot(1, JOB, initial), 30);
  }
}
