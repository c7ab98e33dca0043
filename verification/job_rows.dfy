/** The durable jobs table: rows, conditional updates and the writes a runner makes. */
module JobRows {
  import opened Wrappers
  import opened Values
  import opened Filters

  datatype Status = PENDING | SCHEDULED | RUNNING | COMPLETED | ERROR | CANCELLED

  predicate Terminal(status: Status) {
    status.COMPLETED? || status.ERROR? || status.CANCELLED?
  }

  /** Identifiers are ordered by their rank. */
  datatype JobId = JobId(rank: int)
  type RunnerId = int

  /** Times and bounds are seconds on one clock. */
  datatype Row = Row(
    status: Status,
    detail: Option<string>,
    runAt: Option<int>,
    claimedBy: Option<RunnerId>,
    claimedAt: Option<int>,
    attempts: int,
    maxAttempts: int,
    maxSeconds: Option<int>)

  type Table = map<JobId, Row>

  /** An update payload: only the supplied fields are written. */
  datatype Patch = Patch(
    status: Option<Status>,
    detail: Option<Option<string>>,
    runAt: Option<Option<int>>,
    claimedBy: Option<Option<RunnerId>>,
    claimedAt: Option<Option<int>>,
    attempts: Option<int>,
    maxAttempts: Option<int>,
    maxSeconds: Option<Option<int>>)

  const NOTHING := Patch(None, None, None, None, None, None, None, None)

  function Or<T>(supplied: Option<T>, stored: T): T {
    if supplied.Some? then supplied.value else stored
  }

  function Patched(row: Row, patch: Patch): Row {
    Row(Or(patch.status, row.status), Or(patch.detail, row.detail), Or(patch.runAt, row.runAt),
        Or(patch.claimedBy, row.claimedBy), Or(patch.claimedAt, row.claimedAt),
        Or(patch.attempts, row.attempts), Or(patch.maxAttempts, row.maxAttempts),
        Or(patch.maxSeconds, row.maxSeconds))
  }

  // ----- Conditions -----

  /** The conditions a writer attaches to an update. */
  datatype Gate = Always | StatusIs(status: Status) | HeldBy(runner: Option<RunnerId>)

  predicate Passes(gate: Gate, row: Row) {
    match gate
    case Always => true
    case StatusIs(status) => row.status == status
    case HeldBy(runner) => row.status == RUNNING && row.claimedBy == runner
  }

  function StatusText(status: Status): Value {
    match status
    case PENDING => Str("PENDING")
    case SCHEDULED => Str("SCHEDULED")
    case RUNNING => Str("RUNNING")
    case COMPLETED => Str("COMPLETED")
    case ERROR => Str("ERROR")
    case CANCELLED => Str("CANCELLED")
  }

  function HolderValue(runner: Option<RunnerId>): Value {
    if runner.None? then Null else Num(runner.value)
  }

  /** A row as a filter sees it. */
  function AttributesOf(row: Row): Subject {
    Object(map["status" := StatusText(row.status), "claimed_by" := HolderValue(row.claimedBy)])
  }

  function StatusFilter(status: Status): Filter {
    Attr("status", On(Eq(StatusText(status))))
  }

  function HolderFilter(runner: Option<RunnerId>): Filter {
    Attr("claimed_by", On(Eq(HolderValue(runner))))
  }

  function GateFilter(gate: Gate): Option<Filter> {
    match gate
    case Always => None
    case StatusIs(status) => Some(StatusFilter(status))
    case HeldBy(runner) => Some(AndOf([StatusFilter(RUNNING), HolderFilter(runner)]))
  }

  const NOT_TERMINAL: Filter :=
    NotOf(OrOf([StatusFilter(COMPLETED), StatusFilter(ERROR), StatusFilter(CANCELLED)]))

  /** JobsService.update folds "not terminal" into the caller's condition. */
  function GuardedFilter(condition: Option<Filter>): Filter {
    if condition.None? then NOT_TERMINAL else AndOf([NOT_TERMINAL, condition.value])
  }

  lemma BothHold(a: Filter, b: Filter, subject: Subject)
    ensures Holds(AndOf([a, b]), subject) <==> Holds(a, subject) && Holds(b, subject)
  {
    var both := [a, b];
    assert both[0] in both && both[1] in both;
    AndOfMeaning(both, subject);
  }

  lemma StatusFilterMeaning(row: Row, status: Status)
    ensures Holds(StatusFilter(status), AttributesOf(row)) <==> row.status == status
  {
  }

  lemma HolderFilterMeaning(runner: Option<RunnerId>, row: Row)
    ensures Holds(HolderFilter(runner), AttributesOf(row)) <==> row.claimedBy == runner
  {
  }

  lemma NoneOfThree(a: Filter, b: Filter, c: Filter, subject: Subject)
    ensures Holds(NotOf(OrOf([a, b, c])), subject)
       <==> !(Holds(a, subject) || Holds(b, subject) || Holds(c, subject))
  {
    var all := [a, b, c];
    assert all[0] in all && all[1] in all && all[2] in all;
    OrOfMeaning(all, subject);
    NotOfMeaning(OrOf(all), "", subject);
  }

  lemma NotTerminalMeaning(row: Row)
    ensures Holds(NOT_TERMINAL, AttributesOf(row)) <==> !Terminal(row.status)
  {
    NoneOfThree(StatusFilter(COMPLETED), StatusFilter(ERROR), StatusFilter(CANCELLED), AttributesOf(row));
    StatusFilterMeaning(row, COMPLETED);
    StatusFilterMeaning(row, ERROR);
    StatusFilterMeaning(row, CANCELLED);
  }

  lemma GateFilterMeaning(gate: Gate, row: Row)
    requires !gate.Always?
    ensures Holds(GateFilter(gate).value, AttributesOf(row)) <==> Passes(gate, row)
  {
    if gate.HeldBy? {
      HolderFilterMeaning(gate.runner, row);
      StatusFilterMeaning(row, RUNNING);
      BothHold(StatusFilter(RUNNING), HolderFilter(gate.runner), AttributesOf(row));
    } else {
      StatusFilterMeaning(row, gate.status);
    }
  }

  /** The filter a guarded update carries admits exactly the non-terminal rows that pass its gate. */
  lemma GuardedFilterMeaning(gate: Gate, row: Row)
    ensures Holds(GuardedFilter(GateFilter(gate)), AttributesOf(row)) <==> !Terminal(row.status) && Passes(gate, row)
  {
    NotTerminalMeaning(row);
    if !gate.Always? {
      GateFilterMeaning(gate, row);
      BothHold(NOT_TERMINAL, GateFilter(gate).value, AttributesOf(row));
    }
  }

  /** The terminal guard, atomic with the write: whether an update reaches the row. */
  predicate Reaches(rows: Table, id: JobId, gate: Gate) {
    id in rows && !Terminal(rows[id].status) && Passes(gate, rows[id])
  }

  /** JobsService.update. */
  function Written(rows: Table, id: JobId, patch: Patch, gate: Gate): Table {
    if Reaches(rows, id, gate) then rows[id := Patched(rows[id], patch)] else rows
  }

  /** The row after an update holds what was supplied, and what it held where nothing was. */
  ghost predicate WritesOnly(before: Row, after: Row, patch: Patch) {
    && (if patch.status.Some? then after.status == patch.status.value else after.status == before.status)
    && (if patch.detail.Some? then after.detail == patch.detail.value else after.detail == before.detail)
    && (if patch.runAt.Some? then after.runAt == patch.runAt.value else after.runAt == before.runAt)
    && (if patch.claimedBy.Some? then after.claimedBy == patch.claimedBy.value else after.claimedBy == before.claimedBy)
    && (if patch.claimedAt.Some? then after.claimedAt == patch.claimedAt.value else after.claimedAt == before.claimedAt)
    && (if patch.attempts.Some? then after.attempts == patch.attempts.value else after.attempts == before.attempts)
    && (if patch.maxAttempts.Some? then after.maxAttempts == patch.maxAttempts.value
        else after.maxAttempts == before.maxAttempts)
    && (if patch.maxSeconds.Some? then after.maxSeconds == patch.maxSeconds.value
        else after.maxSeconds == before.maxSeconds)
  }

  /** An update that does not apply changes nothing; one that does changes its own row only, by what it supplies. */
  lemma WrittenExactly(rows: Table, id: JobId, patch: Patch, gate: Gate)
    ensures var after := Written(rows, id, patch, gate);
            && after.Keys == rows.Keys
            && (forall other :: other in rows && other != id ==> after[other] == rows[other])
            && (id in rows && !Terminal(rows[id].status) && Passes(gate, rows[id]) ==>
                  WritesOnly(rows[id], after[id], patch))
            && (id !in rows || Terminal(rows[id].status) || !Passes(gate, rows[id]) ==> after == rows)
  {
  }

  // ----- The writes of a runner -----

  /** The age past which a claim is stale: the job's own, or the runner's default. */
  function BoundOf(row: Row, defaultBound: int): int {
    Or(row.maxSeconds, defaultBound)
  }

  predicate Stale(row: Row, now: int, defaultBound: int) {
    row.status == RUNNING && row.claimedAt.Some? && now - row.claimedAt.value > BoundOf(row, defaultBound)
  }

  predicate Due(row: Row, now: int) {
    row.status == SCHEDULED && (row.runAt.Some? ==> row.runAt.value <= now)
  }

  function Requeue(detail: Option<Option<string>>): Patch {
    NOTHING.(status := Some(PENDING), claimedBy := Some(None), claimedAt := Some(None), detail := detail)
  }

  function RecoverPatch(seen: Row): Patch {
    if seen.attempts < seen.maxAttempts then Requeue(Some(Some("recovered stale claim")))
    else Requeue(Some(Some("stale claim; attempts exhausted"))).(status := Some(ERROR))
  }

  const PROMOTE_PATCH := NOTHING.(status := Some(PENDING))

  function ClaimPatch(seen: Row, runner: RunnerId, now: int): Patch {
    NOTHING.(status := Some(RUNNING), claimedBy := Some(Some(runner)), claimedAt := Some(Some(now)),
             attempts := Some(seen.attempts + 1))
  }

  /** What a body reports: the outcomes are COMPLETED and ERROR. */
  datatype JobRun = JobRun(failed: bool, detail: Option<string>)

  function FinishPatch(loaded: Row, run: JobRun): Patch {
    if run.failed && loaded.attempts < loaded.maxAttempts then Requeue(Some(run.detail))
    else NOTHING.(status := Some(if run.failed then ERROR else COMPLETED), detail := Some(run.detail))
  }

  const RELEASE_PATCH := Requeue(None)

  // ----- What those writes make of a row, field by field -----

  /** The seconds a claim may last: the job's own bound when it has one, and the runner's otherwise. */
  ghost predicate Overran(row: Row, now: int, defaultBound: int) {
    && row.status == RUNNING && row.claimedAt.Some?
    && now - row.claimedAt.value > match row.maxSeconds case Some(own) => own case None => defaultBound
  }

  /** A claim that overran its bound is pending again below the attempt cap, and an error at it; unheld either way. */
  ghost function RecoveredRow(row: Row, now: int, defaultBound: int): Row {
    if !Overran(row, now, defaultBound) then row
    else if row.attempts < row.maxAttempts then
      row.(status := PENDING, claimedBy := None, claimedAt := None, detail := Some("recovered stale claim"))
    else
      row.(status := ERROR, claimedBy := None, claimedAt := None, detail := Some("stale claim; attempts exhausted"))
  }

  /** A scheduled row whose moment has come, or that names none, is pending; one for later is as it was. */
  ghost function PromotedRow(row: Row, now: int): Row {
    match row.runAt
    case Some(t) => if row.status == SCHEDULED && t <= now then row.(status := PENDING) else row
    case None => if row.status == SCHEDULED then row.(status := PENDING) else row
  }

  ghost function ClaimedRow(row: Row, runner: RunnerId, now: int): Row {
    row.(status := RUNNING, claimedBy := Some(runner), claimedAt := Some(now), attempts := row.attempts + 1)
  }

  /** A row this runner still holds is given back; any other stays. */
  ghost function ReleasedRow(row: Row, runner: RunnerId): Row {
    if row.status == RUNNING && row.claimedBy == Some(runner)
    then row.(status := PENDING, claimedBy := None, claimedAt := None) else row
  }

  /** How a body ends: a success completes; a failure requeues unheld below the cap it loaded, and is an error at it. */
  ghost function FinishedRow(row: Row, loaded: Row, run: JobRun): Row {
    if !run.failed then row.(status := COMPLETED, detail := run.detail)
    else if loaded.attempts >= loaded.maxAttempts then row.(status := ERROR, detail := run.detail)
    else row.(status := PENDING, detail := run.detail, claimedBy := None, claimedAt := None)
  }

  lemma FinishedRowExactly(row: Row, loaded: Row, run: JobRun)
    ensures Patched(row, FinishPatch(loaded, run)) == FinishedRow(row, loaded, run)
  {
  }

  /** The conditions and patches of the runner do that to a row, and nothing to others. */
  lemma RunnerWritesExactly(row: Row, runner: RunnerId, now: int, defaultBound: int)
    ensures RecoveredRow(row, now, defaultBound)
         == if Stale(row, now, defaultBound) then Patched(row, RecoverPatch(row)) else row
    ensures PromotedRow(row, now) == if Due(row, now) then Patched(row, PROMOTE_PATCH) else row
    ensures ClaimedRow(row, runner, now) == Patched(row, ClaimPatch(row, runner, now))
    ensures ReleasedRow(row, runner)
         == if Passes(HeldBy(Some(runner)), row) then Patched(row, RELEASE_PATCH) else row
    ensures Stale(row, now, defaultBound) <==> Overran(row, now, defaultBound)
  {
  }

  // ----- The writes of a client -----

  /** The fields and statuses the exposed view lets a client write. */
  predicate ClientWritable(patch: Patch) {
    && patch.claimedBy.None? && patch.claimedAt.None? && patch.attempts.None?
    && (patch.status.Some? ==> patch.status.value in {PENDING, SCHEDULED, CANCELLED})
  }

  /** A row as it is created: unclaimed, never attempted, and not RUNNING. */
  predicate Creatable(row: Row) {
    row.status != RUNNING && row.claimedBy.None? && row.claimedAt.None? && row.attempts == 0
  }
}
