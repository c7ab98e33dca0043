/** The job runner: one sweep over the table, and the life of its in-flight bodies. */
module JobRunners {
  import opened Wrappers
  import opened JobRows

  /** A row as a search returned it. */
  datatype Found = Found(id: JobId, row: Row)

  /** A launched body. */
  datatype Task = Task(number: nat)

  /** How many rows one internal enumeration pages through per request. */
  const ENUMERATE_PAGE := 200

  /** How many claim attempts a sweep makes for each body it may run. */
  const CLAIM_ATTEMPT_FACTOR := 4

  ghost predicate Increasing(items: seq<Found>) {
    forall i, j :: 0 <= i < j < |items| ==> items[i].id.rank < items[j].id.rank
  }

  ghost function IdsOf(items: seq<Found>): set<JobId> {
    set found | found in items :: found.id
  }

  ghost function Matching(rows: Table, status: Status, cursor: Option<JobId>): set<JobId> {
    set id | id in rows && rows[id].status == status && (cursor.Some? ==> cursor.value.rank < id.rank)
  }

  /** The cursor a page would continue from. */
  function Reached(items: seq<Found>, cursor: Option<JobId>): Option<JobId> {
    if items == [] then cursor else Some(items[|items| - 1].id)
  }

  /** Current rows with that status, in identifier order: all of them between two cursors. */
  ghost predicate Gathered(
    items: seq<Found>, rows: Table, status: Status, cursor: Option<JobId>, last: Option<JobId>)
  {
    && Increasing(items)
    && (forall found :: found in items ==> found.id in rows && rows[found.id] == found.row)
    && last == Reached(items, cursor)
    && IdsOf(items) == Matching(rows, status, cursor) - Matching(rows, status, last)
  }

  /** Every row with that status, each once, in identifier order. */
  ghost predicate ListsAll(items: seq<Found>, rows: Table, status: Status) {
    && Increasing(items)
    && (forall found :: found in items ==> found.id in rows && rows[found.id] == found.row)
    && IdsOf(items) == Matching(rows, status, None)
  }

  lemma IdsOfConcat(a: seq<Found>, b: seq<Found>)
    ensures IdsOf(a + b) == IdsOf(a) + IdsOf(b)
  {
  }

  /** A page's ids all lie past the cursor it was asked for, and none past where it ends. */
  lemma GatheredBounds(items: seq<Found>, rows: Table, status: Status, cursor: Option<JobId>, last: Option<JobId>)
    requires Gathered(items, rows, status, cursor, last)
    ensures forall found :: found in items ==> found.id in Matching(rows, status, cursor)
    ensures Matching(rows, status, last) <= Matching(rows, status, cursor)
    ensures items != [] ==> last.value in Matching(rows, status, cursor) - Matching(rows, status, last)
  {
    forall found | found in items
      ensures found.id in Matching(rows, status, cursor)
    {
      assert found.id in IdsOf(items);
    }
    if items != [] {
      assert items[|items| - 1] in items;
    }
  }

  lemma IncreasingConcat(a: seq<Found>, b: seq<Found>)
    requires Increasing(a) && Increasing(b)
    requires a != [] ==> forall found :: found in b ==> a[|a| - 1].id.rank < found.id.rank
    ensures Increasing(a + b)
  {
    forall i, j | 0 <= i < j < |a + b|
      ensures (a + b)[i].id.rank < (a + b)[j].id.rank
    {
      if i < |a| <= j {
        assert b[j - |a|] in b;
        assert a[i].id.rank <= a[|a| - 1].id.rank;
      }
    }
  }

  lemma Telescopes(x: set<JobId>, y: set<JobId>, z: set<JobId>)
    requires z <= y <= x
    ensures (x - y) + (y - z) == x - z
  {
  }

  /** Pages asked for one after the other concatenate into one longer page. */
  lemma GatheredConcat(
    a: seq<Found>, b: seq<Found>, rows: Table, status: Status,
    cursor: Option<JobId>, middle: Option<JobId>, last: Option<JobId>)
    requires Gathered(a, rows, status, cursor, middle)
    requires Gathered(b, rows, status, middle, last)
    ensures Gathered(a + b, rows, status, cursor, last)
  {
    GatheredBounds(a, rows, status, cursor, middle);
    GatheredBounds(b, rows, status, middle, last);
    forall found | found in b && a != []
      ensures a[|a| - 1].id.rank < found.id.rank
    {
      assert found.id in Matching(rows, status, middle);
    }
    IncreasingConcat(a, b);
    IdsOfConcat(a, b);
    Telescopes(Matching(rows, status, cursor), Matching(rows, status, middle), Matching(rows, status, last));
  }

  /** The least matching row past the cursor is a page of one. */
  lemma LeastIsGathered(least: JobId, rows: Table, status: Status, cursor: Option<JobId>)
    requires least in Matching(rows, status, cursor)
    requires forall id :: id in Matching(rows, status, cursor) ==> least.rank <= id.rank
    ensures Gathered([Found(least, rows[least])], rows, status, cursor, Some(least))
  {
    var page := [Found(least, rows[least])];
    assert IdsOf(page) == {least};
    assert Matching(rows, status, Some(least)) == Matching(rows, status, cursor) - {least};
  }

  // ----- The table -----

  class JobTable {
    var rows: Table

    constructor (rows: Table)
      ensures this.rows == rows
    {
      this.rows := rows;
    }

    method Update(id: JobId, patch: Patch, gate: Gate) returns (applied: bool)
      modifies this
      ensures rows == Written(old(rows), id, patch, gate)
      ensures applied <==> id in old(rows) && !Terminal(old(rows)[id].status) && Passes(gate, old(rows)[id])
      ensures !applied ==> rows == old(rows)
      ensures applied ==> id in rows && rows == old(rows)[id := rows[id]] && WritesOnly(old(rows)[id], rows[id], patch)
    {
      WrittenExactly(rows, id, patch, gate);
      applied := Reaches(rows, id, gate);
      rows := Written(rows, id, patch, gate);
    }

    /** The first row of an identifier-ordered search past the cursor. */
    method LeastAfter(status: Status, cursor: Option<JobId>) returns (least: Option<JobId>)
      ensures least.None? ==> Matching(rows, status, cursor) == {}
      ensures least.Some? ==>
                && least.value in Matching(rows, status, cursor)
                && forall id :: id in Matching(rows, status, cursor) ==> least.value.rank <= id.rank
    {
      least := None;
      var ids := rows.Keys;
      ghost var matching := Matching(rows, status, cursor);
      while ids != {}
        invariant ids <= rows.Keys
        invariant least.Some? ==> least.value in matching
        invariant forall id :: id in matching ==> id in ids || (least.Some? && least.value.rank <= id.rank)
        decreases |ids|
      {
        var id :| id in ids;
        ids := ids - {id};
        var past := cursor.Some? ==> cursor.value.rank < id.rank;
        if rows[id].status == status && past && (least.Some? ==> id.rank < least.value.rank) {
          least := Some(id);
        }
      }
    }

    /** One page of the rows with a status, by identifier, past the cursor. */
    method Search(status: Status, cursor: Option<JobId>, limit: nat) returns (items: seq<Found>, next: Option<JobId>)
      requires limit >= 1
      ensures |items| <= limit
      ensures Gathered(items, rows, status, cursor, Reached(items, cursor))
      ensures next.Some? ==> items != [] && next == Reached(items, cursor)
      ensures next.None? ==> Matching(rows, status, Reached(items, cursor)) == {}
    {
      items, next := [], None;
      var last := cursor;
      while |items| < limit
        invariant |items| <= limit
        invariant Gathered(items, rows, status, cursor, last)
      {
        var least := LeastAfter(status, last);
        if least.None? {
          return;
        }
        LeastIsGathered(least.value, rows, status, last);
        var found := Found(least.value, rows[least.value]);
        GatheredConcat(items, [found], rows, status, cursor, last, least);
        items := items + [found];
        last := least;
      }
      var more := LeastAfter(status, last);
      next := if more.Some? then last else None;
    }
  }

  // ----- What the loops of a sweep do to a table -----

  ghost function Recovered(rows: Table, now: int, defaultBound: int): Table {
    map id | id in rows :: RecoveredRow(rows[id], now, defaultBound)
  }

  ghost function Promoted(rows: Table, now: int): Table {
    map id | id in rows :: PromotedRow(rows[id], now)
  }

  ghost function Claimed(rows: Table, ids: set<JobId>, runner: RunnerId, now: int): Table {
    map id | id in rows :: if id in ids then ClaimedRow(rows[id], runner, now) else rows[id]
  }

  ghost function Released(rows: Table, ids: set<JobId>, runner: RunnerId): Table {
    map id | id in rows :: if id in ids then ReleasedRow(rows[id], runner) else rows[id]
  }

  /** The ids are the smallest of the pending ones, and as many as there is room for. */
  ghost predicate Picks(ids: set<JobId>, rows: Table, free: nat) {
    var pending := Matching(rows, PENDING, None);
    SmallestPending(ids, rows) && |ids| == if free < |pending| then free else |pending|
  }

  lemma PendingAfterClaims(rows: Table, ids: set<JobId>, runner: RunnerId, now: int)
    requires ids <= Matching(rows, PENDING, None)
    ensures Matching(Claimed(rows, ids, runner, now), PENDING, None) == Matching(rows, PENDING, None) - ids
  {
  }

  /** The ids are pending ones, and smaller than every pending one left out. */
  ghost predicate SmallestPending(ids: set<JobId>, rows: Table) {
    var pending := Matching(rows, PENDING, None);
    ids <= pending && forall a, b :: a in ids && b in pending - ids ==> a.rank < b.rank
  }

  /** Claiming the first pending row of the table so far extends the claims by the next smallest. */
  lemma ClaimExtends(rows: Table, ids: set<JobId>, job: Found, runner: RunnerId, now: int)
    requires SmallestPending(ids, rows)
    requires Gathered([job], Claimed(rows, ids, runner, now), PENDING, None, Some(job.id))
    ensures job.id in Matching(rows, PENDING, None) - ids
    ensures SmallestPending(ids + {job.id}, rows)
    ensures Reaches(Claimed(rows, ids, runner, now), job.id, StatusIs(PENDING))
    ensures Written(Claimed(rows, ids, runner, now), job.id, ClaimPatch(job.row, runner, now), StatusIs(PENDING))
         == Claimed(rows, ids + {job.id}, runner, now)
  {
    var table := Claimed(rows, ids, runner, now);
    PendingAfterClaims(rows, ids, runner, now);
    GatheredBounds([job], table, PENDING, None, Some(job.id));
    assert job in [job];
    forall b | b in Matching(rows, PENDING, None) - ids - {job.id}
      ensures job.id.rank < b.rank
    {
      assert b !in IdsOf([job]);
    }
  }

  /** A sweep, as a whole: overdue rows first, and then the claims. */
  ghost predicate SweptTo(
    before: Table, after: Table, ids: set<JobId>, free: nat, runner: RunnerId, now: int, defaultBound: int)
  {
    var ready := Promoted(Recovered(before, now, defaultBound), now);
    Picks(ids, ready, free) && after == Claimed(ready, ids, runner, now)
  }

  /** A row as recovery and promotion leave it. */
  ghost function TidiedRow(row: Row, now: int, defaultBound: int): Row {
    PromotedRow(RecoveredRow(row, now, defaultBound), now)
  }

  /**
   By its fields: a schedule for later is as it was and one whose moment has come is pending; a
   claim within its bound is as it was, and one past it is what recovery makes of it, which
   promotion leaves alone; any other row is as it was.
   */
  lemma TidiedRowExactly(row: Row, now: int, defaultBound: int)
    ensures var tidied := TidiedRow(row, now, defaultBound);
            && tidied == (match row.status
                          case SCHEDULED =>
                            if row.runAt.Some? && row.runAt.value > now then row else row.(status := PENDING)
                          case RUNNING => RecoveredRow(row, now, defaultBound)
                          case _ => row)
            && tidied.attempts == row.attempts
            && !Stale(tidied, now, defaultBound) && !Due(tidied, now)
  {
  }

  /**
   What a sweep leaves behind, row by row: a row it did not claim is tidied; a row it claimed is
   one that was pending once tidied, and runs for this runner since now with one more attempt.
   So no stale claim and no due schedule is left over, except where it claimed them itself.
   */
  lemma SweepLeavesNothingOverdue(
    before: Table, after: Table, ids: set<JobId>, free: nat, runner: RunnerId, now: int, defaultBound: int)
    requires SweptTo(before, after, ids, free, runner, now, defaultBound)
    ensures after.Keys == before.Keys && ids <= before.Keys
    ensures forall id :: id in before && id !in ids ==>
              && after[id] == TidiedRow(before[id], now, defaultBound)
              && !Stale(after[id], now, defaultBound) && !Due(after[id], now)
    ensures forall id :: id in ids ==>
              && TidiedRow(before[id], now, defaultBound).status == PENDING
              && after[id] == TidiedRow(before[id], now, defaultBound).(
                   status := RUNNING, claimedBy := Some(runner), claimedAt := Some(now),
                   attempts := before[id].attempts + 1)
  {
    var ready := Promoted(Recovered(before, now, defaultBound), now);
    forall id | id in before
      ensures ready[id] == TidiedRow(before[id], now, defaultBound) && ready[id].attempts == before[id].attempts
      ensures !Stale(ready[id], now, defaultBound) && !Due(ready[id], now)
    {
      TidiedRowExactly(before[id], now, defaultBound);
    }
    forall id | id in ids
      ensures id in ready && ready[id].status == PENDING
    {
      assert id in Matching(ready, PENDING, None);
    }
  }

  /** A schedule for later is not touched by a sweep, and one whose moment has come is not lost. */
  lemma SweepKeepsSchedules(
    before: Table, after: Table, ids: set<JobId>, free: nat, runner: RunnerId, now: int, defaultBound: int, id: JobId)
    requires SweptTo(before, after, ids, free, runner, now, defaultBound)
    requires id in before && before[id].status == SCHEDULED
    ensures id in after
    ensures before[id].runAt.Some? && before[id].runAt.value > now ==> id !in ids && after[id] == before[id]
    ensures before[id].runAt.None? || before[id].runAt.value <= now ==>
              after[id] == if id in ids then ClaimedRow(before[id], runner, now) else before[id].(status := PENDING)
  {
    SweepLeavesNothingOverdue(before, after, ids, free, runner, now, defaultBound);
    TidiedRowExactly(before[id], now, defaultBound);
  }

  /** The claimed rows are the smallest of the pending ones, and only a lack of room leaves any over. */
  lemma SweepClaimsSmallest(
    before: Table, after: Table, ids: set<JobId>, free: nat, runner: RunnerId, now: int, defaultBound: int)
    requires SweptTo(before, after, ids, free, runner, now, defaultBound)
    ensures after.Keys == before.Keys && |ids| <= free
    ensures forall a, b :: a in ids && b in after && after[b].status == PENDING ==> a.rank < b.rank
    ensures forall b :: b in after && after[b].status == PENDING ==> |ids| == free
  {
    var ready := Promoted(Recovered(before, now, defaultBound), now);
    var pending := Matching(ready, PENDING, None);
    PendingAfterClaims(ready, ids, runner, now);
    SubsetSize(ids, pending);
    forall b | b in after && after[b].status == PENDING
      ensures b in pending - ids
    {
      assert b in Matching(after, PENDING, None);
    }
  }

  /** Release touches exactly the rows still held, and gives each back unheld and otherwise as it was. */
  lemma ReleasedExactly(rows: Table, ids: set<JobId>, runner: RunnerId)
    ensures Released(rows, ids, runner).Keys == rows.Keys
    ensures forall id :: id in rows ==>
              Released(rows, ids, runner)[id] ==
              if id in ids && rows[id].status == RUNNING && rows[id].claimedBy == Some(runner)
              then rows[id].(status := PENDING, claimedBy := None, claimedAt := None) else rows[id]
  {
  }

  /** Releasing one more job releases it on top of the others. */
  lemma ReleasedOneMore(rows: Table, ids: set<JobId>, id: JobId, runner: RunnerId)
    ensures Written(Released(rows, ids, runner), id, RELEASE_PATCH, HeldBy(Some(runner)))
         == Released(rows, ids + {id}, runner)
  {
    ReleasedExactly(rows, ids, runner);
    ReleasedExactly(rows, ids + {id}, runner);
  }

  /** The bodies once the claimed jobs are launched, with consecutive tasks. */
  ghost function Started(running: map<Task, JobId>, first: nat, claimed: seq<JobId>): map<Task, JobId> {
    if claimed == [] then running
    else
      var n := |claimed| - 1;
      Started(running, first, claimed[..n])[Task(first + n) := claimed[n]]
  }

  /** Launching touches no earlier body, and runs each claimed job in a body of its own. */
  lemma {:induction false} StartedExactly(running: map<Task, JobId>, first: nat, claimed: seq<JobId>)
    requires forall t :: t in running ==> t.number < first
    ensures forall t :: t in Started(running, first, claimed)
              <==> t in running || first <= t.number < first + |claimed|
    ensures forall t :: t in running ==> Started(running, first, claimed)[t] == running[t]
    ensures forall k :: 0 <= k < |claimed| ==> Started(running, first, claimed)[Task(first + k)] == claimed[k]
  {
    if claimed != [] {
      var n := |claimed| - 1;
      StartedExactly(running, first, claimed[..n]);
      assert forall k :: 0 <= k < n ==> claimed[..n][k] == claimed[k];
    }
  }

  // ----- The runner -----

  class JobRunner {
    const runnerId: RunnerId
    const maxConcurrent: nat
    const defaultBound: int
    const table: JobTable
    var inFlight: set<Task>
    var running: map<Task, JobId>
    var nextTask: nat

    ghost predicate Valid()
      reads this
    {
      inFlight == running.Keys && forall t :: t in inFlight ==> t.number < nextTask
    }

    constructor (runnerId: RunnerId, maxConcurrent: nat, defaultBound: int, table: JobTable)
      ensures Valid() && inFlight == {}
      ensures this.runnerId == runnerId && this.maxConcurrent == maxConcurrent
      ensures this.defaultBound == defaultBound && this.table == table
    {
      this.runnerId, this.maxConcurrent, this.defaultBound, this.table := runnerId, maxConcurrent, defaultBound, table;
      inFlight, running, nextTask := {}, map[], 0;
    }

    /** How many more bodies this runner may start. */
    ghost function Free(): nat
      reads this
    {
      if |inFlight| < maxConcurrent then maxConcurrent - |inFlight| else 0
    }

    /** Every row with a status, paged through the cursor and materialized. */
    method Enumerate(status: Status) returns (items: seq<Found>)
      ensures ListsAll(items, table.rows, status)
    {
      items := [];
      var cursor: Option<JobId> := None;
      while true
        invariant Gathered(items, table.rows, status, None, cursor)
        decreases Matching(table.rows, status, cursor)
      {
        var page, next := table.Search(status, cursor, ENUMERATE_PAGE);
        GatheredConcat(items, page, table.rows, status, None, cursor, Reached(page, cursor));
        GatheredBounds(page, table.rows, status, cursor, Reached(page, cursor));
        items := items + page;
        if next.None? {
          break;
        }
        cursor := next;
      }
    }

    /** Returns stale claims to PENDING, or to ERROR at the attempt cap. */
    method RecoverStale(now: int)
      modifies table
      ensures table.rows == Recovered(old(table.rows), now, defaultBound)
    {
      ghost var before := table.rows;
      var items := Enumerate(RUNNING);
      for i := 0 to |items|
        invariant table.rows.Keys == before.Keys
        invariant forall id :: id in before ==>
                    table.rows[id] == if id in IdsOf(items[..i]) then RecoveredRow(before[id], now, defaultBound)
                                      else before[id]
      {
        var job := items[i];
        IdsOfPrefix(items, i);
        RunnerWritesExactly(job.row, runnerId, now, defaultBound);
        if Stale(job.row, now, defaultBound) {
          var applied := table.Update(job.id, RecoverPatch(job.row), HeldBy(job.row.claimedBy));
        }
      }
      assert items[..|items|] == items;
      assert table.rows == Recovered(before, now, defaultBound) by {
        assert forall id :: id in before && RecoveredRow(before[id], now, defaultBound) != before[id] ==>
                 id in Matching(before, RUNNING, None);
      }
    }

    /** Makes due scheduled rows claimable. */
    method PromoteDueScheduled(now: int)
      modifies table
      ensures table.rows == Promoted(old(table.rows), now)
    {
      ghost var before := table.rows;
      var items := Enumerate(SCHEDULED);
      for i := 0 to |items|
        invariant table.rows.Keys == before.Keys
        invariant forall id :: id in before ==>
                    table.rows[id] == if id in IdsOf(items[..i]) then PromotedRow(before[id], now) else before[id]
      {
        var job := items[i];
        IdsOfPrefix(items, i);
        RunnerWritesExactly(job.row, runnerId, now, defaultBound);
        if Due(job.row, now) {
          var applied := table.Update(job.id, PROMOTE_PATCH, StatusIs(SCHEDULED));
        }
      }
      assert items[..|items|] == items;
      assert table.rows == Promoted(before, now) by {
        assert forall id :: id in before && PromotedRow(before[id], now) != before[id] ==>
                 id in Matching(before, SCHEDULED, None);
      }
    }

    /** Claims pending rows, smallest identifier first, up to the free capacity. */
    method ClaimRows(now: int) returns (claimed: seq<JobId>, ghost ids: set<JobId>)
      requires Valid()
      modifies table
      ensures Picks(ids, old(table.rows), Free())
      ensures table.rows == Claimed(old(table.rows), ids, runnerId, now)
      ensures |claimed| == |ids| && (forall id :: id in claimed <==> id in ids)
    {
      ghost var before := table.rows;
      ghost var pending := Matching(before, PENDING, None);
      claimed, ids := [], {};
      var attempts := 0;
      while |inFlight| + |claimed| < maxConcurrent
        invariant SmallestPending(ids, before) && |ids| == |claimed| <= Free()
        invariant attempts == |claimed|
        invariant forall id :: id in claimed <==> id in ids
        invariant table.rows == Claimed(before, ids, runnerId, now)
        decreases maxConcurrent - |claimed|
      {
        if attempts >= maxConcurrent * CLAIM_ATTEMPT_FACTOR {
          break;
        }
        attempts := attempts + 1;
        PendingAfterClaims(before, ids, runnerId, now);
        var items, _ := table.Search(PENDING, None, 1);
        if items == [] {
          assert pending - ids == {};
          SubsetSize(ids, pending);
          return;
        }
        var job := items[0];
        assert items == [job];
        ClaimExtends(before, ids, job, runnerId, now);
        var applied := table.Update(job.id, ClaimPatch(job.row, runnerId, now), StatusIs(PENDING));
        if applied {
          claimed := claimed + [job.id];
          ids := ids + {job.id};
        }
      }
      SubsetSize(ids, pending);
    }

    /** Launches one body, tracked so that exit can drain it. */
    method Start(job: JobId)
      requires Valid()
      modifies this
      ensures Valid() && nextTask == old(nextTask) + 1
      ensures running == old(running)[Task(old(nextTask)) := job]
      ensures |inFlight| == |old(inFlight)| + 1
    {
      inFlight := inFlight + {Task(nextTask)};
      running := running[Task(nextTask) := job];
      nextTask := nextTask + 1;
    }

    /** Starts the claimed jobs in turn, each as a new body. */
    method StartAll(claimed: seq<JobId>)
      requires Valid()
      modifies this
      ensures Valid() && |inFlight| == |old(inFlight)| + |claimed|
      ensures nextTask == old(nextTask) + |claimed| && running == Started(old(running), old(nextTask), claimed)
    {
      ghost var before, first := running, nextTask;
      for i := 0 to |claimed|
        invariant Valid() && |inFlight| == |old(inFlight)| + i
        invariant nextTask == first + i && running == Started(before, first, claimed[..i])
      {
        assert claimed[..i + 1][..i] == claimed[..i];
        Start(claimed[i]);
      }
      assert claimed[..|claimed|] == claimed;
    }

    /** sweep: recover, promote, then claim and start. */
    method Sweep(now: int) returns (count: nat, ghost claimed: seq<JobId>, ghost ids: set<JobId>)
      requires Valid()
      modifies this, table
      ensures Valid()
      ensures SweptTo(old(table.rows), table.rows, ids, old(Free()), runnerId, now, defaultBound)
      ensures count == |claimed| == |ids| && forall id :: id in claimed <==> id in ids
      ensures running == Started(old(running), old(nextTask), claimed)
      ensures |inFlight| == old(|inFlight|) + count
    {
      RecoverStale(now);
      PromoteDueScheduled(now);
      var won;
      won, ids := ClaimRows(now);
      StartAll(won);
      claimed := won;
      count := |won|;
    }

    /** The row a body starts from, or nothing when it is gone. */
    method Load(task: Task) returns (loaded: Option<Row>)
      requires Valid() && task in inFlight
      ensures loaded == if running[task] in table.rows then Some(table.rows[running[task]]) else None
    {
      var job := running[task];
      loaded := if job in table.rows then Some(table.rows[job]) else None;
    }

    /**
     The end of a body that loaded this row some time before: the row it loaded decides the
     outcome, the claim condition decides whether it is still this runner's to write.
     */
    method Finish(task: Task, loaded: Option<Row>, run: JobRun) returns (applied: bool)
      requires Valid() && task in inFlight
      modifies this, table
      ensures Valid() && inFlight == old(inFlight) - {task} && running == old(running) - {task}
      ensures var job := old(running)[task];
              && applied == (loaded.Some? && Reaches(old(table.rows), job, HeldBy(Some(runnerId))))
              && table.rows == if loaded.Some?
                               then Written(old(table.rows), job, FinishPatch(loaded.value, run),
                                            HeldBy(Some(runnerId)))
                               else old(table.rows)
    {
      var job := running[task];
      applied := false;
      if loaded.Some? {
        applied := table.Update(job, FinishPatch(loaded.value, run), HeldBy(Some(runnerId)));
      }
      inFlight := inFlight - {task};
      running := running - {task};
    }

    /** Leaving: every in-flight body is cancelled and its claim, if still held, released. */
    method Exit()
      requires Valid()
      modifies this, table
      ensures Valid() && inFlight == {} && running == map[]
      ensures table.rows == Released(old(table.rows), old(running).Values, runnerId)
    {
      ghost var before := table.rows;
      var drained := running;
      var tasks := drained.Keys;
      inFlight, running := {}, map[];
      ghost var done: set<JobId> := {};
      while tasks != {}
        invariant tasks <= drained.Keys && inFlight == {} && running == map[]
        invariant table.rows == Released(before, done, runnerId)
        invariant done <= drained.Values
        invariant forall t :: t in drained && t !in tasks ==> drained[t] in done
        decreases |tasks|
      {
        var t :| t in tasks;
        tasks := tasks - {t};
        var applied := table.Update(drained[t], RELEASE_PATCH, HeldBy(Some(runnerId)));
        ReleasedOneMore(before, done, drained[t], runnerId);
        done := done + {drained[t]};
      }
      assert done == drained.Values;
    }
  }

  lemma IdsOfPrefix(items: seq<Found>, i: nat)
    requires i < |items| && Increasing(items)
    ensures IdsOf(items[..i + 1]) == IdsOf(items[..i]) + {items[i].id}
    ensures items[i].id !in IdsOf(items[..i])
    ensures items[i] in items
  {
    assert items[..i + 1] == items[..i] + [items[i]];
    IdsOfConcat(items[..i], [items[i]]);
  }

  lemma SubsetSize(a: set<JobId>, b: set<JobId>)
    requires a <= b
    ensures |a| <= |b| && (|a| == |b| ==> a == b)
  {
    assert b == a + (b - a);
  }
}
