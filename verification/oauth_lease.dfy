/** Stored OAuth tokens and the lease that serializes their refresh. */
module OAuthLeases {
  import opened Wrappers

  datatype Pair = Pair(principal: int, client: string)

  type Owner = int

  /** What a login or an exchange obtains. */
  datatype Grant = Grant(access: string, refresh: Option<string>, expiresAt: int)

  datatype Row = Row(grant: Grant, leaseOwner: Option<Owner>, leaseUntil: Option<int>)

  type Table = map<Pair, Row>

  /** How close to its expiry a token counts as stale, in seconds. */
  const SKEW := 30

  /** How many times a caller that lost the lease looks for the winner's result. */
  const POLL_ATTEMPTS := 40

  datatype Failure = NoToken | ExchangeFailed | RevokedMeanwhile | TimedOut

  datatype Answer = Token(grant: Grant) | Failed(failure: Failure)

  // ----- The three writes -----

  predicate Claimable(rows: Table, pair: Pair, now: int) {
    && pair in rows
    && (rows[pair].leaseOwner.None? || (rows[pair].leaseUntil.Some? && rows[pair].leaseUntil.value < now))
  }

  function ClaimedRows(rows: Table, pair: Pair, owner: Owner, until: int): Table
    requires pair in rows
  {
    rows[pair := rows[pair].(leaseOwner := Some(owner), leaseUntil := Some(until))]
  }

  /** An upsert that clears the lease. */
  function StoredRows(rows: Table, pair: Pair, grant: Grant): Table {
    rows[pair := Row(grant, None, None)]
  }

  /** Every other pair's row is as it was. */
  ghost predicate OthersKept(before: Table, after: Table, pair: Pair) {
    forall other :: other != pair ==>
      (other in after <==> other in before) && (other in before ==> after[other] == before[other])
  }

  /** A pair that was stored, claimed or removed: its row is new as stated, and no other changed. */
  lemma WritesTouchOnePair(rows: Table, pair: Pair, grant: Grant, owner: Owner, until: int)
    ensures OthersKept(rows, StoredRows(rows, pair, grant), pair)
    ensures pair in StoredRows(rows, pair, grant) && StoredRows(rows, pair, grant)[pair] == Row(grant, None, None)
    ensures pair in rows ==>
              && OthersKept(rows, ClaimedRows(rows, pair, owner, until), pair)
              && pair in ClaimedRows(rows, pair, owner, until)
              && ClaimedRows(rows, pair, owner, until)[pair] == Row(rows[pair].grant, Some(owner), Some(until))
    ensures OthersKept(rows, rows - {pair}, pair)
  {
  }

  // ----- The service -----

  /** What one poll of a waiting caller sees. */
  datatype Poll = Poll(row: Option<Row>, now: int)

  predicate Pending(poll: Poll) {
    poll.row.Some? && poll.row.value.grant.expiresAt <= poll.now
  }

  /** What a waiting caller answers at the first poll that is not pending, within the attempts. */
  ghost predicate Awaited(polls: seq<Poll>, answer: Answer)
    requires |polls| >= POLL_ATTEMPTS
  {
    || (answer == Failed(TimedOut) && forall k :: 0 <= k < POLL_ATTEMPTS ==> Pending(polls[k]))
    || (exists k :: 0 <= k < POLL_ATTEMPTS && FirstSettled(polls, k)
          && answer == if polls[k].row.None? then Failed(RevokedMeanwhile) else Token(polls[k].row.value.grant))
  }

  ghost predicate FirstSettled(polls: seq<Poll>, k: nat)
    requires k < |polls|
  {
    !Pending(polls[k]) && forall j :: 0 <= j < k ==> Pending(polls[j])
  }

  /** The row is gone, or holds a token that has not expired. */
  predicate Settles(poll: Poll) {
    match poll.row
    case None => true
    case Some(row) => row.grant.expiresAt > poll.now
  }

  /**
   A losing caller's answer is settled by the first of forty polls that shows a revoked row or an
   unexpired token, and is a time-out when none does; so a token it returns had not expired.
   */
  lemma AwaitedIsUnexpired(polls: seq<Poll>, answer: Answer)
    requires |polls| >= 40 && Awaited(polls, answer)
    ensures forall k :: 0 <= k < 40 && Settles(polls[k]) && (forall j :: 0 <= j < k ==> !Settles(polls[j])) ==>
              answer == match polls[k].row case None => Failed(RevokedMeanwhile) case Some(row) => Token(row.grant)
    ensures (forall k :: 0 <= k < 40 ==> !Settles(polls[k])) ==> answer == Failed(TimedOut)
    ensures answer.Token? ==>
              exists k :: 0 <= k < 40 && polls[k].row.Some? && polls[k].row.value.grant == answer.grant
                && answer.grant.expiresAt > polls[k].now
  {
    forall k | 0 <= k < 40
      ensures Settles(polls[k]) <==> !Pending(polls[k])
    {
    }
  }

  class OAuthTokenService {
    var rows: Table
    const leaseSeconds: int
    const leaseOwner: Owner

    constructor (rows: Table, leaseSeconds: int, leaseOwner: Owner)
      ensures this.rows == rows && this.leaseSeconds == leaseSeconds && this.leaseOwner == leaseOwner
    {
      this.rows, this.leaseSeconds, this.leaseOwner := rows, leaseSeconds, leaseOwner;
    }

    method Store(pair: Pair, grant: Grant)
      modifies this
      ensures OthersKept(old(rows), rows, pair) && pair in rows && rows[pair] == Row(grant, None, None)
      ensures rows == StoredRows(old(rows), pair, grant)
    {
      rows := rows[pair := Row(grant, None, None)];
    }

    method Revoke(pair: Pair)
      modifies this
      ensures rows == old(rows) - {pair}
      ensures OthersKept(old(rows), rows, pair)
    {
      rows := rows - {pair};
    }

    /** The compare-and-swap: the row count is the whole answer. */
    method Claim(pair: Pair, now: int) returns (won: bool)
      modifies this
      ensures won == Claimable(old(rows), pair, now)
      ensures rows == if won then ClaimedRows(old(rows), pair, leaseOwner, now + leaseSeconds) else old(rows)
      ensures OthersKept(old(rows), rows, pair)
      ensures won ==> pair in old(rows) && pair in rows
                      && rows[pair] == Row(old(rows)[pair].grant, Some(leaseOwner), Some(now + leaseSeconds))
    {
      won := false;
      if pair in rows {
        var row := rows[pair];
        if row.leaseOwner.None? || (row.leaseUntil.Some? && row.leaseUntil.value < now) {
          rows := rows[pair := row.(leaseOwner := Some(leaseOwner), leaseUntil := Some(now + leaseSeconds))];
          won := true;
        }
      }
    }

    /** A caller that lost the lease polls for the winner's result, a bounded number of times. */
    static method AwaitFresh(polls: seq<Poll>) returns (answer: Answer)
      requires |polls| >= POLL_ATTEMPTS
      ensures Awaited(polls, answer)
    {
      for k := 0 to POLL_ATTEMPTS
        invariant forall j :: 0 <= j < k ==> Pending(polls[j])
      {
        var poll := polls[k];
        if poll.row.None? {
          assert FirstSettled(polls, k);
          return Failed(RevokedMeanwhile);
        }
        if poll.row.value.grant.expiresAt > poll.now {
          assert FirstSettled(polls, k);
          return Token(poll.row.value.grant);
        }
      }
      return Failed(TimedOut);
    }

    /**
     The exchange is the provider's answer, or None when it fails. A token good for more than
     thirty seconds is returned as it is; otherwise the winner exchanges and stores, or revokes, and
     a loser waits and writes nothing.
     */
    method Refresh(pair: Pair, now: int, exchange: Option<Grant>, polls: seq<Poll>) returns (answer: Answer)
      requires |polls| >= POLL_ATTEMPTS
      modifies this
      ensures OthersKept(old(rows), rows, pair)
      ensures pair !in old(rows) ==> answer == Failed(NoToken) && rows == old(rows)
      ensures pair in old(rows) && old(rows)[pair].grant.expiresAt > now + 30 ==>
                answer == Token(old(rows)[pair].grant) && rows == old(rows)
      ensures pair in old(rows) && old(rows)[pair].grant.expiresAt <= now + 30 ==>
                if !Claimable(old(rows), pair, now) then Awaited(polls, answer) && rows == old(rows)
                else if exchange.None? then answer == Failed(ExchangeFailed) && rows == old(rows) - {pair}
                else answer == Token(exchange.value) && pair in rows && rows[pair] == Row(exchange.value, None, None)
    {
      if pair !in rows {
        return Failed(NoToken);
      }
      if rows[pair].grant.expiresAt > now + SKEW {
        return Token(rows[pair].grant);
      }
      var won := Claim(pair, now);
      if !won {
        answer := AwaitFresh(polls);
        return;
      }
      if exchange.None? {
        Revoke(pair);
        return Failed(ExchangeFailed);
      }
      Store(pair, exchange.value);
      return Token(exchange.value);
    }
  }

  // ----- Any number of refreshers -----

  /** A refresher between its claim and its store or revoke, and the row it claimed. */
  datatype Exchange = Exchange(pair: Pair, owner: Owner, until: int, held: Row)

  datatype ExchangeId = ExchangeId(number: nat)

  datatype State = State(now: int, rows: Table, live: map<ExchangeId, Exchange>, next: nat)

  datatype Step =
    | Tick(seconds: nat)
    | Login(pair: Pair, grant: Grant)
    | Claim(pair: Pair, owner: Owner)
    | Store(exchange: ExchangeId, grant: Grant)
    | Fail(exchange: ExchangeId)
    | Crash(exchange: ExchangeId)
    | Revoke(pair: Pair)

  const EMPTY := State(0, map[], map[], 0)

  /**
   Under `timely`, an exchange stores, revokes or dies no later than its lease, so the clock
   does not pass it; under `quiet`, nobody logs in while an exchange of that pair is live.
   A login is a store; a revoke may come at any time.
   */
  predicate Enabled(s: State, step: Step, timely: bool, quiet: bool) {
    match step
    case Tick(seconds) => timely ==> forall x :: x in s.live ==> s.now + seconds <= s.live[x].until
    case Login(pair, _) => quiet ==> forall x :: x in s.live ==> s.live[x].pair != pair
    case Claim(pair, _) => Claimable(s.rows, pair, s.now)
    case Store(exchange, _) => exchange in s.live
    case Fail(exchange) => exchange in s.live
    case Crash(exchange) => exchange in s.live
    case Revoke(_) => true
  }

  function Apply(s: State, step: Step, leaseSeconds: nat, timely: bool, quiet: bool): State
    requires Enabled(s, step, timely, quiet)
  {
    match step
    case Tick(seconds) => s.(now := s.now + seconds)
    case Login(pair, grant) => s.(rows := StoredRows(s.rows, pair, grant))
    case Claim(pair, owner) =>
      var claimed := ClaimedRows(s.rows, pair, owner, s.now + leaseSeconds);
      s.(rows := claimed, next := s.next + 1,
         live := s.live[ExchangeId(s.next) := Exchange(pair, owner, s.now + leaseSeconds, claimed[pair])])
    case Store(exchange, grant) =>
      s.(rows := StoredRows(s.rows, s.live[exchange].pair, grant), live := s.live - {exchange})
    case Fail(exchange) => s.(rows := s.rows - {s.live[exchange].pair}, live := s.live - {exchange})
    case Crash(exchange) => s.(live := s.live - {exchange})
    case Revoke(pair) => s.(rows := s.rows - {pair})
  }

  ghost predicate Allowed(s: State, steps: seq<Step>, leaseSeconds: nat, timely: bool, quiet: bool)
    decreases |steps|
  {
    steps != [] ==>
      && Enabled(s, steps[0], timely, quiet)
      && Allowed(Apply(s, steps[0], leaseSeconds, timely, quiet), steps[1..], leaseSeconds, timely, quiet)
  }

  ghost function After(s: State, steps: seq<Step>, leaseSeconds: nat, timely: bool, quiet: bool): State
    requires Allowed(s, steps, leaseSeconds, timely, quiet)
    decreases |steps|
  {
    if steps == [] then s
    else After(Apply(s, steps[0], leaseSeconds, timely, quiet), steps[1..], leaseSeconds, timely, quiet)
  }

  /** The pair a step writes, if it writes at all. */
  function Writes(s: State, step: Step): Option<Pair> {
    match step
    case Tick(_) => None
    case Crash(_) => None
    case Login(pair, _) => Some(pair)
    case Claim(pair, _) => Some(pair)
    case Revoke(pair) => Some(pair)
    case Store(exchange, _) => if exchange in s.live then Some(s.live[exchange].pair) else None
    case Fail(exchange) => if exchange in s.live then Some(s.live[exchange].pair) else None
  }

  /** A login and a store leave the given grant without a lease, a claim keeps the grant under its lease. */
  lemma StepWritesExactly(s: State, step: Step, leaseSeconds: nat, timely: bool, quiet: bool)
    requires Enabled(s, step, timely, quiet)
    ensures var next := Apply(s, step, leaseSeconds, timely, quiet);
            match Writes(s, step)
            case None => next.rows == s.rows
            case Some(pair) =>
              && OthersKept(s.rows, next.rows, pair)
              && (match step
                  case Login(_, grant) => pair in next.rows && next.rows[pair] == Row(grant, None, None)
                  case Store(_, grant) => pair in next.rows && next.rows[pair] == Row(grant, None, None)
                  case Claim(_, owner) =>
                    && pair in s.rows && pair in next.rows
                    && next.rows[pair] == Row(s.rows[pair].grant, Some(owner), Some(s.now + leaseSeconds))
                  case _ => pair !in next.rows)
  {
  }

  /** A claim starts an exchange with the row it claimed; a store, a failure and a crash end theirs. */
  lemma StepExchangesExactly(s: State, step: Step, leaseSeconds: nat, timely: bool, quiet: bool)
    requires Enabled(s, step, timely, quiet)
    ensures var next := Apply(s, step, leaseSeconds, timely, quiet);
            match step
            case Claim(pair, owner) =>
              && pair in next.rows
              && next.live == s.live[ExchangeId(s.next) :=
                                       Exchange(pair, owner, s.now + leaseSeconds, next.rows[pair])]
            case Store(exchange, _) => next.live == s.live - {exchange}
            case Fail(exchange) => next.live == s.live - {exchange}
            case Crash(exchange) => next.live == s.live - {exchange}
            case _ => next.live == s.live
  {
  }

  /** Without assumptions anything may happen at any moment, and an exchange may end in any way. */
  lemma AnythingMayHappen(s: State, pair: Pair, grant: Grant, owner: Owner, seconds: nat, x: ExchangeId)
    ensures Enabled(s, Tick(seconds), false, false) && Enabled(s, Login(pair, grant), false, false)
    ensures Enabled(s, Revoke(pair), true, true)
    ensures x in s.live ==>
              && Enabled(s, Store(x, grant), true, true)
              && Enabled(s, Fail(x), true, true) && Enabled(s, Crash(x), true, true)
    ensures Enabled(s, Claim(pair, owner), true, true) <==>
              && pair in s.rows
              && (s.rows[pair].leaseOwner == None
                  || match s.rows[pair].leaseUntil case Some(until) => until < s.now case None => false)
  {
  }

  /** No step of the run writes the pair. */
  ghost predicate LeavesAlone(
    s: State, steps: seq<Step>, pair: Pair, leaseSeconds: nat, timely: bool, quiet: bool)
    requires Allowed(s, steps, leaseSeconds, timely, quiet)
    decreases |steps|
  {
    steps != [] ==>
      && Writes(s, steps[0]) != Some(pair)
      && LeavesAlone(Apply(s, steps[0], leaseSeconds, timely, quiet), steps[1..], pair, leaseSeconds, timely, quiet)
  }

  /** Over a whole run a pair's row changes by the steps that write it, and by nobody else's. */
  lemma {:induction false} OtherPairsAreApart(
    s: State, steps: seq<Step>, pair: Pair, leaseSeconds: nat, timely: bool, quiet: bool)
    requires Allowed(s, steps, leaseSeconds, timely, quiet)
    requires LeavesAlone(s, steps, pair, leaseSeconds, timely, quiet)
    ensures var end := After(s, steps, leaseSeconds, timely, quiet);
            (pair in end.rows <==> pair in s.rows) && (pair in s.rows ==> end.rows[pair] == s.rows[pair])
    decreases |steps|
  {
    if steps != [] {
      StepWritesExactly(s, steps[0], leaseSeconds, timely, quiet);
      OtherPairsAreApart(
        Apply(s, steps[0], leaseSeconds, timely, quiet), steps[1..], pair, leaseSeconds, timely, quiet);
    }
  }

  ghost predicate AtMostOneExchange(s: State) {
    forall x, y :: x in s.live && y in s.live && s.live[x].pair == s.live[y].pair ==> x == y
  }

  /** The row an exchange claimed is as it claimed it, unless it was revoked. */
  ghost predicate RowsHeld(s: State) {
    forall x :: x in s.live ==>
      var exchange := s.live[x];
      && x.number < s.next && s.now <= exchange.until
      && exchange.held.leaseOwner == Some(exchange.owner) && exchange.held.leaseUntil == Some(exchange.until)
      && (exchange.pair in s.rows ==> s.rows[exchange.pair] == exchange.held)
  }

  lemma LeaseStep(s: State, step: Step, leaseSeconds: nat)
    requires RowsHeld(s) && AtMostOneExchange(s) && Enabled(s, step, true, true)
    ensures RowsHeld(Apply(s, step, leaseSeconds, true, true))
    ensures AtMostOneExchange(Apply(s, step, leaseSeconds, true, true))
  {
    if step.Claim? {
      forall x | x in s.live
        ensures s.live[x].pair != step.pair
      {
        assert !Claimable(s.rows, s.live[x].pair, s.now);
      }
    }
  }

  lemma {:induction false} LeaseAlways(s: State, steps: seq<Step>, leaseSeconds: nat)
    requires RowsHeld(s) && AtMostOneExchange(s) && Allowed(s, steps, leaseSeconds, true, true)
    ensures RowsHeld(After(s, steps, leaseSeconds, true, true))
    ensures AtMostOneExchange(After(s, steps, leaseSeconds, true, true))
    decreases |steps|
  {
    if steps != [] {
      LeaseStep(s, steps[0], leaseSeconds);
      LeaseAlways(Apply(s, steps[0], leaseSeconds, true, true), steps[1..], leaseSeconds);
    }
  }

  /**
   At every moment at most one refresher of a pair is in its exchange, and until it ends
   nobody else has written the row it claimed, short of revoking it.
   */
  lemma AtMostOneRefresher(steps: seq<Step>, leaseSeconds: nat)
    requires Allowed(EMPTY, steps, leaseSeconds, true, true)
    ensures AtMostOneExchange(After(EMPTY, steps, leaseSeconds, true, true))
    ensures RowsHeld(After(EMPTY, steps, leaseSeconds, true, true))
  {
    LeaseAlways(EMPTY, steps, leaseSeconds);
  }

  // ----- A crashed claimer -----

  /** No lease reaches further than one lease from now. */
  ghost predicate LeasesBounded(s: State, leaseSeconds: nat) {
    forall pair :: pair in s.rows && s.rows[pair].leaseOwner.Some? ==>
      s.rows[pair].leaseUntil.Some? && s.rows[pair].leaseUntil.value <= s.now + leaseSeconds
  }

  lemma {:induction false} LeasesBoundedAlways(s: State, steps: seq<Step>, leaseSeconds: nat, timely: bool, quiet: bool)
    requires LeasesBounded(s, leaseSeconds) && Allowed(s, steps, leaseSeconds, timely, quiet)
    ensures LeasesBounded(After(s, steps, leaseSeconds, timely, quiet), leaseSeconds)
    decreases |steps|
  {
    if steps != [] {
      LeasesBoundedAlways(Apply(s, steps[0], leaseSeconds, timely, quiet), steps[1..], leaseSeconds, timely, quiet);
    }
  }

  /**
   The lease heals itself: in any run, whoever crashed, a stored row left alone for longer
   than a lease can be claimed.
   */
  lemma CrashBlocksOneLease(steps: seq<Step>, leaseSeconds: nat, timely: bool, quiet: bool, pair: Pair, seconds: nat)
    requires Allowed(EMPTY, steps, leaseSeconds, timely, quiet)
    requires pair in After(EMPTY, steps, leaseSeconds, timely, quiet).rows && seconds > leaseSeconds
    ensures var s := After(EMPTY, steps, leaseSeconds, timely, quiet);
            Claimable(s.rows, pair, s.now + seconds)
  {
    LeasesBoundedAlways(EMPTY, steps, leaseSeconds, timely, quiet);
  }

  // ----- When a second refresher gets in -----

  /** At every moment of the run so far at most one refresher of a pair was in its exchange. */
  ghost predicate ExclusiveSoFar(s: State, steps: seq<Step>, leaseSeconds: nat, timely: bool, quiet: bool)
    requires Allowed(s, steps, leaseSeconds, timely, quiet)
    decreases |steps|
  {
    && AtMostOneExchange(s)
    && (steps != [] ==>
          ExclusiveSoFar(Apply(s, steps[0], leaseSeconds, timely, quiet), steps[1..], leaseSeconds, timely, quiet))
  }

  /** An exchange holds the lease it claimed, and its row is as it claimed it or has lost its lease. */
  ghost predicate HeldOrUnleased(s: State) {
    forall x :: x in s.live ==>
      var exchange := s.live[x];
      && x.number < s.next
      && exchange.held.leaseOwner == Some(exchange.owner) && exchange.held.leaseUntil == Some(exchange.until)
      && (exchange.pair in s.rows ==>
            s.rows[exchange.pair] == exchange.held || s.rows[exchange.pair].leaseOwner.None?)
  }

  lemma HeldOrUnleasedStep(s: State, step: Step, leaseSeconds: nat, timely: bool, quiet: bool)
    requires HeldOrUnleased(s) && Enabled(s, step, timely, quiet)
    requires AtMostOneExchange(Apply(s, step, leaseSeconds, timely, quiet))
    ensures HeldOrUnleased(Apply(s, step, leaseSeconds, timely, quiet))
  {
    if step.Claim? {
      var next := Apply(s, step, leaseSeconds, timely, quiet);
      forall x | x in s.live
        ensures s.live[x].pair != step.pair
      {
        assert x in next.live && ExchangeId(s.next) in next.live;
      }
    }
  }

  lemma {:induction false} HeldOrUnleasedAlways(
    s: State, steps: seq<Step>, leaseSeconds: nat, timely: bool, quiet: bool)
    requires HeldOrUnleased(s) && Allowed(s, steps, leaseSeconds, timely, quiet)
    requires ExclusiveSoFar(s, steps, leaseSeconds, timely, quiet)
    ensures HeldOrUnleased(After(s, steps, leaseSeconds, timely, quiet))
    ensures AtMostOneExchange(After(s, steps, leaseSeconds, timely, quiet))
    decreases |steps|
  {
    if steps != [] {
      var next := Apply(s, steps[0], leaseSeconds, timely, quiet);
      HeldOrUnleasedStep(s, steps[0], leaseSeconds, timely, quiet);
      HeldOrUnleasedAlways(next, steps[1..], leaseSeconds, timely, quiet);
    }
  }

  /**
   With no assumption at all: as long as no second refresher has got in, the stored pair of a
   live exchange can be claimed exactly when its lease has passed or its row is no longer as
   the exchange claimed it. A timely exchange rules out the one, a quiet one the other.
   */
  lemma SecondClaimExactly(steps: seq<Step>, leaseSeconds: nat, timely: bool, quiet: bool, x: ExchangeId)
    requires Allowed(EMPTY, steps, leaseSeconds, timely, quiet)
    requires ExclusiveSoFar(EMPTY, steps, leaseSeconds, timely, quiet)
    requires var s := After(EMPTY, steps, leaseSeconds, timely, quiet);
             x in s.live && s.live[x].pair in s.rows
    ensures var s := After(EMPTY, steps, leaseSeconds, timely, quiet);
            var exchange := s.live[x];
            Claimable(s.rows, exchange.pair, s.now)
            <==> s.now > exchange.until || s.rows[exchange.pair] != exchange.held
  {
    HeldOrUnleasedAlways(EMPTY, steps, leaseSeconds, timely, quiet);
  }

  /** And a step lets a second refresher in exactly when it claims the pair of such an exchange. */
  lemma FirstBreachExactly(steps: seq<Step>, step: Step, leaseSeconds: nat, timely: bool, quiet: bool)
    requires Allowed(EMPTY, steps, leaseSeconds, timely, quiet)
    requires ExclusiveSoFar(EMPTY, steps, leaseSeconds, timely, quiet)
    requires Enabled(After(EMPTY, steps, leaseSeconds, timely, quiet), step, timely, quiet)
    ensures var s := After(EMPTY, steps, leaseSeconds, timely, quiet);
            !AtMostOneExchange(Apply(s, step, leaseSeconds, timely, quiet))
            <==>
            (step.Claim? && exists x | x in s.live && s.live[x].pair == step.pair ::
               s.now > s.live[x].until || s.rows[step.pair] != s.live[x].held)
  {
    HeldOrUnleasedAlways(EMPTY, steps, leaseSeconds, timely, quiet);
    var s := After(EMPTY, steps, leaseSeconds, timely, quiet);
    var next := Apply(s, step, leaseSeconds, timely, quiet);
    if step.Claim? {
      if x :| x in s.live && s.live[x].pair == step.pair {
        assert x in next.live && ExchangeId(s.next) in next.live && x != ExchangeId(s.next);
        assert next.live[x].pair == next.live[ExchangeId(s.next)].pair;
        assert !AtMostOneExchange(next);
      } else {
        assert AtMostOneExchange(next);
      }
    }
  }

  // ----- Two instances -----

  const PAIR := Pair(1, "idp")
  const OLD_GRANT := Grant("a", Some("r"), 0)

  lemma {:induction false} Extended(
    s: State, steps: seq<Step>, step: Step, leaseSeconds: nat, timely: bool, quiet: bool) returns (longer: seq<Step>)
    requires Allowed(s, steps, leaseSeconds, timely, quiet)
    requires Enabled(After(s, steps, leaseSeconds, timely, quiet), step, timely, quiet)
    ensures Allowed(s, longer, leaseSeconds, timely, quiet)
    ensures After(s, longer, leaseSeconds, timely, quiet)
         == Apply(After(s, steps, leaseSeconds, timely, quiet), step, leaseSeconds, timely, quiet)
    decreases |steps|
  {
    if steps == [] {
      longer := [step];
      assert longer[1..] == [];
    } else {
      var next := Apply(s, steps[0], leaseSeconds, timely, quiet);
      var rest := Extended(next, steps[1..], step, leaseSeconds, timely, quiet);
      longer := [steps[0]] + rest;
      assert longer[1..] == rest;
    }
  }

  /** An exchange that outlives its lease is joined by a second one. */
  lemma LateExchangeBreaksLease() returns (steps: seq<Step>)
    ensures Allowed(EMPTY, steps, 30, false, true)
    ensures !AtMostOneExchange(After(EMPTY, steps, 30, false, true))
  {
    steps := Extended(EMPTY, [], Login(PAIR, OLD_GRANT), 30, false, true);
    steps := Extended(EMPTY, steps, Claim(PAIR, 1), 30, false, true);
    steps := Extended(EMPTY, steps, Tick(31), 30, false, true);
    steps := Extended(EMPTY, steps, Claim(PAIR, 2), 30, false, true);
    var s := After(EMPTY, steps, 30, false, true);
    assert ExchangeId(0) in s.live && ExchangeId(1) in s.live;
  }

  /** A login in the middle of an exchange clears its lease, and lets a second one in. */
  lemma LoginBreaksLease() returns (steps: seq<Step>)
    ensures Allowed(EMPTY, steps, 30, true, false)
    ensures !AtMostOneExchange(After(EMPTY, steps, 30, true, false))
  {
    steps := Extended(EMPTY, [], Login(PAIR, OLD_GRANT), 30, true, false);
    steps := Extended(EMPTY, steps, Claim(PAIR, 1), 30, true, false);
    steps := Extended(EMPTY, steps, Login(PAIR, OLD_GRANT), 30, true, false);
    steps := Extended(EMPTY, steps, Claim(PAIR, 2), 30, true, false);
    var s := After(EMPTY, steps, 30, true, false);
    assert ExchangeId(0) in s.live && ExchangeId(1) in s.live;
  }
}
