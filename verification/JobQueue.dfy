/** The durable job queue: leases, takeover of expired leases, retry and dead-letter.  Every
    call is one atomic step on the table of job rows. */
module JobQueue {
  import opened Wrappers
  import opened States

  // Job ids are a fixed-width hexadecimal token, so their text order is that of the number.
  type JobId = nat

  datatype Row = Row(
    key: string,
    kind: string,
    payload: string,
    maxAttempts: int,
    state: JobState,
    owner: Option<string>,
    expiresAt: Option<int>,
    heartbeatAt: Option<int>,
    attempts: nat,
    retryAt: Option<int>)

  type Table = map<JobId, Row>

  datatype Call =
    | Enqueue(id: JobId, key: string, kind: string, payload: string, maxAttempts: int)
    | Lease(owner: string, now: int, until: int)
    | Heartbeat(id: JobId, owner: string, now: int, until: int)
    | Complete(id: JobId, owner: string)
    | Fail(id: JobId, owner: string, retryAt: int)
    | RequeueDue(now: int)

  // ------------------------------------------------------------------ the effect of each call

  predicate KeyTaken(t: Table, key: string) {
    exists j :: j in t && t[j].key == key
  }

  // The row may be leased at `now`: it is ready, or its lease has expired.
  predicate Leasable(r: Row, now: int) {
    r.state == Ready || (r.state == Leased && r.expiresAt.Some? && r.expiresAt.value < now)
  }

  // The first leasable row in id order.
  predicate IsNext(t: Table, j: JobId, now: int) {
    j in t && Leasable(t[j], now) && forall k | k in t && Leasable(t[k], now) :: j <= k
  }

  predicate Holds(t: Table, j: JobId, owner: string) {
    j in t && t[j].state == Leased && t[j].owner == Some(owner)
  }

  function LeasedTo(r: Row, owner: string, now: int, until: int): Row {
    r.(state := Leased, owner := Some(owner), expiresAt := Some(until), heartbeatAt := Some(now),
       attempts := r.attempts + 1)
  }

  function Released(r: Row, state: JobState): Row {
    r.(state := state, owner := None, expiresAt := None)
  }

  predicate Due(r: Row, now: int) {
    r.state == RetryScheduled && r.retryAt.Some? && r.retryAt.value <= now
  }

  // The row of job j after a call, when the call leaves one.  A call that raises leaves the
  // table as it was; so does an insert that the primary key refuses.
  ghost function RowAfter(t: Table, c: Call, j: JobId): Row
    requires j in t
  {
    var r := t[j];
    match c
    case Enqueue(_, _, _, _, _) => r
    case Lease(owner, now, until) => if IsNext(t, j, now) then LeasedTo(r, owner, now, until) else r
    case Heartbeat(id, owner, now, until) =>
      if id == j && Holds(t, j, owner) then r.(heartbeatAt := Some(now), expiresAt := Some(until)) else r
    case Complete(id, owner) => if id == j && Holds(t, j, owner) then Released(r, Completed) else r
    case Fail(id, owner, retryAt) =>
      if id != j || !Holds(t, j, owner) then r
      else if r.attempts >= r.maxAttempts then Released(r, DeadLettered)
      else Released(r, RetryScheduled).(retryAt := Some(retryAt))
    case RequeueDue(now) => if Due(r, now) then r.(state := Ready, retryAt := None) else r
  }

  predicate Inserts(t: Table, c: Call) {
    c.Enqueue? && !KeyTaken(t, c.key) && c.id !in t
  }

  function NewRow(c: Call): Row
    requires c.Enqueue?
  {
    Row(c.key, c.kind, c.payload, c.maxAttempts, Ready, None, None, None, 0, None)
  }

  ghost function Apply(t: Table, c: Call): Table {
    if Inserts(t, c) then t[c.id := NewRow(c)] else map j | j in t :: RowAfter(t, c, j)
  }

  // ------------------------------------------------------------------ the queue object

  class Queue {
    var rows: Table

    constructor ()
      ensures rows == map[]
    {
      rows := map[];
    }

    // Returns the id of the job that carries the key, new or old; None where the fresh id
    // clashes and the insert is refused.
    method EnqueueJob(kind: string, payload: string, key: string, maxAttempts: int, freshId: JobId)
      returns (id: Option<JobId>)
      modifies this
      ensures rows == Apply(old(rows), Enqueue(freshId, key, kind, payload, maxAttempts))
      ensures id.Some? ==> id.value in rows && rows[id.value].key == key
      ensures id.None? <==> !KeyTaken(old(rows), key) && freshId in old(rows)
      ensures (exists j :: j in old(rows) && old(rows)[j].key == key) ==>
                rows == old(rows) && id.Some? && id.value in old(rows)
      ensures (forall j | j in old(rows) :: old(rows)[j].key != key) && freshId in old(rows) ==> rows == old(rows)
      ensures (forall j | j in old(rows) :: old(rows)[j].key != key) && freshId !in old(rows) ==>
                && id == Some(freshId)
                && rows == old(rows)[freshId := Row(key, kind, payload, maxAttempts, Ready, None, None, None, 0, None)]
    {
      if KeyTaken(rows, key) {
        var j :| j in rows && rows[j].key == key;
        return Some(j);
      }
      if freshId in rows {
        return None;
      }
      rows := rows[freshId := Row(key, kind, payload, maxAttempts, Ready, None, None, None, 0, None)];
      return Some(freshId);
    }

    // Leases the first leasable job, or returns None when there is none.
    method LeaseJob(owner: string, now: int, until: int) returns (leased: Option<(JobId, nat)>)
      modifies this
      ensures rows == Apply(old(rows), Lease(owner, now, until))
      ensures leased.None? <==> forall j | j in old(rows) :: !Leasable(old(rows)[j], now)
      ensures leased.Some? ==> IsNext(old(rows), leased.value.0, now)
      ensures leased.Some? ==> leased.value.1 == old(rows)[leased.value.0].attempts + 1
      ensures leased.None? ==> rows == old(rows)
      ensures forall j | j in old(rows) && (leased.None? || j < leased.value.0) ::
          && old(rows)[j].state != Ready
          && (old(rows)[j].state == Leased ==> old(rows)[j].expiresAt.None? || old(rows)[j].expiresAt.value >= now)
      ensures leased.Some? ==>
        var j := leased.value.0;
        && j in old(rows)
        && (old(rows)[j].state == Ready
            || (old(rows)[j].state == Leased && old(rows)[j].expiresAt.Some? && old(rows)[j].expiresAt.value < now))
        && rows == old(rows)[j := old(rows)[j].(state := Leased, owner := Some(owner), expiresAt := Some(until),
                                                heartbeatAt := Some(now), attempts := old(rows)[j].attempts + 1)]
    {
      var candidates := set j | j in rows && Leasable(rows[j], now);
      if candidates == {} {
        assert forall j | j in rows :: j !in candidates;
        assert forall j | j in rows :: !IsNext(rows, j, now);
        return None;
      }
      ghost var least := Least(candidates);
      var j :| j in candidates && forall k | k in candidates :: j <= k;
      assert forall k | k in rows && Leasable(rows[k], now) :: k in candidates;
      LeaseTouchesOne(rows, j, owner, now, until);
      var row := rows[j];
      rows := rows[j := row.(state := Leased, owner := Some(owner), expiresAt := Some(until),
                             heartbeatAt := Some(now), attempts := row.attempts + 1)];
      return Some((j, row.attempts + 1));
    }

    // False where the source raises: the owner does not hold the lease.
    method HeartbeatJob(id: JobId, owner: string, now: int, until: int) returns (ok: bool)
      modifies this
      ensures rows == Apply(old(rows), Heartbeat(id, owner, now, until))
      ensures ok <==> id in old(rows) && old(rows)[id].state == Leased && old(rows)[id].owner == Some(owner)
      ensures ok ==>
        rows == old(rows)[id := old(rows)[id].(heartbeatAt := Some(now), expiresAt := Some(until))]
      ensures !ok ==> rows == old(rows)
    {
      ok := Holds(rows, id, owner);
      if ok {
        rows := rows[id := rows[id].(heartbeatAt := Some(now), expiresAt := Some(until))];
      }
    }

    // Completing a completed job again is accepted from anyone and changes nothing.
    method CompleteJob(id: JobId, owner: string) returns (ok: bool)
      modifies this
      ensures rows == Apply(old(rows), Complete(id, owner))
      ensures ok <==> id in old(rows) && (old(rows)[id].state == Completed
                                          || (old(rows)[id].state == Leased && old(rows)[id].owner == Some(owner)))
      ensures rows == if ok && old(rows)[id].state == Leased
                      then old(rows)[id := old(rows)[id].(state := Completed, owner := None, expiresAt := None)]
                      else old(rows)
    {
      if id !in rows {
        return false;
      }
      var row := rows[id];
      if row.state == Completed {
        return true;
      }
      if !JobTransition(row.state, Completed) || row.owner != Some(owner) {
        return false;
      }
      rows := rows[id := row.(state := Completed, owner := None, expiresAt := None)];
      return true;
    }

    // The state the failure leads to, or None where the source raises.
    method FailJob(id: JobId, owner: string, retryAt: int) returns (next: Option<JobState>)
      modifies this
      ensures rows == Apply(old(rows), Fail(id, owner, retryAt))
      ensures next.Some? <==> id in old(rows) && old(rows)[id].state == Leased && old(rows)[id].owner == Some(owner)
      ensures next.None? ==> rows == old(rows)
      ensures next.Some? ==>
        if old(rows)[id].attempts >= old(rows)[id].maxAttempts
        then next == Some(DeadLettered)
             && rows == old(rows)[id := old(rows)[id].(state := DeadLettered, owner := None, expiresAt := None)]
        else next == Some(RetryScheduled)
             && rows == old(rows)[id := old(rows)[id].(state := RetryScheduled, retryAt := Some(retryAt),
                                                       owner := None, expiresAt := None)]
      ensures next.Some? ==> next.value == rows[id].state && next.value in {RetryScheduled, DeadLettered}
    {
      if id !in rows || rows[id].owner != Some(owner) || rows[id].state != Leased {
        return None;
      }
      var row := rows[id];
      if row.attempts >= row.maxAttempts {
        rows := rows[id := row.(state := DeadLettered, owner := None, expiresAt := None)];
        return Some(DeadLettered);
      }
      rows := rows[id := row.(state := RetryScheduled, retryAt := Some(retryAt), owner := None,
                              expiresAt := None)];
      return Some(RetryScheduled);
    }

    method RequeueDueJobs(now: int) returns (count: nat)
      modifies this
      ensures rows == Apply(old(rows), RequeueDue(now))
      ensures count == |set j | j in old(rows) && Due(old(rows)[j], now)|
      ensures rows.Keys == old(rows).Keys
      ensures forall j | j in rows ::
          rows[j] == if old(rows)[j].state == RetryScheduled && old(rows)[j].retryAt.Some?
                        && old(rows)[j].retryAt.value <= now
                     then old(rows)[j].(state := Ready, retryAt := None) else old(rows)[j]
    {
      var due := set j | j in rows && Due(rows[j], now);
      rows := map j | j in rows :: if j in due then rows[j].(state := Ready, retryAt := None) else rows[j];
      count := |due|;
    }
  }

  lemma {:induction false} Least(s: set<JobId>) returns (j: JobId)
    requires s != {}
    ensures j in s && forall k | k in s :: j <= k
    decreases |s|
  {
    j :| j in s;
    var rest := s - {j};
    if rest != {} {
      var y := Least(rest);
      assert forall k | k in s :: k == j || k in rest;
      if y < j {
        j := y;
      }
    }
  }

  lemma LeaseTouchesOne(t: Table, j: JobId, owner: string, now: int, until: int)
    requires IsNext(t, j, now)
    ensures Apply(t, Lease(owner, now, until)) == t[j := LeasedTo(t[j], owner, now, until)]
  {
    assert forall k | k in t && IsNext(t, k, now) :: k == j;
  }

  // ------------------------------------------------------------------ runs

  ghost function RunFrom(t: Table, calls: seq<Call>): Table {
    if calls == [] then t else Apply(RunFrom(t, calls[..|calls| - 1]), calls[|calls| - 1])
  }

  ghost function Run(calls: seq<Call>): Table {
    RunFrom(map[], calls)
  }

  // What a call did to job j.
  datatype Event = Nothing | Created | FreshLease | Takeover | Renewal | Retry | Burial | Requeue | Completion | Other

  ghost function EventOf(t: Table, c: Call, j: JobId): Event {
    if j !in Apply(t, c) then Nothing
    else if j !in t then Created
    else if Apply(t, c)[j] == t[j] then Nothing
    else Change(t[j].state, Apply(t, c)[j].state, c)
  }

  function Change(a: JobState, b: JobState, c: Call): Event {
    if a == Ready && b == Leased then FreshLease
    else if a == Leased && b == Leased && c.Lease? then Takeover
    else if a == Leased && b == Leased && c.Heartbeat? then Renewal
    else if a == Leased && b == RetryScheduled then Retry
    else if a == Leased && b == DeadLettered then Burial
    else if a == RetryScheduled && b == Ready then Requeue
    else if a == Leased && b == Completed then Completion
    else Other
  }

  // The number of calls of the run that were that event for job j.
  ghost function Count(calls: seq<Call>, j: JobId, e: Event): nat {
    if calls == [] then 0
    else
      var init := calls[..|calls| - 1];
      Count(init, j, e) + if EventOf(Run(init), calls[|calls| - 1], j) == e then 1 else 0
  }

  // ------------------------------------------------------------------ what every call keeps

  ghost predicate RowValid(r: Row) {
    && (r.state == Leased <==> r.owner.Some?)
    && (r.state == Leased <==> r.expiresAt.Some?)
    && (r.state == RetryScheduled <==> r.retryAt.Some?)
    && r.state != Cancelled
  }

  ghost predicate TableValid(t: Table) {
    && (forall j | j in t :: RowValid(t[j]))
    && (forall i, j | i in t && j in t && t[i].key == t[j].key :: i == j)
  }

  lemma CallKeepsValid(t: Table, c: Call)
    requires TableValid(t)
    ensures TableValid(Apply(t, c))
  {
    var u := Apply(t, c);
    forall j | j in u ensures RowValid(u[j]) {
      if j in t {
        assert RowValid(t[j]);
      }
    }
    forall i, j | i in u && j in u && u[i].key == u[j].key ensures i == j {
      assert i in t ==> u[i].key == t[i].key;
      assert j in t ==> u[j].key == t[j].key;
    }
  }

  lemma {:induction false} RunValid(calls: seq<Call>)
    ensures TableValid(Run(calls))
  {
    if calls != [] {
      RunValid(calls[..|calls| - 1]);
      CallKeepsValid(Run(calls[..|calls| - 1]), calls[|calls| - 1]);
    }
  }

  // In every reachable state a row is leased exactly when it has an owner and an expiry, has
  // a retry time exactly when a retry is scheduled, and carries a key no other row carries;
  // and every change a call makes is an edge of the JOB table, a takeover of an expired
  // lease, or the holder's heartbeat.
  lemma EveryChangeIsLegal(calls: seq<Call>, c: Call, j: JobId)
    requires j in Run(calls)
    ensures RowValid(Run(calls)[j])
    ensures forall i | i in Run(calls) && Run(calls)[i].key == Run(calls)[j].key :: i == j
    ensures j in Apply(Run(calls), c)
    ensures var r, s, e := Run(calls)[j], Apply(Run(calls), c)[j], EventOf(Run(calls), c, j);
      && (e == Nothing <==> s == r)
      && e != Other && e != Created
      && (s.state != r.state ==> (r.state, s.state) in {
            (Ready, Leased), (Leased, Completed), (Leased, RetryScheduled), (Leased, DeadLettered),
            (RetryScheduled, Ready)})
      && (s.state != r.state ==> JobTransition(r.state, s.state))
      && (e == Takeover ==> r.expiresAt.value < c.now)
      && (e == Renewal ==> r.owner == Some(c.owner))
  {
    RunValid(calls);
    assert RowValid(Run(calls)[j]);
    ChangeIsLegal(Run(calls), c, j);
  }

  lemma ChangeIsLegal(t: Table, c: Call, j: JobId)
    requires j in t && RowValid(t[j])
    ensures j in Apply(t, c)
    ensures var r, s, e := t[j], Apply(t, c)[j], EventOf(t, c, j);
      && (e == Nothing <==> s == r)
      && e != Other && e != Created
      && (s.state != r.state ==> (r.state, s.state) in {
            (Ready, Leased), (Leased, Completed), (Leased, RetryScheduled), (Leased, DeadLettered),
            (RetryScheduled, Ready)})
      && (s.state != r.state ==> JobTransition(r.state, s.state))
      && (e == Takeover ==> r.expiresAt.value < c.now)
      && (e == Renewal ==> r.owner == Some(c.owner))
  {
  }

  // ------------------------------------------------------------------ counting

  datatype Tally = Tally(leases: int, takeovers: int, retries: int, requeues: int, burials: int, completions: int)

  ghost function TallyOf(calls: seq<Call>, j: JobId): Tally {
    Tally(Count(calls, j, FreshLease), Count(calls, j, Takeover), Count(calls, j, Retry),
          Count(calls, j, Requeue), Count(calls, j, Burial), Count(calls, j, Completion))
  }

  function Recorded(n: Tally, e: Event): Tally {
    match e
    case FreshLease => n.(leases := n.leases + 1)
    case Takeover => n.(takeovers := n.takeovers + 1)
    case Retry => n.(retries := n.retries + 1)
    case Requeue => n.(requeues := n.requeues + 1)
    case Burial => n.(burials := n.burials + 1)
    case Completion => n.(completions := n.completions + 1)
    case _ => n
  }

  // The bookkeeping that ties a job's row to the history of its events.
  ghost predicate Balanced(r: Row, n: Tally) {
    && r.attempts == n.leases + n.takeovers
    && 0 <= n.takeovers
    && n.retries <= (if r.maxAttempts > 1 then r.maxAttempts - 1 else 0)
    && n.leases == n.requeues + (if r.state == Ready then 0 else 1)
    && n.retries == n.requeues + (if r.state == RetryScheduled then 1 else 0)
    && n.burials == (if r.state == DeadLettered then 1 else 0)
    && n.completions == (if r.state == Completed then 1 else 0)
  }

  lemma EventKeepsBalance(t: Table, c: Call, j: JobId, n: Tally)
    requires j in t && RowValid(t[j]) && Balanced(t[j], n)
    ensures j in Apply(t, c) && Balanced(Apply(t, c)[j], Recorded(n, EventOf(t, c, j)))
  {
  }

  lemma {:induction false} NoHistory(calls: seq<Call>, j: JobId, e: Event)
    requires j !in Run(calls) && e != Nothing
    ensures Count(calls, j, e) == 0
  {
    if calls != [] {
      var init := calls[..|calls| - 1];
      assert j !in Run(init);
      NoHistory(init, j, e);
    }
  }

  lemma {:induction false} BooksBalance(calls: seq<Call>, j: JobId)
    requires j in Run(calls)
    ensures Balanced(Run(calls)[j], TallyOf(calls, j))
  {
    var init, c := calls[..|calls| - 1], calls[|calls| - 1];
    TallySnoc(init, c, j);
    assert calls == init + [c];
    if j !in Run(init) {
      BlankTally(init, j);
      InsertedIsBalanced(Run(init), c, j);
    } else {
      BooksBalance(init, j);
      RunValid(init);
      EventKeepsBalance(Run(init), c, j, TallyOf(init, j));
    }
  }

  lemma TallySnoc(calls: seq<Call>, c: Call, j: JobId)
    ensures TallyOf(calls + [c], j) == Recorded(TallyOf(calls, j), EventOf(Run(calls), c, j))
  {
    RunSnoc(calls, c);
  }

  lemma BlankTally(calls: seq<Call>, j: JobId)
    requires j !in Run(calls)
    ensures TallyOf(calls, j) == Tally(0, 0, 0, 0, 0, 0)
  {
    NoHistory(calls, j, FreshLease);
    NoHistory(calls, j, Takeover);
    NoHistory(calls, j, Retry);
    NoHistory(calls, j, Requeue);
    NoHistory(calls, j, Burial);
    NoHistory(calls, j, Completion);
  }

  lemma InsertedIsBalanced(t: Table, c: Call, j: JobId)
    requires j !in t && j in Apply(t, c)
    ensures EventOf(t, c, j) == Created && Balanced(Apply(t, c)[j], Tally(0, 0, 0, 0, 0, 0))
  {
  }

  // Over any run, whatever the other calls: a job with m permitted attempts (at least one is
  // always made) reports at most m failures and is rescheduled at most m - 1 times, and apart
  // from takeovers its row changes state at most 3m - 1 times.
  lemma JobsAreBounded(calls: seq<Call>, j: JobId, m: int)
    requires j in Run(calls)
    requires m == if Run(calls)[j].maxAttempts > 1 then Run(calls)[j].maxAttempts else 1
    ensures Count(calls, j, Retry) <= m - 1
    ensures Count(calls, j, Retry) + Count(calls, j, Burial) <= m
    ensures Count(calls, j, FreshLease) + Count(calls, j, Retry) + Count(calls, j, Requeue)
            + Count(calls, j, Burial) + Count(calls, j, Completion) <= 3 * m - 1
    ensures Run(calls)[j].attempts == Count(calls, j, FreshLease) + Count(calls, j, Takeover)
    ensures Count(calls, j, FreshLease) <= m
  {
    BooksBalance(calls, j);
    RunValid(calls);
    assert RowValid(Run(calls)[j]);
  }

  // ------------------------------------------------------------------ the bound is reached

  // The run that fails a job m times: lease, fail, requeue, and after m - 1 rounds the last
  // lease and the failure that buries it.
  ghost function Rounds(m: int, k: nat): seq<Call> {
    if k == 0 then [Enqueue(0, "key", "kind", "{}", m)]
    else Rounds(m, k - 1) + [Lease("w", 0, 1), Fail(0, "w", 0), RequeueDue(0)]
  }

  ghost function ReadyRow(m: int, k: nat): Row {
    Row("key", "kind", "{}", m, Ready, None, None, if k == 0 then None else Some(0), k, None)
  }

  lemma RunSnoc(calls: seq<Call>, c: Call)
    ensures Run(calls + [c]) == Apply(Run(calls), c)
    ensures forall j, e :: Count(calls + [c], j, e)
                           == Count(calls, j, e) + if EventOf(Run(calls), c, j) == e then 1 else 0
  {
    assert (calls + [c])[..|calls|] == calls;
  }

  // A lone ready job, leased and failed.
  lemma LeaseAndFail(calls: seq<Call>, r: Row)
    requires Run(calls) == map[0 := r] && r.state == Ready && Count(calls, 0, Takeover) == 0
    ensures var leased := LeasedTo(r, "w", 0, 1);
            Run(calls + [Lease("w", 0, 1), Fail(0, "w", 0)])
            == map[0 := if leased.attempts >= leased.maxAttempts then Released(leased, DeadLettered)
                        else Released(leased, RetryScheduled).(retryAt := Some(0))]
    ensures Count(calls + [Lease("w", 0, 1), Fail(0, "w", 0)], 0, Takeover) == 0
  {
    var a := calls + [Lease("w", 0, 1)];
    RunSnoc(calls, Lease("w", 0, 1));
    assert IsNext(map[0 := r], 0, 0);
    assert Run(a) == map[0 := LeasedTo(r, "w", 0, 1)];
    RunSnoc(a, Fail(0, "w", 0));
    assert a + [Fail(0, "w", 0)] == calls + [Lease("w", 0, 1), Fail(0, "w", 0)];
    assert Holds(Run(a), 0, "w");
  }

  lemma {:induction false} RoundsLeaveReady(m: int, k: nat)
    requires k < m
    ensures Run(Rounds(m, k)) == map[0 := ReadyRow(m, k)] && Count(Rounds(m, k), 0, Takeover) == 0
  {
    if k == 0 {
      FirstEnqueue(m);
    } else {
      RoundsLeaveReady(m, k - 1);
      OneRound(m, k, Rounds(m, k - 1));
    }
  }

  lemma OneRound(m: int, k: nat, calls: seq<Call>)
    requires 0 < k < m && Run(calls) == map[0 := ReadyRow(m, k - 1)] && Count(calls, 0, Takeover) == 0
    ensures Run(calls + [Lease("w", 0, 1), Fail(0, "w", 0), RequeueDue(0)]) == map[0 := ReadyRow(m, k)]
    ensures Count(calls + [Lease("w", 0, 1), Fail(0, "w", 0), RequeueDue(0)], 0, Takeover) == 0
  {
    var failed := calls + [Lease("w", 0, 1), Fail(0, "w", 0)];
    var r := Released(LeasedTo(ReadyRow(m, k - 1), "w", 0, 1), RetryScheduled).(retryAt := Some(0));
    LeaseAndFail(calls, ReadyRow(m, k - 1));
    RequeueLone(failed, r);
    assert failed + [RequeueDue(0)] == calls + [Lease("w", 0, 1), Fail(0, "w", 0), RequeueDue(0)];
    assert r.(state := Ready, retryAt := None) == ReadyRow(m, k);
  }

  lemma FirstEnqueue(m: int)
    ensures Run(Rounds(m, 0)) == map[0 := ReadyRow(m, 0)] && Count(Rounds(m, 0), 0, Takeover) == 0
  {
    var c := Enqueue(0, "key", "kind", "{}", m);
    RunSnoc([], c);
    assert Rounds(m, 0) == [] + [c];
  }

  lemma RequeueLone(calls: seq<Call>, r: Row)
    requires Run(calls) == map[0 := r] && r.state == RetryScheduled && r.retryAt == Some(0)
    requires Count(calls, 0, Takeover) == 0
    ensures Run(calls + [RequeueDue(0)]) == map[0 := r.(state := Ready, retryAt := None)]
    ensures Count(calls + [RequeueDue(0)], 0, Takeover) == 0
  {
    RunSnoc(calls, RequeueDue(0));
  }

  // For every m there is a run in which a job permitted m attempts changes state 3m - 1
  // times without a takeover.
  lemma BoundIsReached(m: int) returns (calls: seq<Call>)
    requires m >= 1
    ensures 0 in Run(calls) && Run(calls)[0].maxAttempts == m && Count(calls, 0, Takeover) == 0
    ensures Count(calls, 0, FreshLease) + Count(calls, 0, Retry) + Count(calls, 0, Requeue)
            + Count(calls, 0, Burial) + Count(calls, 0, Completion) == 3 * m - 1
  {
    RoundsLeaveReady(m, m - 1);
    LeaseAndFail(Rounds(m, m - 1), ReadyRow(m, m - 1));
    calls := Rounds(m, m - 1) + [Lease("w", 0, 1), Fail(0, "w", 0)];
    var row := Released(LeasedTo(ReadyRow(m, m - 1), "w", 0, 1), DeadLettered);
    assert Run(calls) == map[0 := row];
    assert row.attempts == m;
    BooksBalance(calls, 0);
    BuriedTally(row, TallyOf(calls, 0));
  }

  lemma BuriedTally(r: Row, n: Tally)
    requires Balanced(r, n) && r.state == DeadLettered && n.takeovers == 0
    ensures n.leases + n.retries + n.requeues + n.burials + n.completions == 3 * r.attempts - 1
  {
  }

  // ------------------------------------------------------------------ takeovers have no bound

  // The n-th lease of a job whose workers never report back runs from time 2n to 2n + 1.
  ghost function Crashes(m: int, n: nat): seq<Call> {
    if n == 0 then [Enqueue(0, "key", "kind", "{}", m)]
    else Crashes(m, n - 1) + [Lease("w", 2 * n, 2 * n + 1)]
  }

  // Whatever the limit, takeovers go on past it: for every n there is a run, without any
  // failure report, in which a job permitted m attempts has made n and is still leased.
  lemma {:induction false} AttemptsPassTheLimit(m: int, n: nat)
    ensures Run(Crashes(m, n)).Keys == {0} && forall c | c in Crashes(m, n) :: !c.Fail?
    ensures var r := Run(Crashes(m, n))[0];
      && r.attempts == n && r.maxAttempts == m && RowValid(r)
      && (if n == 0 then r.state == Ready else r.state == Leased && r.expiresAt == Some(2 * n + 1))
  {
    if n == 0 {
      FirstEnqueue(m);
      assert Crashes(m, 0) == Rounds(m, 0);
    } else {
      AttemptsPassTheLimit(m, n - 1);
      RunSnoc(Crashes(m, n - 1), Lease("w", 2 * n, 2 * n + 1));
      assert IsNext(Run(Crashes(m, n - 1)), 0, 2 * n);
    }
  }

  // ------------------------------------------------------------------ what lasts

  lemma {:induction false} RunFromConcat(t: Table, a: seq<Call>, b: seq<Call>)
    ensures RunFrom(t, a + b) == RunFrom(RunFrom(t, a), b)
    decreases |b|
  {
    if b == [] {
      assert a + b == a;
    } else {
      RunFromConcat(t, a, b[..|b| - 1]);
      assert (a + b)[..|a + b| - 1] == a + b[..|b| - 1];
    }
  }

  // A job, once there, keeps its key, its work and its attempt limit for ever; and once it
  // is completed or dead-lettered its whole row is frozen.
  lemma {:induction false} JobsLast(t: Table, more: seq<Call>, j: JobId)
    requires j in t
    ensures j in RunFrom(t, more)
    ensures var r, s := t[j], RunFrom(t, more)[j];
      && s.key == r.key && s.kind == r.kind && s.payload == r.payload && s.maxAttempts == r.maxAttempts
      && (r.state in {Completed, DeadLettered} ==> s == r)
  {
    if more != [] {
      JobsLast(t, more[..|more| - 1], j);
    }
  }

  // Each idempotency key names one job for ever: after any calls, enqueueing under the key
  // again inserts nothing, and the key is found on that job only.
  lemma KeyNamesOneJob(calls: seq<Call>, more: seq<Call>, j: JobId, c: Call)
    requires j in Run(calls) && c.Enqueue? && c.key == Run(calls)[j].key
    ensures Apply(Run(calls + more), c) == Run(calls + more)
    ensures forall i | i in Run(calls + more) :: Run(calls + more)[i].key == c.key <==> i == j
  {
    RunFromConcat(map[], calls, more);
    JobsLast(Run(calls), more, j);
    RunValid(calls + more);
    assert KeyTaken(Run(calls + more), c.key);
  }

  // No call of `more`, made from table t on, gives worker a the lease of job j.
  ghost predicate NeverLeasedTo(t: Table, more: seq<Call>, j: JobId, a: string) {
    forall i | 0 <= i < |more| ::
      !(more[i].Lease? && more[i].owner == a && IsNext(RunFrom(t, more[..i]), j, more[i].now))
  }

  lemma {:induction false} StaysDisplaced(t: Table, more: seq<Call>, j: JobId, a: string)
    requires j in t && t[j].owner != Some(a) && NeverLeasedTo(t, more, j, a)
    ensures j in RunFrom(t, more) && RunFrom(t, more)[j].owner != Some(a)
  {
    if more != [] {
      var init, c := more[..|more| - 1], more[|more| - 1];
      forall i | 0 <= i < |init|
        ensures !(init[i].Lease? && init[i].owner == a && IsNext(RunFrom(t, init[..i]), j, init[i].now))
      {
        assert more[..i] == init[..i];
        assert !(more[i].Lease? && more[i].owner == a && IsNext(RunFrom(t, more[..i]), j, more[i].now));
      }
      StaysDisplaced(t, init, j, a);
      var i := |more| - 1;
      assert !(more[i].Lease? && more[i].owner == a && IsNext(RunFrom(t, more[..i]), j, more[i].now));
    }
  }

  // A worker that does not own a job, for instance because another worker took its expired
  // lease over, can change nothing about it until it is given the lease again: its
  // heartbeats, completions and failure reports leave the whole table as it is.
  lemma DisplacedWorkerIsPowerless(calls: seq<Call>, more: seq<Call>, j: JobId, a: string, c: Call)
    requires j in Run(calls) && Run(calls)[j].owner != Some(a) && NeverLeasedTo(Run(calls), more, j, a)
    requires (c.Heartbeat? || c.Complete? || c.Fail?) && c.id == j && c.owner == a
    ensures Apply(Run(calls + more), c) == Run(calls + more)
  {
    RunFromConcat(map[], calls, more);
    StaysDisplaced(Run(calls), more, j, a);
  }

  // The call is no lease call made after the row's lease expires, and no call of its holder
  // about the job.
  predicate Respects(c: Call, j: JobId, r: Row) {
    && (c.Lease? ==> r.expiresAt.Some? && c.now <= r.expiresAt.value)
    && (c.Heartbeat? || c.Complete? || c.Fail? ==> c.id != j || Some(c.owner) != r.owner)
  }

  // A lease is exclusive until it expires: over any calls made by then, by anyone but its
  // holder, the job's row does not change at all.
  lemma LeaseIsExclusive(calls: seq<Call>, more: seq<Call>, j: JobId)
    requires j in Run(calls) && Run(calls)[j].state == Leased
    requires forall c | c in more :: Respects(c, j, Run(calls)[j])
    ensures j in Run(calls + more) && Run(calls + more)[j] == Run(calls)[j]
  {
    RunFromConcat(map[], calls, more);
    RespectedLease(Run(calls), more, j);
  }

  lemma {:induction false} RespectedLease(t: Table, more: seq<Call>, j: JobId)
    requires j in t && t[j].state == Leased && forall c | c in more :: Respects(c, j, t[j])
    ensures j in RunFrom(t, more) && RunFrom(t, more)[j] == t[j]
  {
    if more != [] {
      var init, c := more[..|more| - 1], more[|more| - 1];
      RespectedLease(t, init, j);
      assert Respects(c, j, t[j]);
    }
  }

  // A heartbeat the queue accepts moves the end of the lease: over any calls made by the new
  // end, by anyone but the holder, the row stays as the heartbeat wrote it.
  lemma HeartbeatExtendsLease(calls: seq<Call>, j: JobId, owner: string, now: int, until: int, more: seq<Call>)
    requires j in Run(calls) && Run(calls)[j].state == Leased && Run(calls)[j].owner == Some(owner)
    requires forall c | c in more ::
      && (c.Lease? ==> c.now <= until)
      && (c.Heartbeat? || c.Complete? || c.Fail? ==> c.id != j || c.owner != owner)
    ensures var t := Run(calls + [Heartbeat(j, owner, now, until)] + more);
      j in t && t[j] == Run(calls)[j].(heartbeatAt := Some(now), expiresAt := Some(until))
  {
    var extended := calls + [Heartbeat(j, owner, now, until)];
    RunSnoc(calls, Heartbeat(j, owner, now, until));
    assert Holds(Run(calls), j, owner);
    forall c | c in more ensures Respects(c, j, Run(extended)[j]) {
    }
    LeaseIsExclusive(extended, more, j);
  }

  // A lease call changes one job at most, and only one that is ready or whose lease ran out
  // before it.
  lemma LeaseTakesOneJob(t: Table, c: Call, i: JobId, k: JobId)
    requires c.Lease? && EventOf(t, c, i) != Nothing && EventOf(t, c, k) != Nothing
    ensures i == k && IsNext(t, i, c.now)
  {
    assert !Inserts(t, c);
    assert i in t && k in t;
  }
}
