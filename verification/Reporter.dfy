// The audit reporter: a durable local queue and the upload of its batches.

module ReportQueue {
  import opened Common
  import opened DurableAck

  datatype Row = Row(id: nat, event: Event, retryCount: nat)

  predicate Has(rows: seq<Row>, id: nat) { exists i :: 0 <= i < |rows| && rows[i].id == id }

  ghost predicate DistinctRows(rows: seq<Row>) {
    forall i, j :: 0 <= i < j < |rows| ==> rows[i].id != rows[j].id
  }

  function Ids(rows: seq<Row>): (ids: seq<nat>)
    ensures |ids| == |rows| && forall i :: 0 <= i < |rows| ==> ids[i] == rows[i].id
  {
    if rows == [] then [] else [rows[0].id] + Ids(rows[1..])
  }

  function Events(rows: seq<Row>): (events: seq<Event>)
    ensures |events| == |rows| && forall i :: 0 <= i < |rows| ==> events[i] == rows[i].event
  {
    if rows == [] then [] else [rows[0].event] + Events(rows[1..])
  }

  function Without(rows: seq<Row>, ids: seq<nat>): (left: seq<Row>)
    ensures |left| <= |rows|
    ensures forall row :: row in left <==> row in rows && row.id !in ids
  {
    if rows == [] then []
    else (if rows[0].id in ids then [] else [rows[0]]) + Without(rows[1..], ids)
  }

  function Bumped(rows: seq<Row>, ids: seq<nat>): (left: seq<Row>)
    ensures |left| == |rows|
    ensures forall i :: 0 <= i < |rows| ==>
      left[i] == if rows[i].id in ids then rows[i].(retryCount := rows[i].retryCount + 1) else rows[i]
  {
    if rows == [] then []
    else
      [if rows[0].id in ids then rows[0].(retryCount := rows[0].retryCount + 1) else rows[0]] + Bumped(rows[1..], ids)
  }

  lemma {:induction false} WithoutNone(rows: seq<Row>, ids: seq<nat>)
    requires forall i :: 0 <= i < |rows| ==> rows[i].id !in ids
    ensures Without(rows, ids) == rows
  {
    if rows != [] { WithoutNone(rows[1..], ids); }
  }

  lemma {:induction false} WithoutKeepsDistinct(rows: seq<Row>, ids: seq<nat>)
    requires DistinctRows(rows)
    ensures DistinctRows(Without(rows, ids))
  {
    if rows != [] {
      var rest := Without(rows[1..], ids);
      WithoutKeepsDistinct(rows[1..], ids);
      forall i | 0 <= i < |rest| ensures rest[i].id != rows[0].id {
        assert rest[i] in rest && rest[i] in rows[1..];
      }
    }
  }

  lemma {:induction false} WithoutAll(rows: seq<Row>, ids: seq<nat>, more: seq<Row>)
    requires forall i :: 0 <= i < |rows| ==> rows[i].id in ids
    ensures Without(rows + more, ids) == Without(more, ids)
  {
    if rows == [] {
      assert rows + more == more;
    } else {
      assert (rows + more)[1..] == rows[1..] + more;
      WithoutAll(rows[1..], ids, more);
    }
  }

  lemma WithoutFront(batch: seq<Row>, more: seq<Row>)
    requires DistinctRows(batch + more)
    ensures Without(batch + more, Ids(batch)) == more
  {
    IdsAreTheirs(batch);
    forall i | 0 <= i < |more| ensures more[i].id !in Ids(batch) {
      NotInFront(batch, more, i);
    }
    WithoutAll(batch, Ids(batch), more);
    WithoutNone(more, Ids(batch));
  }

  lemma IdsAreTheirs(batch: seq<Row>)
    ensures forall i :: 0 <= i < |batch| ==> batch[i].id in Ids(batch)
  {
    assert forall i :: 0 <= i < |batch| ==> Ids(batch)[i] == batch[i].id;
  }

  lemma NotInFront(batch: seq<Row>, more: seq<Row>, i: nat)
    requires DistinctRows(batch + more) && i < |more|
    ensures more[i].id !in Ids(batch)
  {
    var rows := batch + more;
    assert rows[|batch| + i] == more[i];
    forall j | 0 <= j < |batch| ensures Ids(batch)[j] != more[i].id {
      assert rows[j] == batch[j];
    }
  }

  /** Acknowledging the first rows of the queue leaves exactly the rows behind them, in order. */
  lemma WithoutPrefix(rows: seq<Row>, k: nat)
    requires DistinctRows(rows) && k <= |rows|
    ensures Without(rows, Ids(rows[..k])) == rows[k..]
    ensures forall i :: 0 <= i < k ==> Has(rows, Ids(rows[..k])[i])
  {
    assert rows == rows[..k] + rows[k..];
    WithoutFront(rows[..k], rows[k..]);
    PrefixIsThere(rows, k);
  }

  lemma PrefixIsThere(rows: seq<Row>, k: nat)
    requires k <= |rows|
    ensures forall i :: 0 <= i < k ==> Has(rows, Ids(rows[..k])[i])
  {
    forall i | 0 <= i < k ensures Has(rows, Ids(rows[..k])[i]) {
      assert Ids(rows[..k])[i] == rows[i].id;
    }
  }

  // The storage contract: acknowledging is all or nothing.
  class Storage {
    var rows: seq<Row>
    var nextId: nat
    var lastError: bool

    ghost predicate Valid()
      reads this
    {
      DistinctRows(rows) && forall i :: 0 <= i < |rows| ==> rows[i].id < nextId
    }

    constructor ()
      ensures Valid() && rows == []
    {
      rows, nextId, lastError := [], 0, false;
    }

    // Each operation takes effect as a whole, or fails and changes nothing.
    method GetPending(limit: nat, fails: bool) returns (batch: Option<seq<Row>>)
      ensures batch == if fails then None else Some(rows[..Min(limit, |rows|)])
    {
      batch := if fails then None else Some(rows[..Min(limit, |rows|)]);
    }

    method Enqueue(event: Event, fails: bool) returns (ok: bool)
      requires Valid()
      modifies this
      ensures Valid() && ok == !fails
      ensures rows == if ok then old(rows) + [Row(old(nextId), event, 0)] else old(rows)
    {
      ok := !fails;
      if ok { rows, nextId := rows + [Row(nextId, event, 0)], nextId + 1; }
    }

    method Acknowledge(ids: seq<nat>, fails: bool) returns (ok: bool)
      requires Valid()
      modifies this
      ensures ok <==> !fails && forall i :: 0 <= i < |ids| ==> Has(old(rows), ids[i])
      ensures rows == if ok then Without(old(rows), ids) else old(rows)
      ensures Valid() && nextId == old(nextId)
    {
      ok := !fails && forall i :: 0 <= i < |ids| ==> Has(rows, ids[i]);
      if ok {
        WithoutKeepsDistinct(rows, ids);
        rows, lastError := Without(rows, ids), false;
        assert forall i :: 0 <= i < |rows| ==> rows[i] in rows;
      }
    }

    method RecordFailure(ids: seq<nat>, fails: bool) returns (ok: bool)
      requires Valid()
      modifies this
      ensures Valid() && ok == !fails && nextId == old(nextId)
      ensures rows == if ok then Bumped(old(rows), ids) else old(rows)
      ensures lastError == (ok || old(lastError))
    {
      ok := !fails;
      if ok { rows, lastError := Bumped(rows, ids), true; }
    }
  }
}

module Reporting {
  import opened Common
  import opened DurableAck
  import opened ReportQueue

  // What the destination check sees of an API endpoint.
  datatype ApiUrl = ApiUrl(parses: bool, knownRoute: bool, origin: string, organization: Option<Uuid>, deployed: bool)

  // An organization's ingestion route at a host.
  datatype Endpoint = Endpoint(origin: string, organization: Uuid)

  datatype Config = Config(
    enabled: bool, localOnly: bool, api: Option<ApiUrl>, hasBatchEndpoint: bool, explicitDurable: bool,
    maxQueueSize: nat, maxRetries: nat)

  // How a batch is delivered: with exact receipts from an organization, by
  // HTTP status alone, or not at all.
  datatype Destination = Durable(endpoint: Endpoint) | Generic | Refused

  function DestinationFor(config: Config): Destination {
    var known := config.api.Some? && config.api.value.parses && config.api.value.knownRoute;
    if !config.explicitDurable && !known then Generic
    else if config.api.None? || !config.api.value.parses || config.api.value.organization.None?
            || !config.api.value.deployed then Refused
    else Durable(Endpoint(config.api.value.origin, config.api.value.organization.value))
  }

  /**
   * Asking for durable delivery, or naming the known route, is never answered
   * by a delivery on the HTTP status alone: it takes a deployed endpoint of an
   * organization, or nothing is sent.
   */
  lemma DestinationExactly(config: Config, endpoint: Endpoint)
    ensures DestinationFor(config).Generic? <==>
      !config.explicitDurable && (config.api.Some? ==> !(config.api.value.parses && config.api.value.knownRoute))
    ensures DestinationFor(config) == Durable(endpoint) <==>
      && config.api.Some? && config.api.value.parses && (config.explicitDurable || config.api.value.knownRoute)
      && config.api.value.deployed && config.api.value.origin == endpoint.origin
      && config.api.value.organization == Some(endpoint.organization)
  {}

  // ------------------------------------------------------------ attempts

  datatype AuthReply = Granted(authority: Authority) | Denied(retryable: bool)

  datatype Body = Ack(ack: Acknowledgement, now: int) | Unreadable(retryable: bool)

  datatype PostReply = Lost | Http(code: nat, body: Body)

  // What the network shows during one attempt.
  datatype Observation = Observation(auth: AuthReply, reply: PostReply)

  datatype AttemptResult = Delivered | Failed(retryable: bool)

  datatype Attempted = Attempted(authority: Option<Authority>, posted: bool, result: AttemptResult)

  predicate ValidAuthority(a: Authority, organization: Uuid) {
    && a.kind == CONTRACT
    && a.organizationId == organization
    && UuidV4(a.producerId)
    && a.maxBatch == MAX_BATCH
    && a.receiptStorage == "organization_service.audit_events"
    && a.scope == "authenticated_api_key"
    && a.evidence == "client_reported_offline_verification"
  }

  /** One kind of authority is valid for an organization, whatever version 4 producer it names. */
  lemma ValidAuthorityExactly(a: Authority, organization: Uuid)
    ensures ValidAuthority(a, organization) <==>
      && UuidV4(a.producerId)
      && a == Authority("offline-verification-ingest.v1", organization, a.producerId, 100,
                        "organization_service.audit_events", "authenticated_api_key", "client_reported_offline_verification")
  {}

  predicate RetryableStatus(code: nat) { code == 429 || 500 <= code < 600 }

  // One pass of the retry loop: authorize unless an authority is held, then
  // post the batch and judge the reply.
  function Attempt(destination: Destination, expected: ExpectedBatch, held: Option<Authority>, obs: Observation): Attempted {
    match destination
    case Durable(endpoint) =>
      if held.Some? then Attempted(held, true, JudgeReceipts(held.value, expected, obs.reply))
      else if obs.auth.Denied? then Attempted(None, false, Failed(obs.auth.retryable))
      else if !ValidAuthority(obs.auth.authority, endpoint.organization) then Attempted(None, false, Failed(false))
      else Attempted(Some(obs.auth.authority), true, JudgeReceipts(obs.auth.authority, expected, obs.reply))
    case Generic => Attempted(None, true, JudgeStatus(obs.reply))
    case Refused => Attempted(None, false, Failed(false))
  }

  function JudgeStatus(reply: PostReply): AttemptResult {
    if reply.Lost? then Failed(true)
    else if 200 <= reply.code < 300 then Delivered
    else Failed(RetryableStatus(reply.code))
  }

  function JudgeReceipts(authority: Authority, expected: ExpectedBatch, reply: PostReply): AttemptResult {
    if reply.Lost? || !(200 <= reply.code < 300) then JudgeStatus(reply)
    else if reply.code != 200 then Failed(false)
    else match reply.body
      case Unreadable(retryable) => Failed(retryable)
      case Ack(ack, now) => if Exact(ack, authority, expected, now) then Delivered else Failed(false)
  }

  // ---------------------------------------------------------- retry loop

  datatype Run = Run(delivered: bool, attempts: nat, backoffMs: nat)

  const RETRY_CAP := 10

  function BackoffMs(attempt: nat): nat {
    100 * (if attempt == 0 then 1 else if attempt == 1 then 2 else if attempt == 2 then 4 else if attempt == 3 then 8 else 16)
  }

  function RunFrom(destination: Destination, expected: ExpectedBatch, held: Option<Authority>,
                   attempt: nat, retries: nat, network: nat -> Observation): Run
    requires attempt <= retries
    decreases retries - attempt
  {
    var a := Attempt(destination, expected, held, network(attempt));
    if a.result.Delivered? then Run(true, 1, 0)
    else if a.result.retryable && attempt < retries then
      var rest := RunFrom(destination, expected, a.authority, attempt + 1, retries, network);
      Run(rest.delivered, rest.attempts + 1, rest.backoffMs + BackoffMs(attempt))
    else Run(false, 1, 0)
  }

  lemma {:induction false} RunIsBounded(destination: Destination, expected: ExpectedBatch, held: Option<Authority>,
                                        attempt: nat, retries: nat, network: nat -> Observation)
    requires attempt <= retries <= RETRY_CAP
    ensures var run := RunFrom(destination, expected, held, attempt, retries, network);
      1 <= run.attempts <= retries - attempt + 1
      && run.backoffMs <= (if attempt >= 4 then 1600 * (10 - attempt) else 11100 - 100 * (BackoffMs(attempt) / 100 - 1))
    decreases retries - attempt
  {
    var a := Attempt(destination, expected, held, network(attempt));
    if a.result.Failed? && a.result.retryable && attempt < retries {
      RunIsBounded(destination, expected, a.authority, attempt + 1, retries, network);
    }
  }

  /** The loop makes at most min(max_retries, 10) + 1 attempts and waits at most 11.1 seconds in all. */
  lemma FlushIsBounded(destination: Destination, expected: ExpectedBatch, maxRetries: nat, network: nat -> Observation)
    ensures var run := RunFrom(destination, expected, None, 0, Min(maxRetries, RETRY_CAP), network);
      run.attempts <= Min(maxRetries, 10) + 1 && run.backoffMs <= 11100
  {
    RunIsBounded(destination, expected, None, 0, Min(maxRetries, RETRY_CAP), network);
  }

  /** Once an authority is held it is reused: later authorization replies cannot change the run. */
  lemma {:induction false} AuthorityIsReused(destination: Destination, expected: ExpectedBatch, held: Authority,
                                             attempt: nat, retries: nat, one: nat -> Observation, other: nat -> Observation)
    requires attempt <= retries && destination.Durable?
    requires forall n: nat :: one(n).reply == other(n).reply
    ensures RunFrom(destination, expected, Some(held), attempt, retries, one)
         == RunFrom(destination, expected, Some(held), attempt, retries, other)
    decreases retries - attempt
  {
    var a := Attempt(destination, expected, Some(held), one(attempt));
    assert one(attempt).reply == other(attempt).reply;
    if a.result.Failed? && a.result.retryable && attempt < retries {
      AuthorityIsReused(destination, expected, held, attempt + 1, retries, one, other);
    }
  }

  /** A durable run delivers only on an exact acknowledgement of the whole batch under a valid authority. */
  lemma {:induction false} DeliveredMeansExact(destination: Destination, expected: ExpectedBatch, held: Option<Authority>,
                                               attempt: nat, retries: nat, network: nat -> Observation)
    requires attempt <= retries && destination.Durable?
    requires held.Some? ==> ValidAuthority(held.value, destination.endpoint.organization)
    requires RunFrom(destination, expected, held, attempt, retries, network).delivered
    ensures exists n: nat, authority ::
      attempt <= n <= retries && ValidAuthority(authority, destination.endpoint.organization)
      && network(n).reply.Http? && network(n).reply.body.Ack?
      && Exact(network(n).reply.body.ack, authority, expected, network(n).reply.body.now)
    decreases retries - attempt
  {
    var a := Attempt(destination, expected, held, network(attempt));
    if a.result.Delivered? {
      assert ValidAuthority(a.authority.value, destination.endpoint.organization);
    } else {
      DeliveredMeansExact(destination, expected, a.authority, attempt + 1, retries, network);
    }
  }

  // --------------------------------------- the run, from what is observed

  // The first authority granted in the attempts up to the n-th.
  ghost function FirstGranted(network: nat -> Observation, n: nat): Option<Authority> {
    if n > 0 && FirstGranted(network, n - 1).Some? then FirstGranted(network, n - 1)
    else if network(n).auth.Granted? then Some(network(n).auth.authority)
    else None
  }

  // Lost, told to wait, or answered by a server error.
  predicate Transient(reply: PostReply) {
    reply.Lost? || reply.code == 429 || reply.code / 100 == 5
  }

  ghost predicate FailsForNow(destination: Destination, network: nat -> Observation, n: nat) {
    match destination
    case Refused => false
    case Generic => Transient(network(n).reply)
    case Durable(endpoint) =>
      match FirstGranted(network, n)
      case None => network(n).auth.retryable
      case Some(authority) =>
        && ValidAuthority(authority, endpoint.organization)
        && (Transient(network(n).reply)
            || (network(n).reply.code == 200 && network(n).reply.body.Unreadable? && network(n).reply.body.retryable))
  }

  ghost predicate Succeeds(destination: Destination, expected: ExpectedBatch, network: nat -> Observation, n: nat) {
    match destination
    case Refused => false
    case Generic => network(n).reply.Http? && network(n).reply.code / 100 == 2
    case Durable(endpoint) =>
      && FirstGranted(network, n).Some? && ValidAuthority(FirstGranted(network, n).value, endpoint.organization)
      && network(n).reply.Http? && network(n).reply.code == 200 && network(n).reply.body.Ack?
      && Exact(network(n).reply.body.ack, FirstGranted(network, n).value, expected, network(n).reply.body.now)
  }

  // The n-th attempt is the last: all before it failed for now, and it did not
  // or is the last allowed.
  ghost predicate EndsAt(destination: Destination, network: nat -> Observation, from: nat, n: nat, retries: nat) {
    && from <= n <= retries
    && (forall i :: from <= i < n ==> FailsForNow(destination, network, i))
    && (n == retries || !FailsForNow(destination, network, n))
  }

  // The waiting before the n-th attempt, counted from 0: doubling up to 1.6 seconds.
  function Waits(n: nat): nat {
    if n <= 4 then [0, 100, 300, 700, 1500][n] else 1500 + 1600 * (n - 4)
  }

  // The authority held when the n-th attempt begins.
  ghost predicate Held(destination: Destination, held: Option<Authority>, network: nat -> Observation, n: nat) {
    destination.Durable? ==>
      && held == (if n == 0 then None else FirstGranted(network, n - 1))
      && (held.Some? ==> ValidAuthority(held.value, destination.endpoint.organization))
  }

  lemma AttemptExactly(destination: Destination, expected: ExpectedBatch, held: Option<Authority>, network: nat -> Observation, n: nat)
    requires Held(destination, held, network, n)
    ensures var a := Attempt(destination, expected, held, network(n));
      && (a.result.Delivered? <==> Succeeds(destination, expected, network, n))
      && (a.result.Failed? && a.result.retryable <==> FailsForNow(destination, network, n))
      && (a.result.Failed? && a.result.retryable ==> Held(destination, a.authority, network, n + 1))
  {
    if destination.Durable? { assert held.Some? ==> FirstGranted(network, n) == held; }
  }

  lemma {:induction false} RunExactly(destination: Destination, expected: ExpectedBatch, held: Option<Authority>,
                                      attempt: nat, retries: nat, network: nat -> Observation)
    requires attempt <= retries && Held(destination, held, network, attempt)
    ensures var run := RunFrom(destination, expected, held, attempt, retries, network);
      && run.attempts > 0
      && var n := attempt + run.attempts - 1;
      && EndsAt(destination, network, attempt, n, retries)
      && (run.delivered <==> Succeeds(destination, expected, network, n))
      && run.backoffMs == Waits(n) - Waits(attempt)
    decreases retries - attempt
  {
    var a := Attempt(destination, expected, held, network(attempt));
    AttemptExactly(destination, expected, held, network, attempt);
    if a.result.Failed? && a.result.retryable && attempt < retries {
      RunExactly(destination, expected, a.authority, attempt + 1, retries, network);
    }
  }

  /**
   * A run ends with the first attempt that does not fail for now, or with the
   * last one allowed; it delivers exactly if that attempt succeeds, and waits
   * the back-off times in between.
   */
  lemma RunIsObserved(destination: Destination, expected: ExpectedBatch, maxRetries: nat, network: nat -> Observation)
    ensures var run := RunFrom(destination, expected, None, 0, Min(maxRetries, RETRY_CAP), network);
      && run.attempts > 0
      && EndsAt(destination, network, 0, run.attempts - 1, if maxRetries < 10 then maxRetries else 10)
      && (run.delivered <==> Succeeds(destination, expected, network, run.attempts - 1))
      && run.backoffMs == Waits(run.attempts - 1)
  {
    RunExactly(destination, expected, None, 0, Min(maxRetries, RETRY_CAP), network);
  }

  // What is submitted of a batch: the expectation its acknowledgement must
  // meet, or nothing if the destination or the batch rules out delivery.
  ghost function Submission(config: Config, events: seq<Event>, digest: Event -> string): Option<ExpectedBatch> {
    match DestinationFor(config)
    case Refused => None
    case Generic => Some(map[])
    case Durable(_) => if WellFormedBatch(events) then Some(Expectation(events, digest)) else None
  }

  // Which of a flush's storage operations fail, and whether its HTTP client cannot be set up.
  datatype Faults = Faults(reading: bool, client: bool, acknowledging: bool, recording: bool)

  const NO_RUN := Run(false, 0, 0)

  ghost function FlushOutcome(config: Config, rows: seq<Row>, digest: Event -> string, network: nat -> Observation, faults: Faults)
    : (FlushResult, Run, seq<Row>)
  {
    var batch := rows[..Min(100, |rows|)];
    if !config.enabled || config.localOnly then (Flushed(0), NO_RUN, rows)
    else if faults.reading then (StorageError, NO_RUN, rows)
    else if rows == [] then (Flushed(0), NO_RUN, rows)
    else if config.api.None? && !config.hasBatchEndpoint then (NoEndpoint, NO_RUN, rows)
    else match Submission(config, Events(batch), digest)
      case None => Unsent(rows, |batch|, NO_RUN, faults)
      case Some(expected) =>
        if faults.client then (NoClient, NO_RUN, rows)
        else Uploaded(rows, |batch|, RunFrom(DestinationFor(config), expected, None, 0, Min(config.maxRetries, RETRY_CAP), network), faults)
  }

  ghost function Uploaded(rows: seq<Row>, k: nat, run: Run, faults: Faults): (FlushResult, Run, seq<Row>)
    requires k <= |rows|
  {
    if !run.delivered then Unsent(rows, k, run, faults)
    else if faults.acknowledging then (StorageError, run, rows)
    else (Flushed(k), run, rows[k..])
  }

  ghost function Unsent(rows: seq<Row>, k: nat, run: Run, faults: Faults): (FlushResult, Run, seq<Row>)
    requires k <= |rows|
  {
    if faults.recording then (StorageError, run, rows) else (NetworkError, run, Bumped(rows, Ids(rows[..k])))
  }

  // Row by row the same events, with the first k counted as failed once more.
  ghost predicate FailedOnce(rows: seq<Row>, k: nat, left: seq<Row>) {
    && |left| == |rows|
    && forall i :: 0 <= i < |rows| ==>
         left[i] == if i < k then rows[i].(retryCount := rows[i].retryCount + 1) else rows[i]
  }

  // Some attempt within the bound got an exact acknowledgement under a valid authority.
  ghost predicate Receipted(expected: ExpectedBatch, organization: Uuid, retries: nat, network: nat -> Observation) {
    exists n: nat, authority ::
      n <= retries && ValidAuthority(authority, organization)
      && network(n).reply.Http? && network(n).reply.body.Ack?
      && Exact(network(n).reply.body.ack, authority, expected, network(n).reply.body.now)
  }

  lemma BumpedPrefix(rows: seq<Row>, k: nat)
    requires DistinctRows(rows) && k <= |rows|
    ensures FailedOnce(rows, k, Bumped(rows, Ids(rows[..k])))
  {
    var ids := Ids(rows[..k]);
    forall i | 0 <= i < |rows| ensures rows[i].id in ids <==> i < k {
      if i < k { assert ids[i] == rows[i].id; }
      if rows[i].id in ids {
        var j :| 0 <= j < |ids| && ids[j] == rows[i].id;
        assert rows[j].id == rows[i].id;
      }
    }
  }

  // What a flush may do to the queue: delete the first k rows and report how
  // many, delete nothing and count one failure on each of them, or nothing.
  ghost predicate AllOrNothing(r: FlushResult, rows: seq<Row>, k: nat, left: seq<Row>)
    requires k <= |rows|
  {
    match r
    case Flushed(count) => (count == 0 && left == rows) || (count == k > 0 && left == rows[k..])
    case NetworkError => k > 0 && FailedOnce(rows, k, left)
    case NoEndpoint => left == rows
    case NoClient => left == rows
    case StorageError => left == rows
  }

  lemma UploadedIsAllOrNothing(rows: seq<Row>, k: nat, run: Run, faults: Faults)
    requires DistinctRows(rows) && 0 < k <= |rows|
    ensures var (r, _, left) := Uploaded(rows, k, run, faults);
      AllOrNothing(r, rows, k, left) && (r.Flushed? ==> run.delivered)
    ensures var (r, _, left) := Unsent(rows, k, run, faults); AllOrNothing(r, rows, k, left) && !r.Flushed?
  {
    BumpedPrefix(rows, k);
  }

  /**
   * A flush deletes the oldest rows, at most a hundred, and reports how many,
   * or deletes nothing and counts one failure on each row it submitted, or
   * leaves the queue alone. Towards a durable destination it deletes only
   * after an exact acknowledgement of just those rows. A storage failure
   * leaves every row as it was, even after a delivery.
   */
  lemma FlushDeletesSubmittedOrNothing(config: Config, rows: seq<Row>, digest: Event -> string, network: nat -> Observation,
                                       faults: Faults)
    requires DistinctRows(rows)
    ensures var (r, _, left) := FlushOutcome(config, rows, digest, network, faults);
      var k := Min(100, |rows|);
      && AllOrNothing(r, rows, k, left)
      && (left == rows[k..] != rows && DestinationFor(config).Durable? ==>
            Receipted(Expectation(Events(rows[..k]), digest), DestinationFor(config).endpoint.organization,
                      Min(config.maxRetries, RETRY_CAP), network))
  {
    var k, retries := Min(100, |rows|), Min(config.maxRetries, RETRY_CAP);
    var destination, expected := DestinationFor(config), Submission(config, Events(rows[..k]), digest);
    if k > 0 {
      UploadedIsAllOrNothing(rows, k, NO_RUN, faults);
      if expected.Some? {
        var run := RunFrom(destination, expected.value, None, 0, retries, network);
        UploadedIsAllOrNothing(rows, k, run, faults);
        if run.delivered && destination.Durable? {
          DeliveredMeansExact(destination, expected.value, None, 0, retries, network);
        }
      }
    }
  }

  // Something is to be sent and there is somewhere to send it.
  predicate Wanted(config: Config, rows: seq<Row>) {
    config.enabled && !config.localOnly && rows != [] && (config.api.Some? || config.hasBatchEndpoint)
  }

  // The batch may be sent to where the configuration says.
  ghost predicate Sendable(config: Config, rows: seq<Row>) {
    match DestinationFor(config)
    case Refused => false
    case Generic => true
    case Durable(_) => WellFormedBatch(Events(rows[..Min(100, |rows|)]))
  }

  // An attempt within the bound succeeds and all before it failed for now.
  ghost predicate Reaches(destination: Destination, expected: ExpectedBatch, maxRetries: nat, network: nat -> Observation, n: nat) {
    && n <= (if maxRetries < 10 then maxRetries else 10)
    && Succeeds(destination, expected, network, n)
    && forall i :: 0 <= i < n ==> FailsForNow(destination, network, i)
  }

  lemma SuccessIsNoFailure(destination: Destination, expected: ExpectedBatch, network: nat -> Observation, n: nat)
    requires Succeeds(destination, expected, network, n)
    ensures !FailsForNow(destination, network, n)
  {}

  lemma RunReaches(destination: Destination, expected: ExpectedBatch, maxRetries: nat, network: nat -> Observation)
    ensures var run := RunFrom(destination, expected, None, 0, Min(maxRetries, RETRY_CAP), network);
      && (run.delivered <==> exists n: nat :: Reaches(destination, expected, maxRetries, network, n))
      && (run.delivered ==>
            run.attempts > 0 && Reaches(destination, expected, maxRetries, network, run.attempts - 1)
            && run.backoffMs == Waits(run.attempts - 1))
  {
    var run := RunFrom(destination, expected, None, 0, Min(maxRetries, RETRY_CAP), network);
    RunIsObserved(destination, expected, maxRetries, network);
    assert run.delivered ==> Reaches(destination, expected, maxRetries, network, run.attempts - 1);
    forall n: nat | Reaches(destination, expected, maxRetries, network, n) ensures n == run.attempts - 1 {
      SuccessIsNoFailure(destination, expected, network, n);
      assert n < run.attempts - 1 ==> FailsForNow(destination, network, n);
    }
  }

  // What is submitted, as far as it matters to the destination.
  ghost function Submitted(config: Config, rows: seq<Row>, digest: Event -> string): ExpectedBatch {
    if DestinationFor(config).Durable? then Expectation(Events(rows[..Min(100, |rows|)]), digest) else map[]
  }

  /**
   * Said from the configuration and what is observed alone: a flush deletes
   * the oldest rows, at most a hundred, exactly if there is something to send
   * and it may be sent, neither the storage nor the client fails, and some
   * attempt within the bound succeeds after all before it failed for now.
   * It then made that many attempts.
   */
  lemma FlushDeletesExactly(config: Config, rows: seq<Row>, digest: Event -> string, network: nat -> Observation, faults: Faults)
    ensures var (r, run, left) := FlushOutcome(config, rows, digest, network, faults);
      r.Flushed? && r.count > 0
      <==> && Wanted(config, rows) && Sendable(config, rows)
           && !faults.reading && !faults.client && !faults.acknowledging
           && exists n: nat :: Reaches(DestinationFor(config), Submitted(config, rows, digest), config.maxRetries, network, n)
    ensures var (r, run, left) := FlushOutcome(config, rows, digest, network, faults);
      r.Flushed? && r.count > 0 ==>
        && run.attempts > 0 && run.backoffMs == Waits(run.attempts - 1)
        && Reaches(DestinationFor(config), Submitted(config, rows, digest), config.maxRetries, network, run.attempts - 1)
  {
    RunReaches(DestinationFor(config), Submitted(config, rows, digest), config.maxRetries, network);
  }

  /** Which of the other results a flush has. */
  lemma FlushFailsExactly(config: Config, rows: seq<Row>, digest: Event -> string, network: nat -> Observation, faults: Faults)
    ensures var (r, _, _) := FlushOutcome(config, rows, digest, network, faults);
      && (r == Flushed(0) <==> !config.enabled || config.localOnly || (!faults.reading && rows == []))
      && (r.NoEndpoint? <==> config.enabled && !config.localOnly && !faults.reading && rows != [] && !Wanted(config, rows))
      && (r.NoClient? <==> Wanted(config, rows) && !faults.reading && Sendable(config, rows) && faults.client)
      && (r.NetworkError? && !Sendable(config, rows) <==>
            Wanted(config, rows) && !faults.reading && !Sendable(config, rows) && !faults.recording)
  {}

  // ------------------------------------------------------------ reporter

  datatype QueueResult = Queued | Disabled | QueueFull | Unstored
  datatype FlushResult = Flushed(count: nat) | NoEndpoint | NoClient | NetworkError | StorageError

  class Reporter {
    const storage: Storage
    var config: Config

    constructor (storage: Storage, config: Config)
      ensures this.storage == storage && this.config == config
    {
      this.storage, this.config := storage, config;
    }

    method SetConfig(config: Config)
      modifies this
      ensures this.config == config
    {
      this.config := config;
    }

    method QueueEvent(event: Event, statusFails: bool, insertFails: bool) returns (r: QueueResult)
      requires storage.Valid()
      modifies storage
      ensures storage.Valid()
      ensures r == if !config.enabled then Disabled
                   else if statusFails then Unstored
                   else if |old(storage.rows)| >= config.maxQueueSize then QueueFull
                   else if insertFails then Unstored else Queued
      ensures storage.rows == if r == Queued then old(storage.rows) + [Row(old(storage.nextId), event, 0)] else old(storage.rows)
    {
      if !config.enabled { return Disabled; }
      if statusFails { return Unstored; }
      if |storage.rows| >= config.maxQueueSize { return QueueFull; }
      var ok := storage.Enqueue(event, insertFails);
      r := if ok then Queued else Unstored;
    }

    // With nothing else running meanwhile: deletes exactly the submitted
    // batch, or deletes nothing and counts one failure on each of its rows.
    method Flush(digest: Event -> string, network: nat -> Observation, faults: Faults) returns (r: FlushResult, run: Run)
      requires storage.Valid()
      modifies storage
      ensures storage.Valid()
      ensures (r, run, storage.rows) == FlushOutcome(config, old(storage.rows), digest, network, faults)
    {
      run := NO_RUN;
      if !config.enabled || config.localOnly { return Flushed(0), run; }
      var pending := storage.GetPending(100, faults.reading);
      if pending.None? { return StorageError, run; }
      var batch := pending.value;
      if batch == [] { return Flushed(0), run; }
      if config.api.None? && !config.hasBatchEndpoint { return NoEndpoint, run; }
      var destination := DestinationFor(config);
      var expected: ExpectedBatch := map[];
      if destination.Durable? {
        var made := FromRequest(Events(batch), digest);
        if made.Some? { expected := made.value; } else { destination := Refused; }
      }
      if destination.Refused? {
        r := FailedBatch(batch, faults);
        return;
      }
      if faults.client { return NoClient, run; }
      r, run := Upload(batch, destination, expected, network, faults);
    }

    method FailedBatch(batch: seq<Row>, faults: Faults) returns (r: FlushResult)
      requires storage.Valid() && batch <= storage.rows
      modifies storage
      ensures storage.Valid()
      ensures forall run :: (r, run, storage.rows) == Unsent(old(storage.rows), |batch|, run, faults)
    {
      assert batch == storage.rows[..|batch|];
      var ok := storage.RecordFailure(Ids(batch), faults.recording);
      r := if ok then NetworkError else StorageError;
    }

    method Upload(batch: seq<Row>, destination: Destination, expected: ExpectedBatch, network: nat -> Observation, faults: Faults)
      returns (r: FlushResult, run: Run)
      requires storage.Valid() && batch <= storage.rows
      modifies storage
      ensures storage.Valid()
      ensures run == RunFrom(destination, expected, None, 0, Min(config.maxRetries, RETRY_CAP), network)
      ensures (r, run, storage.rows) == Uploaded(old(storage.rows), |batch|, run, faults)
    {
      var delivered, attempts, backoffMs := Deliver(destination, expected, Min(config.maxRetries, RETRY_CAP), network);
      run := Run(delivered, attempts, backoffMs);
      assert batch == storage.rows[..|batch|];
      if !delivered {
        r := FailedBatch(batch, faults);
        return;
      }
      WithoutPrefix(storage.rows, |batch|);
      var ok := storage.Acknowledge(Ids(batch), faults.acknowledging);
      r := if ok then Flushed(|batch|) else StorageError;
    }

    // The retry loop over one batch under one configuration.
    method Deliver(destination: Destination, expected: ExpectedBatch, retries: nat, network: nat -> Observation)
      returns (delivered: bool, attempts: nat, backoffMs: nat)
      ensures Run(delivered, attempts, backoffMs) == RunFrom(destination, expected, None, 0, retries, network)
    {
      delivered, attempts, backoffMs := false, 0, 0;
      var authority: Option<Authority> := None;
      ghost var whole := RunFrom(destination, expected, None, 0, retries, network);
      var attempt := 0;
      while true
        invariant attempt <= retries && attempts == attempt && !delivered
        invariant var rest := RunFrom(destination, expected, authority, attempt, retries, network);
          whole == Run(rest.delivered, attempts + rest.attempts, backoffMs + rest.backoffMs)
        decreases retries - attempt
      {
        var a := Attempt(destination, expected, authority, network(attempt));
        authority, attempts := a.authority, attempts + 1;
        if a.result.Delivered? {
          delivered := true;
          break;
        }
        if a.result.retryable && attempt < retries {
          backoffMs := backoffMs + BackoffMs(attempt);
        } else {
          break;
        }
        attempt := attempt + 1;
      }
    }
  }
}
