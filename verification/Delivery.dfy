// Audit delivery as a step system: queue callers, overlapping flushes,
// configuration changes, restarts, a network that loses, delays and repeats
// requests and replies, and receivers, one for each endpoint, that store
// before they issue receipts.

module Delivery {
  import opened Common
  import opened DurableAck
  import opened ReportQueue
  import opened Reporting

  // A flush between two of its suspension points.
  datatype Flush =
    | Configured(config: Config)
    | Sending(batch: seq<Row>, destination: Destination, expected: ExpectedBatch, held: Option<Authority>,
              attempt: nat, retries: nat)
    | Acknowledging(batch: seq<Row>, destination: Destination)
    | Failing(batch: seq<Row>)

  // A posted event on its way to an endpoint, and one that is stored there.
  datatype Request = Request(endpoint: Endpoint, event: Event)
  datatype Record = Record(endpoint: Endpoint, event: Event, auditId: Uuid)

  datatype State = State(
    queue: seq<Row>,               // durable rows
    nextId: nat,
    config: Config,
    admitted: map<nat, Event>,     // queue_event callers past the size check, by caller
    tasks: map<nat, Flush>,        // flushes in progress, by task
    wire: set<Request>,            // requests that may still reach their endpoint
    receiver: seq<Record>,         // what is stored behind the endpoints
    accepted: map<nat, Event>,     // history: every row ever queued
    deleted: map<nat, Destination>) // history: every row deleted, and where its flush had sent it

  datatype Step =
    | Admit(caller: nat, event: Event)
    | Insert(caller: nat)
    | Configure(task: nat)
    | TakeBatch(task: nat)
    | Post(task: nat)
    | Store(request: Request, auditId: Uuid)
    | Reply(task: nat, obs: Observation)
    | Acknowledge(task: nat)
    | RecordFailure(task: nat)
    | Abandon(task: nat)
    | SetConfig(config: Config)
    | Restart

  predicate Stored(receiver: seq<Record>, endpoint: Endpoint, e: Event) {
    exists i :: 0 <= i < |receiver| && receiver[i].endpoint == endpoint && receiver[i].event == e
  }

  predicate KnownId(receiver: seq<Record>, endpoint: Endpoint, id: string) {
    exists i :: 0 <= i < |receiver| && receiver[i].endpoint == endpoint && receiver[i].event.eventId == id
  }

  // An endpoint issues receipts only for what it has stored. Nothing else
  // is assumed of a reply: it may be late, partial, repeated or for another batch.
  predicate Honest(receiver: seq<Record>, destination: Destination, obs: Observation) {
    destination.Durable? && obs.reply.Http? && obs.reply.body.Ack? ==>
      var receipts := obs.reply.body.ack.receipts;
      forall i :: 0 <= i < |receipts| ==>
        receipts[i].event.eventId == receipts[i].eventId && Stored(receiver, destination.endpoint, receipts[i].event)
  }

  // Event ids are fresh UUIDs.
  ghost predicate FreshEvent(s: State, e: Event) {
    && (forall id :: id in s.accepted ==> s.accepted[id].eventId != e.eventId)
    && (forall c :: c in s.admitted ==> s.admitted[c].eventId != e.eventId)
  }

  ghost predicate Enabled(s: State, step: Step) {
    match step
    case Admit(caller, event) =>
      s.config.enabled && |s.queue| < s.config.maxQueueSize && caller !in s.admitted && FreshEvent(s, event)
    case Insert(caller) => caller in s.admitted
    case Configure(task) => task !in s.tasks && s.config.enabled && !s.config.localOnly
    case TakeBatch(task) => task in s.tasks && s.tasks[task].Configured?
    case Post(task) => task in s.tasks && s.tasks[task].Sending?
    case Store(request, _) => request in s.wire && !KnownId(s.receiver, request.endpoint, request.event.eventId)
    case Reply(task, obs) => task in s.tasks && s.tasks[task].Sending? && Honest(s.receiver, s.tasks[task].destination, obs)
    case Acknowledge(task) => task in s.tasks && s.tasks[task].Acknowledging?
    case RecordFailure(task) => task in s.tasks && s.tasks[task].Failing?
    case Abandon(task) => task in s.tasks
    case SetConfig(config) => true
    case Restart => true
  }

  ghost function Take(s: State, config: Config, digest: Event -> string): Option<Flush> {
    var batch := s.queue[..Min(100, |s.queue|)];
    if batch == [] || (config.api.None? && !config.hasBatchEndpoint) then None
    else match Submission(config, Events(batch), digest)
      case None => Some(Failing(batch))
      case Some(expected) =>
        Some(Sending(batch, DestinationFor(config), expected, None, 0, Min(config.maxRetries, RETRY_CAP)))
  }

  function AfterReply(t: Flush, obs: Observation): Flush
    requires t.Sending?
  {
    var a := Attempt(t.destination, t.expected, t.held, obs);
    if a.result.Delivered? then Acknowledging(t.batch, t.destination)
    else if a.result.retryable && t.attempt < t.retries then t.(held := a.authority, attempt := t.attempt + 1)
    else Failing(t.batch)
  }

  // What a post puts on the wire. What a generic endpoint does with it is not modelled.
  ghost function Requests(t: Flush): set<Request>
    requires t.Sending?
  {
    if t.destination.Durable? then set e | e in Events(t.batch) :: Request(t.destination.endpoint, e) else {}
  }

  predicate AllPresent(queue: seq<Row>, ids: seq<nat>) { forall i :: 0 <= i < |ids| ==> Has(queue, ids[i]) }

  ghost function Apply(s: State, step: Step, digest: Event -> string): State
    requires Enabled(s, step)
  {
    match step
    case Admit(caller, event) => s.(admitted := s.admitted[caller := event])
    case Insert(caller) =>
      s.(queue := s.queue + [Row(s.nextId, s.admitted[caller], 0)], nextId := s.nextId + 1,
         accepted := s.accepted[s.nextId := s.admitted[caller]], admitted := s.admitted - {caller})
    case Configure(task) => s.(tasks := s.tasks[task := Configured(s.config)])
    case TakeBatch(task) =>
      var t := Take(s, s.tasks[task].config, digest);
      s.(tasks := if t.None? then s.tasks - {task} else s.tasks[task := t.value])
    case Post(task) => s.(wire := s.wire + Requests(s.tasks[task]))
    case Store(request, auditId) =>
      s.(receiver := s.receiver + [Record(request.endpoint, request.event, auditId)])
    case Reply(task, obs) => s.(tasks := s.tasks[task := AfterReply(s.tasks[task], obs)])
    case Acknowledge(task) =>
      var t := s.tasks[task];
      var ids := Ids(t.batch);
      if AllPresent(s.queue, ids) then
        s.(queue := Without(s.queue, ids), tasks := s.tasks - {task},
           deleted := s.deleted + map id | id in ids :: t.destination)
      else s.(tasks := s.tasks - {task})
    case RecordFailure(task) => s.(queue := Bumped(s.queue, Ids(s.tasks[task].batch)), tasks := s.tasks - {task})
    case Abandon(task) => s.(tasks := s.tasks - {task})
    case SetConfig(config) => s.(config := config)
    case Restart => s.(tasks := map[], admitted := map[])
  }

  ghost predicate Initial(s: State) {
    s.queue == [] && s.admitted == map[] && s.tasks == map[] && s.wire == {} && s.receiver == []
    && s.accepted == map[] && s.deleted == map[]
  }

  // The states a run goes through: each follows from the one before by an enabled step.
  ghost predicate Runs(states: seq<State>, steps: seq<Step>, digest: Event -> string) {
    && |states| == |steps| + 1
    && Initial(states[0])
    && forall i :: 0 <= i < |steps| ==> Enabled(states[i], steps[i]) && states[i + 1] == Apply(states[i], steps[i], digest)
  }

  // ----------------------------------------------------------- invariant

  // Rows are what the history says was queued under their ids.
  ghost predicate Recorded(rows: seq<Row>, accepted: map<nat, Event>) {
    forall i :: 0 <= i < |rows| ==> rows[i].id in accepted && accepted[rows[i].id] == rows[i].event
  }

  ghost predicate QueueInv(s: State) {
    DistinctRows(s.queue) && Recorded(s.queue, s.accepted) && forall id :: id in s.accepted ==> id < s.nextId
  }

  ghost predicate FreshInv(s: State) {
    && (forall i, j :: i in s.accepted && j in s.accepted && s.accepted[i].eventId == s.accepted[j].eventId ==> i == j)
    && (forall i, c :: i in s.accepted && c in s.admitted ==> s.accepted[i].eventId != s.admitted[c].eventId)
    && (forall c, d :: c in s.admitted && d in s.admitted && s.admitted[c].eventId == s.admitted[d].eventId ==> c == d)
  }

  ghost predicate AllStored(rows: seq<Row>, receiver: seq<Record>, endpoint: Endpoint) {
    forall i :: 0 <= i < |rows| ==> Stored(receiver, endpoint, rows[i].event)
  }

  ghost predicate TaskInv(t: Flush, s: State, digest: Event -> string) {
    match t
    case Configured(_) => true
    case Sending(batch, destination, expected, _, _, _) =>
      Recorded(batch, s.accepted) && !destination.Refused?
      && (destination.Durable? ==> WellFormedBatch(Events(batch)) && expected == Expectation(Events(batch), digest))
    case Acknowledging(batch, destination) =>
      Recorded(batch, s.accepted) && !destination.Refused?
      && (destination.Durable? ==> AllStored(batch, s.receiver, destination.endpoint))
    case Failing(batch) => Recorded(batch, s.accepted)
  }

  ghost predicate WasAccepted(e: Event, accepted: map<nat, Event>) {
    exists id :: id in accepted && accepted[id] == e
  }

  // No endpoint stores an event twice, or one that was never accepted.
  ghost predicate ReceiverInv(s: State) {
    && (forall request :: request in s.wire ==> WasAccepted(request.event, s.accepted))
    && (forall i :: 0 <= i < |s.receiver| ==> WasAccepted(s.receiver[i].event, s.accepted))
    && (forall i, j :: 0 <= i < j < |s.receiver| && s.receiver[i].endpoint == s.receiver[j].endpoint ==>
          s.receiver[i].event.eventId != s.receiver[j].event.eventId)
  }

  // An accepted event is either pending or deleted, and a deleted one is
  // stored at the endpoint whose flush deleted it.
  ghost predicate Accounted(s: State, id: nat)
    requires id in s.accepted
  {
    && (Has(s.queue, id) <==> id !in s.deleted)
    && (id in s.deleted ==> !s.deleted[id].Refused?)
    && (id in s.deleted && s.deleted[id].Durable? ==> Stored(s.receiver, s.deleted[id].endpoint, s.accepted[id]))
  }

  ghost predicate NothingLost(s: State) {
    && s.deleted.Keys <= s.accepted.Keys
    && forall id :: id in s.accepted ==> Accounted(s, id)
  }

  ghost predicate Inv(s: State, digest: Event -> string) {
    && QueueInv(s) && FreshInv(s) && ReceiverInv(s) && NothingLost(s)
    && forall t :: t in s.tasks ==> TaskInv(s.tasks[t], s, digest)
  }

  // ----------------------------------------------- each step, one at a time

  // A step that only replaces, adds or removes one task.
  lemma TaskChangeKeeps(s: State, task: nat, t: Option<Flush>, digest: Event -> string)
    requires Inv(s, digest) && (t.Some? ==> TaskInv(t.value, s, digest))
    ensures Inv(s.(tasks := if t.None? then s.tasks - {task} else s.tasks[task := t.value]), digest)
  {
    var s' := s.(tasks := if t.None? then s.tasks - {task} else s.tasks[task := t.value]);
    forall u | u in s'.tasks ensures TaskInv(s'.tasks[u], s', digest) {
      assert (t.Some? && u == task) || (u in s.tasks && s'.tasks[u] == s.tasks[u]);
    }
  }

  lemma HasGrows(queue: seq<Row>, row: Row, id: nat)
    ensures Has(queue + [row], id) <==> Has(queue, id) || id == row.id
  {
    if Has(queue, id) {
      var i :| 0 <= i < |queue| && queue[i].id == id;
      assert (queue + [row])[i].id == id;
    }
    assert (queue + [row])[|queue|] == row;
    if Has(queue + [row], id) && id != row.id {
      var i :| 0 <= i < |queue + [row]| && (queue + [row])[i].id == id;
      assert queue[i].id == id;
    }
  }

  lemma InsertKeeps(s: State, caller: nat, digest: Event -> string)
    requires Inv(s, digest) && Enabled(s, Insert(caller))
    ensures Inv(Apply(s, Insert(caller), digest), digest)
  {
    var s' := Apply(s, Insert(caller), digest);
    HistoryGrows(s, s'.accepted, digest);
    InsertKeepsFresh(s, caller);
    InsertKeepsQueue(s, caller);
    forall id | id in s'.accepted ensures Accounted(s', id) {
      InsertAccounts(s, caller, id, digest);
    }
    forall t | t in s'.tasks ensures TaskInv(s'.tasks[t], s', digest) {
      assert TaskInv(s.tasks[t], s.(accepted := s'.accepted), digest);
    }
  }

  lemma InsertKeepsQueue(s: State, caller: nat)
    requires QueueInv(s) && caller in s.admitted
    ensures QueueInv(s.(queue := s.queue + [Row(s.nextId, s.admitted[caller], 0)], nextId := s.nextId + 1,
                        accepted := s.accepted[s.nextId := s.admitted[caller]]))
  {
    assert forall i :: 0 <= i < |s.queue| ==> s.queue[i].id in s.accepted;
  }

  lemma InsertAccounts(s: State, caller: nat, id: nat, digest: Event -> string)
    requires QueueInv(s) && NothingLost(s) && caller in s.admitted
    requires id in s.accepted || id == s.nextId
    ensures Accounted(Apply(s, Insert(caller), digest), id)
  {
    HasGrows(s.queue, Row(s.nextId, s.admitted[caller], 0), id);
    NewIdIsFree(s);
    if id in s.accepted { assert Accounted(s, id); }
  }

  lemma NewIdIsFree(s: State)
    requires QueueInv(s) && NothingLost(s)
    ensures s.nextId !in s.accepted && s.nextId !in s.deleted && !Has(s.queue, s.nextId)
  {
    assert forall i :: 0 <= i < |s.queue| ==> s.queue[i].id in s.accepted;
  }

  lemma InsertKeepsFresh(s: State, caller: nat)
    requires FreshInv(s) && caller in s.admitted && s.nextId !in s.accepted
    ensures FreshInv(s.(accepted := s.accepted[s.nextId := s.admitted[caller]], admitted := s.admitted - {caller}))
  {}

  // What holds by the history so far holds by any longer history.
  lemma HistoryGrows(s: State, accepted: map<nat, Event>, digest: Event -> string)
    requires ReceiverInv(s) && QueueInv(s)
    requires forall id :: id in s.accepted ==> id in accepted && accepted[id] == s.accepted[id]
    ensures ReceiverInv(s.(accepted := accepted)) && Recorded(s.queue, accepted)
    ensures forall t :: t in s.tasks && TaskInv(s.tasks[t], s, digest) ==> TaskInv(s.tasks[t], s.(accepted := accepted), digest)
  {
    forall e | WasAccepted(e, s.accepted) ensures WasAccepted(e, accepted) {
      var id :| id in s.accepted && s.accepted[id] == e;
      assert accepted[id] == e;
    }
  }

  lemma TakenBatch(s: State, config: Config, digest: Event -> string)
    requires QueueInv(s) && Take(s, config, digest).Some?
    ensures TaskInv(Take(s, config, digest).value, s, digest)
  {
    var batch := s.queue[..Min(100, |s.queue|)];
    RecordedPrefix(s.queue, Min(100, |s.queue|), s.accepted);
    if Submission(config, Events(batch), digest).Some? {
      SubmissionMeans(config, Events(batch), digest);
    }
  }

  lemma RecordedPrefix(rows: seq<Row>, k: nat, accepted: map<nat, Event>)
    requires Recorded(rows, accepted) && k <= |rows|
    ensures Recorded(rows[..k], accepted)
  {}

  lemma SubmissionMeans(config: Config, events: seq<Event>, digest: Event -> string)
    requires Submission(config, events, digest).Some?
    ensures !DestinationFor(config).Refused?
    ensures DestinationFor(config).Durable? ==>
      WellFormedBatch(events) && Submission(config, events, digest).value == Expectation(events, digest)
  {}

  lemma StoredGrows(receiver: seq<Record>, r: Record, endpoint: Endpoint, e: Event)
    requires Stored(receiver, endpoint, e)
    ensures Stored(receiver + [r], endpoint, e)
  {
    var i :| 0 <= i < |receiver| && receiver[i].endpoint == endpoint && receiver[i].event == e;
    assert (receiver + [r])[i] == receiver[i];
  }

  lemma StoreKeeps(s: State, request: Request, auditId: Uuid, digest: Event -> string)
    requires Inv(s, digest) && Enabled(s, Store(request, auditId))
    ensures Inv(Apply(s, Store(request, auditId), digest), digest)
  {
    var record := Record(request.endpoint, request.event, auditId);
    var s' := Apply(s, Store(request, auditId), digest);
    StoreKeepsReceiver(s, request, auditId);
    forall endpoint, e | Stored(s.receiver, endpoint, e) ensures Stored(s'.receiver, endpoint, e) {
      StoredGrows(s.receiver, record, endpoint, e);
    }
    forall id | id in s'.accepted ensures Accounted(s', id) {
      assert Accounted(s, id);
    }
    forall t | t in s'.tasks ensures TaskInv(s'.tasks[t], s', digest) {
      assert TaskInv(s.tasks[t], s, digest);
    }
  }

  lemma StoreKeepsReceiver(s: State, request: Request, auditId: Uuid)
    requires ReceiverInv(s) && request in s.wire && !KnownId(s.receiver, request.endpoint, request.event.eventId)
    ensures ReceiverInv(s.(receiver := s.receiver + [Record(request.endpoint, request.event, auditId)]))
  {}

  // Acknowledging a durable batch is only reached with every event stored:
  // an exact acknowledgement has a receipt for each of them.
  lemma ReplyKeepsTask(s: State, t: Flush, obs: Observation, digest: Event -> string)
    requires t.Sending? && TaskInv(t, s, digest) && Honest(s.receiver, t.destination, obs)
    ensures TaskInv(AfterReply(t, obs), s, digest)
  {
    var a := Attempt(t.destination, t.expected, t.held, obs);
    if a.result.Delivered? && t.destination.Durable? {
      var ack, now := obs.reply.body.ack, obs.reply.body.now;
      ExactMeansStored(s.receiver, t.batch, t.destination, ack, a.authority.value, now, obs, digest);
    }
  }

  lemma ExactMeansStored(receiver: seq<Record>, batch: seq<Row>, destination: Destination, ack: Acknowledgement,
                         authority: Authority, now: int, obs: Observation, digest: Event -> string)
    requires WellFormedBatch(Events(batch)) && Exact(ack, authority, Expectation(Events(batch), digest), now)
    requires destination.Durable? && obs.reply.Http? && obs.reply.body == Ack(ack, now) && Honest(receiver, destination, obs)
    ensures AllStored(batch, receiver, destination.endpoint)
  {
    var events := Events(batch);
    forall i | 0 <= i < |batch| ensures Stored(receiver, destination.endpoint, batch[i].event) {
      var id := events[i].eventId;
      Expects(events, digest, i);
      AcceptedIsBijection(ack, authority, Expectation(events, digest), now, id);
      var j :| 0 <= j < |ack.receipts| && ack.receipts[j].eventId == id
               && ack.receipts[j].event == Expectation(events, digest)[id].event;
      assert ack.receipts[j].event == batch[i].event;
    }
  }

  lemma AcknowledgeKeeps(s: State, task: nat, digest: Event -> string)
    requires Inv(s, digest) && Enabled(s, Acknowledge(task))
    ensures Inv(Apply(s, Acknowledge(task), digest), digest)
  {
    var t := s.tasks[task];
    assert TaskInv(t, s, digest);
    if AllPresent(s.queue, Ids(t.batch)) {
      DeletionKeeps(s, t, digest);
      TaskChangeKeeps(AfterDeletion(s, t), task, None, digest);
    } else {
      TaskChangeKeeps(s, task, None, digest);
    }
  }

  function AfterDeletion(s: State, t: Flush): State
    requires t.Acknowledging?
  {
    s.(queue := Without(s.queue, Ids(t.batch)), deleted := s.deleted + map row | row in Ids(t.batch) :: t.destination)
  }

  lemma DeletionKeeps(s: State, t: Flush, digest: Event -> string)
    requires Inv(s, digest) && t.Acknowledging? && TaskInv(t, s, digest) && AllPresent(s.queue, Ids(t.batch))
    ensures Inv(AfterDeletion(s, t), digest)
  {
    var ids := Ids(t.batch);
    WithoutKeepsDistinct(s.queue, ids);
    WithoutKeepsRecorded(s.queue, ids, s.accepted);
    forall id | id in ids ensures id in s.accepted {
      var k :| 0 <= k < |ids| && ids[k] == id;
      assert t.batch[k].id == id;
    }
    forall id | id in s.accepted ensures Accounted(AfterDeletion(s, t), id) {
      DeletedOrKept(s, id, t);
    }
    QueueChangeKeeps(s, AfterDeletion(s, t).queue, AfterDeletion(s, t).deleted, digest);
  }

  lemma WithoutKeepsRecorded(rows: seq<Row>, ids: seq<nat>, accepted: map<nat, Event>)
    requires Recorded(rows, accepted)
    ensures Recorded(Without(rows, ids), accepted)
  {
    var left := Without(rows, ids);
    assert forall i :: 0 <= i < |left| ==> left[i] in left && left[i] in rows;
  }

  lemma WithoutHas(rows: seq<Row>, ids: seq<nat>, id: nat)
    ensures Has(Without(rows, ids), id) <==> Has(rows, id) && id !in ids
  {
    var left := Without(rows, ids);
    if Has(left, id) {
      var i :| 0 <= i < |left| && left[i].id == id;
      assert left[i] in left && left[i] in rows;
    }
    if Has(rows, id) && id !in ids {
      var i :| 0 <= i < |rows| && rows[i].id == id;
      assert rows[i] in rows && rows[i] in left;
    }
  }

  lemma DeletedOrKept(s: State, id: nat, t: Flush)
    requires NothingLost(s) && id in s.accepted && t.Acknowledging? && Recorded(t.batch, s.accepted) && !t.destination.Refused?
    requires t.destination.Durable? ==> AllStored(t.batch, s.receiver, t.destination.endpoint)
    requires AllPresent(s.queue, Ids(t.batch))
    ensures Accounted(AfterDeletion(s, t), id)
  {
    var ids := Ids(t.batch);
    WithoutHas(s.queue, ids, id);
    assert Accounted(s, id);
    if id in ids {
      var k :| 0 <= k < |ids| && ids[k] == id;
      assert t.batch[k].id == id && Has(s.queue, id);
    }
  }

  lemma RecordFailureKeeps(s: State, task: nat, digest: Event -> string)
    requires Inv(s, digest) && Enabled(s, RecordFailure(task))
    ensures Inv(Apply(s, RecordFailure(task), digest), digest)
  {
    var ids := Ids(s.tasks[task].batch);
    BumpedKeepsRows(s.queue, ids, s.accepted);
    forall id | id in s.accepted ensures Accounted(s.(queue := Bumped(s.queue, ids)), id) {
      assert Accounted(s, id);
    }
    QueueChangeKeeps(s, Bumped(s.queue, ids), s.deleted, digest);
    TaskChangeKeeps(s.(queue := Bumped(s.queue, ids)), task, None, digest);
  }

  // A step that only changes the rows, losing none that is not accounted for.
  lemma QueueChangeKeeps(s: State, queue: seq<Row>, deleted: map<nat, Destination>, digest: Event -> string)
    requires Inv(s, digest) && DistinctRows(queue) && Recorded(queue, s.accepted)
    requires NothingLost(s.(queue := queue, deleted := deleted))
    ensures Inv(s.(queue := queue, deleted := deleted), digest)
  {
    var s' := s.(queue := queue, deleted := deleted);
    forall t | t in s'.tasks ensures TaskInv(s'.tasks[t], s', digest) {
      assert TaskInv(s.tasks[t], s, digest);
    }
  }

  lemma BumpedKeepsRows(queue: seq<Row>, ids: seq<nat>, accepted: map<nat, Event>)
    requires DistinctRows(queue) && Recorded(queue, accepted)
    ensures DistinctRows(Bumped(queue, ids)) && Recorded(Bumped(queue, ids), accepted)
    ensures forall id :: Has(queue, id) <==> Has(Bumped(queue, ids), id)
  {
    var left := Bumped(queue, ids);
    assert forall i :: 0 <= i < |queue| ==> left[i].id == queue[i].id && left[i].event == queue[i].event;
    forall id ensures Has(queue, id) <==> Has(left, id) {
      if Has(queue, id) {
        var i :| 0 <= i < |queue| && queue[i].id == id;
        assert left[i].id == id;
      }
      if Has(left, id) {
        var i :| 0 <= i < |left| && left[i].id == id;
        assert queue[i].id == id;
      }
    }
  }

  lemma PostKeeps(s: State, task: nat, digest: Event -> string)
    requires Inv(s, digest) && Enabled(s, Post(task))
    ensures Inv(Apply(s, Post(task), digest), digest)
  {
    var s' := Apply(s, Post(task), digest);
    var batch := s.tasks[task].batch;
    assert TaskInv(s.tasks[task], s, digest);
    forall e | e in Events(batch) ensures WasAccepted(e, s.accepted) {
      var i :| 0 <= i < |batch| && Events(batch)[i] == e;
      assert s.accepted[batch[i].id] == e;
    }
  }

  // Whom a step lets in, what it configures and which flushes it forgets do not matter to the rest.
  lemma SameRecords(s: State, t: State, digest: Event -> string)
    requires Inv(s, digest) && FreshInv(t)
    requires t == s.(config := t.config, admitted := t.admitted, tasks := t.tasks)
    requires t.tasks == s.tasks || t.tasks == map[]
    ensures Inv(t, digest)
  {
    forall id | id in t.accepted ensures Accounted(t, id) {
      assert Accounted(s, id);
    }
    forall task | task in t.tasks ensures TaskInv(t.tasks[task], t, digest) {
      assert TaskInv(s.tasks[task], s, digest);
    }
  }

  lemma StepKeeps(s: State, step: Step, digest: Event -> string)
    requires Inv(s, digest) && Enabled(s, step)
    ensures Inv(Apply(s, step, digest), digest)
  {
    match step
    case Insert(caller) => InsertKeeps(s, caller, digest);
    case Configure(task) => TaskChangeKeeps(s, task, Some(Configured(s.config)), digest);
    case TakeBatch(task) =>
      var t := Take(s, s.tasks[task].config, digest);
      if t.Some? { TakenBatch(s, s.tasks[task].config, digest); }
      TaskChangeKeeps(s, task, t, digest);
    case Post(task) => PostKeeps(s, task, digest);
    case Store(request, auditId) => StoreKeeps(s, request, auditId, digest);
    case Reply(task, obs) =>
      ReplyKeepsTask(s, s.tasks[task], obs, digest);
      TaskChangeKeeps(s, task, Some(AfterReply(s.tasks[task], obs)), digest);
    case Acknowledge(task) => AcknowledgeKeeps(s, task, digest);
    case RecordFailure(task) => RecordFailureKeeps(s, task, digest);
    case Abandon(task) => TaskChangeKeeps(s, task, None, digest);
    case _ => SameRecords(s, Apply(s, step, digest), digest);
  }

  lemma {:induction false} RunKeeps(states: seq<State>, steps: seq<Step>, digest: Event -> string, n: nat)
    requires Runs(states, steps, digest) && n < |states|
    ensures Inv(states[n], digest)
  {
    if n > 0 {
      RunKeeps(states, steps, digest, n - 1);
      StepKeeps(states[n - 1], steps[n - 1], digest);
    }
  }

  // ------------------------------------------------------------ theorems

  /**
   * In every state of every run an accepted event is either pending locally or
   * deleted, and a deleted one was sent to a generic endpoint, whose contract
   * is the HTTP status alone, or is stored at the endpoint whose flush
   * deleted it. No endpoint holds an event twice or one never accepted.
   */
  lemma AcceptedEventsSurvive(states: seq<State>, steps: seq<Step>, digest: Event -> string, n: nat)
    requires Runs(states, steps, digest) && n < |states|
    ensures NothingLost(states[n]) && ReceiverInv(states[n])
  {
    RunKeeps(states, steps, digest, n);
  }

  // A configuration under which a flush posts something.
  predicate Sends(config: Config) {
    config.enabled && !config.localOnly && (config.api.Some? || config.hasBatchEndpoint)
  }

  // Never a generic destination, and no other endpoint if one is given.
  predicate Permits(destination: Destination, endpoint: Option<Endpoint>) {
    match destination
    case Generic => false
    case Refused => true
    case Durable(other) => endpoint.None? || endpoint.value == other
  }

  ghost predicate SendsOnly(states: seq<State>, endpoint: Option<Endpoint>) {
    forall i :: 0 <= i < |states| && Sends(states[i].config) ==> Permits(DestinationFor(states[i].config), endpoint)
  }

  ghost predicate TaskPermitted(t: Flush, endpoint: Option<Endpoint>) {
    match t
    case Configured(config) =>
      config.enabled && !config.localOnly && (Sends(config) ==> Permits(DestinationFor(config), endpoint))
    case Sending(_, destination, _, _, _, _) => Permits(destination, endpoint)
    case Acknowledging(_, destination) => Permits(destination, endpoint)
    case Failing(_) => true
  }

  // Everything sent, stored and deleted so far went where it was permitted to go.
  ghost predicate Permitted(s: State, endpoint: Option<Endpoint>) {
    && (forall t :: t in s.tasks ==> TaskPermitted(s.tasks[t], endpoint))
    && (forall id :: id in s.deleted ==> Permits(s.deleted[id], endpoint))
    && (endpoint.Some? ==>
          && (forall request :: request in s.wire ==> request.endpoint == endpoint.value)
          && (forall i :: 0 <= i < |s.receiver| ==> s.receiver[i].endpoint == endpoint.value))
  }

  lemma StepStaysPermitted(s: State, step: Step, endpoint: Option<Endpoint>, digest: Event -> string)
    requires Enabled(s, step) && Permitted(s, endpoint)
    requires Sends(s.config) ==> Permits(DestinationFor(s.config), endpoint)
    ensures Permitted(Apply(s, step, digest), endpoint)
  {
    match step
    case TakeBatch(task) => assert TaskPermitted(s.tasks[task], endpoint);
    case Post(task) => assert TaskPermitted(s.tasks[task], endpoint);
    case Reply(task, _) => assert TaskPermitted(s.tasks[task], endpoint);
    case Acknowledge(task) => assert TaskPermitted(s.tasks[task], endpoint);
    case _ =>
  }

  lemma {:induction false} RunStaysPermitted(states: seq<State>, steps: seq<Step>, digest: Event -> string, n: nat,
                                             endpoint: Option<Endpoint>)
    requires Runs(states, steps, digest) && n < |states| && SendsOnly(states, endpoint)
    ensures Permitted(states[n], endpoint)
  {
    if n > 0 {
      RunStaysPermitted(states, steps, digest, n - 1, endpoint);
      StepStaysPermitted(states[n - 1], steps[n - 1], endpoint, digest);
    }
  }

  predicate Under(record: Record, endpoint: Endpoint, eventId: string) {
    record.endpoint == endpoint && record.event.eventId == eventId
  }

  // The endpoint has one record under the event's id, and it is this event.
  ghost predicate StoredOnce(receiver: seq<Record>, endpoint: Endpoint, e: Event) {
    exists i :: 0 <= i < |receiver| && receiver[i].endpoint == endpoint && receiver[i].event == e
      && forall j :: 0 <= j < |receiver| && Under(receiver[j], endpoint, e.eventId) ==> j == i
  }

  lemma StoredIsStoredOnce(s: State, endpoint: Endpoint, e: Event)
    requires ReceiverInv(s) && Stored(s.receiver, endpoint, e)
    ensures StoredOnce(s.receiver, endpoint, e)
  {
    var i :| 0 <= i < |s.receiver| && s.receiver[i].endpoint == endpoint && s.receiver[i].event == e;
    forall j | 0 <= j < |s.receiver| && Under(s.receiver[j], endpoint, e.eventId) ensures j == i {
      assert !(i < j) && !(j < i);
    }
  }

  /**
   * Durable destinations: if no configuration that sends anything names a
   * generic endpoint, then in every state of every run, with lost requests and
   * replies, restarts, overlapping flushes, changing endpoints and events
   * queued meanwhile, every accepted event is either pending locally or stored
   * exactly once at the endpoint whose flush deleted it.
   */
  lemma DurableDelivery(states: seq<State>, steps: seq<Step>, digest: Event -> string, n: nat, id: nat)
    requires Runs(states, steps, digest) && n < |states| && SendsOnly(states, None) && id in states[n].accepted
    ensures var s := states[n];
      && (Has(s.queue, id) <==> id !in s.deleted)
      && (id in s.deleted ==>
            s.deleted[id].Durable? && StoredOnce(s.receiver, s.deleted[id].endpoint, s.accepted[id]))
  {
    var s := states[n];
    RunKeeps(states, steps, digest, n);
    RunStaysPermitted(states, steps, digest, n, None);
    assert Accounted(s, id);
    if id in s.deleted { StoredIsStoredOnce(s, s.deleted[id].endpoint, s.accepted[id]); }
  }

  /**
   * With one endpoint throughout, no event is stored twice anywhere: all
   * records are that endpoint's and have distinct event ids.
   */
  lemma OneEndpointStoresOnce(states: seq<State>, steps: seq<Step>, digest: Event -> string, n: nat, endpoint: Endpoint)
    requires Runs(states, steps, digest) && n < |states| && SendsOnly(states, Some(endpoint))
    ensures forall i :: 0 <= i < |states[n].receiver| ==> states[n].receiver[i].endpoint == endpoint
    ensures forall i, j :: 0 <= i < j < |states[n].receiver| ==>
      states[n].receiver[i].event.eventId != states[n].receiver[j].event.eventId
  {
    RunKeeps(states, steps, digest, n);
    RunStaysPermitted(states, steps, digest, n, Some(endpoint));
  }

  // ------------------------------------------- two endpoints, one event

  // A run that can go on from its last state.
  ghost predicate Leads(states: seq<State>, steps: seq<Step>, digest: Event -> string, s: State) {
    Runs(states, steps, digest) && SendsOnly(states, None) && states[|steps|] == s
  }

  lemma OneMore(states: seq<State>, steps: seq<Step>, digest: Event -> string, s: State, step: Step)
    returns (moreStates: seq<State>, moreSteps: seq<Step>)
    requires Leads(states, steps, digest, s) && Enabled(s, step)
    requires var t := Apply(s, step, digest); Sends(t.config) ==> Permits(DestinationFor(t.config), None)
    ensures Leads(moreStates, moreSteps, digest, Apply(s, step, digest))
  {
    var t := Apply(s, step, digest);
    moreStates, moreSteps := states + [t], steps + [step];
    forall i | 0 <= i < |moreSteps|
      ensures Enabled(moreStates[i], moreSteps[i]) && moreStates[i + 1] == Apply(moreStates[i], moreSteps[i], digest)
    {
      assert i < |steps| ==> moreStates[i] == states[i] && moreStates[i + 1] == states[i + 1] && moreSteps[i] == steps[i];
    }
    forall i | 0 <= i < |moreStates| && Sends(moreStates[i].config)
      ensures Permits(DestinationFor(moreStates[i].config), None)
    {
      assert i < |states| ==> moreStates[i] == states[i];
    }
  }

  // A single pending event, with no flush in progress, under a configuration
  // that sends to the endpoint.
  ghost predicate Ready(s: State, e: Event, endpoint: Endpoint) {
    && (exists id: nat :: s.queue == [Row(id, e, 0)]) && s.tasks == map[]
    && Sends(s.config) && DestinationFor(s.config) == Durable(endpoint)
  }

  // The event reaches the endpoint; the reply does not come back.
  lemma SendAndLose(states: seq<State>, steps: seq<Step>, digest: Event -> string, s: State, e: Event, endpoint: Endpoint, auditId: Uuid)
    returns (moreStates: seq<State>, moreSteps: seq<Step>, t: State)
    requires Leads(states, steps, digest, s) && Ready(s, e, endpoint) && Ingestible(e)
    requires !KnownId(s.receiver, endpoint, e.eventId)
    ensures Leads(moreStates, moreSteps, digest, t) && Ready(t, e, endpoint)
    ensures t.receiver == s.receiver + [Record(endpoint, e, auditId)]
  {
    var s1 := Apply(s, Configure(0), digest);
    moreStates, moreSteps := OneMore(states, steps, digest, s, Configure(0));
    TakesTheEvent(s1, e, endpoint, digest);
    var s2 := Apply(s1, TakeBatch(0), digest);
    moreStates, moreSteps := OneMore(moreStates, moreSteps, digest, s1, TakeBatch(0));
    var s3 := Apply(s2, Post(0), digest);
    moreStates, moreSteps := OneMore(moreStates, moreSteps, digest, s2, Post(0));
    assert e in Events(s2.tasks[0].batch) by { assert Events(s2.tasks[0].batch)[0] == e; }
    var store := Store(Request(endpoint, e), auditId);
    var s4 := Apply(s3, store, digest);
    moreStates, moreSteps := OneMore(moreStates, moreSteps, digest, s3, store);
    moreStates, moreSteps := OneMore(moreStates, moreSteps, digest, s4, Abandon(0));
    t := Apply(s4, Abandon(0), digest);
    assert s4.tasks.Keys == {0};
    assert t.tasks == map[];
  }

  lemma TakesTheEvent(s: State, e: Event, endpoint: Endpoint, digest: Event -> string)
    requires exists id: nat :: s.queue == [Row(id, e, 0)]
    requires s.tasks == map[0 := Configured(s.config)] && Ingestible(e)
    requires Sends(s.config) && DestinationFor(s.config) == Durable(endpoint)
    ensures var t := Apply(s, TakeBatch(0), digest);
      && t == s.(tasks := t.tasks) && t.tasks.Keys == {0} && t.tasks[0].Sending?
      && t.tasks[0].batch == s.queue && t.tasks[0].destination == Durable(endpoint)
  {
    assert s.queue[..1] == s.queue;
    assert WellFormedBatch(Events(s.queue));
  }

  /**
   * Across endpoints an event can be stored twice: the first one stores
   * it, the reply is lost, the configuration changes to the second one.
   */
  lemma TwoEndpointsCanHoldOne(e: Event, first: Config, second: Config, here: Endpoint, there: Endpoint,
                                   hereAudit: Uuid, thereAudit: Uuid, digest: Event -> string)
    returns (states: seq<State>, steps: seq<Step>)
    requires Ingestible(e) && here != there && first.maxQueueSize > 0
    requires Sends(first) && DestinationFor(first) == Durable(here)
    requires Sends(second) && DestinationFor(second) == Durable(there)
    ensures Runs(states, steps, digest) && SendsOnly(states, None)
    ensures states[|steps|].receiver == [Record(here, e, hereAudit), Record(there, e, thereAudit)]
  {
    var s0 := State([], 0, first, map[], map[], {}, [], map[], map[]);
    assert Leads([s0], [], digest, s0);
    var s1 := Apply(s0, Admit(0, e), digest);
    states, steps := OneMore([s0], [], digest, s0, Admit(0, e));
    var s2 := Apply(s1, Insert(0), digest);
    states, steps := OneMore(states, steps, digest, s1, Insert(0));
    assert s2.queue == [Row(0, e, 0)];
    var s3;
    states, steps, s3 := SendAndLose(states, steps, digest, s2, e, here, hereAudit);
    var s4 := Apply(s3, SetConfig(second), digest);
    states, steps := OneMore(states, steps, digest, s3, SetConfig(second));
    var s5;
    states, steps, s5 := SendAndLose(states, steps, digest, s4, e, there, thereAudit);
  }

  // ------------------------------------ the steps of one flush and its run

  // A flush after its replies, if they are what the network shows.
  ghost function AfterReplies(t: Flush, network: nat -> Observation): Flush
    requires t.Sending? && t.attempt <= t.retries
    decreases t.retries - t.attempt
  {
    var u := AfterReply(t, network(t.attempt));
    if u.Sending? then AfterReplies(u, network) else u
  }

  /** The replies bring a flush to its acknowledgement or to its failure exactly as the retry loop does. */
  lemma {:induction false} RepliesFollowRun(t: Flush, network: nat -> Observation)
    requires t.Sending? && t.attempt <= t.retries
    ensures AfterReplies(t, network)
         == if RunFrom(t.destination, t.expected, t.held, t.attempt, t.retries, network).delivered
            then Acknowledging(t.batch, t.destination) else Failing(t.batch)
    decreases t.retries - t.attempt
  {
    var u := AfterReply(t, network(t.attempt));
    if u.Sending? { RepliesFollowRun(u, network); }
  }

  /** A flush takes the oldest hundred events to where the configuration sends them, and gives up what may not be sent. */
  lemma TakeExactly(s: State, config: Config, digest: Event -> string)
    ensures var t, batch := Take(s, config, digest), s.queue[..if |s.queue| < 100 then |s.queue| else 100];
      && (t == None <==> s.queue == [] || (config.api == None && !config.hasBatchEndpoint))
      && (t.Some? && t.value.Failing? <==> t.Some? && !Sendable(config, s.queue))
      && (t.Some? ==> t.value.Failing? || t.value.Sending?)
      && (t.Some? && t.value.Failing? ==> t.value.batch == batch)
      && (t.Some? && t.value.Sending? ==>
            && t.value.batch == batch && t.value.destination == DestinationFor(config) && t.value.held == None
            && t.value.attempt == 0 && t.value.retries == (if config.maxRetries < 10 then config.maxRetries else 10))
  {}

  // Only admitting a caller, below the limit, adds to queue and callers together.
  lemma StepSize(s: State, step: Step, digest: Event -> string)
    requires Enabled(s, step)
    ensures var s' := Apply(s, step, digest);
      if step.Admit? then |s'.queue| == |s.queue| < s.config.maxQueueSize
      else |s'.queue| + |s'.admitted| <= |s.queue| + |s.admitted|
  {
    if step.Insert? {
      assert (s.admitted - {step.caller}).Keys == s.admitted.Keys - {step.caller};
    }
  }

  /**
   * With at most N callers past the size check at once and a fixed limit, the
   * queue never holds more than the limit plus N - 1 events; a single caller
   * keeps it within the limit.
   */
  lemma {:induction false} QueueIsBounded(states: seq<State>, steps: seq<Step>, digest: Event -> string, n: nat, N: nat, limit: nat)
    requires Runs(states, steps, digest) && n < |states| && N >= 1
    requires forall i :: 0 <= i < |states| ==> states[i].config.maxQueueSize == limit && |states[i].admitted| <= N
    ensures |states[n].queue| + |states[n].admitted| <= limit + N - 1
  {
    if n > 0 {
      QueueIsBounded(states, steps, digest, n - 1, N, limit);
      StepSize(states[n - 1], steps[n - 1], digest);
      assert |states[n].admitted| <= N;
    }
  }
}
