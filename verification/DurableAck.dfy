// Exact acknowledgement of a batch by the organization's ingestion API.

module DurableAck {
  import opened Common

  // A UUID, written in its canonical hyphenated lower-case form.
  type Uuid = string

  predicate IsHex(c: char) { '0' <= c <= '9' || 'a' <= c <= 'f' }

  // The canonical text of a version 4, RFC 4122 variant UUID.
  predicate UuidV4(u: Uuid) {
    |u| == 36 && Placed(u, 0) && u[14] == '4' && u[19] in {'8', '9', 'a', 'b'}
  }

  predicate Placed(u: string, from: nat)
    requires from <= |u|
    decreases |u| - from
  {
    from == |u| || ((if from in {8, 13, 18, 23} then u[from] == '-' else IsHex(u[from])) && Placed(u, from + 1))
  }

  const CONTRACT: string := "offline-verification-ingest.v1"
  const RECEIPT_KIND: string := "offline-verification-receipt.v1"
  const MAX_BATCH := 100
  const ALLOWANCE := 300 // seconds: five minutes of clock difference

  // A queued event as its native form reads it. `detail` stands for the
  // remaining members of that form, `discarded` for whatever the queued JSON
  // holds beyond it: writing the native form out again gives the queued JSON
  // back exactly if nothing is discarded.
  datatype Event = Event(eventId: string, timestamp: int, payload: Payload, detail: string, discarded: string)
  datatype Payload = Verification(verificationId: string) | Sync | Error | Unreadable

  datatype Authority = Authority(
    kind: string, organizationId: Uuid, producerId: Uuid, maxBatch: nat,
    receiptStorage: string, scope: string, evidence: string)

  datatype Receipt = Receipt(
    kind: string, auditEventId: Uuid, organizationId: Uuid, producerId: Uuid, eventId: Uuid,
    verificationId: Uuid, payloadSha256: string, receivedAt: int, event: Event)

  datatype Acknowledgement = Acknowledgement(kind: string, accepted: nat, duplicates: nat, receipts: seq<Receipt>)

  datatype ExpectedEvent = ExpectedEvent(verificationId: Uuid, timestamp: int, payloadSha256: string, event: Event)

  type ExpectedBatch = map<Uuid, ExpectedEvent>

  // ------------------------------------------------------------- request

  predicate Ingestible(e: Event) {
    e.payload.Verification? && UuidV4(e.eventId) && UuidV4(e.payload.verificationId) && e.discarded == ""
  }

  ghost predicate DistinctEvents(events: seq<Event>) {
    forall i, j :: 0 <= i < j < |events| ==>
      events[i].eventId != events[j].eventId && VerificationId(events[i]) != VerificationId(events[j])
  }

  function VerificationId(e: Event): Uuid {
    if e.payload.Verification? then e.payload.verificationId else ""
  }

  ghost predicate AllIngestible(events: seq<Event>) { forall i :: 0 <= i < |events| ==> Ingestible(events[i]) }

  // The batches that have an exact acknowledgement at all.
  ghost predicate WellFormedBatch(events: seq<Event>) {
    1 <= |events| <= MAX_BATCH && AllIngestible(events) && DistinctEvents(events)
  }

  function Expect(e: Event, digest: Event -> string): ExpectedEvent {
    ExpectedEvent(VerificationId(e), e.timestamp, digest(e), e)
  }

  function Expectation(events: seq<Event>, digest: Event -> string): ExpectedBatch {
    if events == [] then map[]
    else
      var last := events[|events| - 1];
      Expectation(events[..|events| - 1], digest)[last.eventId := Expect(last, digest)]
  }

  ghost function EventIds(events: seq<Event>): set<string> { set e | e in events :: e.eventId }
  ghost function VerificationIds(events: seq<Event>): set<Uuid> { set e | e in events :: VerificationId(e) }

  lemma DistinctSnoc(events: seq<Event>, e: Event)
    ensures DistinctEvents(events + [e])
       <==> DistinctEvents(events) && e.eventId !in EventIds(events) && VerificationId(e) !in VerificationIds(events)
    ensures EventIds(events + [e]) == EventIds(events) + {e.eventId}
    ensures VerificationIds(events + [e]) == VerificationIds(events) + {VerificationId(e)}
  {
    var more := events + [e];
    assert more[|events|] == e;
    assert forall i :: 0 <= i < |events| ==> more[i] == events[i] && events[i] in events;
    if DistinctEvents(more) {
      forall x | x in events ensures x.eventId != e.eventId && VerificationId(x) != VerificationId(e) {
        var i :| 0 <= i < |events| && events[i] == x;
        assert more[i].eventId != more[|events|].eventId;
      }
      assert forall i, j :: 0 <= i < j < |events| ==> more[i].eventId != more[j].eventId;
    }
  }

  lemma {:induction false} ExpectedIds(events: seq<Event>, digest: Event -> string)
    ensures Expectation(events, digest).Keys == EventIds(events)
  {
    if events != [] {
      var n := |events| - 1;
      assert events == events[..n] + [events[n]];
      ExpectedIds(events[..n], digest);
    }
  }

  /** The event is expected under its own id with its own content. */
  lemma {:induction false} Expects(events: seq<Event>, digest: Event -> string, i: nat)
    requires DistinctEvents(events) && i < |events|
    ensures events[i].eventId in Expectation(events, digest)
    ensures Expectation(events, digest)[events[i].eventId] == Expect(events[i], digest)
    ensures var e := Expectation(events, digest)[events[i].eventId];
      && e.timestamp == events[i].timestamp && e.payloadSha256 == digest(events[i]) && e.event == events[i]
      && (events[i].payload.Verification? ==> e.verificationId == events[i].payload.verificationId)
  {
    var n := |events| - 1;
    if i < n {
      Expects(events[..n], digest, i);
      assert events[i].eventId != events[n].eventId;
    }
  }

  /** As many entries as events: together with the ids, nothing else is expected. */
  lemma {:induction false} ExpectationSize(events: seq<Event>, digest: Event -> string)
    requires DistinctEvents(events)
    ensures |Expectation(events, digest)| == |events|
  {
    if events != [] {
      var n := |events| - 1;
      var init := events[..n];
      ExpectationSize(init, digest);
      PrefixGrows(events, n);
      assert events[..n + 1] == events;
      ExpectedIds(init, digest);
      assert events[n].eventId !in Expectation(init, digest);
    }
  }

  lemma PrefixGrows(events: seq<Event>, n: nat)
    requires n < |events|
    ensures var before, more, e := events[..n], events[..n + 1], events[n];
      && (DistinctEvents(more) <==>
            DistinctEvents(before) && e.eventId !in EventIds(before) && VerificationId(e) !in VerificationIds(before))
      && VerificationIds(more) == VerificationIds(before) + {VerificationId(e)}
    ensures DistinctEvents(events) ==> DistinctEvents(events[..n + 1])
  {
    DistinctSnoc(events[..n], events[n]);
    assert events[..n + 1] == events[..n] + [events[n]];
  }

  lemma ExpectationGrows(events: seq<Event>, n: nat, digest: Event -> string)
    requires n < |events|
    ensures Expectation(events[..n + 1], digest) == Expectation(events[..n], digest)[events[n].eventId := Expect(events[n], digest)]
    ensures Expectation(events[..n], digest).Keys == EventIds(events[..n])
  {
    ExpectedIds(events[..n], digest);
    assert events[..n + 1][..n] == events[..n];
  }

  /** Builds the expectation for exactly the well-formed batches. */
  method FromRequest(events: seq<Event>, digest: Event -> string) returns (r: Option<ExpectedBatch>)
    ensures r == if WellFormedBatch(events) then Some(Expectation(events, digest)) else None
  {
    if events == [] || |events| > MAX_BATCH { return None; }
    var expected: ExpectedBatch := map[];
    var verificationIds: set<Uuid> := {};
    for n := 0 to |events|
      invariant Gathered(events[..n], expected, verificationIds, digest)
    {
      var event := events[n];
      GatheredGrows(events, n, expected, verificationIds, digest);
      if !Ingestible(event) || event.eventId in expected || VerificationId(event) in verificationIds {
        return None;
      }
      expected := expected[event.eventId := Expect(event, digest)];
      verificationIds := verificationIds + {VerificationId(event)};
    }
    assert events[..|events|] == events;
    r := Some(expected);
  }

  // The events so far can be acknowledged, and these are their expectation and verification ids.
  ghost predicate Gathered(events: seq<Event>, expected: ExpectedBatch, verificationIds: set<Uuid>, digest: Event -> string) {
    && AllIngestible(events) && DistinctEvents(events)
    && expected == Expectation(events, digest) && verificationIds == VerificationIds(events)
  }

  lemma GatheredGrows(events: seq<Event>, n: nat, expected: ExpectedBatch, verificationIds: set<Uuid>, digest: Event -> string)
    requires n < |events| && Gathered(events[..n], expected, verificationIds, digest)
    ensures var e := events[n];
      if !Ingestible(e) || e.eventId in expected || VerificationId(e) in verificationIds then
        !(AllIngestible(events) && DistinctEvents(events))
      else Gathered(events[..n + 1], expected[e.eventId := Expect(e, digest)], verificationIds + {VerificationId(e)}, digest)
  {
    PrefixGrows(events, n);
    ExpectationGrows(events, n, digest);
  }

  // ----------------------------------------------------- acknowledgement

  predicate Matches(r: Receipt, authority: Authority, expected: ExpectedBatch, now: int) {
    && r.eventId in expected
    && r.kind == RECEIPT_KIND
    && UuidV4(r.auditEventId)
    && r.organizationId == authority.organizationId
    && r.producerId == authority.producerId
    && r.verificationId == expected[r.eventId].verificationId
    && r.event == expected[r.eventId].event
    && r.payloadSha256 == expected[r.eventId].payloadSha256
    && r.receivedAt <= now + ALLOWANCE
    && r.receivedAt >= expected[r.eventId].timestamp - ALLOWANCE
  }

  predicate DistinctReceipts(receipts: seq<Receipt>) {
    forall i, j :: 0 <= i < j < |receipts| ==>
      receipts[i].eventId != receipts[j].eventId && receipts[i].auditEventId != receipts[j].auditEventId
  }

  predicate AllMatch(receipts: seq<Receipt>, authority: Authority, expected: ExpectedBatch, now: int) {
    forall i :: 0 <= i < |receipts| ==> Matches(receipts[i], authority, expected, now)
  }

  predicate Exact(ack: Acknowledgement, authority: Authority, expected: ExpectedBatch, now: int) {
    && ack.kind == CONTRACT
    && ack.accepted + ack.duplicates == |expected|
    && |ack.receipts| == |expected|
    && AllMatch(ack.receipts, authority, expected, now)
    && DistinctReceipts(ack.receipts)
  }

  method ValidateAcknowledgement(ack: Acknowledgement, authority: Authority, expected: ExpectedBatch, now: int)
    returns (ok: bool)
    ensures ok <==> Exact(ack, authority, expected, now)
  {
    if ack.kind != CONTRACT || ack.accepted + ack.duplicates != |expected| || |ack.receipts| != |expected| {
      return false;
    }
    var eventIds: set<Uuid> := {};
    var receiptIds: set<Uuid> := {};
    for n := 0 to |ack.receipts|
      invariant Checked(ack.receipts[..n], eventIds, receiptIds, authority, expected, now)
    {
      var receipt := ack.receipts[n];
      CheckedGrows(ack.receipts, n, eventIds, receiptIds, authority, expected, now);
      if !Matches(receipt, authority, expected, now) || receipt.eventId in eventIds || receipt.auditEventId in receiptIds {
        return false;
      }
      eventIds, receiptIds := eventIds + {receipt.eventId}, receiptIds + {receipt.auditEventId};
    }
    assert ack.receipts[..|ack.receipts|] == ack.receipts;
    ok := true;
  }

  // The receipts so far match and are distinct, and these are their ids.
  ghost predicate Checked(receipts: seq<Receipt>, eventIds: set<Uuid>, receiptIds: set<Uuid>, authority: Authority,
                          expected: ExpectedBatch, now: int) {
    && AllMatch(receipts, authority, expected, now) && DistinctReceipts(receipts)
    && eventIds == (set r | r in receipts :: r.eventId) && receiptIds == (set r | r in receipts :: r.auditEventId)
  }

  lemma CheckedGrows(receipts: seq<Receipt>, n: nat, eventIds: set<Uuid>, receiptIds: set<Uuid>, authority: Authority,
                     expected: ExpectedBatch, now: int)
    requires n < |receipts| && Checked(receipts[..n], eventIds, receiptIds, authority, expected, now)
    ensures var r := receipts[n];
      if !Matches(r, authority, expected, now) || r.eventId in eventIds || r.auditEventId in receiptIds then
        !(AllMatch(receipts, authority, expected, now) && DistinctReceipts(receipts))
      else Checked(receipts[..n + 1], eventIds + {r.eventId}, receiptIds + {r.auditEventId}, authority, expected, now)
  {
    var before, r := receipts[..n], receipts[n];
    DistinctReceiptsSnoc(before, r);
    MatchSnoc(before, r, authority, expected, now);
    assert receipts[..n + 1] == before + [r];
    DistinctPrefix(receipts, n + 1);
  }

  lemma MatchSnoc(receipts: seq<Receipt>, r: Receipt, authority: Authority, expected: ExpectedBatch, now: int)
    ensures AllMatch(receipts + [r], authority, expected, now)
       <==> AllMatch(receipts, authority, expected, now) && Matches(r, authority, expected, now)
  {
    var more := receipts + [r];
    assert more[|receipts|] == r && forall i :: 0 <= i < |receipts| ==> more[i] == receipts[i];
  }

  lemma DistinctPrefix(receipts: seq<Receipt>, n: nat)
    requires n <= |receipts|
    ensures DistinctReceipts(receipts) ==> DistinctReceipts(receipts[..n])
  {}

  lemma DistinctReceiptsSnoc(receipts: seq<Receipt>, r: Receipt)
    ensures DistinctReceipts(receipts + [r])
       <==> DistinctReceipts(receipts)
            && r.eventId !in (set x | x in receipts :: x.eventId) && r.auditEventId !in (set x | x in receipts :: x.auditEventId)
    ensures (set x | x in receipts + [r] :: x.eventId) == (set x | x in receipts :: x.eventId) + {r.eventId}
    ensures (set x | x in receipts + [r] :: x.auditEventId) == (set x | x in receipts :: x.auditEventId) + {r.auditEventId}
  {
    var more := receipts + [r];
    assert more[|receipts|] == r;
    assert forall i :: 0 <= i < |receipts| ==> more[i] == receipts[i] && receipts[i] in receipts;
    if DistinctReceipts(more) {
      forall x | x in receipts ensures x.eventId != r.eventId && x.auditEventId != r.auditEventId {
        var i :| 0 <= i < |receipts| && receipts[i] == x;
        assert more[i].eventId != more[|receipts|].eventId;
      }
      assert forall i, j :: 0 <= i < j < |receipts| ==> more[i].eventId != more[j].eventId;
    }
  }

  lemma {:induction false} DistinctIdsCover(receipts: seq<Receipt>, ids: set<Uuid>, id: Uuid)
    requires DistinctReceipts(receipts) && |receipts| == |ids| && id in ids
    requires forall i :: 0 <= i < |receipts| ==> receipts[i].eventId in ids
    ensures exists i :: 0 <= i < |receipts| && receipts[i].eventId == id
    decreases |receipts|
  {
    var last := |receipts| - 1;
    if receipts[last].eventId != id {
      DistinctIdsCover(receipts[..last], ids - {receipts[last].eventId}, id);
      var i :| 0 <= i < last && receipts[..last][i].eventId == id;
      assert receipts[i].eventId == id;
    }
  }

  /**
   * An accepted acknowledgement names every expected event by exactly one
   * receipt, with that event's content, and names nothing else.
   */
  lemma AcceptedIsBijection(ack: Acknowledgement, authority: Authority, expected: ExpectedBatch, now: int, id: Uuid)
    requires Exact(ack, authority, expected, now)
    ensures id in expected <==> exists i :: 0 <= i < |ack.receipts| && ack.receipts[i].eventId == id
    ensures id in expected ==>
      exists i :: 0 <= i < |ack.receipts| && ack.receipts[i].eventId == id && ack.receipts[i].event == expected[id].event
        && forall j :: 0 <= j < |ack.receipts| && ack.receipts[j].eventId == id ==> j == i
  {
    if id in expected {
      DistinctIdsCover(ack.receipts, expected.Keys, id);
      var i :| 0 <= i < |ack.receipts| && ack.receipts[i].eventId == id;
      assert Matches(ack.receipts[i], authority, expected, now);
      assert forall j :: 0 <= j < |ack.receipts| && ack.receipts[j].eventId == id ==> !(j < i) && !(i < j);
    }
  }

  // The receipt of a receiver that stored the event, at `receivedAt` and under `auditId`.
  function HonestReceipt(authority: Authority, e: ExpectedEvent, auditId: Uuid, receivedAt: int): Receipt {
    Receipt("offline-verification-receipt.v1", auditId, authority.organizationId, authority.producerId, e.event.eventId,
            e.verificationId, e.payloadSha256, receivedAt, e.event)
  }

  lemma HonestReceiptMatches(events: seq<Event>, i: nat, auditId: Uuid, digest: Event -> string,
                             authority: Authority, receivedAt: int, now: int)
    requires DistinctEvents(events) && i < |events| && UuidV4(auditId)
    requires events[i].timestamp - ALLOWANCE <= receivedAt <= now + ALLOWANCE
    ensures Matches(HonestReceipt(authority, Expect(events[i], digest), auditId, receivedAt),
                    authority, Expectation(events, digest), now)
  {
    Expects(events, digest, i);
  }

  // One receipt for each event, in some order, under distinct audit ids. Each
  // receipt has a time of its own: a duplicate keeps the time of its first storage.
  ghost predicate HonestReceipts(receipts: seq<Receipt>, events: seq<Event>, order: seq<nat>, digest: Event -> string,
                                 authority: Authority) {
    && |receipts| == |order| == |events|
    && (forall i :: 0 <= i < |order| ==> order[i] < |events|)
    && (forall i, j :: 0 <= i < j < |order| ==> order[i] != order[j])
    && (forall i :: 0 <= i < |receipts| ==>
          receipts[i] == HonestReceipt(authority, Expect(events[order[i]], digest), receipts[i].auditEventId, receipts[i].receivedAt)
          && UuidV4(receipts[i].auditEventId))
    && (forall i, j :: 0 <= i < j < |receipts| ==> receipts[i].auditEventId != receipts[j].auditEventId)
  }

  // Every receipt's own time is within the clock allowance.
  predicate WithinAllowance(receipts: seq<Receipt>, now: int) {
    forall i :: 0 <= i < |receipts| ==>
      receipts[i].event.timestamp - 300 <= receipts[i].receivedAt <= now + 300
  }

  lemma HonestReceiptsDistinct(receipts: seq<Receipt>, events: seq<Event>, order: seq<nat>, digest: Event -> string,
                               authority: Authority)
    requires DistinctEvents(events) && HonestReceipts(receipts, events, order, digest, authority)
    ensures DistinctReceipts(receipts)
  {
    forall i, j | 0 <= i < j < |receipts|
      ensures receipts[i].eventId != receipts[j].eventId && receipts[i].auditEventId != receipts[j].auditEventId
    {
      assert receipts[i].eventId == events[order[i]].eventId && receipts[j].eventId == events[order[j]].eventId;
      assert order[i] < order[j] || order[j] < order[i];
    }
  }

  lemma HonestReceiptsMatch(receipts: seq<Receipt>, events: seq<Event>, order: seq<nat>, digest: Event -> string,
                            authority: Authority, now: int)
    requires DistinctEvents(events) && HonestReceipts(receipts, events, order, digest, authority)
    requires WithinAllowance(receipts, now)
    ensures AllMatch(receipts, authority, Expectation(events, digest), now)
  {
    forall i | 0 <= i < |receipts| ensures Matches(receipts[i], authority, Expectation(events, digest), now) {
      HonestReceiptMatches(events, order[i], receipts[i].auditEventId, digest, authority, receipts[i].receivedAt, now);
    }
  }

  /**
   * An honest reply is accepted exactly when every receipt's own time is
   * within the clock allowance, in any order and with any split into newly
   * accepted and duplicate events.
   */
  lemma HonestReplyAccepted(receipts: seq<Receipt>, events: seq<Event>, order: seq<nat>, digest: Event -> string,
                            authority: Authority, accepted: nat, now: int)
    requires DistinctEvents(events) && HonestReceipts(receipts, events, order, digest, authority)
    requires accepted <= |events|
    ensures Exact(Acknowledgement(CONTRACT, accepted, |events| - accepted, receipts), authority, Expectation(events, digest), now)
       <==> WithinAllowance(receipts, now)
  {
    ExpectationSize(events, digest);
    HonestReceiptsDistinct(receipts, events, order, digest, authority);
    if WithinAllowance(receipts, now) {
      HonestReceiptsMatch(receipts, events, order, digest, authority, now);
    } else {
      OutsideAllowance(receipts, events, order, digest, authority, now);
    }
  }

  lemma OutsideAllowance(receipts: seq<Receipt>, events: seq<Event>, order: seq<nat>, digest: Event -> string,
                         authority: Authority, now: int)
    requires DistinctEvents(events) && HonestReceipts(receipts, events, order, digest, authority)
    requires !WithinAllowance(receipts, now)
    ensures !AllMatch(receipts, authority, Expectation(events, digest), now)
  {
    var i :| 0 <= i < |receipts| && !(receipts[i].event.timestamp - ALLOWANCE <= receipts[i].receivedAt <= now + ALLOWANCE);
    Expects(events, digest, order[i]);
    assert !Matches(receipts[i], authority, Expectation(events, digest), now);
  }

  // Where an event id stands in the batch.
  function IndexOf(events: seq<Event>, id: string): (k: nat)
    ensures k < |events| ==> events[k].eventId == id
    ensures (exists i :: 0 <= i < |events| && events[i].eventId == id) ==> k < |events|
  {
    if events == [] then 0 else if events[0].eventId == id then 0 else 1 + IndexOf(events[1..], id)
  }

  // A matching receipt is the honest receipt of some event of the batch.
  lemma MatchIsHonest(events: seq<Event>, r: Receipt, authority: Authority, digest: Event -> string, now: int)
    requires DistinctEvents(events) && Matches(r, authority, Expectation(events, digest), now)
    ensures var k := IndexOf(events, r.eventId);
      && k < |events| && UuidV4(r.auditEventId)
      && r == HonestReceipt(authority, Expect(events[k], digest), r.auditEventId, r.receivedAt)
      && r.event.timestamp - 300 <= r.receivedAt <= now + 300
  {
    ExpectedIds(events, digest);
    assert r.eventId in EventIds(events);
    var e :| e in events && e.eventId == r.eventId;
    var i :| 0 <= i < |events| && events[i] == e;
    var k := IndexOf(events, r.eventId);
    Expects(events, digest, k);
  }

  lemma MatchesAreHonest(receipts: seq<Receipt>, events: seq<Event>, authority: Authority, digest: Event -> string, now: int)
    returns (order: seq<nat>)
    requires DistinctEvents(events) && |receipts| == |events| && DistinctReceipts(receipts)
    requires AllMatch(receipts, authority, Expectation(events, digest), now)
    ensures HonestReceipts(receipts, events, order, digest, authority) && WithinAllowance(receipts, now)
  {
    order := seq(|receipts|, i requires 0 <= i < |receipts| => IndexOf(events, receipts[i].eventId));
    forall i | 0 <= i < |receipts|
      ensures order[i] < |events| && UuidV4(receipts[i].auditEventId)
      ensures receipts[i] == HonestReceipt(authority, Expect(events[order[i]], digest), receipts[i].auditEventId, receipts[i].receivedAt)
      ensures receipts[i].event.timestamp - 300 <= receipts[i].receivedAt <= now + 300
    {
      assert Matches(receipts[i], authority, Expectation(events, digest), now);
      MatchIsHonest(events, receipts[i], authority, digest, now);
    }
    forall i, j | 0 <= i < j < |order| ensures order[i] != order[j] {
      assert receipts[i].eventId != receipts[j].eventId;
    }
  }

  // The acknowledgement of a receiver that stored exactly this batch.
  ghost predicate HonestReply(ack: Acknowledgement, events: seq<Event>, digest: Event -> string, authority: Authority) {
    && ack.kind == "offline-verification-ingest.v1"
    && ack.accepted + ack.duplicates == |events|
    && exists order :: HonestReceipts(ack.receipts, events, order, digest, authority)
  }

  /**
   * Only honest replies are accepted: an acknowledgement is exact if and only
   * if it is the reply of a receiver that stored the batch, with every
   * receipt's time within five minutes.
   */
  lemma AcceptedExactly(ack: Acknowledgement, events: seq<Event>, digest: Event -> string, authority: Authority, now: int)
    requires DistinctEvents(events)
    ensures Exact(ack, authority, Expectation(events, digest), now)
       <==> HonestReply(ack, events, digest, authority) && WithinAllowance(ack.receipts, now)
  {
    ExpectationSize(events, digest);
    if Exact(ack, authority, Expectation(events, digest), now) {
      var order := MatchesAreHonest(ack.receipts, events, authority, digest, now);
    }
    if HonestReply(ack, events, digest, authority) && WithinAllowance(ack.receipts, now) {
      var order :| HonestReceipts(ack.receipts, events, order, digest, authority);
      HonestReplyAccepted(ack.receipts, events, order, digest, authority, ack.accepted, now);
    }
  }

  predicate PlacedAt(u: string, i: nat)
    requires i < |u|
  {
    if i == 8 || i == 13 || i == 18 || i == 23 then u[i] == '-' else '0' <= u[i] <= '9' || 'a' <= u[i] <= 'f'
  }

  /** A version 4 UUID: lower-case hexadecimal digits between four hyphens, with the version and the variant in place. */
  lemma UuidV4Exactly(u: Uuid)
    ensures UuidV4(u) <==>
      && |u| == 36 && (forall i :: 0 <= i < 36 ==> PlacedAt(u, i))
      && u[14] == '4' && (u[19] == '8' || u[19] == '9' || u[19] == 'a' || u[19] == 'b')
  {
    PlacedMeans(u, 0);
  }

  lemma {:induction false} PlacedMeans(u: string, from: nat)
    requires from <= |u|
    ensures Placed(u, from) <==> forall i :: from <= i < |u| ==> PlacedAt(u, i)
    decreases |u| - from
  {
    if from < |u| {
      PlacedMeans(u, from + 1);
      PlacedFirst(u, from);
      assert (forall i :: from <= i < |u| ==> PlacedAt(u, i)) <==>
        PlacedAt(u, from) && forall i :: from + 1 <= i < |u| ==> PlacedAt(u, i);
    }
  }

  lemma PlacedFirst(u: string, from: nat)
    requires from < |u|
    ensures Placed(u, from) <==> PlacedAt(u, from) && Placed(u, from + 1)
  {}

  /** The batches that can be acknowledged exactly, in full. */
  lemma WellFormedExactly(events: seq<Event>)
    ensures WellFormedBatch(events) <==>
      && 1 <= |events| <= 100
      && (forall i :: 0 <= i < |events| ==>
            && events[i].payload.Verification? && events[i].discarded == ""
            && UuidV4(events[i].eventId) && UuidV4(events[i].payload.verificationId))
      && (forall i, j :: 0 <= i < j < |events| && events[i].payload.Verification? && events[j].payload.Verification? ==>
            events[i].eventId != events[j].eventId
            && events[i].payload.verificationId != events[j].payload.verificationId)
  {
    if 1 <= |events| <= 100 && AllIngestible(events) {
      forall i, j | 0 <= i < j < |events|
        ensures VerificationId(events[i]) == events[i].payload.verificationId && VerificationId(events[j]) == events[j].payload.verificationId
      {
        assert Ingestible(events[i]) && Ingestible(events[j]);
      }
    }
  }
}
