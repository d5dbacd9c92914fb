// Governed trust material: the Open Badge document store and the DTC anchors
// that verification may use.

module OpenBadgeStore {
  import opened Common
  import opened Json

  datatype Provenance = Provenance(createdAt: int, expiresAt: int, importedAt: int, packageDigest: string)

  datatype Method = Method(
    id: string, document: Value, status: Option<string>, controller: Option<string>, syncedAt: int,
    notBefore: Option<int>, notAfter: Option<int>)

  datatype TrustRecord = TrustRecord(entry: Method, provenance: Option<Provenance>)

  datatype Store = Store(documents: map<string, Value>, provenanceByDocument: map<string, Provenance>)

  // ----------------------------------------------------------- usability

  const MAX_TRUST_AGE_HOURS := 48

  function Field(v: Value, key: string): Option<Value> {
    if v.Object? && key in v.members then Some(v.members[key]) else None
  }

  predicate PrivateName(key: string) { "privateKey" <= key || key == "secretKeyJwk" }

  const PRIVATE_PARAMETERS: seq<string> := ["d", "p", "q", "dp", "dq", "qi", "oth", "k"]

  // A public JWK must be an object of an asymmetric type without private parameters.
  predicate PublicJwk(v: Value) {
    && v.Object?
    && Field(v, "kty").Some? && Field(v, "kty").value.String? && Field(v, "kty").value.text != "oct"
    && forall name :: name in PRIVATE_PARAMETERS ==> name !in v.members
  }

  predicate Offends(key: string, v: Value) { PrivateName(key) || (key == "publicKeyJwk" && !PublicJwk(v)) }

  predicate ContainsPrivateJwk(v: Value) {
    match v
    case Object(members) =>
      exists k :: k in members && (Offends(k, members[k]) || (k != "publicKeyJwk" && ContainsPrivateJwk(members[k])))
    case Array(items) => exists i :: 0 <= i < |items| && ContainsPrivateJwk(items[i])
    case _ => false
  }

  predicate MethodUsable(m: Method, now: int, staleCriticalHours: nat) {
    && m.status == Some("active") && m.syncedAt <= now
    && m.notBefore.Some? && m.notAfter.Some?
    && m.notBefore.value <= now < m.notAfter.value
    && now - m.syncedAt < 3600 * Min(staleCriticalHours, MAX_TRUST_AGE_HOURS)
    && Field(m.document, "id") == Some(String(m.id))
    && m.controller.Some? && Field(m.document, "controller") == Some(String(m.controller.value))
    && !ContainsPrivateJwk(m.document)
  }

  predicate Usable(r: TrustRecord, now: int, staleCriticalHours: nat) {
    && r.provenance.Some?
    && (var p := r.provenance.value;
        && p.createdAt == r.entry.syncedAt
        && p.createdAt <= now < p.expiresAt
        && p.createdAt <= p.importedAt <= now)
    && MethodUsable(r.entry, now, staleCriticalHours)
  }

  /** Exactly these members are private: names of private keys, and public JWKs that are none or hold private parameters. */
  lemma OffendsExactly(key: string, v: Value)
    ensures Offends(key, v) <==>
      || (|key| >= 10 && key[..10] == "privateKey") || key == "secretKeyJwk"
      || (key == "publicKeyJwk" &&
          (!v.Object? || "kty" !in v.members || !v.members["kty"].String? || v.members["kty"].text == "oct"
           || "d" in v.members || "p" in v.members || "q" in v.members || "dp" in v.members || "dq" in v.members
           || "qi" in v.members || "oth" in v.members || "k" in v.members))
  {
    assert PRIVATE_PARAMETERS[0] == "d" && PRIVATE_PARAMETERS[1] == "p" && PRIVATE_PARAMETERS[2] == "q";
    assert PRIVATE_PARAMETERS[3] == "dp" && PRIVATE_PARAMETERS[4] == "dq" && PRIVATE_PARAMETERS[5] == "qi";
    assert PRIVATE_PARAMETERS[6] == "oth" && PRIVATE_PARAMETERS[7] == "k";
  }

  function Latest(a: int, b: int): int { if a < b then b else a }

  function Earliest(a: int, b: int): int { if a < b then a else b }

  // What a record must be at any time to be usable at some.
  predicate Sound(r: TrustRecord) {
    && r.provenance.Some? && r.entry.notBefore.Some? && r.entry.notAfter.Some?
    && r.entry.status == Some("active")
    && r.provenance.value.createdAt == r.entry.syncedAt <= r.provenance.value.importedAt
    && r.entry.document.Object?
    && "id" in r.entry.document.members && r.entry.document.members["id"] == String(r.entry.id)
    && r.entry.controller.Some?
    && "controller" in r.entry.document.members
    && r.entry.document.members["controller"] == String(r.entry.controller.value)
    && !ContainsPrivateJwk(r.entry.document)
  }

  // The first moment at which a sound record may be used, and the first at which it may not any more.
  function UsableFrom(r: TrustRecord): int
    requires Sound(r)
  {
    Latest(r.provenance.value.importedAt, r.entry.notBefore.value)
  }

  function UsableUntil(r: TrustRecord, hours: nat): int
    requires Sound(r)
  {
    Earliest(Earliest(r.provenance.value.expiresAt, r.entry.notAfter.value),
             r.entry.syncedAt + 3600 * (if hours < 48 then hours else 48))
  }

  /** A record is usable during one interval: from its import and validity on, until it expires or is too old. */
  lemma UsableDuring(r: TrustRecord, now: int, hours: nat)
    ensures Usable(r, now, hours) <==> Sound(r) && UsableFrom(r) <= now < UsableUntil(r, hours)
  {}

  // A way down into a document.
  datatype Hop = Key(key: string) | Index(index: nat)

  // Following the path ends at an offending member; it may not pass through a publicKeyJwk.
  ghost predicate Exposes(v: Value, path: seq<Hop>) {
    path != [] &&
    match path[0]
    case Key(k) =>
      v.Object? && k in v.members &&
      if |path| == 1 then Offends(k, v.members[k]) else k != "publicKeyJwk" && Exposes(v.members[k], path[1..])
    case Index(i) => v.Array? && i < |v.items| && |path| > 1 && Exposes(v.items[i], path[1..])
  }

  ghost predicate Exposed(v: Value) { exists path :: Exposes(v, path) }

  lemma {:induction false} ExposedIsPrivate(v: Value, path: seq<Hop>)
    requires Exposes(v, path)
    ensures ContainsPrivateJwk(v)
    decreases |path|
  {
    match path[0]
    case Key(k) =>
      if |path| > 1 { ExposedIsPrivate(v.members[k], path[1..]); }
    case Index(i) => ExposedIsPrivate(v.items[i], path[1..]);
  }

  lemma {:induction false} PrivateIsExposed(v: Value) returns (path: seq<Hop>)
    requires ContainsPrivateJwk(v)
    ensures Exposes(v, path)
    decreases v
  {
    if v.Object? {
      var k :| k in v.members && (Offends(k, v.members[k]) || (k != "publicKeyJwk" && ContainsPrivateJwk(v.members[k])));
      path := [Key(k)];
      if !Offends(k, v.members[k]) {
        var rest := PrivateIsExposed(v.members[k]);
        path := [Key(k)] + rest;
        assert path[1..] == rest;
      }
    } else {
      var i :| 0 <= i < |v.items| && ContainsPrivateJwk(v.items[i]);
      var rest := PrivateIsExposed(v.items[i]);
      path := [Index(i)] + rest;
      assert path[1..] == rest;
    }
  }

  /** A document contains private key material exactly when some path exposes it, however deep. */
  lemma PrivateMaterialIsReachable(v: Value)
    ensures ContainsPrivateJwk(v) <==> Exposed(v)
  {
    if ContainsPrivateJwk(v) {
      var path := PrivateIsExposed(v);
      assert Exposes(v, path);
    } else {
      forall path ensures !Exposes(v, path) {
        if Exposes(v, path) { ExposedIsPrivate(v, path); }
      }
    }
  }

  // --------------------------------------------------------------- store

  // Usability at a moment, under a configured critical age.
  function UsableAt(now: int, staleCriticalHours: nat): TrustRecord -> bool {
    (r: TrustRecord) => Usable(r, now, staleCriticalHours)
  }

  lemma UsableHasProvenance(r: TrustRecord, now: int, hours: nat)
    ensures UsableAt(now, hours)(r) ==> r.provenance.Some?
  {}

  // The usable records that carry an id, in order.
  ghost function Carriers(records: seq<TrustRecord>, id: string, usable: TrustRecord -> bool): seq<TrustRecord> {
    if records == [] then []
    else
      var n := |records| - 1;
      var last := records[n];
      Carriers(records[..n], id, usable) + if last.entry.id == id && usable(last) then [last] else []
  }

  // The store holds an id exactly when one record carries it, with that record's document and provenance.
  ghost predicate StoreAt(store: Store, id: string, carriers: seq<TrustRecord>) {
    && (id in store.documents <==> |carriers| == 1)
    && (id in store.provenanceByDocument <==> |carriers| == 1)
    && (|carriers| == 1 ==>
          && carriers[0].provenance == Some(store.provenanceByDocument[id])
          && carriers[0].entry.document == store.documents[id])
  }

  ghost predicate IsStoreOf(store: Store, records: seq<TrustRecord>, usable: TrustRecord -> bool) {
    forall id :: StoreAt(store, id, Carriers(records, id, usable))
  }

  lemma CarriersSnoc(records: seq<TrustRecord>, r: TrustRecord, id: string, usable: TrustRecord -> bool)
    ensures Carriers(records + [r], id, usable)
         == Carriers(records, id, usable) + if r.entry.id == id && usable(r) then [r] else []
  {
    assert (records + [r])[..|records|] == records;
  }

  method BuildGovernedStore(records: seq<TrustRecord>, now: int, staleCriticalHours: nat)
    returns (store: Store, rejected: nat)
    ensures IsStoreOf(store, records, UsableAt(now, staleCriticalHours))
    ensures rejected + |store.documents| == |records|
  {
    var usable := UsableAt(now, staleCriticalHours);
    var documents: map<string, Value> := map[];
    var provenance: map<string, Provenance> := map[];
    var ambiguousIds: set<string> := {};
    rejected := 0;
    for n := 0 to |records|
      invariant Holds(Store(documents, provenance), ambiguousIds, rejected, records[..n], usable)
    {
      var record := records[n];
      var id := record.entry.id;
      ghost var held := Store(documents, provenance);
      UsableHasProvenance(record, now, staleCriticalHours);
      if !usable(record) {
        SkipHolds(held, ambiguousIds, rejected, records, n, usable);
        rejected := rejected + 1;
      } else if id in ambiguousIds {
        SkipHolds(held, ambiguousIds, rejected, records, n, usable);
        rejected := rejected + 1;
      } else if id in documents {
        RemoveHolds(held, ambiguousIds, rejected, records, n, usable);
        documents, provenance := documents - {id}, provenance - {id};
        ambiguousIds := ambiguousIds + {id};
        rejected := rejected + 2;
      } else {
        AddHolds(held, ambiguousIds, rejected, records, n, usable);
        documents := documents[id := record.entry.document];
        provenance := provenance[id := record.provenance.value];
      }
    }
    assert records[..|records|] == records;
    store := Store(documents, provenance);
    forall id ensures StoreAt(store, id, Carriers(records, id, usable)) {
      assert StateAt(store, ambiguousIds, id, Carriers(records, id, usable));
    }
  }

  ghost predicate StateAt(store: Store, ids: set<string>, id: string, carriers: seq<TrustRecord>) {
    StoreAt(store, id, carriers) && (id in ids <==> |carriers| > 1)
  }

  // What the loop keeps: the store of the records so far, the ids already found ambiguous, and the count.
  ghost predicate Holds(store: Store, ids: set<string>, rejected: int, records: seq<TrustRecord>, usable: TrustRecord -> bool) {
    && (forall id :: StateAt(store, ids, id, Carriers(records, id, usable)))
    && rejected + |store.documents| == |records|
  }

  lemma CarriersNext(records: seq<TrustRecord>, n: nat, id: string, usable: TrustRecord -> bool)
    requires n < |records|
    ensures Carriers(records[..n + 1], id, usable)
         == Carriers(records[..n], id, usable) + if records[n].entry.id == id && usable(records[n]) then [records[n]] else []
  {
    CarriersSnoc(records[..n], records[n], id, usable);
    assert records[..n + 1] == records[..n] + [records[n]];
  }

  lemma SkipHolds(store: Store, ids: set<string>, rejected: int, records: seq<TrustRecord>, n: nat, usable: TrustRecord -> bool)
    requires n < |records| && Holds(store, ids, rejected, records[..n], usable)
    requires !usable(records[n]) || records[n].entry.id in ids
    ensures Holds(store, ids, rejected + 1, records[..n + 1], usable)
  {
    var next := records[..n + 1];
    forall id ensures StateAt(store, ids, id, Carriers(next, id, usable)) {
      CarriersNext(records, n, id, usable);
      assert StateAt(store, ids, id, Carriers(records[..n], id, usable));
    }
  }

  lemma StateWithout(store: Store, ids: set<string>, gone: string, id: string, c: seq<TrustRecord>, d: seq<TrustRecord>)
    requires StateAt(store, ids, id, c)
    requires if id == gone then |c| > 0 && |d| == |c| + 1 else d == c
    ensures StateAt(Without(store, gone), ids + {gone}, id, d)
  {}

  lemma RemoveHolds(store: Store, ids: set<string>, rejected: int, records: seq<TrustRecord>, n: nat, usable: TrustRecord -> bool)
    requires n < |records| && Holds(store, ids, rejected, records[..n], usable)
    requires usable(records[n]) && records[n].entry.id in store.documents
    ensures var id := records[n].entry.id;
      Holds(Without(store, id), ids + {id}, rejected + 2, records[..n + 1], usable)
  {
    var gone, next := records[n].entry.id, records[..n + 1];
    assert StateAt(store, ids, gone, Carriers(records[..n], gone, usable));
    forall id ensures StateAt(Without(store, gone), ids + {gone}, id, Carriers(next, id, usable)) {
      CarriersNext(records, n, id, usable);
      StateWithout(store, ids, gone, id, Carriers(records[..n], id, usable), Carriers(records[..n + 1], id, usable));
    }
    SizeWithout(store.documents, gone);
  }

  lemma AddHolds(store: Store, ids: set<string>, rejected: int, records: seq<TrustRecord>, n: nat, usable: TrustRecord -> bool)
    requires n < |records| && Holds(store, ids, rejected, records[..n], usable)
    requires records[n].provenance.Some?
    requires usable(records[n]) && records[n].entry.id !in ids && records[n].entry.id !in store.documents
    ensures Holds(With(store, records[n]), ids, rejected, records[..n + 1], usable)
  {
    var r, next := records[n], records[..n + 1];
    forall id ensures StateAt(With(store, r), ids, id, Carriers(next, id, usable)) {
      CarriersNext(records, n, id, usable);
      assert StateAt(store, ids, id, Carriers(records[..n], id, usable));
    }
  }

  ghost function Without(store: Store, id: string): Store {
    Store(store.documents - {id}, store.provenanceByDocument - {id})
  }

  ghost function With(store: Store, r: TrustRecord): Store
    requires r.provenance.Some?
  {
    Store(store.documents[r.entry.id := r.entry.document], store.provenanceByDocument[r.entry.id := r.provenance.value])
  }

  lemma SizeWithout(documents: map<string, Value>, id: string)
    requires id in documents
    ensures |documents - {id}| == |documents| - 1
  {
    assert documents.Keys == (documents - {id}).Keys + {id};
  }

  lemma {:induction false} CarrierCount(records: seq<TrustRecord>, id: string, usable: TrustRecord -> bool, r: TrustRecord)
    ensures multiset(Carriers(records, id, usable))[r]
         == if r.entry.id == id && usable(r) then multiset(records)[r] else 0
  {
    if records != [] {
      var n := |records| - 1;
      CarrierCount(records[..n], id, usable, r);
      assert records == records[..n] + [records[n]];
    }
  }

  lemma CarriersUpToOrder(a: seq<TrustRecord>, b: seq<TrustRecord>, id: string, usable: TrustRecord -> bool)
    requires multiset(a) == multiset(b)
    ensures |Carriers(a, id, usable)| == |Carriers(b, id, usable)|
    ensures |Carriers(a, id, usable)| == 1 ==> Carriers(a, id, usable) == Carriers(b, id, usable)
  {
    var x, y := Carriers(a, id, usable), Carriers(b, id, usable);
    forall r ensures multiset(x)[r] == multiset(y)[r] {
      CarrierCount(a, id, usable, r);
      CarrierCount(b, id, usable, r);
    }
    SameSingleton(x, y);
  }

  lemma SameSingleton<T>(x: seq<T>, y: seq<T>)
    requires multiset(x) == multiset(y)
    ensures |x| == |y| && (|x| == 1 ==> x == y)
  {
    assert |multiset(x)| == |x| && |multiset(y)| == |y|;
    if |x| == 1 {
      assert x[0] in multiset(y);
    }
  }

  /** The order of the records does not matter: any permutation gives the same store and the same count. */
  lemma OrderDoesNotMatter(a: seq<TrustRecord>, b: seq<TrustRecord>, usable: TrustRecord -> bool,
                           s: Store, rejectedA: nat, t: Store, rejectedB: nat)
    requires multiset(a) == multiset(b)
    requires IsStoreOf(s, a, usable) && rejectedA + |s.documents| == |a|
    requires IsStoreOf(t, b, usable) && rejectedB + |t.documents| == |b|
    ensures s == t && rejectedA == rejectedB
  {
    forall id ensures StoreAt(s, id, Carriers(a, id, usable)) && StoreAt(t, id, Carriers(a, id, usable)) {
      CarriersUpToOrder(a, b, id, usable);
      assert StoreAt(s, id, Carriers(a, id, usable));
      assert StoreAt(t, id, Carriers(b, id, usable));
    }
    forall id ensures (id in s.documents <==> id in t.documents) && (id in s.provenanceByDocument <==> id in t.provenanceByDocument)
    ensures id in s.documents ==>
      id in s.provenanceByDocument && s.documents[id] == t.documents[id] && s.provenanceByDocument[id] == t.provenanceByDocument[id] {
      assert StoreAt(s, id, Carriers(a, id, usable)) && StoreAt(t, id, Carriers(a, id, usable));
    }
    assert s.provenanceByDocument.Keys == s.documents.Keys == t.provenanceByDocument.Keys by {
      forall id ensures id in s.provenanceByDocument <==> id in s.documents {
        assert StoreAt(s, id, Carriers(a, id, usable));
      }
    }
    assert s.documents == t.documents;
    assert s.provenanceByDocument == t.provenanceByDocument;
    assert |multiset(a)| == |a| && |multiset(b)| == |b|;
  }

  // -------------------------------------------------------------- lookup

  // The part of a method id in front of its fragment.
  function BeforeFragment(id: string): (base: Option<string>)
    ensures base.Some? <==> '#' in id
    ensures base.Some? ==> base.value + "#" <= id && '#' !in base.value
  {
    if id == "" then None
    else if id[0] == '#' then Some("")
    else match BeforeFragment(id[1..])
      case None => None
      case Some(base) => Some([id[0]] + base)
  }

  predicate MethodTrusted(documents: map<string, Value>, methodId: string) {
    methodId in documents || (BeforeFragment(methodId).Some? && BeforeFragment(methodId).value in documents)
  }

  function ProvenanceForMethod(store: Store, methodId: string): Option<Provenance> {
    if methodId in store.provenanceByDocument then Some(store.provenanceByDocument[methodId])
    else match BeforeFragment(methodId)
      case Some(base) => if base in store.provenanceByDocument then Some(store.provenanceByDocument[base]) else None
      case None => None
  }

  function AuthorityDocuments(store: Store, provenance: Provenance): (documents: map<string, Value>)
    ensures forall id :: id in documents <==>
      id in store.documents && id in store.provenanceByDocument && store.provenanceByDocument[id] == provenance
    ensures forall id :: id in documents ==> documents[id] == store.documents[id]
  {
    map id | id in store.documents && id in store.provenanceByDocument && store.provenanceByDocument[id] == provenance
      :: store.documents[id]
  }

  /**
   * A method is trusted exactly when it has a provenance, and then the
   * documents of that provenance alone make it trusted.
   */
  lemma TrustHasProvenance(store: Store, records: seq<TrustRecord>, usable: TrustRecord -> bool, methodId: string)
    requires IsStoreOf(store, records, usable)
    ensures MethodTrusted(store.documents, methodId) <==> ProvenanceForMethod(store, methodId).Some?
    ensures methodId in store.provenanceByDocument ==>
      ProvenanceForMethod(store, methodId) == Some(store.provenanceByDocument[methodId])
    ensures MethodTrusted(store.documents, methodId) ==>
      MethodTrusted(AuthorityDocuments(store, ProvenanceForMethod(store, methodId).value), methodId)
  {
    assert StoreAt(store, methodId, Carriers(records, methodId, usable));
    if BeforeFragment(methodId).Some? {
      assert StoreAt(store, BeforeFragment(methodId).value, Carriers(records, BeforeFragment(methodId).value, usable));
    }
  }

  lemma {:induction false} CarriersAreRecords(records: seq<TrustRecord>, id: string, usable: TrustRecord -> bool, r: TrustRecord)
    requires r in Carriers(records, id, usable)
    ensures r in records && r.entry.id == id && usable(r)
  {
    var n := |records| - 1;
    if r in Carriers(records[..n], id, usable) { CarriersAreRecords(records[..n], id, usable, r); }
  }

  // The provenance of a usable record for this very id.
  ghost predicate Vouched(records: seq<TrustRecord>, usable: TrustRecord -> bool, id: string, p: Provenance) {
    exists r :: r in records && usable(r) && r.entry.id == id && r.provenance == Some(p)
  }

  lemma HeldIsVouched(store: Store, records: seq<TrustRecord>, usable: TrustRecord -> bool, id: string)
    requires IsStoreOf(store, records, usable) && id in store.provenanceByDocument
    ensures Vouched(records, usable, id, store.provenanceByDocument[id])
  {
    var carriers := Carriers(records, id, usable);
    assert StoreAt(store, id, carriers);
    CarriersAreRecords(records, id, usable, carriers[0]);
  }

  /** The provenance that trust rests on is that of a usable record for the method's id, or for its id before the fragment. */
  lemma TrustComesFromARecord(store: Store, records: seq<TrustRecord>, usable: TrustRecord -> bool, methodId: string)
    requires IsStoreOf(store, records, usable) && ProvenanceForMethod(store, methodId).Some?
    ensures var p := ProvenanceForMethod(store, methodId).value;
      Vouched(records, usable, methodId, p)
      || (BeforeFragment(methodId).Some? && Vouched(records, usable, BeforeFragment(methodId).value, p))
  {
    if methodId in store.provenanceByDocument {
      HeldIsVouched(store, records, usable, methodId);
    } else {
      HeldIsVouched(store, records, usable, BeforeFragment(methodId).value);
    }
  }
}

module DtcTrust {
  import opened Common
  import opened Utf8
  import Pem

  datatype Provenance = Provenance(createdAt: int, expiresAt: int, importedAt: int)

  datatype Anchor = Anchor(
    certificateDer: seq<byte>, certificateHash: string, syncedAt: int, notBefore: Option<int>, notAfter: Option<int>)

  datatype AnchorRecord = AnchorRecord(anchor: Anchor, provenance: Option<Provenance>)

  datatype BuildResult = Built(anchors: seq<string>, rejected: nat) | Malformed

  predicate Usable(r: AnchorRecord, now: int, maxOfflineHours: nat) {
    && r.provenance.Some?
    && (var p := r.provenance.value;
        && p.createdAt <= now < p.expiresAt
        && p.importedAt <= now
        && now - p.createdAt <= 3600 * maxOfflineHours
        && r.anchor.syncedAt == p.createdAt)
    && (r.anchor.notBefore.Some? ==> r.anchor.notBefore.value <= now)
    && (r.anchor.notAfter.Some? ==> now < r.anchor.notAfter.value)
  }

  // The moments at which a record with a provenance may be used.
  ghost predicate During(r: AnchorRecord, now: int, hours: nat)
    requires r.provenance.Some?
  {
    var p := r.provenance.value;
    && p.createdAt <= now && p.importedAt <= now && now < p.expiresAt && now < p.createdAt + 3600 * hours + 1
    && (r.anchor.notBefore == None || exists t :: r.anchor.notBefore == Some(t) && t <= now)
    && (r.anchor.notAfter == None || exists t :: r.anchor.notAfter == Some(t) && now < t)
  }

  /** A record is usable exactly with a provenance of its own sync and at the moments that all its times allow. */
  lemma UsableDuring(r: AnchorRecord, now: int, hours: nat)
    ensures Usable(r, now, hours) <==>
      r.provenance.Some? && r.anchor.syncedAt == r.provenance.value.createdAt && During(r, now, hours)
  {}

  // A record counts if it is usable and no usable record before it has its hash.
  ghost predicate Leads(records: seq<AnchorRecord>, i: nat, now: int, hours: nat)
    requires i < |records|
  {
    Usable(records[i], now, hours)
    && forall j :: 0 <= j < i && Usable(records[j], now, hours) ==>
         records[j].anchor.certificateHash != records[i].anchor.certificateHash
  }

  ghost function Leaders(records: seq<AnchorRecord>, n: nat, now: int, hours: nat): seq<Anchor>
    requires n <= |records|
  {
    if n == 0 then []
    else Leaders(records, n - 1, now, hours) + if Leads(records, n - 1, now, hours) then [records[n - 1].anchor] else []
  }

  function PemTexts(anchors: seq<Anchor>): seq<string> {
    if anchors == [] then []
    else PemTexts(anchors[..|anchors| - 1]) + [Pem.Text(anchors[|anchors| - 1].certificateDer)]
  }

  function UnusableCount(records: seq<AnchorRecord>, n: nat, now: int, hours: nat): nat
    requires n <= |records|
  {
    if n == 0 then 0 else UnusableCount(records, n - 1, now, hours) + if Usable(records[n - 1], now, hours) then 0 else 1
  }

  ghost predicate SeenUpTo(seen: set<string>, records: seq<AnchorRecord>, n: nat, now: int, hours: nat)
    requires n <= |records|
  {
    forall hash :: hash in seen <==>
      exists j :: 0 <= j < n && Usable(records[j], now, hours) && records[j].anchor.certificateHash == hash
  }

  lemma SeenGrows(seen: set<string>, records: seq<AnchorRecord>, n: nat, now: int, hours: nat)
    requires n < |records| && SeenUpTo(seen, records, n, now, hours)
    ensures Leads(records, n, now, hours) <==>
      Usable(records[n], now, hours) && records[n].anchor.certificateHash !in seen
    ensures SeenUpTo(if Usable(records[n], now, hours) then seen + {records[n].anchor.certificateHash} else seen,
                     records, n + 1, now, hours)
  {
    var hash := records[n].anchor.certificateHash;
    assert hash in seen <==> exists j :: 0 <= j < n && Usable(records[j], now, hours) && records[j].anchor.certificateHash == hash;
  }

  lemma PemTextsSnoc(anchors: seq<Anchor>, a: Anchor)
    ensures PemTexts(anchors + [a]) == PemTexts(anchors) + [Pem.Text(a.certificateDer)]
  {
    assert (anchors + [a])[..|anchors|] == anchors;
  }

  lemma PemTextsStep(records: seq<AnchorRecord>, n: nat, now: int, hours: nat)
    requires n < |records|
    ensures PemTexts(Leaders(records, n + 1, now, hours)) == PemTexts(Leaders(records, n, now, hours))
         + if Leads(records, n, now, hours) then [Pem.Text(records[n].anchor.certificateDer)] else []
  {
    var leaders := Leaders(records, n, now, hours);
    if Leads(records, n, now, hours) {
      PemTextsSnoc(leaders, records[n].anchor);
      assert Leaders(records, n + 1, now, hours) == leaders + [records[n].anchor];
    } else {
      assert Leaders(records, n + 1, now, hours) == leaders;
    }
  }

  ghost predicate Broken(records: seq<AnchorRecord>, i: nat, now: int, hours: nat, parses: seq<byte> -> bool)
    requires i < |records|
  {
    Leads(records, i, now, hours) && !parses(records[i].anchor.certificateDer)
  }

  /** The PEM texts of the first usable record of every hash, in order; an unreadable one among them fails the whole store. */
  method BuildGovernedCscaStore(records: seq<AnchorRecord>, now: int, maxOfflineHours: nat, parses: seq<byte> -> bool)
    returns (r: BuildResult)
    ensures r.Malformed? <==> exists i :: 0 <= i < |records| && Broken(records, i, now, maxOfflineHours, parses)
    ensures r.Built? ==>
      r.anchors == PemTexts(Leaders(records, |records|, now, maxOfflineHours))
      && r.rejected == UnusableCount(records, |records|, now, maxOfflineHours)
  {
    var anchors: seq<string> := [];
    var seen: set<string> := {};
    var rejected := 0;
    for n := 0 to |records|
      invariant SeenUpTo(seen, records, n, now, maxOfflineHours)
      invariant anchors == PemTexts(Leaders(records, n, now, maxOfflineHours))
      invariant rejected == UnusableCount(records, n, now, maxOfflineHours)
      invariant forall i :: 0 <= i < n ==> !Broken(records, i, now, maxOfflineHours, parses)
    {
      var anchor := records[n].anchor;
      SeenGrows(seen, records, n, now, maxOfflineHours);
      PemTextsStep(records, n, now, maxOfflineHours);
      if !Usable(records[n], now, maxOfflineHours) {
        rejected := rejected + 1;
        continue;
      }
      if anchor.certificateHash in seen {
        assert seen == seen + {anchor.certificateHash};
        continue;
      }
      seen := seen + {anchor.certificateHash};
      if !parses(anchor.certificateDer) {
        assert Broken(records, n, now, maxOfflineHours, parses);
        return BuildResult.Malformed;
      }
      var pem := Pem.CertificateDerToPem(anchor.certificateDer);
      anchors := anchors + [pem];
    }
    r := Built(anchors, rejected);
  }

  // The places of the unusable records.
  ghost function UnusablePlaces(records: seq<AnchorRecord>, n: nat, now: int, hours: nat): set<nat>
    requires n <= |records|
  {
    set i: nat | i < n && !Usable(records[i], now, hours)
  }

  /** As many records are rejected as are unusable; a repeated certificate is not rejected. */
  lemma {:induction false} RejectedExactly(records: seq<AnchorRecord>, n: nat, now: int, hours: nat)
    requires n <= |records|
    ensures UnusableCount(records, n, now, hours) == |UnusablePlaces(records, n, now, hours)|
  {
    if n > 0 {
      RejectedExactly(records, n - 1, now, hours);
      var before := UnusablePlaces(records, n - 1, now, hours);
      if Usable(records[n - 1], now, hours) {
        assert UnusablePlaces(records, n, now, hours) == before;
      } else {
        assert UnusablePlaces(records, n, now, hours) == before + {n - 1};
      }
    }
  }

  /** Every usable certificate hash is represented exactly once among the leaders. */
  lemma {:induction false} LeadersRepresent(records: seq<AnchorRecord>, n: nat, now: int, hours: nat, hash: string)
    requires n <= |records|
    ensures (exists i :: 0 <= i < n && Usable(records[i], now, hours) && records[i].anchor.certificateHash == hash)
       <==> exists k :: 0 <= k < |Leaders(records, n, now, hours)| && Leaders(records, n, now, hours)[k].certificateHash == hash
    ensures forall k, l :: 0 <= k < l < |Leaders(records, n, now, hours)| ==>
      Leaders(records, n, now, hours)[k].certificateHash != Leaders(records, n, now, hours)[l].certificateHash
  {
    if n > 0 {
      var before, after := Leaders(records, n - 1, now, hours), Leaders(records, n, now, hours);
      LeadersRepresent(records, n - 1, now, hours, hash);
      LeadersRepresent(records, n - 1, now, hours, records[n - 1].anchor.certificateHash);
      assert forall k :: 0 <= k < |before| ==> after[k] == before[k];
      if Leads(records, n - 1, now, hours) { assert after[|before|] == records[n - 1].anchor; }
    }
  }

  // ------------------------------------------------------------- verdict

  datatype Outcome = Passed | Failed | NotPerformed | Error
  datatype Check = Check(name: string, outcome: Outcome)

  function Matching(checks: seq<Check>, name: string): seq<Check> {
    if checks == [] then []
    else (if checks[0].name == name then [checks[0]] else []) + Matching(checks[1..], name)
  }

  predicate ExactlyOnePassed(checks: seq<Check>, name: string) {
    var matching := Matching(checks, name);
    |matching| == 1 && matching[0].outcome == Passed
  }

  lemma {:induction false} NoneMatching(checks: seq<Check>, name: string)
    ensures Matching(checks, name) == [] <==> forall i :: 0 <= i < |checks| ==> checks[i].name != name
  {
    if checks != [] {
      NoneMatching(checks[1..], name);
      assert forall i :: 1 <= i < |checks| ==> checks[i] == checks[1..][i - 1];
    }
  }

  // The list holds one check of the name, the i-th, and it passed.
  ghost predicate SolePass(checks: seq<Check>, name: string, i: int) {
    && 0 <= i < |checks| && checks[i] == Check(name, Passed)
    && forall j :: 0 <= j < |checks| && checks[j].name == name ==> j == i
  }

  /** The verdict needs one check of the name in the whole list, and that one passed. */
  lemma {:induction false} ExactlyOnePassedMeans(checks: seq<Check>, name: string)
    ensures ExactlyOnePassed(checks, name) <==> exists i :: SolePass(checks, name, i)
  {
    if checks != [] {
      var rest := checks[1..];
      assert forall i :: 1 <= i < |checks| ==> checks[i] == rest[i - 1];
      NoneMatching(rest, name);
      ExactlyOnePassedMeans(rest, name);
      if checks[0].name == name {
        assert forall i :: SolePass(checks, name, i) ==> i == 0;
        if ExactlyOnePassed(checks, name) { assert SolePass(checks, name, 0); }
      } else {
        forall i ensures SolePass(rest, name, i) <==> SolePass(checks, name, i + 1) {
          SolePassShifts(checks, name, i);
        }
        if exists i :: SolePass(checks, name, i) {
          var i :| SolePass(checks, name, i);
          assert SolePass(rest, name, i - 1);
        }
      }
    }
  }

  lemma SolePassShifts(checks: seq<Check>, name: string, i: int)
    requires checks != [] && checks[0].name != name
    ensures SolePass(checks[1..], name, i) <==> SolePass(checks, name, i + 1)
  {
    var rest := checks[1..];
    assert forall j :: 0 <= j < |rest| ==> rest[j] == checks[j + 1];
    assert forall j :: 1 <= j < |checks| ==> checks[j] == rest[j - 1];
    if SolePass(rest, name, i) {
      forall j | 0 <= j < |checks| && checks[j].name == name ensures j == i + 1 {
        assert rest[j - 1].name == name;
      }
    }
    if SolePass(checks, name, i + 1) {
      forall j | 0 <= j < |rest| && rest[j].name == name ensures j == i {
        assert checks[j + 1].name == name;
      }
    }
  }
}
