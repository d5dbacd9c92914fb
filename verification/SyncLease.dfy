// The sync lease: forced and unforced syncs, errors, cancellation at any await,
// and package imports, which take no lease, in any interleaving.

module SyncLease {
  import opened Common

  // The stored sync state, as far as the trust clock and its error go.
  datatype Clock = Clock(iaca: Option<int>, csca: Option<int>)
  datatype SyncRecord = SyncRecord(clock: Clock, lastError: Option<string>)

  datatype SyncConfig = SyncConfig(aamva: Option<string>, icao: Option<string>, openBadge: Option<string>)

  datatype Outcome = Ok | SourceUnavailable(sources: seq<string>)

  // Where an active sync stands: before its work, before reading the stored
  // state, or before writing the changed copy back.
  datatype Phase = Working | Reading(outcome: Outcome) | Writing(record: SyncRecord)

  datatype State = State(inProgress: bool, active: map<nat, Phase>, stored: Option<SyncRecord>)

  datatype Event =
    | Begin(caller: nat, force: bool)
    | DoSync(caller: nat, config: SyncConfig)
    | ReadState(caller: nat, now: int)
    | WriteState(caller: nat)
    | Stop(caller: nat, landed: bool)   // an error or a cancellation at an await; a pending write may have landed
    | Import(record: SyncRecord)        // an applied trust package

  const UNSYNCED := Clock(None, None)

  function ClockOf(stored: Option<SyncRecord>): Clock {
    if stored.Some? then stored.value.clock else UNSYNCED
  }

  function ConfiguredSources(config: SyncConfig): seq<string> {
    (if config.aamva.Some? then ["AAMVA DTS"] else [])
    + (if config.icao.Some? then ["ICAO PKD"] else [])
    + (if config.openBadge.Some? then ["Open Badge trust"] else [])
  }

  // No adapter can authenticate a whole transition yet, whatever is configured.
  function NetworkOutcome(config: SyncConfig): Outcome {
    SourceUnavailable(ConfiguredSources(config))
  }

  function Message(outcome: Outcome): string
    requires outcome.SourceUnavailable?
  {
    if outcome.sources == [] then "no network trust source is configured; import a signed trust package"
    else "authenticated network synchronization is unavailable for " + Joined(outcome.sources)
  }

  function Joined(names: seq<string>): string
    requires names != []
  {
    if |names| == 1 then names[0] else names[0] + ", " + Joined(names[1..])
  }

  // The copy a sync writes back.
  function Updated(stored: Option<SyncRecord>, outcome: Outcome, now: int): SyncRecord {
    match outcome
    case Ok => SyncRecord(Clock(Some(now), Some(now)), None)
    case SourceUnavailable(_) => SyncRecord(ClockOf(stored), Some(Message(outcome)))
  }

  predicate Enabled(s: State, e: Event) {
    match e
    case Begin(c, _) => c !in s.active
    case DoSync(c, _) => c in s.active && s.active[c].Working?
    case ReadState(c, _) => c in s.active && s.active[c].Reading?
    case WriteState(c) => c in s.active && s.active[c].Writing?
    case Stop(c, _) => c in s.active
    case Import(_) => true
  }

  function After(s: State, e: Event): State
    requires Enabled(s, e)
  {
    match e
    case Begin(c, _) =>
      if s.inProgress then s else s.(inProgress := true, active := s.active[c := Working])
    case DoSync(c, config) => s.(active := s.active[c := Reading(NetworkOutcome(config))])
    case ReadState(c, now) => s.(active := s.active[c := Writing(Updated(s.stored, s.active[c].outcome, now))])
    case WriteState(c) => State(false, s.active - {c}, Some(s.active[c].record))
    case Stop(c, landed) =>
      State(false, s.active - {c}, if landed && s.active[c].Writing? then Some(s.active[c].record) else s.stored)
    case Import(record) => s.(stored := Some(record))
  }

  predicate Runs(s: State, events: seq<Event>)
    decreases |events|
  {
    events == [] || (Enabled(s, events[0]) && Runs(After(s, events[0]), events[1..]))
  }

  function End(s: State, events: seq<Event>): State
    requires Runs(s, events)
    decreases |events|
  {
    if events == [] then s else End(After(s, events[0]), events[1..])
  }

  predicate AtRest(s: State) { !s.inProgress && s.active == map[] }

  // ------------------------------------------------------------- the lease

  // The flag is set exactly while a sync is active, and there is at most one.
  predicate Leased(s: State) {
    && (s.inProgress <==> s.active != map[])
    && (forall c, d :: c in s.active && d in s.active ==> c == d)
  }

  lemma StepLeased(s: State, e: Event)
    requires Leased(s) && Enabled(s, e)
    ensures Leased(After(s, e))
  {
    match e
    case WriteState(c) => assert s.active - {c} == map[];
    case Stop(c, _) => assert s.active - {c} == map[];
    case DoSync(c, _) => assert c in After(s, e).active;
    case ReadState(c, _) => assert c in After(s, e).active;
    case Begin(c, _) => assert s.inProgress || c in After(s, e).active;
    case _ =>
  }

  /** Whatever interleaves, at most one sync is active and the flag tells whether one is. */
  lemma {:induction false} LeaseIsExclusive(s: State, events: seq<Event>)
    requires Leased(s) && Runs(s, events)
    ensures Leased(End(s, events))
    decreases |events|
  {
    if events != [] {
      StepLeased(s, events[0]);
      LeaseIsExclusive(After(s, events[0]), events[1..]);
    }
  }

  // ------------------------------------------------------------- the clock

  function Imported(events: seq<Event>): set<Clock> {
    set e | e in events && e.Import? :: e.record.clock
  }

  // No active sync can bring in a clock from outside the known ones.
  predicate Sourced(s: State, known: set<Clock>) {
    && ClockOf(s.stored) in known
    && (forall c :: c in s.active && s.active[c].Reading? ==> s.active[c].outcome.SourceUnavailable?)
    && (forall c :: c in s.active && s.active[c].Writing? ==> s.active[c].record.clock in known)
  }

  lemma {:induction false} SourcedRun(s: State, events: seq<Event>, known: set<Clock>)
    requires Runs(s, events) && Sourced(s, known)
    ensures Sourced(End(s, events), known + Imported(events))
    decreases |events|
  {
    if events == [] {
      assert known + Imported(events) == known;
    } else {
      var next := known + if events[0].Import? then {events[0].record.clock} else {};
      SourcedRun(After(s, events[0]), events[1..], next);
      assert events == [events[0]] + events[1..];
      assert next + Imported(events[1..]) == known + Imported(events);
    }
  }

  /** Every trust clock ever stored was there at the start or came with an applied package: sync never makes one. */
  lemma ClockComesFromPackages(s: State, events: seq<Event>)
    requires AtRest(s) && Runs(s, events)
    ensures ClockOf(End(s, events).stored) in {ClockOf(s.stored)} + Imported(events)
  {
    SourcedRun(s, events, {ClockOf(s.stored)});
  }

  // The clock that the imports among the events leave, given the one before them.
  function LastImported(events: seq<Event>, clock: Clock): Clock {
    if events == [] then clock
    else LastImported(events[1..], if events[0].Import? then events[0].record.clock else clock)
  }

  predicate Leaves(events: seq<Event>, c: nat) {
    forall e :: e in events ==> !(e == WriteState(c) || (e.Stop? && e.caller == c))
  }

  // While c waits to write, only imports change the stored state.
  lemma {:induction false} OnlyImportsWhileWriting(s: State, c: nat, events: seq<Event>)
    requires Leased(s) && c in s.active && s.active[c].Writing?
    requires Runs(s, events) && Leaves(events, c)
    ensures var t := End(s, events);
      Leased(t) && c in t.active && t.active[c] == s.active[c] && ClockOf(t.stored) == LastImported(events, ClockOf(s.stored))
    decreases |events|
  {
    if events != [] {
      StepLeased(s, events[0]);
      assert events[0] in events;
      assert forall e :: e in events[1..] ==> e in events;
      OnlyImportsWhileWriting(After(s, events[0]), c, events[1..]);
    }
  }

  /**
   * A sync writes back the clock it read: an import that lands between its
   * read and its write is undone, and that shows exactly when the last such
   * import carries another clock.
   */
  lemma SyncRestoresTheClockItRead(start: State, before: seq<Event>, c: nat, now: int, between: seq<Event>)
    requires AtRest(start) && Runs(start, before) && Enabled(End(start, before), ReadState(c, now))
    requires Runs(After(End(start, before), ReadState(c, now)), between) && Leaves(between, c)
    ensures var s := End(start, before);
      var t := End(After(s, ReadState(c, now)), between);
      && Enabled(t, WriteState(c))
      && ClockOf(After(t, WriteState(c)).stored) == ClockOf(s.stored)
      && ((ClockOf(After(t, WriteState(c)).stored) != ClockOf(t.stored))
          <==> (LastImported(between, ClockOf(s.stored)) != ClockOf(s.stored)))
  {
    var s := End(start, before);
    LeaseIsExclusive(start, before);
    SourcedRun(start, before, {ClockOf(start.stored)});
    StepLeased(s, ReadState(c, now));
    OnlyImportsWhileWriting(After(s, ReadState(c, now)), c, between);
  }

  /** An import can be undone: any imported clock other than the stored one, between a sync's read and its write. */
  lemma ImportCanBeUndone(start: State, imported: SyncRecord, config: SyncConfig, now: int) returns (before: seq<Event>)
    requires AtRest(start) && imported.clock != ClockOf(start.stored)
    ensures before == [Begin(0, false), DoSync(0, config), ReadState(0, now), Import(imported)]
    ensures Runs(start, before) && Enabled(End(start, before), WriteState(0))
    ensures ClockOf(End(start, before).stored) == imported.clock
    ensures ClockOf(After(End(start, before), WriteState(0)).stored) == ClockOf(start.stored) != imported.clock
  {
    var e1, e2, e3, e4 := Begin(0, false), DoSync(0, config), ReadState(0, now), Import(imported);
    var s1 := After(start, e1);
    var s2 := After(s1, e2);
    var s3 := After(s2, e3);
    RunOneMore(s3, e4, []);
    RunOneMore(s2, e3, [e4]);
    RunOneMore(s1, e2, [e3, e4]);
    RunOneMore(start, e1, [e2, e3, e4]);
    before := [e1, e2, e3, e4];
  }

  lemma RunOneMore(s: State, e: Event, rest: seq<Event>)
    requires Enabled(s, e) && Runs(After(s, e), rest)
    ensures Runs(s, [e] + rest) && End(s, [e] + rest) == End(After(s, e), rest)
  {
    assert ([e] + rest)[1..] == rest;
  }

  /** The sources that an error names are those that are configured. */
  lemma SourcesExactly(config: SyncConfig, source: string)
    ensures source in ConfiguredSources(config) <==>
      || (source == "AAMVA DTS" && config.aamva.Some?) || (source == "ICAO PKD" && config.icao.Some?)
      || (source == "Open Badge trust" && config.openBadge.Some?)
    ensures ConfiguredSources(config) == [] <==> config == SyncConfig(None, None, None)
  {}

  /** A sync keeps the clock and leaves an error that says whether any source is configured, and which. */
  lemma SyncLeavesAnError(stored: Option<SyncRecord>, config: SyncConfig, now: int)
    ensures var record := Updated(stored, NetworkOutcome(config), now);
      && record.clock == (if stored.Some? then stored.value.clock else Clock(None, None))
      && record.lastError == Some(
           if config == SyncConfig(None, None, None)
           then "no network trust source is configured; import a signed trust package"
           else "authenticated network synchronization is unavailable for " + Joined(ConfiguredSources(config)))
  {
    SourcesExactly(config, "");
  }
}
