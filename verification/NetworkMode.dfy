// The online/offline mode protocol between the user interface's store and the
// native runtime. Host events and operator clicks request a mode; a promise
// chain sends the requests to the native side one at a time.

module NetworkMode {

  datatype Request = Request(number: nat, online: bool)

  // The request at the head of the chain, between its suspension points.
  datatype Stage =
    | Idle
    | Called(request: Request)      // the native command is on its way
    | Applied(request: Request)     // the native flag is set, the reply is on its way
    | Refreshing(request: Request)  // the reply is in, the queue status is being read

  datatype State = State(
    hostOnline: bool, offlineMode: bool, isOnline: bool, networkBusy: bool, networkError: bool,
    networkRequests: nat, waiting: seq<Request>, stage: Stage,
    native: bool,
    requested: seq<bool>,  // history: the mode of every request, in order
    called: seq<bool>,     // history: the mode of every native command, in order
    lastOk: bool,          // history: the last finished request got its reply
    givenUp: set<Request>, // commands whose call failed and that may still take effect
    late: bool)            // history: one of those has taken effect

  datatype Step =
    | HostEvent(online: bool)
    | OperatorClick(offline: bool)
    | Start
    | NativeApplies
    | Reply(reportingError: bool)
    | IpcFails
    | LateCommand(request: Request)
    | QueueRefreshed(failed: bool)

  const INITIAL := State(false, false, false, false, false, 0, [], Idle, false, [], [], true, {}, false)

  function Wanted(s: State): bool { s.hostOnline && !s.offlineMode }

  predicate AtRest(s: State) { s.stage == Idle && s.waiting == [] }

  predicate Enabled(s: State, step: Step) {
    match step
    case HostEvent(_) => true
    case OperatorClick(_) => true
    case Start => s.stage.Idle? && s.waiting != []
    case NativeApplies => s.stage.Called?
    case Reply(_) => s.stage.Applied?
    case IpcFails => s.stage.Called? || s.stage.Applied?
    case LateCommand(request) => request in s.givenUp
    case QueueRefreshed(_) => s.stage.Refreshing?
  }

  // applyNetworkMode up to its first suspension.
  function Ask(s: State): State {
    s.(networkRequests := s.networkRequests + 1, networkBusy := true, networkError := false,
       waiting := s.waiting + [Request(s.networkRequests + 1, Wanted(s))], requested := s.requested + [Wanted(s)])
  }

  // The finally block: only the latest request clears the busy flag.
  function Finish(s: State, request: Request, ok: bool): State {
    s.(networkBusy := if request.number == s.networkRequests then false else s.networkBusy, stage := Idle, lastOk := ok)
  }

  function Apply(s: State, step: Step): State
    requires Enabled(s, step)
  {
    match step
    case HostEvent(online) => Ask(s.(hostOnline := online))
    case OperatorClick(offline) => Ask(s.(offlineMode := offline))
    case Start => s.(stage := Called(s.waiting[0]), waiting := s.waiting[1..], called := s.called + [s.waiting[0].online])
    case NativeApplies => s.(native := s.stage.request.online, stage := Applied(s.stage.request))
    case Reply(reportingError) =>
      s.(isOnline := s.stage.request.online, networkError := reportingError, stage := Refreshing(s.stage.request))
    case IpcFails =>
      Finish(s.(networkError := true, givenUp := if s.stage.Called? then s.givenUp + {s.stage.request} else s.givenUp),
             s.stage.request, false)
    case LateCommand(request) => s.(native := request.online, givenUp := s.givenUp - {request}, late := true)
    case QueueRefreshed(failed) => Finish(s.(networkError := s.networkError || failed), s.stage.request, true)
  }

  ghost predicate Runs(states: seq<State>, steps: seq<Step>) {
    && |states| == |steps| + 1
    && states[0] == INITIAL
    && forall i :: 0 <= i < |steps| ==> Enabled(states[i], steps[i]) && states[i + 1] == Apply(states[i], steps[i])
  }

  // ----------------------------------------------------------- invariant

  // Unfinished requests, oldest first.
  function Unfinished(s: State): seq<Request> {
    (if s.stage.Idle? then [] else [s.stage.request]) + s.waiting
  }

  // The unfinished requests are the latest ones, in the order they were made.
  ghost predicate Latest(u: seq<Request>, requested: seq<bool>) {
    && |u| <= |requested|
    && forall i :: 0 <= i < |u| ==>
         u[i].number == |requested| - |u| + i + 1 && u[i].online == requested[|requested| - |u| + i]
  }

  function LastOf(modes: seq<bool>): bool { modes != [] && modes[|modes| - 1] }

  ghost predicate ChainInv(s: State) {
    && Latest(Unfinished(s), s.requested) && |s.requested| == s.networkRequests
    && Wanted(s) == LastOf(s.requested)
    && s.called == s.requested[..|s.requested| - |s.waiting|]
    && (s.networkBusy <==> Unfinished(s) != [])
  }

  ghost predicate FlagInv(s: State) {
    match s.stage
    case Called(_) => true
    case Applied(request) => s.native == request.online
    case Refreshing(request) => s.native == request.online == s.isOnline
    case Idle => if s.lastOk then s.native == s.isOnline == LastOf(s.called) else s.waiting == [] ==> s.networkError
  }

  ghost predicate Inv(s: State) { ChainInv(s) && (!s.late ==> FlagInv(s)) }

  lemma LatestGrows(u: seq<Request>, requested: seq<bool>, mode: bool)
    requires Latest(u, requested)
    ensures Latest(u + [Request(|requested| + 1, mode)], requested + [mode])
  {}

  lemma CalledStays(requested: seq<bool>, waiting: nat, mode: bool)
    requires waiting <= |requested|
    ensures (requested + [mode])[..|requested + [mode]| - (waiting + 1)] == requested[..|requested| - waiting]
  {}

  lemma AskKeepsChain(t: State, requested: seq<bool>, u: seq<Request>)
    requires requested == t.requested && u == Unfinished(t)
    requires Latest(u, requested) && |requested| == t.networkRequests
    requires t.called == requested[..|requested| - |t.waiting|]
    ensures ChainInv(Ask(t))
  {
    var mode := Wanted(t);
    LatestGrows(u, requested, mode);
    CalledStays(requested, |t.waiting|, mode);
    assert Unfinished(Ask(t)) == u + [Request(|requested| + 1, mode)];
  }

  lemma AskKeeps(s: State, hostOnline: bool, offlineMode: bool)
    requires Inv(s)
    ensures Inv(Ask(s.(hostOnline := hostOnline, offlineMode := offlineMode)))
  {
    AskKeepsChain(s.(hostOnline := hostOnline, offlineMode := offlineMode), s.requested, Unfinished(s));
  }

  lemma StartKeeps(s: State)
    requires Inv(s) && Enabled(s, Start)
    ensures Inv(Apply(s, Start))
  {
    var u := Unfinished(s);
    assert u == s.waiting && Unfinished(Apply(s, Start)) == u;
    var k := |s.requested| - |u|;
    assert s.requested[..k + 1] == s.requested[..k] + [u[0].online];
  }

  lemma LatestTail(u: seq<Request>, requested: seq<bool>)
    requires Latest(u, requested) && u != []
    ensures Latest(u[1..], requested)
    ensures u[0].number == |requested| <==> |u| == 1
    ensures requested[|requested| - |u|] == u[0].online
  {}

  lemma FinishKeepsChain(s: State, t: State)
    requires ChainInv(s) && !s.stage.Idle?
    requires exists error, givenUp, ok :: t == Finish(s.(networkError := error, givenUp := givenUp), s.stage.request, ok)
    ensures ChainInv(t) && LastOf(t.called) == s.stage.request.online
  {
    var u := Unfinished(s);
    assert u[0] == s.stage.request && |u| == |s.waiting| + 1;
    assert Unfinished(t) == u[1..];
    LatestTail(u, s.requested);
    assert s.called[|s.called| - 1] == s.requested[|s.requested| - |u|];
  }

  lemma FailureKeeps(s: State)
    requires Inv(s) && Enabled(s, IpcFails)
    ensures Inv(Apply(s, IpcFails))
  {
    var givenUp := if s.stage.Called? then s.givenUp + {s.stage.request} else s.givenUp;
    assert Apply(s, IpcFails) == Finish(s.(networkError := true, givenUp := givenUp), s.stage.request, false);
    FinishKeepsChain(s, Apply(s, IpcFails));
  }

  lemma RefreshKeeps(s: State, failed: bool)
    requires Inv(s) && Enabled(s, QueueRefreshed(failed))
    ensures Inv(Apply(s, QueueRefreshed(failed)))
  {
    var error := s.networkError || failed;
    assert Apply(s, QueueRefreshed(failed)) == Finish(s.(networkError := error, givenUp := s.givenUp), s.stage.request, true);
    FinishKeepsChain(s, Apply(s, QueueRefreshed(failed)));
  }

  lemma FlagStepKeeps(s: State, step: Step)
    requires Inv(s) && Enabled(s, step) && (step.NativeApplies? || step.Reply? || step.LateCommand?)
    ensures Inv(Apply(s, step))
  {
    assert Unfinished(Apply(s, step)) == Unfinished(s);
  }

  lemma StepKeeps(s: State, step: Step)
    requires Inv(s) && Enabled(s, step)
    ensures Inv(Apply(s, step))
  {
    match step
    case HostEvent(online) => AskKeeps(s, online, s.offlineMode);
    case OperatorClick(offline) => AskKeeps(s, s.hostOnline, offline);
    case Start => StartKeeps(s);
    case IpcFails => FailureKeeps(s);
    case QueueRefreshed(failed) => RefreshKeeps(s, failed);
    case _ => FlagStepKeeps(s, step);
  }

  lemma {:induction false} RunKeeps(states: seq<State>, steps: seq<Step>, n: nat)
    requires Runs(states, steps) && n < |states|
    ensures Inv(states[n])
  {
    if n > 0 {
      RunKeeps(states, steps, n - 1);
      StepKeeps(states[n - 1], steps[n - 1]);
    }
  }

  // ------------------------------------------------------------ theorems

  /** Native commands go out in the order the modes were requested, none skipped or repeated. */
  lemma CallsFollowRequests(states: seq<State>, steps: seq<Step>, n: nat)
    requires Runs(states, steps) && n < |states|
    ensures states[n].called <= states[n].requested
    ensures AtRest(states[n]) ==> states[n].called == states[n].requested
  {
    RunKeeps(states, steps, n);
  }

  /** The busy flag is set exactly while a request is unfinished. */
  lemma BusyWhileUnfinished(states: seq<State>, steps: seq<Step>, n: nat)
    requires Runs(states, steps) && n < |states|
    ensures states[n].networkBusy <==> !AtRest(states[n])
  {
    RunKeeps(states, steps, n);
  }

  // The number of the last request whose native command took effect, in time
  // or late, 0 for none.
  ghost function AppliedRequest(states: seq<State>, steps: seq<Step>, n: nat): nat
    requires Runs(states, steps) && n < |states|
  {
    if n == 0 then 0 else AppliedAfter(states[n - 1], steps[n - 1], AppliedRequest(states, steps, n - 1))
  }

  // The number of the last request that got its reply, 0 for none.
  ghost function RepliedRequest(states: seq<State>, steps: seq<Step>, n: nat): nat
    requires Runs(states, steps) && n < |states|
  {
    if n == 0 then 0 else RepliedAfter(states[n - 1], steps[n - 1], RepliedRequest(states, steps, n - 1))
  }

  // The mode asked for by a request; before any request both sides are offline.
  ghost predicate ModeOf(requested: seq<bool>, number: nat) {
    0 < number <= |requested| && requested[number - 1]
  }

  lemma CurrentRequest(s: State)
    requires Inv(s) && !s.stage.Idle?
    ensures Asked(s.stage.request, s.requested)
  {
    assert Unfinished(s)[0] == s.stage.request;
  }

  ghost predicate Asked(request: Request, requested: seq<bool>) {
    0 < request.number <= |requested| && request.online == ModeOf(requested, request.number)
  }

  // The flags are the modes of the given requests, and so is whatever may still take effect.
  ghost predicate Follows(s: State, applied: nat, replied: nat) {
    && applied <= |s.requested| && replied <= |s.requested|
    && s.native == ModeOf(s.requested, applied) && s.isOnline == ModeOf(s.requested, replied)
    && forall request :: request in s.givenUp ==> Asked(request, s.requested)
  }

  lemma AskedStays(request: Request, requested: seq<bool>, mode: bool)
    requires Asked(request, requested)
    ensures Asked(request, requested + [mode])
  {}

  lemma AskFollows(s: State, t: State, applied: nat, replied: nat)
    requires Follows(s, applied, replied)
    requires t == Ask(s.(hostOnline := t.hostOnline, offlineMode := t.offlineMode))
    ensures Follows(t, applied, replied)
  {
    forall request | request in s.givenUp ensures Asked(request, t.requested) {
      AskedStays(request, s.requested, Wanted(t));
    }
  }

  lemma OtherFollows(s: State, step: Step, applied: nat, replied: nat)
    requires Inv(s) && Enabled(s, step) && Follows(s, applied, replied) && !step.HostEvent? && !step.OperatorClick?
    ensures Follows(Apply(s, step), AppliedAfter(s, step, applied), RepliedAfter(s, step, replied))
  {
    if !s.stage.Idle? { CurrentRequest(s); }
  }

  function AppliedAfter(s: State, step: Step, applied: nat): nat
    requires Enabled(s, step)
  {
    if step.NativeApplies? then s.stage.request.number else if step.LateCommand? then step.request.number else applied
  }

  function RepliedAfter(s: State, step: Step, replied: nat): nat
    requires Enabled(s, step)
  {
    if step.Reply? then s.stage.request.number else replied
  }

  lemma FollowsStep(s: State, step: Step, applied: nat, replied: nat)
    requires Inv(s) && Enabled(s, step) && Follows(s, applied, replied)
    ensures Follows(Apply(s, step), AppliedAfter(s, step, applied), RepliedAfter(s, step, replied))
  {
    if step.HostEvent? || step.OperatorClick? {
      AskFollows(s, Apply(s, step), applied, replied);
    } else {
      OtherFollows(s, step, applied, replied);
    }
  }

  /** The native flag is the mode of the last applied request, the displayed mode that of the last one replied to. */
  lemma {:induction false} FlagsFollowRequests(states: seq<State>, steps: seq<Step>, n: nat)
    requires Runs(states, steps) && n < |states|
    ensures Follows(states[n], AppliedRequest(states, steps, n), RepliedRequest(states, steps, n))
  {
    if n > 0 {
      FlagsFollowRequests(states, steps, n - 1);
      RunKeeps(states, steps, n - 1);
      FollowsStep(states[n - 1], steps[n - 1], AppliedRequest(states, steps, n - 1), RepliedRequest(states, steps, n - 1));
    }
  }

  // What the last host event said, and the last click of the operator; neither before there is one.
  function LastHost(steps: seq<Step>, n: nat): bool
    requires n <= |steps|
  {
    if n == 0 then false else if steps[n - 1].HostEvent? then steps[n - 1].online else LastHost(steps, n - 1)
  }

  function LastClick(steps: seq<Step>, n: nat): bool
    requires n <= |steps|
  {
    if n == 0 then false else if steps[n - 1].OperatorClick? then steps[n - 1].offline else LastClick(steps, n - 1)
  }

  // The host says online and the operator has not switched that off.
  predicate Intended(steps: seq<Step>, n: nat)
    requires n <= |steps|
  {
    LastHost(steps, n) && !LastClick(steps, n)
  }

  /** The switches stand where the last host event and the last click left them. */
  lemma {:induction false} SwitchesAreLast(states: seq<State>, steps: seq<Step>, n: nat)
    requires Runs(states, steps) && n < |states|
    ensures states[n].hostOnline == LastHost(steps, n) && states[n].offlineMode == LastClick(steps, n)
  {
    if n > 0 {
      SwitchesAreLast(states, steps, n - 1);
      StepSwitches(states[n - 1], steps[n - 1]);
    }
  }

  lemma StepSwitches(s: State, step: Step)
    requires Enabled(s, step)
    ensures Apply(s, step).hostOnline == if step.HostEvent? then step.online else s.hostOnline
    ensures Apply(s, step).offlineMode == if step.OperatorClick? then step.offline else s.offlineMode
    ensures Apply(s, step).networkError <==> Reports(step) || (s.networkError && !Clears(step))
  {}

  /** Host events and clicks, and nothing else, make requests, each for the mode intended at that moment. */
  lemma RequestsAreIntended(states: seq<State>, steps: seq<Step>, n: nat)
    requires Runs(states, steps) && n < |steps|
    ensures states[n + 1].requested == states[n].requested
      + if steps[n].HostEvent? || steps[n].OperatorClick? then [Intended(steps, n + 1)] else []
  {
    SwitchesAreLast(states, steps, n + 1);
    assert states[n + 1] == Apply(states[n], steps[n]);
    if !steps[n].HostEvent? && !steps[n].OperatorClick? { assert states[n].requested + [] == states[n].requested; }
  }

  predicate Reports(step: Step) { step.IpcFails? || step == Reply(true) || step == QueueRefreshed(true) }

  predicate Clears(step: Step) { step.HostEvent? || step.OperatorClick? || step == Reply(false) }

  // The j-th step reported an error and nothing up to the n-th has cleared it.
  predicate Stands(steps: seq<Step>, j: nat, n: nat)
    requires n <= |steps|
  {
    j < n && Reports(steps[j]) && forall k :: j < k < n ==> !Clears(steps[k])
  }

  ghost predicate SomeStands(steps: seq<Step>, n: nat)
    requires n <= |steps|
  {
    exists j: nat :: Stands(steps, j, n)
  }

  lemma StandsOn(steps: seq<Step>, m: nat)
    requires m < |steps|
    ensures SomeStands(steps, m + 1) <==> Reports(steps[m]) || (!Clears(steps[m]) && SomeStands(steps, m))
  {
    if Reports(steps[m]) { assert Stands(steps, m, m + 1); }
    if SomeStands(steps, m + 1) {
      var j: nat :| Stands(steps, j, m + 1);
      assert j < m ==> Stands(steps, j, m);
    }
    if !Clears(steps[m]) && SomeStands(steps, m) {
      var j: nat :| Stands(steps, j, m);
      assert Stands(steps, j, m + 1);
    }
  }

  /** An error is on display exactly if one was reported and neither a new request nor a good reply has come since. */
  lemma {:induction false} ErrorIsShown(states: seq<State>, steps: seq<Step>, n: nat)
    requires Runs(states, steps) && n < |states|
    ensures states[n].networkError <==> SomeStands(steps, n)
  {
    if n > 0 {
      ErrorIsShown(states, steps, n - 1);
      StepSwitches(states[n - 1], steps[n - 1]);
      StandsOn(steps, n - 1);
    }
  }

  /**
   * At rest the native flag, the displayed mode and the intended mode agree
   * exactly when the last request applied and the last one replied to both
   * asked for the intended mode. Unless a command took effect after its call
   * had failed, that is so if the last request got its reply, whatever failed
   * before it, and so whenever no error is on display.
   */
  lemma AgreementAtRest(states: seq<State>, steps: seq<Step>, n: nat)
    requires Runs(states, steps) && n < |states| && AtRest(states[n])
    ensures var s := states[n];
      s.native == s.isOnline == Intended(steps, n)
      <==> ModeOf(s.requested, AppliedRequest(states, steps, n)) == ModeOf(s.requested, RepliedRequest(states, steps, n))
           == Intended(steps, n)
    ensures var s := states[n]; !s.late && (s.lastOk || !s.networkError) ==> s.native == s.isOnline == Intended(steps, n)
    ensures Wanted(states[n]) == LastOf(states[n].requested) == Intended(steps, n)
  {
    RunKeeps(states, steps, n);
    FlagsFollowRequests(states, steps, n);
    SwitchesAreLast(states, steps, n);
    RestAgrees(states[n], AppliedRequest(states, steps, n), RepliedRequest(states, steps, n));
  }

  lemma RestAgrees(s: State, applied: nat, replied: nat)
    requires Inv(s) && Follows(s, applied, replied) && AtRest(s)
    ensures s.native == s.isOnline == Wanted(s)
       <==> ModeOf(s.requested, applied) == ModeOf(s.requested, replied) == Wanted(s)
    ensures !s.late && (s.lastOk || !s.networkError) ==> s.native == s.isOnline == Wanted(s)
  {}

  /** A lost reply can leave the native flag changed and the displayed mode not. */
  lemma LostReplyDisagrees() returns (states: seq<State>, steps: seq<Step>)
    ensures Runs(states, steps) && AtRest(states[|steps|])
    ensures states[|steps|].native != states[|steps|].isOnline && states[|steps|].networkError
  {
    steps := [HostEvent(true), Start, NativeApplies, IpcFails];
    var s1 := Apply(INITIAL, steps[0]);
    var s2 := Apply(s1, steps[1]);
    var s3 := Apply(s2, steps[2]);
    states := [INITIAL, s1, s2, s3, Apply(s3, steps[3])];
  }

  /** A failed request need not end in disagreement: here it asked for the mode both sides already had. */
  lemma FailureCanAgree() returns (states: seq<State>, steps: seq<Step>)
    ensures Runs(states, steps) && AtRest(states[|steps|]) && !states[|steps|].lastOk && states[|steps|].networkError
    ensures states[|steps|].native == states[|steps|].isOnline == Wanted(states[|steps|])
  {
    steps := [HostEvent(false), Start, IpcFails];
    var s1 := Apply(INITIAL, steps[0]);
    var s2 := Apply(s1, steps[1]);
    states := [INITIAL, s1, s2, Apply(s2, steps[2])];
  }

  /** A command that takes effect after its call failed can leave the flags apart with no error on display. */
  lemma LateCommandDisagrees() returns (states: seq<State>, steps: seq<Step>)
    ensures Runs(states, steps) && AtRest(states[|steps|]) && states[|steps|].lastOk && !states[|steps|].networkError
    ensures states[|steps|].native != states[|steps|].isOnline == Wanted(states[|steps|])
  {
    steps := [HostEvent(true), Start, IpcFails, HostEvent(false), Start, NativeApplies, Reply(false), QueueRefreshed(false), LateCommand(Request(1, true))];
    var s1 := Apply(INITIAL, steps[0]);
    var s2 := Apply(s1, steps[1]);
    var s3 := Apply(s2, steps[2]);
    var s4 := Apply(s3, steps[3]);
    var s5 := Apply(s4, steps[4]);
    var s6 := Apply(s5, steps[5]);
    var s7 := Apply(s6, steps[6]);
    var s8 := Apply(s7, steps[7]);
    states := [INITIAL, s1, s2, s3, s4, s5, s6, s7, s8, Apply(s8, steps[8])];
  }

  // --------------------------------------------------------------- store

  // The store's fields and module variables, and the native flag they track.
  class AppStore {
    var hostOnline: bool
    var offlineMode: bool
    var isOnline: bool
    var networkBusy: bool
    var networkError: bool
    var networkRequests: nat
    var networkUpdates: seq<Request>
    var stage: Stage
    var native: bool
    ghost var requested: seq<bool>
    ghost var called: seq<bool>
    ghost var lastOk: bool
    var givenUp: set<Request>
    ghost var late: bool

    ghost function Snapshot(): State
      reads this
    {
      State(hostOnline, offlineMode, isOnline, networkBusy, networkError, networkRequests, networkUpdates, stage,
            native, requested, called, lastOk, givenUp, late)
    }

    constructor ()
      ensures Snapshot() == INITIAL && Inv(Snapshot())
    {
      hostOnline, offlineMode, isOnline, networkBusy, networkError := false, false, false, false, false;
      networkRequests, networkUpdates, stage, native := 0, [], Idle, false;
      requested, called, lastOk, givenUp, late := [], [], true, {}, false;
    }

    method ApplyNetworkMode()
      modifies this
      ensures Snapshot() == Ask(old(Snapshot()))
    {
      var online := hostOnline && !offlineMode;
      networkRequests := networkRequests + 1;
      networkBusy, networkError := true, false;
      networkUpdates := networkUpdates + [Request(networkRequests, online)];
      requested := requested + [online];
    }

    method SetOnlineStatus(online: bool)
      requires Inv(Snapshot())
      modifies this
      ensures Snapshot() == Apply(old(Snapshot()), HostEvent(online)) && Inv(Snapshot())
    {
      ghost var before := Snapshot();
      StepKeeps(before, HostEvent(online));
      hostOnline := online;
      assert Snapshot() == before.(hostOnline := online);
      ApplyNetworkMode();
    }

    method SetOfflineMode(offline: bool)
      requires Inv(Snapshot())
      modifies this
      ensures Snapshot() == Apply(old(Snapshot()), OperatorClick(offline)) && Inv(Snapshot())
    {
      ghost var before := Snapshot();
      StepKeeps(before, OperatorClick(offline));
      offlineMode := offline;
      assert Snapshot() == before.(offlineMode := offline);
      ApplyNetworkMode();
    }

    // The chain reaches the next request and calls the native command.
    method StartNext()
      requires Inv(Snapshot()) && Enabled(Snapshot(), Start)
      modifies this
      ensures Snapshot() == Apply(old(Snapshot()), Start) && Inv(Snapshot())
    {
      StepKeeps(Snapshot(), Start);
      var request := networkUpdates[0];
      stage, networkUpdates := Called(request), networkUpdates[1..];
      called := called + [request.online];
    }

    // The native command: an unchanged flag is left alone.
    method SetNetworkStatus()
      requires Inv(Snapshot()) && Enabled(Snapshot(), NativeApplies)
      modifies this
      ensures Snapshot() == Apply(old(Snapshot()), NativeApplies) && Inv(Snapshot())
    {
      StepKeeps(Snapshot(), NativeApplies);
      if native != stage.request.online {
        native := stage.request.online;
      }
      stage := Applied(stage.request);
    }

    method ReceiveReply(reportingError: bool)
      requires Inv(Snapshot()) && Enabled(Snapshot(), Reply(reportingError))
      modifies this
      ensures Snapshot() == Apply(old(Snapshot()), Reply(reportingError)) && Inv(Snapshot())
    {
      StepKeeps(Snapshot(), Reply(reportingError));
      isOnline, networkError := stage.request.online, reportingError;
      stage := Refreshing(stage.request);
    }

    method ReceiveFailure()
      requires Inv(Snapshot()) && Enabled(Snapshot(), IpcFails)
      modifies this
      ensures Snapshot() == Apply(old(Snapshot()), IpcFails) && Inv(Snapshot())
    {
      ghost var before := Snapshot();
      StepKeeps(before, IpcFails);
      networkError := true;
      if stage.Called? { givenUp := givenUp + {stage.request}; }
      assert Snapshot() == before.(networkError := true, givenUp := givenUp);
      FinishRequest(false);
    }

    // A command whose caller saw a failure runs to its end after all.
    method SetNetworkStatusLate(request: Request)
      requires Inv(Snapshot()) && Enabled(Snapshot(), LateCommand(request))
      modifies this
      ensures Snapshot() == Apply(old(Snapshot()), LateCommand(request)) && Inv(Snapshot())
    {
      StepKeeps(Snapshot(), LateCommand(request));
      if native != request.online {
        native := request.online;
      }
      givenUp, late := givenUp - {request}, true;
    }

    method RefreshQueue(failed: bool)
      requires Inv(Snapshot()) && Enabled(Snapshot(), QueueRefreshed(failed))
      modifies this
      ensures Snapshot() == Apply(old(Snapshot()), QueueRefreshed(failed)) && Inv(Snapshot())
    {
      StepKeeps(Snapshot(), QueueRefreshed(failed));
      if failed { networkError := true; }
      FinishRequest(true);
    }

    method FinishRequest(ghost ok: bool)
      requires !stage.Idle?
      modifies this
      ensures Snapshot() == Finish(old(Snapshot()), old(stage.request), ok)
    {
      if stage.request.number == networkRequests { networkBusy := false; }
      stage, lastOk := Idle, ok;
    }
  }
}
