// Liveness challenges: the text that is signed, and the table that makes
// every challenge count once.

module LivenessPayload {
  import opened Common
  import Decimal

  datatype StepType = UnknownStep | HeadPose | Blink | Phrase {
    function Text(): string {
      match this
      case UnknownStep => "unknown"
      case HeadPose => "head_pose"
      case Blink => "blink"
      case Phrase => "phrase"
    }
  }

  datatype Mode = UnknownMode | OnDevice | Network {
    function Text(): string {
      match this
      case UnknownMode => "unknown"
      case OnDevice => "on_device"
      case Network => "network"
    }
  }

  const DEFAULT_STEP_TIME_LIMIT_MS: int := 5000

  datatype Step = Step(
    stepId: string, stepType: StepType, prompt: Option<string>, poseDirection: Option<string>, timeLimitMs: Option<int>)

  datatype Challenge = Challenge(
    challengeId: string, nonce: string, sessionId: string, steps: seq<Step>, issuedAt: string, expiresAt: string,
    preferredMode: Mode, allowNetworkFallback: bool, accessibilityMode: bool)

  // ------------------------------------------------------------- payload

  function BoolText(b: bool): string { if b then "true" else "false" }

  function StepText(s: Step): string {
    s.stepId + ":" + (s.stepType.Text() + ":" + (s.poseDirection.OrElse("") + ":" + (s.prompt.OrElse("") + ":"
      + Decimal.Signed(s.timeLimitMs.OrElse(DEFAULT_STEP_TIME_LIMIT_MS)))))
  }

  function StepsText(steps: seq<Step>): string {
    if steps == [] then ""
    else if |steps| == 1 then StepText(steps[0])
    else StepText(steps[0]) + ";" + StepsText(steps[1..])
  }

  function Then(x: string, a: string, b: string, c: string): string { x + "|" + a + "|" + b + "|" + c }

  // The last seven fields, from the session id on.
  function TailText(c: Challenge): string {
    Then(Then(c.sessionId, c.issuedAt, c.expiresAt, c.preferredMode.Text()),
         BoolText(c.allowNetworkFallback), BoolText(c.accessibilityMode), StepsText(c.steps))
  }

  function SigningPayload(c: Challenge): string { c.challengeId + "|" + (c.nonce + "|" + TailText(c)) }

  // Absent step fields are signed as their defaults.
  function WithDefaults(s: Step): Step {
    s.(prompt := Some(s.prompt.OrElse("")), poseDirection := Some(s.poseDirection.OrElse("")),
       timeLimitMs := Some(s.timeLimitMs.OrElse(DEFAULT_STEP_TIME_LIMIT_MS)))
  }

  ghost predicate SameSteps(a: seq<Step>, b: seq<Step>) {
    |a| == |b| && forall i :: 0 <= i < |a| ==> WithDefaults(a[i]) == WithDefaults(b[i])
  }

  ghost predicate SameUpToDefaults(c: Challenge, d: Challenge) {
    c.(steps := []) == d.(steps := []) && SameSteps(c.steps, d.steps)
  }

  // No field but the session id contains a separator that stands next to it.
  predicate Clean(x: string) { ':' !in x && ';' !in x && '|' !in x }

  predicate StepSeparatorFree(s: Step) { Clean(s.stepId) && Clean(s.poseDirection.OrElse("")) && Clean(s.prompt.OrElse("")) }

  predicate SeparatorFree(c: Challenge) {
    && '|' !in c.challengeId && '|' !in c.nonce && '|' !in c.issuedAt && '|' !in c.expiresAt
    && forall i :: 0 <= i < |c.steps| ==> StepSeparatorFree(c.steps[i])
  }

  // ------------------------------------------------------ unique decoding

  lemma FirstField(a: string, x: string, b: string, y: string, sep: char)
    requires sep !in a && sep !in b && a + [sep] + x == b + [sep] + y
    ensures a == b && x == y
  {
    var s, t := a + [sep] + x, b + [sep] + y;
    assert s[|a|] == sep && t[|b|] == sep;
    assert forall i :: 0 <= i < |a| ==> s[i] == a[i];
    assert forall i :: 0 <= i < |b| ==> t[i] == b[i];
    assert |a| == |b|;
    assert a == s[..|a|] && b == t[..|b|] && x == s[|a| + 1..] && y == t[|b| + 1..];
  }

  lemma LastField(x: string, a: string, y: string, b: string, sep: char)
    requires sep !in a && sep !in b && x + [sep] + a == y + [sep] + b
    ensures a == b && x == y
  {
    var s, t := x + [sep] + a, y + [sep] + b;
    assert s[|x|] == sep && t[|y|] == sep;
    assert forall i :: 0 <= i < |a| ==> s[|x| + 1 + i] == a[i];
    assert forall i :: 0 <= i < |b| ==> t[|y| + 1 + i] == b[i];
    assert forall i :: |x| < i < |s| ==> s[i] == a[i - |x| - 1];
    assert forall i :: |y| < i < |t| ==> t[i] == b[i - |y| - 1];
    assert |x| == |y|;
    assert x == s[..|x|] && y == t[..|y|] && a == s[|x| + 1..] && b == t[|y| + 1..];
  }

  lemma LastThree(x: string, a1: string, a2: string, a3: string, y: string, b1: string, b2: string, b3: string)
    requires '|' !in a1 && '|' !in a2 && '|' !in a3 && '|' !in b1 && '|' !in b2 && '|' !in b3
    requires Then(x, a1, a2, a3) == Then(y, b1, b2, b3)
    ensures x == y && a1 == b1 && a2 == b2 && a3 == b3
  {
    LastField(x + "|" + a1 + "|" + a2, a3, y + "|" + b1 + "|" + b2, b3, '|');
    LastField(x + "|" + a1, a2, y + "|" + b1, b2, '|');
    LastField(x, a1, y, b1, '|');
  }

  lemma TextsInjective(s: StepType, t: StepType, m: Mode, n: Mode)
    ensures s.Text() == t.Text() ==> s == t
    ensures m.Text() == n.Text() ==> m == n
  {
    assert s.Text()[0] == t.Text()[0] ==> s == t;
    assert m.Text()[0] == n.Text()[0] ==> m == n;
  }

  lemma SignedHasNoSeparator(n: int)
    ensures ':' !in Decimal.Signed(n) && ';' !in Decimal.Signed(n) && '|' !in Decimal.Signed(n)
  {
    var ds := Decimal.Digits(if n < 0 then -n else n);
    assert forall c :: c in ds ==> Decimal.IsDigit(c);
  }

  lemma StepTextDecodes(s: Step, t: Step)
    requires StepSeparatorFree(s) && StepSeparatorFree(t) && StepText(s) == StepText(t)
    ensures WithDefaults(s) == WithDefaults(t)
  {
    var m, n := s.timeLimitMs.OrElse(DEFAULT_STEP_TIME_LIMIT_MS), t.timeLimitMs.OrElse(DEFAULT_STEP_TIME_LIMIT_MS);
    var s3, t3 := s.prompt.OrElse("") + ":" + Decimal.Signed(m), t.prompt.OrElse("") + ":" + Decimal.Signed(n);
    var s2, t2 := s.poseDirection.OrElse("") + ":" + s3, t.poseDirection.OrElse("") + ":" + t3;
    FirstTwo(s.stepId, s.stepType.Text(), s2, t.stepId, t.stepType.Text(), t2);
    FirstTwo(s.poseDirection.OrElse(""), s.prompt.OrElse(""), Decimal.Signed(m),
             t.poseDirection.OrElse(""), t.prompt.OrElse(""), Decimal.Signed(n));
    Decimal.SignedInjective(m, n);
    TextsInjective(s.stepType, t.stepType, UnknownMode, UnknownMode);
  }

  lemma FirstTwo(a1: string, a2: string, x: string, b1: string, b2: string, y: string)
    requires ':' !in a1 && ':' !in a2 && ':' !in b1 && ':' !in b2
    requires a1 + ":" + (a2 + ":" + x) == b1 + ":" + (b2 + ":" + y)
    ensures a1 == b1 && a2 == b2 && x == y
  {
    FirstField(a1, a2 + ":" + x, b1, b2 + ":" + y, ':');
    FirstField(a2, x, b2, y, ':');
  }

  lemma StepTextShape(s: Step)
    requires StepSeparatorFree(s)
    ensures StepText(s) != "" && ';' !in StepText(s) && '|' !in StepText(s)
  {
    SignedHasNoSeparator(s.timeLimitMs.OrElse(DEFAULT_STEP_TIME_LIMIT_MS));
  }

  lemma {:induction false} StepsTextDecodes(a: seq<Step>, b: seq<Step>)
    requires forall i :: 0 <= i < |a| ==> StepSeparatorFree(a[i])
    requires forall i :: 0 <= i < |b| ==> StepSeparatorFree(b[i])
    requires StepsText(a) == StepsText(b)
    ensures SameSteps(a, b)
  {
    SeparatorsCount(a);
    SeparatorsCount(b);
    if |a| == 1 && |b| == 1 {
      StepTextDecodes(a[0], b[0]);
    } else if |a| > 1 && |b| > 1 {
      FirstField(StepText(a[0]), StepsText(a[1..]), StepText(b[0]), StepsText(b[1..]), ';');
      StepTextDecodes(a[0], b[0]);
      StepsTextDecodes(a[1..], b[1..]);
      assert forall i :: 1 <= i < |a| ==> a[i] == a[1..][i - 1] && b[i] == b[1..][i - 1];
    }
  }

  lemma SeparatorsCount(steps: seq<Step>)
    requires forall i :: 0 <= i < |steps| ==> StepSeparatorFree(steps[i])
    ensures StepsText(steps) == "" <==> steps == []
    ensures ';' in StepsText(steps) <==> |steps| > 1
    ensures steps != [] ==> ';' !in StepText(steps[0])
  {
    if steps != [] { StepTextShape(steps[0]); }
  }

  lemma {:induction false} StepsTextShape(steps: seq<Step>)
    requires forall i :: 0 <= i < |steps| ==> StepSeparatorFree(steps[i])
    ensures '|' !in StepsText(steps)
  {
    if steps != [] {
      StepTextShape(steps[0]);
      StepsTextShape(steps[1..]);
    }
  }

  lemma TailTextDecodes(c: Challenge, d: Challenge)
    requires SeparatorFree(c) && SeparatorFree(d) && TailText(c) == TailText(d)
    ensures c.sessionId == d.sessionId && c.issuedAt == d.issuedAt && c.expiresAt == d.expiresAt
    ensures c.preferredMode == d.preferredMode && c.allowNetworkFallback == d.allowNetworkFallback
    ensures c.accessibilityMode == d.accessibilityMode && StepsText(c.steps) == StepsText(d.steps)
  {
    StepsTextShape(c.steps);
    StepsTextShape(d.steps);
    CodesAreClean(c);
    CodesAreClean(d);
    TailFields(c.sessionId, c.issuedAt, c.expiresAt, c.preferredMode.Text(),
               BoolText(c.allowNetworkFallback), BoolText(c.accessibilityMode), StepsText(c.steps),
               d.sessionId, d.issuedAt, d.expiresAt, d.preferredMode.Text(),
               BoolText(d.allowNetworkFallback), BoolText(d.accessibilityMode), StepsText(d.steps));
    CodesInjective(c, d);
  }

  lemma CodesAreClean(c: Challenge)
    ensures '|' !in c.preferredMode.Text() && '|' !in BoolText(c.allowNetworkFallback) && '|' !in BoolText(c.accessibilityMode)
  {}

  lemma CodesInjective(c: Challenge, d: Challenge)
    ensures c.preferredMode.Text() == d.preferredMode.Text() ==> c.preferredMode == d.preferredMode
    ensures BoolText(c.allowNetworkFallback) == BoolText(d.allowNetworkFallback) ==> c.allowNetworkFallback == d.allowNetworkFallback
    ensures BoolText(c.accessibilityMode) == BoolText(d.accessibilityMode) ==> c.accessibilityMode == d.accessibilityMode
  {
    TextsInjective(Blink, Blink, c.preferredMode, d.preferredMode);
    BoolTextInjective(c.allowNetworkFallback, d.allowNetworkFallback);
    BoolTextInjective(c.accessibilityMode, d.accessibilityMode);
  }

  lemma TailFields(x: string, a1: string, a2: string, a3: string, a4: string, a5: string, a6: string,
                   y: string, b1: string, b2: string, b3: string, b4: string, b5: string, b6: string)
    requires '|' !in a1 && '|' !in a2 && '|' !in a3 && '|' !in a4 && '|' !in a5 && '|' !in a6
    requires '|' !in b1 && '|' !in b2 && '|' !in b3 && '|' !in b4 && '|' !in b5 && '|' !in b6
    requires Then(Then(x, a1, a2, a3), a4, a5, a6) == Then(Then(y, b1, b2, b3), b4, b5, b6)
    ensures x == y && a1 == b1 && a2 == b2 && a3 == b3 && a4 == b4 && a5 == b5 && a6 == b6
  {
    LastThree(Then(x, a1, a2, a3), a4, a5, a6, Then(y, b1, b2, b3), b4, b5, b6);
    LastThree(x, a1, a2, a3, y, b1, b2, b3);
  }

  lemma BoolTextInjective(a: bool, b: bool)
    ensures BoolText(a) == BoolText(b) ==> a == b
  {
    assert BoolText(a)[0] == BoolText(b)[0] ==> a == b;
  }

  lemma {:induction false} SameStepsSameText(a: seq<Step>, b: seq<Step>)
    requires SameSteps(a, b)
    ensures StepsText(a) == StepsText(b)
  {
    if a != [] {
      assert WithDefaults(a[0]) == WithDefaults(b[0]);
      SameStepsSameText(a[1..], b[1..]);
    }
  }

  /**
   * The signed text decodes uniquely: whatever the session ids contain, even
   * the separator, two challenges have the same text exactly when they agree
   * up to step fields that are absent in one and at their default in the other.
   */
  lemma PayloadDecodesUniquely(c: Challenge, d: Challenge)
    requires SeparatorFree(c) && SeparatorFree(d)
    ensures SigningPayload(c) == SigningPayload(d) <==> SameUpToDefaults(c, d)
  {
    if SigningPayload(c) == SigningPayload(d) {
      FirstField(c.challengeId, c.nonce + "|" + TailText(c), d.challengeId, d.nonce + "|" + TailText(d), '|');
      FirstField(c.nonce, TailText(c), d.nonce, TailText(d), '|');
      TailTextDecodes(c, d);
      StepsTextDecodes(c.steps, d.steps);
    }
    if SameUpToDefaults(c, d) { SameStepsSameText(c.steps, d.steps); }
  }

  // ------------------------------------------------------- the format

  function Join(fields: seq<string>, sep: string): string {
    if fields == [] then "" else if |fields| == 1 then fields[0] else fields[0] + sep + Join(fields[1..], sep)
  }

  function StepFields(s: Step): seq<string> {
    [s.stepId, s.stepType.Text(), s.poseDirection.OrElse(""), s.prompt.OrElse(""), Decimal.Signed(s.timeLimitMs.OrElse(5000))]
  }

  function StepTexts(steps: seq<Step>): seq<string> {
    if steps == [] then [] else [Join(StepFields(steps[0]), ":")] + StepTexts(steps[1..])
  }

  function Fields(c: Challenge): seq<string> {
    [c.challengeId, c.nonce, c.sessionId, c.issuedAt, c.expiresAt, c.preferredMode.Text(),
     if c.allowNetworkFallback then "true" else "false", if c.accessibilityMode then "true" else "false",
     Join(StepTexts(c.steps), ";")]
  }

  lemma JoinCons(field: string, more: seq<string>, sep: string)
    ensures Join([field] + more, sep) == if more == [] then field else field + sep + Join(more, sep)
  {
    assert ([field] + more)[1..] == more;
  }

  lemma JoinFive(a: string, b: string, c: string, d: string, e: string, sep: string)
    ensures Join([a, b, c, d, e], sep) == a + sep + (b + sep + (c + sep + (d + sep + e)))
  {
    JoinCons(d, [e], sep);
    JoinCons(c, [d, e], sep);
    JoinCons(b, [c, d, e], sep);
    JoinCons(a, [b, c, d, e], sep);
    assert [d] + [e] == [d, e] && [c] + [d, e] == [c, d, e] && [b] + [c, d, e] == [b, c, d, e];
    assert [a] + [b, c, d, e] == [a, b, c, d, e];
  }

  lemma StepIsJoined(s: Step)
    ensures StepText(s) == Join(StepFields(s), ":")
  {
    JoinFive(s.stepId, s.stepType.Text(), s.poseDirection.OrElse(""), s.prompt.OrElse(""),
             Decimal.Signed(s.timeLimitMs.OrElse(5000)), ":");
  }

  lemma {:induction false} StepsAreJoined(steps: seq<Step>)
    ensures StepsText(steps) == Join(StepTexts(steps), ";")
  {
    if steps != [] {
      StepIsJoined(steps[0]);
      StepsAreJoined(steps[1..]);
      JoinCons(Join(StepFields(steps[0]), ":"), StepTexts(steps[1..]), ";");
      assert |steps| == 1 ==> steps[1..] == [];
    }
  }

  lemma JoinNine(a: string, b: string, more: seq<string>, x: string, a1: string, a2: string, a3: string, a4: string, a5: string, a6: string)
    requires more == [x, a1, a2, a3, a4, a5, a6]
    ensures Join([a, b] + more, "|") == a + "|" + (b + "|" + Then(Then(x, a1, a2, a3), a4, a5, a6))
  {
    NestFields(x, a1, a2, a3, a4, a5, a6);
    var last := [a2, a3, a4, a5, a6];
    JoinFive(a2, a3, a4, a5, a6, "|");
    JoinCons(a1, last, "|");
    JoinCons(x, [a1] + last, "|");
    JoinCons(b, more, "|");
    JoinCons(a, [b] + more, "|");
    assert [x] + ([a1] + last) == more;
    assert [a] + ([b] + more) == [a, b] + more;
  }

  /** The texts of step types and modes, which the capturing side reads. */
  lemma CodesExactly()
    ensures UnknownStep.Text() == "unknown" && HeadPose.Text() == "head_pose" && Blink.Text() == "blink" && Phrase.Text() == "phrase"
    ensures UnknownMode.Text() == "unknown" && OnDevice.Text() == "on_device" && Network.Text() == "network"
  {}

  /** The signed text: nine fields joined by bars, the last of them the steps joined by semicolons, each of five fields joined by colons. */
  lemma PayloadIsJoined(c: Challenge)
    ensures SigningPayload(c) == Join(Fields(c), "|")
  {
    StepsAreJoined(c.steps);
    var more := [c.sessionId, c.issuedAt, c.expiresAt, c.preferredMode.Text(), BoolText(c.allowNetworkFallback),
                 BoolText(c.accessibilityMode), StepsText(c.steps)];
    JoinNine(c.challengeId, c.nonce, more, c.sessionId, c.issuedAt, c.expiresAt, c.preferredMode.Text(),
             BoolText(c.allowNetworkFallback), BoolText(c.accessibilityMode), StepsText(c.steps));
    assert Fields(c) == [c.challengeId, c.nonce] + more;
  }

  // -------------------------------------------- presented challenges

  ghost predicate StepsSeparatorFree(steps: seq<Step>) {
    forall i :: 0 <= i < |steps| ==> StepSeparatorFree(steps[i])
  }

  lemma HeadFields(x: string, a1: string, a2: string, a3: string, a4: string, a5: string, a6: string,
                   b1: string, b2: string, b3: string, b4: string, b5: string, b6: string)
    requires '|' !in a1 && '|' !in a2 && '|' !in a3 && '|' !in a4 && '|' !in a5
    requires '|' !in b1 && '|' !in b2 && '|' !in b3 && '|' !in b4 && '|' !in b5
    requires Then(Then(x, a1, a2, a3), a4, a5, a6) == Then(Then(x, b1, b2, b3), b4, b5, b6)
    ensures a1 == b1 && a2 == b2 && a3 == b3 && a4 == b4 && a5 == b5 && a6 == b6
  {
    var a5', b5' := a5 + "|" + a6, b5 + "|" + b6;
    var a4', b4' := a4 + "|" + a5', b4 + "|" + b5';
    var a3', b3' := a3 + "|" + a4', b3 + "|" + b4';
    var a2', b2' := a2 + "|" + a3', b2 + "|" + b3';
    NestFields(x, a1, a2, a3, a4, a5, a6);
    NestFields(x, b1, b2, b3, b4, b5, b6);
    SamePrefix(x + "|", a1 + "|" + a2', b1 + "|" + b2');
    FirstField(a1, a2', b1, b2', '|');
    FirstField(a2, a3', b2, b3', '|');
    FirstField(a3, a4', b3, b4', '|');
    FirstField(a4, a5', b4, b5', '|');
    FirstField(a5, a6, b5, b6, '|');
  }

  lemma SamePrefix(p: string, x: string, y: string)
    requires p + x == p + y
    ensures x == y
  {
    assert x == (p + x)[|p|..] && y == (p + y)[|p|..];
  }

  lemma NestThree(x: string, a: string, b: string, c: string)
    ensures Then(x, a, b, c) == x + "|" + (a + "|" + (b + "|" + c))
  {}

  lemma NestFields(x: string, a1: string, a2: string, a3: string, a4: string, a5: string, a6: string)
    ensures Then(Then(x, a1, a2, a3), a4, a5, a6)
         == x + "|" + (a1 + "|" + (a2 + "|" + (a3 + "|" + (a4 + "|" + (a5 + "|" + a6)))))
  {
    var rest := a4 + "|" + (a5 + "|" + a6);
    NestThree(Then(x, a1, a2, a3), a4, a5, a6);
    NestThree(x, a1, a2, a3 + "|" + rest);
    assert Then(x, a1, a2, a3) + "|" + rest == Then(x, a1, a2, a3 + "|" + rest);
  }

  /**
   * A presented challenge with an issued one's signed text, id, nonce and
   * session, and with timestamps that could parse, is the issued one but for
   * the steps, and its steps have the same text. They are the issued steps
   * exactly when no field of theirs holds a separator.
   */
  lemma PresentedIsIssued(c: Challenge, d: Challenge)
    requires SeparatorFree(c) && SigningPayload(c) == SigningPayload(d)
    requires c.challengeId == d.challengeId && c.nonce == d.nonce && c.sessionId == d.sessionId
    requires '|' !in d.issuedAt && '|' !in d.expiresAt
    ensures c.(steps := []) == d.(steps := []) && StepsText(c.steps) == StepsText(d.steps)
    ensures SameSteps(c.steps, d.steps) <==> StepsSeparatorFree(d.steps)
  {
    FirstField(c.challengeId, c.nonce + "|" + TailText(c), d.challengeId, d.nonce + "|" + TailText(d), '|');
    FirstField(c.nonce, TailText(c), d.nonce, TailText(d), '|');
    CodesAreClean(c);
    CodesAreClean(d);
    HeadFields(c.sessionId, c.issuedAt, c.expiresAt, c.preferredMode.Text(),
               BoolText(c.allowNetworkFallback), BoolText(c.accessibilityMode), StepsText(c.steps),
               d.issuedAt, d.expiresAt, d.preferredMode.Text(),
               BoolText(d.allowNetworkFallback), BoolText(d.accessibilityMode), StepsText(d.steps));
    CodesInjective(c, d);
    if StepsSeparatorFree(d.steps) { StepsTextDecodes(c.steps, d.steps); }
    if SameSteps(c.steps, d.steps) { SameStepsAreClean(c.steps, d.steps); }
  }

  lemma SameStepsAreClean(a: seq<Step>, b: seq<Step>)
    requires SameSteps(a, b) && StepsSeparatorFree(a)
    ensures StepsSeparatorFree(b)
  {
    forall i | 0 <= i < |b| ensures StepSeparatorFree(b[i]) {
      assert WithDefaults(a[i]) == WithDefaults(b[i]) && StepSeparatorFree(a[i]);
    }
  }

  lemma TwoStepsMerge(a: Step, b: Step) returns (m: Step)
    ensures StepText(m) == StepText(a) + ";" + StepText(b)
  {
    var first := Decimal.Signed(a.timeLimitMs.OrElse(DEFAULT_STEP_TIME_LIMIT_MS));
    var last := Decimal.Signed(b.timeLimitMs.OrElse(DEFAULT_STEP_TIME_LIMIT_MS));
    var behind := b.stepId + ":" + (b.stepType.Text() + ":" + (b.poseDirection.OrElse("") + ":" + b.prompt.OrElse("")));
    var prompt := a.prompt.OrElse("") + ":" + first + ";" + behind;
    m := Step(a.stepId, a.stepType, Some(prompt), a.poseDirection, b.timeLimitMs);
    FieldsMerge(b.stepId, b.stepType.Text(), b.poseDirection.OrElse(""), b.prompt.OrElse(""), last);
    StepsMerge(a.stepId, a.stepType.Text(), a.poseDirection.OrElse(""), a.prompt.OrElse(""), first, behind, last);
  }

  lemma StepsTextCons(a: Step, rest: seq<Step>)
    ensures StepsText([a] + rest) == if rest == [] then StepText(a) else StepText(a) + ";" + StepsText(rest)
  {
    assert ([a] + rest)[1..] == rest;
  }

  lemma MergedTextStays(m: Step, a: Step, b: Step, rest: seq<Step>)
    requires StepText(m) == StepText(a) + ";" + StepText(b)
    ensures StepsText([m] + rest) == StepsText([a] + ([b] + rest))
  {
    StepsTextCons(m, rest);
    StepsTextCons(b, rest);
    StepsTextCons(a, [b] + rest);
    SemicolonsRegroup(StepText(a), StepText(b), StepsText(rest));
  }

  lemma SemicolonsRegroup(x: string, y: string, z: string)
    ensures x + ";" + y + ";" + z == x + ";" + (y + ";" + z)
  {}

  /**
   * Without that condition the steps are not determined: every challenge with
   * two steps or more shares its signed text with one that has a step fewer,
   * whose first prompt holds separators.
   */
  lemma StepsCanMerge(c: Challenge) returns (d: Challenge)
    requires |c.steps| >= 2
    ensures SigningPayload(c) == SigningPayload(d) && c.(steps := []) == d.(steps := [])
    ensures !SameSteps(c.steps, d.steps) && |d.steps| == |c.steps| - 1
  {
    var m := TwoStepsMerge(c.steps[0], c.steps[1]);
    MergedTextStays(m, c.steps[0], c.steps[1], c.steps[2..]);
    assert c.steps == [c.steps[0]] + ([c.steps[1]] + c.steps[2..]);
    d := c.(steps := [m] + c.steps[2..]);
  }

  lemma FieldsMerge(a: string, b: string, c: string, d: string, e: string)
    ensures a + ":" + (b + ":" + (c + ":" + (d + ":" + e))) == a + ":" + (b + ":" + (c + ":" + d)) + ":" + e
  {
    assert c + ":" + (d + ":" + e) == c + ":" + d + ":" + e;
    assert b + ":" + (c + ":" + d + ":" + e) == b + ":" + (c + ":" + d) + ":" + e;
    assert a + ":" + (b + ":" + (c + ":" + d) + ":" + e) == a + ":" + (b + ":" + (c + ":" + d)) + ":" + e;
  }

  lemma StepsMerge(a: string, b: string, c: string, d: string, e: string, behind: string, last: string)
    ensures a + ":" + (b + ":" + (c + ":" + (d + ":" + e + ";" + behind + ":" + last)))
         == a + ":" + (b + ":" + (c + ":" + (d + ":" + e))) + ";" + (behind + ":" + last)
  {
    var tail := ";" + (behind + ":" + last);
    assert d + ":" + e + ";" + behind + ":" + last == d + ":" + e + tail;
    assert c + ":" + (d + ":" + e + tail) == c + ":" + (d + ":" + e) + tail;
    assert b + ":" + (c + ":" + (d + ":" + e) + tail) == b + ":" + (c + ":" + (d + ":" + e)) + tail;
    assert a + ":" + (b + ":" + (c + ":" + (d + ":" + e)) + tail) == a + ":" + (b + ":" + (c + ":" + (d + ":" + e))) + tail;
  }

  // -------------------------------------------------------------- issuer

  const POSES: seq<string> := ["left", "right", "up", "down"]
  const PHRASES: seq<string> := [
    "secure systems stay safe", "trust but verify always", "liveness check in progress",
    "identity matters today", "security starts with you"]

  // Random choices of the issuer: identifiers in UUID text form and two draws.
  datatype Draws = Draws(challengeId: string, nonce: string, sessionId: string, stepIds: seq<string>, pose: nat, phrase: nat)

  predicate UuidText(s: string) { forall i :: 0 <= i < |s| ==> '0' <= s[i] <= '9' || 'a' <= s[i] <= 'f' || s[i] == '-' }

  predicate TimestampText(s: string) {
    forall i :: 0 <= i < |s| ==> '0' <= s[i] <= '9' || s[i] in {'-', ':', '.', '+', 'T', 'Z'}
  }

  predicate ValidDraws(d: Draws) {
    && UuidText(d.challengeId) && UuidText(d.nonce) && UuidText(d.sessionId)
    && |d.stepIds| == 3 && UuidText(d.stepIds[0]) && UuidText(d.stepIds[1]) && UuidText(d.stepIds[2])
  }

  lemma PosesAreClean(k: nat)
    requires k < 4
    ensures Clean(POSES[k]) && Clean("Turn your head " + POSES[k])
  {
    assert Clean("Turn your head ");
  }

  lemma PhrasesAreClean(k: nat)
    requires k < 5
    ensures Clean(PHRASES[k])
  {
    if k < 2 { FirstPhrasesAreClean(k); } else { LastPhrasesAreClean(k); }
  }

  lemma FirstPhrasesAreClean(k: nat)
    requires k < 2
    ensures Clean(PHRASES[k])
  {}

  lemma LastPhrasesAreClean(k: nat)
    requires 2 <= k < 5
    ensures Clean(PHRASES[k])
  {}

  method BuildLivenessSteps(accessibilityMode: bool, d: Draws) returns (steps: seq<Step>)
    requires ValidDraws(d)
    ensures |steps| == if accessibilityMode then 2 else 3
    ensures steps[0].stepType == HeadPose && steps[1].stepType == Blink && (!accessibilityMode ==> steps[2].stepType == Phrase)
    ensures steps[0].poseDirection == Some(["left", "right", "up", "down"][d.pose % 4])
    ensures steps[0].poseDirection == Some(POSES[d.pose % 4]) && steps[0].prompt == Some("Turn your head " + POSES[d.pose % 4])
    ensures steps[1].poseDirection == None && steps[1].prompt == Some("Blink twice")
    ensures !accessibilityMode ==> steps[2].poseDirection == None && steps[2].prompt == Some(PHRASES[d.phrase % 5])
    ensures forall i :: 0 <= i < |steps| ==>
      steps[i].stepId == d.stepIds[i] && steps[i].timeLimitMs == Some(5000) && StepSeparatorFree(steps[i])
  {
    var pose, phrase := POSES[d.pose % 4], PHRASES[d.phrase % 5];
    PosesAreClean(d.pose % 4);
    PhrasesAreClean(d.phrase % 5);
    var limit := Some(DEFAULT_STEP_TIME_LIMIT_MS);
    steps := [Step(d.stepIds[0], HeadPose, Some("Turn your head " + pose), Some(pose), limit)];
    steps := steps + [Step(d.stepIds[1], Blink, Some("Blink twice"), None, limit)];
    if !accessibilityMode {
      steps := steps + [Step(d.stepIds[2], Phrase, Some(phrase), None, limit)];
    }
  }

  // The issuer's challenge, ready to be signed.
  method Issue(sessionId: Option<string>, preferredMode: Option<Mode>, allowNetworkFallback: Option<bool>,
               accessibilityMode: Option<bool>, ttlSeconds: Option<int>, now: int, rfc3339: int -> string, d: Draws)
    returns (c: Challenge, expiresAt: int)
    requires ValidDraws(d) && forall t: int :: TimestampText(rfc3339(t))
    ensures SeparatorFree(c)
    ensures c.challengeId == d.challengeId && c.nonce == d.nonce
    ensures c.sessionId == sessionId.OrElse(d.sessionId)
    ensures c.issuedAt == rfc3339(now) && c.expiresAt == rfc3339(expiresAt)
    ensures now + 15 <= expiresAt <= now + 120 && (ttlSeconds.None? ==> expiresAt == now + 60)
    ensures ttlSeconds.Some? && 15 <= ttlSeconds.value <= 120 ==> expiresAt == now + ttlSeconds.value
    ensures ttlSeconds.Some? && !(15 <= ttlSeconds.value <= 120) ==> expiresAt == now + if ttlSeconds.value < 15 then 15 else 120
    ensures c.preferredMode == preferredMode.OrElse(OnDevice) && c.allowNetworkFallback == allowNetworkFallback.OrElse(true)
    ensures c.accessibilityMode == accessibilityMode.OrElse(false) && |c.steps| == (if c.accessibilityMode then 2 else 3)
    ensures c.steps[0].stepType == HeadPose && c.steps[1].stepType == Blink && (!c.accessibilityMode ==> c.steps[2].stepType == Phrase)
  {
    var ttl := ttlSeconds.OrElse(60);
    ttl := if ttl < 15 then 15 else if ttl > 120 then 120 else ttl;
    expiresAt := now + ttl;
    var steps := BuildLivenessSteps(accessibilityMode.OrElse(false), d);
    assert TimestampText(rfc3339(now)) && TimestampText(rfc3339(expiresAt));
    c := Challenge(d.challengeId, d.nonce, sessionId.OrElse(d.sessionId), steps, rfc3339(now), rfc3339(expiresAt),
                   preferredMode.OrElse(OnDevice), allowNetworkFallback.OrElse(true), accessibilityMode.OrElse(false));
  }
}

// Recording, consuming and validating challenges.
module LivenessTable {
  import opened Common
  import opened LivenessPayload

  const MAX_CLOCK_SKEW_SECS: int := 5

  datatype Stored = Stored(challengeId: string, nonce: string, sessionId: string, issuedAt: int, expiresAt: int, used: bool)

  type Table = map<string, Stored>

  datatype Rejection =
    | BadSignature | BadTimestamp | Expired | TooEarly | ExpiresBeforeIssue | WrongSession
    | UnknownOrUsed | MetadataMismatch | ExpiredInStorage

  datatype Verdict = Accepted | Rejected(reason: Rejection)

  // A challenge as presented, with its signature and what its timestamps parse to.
  datatype Presented = Presented(challenge: Challenge, signature: string, issuedAt: Option<int>, expiresAt: Option<int>)

  // ------------------------------------------------------------- effects

  function Live(table: Table, now: int): Table { map id | id in table && table[id].expiresAt > now :: table[id] }

  function Record(table: Table, c: Stored, now: int): Table {
    (if |table| > 100 then Live(table, now) else table)[c.challengeId := c]
  }

  function Consume(table: Table, id: string): (Table, Option<Stored>) {
    if id !in table || table[id].used then (table, None)
    else
      var used := table[id].(used := true);
      (table[id := used], Some(used))
  }

  // Everything checked before the table is consulted.
  function Precheck(p: Presented, session: Option<string>, now: int, sign: string -> string): Verdict {
    if sign(SigningPayload(p.challenge)) != p.signature then Rejected(BadSignature)
    else if p.issuedAt.None? || p.expiresAt.None? then Rejected(BadTimestamp)
    else if now > p.expiresAt.value then Rejected(Expired)
    else if now + MAX_CLOCK_SKEW_SECS < p.issuedAt.value then Rejected(TooEarly)
    else if p.expiresAt.value < p.issuedAt.value then Rejected(ExpiresBeforeIssue)
    else if session.Some? && session.value != p.challenge.sessionId then Rejected(WrongSession)
    else Accepted
  }

  function Validate(table: Table, p: Presented, session: Option<string>, now: int, sign: string -> string): (Table, Verdict) {
    var pre := Precheck(p, session, now, sign);
    if pre.Rejected? then (table, pre)
    else
      var (after, recorded) := Consume(table, p.challenge.challengeId);
      if recorded.None? then (after, Rejected(UnknownOrUsed))
      else if recorded.value.nonce != p.challenge.nonce || recorded.value.sessionId != p.challenge.sessionId then
        (after, Rejected(MetadataMismatch))
      else if recorded.value.expiresAt < now then (after, Rejected(ExpiredInStorage))
      else (after, Accepted)
  }

  // No attempt under this id can be accepted any more.
  ghost predicate Spent(table: Table, id: string, sign: string -> string) {
    forall q: Presented, session: Option<string>, now: int ::
      q.challenge.challengeId == id ==> !Validate(table, q, session, now, sign).1.Accepted?
  }

  lemma AttemptSpends(table: Table, p: Presented, session: Option<string>, now: int, sign: string -> string)
    ensures var after := Validate(table, p, session, now, sign).0;
      after != table ==> Spent(after, p.challenge.challengeId, sign)
    ensures Validate(table, p, session, now, sign).1.Accepted? ==> Validate(table, p, session, now, sign).0 != table
  {
    var after := Validate(table, p, session, now, sign).0;
    forall q: Presented, laterSession: Option<string>, later: int | q.challenge.challengeId == p.challenge.challengeId
      ensures after != table ==> !Validate(after, q, laterSession, later, sign).1.Accepted?
    {
      AttemptSpendsTheEntry(table, p, session, now, sign, q, laterSession, later);
    }
    AttemptSpendsTheEntry(table, p, session, now, sign, p, session, now);
  }

  class AppState {
    var challenges: Table

    constructor ()
      ensures challenges == map[]
    {
      challenges := map[];
    }

    method RecordLivenessChallenge(c: Stored, now: int)
      modifies this
      ensures challenges == Record(old(challenges), c, now)
      ensures c.challengeId in challenges && challenges[c.challengeId] == c
      ensures forall id :: id in old(challenges) && id != c.challengeId && old(challenges)[id].expiresAt > now ==>
        id in challenges && challenges[id] == old(challenges)[id]
      ensures forall id :: id in challenges && id != c.challengeId ==> id in old(challenges) && challenges[id] == old(challenges)[id]
      ensures |challenges| <= 101 || |challenges| <= |Live(old(challenges), now)| + 1
    {
      TableIsBounded(challenges, c, now);
      if |challenges| > 100 {
        challenges := map id | id in challenges && challenges[id].expiresAt > now :: challenges[id];
      }
      challenges := challenges[c.challengeId := c];
    }

    method ConsumeLivenessChallenge(id: string) returns (r: Option<Stored>)
      modifies this
      ensures (challenges, r) == Consume(old(challenges), id)
      ensures r.Some? <==> id in old(challenges) && !old(challenges)[id].used
      ensures r.Some? ==> r.value.(used := false) == old(challenges)[id]
      ensures Consume(challenges, id).1 == None
      ensures challenges.Keys == old(challenges).Keys
      ensures forall other :: other in challenges && other != id ==> challenges[other] == old(challenges)[other]
    {
      if id !in challenges { return None; }
      if challenges[id].used { return None; }
      challenges := challenges[id := challenges[id].(used := true)];
      r := Some(challenges[id]);
    }

    method ValidateLivenessChallenge(p: Presented, session: Option<string>, now: int, sign: string -> string) returns (v: Verdict)
      modifies this
      ensures (challenges, v) == Validate(old(challenges), p, session, now, sign)
      ensures v.Accepted? ==> var id := p.challenge.challengeId;
        && p.signature == sign(SigningPayload(p.challenge))
        && id in old(challenges) && now <= old(challenges)[id].expiresAt && challenges != old(challenges)
      ensures challenges != old(challenges) ==> Spent(challenges, p.challenge.challengeId, sign)
      ensures challenges.Keys == old(challenges).Keys
      ensures forall other :: other in challenges && other != p.challenge.challengeId ==>
        challenges[other] == old(challenges)[other]
    {
      AttemptSpends(challenges, p, session, now, sign);
      AcceptedExactly(challenges, p, session, now, sign);
      v := Precheck(p, session, now, sign);
      if v.Rejected? { return; }
      var recorded := ConsumeLivenessChallenge(p.challenge.challengeId);
      if recorded.None? { return Rejected(UnknownOrUsed); }
      if recorded.value.nonce != p.challenge.nonce || recorded.value.sessionId != p.challenge.sessionId {
        return Rejected(MetadataMismatch);
      }
      if recorded.value.expiresAt < now { return Rejected(ExpiredInStorage); }
    }
  }

  // ------------------------------------------------------- single effects

  /**
   * Accepted means: signed by this instance, within its own and the recorded
   * lifetime, and still unused under its id with the recorded nonce and session.
   */
  lemma AcceptedExactly(table: Table, p: Presented, session: Option<string>, now: int, sign: string -> string)
    ensures var id := p.challenge.challengeId;
      Validate(table, p, session, now, sign).1.Accepted? <==>
        && p.signature == sign(SigningPayload(p.challenge))
        && p.issuedAt.Some? && p.expiresAt.Some?
        && p.issuedAt.value - 5 <= now <= p.expiresAt.value && p.issuedAt.value <= p.expiresAt.value
        && (session.Some? ==> session.value == p.challenge.sessionId)
        && id in table && !table[id].used && table[id].nonce == p.challenge.nonce
        && table[id].sessionId == p.challenge.sessionId && now <= table[id].expiresAt
    ensures Validate(table, p, session, now, sign).1.Accepted? ==>
      !Validate(Validate(table, p, session, now, sign).0, p, session, now, sign).1.Accepted?
  {}

  /** Why a challenge is rejected: the first of these that applies. */
  lemma RejectedBecause(table: Table, p: Presented, session: Option<string>, now: int, sign: string -> string, reason: Rejection)
    requires Validate(table, p, session, now, sign).1 == Rejected(reason)
    ensures reason == BadSignature <==> p.signature != sign(SigningPayload(p.challenge))
    ensures reason == BadTimestamp ==> p.issuedAt.None? || p.expiresAt.None?
    ensures reason == Expired ==> p.expiresAt.Some? && p.expiresAt.value < now
    ensures reason == TooEarly ==> p.issuedAt.Some? && now < p.issuedAt.value - 5
    ensures reason == ExpiresBeforeIssue ==> p.issuedAt.Some? && p.expiresAt.Some? && p.expiresAt.value < p.issuedAt.value
    ensures reason == WrongSession ==> session.Some? && session != Some(p.challenge.sessionId)
    ensures var id := p.challenge.challengeId;
      && (reason == UnknownOrUsed ==> id !in table || table[id].used)
      && (reason == MetadataMismatch ==>
            id in table && (table[id].nonce != p.challenge.nonce || table[id].sessionId != p.challenge.sessionId))
      && (reason == ExpiredInStorage ==> id in table && table[id].expiresAt < now)
  {}

  /**
   * Looking a challenge up spends it, whatever comes of it: an attempt changes
   * the table exactly when it finds the entry unused, and all that changes is
   * that this entry is used and can never be accepted again.
   */
  lemma AttemptSpendsTheEntry(table: Table, p: Presented, session: Option<string>, now: int, sign: string -> string,
                              q: Presented, laterSession: Option<string>, later: int)
    requires q.challenge.challengeId == p.challenge.challengeId
    ensures var (after, v) := Validate(table, p, session, now, sign);
      && (after != table <==> v.Accepted? || v.reason == MetadataMismatch || v.reason == ExpiredInStorage)
      && (after != table ==>
            && after.Keys == table.Keys && (forall id :: id in table && id != p.challenge.challengeId ==> after[id] == table[id])
            && !Validate(after, q, laterSession, later, sign).1.Accepted?)
  {
    var (after, v) := Validate(table, p, session, now, sign);
    var id := p.challenge.challengeId;
    if id in table && !table[id].used && Precheck(p, session, now, sign).Accepted? {
      assert after[id].used;
    }
    AcceptedExactly(after, q, laterSession, later, sign);
  }

  /**
   * An insert changes the verdict on another challenge exactly when it found
   * more than a hundred entries at or after that challenge's expiry. If it
   * read its clock no later than the validation, that leaves one case: both
   * fall on the very instant of expiry, which cleanup counts as expired and
   * validation does not.
   */
  lemma CleanupChangesVerdict(table: Table, c: Stored, recordedAt: int, p: Presented, session: Option<string>, now: int, sign: string -> string)
    requires p.challenge.challengeId != c.challengeId
    ensures var id := p.challenge.challengeId;
      Validate(Record(table, c, recordedAt), p, session, now, sign).1.Accepted?
      <==> Validate(table, p, session, now, sign).1.Accepted? && !(|table| > 100 && table[id].expiresAt <= recordedAt)
    ensures var id := p.challenge.challengeId;
      recordedAt <= now && Validate(table, p, session, now, sign).1.Accepted? ==>
        (|table| > 100 && table[id].expiresAt <= recordedAt <==> |table| > 100 && table[id].expiresAt == recordedAt == now)
  {
    AcceptedExactly(table, p, session, now, sign);
    AcceptedExactly(Record(table, c, recordedAt), p, session, now, sign);
  }

  /** After an insert the table holds at most 101 entries, or the live ones and the new one. */
  lemma TableIsBounded(table: Table, c: Stored, now: int)
    ensures |Record(table, c, now)| <= 101 || |Record(table, c, now)| <= |Live(table, now)| + 1
  {
    var kept := if |table| > 100 then Live(table, now) else table;
    assert Record(table, c, now).Keys == kept.Keys + {c.challengeId};
  }

  // ---------------------------------------------------------------- runs

  datatype State = State(table: Table, recorded: map<string, Stored>, accepted: seq<string>)

  datatype Step =
    | RecordStep(c: Stored, now: int)
    | ValidateStep(p: Presented, session: Option<string>, now: int)

  // Challenge ids are fresh UUIDs, recorded unused.
  ghost predicate Enabled(s: State, step: Step) {
    step.RecordStep? ==> step.c.challengeId !in s.recorded && !step.c.used
  }

  function Apply(s: State, step: Step, sign: string -> string): State {
    match step
    case RecordStep(c, now) => s.(table := Record(s.table, c, now), recorded := s.recorded[c.challengeId := c])
    case ValidateStep(p, session, now) =>
      var (after, verdict) := Validate(s.table, p, session, now, sign);
      s.(table := after, accepted := if verdict.Accepted? then s.accepted + [p.challenge.challengeId] else s.accepted)
  }

  // Clocks may jump: `now` is whatever each step reads.
  ghost predicate Runs(states: seq<State>, steps: seq<Step>, sign: string -> string) {
    && |states| == |steps| + 1
    && states[0] == State(map[], map[], [])
    && forall i :: 0 <= i < |steps| ==> Enabled(states[i], steps[i]) && states[i + 1] == Apply(states[i], steps[i], sign)
  }

  ghost predicate Inv(s: State) {
    && (forall id :: id in s.table ==> id in s.recorded && s.table[id].(used := false) == s.recorded[id])
    && (forall i :: 0 <= i < |s.accepted| ==>
          s.accepted[i] in s.recorded && (s.accepted[i] in s.table ==> s.table[s.accepted[i]].used))
    && (forall i, j :: 0 <= i < j < |s.accepted| ==> s.accepted[i] != s.accepted[j])
  }

  lemma {:induction false} RunKeeps(states: seq<State>, steps: seq<Step>, sign: string -> string, n: nat)
    requires Runs(states, steps, sign) && n < |states|
    ensures Inv(states[n])
  {
    if n > 0 {
      RunKeeps(states, steps, sign, n - 1);
      StepKeeps(states[n - 1], steps[n - 1], sign);
    }
  }

  lemma StepKeeps(s: State, step: Step, sign: string -> string)
    requires Inv(s) && Enabled(s, step)
    ensures Inv(Apply(s, step, sign))
  {
    if step.ValidateStep? {
      AcceptedExactly(s.table, step.p, step.session, step.now, sign);
      assert step.p.challenge.challengeId in s.table && !s.table[step.p.challenge.challengeId].used ==>
        step.p.challenge.challengeId !in s.accepted;
    }
  }

  /** Over any run each challenge is accepted at most once. */
  lemma AcceptedAtMostOnce(states: seq<State>, steps: seq<Step>, sign: string -> string, n: nat)
    requires Runs(states, steps, sign) && n < |states|
    ensures forall i, j :: 0 <= i < j < |states[n].accepted| ==> states[n].accepted[i] != states[n].accepted[j]
  {
    RunKeeps(states, steps, sign, n);
  }

  /** A challenge is accepted only as it was recorded by this instance, and never after its recorded expiry. */
  lemma AcceptedBeforeExpiry(states: seq<State>, steps: seq<Step>, sign: string -> string, n: nat)
    requires Runs(states, steps, sign) && n < |steps| && states[n + 1].accepted != states[n].accepted
    ensures steps[n].ValidateStep?
    ensures var p := steps[n].p.challenge;
      p.challengeId in states[n].recorded
      && p.nonce == states[n].recorded[p.challengeId].nonce && p.sessionId == states[n].recorded[p.challengeId].sessionId
      && steps[n].now <= states[n].recorded[p.challengeId].expiresAt
  {
    RunKeeps(states, steps, sign, n);
    assert states[n + 1] == Apply(states[n], steps[n], sign);
    if steps[n].ValidateStep? {
      AcceptedExactly(states[n].table, steps[n].p, steps[n].session, steps[n].now, sign);
    }
  }

  // A step that drops the waiting challenge, by a cleanup at or after its
  // expiry, or spends it, by an attempt that reaches the table.
  ghost predicate Ends(s: State, step: Step, c: Stored, sign: string -> string) {
    match step
    case RecordStep(_, now) => |s.table| > 100 && c.expiresAt <= now
    case ValidateStep(p, session, now) =>
      p.challenge.challengeId == c.challengeId && Precheck(p, session, now, sign).Accepted?
  }

  ghost predicate Unended(states: seq<State>, steps: seq<Step>, m: nat, n: nat, c: Stored, sign: string -> string)
    requires n <= |steps| < |states|
  {
    forall k :: m < k < n ==> !Ends(states[k], steps[k], c, sign)
  }

  ghost predicate Waiting(s: State, c: Stored) {
    c.challengeId in s.table && s.table[c.challengeId] == c
  }

  ghost predicate Remembers(s: State, c: Stored) {
    !c.used && c.challengeId in s.recorded && s.recorded[c.challengeId] == c
  }

  lemma WaitingStep(s: State, step: Step, c: Stored, sign: string -> string)
    requires Inv(s) && Enabled(s, step) && Remembers(s, c)
    ensures Remembers(Apply(s, step, sign), c)
    ensures Waiting(Apply(s, step, sign), c) <==> Waiting(s, c) && !Ends(s, step, c, sign)
  {
    if step.ValidateStep? && c.challengeId in s.table { assert s.table[c.challengeId].(used := false) == c; }
  }

  lemma RunStep(states: seq<State>, steps: seq<Step>, sign: string -> string, k: nat)
    requires Runs(states, steps, sign) && k < |steps|
    ensures k + 1 < |states| && Enabled(states[k], steps[k]) && states[k + 1] == Apply(states[k], steps[k], sign)
  {}

  lemma {:induction false} RecordedWaits(states: seq<State>, steps: seq<Step>, sign: string -> string, m: nat, n: nat, c: Stored, at: int)
    requires Runs(states, steps, sign) && m < n < |states| && steps[m] == RecordStep(c, at)
    ensures Remembers(states[n], c) && (Waiting(states[n], c) <==> Unended(states, steps, m, n, c, sign))
    decreases n
  {
    RunStep(states, steps, sign, n - 1);
    if n > m + 1 {
      RecordedWaits(states, steps, sign, m, n - 1, c, at);
      RunKeeps(states, steps, sign, n - 1);
      WaitingStep(states[n - 1], steps[n - 1], c, sign);
      UnendedGrows(states, steps, m, n - 1, c, sign);
    } else {
      RecordWaits(states[m], c, at, sign);
    }
  }

  lemma RecordWaits(s: State, c: Stored, at: int, sign: string -> string)
    requires !c.used
    ensures Remembers(Apply(s, RecordStep(c, at), sign), c) && Waiting(Apply(s, RecordStep(c, at), sign), c)
  {}

  lemma UnendedGrows(states: seq<State>, steps: seq<Step>, m: nat, k: nat, c: Stored, sign: string -> string)
    requires m < k < |steps| < |states|
    ensures Unended(states, steps, m, k + 1, c, sign) <==> Unended(states, steps, m, k, c, sign) && !Ends(states[k], steps[k], c, sign)
  {}

  /**
   * Over any run a recorded challenge, presented as it was recorded, is
   * accepted exactly up to its recorded expiry, and exactly if no attempt has
   * reached it and no insert has found more than a hundred entries at or after
   * its expiry. So cleanup never loses one that is unexpired by its clock.
   */
  lemma RecordedIsAccepted(states: seq<State>, steps: seq<Step>, sign: string -> string, m: nat, n: nat, c: Stored, at: int,
                           p: Presented, session: Option<string>, now: int)
    requires Runs(states, steps, sign) && m < n < |states| && steps[m] == RecordStep(c, at)
    requires p.challenge.challengeId == c.challengeId && p.challenge.nonce == c.nonce && p.challenge.sessionId == c.sessionId
    requires Precheck(p, session, now, sign).Accepted?
    ensures Validate(states[n].table, p, session, now, sign).1.Accepted?
       <==> Unended(states, steps, m, n, c, sign) && now <= c.expiresAt
  {
    RecordedWaits(states, steps, sign, m, n, c, at);
    RunKeeps(states, steps, sign, n);
    AcceptedExactly(states[n].table, p, session, now, sign);
  }

  // ------------------------------------------------- a challenge is lost

  // The k-th of many further challenges, under an id of its own.
  function Further(id: string, k: nat, at: int): Stored {
    Stored(id + seq(k + 1, _ => 'x'), "", "", at, at + 60, false)
  }

  // The challenge and n further ones have been recorded.
  ghost predicate Filled(s: State, first: Stored, n: nat) {
    && Waiting(s, first) && |s.table| == n + 1
    && forall id :: id in s.recorded ==> |id| <= |first.challengeId| + n
  }

  lemma RunOneMore(states: seq<State>, steps: seq<Step>, sign: string -> string, step: Step)
    requires Runs(states, steps, sign) && Enabled(states[|steps|], step)
    ensures Runs(states + [Apply(states[|steps|], step, sign)], steps + [step], sign)
  {
    var moreStates, moreSteps := states + [Apply(states[|steps|], step, sign)], steps + [step];
    forall i | 0 <= i < |moreSteps|
      ensures Enabled(moreStates[i], moreSteps[i]) && moreStates[i + 1] == Apply(moreStates[i], moreSteps[i], sign)
    {
      assert moreStates[i] == states[i];
      if i < |steps| { assert moreStates[i + 1] == states[i + 1] && moreSteps[i] == steps[i]; }
    }
  }

  lemma {:induction false} FillTable(first: Stored, at: int, sign: string -> string, n: nat)
    returns (states: seq<State>, steps: seq<Step>)
    requires !first.used && n <= 100
    ensures Runs(states, steps, sign) && |steps| == n + 1 && steps[0] == RecordStep(first, at)
    ensures Filled(states[|steps|], first, n)
  {
    if n == 0 {
      var start := State(map[], map[], []);
      states, steps := [start, Apply(start, RecordStep(first, at), sign)], [RecordStep(first, at)];
    } else {
      states, steps := FillTable(first, at, sign, n - 1);
      var s, step := states[|steps|], RecordStep(Further(first.challengeId, n - 1, at), at);
      RunOneMore(states, steps, sign, step);
      states, steps := states + [Apply(s, step, sign)], steps + [step];
      RunKeeps(states, steps, sign, n);
      assert states[n] == s;
      OneMoreIn(s, first, n, at, sign);
    }
  }

  lemma OneMoreIn(s: State, first: Stored, n: nat, at: int, sign: string -> string)
    requires 0 < n <= 100 && Filled(s, first, n - 1) && Inv(s)
    ensures Filled(Apply(s, RecordStep(Further(first.challengeId, n - 1, at), at), sign), first, n)
  {
    var c := Further(first.challengeId, n - 1, at);
    assert |c.challengeId| == |first.challengeId| + n;
    assert c.challengeId !in s.table;
  }

  /**
   * Challenges are lost this way: whatever could be accepted up to its expiry
   * can be recorded and then, after a hundred others, be missing once one more
   * is recorded at or after the expiry, by a clock at or ahead of the validation's.
   */
  lemma CleanupCanLoseAChallenge(p: Presented, session: Option<string>, now: int, expiresAt: int, recordedAt: int, at: int,
                                 sign: string -> string)
    returns (states: seq<State>, steps: seq<Step>)
    requires Precheck(p, session, now, sign).Accepted? && now <= expiresAt <= recordedAt
    ensures Runs(states, steps, sign) && |steps| == 102
    ensures steps[0] == RecordStep(Stored(p.challenge.challengeId, p.challenge.nonce, p.challenge.sessionId, at, expiresAt, false), at)
    ensures steps[101].RecordStep? && steps[101].now == recordedAt
    ensures Validate(states[101].table, p, session, now, sign).1.Accepted?
    ensures !Validate(states[102].table, p, session, now, sign).1.Accepted?
  {
    var id := p.challenge.challengeId;
    var first := Stored(id, p.challenge.nonce, p.challenge.sessionId, at, expiresAt, false);
    states, steps := FillTable(first, at, sign, 100);
    var s, c := states[101], Further(id, 100, recordedAt);
    AcceptedExactly(s.table, p, session, now, sign);
    assert |c.challengeId| == |id| + 101;
    RunOneMore(states, steps, sign, RecordStep(c, recordedAt));
    states, steps := states + [Apply(s, RecordStep(c, recordedAt), sign)], steps + [RecordStep(c, recordedAt)];
    CleanupChangesVerdict(s.table, c, recordedAt, p, session, now, sign);
  }
}
