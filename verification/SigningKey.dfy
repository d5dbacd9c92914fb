// Unwrapping the pinned signing key: base64 layers around 32 raw bytes or a
// minisign public key, with comment lines in between.

module SigningKey {
  import opened Common
  import opened Utf8
  import Base64

  datatype Outcome = Found(key: seq<byte>) | NotFound | InvalidBase64

  // ---------------------------------------------------------------- lines

  predicate AtMost(lines: seq<string>, n: nat) { forall i :: 0 <= i < |lines| ==> |lines[i]| <= n }

  // Line ends are "\n" or "\r\n"; the last line need not have one.
  function Lines(s: string): (lines: seq<string>)
    ensures AtMost(lines, |s|)
    decreases |s|
  {
    if s == "" then []
    else
      var k := LineLength(s, 0);
      if k == |s| then [s] else [WithoutReturn(s[..k])] + Lines(s[k + 1..])
  }

  function LineLength(s: string, from: nat): (k: nat)
    requires from <= |s|
    ensures from <= k <= |s| && (forall i :: from <= i < k ==> s[i] != '\n') && (k < |s| ==> s[k] == '\n')
    decreases |s| - from
  {
    if from == |s| || s[from] == '\n' then from else LineLength(s, from + 1)
  }

  function WithoutReturn(line: string): string {
    if line != "" && line[|line| - 1] == '\r' then line[..|line| - 1] else line
  }

  predicate IsSpace(c: char) {
    var n := c as int;
    9 <= n <= 13 || n == 0x20 || n == 0x85 || n == 0xA0 || n == 0x1680 || 0x2000 <= n <= 0x200A
    || n == 0x2028 || n == 0x2029 || n == 0x202F || n == 0x205F || n == 0x3000
  }

  function Trim(s: string): (t: string)
    ensures |t| <= |s|
  {
    if s == "" then ""
    else if IsSpace(s[0]) then Trim(s[1..])
    else if IsSpace(s[|s| - 1]) then Trim(s[..|s| - 1])
    else s
  }

  const COMMENT: string := "untrusted comment:"

  predicate IsCandidate(line: string) { line != "" && !(COMMENT <= line) }

  function Select(lines: seq<string>): seq<string> {
    if lines == [] then []
    else
      var line := Trim(lines[0]);
      (if IsCandidate(line) then [line] else []) + Select(lines[1..])
  }

  lemma {:induction false} SelectAtMost(lines: seq<string>, n: nat)
    requires AtMost(lines, n)
    ensures AtMost(Select(lines), n)
  {
    if lines != [] { SelectAtMost(lines[1..], n); }
  }

  function KeyCandidates(raw: string): (candidates: seq<string>)
    ensures AtMost(candidates, |raw|)
  {
    SelectAtMost(Lines(raw), |raw|);
    Select(Lines(raw))
  }

  // ------------------------------------------------------------ decoding

  // "Ed": a minisign public key is this tag, an 8-byte key id and the key.
  const MINISIGN_TAG: seq<byte> := [0x45, 0x64]

  // Each layer is shorter than the text around it, so unwrapping ends.
  function DecodeCandidate(candidate: string): (r: Outcome)
    ensures r.Found? ==> |r.key| == 32
    decreases |candidate|, 1, 0
  {
    match Base64.Decode(candidate)
    case Invalid => InvalidBase64
    case Bytes(decoded) =>
      if |decoded| == 32 then Found(decoded)
      else if |decoded| == 42 && MINISIGN_TAG <= decoded then Found(decoded[10..])
      else match Utf8.Decode(decoded)
        case Malformed => NotFound
        case Valid(nested) => FirstKey(KeyCandidates(nested), |candidate|)
  }

  function FirstKey(candidates: seq<string>, bound: nat): (r: Outcome)
    requires candidates == [] || (bound > 0 && AtMost(candidates, bound - 1))
    ensures r.Found? ==> |r.key| == 32
    decreases bound, 0, |candidates|
  {
    if candidates == [] then NotFound
    else match DecodeCandidate(candidates[0])
      case NotFound => FirstKey(candidates[1..], bound)
      case other => other
  }

  // Nothing found anywhere is an error as well.
  function DecodeSigningPublicKey(raw: string): (r: Outcome)
    ensures r.Found? ==> |r.key| == 32
  {
    FirstKey(KeyCandidates(raw), |raw| + 1)
  }

  // --------------------------------------------------------- key file lines

  // What Unicode counts as white space.
  const WHITE: string :=
    "\t\n\U{B}\U{C}\r \U{85}\U{A0}\U{1680}\U{2000}\U{2001}\U{2002}\U{2003}\U{2004}\U{2005}\U{2006}\U{2007}\U{2008}\U{2009}\U{200A}\U{2028}\U{2029}\U{202F}\U{205F}\U{3000}"

  /** The trimmed characters are the twenty-five white space characters. */
  lemma IsSpaceExactly(c: char)
    ensures IsSpace(c) <==> c in WHITE
  {
    assert WHITE[0] == '\t' && WHITE[1] == '\n' && WHITE[2] == '\U{B}' && WHITE[3] == '\U{C}' && WHITE[4] == '\r';
    assert WHITE[5] == ' ' && WHITE[6] == '\U{85}' && WHITE[7] == '\U{A0}' && WHITE[8] == '\U{1680}';
    assert WHITE[9] == '\U{2000}' && WHITE[10] == '\U{2001}' && WHITE[11] == '\U{2002}' && WHITE[12] == '\U{2003}';
    assert WHITE[13] == '\U{2004}' && WHITE[14] == '\U{2005}' && WHITE[15] == '\U{2006}' && WHITE[16] == '\U{2007}';
    assert WHITE[17] == '\U{2008}' && WHITE[18] == '\U{2009}' && WHITE[19] == '\U{200A}' && WHITE[20] == '\U{2028}';
    assert WHITE[21] == '\U{2029}' && WHITE[22] == '\U{202F}' && WHITE[23] == '\U{205F}' && WHITE[24] == '\U{3000}';
  }

  predicate White(w: string) { forall i :: 0 <= i < |w| ==> IsSpace(w[i]) }

  // Blank lines and comments are passed over; the others are candidates, but
  // for the space around them.
  datatype Line = Blank(space: string) | Comment(left: string, text: string) | Candidate(left: string, core: string, right: string)

  function Render(line: Line): string {
    match line
    case Blank(space) => space
    case Comment(left, text) => left + "untrusted comment:" + text
    case Candidate(left, core, right) => left + core + right
  }

  predicate IsCore(core: string) {
    core != "" && !IsSpace(core[0]) && !IsSpace(core[|core| - 1]) && !("untrusted comment:" <= core)
  }

  predicate WellFormed(line: Line) {
    && '\n' !in Render(line)
    && match line
       case Blank(space) => White(space)
       case Comment(left, _) => White(left)
       case Candidate(left, core, right) => White(left) && IsCore(core) && White(right)
  }

  function Rendered(lines: seq<Line>): string {
    if lines == [] then "" else if |lines| == 1 then Render(lines[0])
    else Render(lines[0]) + "\n" + Rendered(lines[1..])
  }

  function Cores(lines: seq<Line>): seq<string> {
    if lines == [] then [] else (if lines[0].Candidate? then [lines[0].core] else []) + Cores(lines[1..])
  }

  ghost predicate AllWellFormed(lines: seq<Line>) { forall i :: 0 <= i < |lines| ==> WellFormed(lines[i]) }

  lemma {:induction false} TrimLeft(left: string, s: string)
    requires White(left)
    ensures Trim(left + s) == Trim(s)
  {
    if left == "" {
      assert left + s == s;
    } else {
      assert (left + s)[1..] == left[1..] + s;
      TrimLeft(left[1..], s);
    }
  }

  lemma {:induction false} TrimRight(s: string, right: string)
    requires White(right)
    ensures Trim(s + right) == Trim(s)
    decreases |s| + |right|
  {
    if right == "" {
      assert s + right == s;
    } else if s == "" {
      assert s + right == right + "";
      TrimLeft(right, "");
    } else if IsSpace(s[0]) {
      assert (s + right)[1..] == s[1..] + right;
      TrimRight(s[1..], right);
    } else {
      assert (s + right)[..|s + right| - 1] == s + right[..|right| - 1];
      TrimRight(s, right[..|right| - 1]);
    }
  }

  lemma {:induction false} TrimKeepsFront(s: string, k: nat)
    requires 0 < k <= |s| && !IsSpace(s[0]) && !IsSpace(s[k - 1])
    ensures |Trim(s)| >= k && Trim(s)[..k] == s[..k]
    decreases |s|
  {
    if IsSpace(s[|s| - 1]) {
      assert k < |s|;
      TrimKeepsFront(s[..|s| - 1], k);
    }
  }

  lemma TrimReturn(s: string)
    ensures Trim(WithoutReturn(s)) == Trim(s)
  {
    if WithoutReturn(s) != s {
      var right := s[|s| - 1..];
      assert s == WithoutReturn(s) + right;
      TrimRight(WithoutReturn(s), right);
    }
  }

  lemma LineSelects(line: Line)
    requires WellFormed(line)
    ensures IsCandidate(Trim(Render(line))) <==> line.Candidate?
    ensures line.Candidate? ==> Trim(Render(line)) == line.core
  {
    match line
    case Blank(space) =>
      TrimLeft(space, "");
      assert space + "" == space;
    case Comment(left, text) => CommentIsDropped(left, text);
    case Candidate(left, core, right) =>
      assert Render(line) == left + (core + right);
      TrimLeft(left, core + right);
      TrimRight(core, right);
  }

  lemma CommentIsDropped(left: string, text: string)
    requires White(left)
    ensures !IsCandidate(Trim(left + "untrusted comment:" + text))
  {
    var s := "untrusted comment:" + text;
    assert left + "untrusted comment:" + text == left + s;
    TrimLeft(left, s);
    assert s[..18] == "untrusted comment:";
    TrimKeepsFront(s, 18);
  }

  lemma LineLengthIs(s: string, from: nat, k: nat)
    requires from <= k <= |s| && (forall i :: from <= i < k ==> s[i] != '\n') && (k < |s| ==> s[k] == '\n')
    ensures LineLength(s, from) == k
  {
    var _ := LineLength(s, from);
  }

  lemma LinesOfLine(line: string, rest: string)
    requires '\n' !in line
    ensures Lines(line + "\n" + rest) == [WithoutReturn(line)] + Lines(rest)
    ensures line != "" ==> Lines(line) == [line]
  {
    var s := line + "\n" + rest;
    LineLengthIs(s, 0, |line|);
    LineLengthIs(line, 0, |line|);
    assert s[..|line|] == line && s[|line| + 1..] == rest;
  }

  lemma SelectCons(line: string, more: seq<string>)
    ensures Select([line] + more) == (if IsCandidate(Trim(line)) then [Trim(line)] else []) + Select(more)
  {
    assert ([line] + more)[1..] == more;
  }

  /** The candidates of a key file are the cores of its lines, in order, with blank lines and comments passed over. */
  lemma {:induction false} CandidatesOfLines(lines: seq<Line>)
    requires AllWellFormed(lines)
    ensures KeyCandidates(Rendered(lines)) == Cores(lines)
  {
    if lines != [] {
      var line := Render(lines[0]);
      LineSelects(lines[0]);
      if |lines| == 1 {
        LinesOfLine(line, "");
        assert Cores(lines[1..]) == [];
        if line != "" { SelectCons(line, []); } else { assert !lines[0].Candidate?; }
        assert [line] + [] == [line];
      } else {
        var rest := Rendered(lines[1..]);
        LinesOfLine(line, rest);
        CandidatesOfLines(lines[1..]);
        TrimReturn(line);
        SelectCons(WithoutReturn(line), Lines(rest));
      }
    }
  }

  // Every line is blank, a comment or a candidate.
  lemma EveryLineIsOne(s: string) returns (line: Line)
    requires '\n' !in s
    ensures WellFormed(line) && Render(line) == s
  {
    var left, rest := SpaceInFront(s);
    if rest == "" {
      line := Blank(s);
      assert left + rest == left;
    } else if "untrusted comment:" <= rest {
      line := Comment(left, rest[18..]);
      assert rest == "untrusted comment:" + rest[18..];
      assert left + "untrusted comment:" + rest[18..] == left + rest;
    } else {
      var core, right := SpaceBehind(rest);
      line := Candidate(left, core, right);
      assert core[0] == rest[0];
      assert left + core + right == left + (core + right);
    }
  }

  lemma {:induction false} SpaceInFront(s: string) returns (left: string, rest: string)
    ensures White(left) && s == left + rest && (rest != "" ==> !IsSpace(rest[0]))
  {
    if s != "" && IsSpace(s[0]) {
      left, rest := SpaceInFront(s[1..]);
      assert s == [s[0]] + s[1..];
      left := [s[0]] + left;
    } else {
      left, rest := "", s;
    }
  }

  lemma {:induction false} SpaceBehind(s: string) returns (core: string, right: string)
    requires s != "" && !IsSpace(s[0])
    ensures White(right) && s == core + right && core != "" && !IsSpace(core[|core| - 1])
  {
    var n := |s| - 1;
    if IsSpace(s[n]) {
      core, right := SpaceBehind(s[..n]);
      assert s == s[..n] + [s[n]];
      right := right + [s[n]];
    } else {
      core, right := s, "";
    }
  }

  /** Every text is the rendering of some lines, so the candidates of every text are known. */
  lemma {:induction false} EveryTextIsLines(s: string) returns (lines: seq<Line>)
    ensures lines != [] && AllWellFormed(lines) && Rendered(lines) == s
    decreases |s|
  {
    var k := LineLength(s, 0);
    var line := EveryLineIsOne(s[..k]);
    if k == |s| {
      lines := [line];
      assert s[..k] == s;
    } else {
      var more := EveryTextIsLines(s[k + 1..]);
      lines := [line] + more;
      RenderedCons(line, more);
      AtNewline(s, k);
    }
  }

  lemma RenderedCons(line: Line, more: seq<Line>)
    requires more != []
    ensures Rendered([line] + more) == Render(line) + "\n" + Rendered(more)
  {
    Cons(line, more);
  }

  lemma AtNewline(s: string, k: nat)
    requires k < |s| && s[k] == '\n'
    ensures s == s[..k] + "\n" + s[k + 1..]
  {}

  // ------------------------------------------------------------- decisions

  lemma {:induction false} BoundDoesNotMatter(candidates: seq<string>, a: nat, b: nat)
    requires candidates == [] || (a > 0 && b > 0 && AtMost(candidates, a - 1) && AtMost(candidates, b - 1))
    ensures FirstKey(candidates, a) == FirstKey(candidates, b)
  {
    if candidates != [] { BoundDoesNotMatter(candidates[1..], a, b); }
  }

  /**
   * What a candidate decodes to: 32 bytes are the key, 42 bytes that start
   * with "Ed" hold it behind ten, and any other UTF-8 text is read as a key
   * file of its own.
   */
  lemma CandidateDecidesExactly(candidate: string)
    ensures DecodeCandidate(candidate) ==
      match Base64.Decode(candidate)
      case Invalid => InvalidBase64
      case Bytes(p) =>
        if |p| == 32 then Found(p)
        else if |p| == 42 && p[0] == 0x45 && p[1] == 0x64 then Found(p[10..42])
        else if Utf8.Decode(p).Malformed? then NotFound
        else DecodeSigningPublicKey(Utf8.Decode(p).text)
  {
    if Base64.Decode(candidate).Bytes? {
      var p := Base64.Decode(candidate).bytes;
      TagExactly(p);
      if Utf8.Decode(p).Valid? { NestedIsAFile(candidate, Utf8.Decode(p).text); }
    }
  }

  lemma TagExactly(p: seq<byte>)
    ensures MINISIGN_TAG <= p <==> |p| >= 2 && p[0] == 0x45 && p[1] == 0x64
    ensures |p| == 42 ==> p[10..] == p[10..42]
  {}

  lemma NestedIsAFile(candidate: string, nested: string)
    requires |nested| < |candidate| || nested == ""
    ensures FirstKey(KeyCandidates(nested), |candidate|) == DecodeSigningPublicKey(nested)
  {
    if nested == "" { assert KeyCandidates(nested) == []; }
    BoundDoesNotMatter(KeyCandidates(nested), |candidate|, |nested| + 1);
  }

  // The outcome of the i-th candidate, none of those before it having decided.
  ghost predicate DecidesAt(candidates: seq<string>, i: nat, outcome: Outcome) {
    && i < |candidates| && DecodeCandidate(candidates[i]) == outcome
    && forall j :: 0 <= j < i ==> DecodeCandidate(candidates[j]) == NotFound
  }

  lemma {:induction false} FirstDecides(candidates: seq<string>, bound: nat, outcome: Outcome)
    requires candidates == [] || (bound > 0 && AtMost(candidates, bound - 1))
    requires outcome != NotFound
    ensures FirstKey(candidates, bound) == outcome <==> exists i: nat :: DecidesAt(candidates, i, outcome)
  {
    if candidates != [] {
      var rest := candidates[1..];
      FirstDecides(rest, bound, outcome);
      if DecodeCandidate(candidates[0]) == NotFound {
        if exists i: nat :: DecidesAt(rest, i, outcome) {
          var i: nat :| DecidesAt(rest, i, outcome);
          assert DecidesAt(candidates, i + 1, outcome);
        }
        if exists i: nat :: DecidesAt(candidates, i, outcome) {
          var i: nat :| DecidesAt(candidates, i, outcome);
          assert forall j :: 0 <= j < i - 1 ==> rest[j] == candidates[j + 1];
          assert DecidesAt(rest, i - 1, outcome);
        }
      } else {
        assert DecidesAt(candidates, 0, DecodeCandidate(candidates[0]));
        if exists i: nat :: DecidesAt(candidates, i, outcome) {
          var i: nat :| DecidesAt(candidates, i, outcome);
          assert i == 0;
        }
      }
    }
  }

  /** The first candidate that holds a key or is not base64 decides: no later one is looked at. */
  lemma KeyFileDecidesExactly(lines: seq<Line>, outcome: Outcome)
    requires AllWellFormed(lines) && outcome != NotFound
    ensures DecodeSigningPublicKey(Rendered(lines)) == outcome <==> exists i: nat :: DecidesAt(Cores(lines), i, outcome)
  {
    CandidatesOfLines(lines);
    FirstDecides(KeyCandidates(Rendered(lines)), |Rendered(lines)| + 1, outcome);
  }

  // ------------------------------------------------------------ wrapping

  // A payload on a line of its own, with space around it and blank or comment
  // lines before and behind it.
  datatype Layer = Layer(before: seq<Line>, left: string, right: string, after: seq<Line>)

  function LayerLines(layer: Layer, payload: seq<byte>): seq<Line> {
    layer.before + [Candidate(layer.left, Base64.Encode(payload), layer.right)] + layer.after
  }

  function WrapText(layer: Layer, payload: seq<byte>): string { Rendered(LayerLines(layer, payload)) }

  predicate PassedOver(lines: seq<Line>) { forall i :: 0 <= i < |lines| ==> WellFormed(lines[i]) && !lines[i].Candidate? }

  predicate IsLayer(layer: Layer) {
    && PassedOver(layer.before) && PassedOver(layer.after)
    && White(layer.left) && White(layer.right) && '\n' !in layer.left && '\n' !in layer.right
  }

  // The key file with the given layers, outermost first, around the payload.
  function KeyFile(layers: seq<Layer>, payload: seq<byte>): string
    requires layers != []
  {
    if |layers| == 1 then WrapText(layers[0], payload)
    else WrapText(layers[0], Utf8.Encode(KeyFile(layers[1..], payload)))
  }

  ghost predicate AreLayers(layers: seq<Layer>) { forall i :: 0 <= i < |layers| ==> IsLayer(layers[i]) }

  // A payload that is the key itself, or the key as minisign writes it.
  predicate Carries(payload: seq<byte>, key: seq<byte>) {
    && |key| == 32
    && (payload == key || (|payload| == 42 && payload[0] == 0x45 && payload[1] == 0x64 && payload[10..] == key))
  }

  lemma EncodedIsCore(payload: seq<byte>)
    requires payload != []
    ensures var s := Base64.Encode(payload); IsCore(s) && '\n' !in s
  {
    var s := Base64.Encode(payload);
    forall i | 0 <= i < |s| ensures Base64.IsText(s[i]) && s[i] != '\n' && s[i] != ' ' && !IsSpace(s[i]) {
      Base64.EncodeIsText(payload, i);
    }
    assert |s| > 9 ==> s[9] != "untrusted comment:"[9];
  }

  lemma {:induction false} CoresConcat(a: seq<Line>, b: seq<Line>)
    ensures Cores(a + b) == Cores(a) + Cores(b)
  {
    if a == [] {
      assert a + b == b;
    } else {
      assert (a + b)[1..] == a[1..] + b;
      CoresConcat(a[1..], b);
    }
  }

  lemma {:induction false} NoCores(lines: seq<Line>)
    requires PassedOver(lines)
    ensures Cores(lines) == []
  {
    if lines != [] { NoCores(lines[1..]); }
  }

  // Whatever the layer, its payload is the one candidate in its text.
  lemma WrapTextCandidates(layer: Layer, payload: seq<byte>)
    requires payload != [] && IsLayer(layer)
    ensures KeyCandidates(WrapText(layer, payload)) == [Base64.Encode(payload)]
  {
    var core := Candidate(layer.left, Base64.Encode(payload), layer.right);
    EncodedIsCore(payload);
    assert WellFormed(core);
    CandidatesOfLines(LayerLines(layer, payload));
    CoresConcat(layer.before + [core], layer.after);
    CoresConcat(layer.before, [core]);
    NoCores(layer.before);
    NoCores(layer.after);
  }

  lemma RenderedGrows(line: Line, more: seq<Line>)
    ensures |Rendered([line] + more)| >= |Render(line)| && |Rendered([line] + more)| >= |Rendered(more)|
  {
    assert ([line] + more)[1..] == more;
  }

  lemma {:induction false} RenderedLong(before: seq<Line>, line: Line, after: seq<Line>)
    ensures |Rendered(before + [line] + after)| >= |Render(line)|
  {
    if before == [] {
      assert before + [line] + after == [line] + after;
      RenderedGrows(line, after);
    } else {
      var rest := before[1..] + [line] + after;
      RenderedLong(before[1..], line, after);
      RenderedGrows(before[0], rest);
      FirstOfThree(before, [line], after);
    }
  }

  lemma FirstOfThree(a: seq<Line>, b: seq<Line>, c: seq<Line>)
    requires a != []
    ensures a + b + c == [a[0]] + (a[1..] + b + c)
  {}

  lemma WrapTextLong(layer: Layer, payload: seq<byte>)
    requires |payload| >= 32
    ensures |WrapText(layer, payload)| >= 44
  {
    var core := Candidate(layer.left, Base64.Encode(payload), layer.right);
    RenderedLong(layer.before, core, layer.after);
  }

  lemma {:induction false} KeyFileLong(layers: seq<Layer>, payload: seq<byte>)
    requires layers != [] && |payload| >= 32
    ensures |KeyFile(layers, payload)| >= 44
  {
    if |layers| == 1 {
      WrapTextLong(layers[0], payload);
    } else {
      KeyFileLong(layers[1..], payload);
      WrapTextLong(layers[0], Utf8.Encode(KeyFile(layers[1..], payload)));
    }
  }

  // The candidate of a key file: its payload, or the bytes of the next layer.
  lemma {:induction false} CandidateUnwraps(layers: seq<Layer>, payload: seq<byte>, key: seq<byte>) returns (c: string)
    requires layers != [] && AreLayers(layers) && Carries(payload, key)
    ensures KeyCandidates(KeyFile(layers, payload)) == [c] && DecodeCandidate(c) == Found(key)
  {
    if |layers| == 1 {
      c := Base64.Encode(payload);
      WrapTextCandidates(layers[0], payload);
      Base64.DecodeEncode(payload);
      CandidateDecidesExactly(c);
    } else {
      var nested := KeyFile(layers[1..], payload);
      KeyFileLong(layers[1..], payload);
      var inner := CandidateUnwraps(layers[1..], payload, key);
      c := Base64.Encode(Utf8.Encode(nested));
      WrapTextCandidates(layers[0], Utf8.Encode(nested));
      NestedDecides(nested, inner, key);
    }
  }

  lemma NestedDecides(nested: string, inner: string, key: seq<byte>)
    requires |nested| >= 44 && KeyCandidates(nested) == [inner] && DecodeCandidate(inner) == Found(key)
    ensures DecodeCandidate(Base64.Encode(Utf8.Encode(nested))) == Found(key)
  {
    Base64.DecodeEncode(Utf8.Encode(nested));
    Utf8.DecodeEncode(nested);
    CandidateDecidesExactly(Base64.Encode(Utf8.Encode(nested)));
    assert DecodeSigningPublicKey(nested) == Found(key);
  }

  /**
   * Any number of base64 layers, with any space, blank lines and comments
   * around their payloads, around a raw or minisign key unwraps to that key.
   */
  lemma WrappedKeyDecodes(layers: seq<Layer>, payload: seq<byte>, key: seq<byte>)
    requires layers != [] && AreLayers(layers) && Carries(payload, key)
    ensures DecodeSigningPublicKey(KeyFile(layers, payload)) == Found(key)
  {
    var c := CandidateUnwraps(layers, payload, key);
  }

  // ----------------------------------------------------------- soundness

  // The candidate encodes the payload itself, or a text with a candidate that does.
  ghost predicate Unwraps(chain: seq<string>, payload: seq<byte>)
    decreases |chain|
  {
    chain != [] &&
    match Base64.Decode(chain[0])
    case Invalid => false
    case Bytes(decoded) =>
      if |chain| == 1 then decoded == payload
      else
        match Utf8.Decode(decoded)
        case Malformed => false
        case Valid(nested) => chain[1] in KeyCandidates(nested) && Unwraps(chain[1..], payload)
  }

  lemma UnwrapsCons(candidate: string, nested: string, chain: seq<string>, payload: seq<byte>)
    requires Base64.Decode(candidate).Bytes? && Utf8.Decode(Base64.Decode(candidate).bytes) == Utf8.Valid(nested)
    requires Unwraps(chain, payload) && chain[0] in KeyCandidates(nested)
    ensures Unwraps([candidate] + chain, payload)
  {
    assert ([candidate] + chain)[1..] == chain;
  }

  lemma {:induction false} CandidateIsSound(candidate: string) returns (chain: seq<string>, payload: seq<byte>)
    requires DecodeCandidate(candidate).Found?
    ensures Unwraps(chain, payload) && chain[0] == candidate && Carries(payload, DecodeCandidate(candidate).key)
    decreases |candidate|, 1, 0
  {
    var decoded := Base64.Decode(candidate).bytes;
    if |decoded| == 32 || (|decoded| == 42 && MINISIGN_TAG <= decoded) {
      chain, payload := [candidate], decoded;
    } else {
      var nested := Utf8.Decode(decoded).text;
      var rest;
      rest, payload := FirstKeyIsSound(KeyCandidates(nested), |candidate|);
      UnwrapsCons(candidate, nested, rest, payload);
      chain := [candidate] + rest;
    }
  }

  lemma {:induction false} FirstKeyIsSound(candidates: seq<string>, bound: nat) returns (chain: seq<string>, payload: seq<byte>)
    requires candidates == [] || (bound > 0 && AtMost(candidates, bound - 1))
    requires FirstKey(candidates, bound).Found?
    ensures Unwraps(chain, payload) && chain[0] in candidates && Carries(payload, FirstKey(candidates, bound).key)
    decreases bound, 0, |candidates|
  {
    if DecodeCandidate(candidates[0]).Found? {
      chain, payload := CandidateIsSound(candidates[0]);
    } else {
      chain, payload := FirstKeyIsSound(candidates[1..], bound);
    }
  }

  /**
   * A found key is really in the file: a chain of base64 layers, each a
   * candidate line of the text before it, ends in a payload that is the key
   * or the key as minisign writes it.
   */
  lemma FoundKeyIsInFile(raw: string) returns (chain: seq<string>, payload: seq<byte>)
    requires DecodeSigningPublicKey(raw).Found?
    ensures Unwraps(chain, payload) && chain[0] in KeyCandidates(raw) && Carries(payload, DecodeSigningPublicKey(raw).key)
  {
    chain, payload := FirstKeyIsSound(KeyCandidates(raw), |raw| + 1);
  }
}
