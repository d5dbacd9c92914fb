// The strict deserializer: one pass over the text that builds the value and
// stops at the first repeated member name.

module StrictJson {
  import opened Common
  import opened Json
  import opened JsonGrammar
  import opened JsonText

  // What a document means: nothing, unless it is well formed within the
  // nesting limit and no object at any depth repeats a decoded key.
  ghost function Meaning(s: string, limit: nat): Option<Value> {
    var p := Document(s, limit);
    if p.Ok? && DuplicateFree(p.value) then Some(ToValue(p.value)) else None
  }

  ghost predicate AllDuplicateFree(items: seq<Tree>) {
    forall i :: 0 <= i < |items| ==> DuplicateFree(items[i])
  }

  // The grammar's reading of a text whose first items or members are already read.
  function After<T>(read: seq<T>, p: Parsed<seq<T>>): Parsed<seq<T>> {
    if p.Ok? then Ok(read + p.value, p.rest) else Err
  }

  lemma AfterOne<T>(read: seq<T>, x: T, p: Parsed<seq<T>>)
    ensures After(read, Front(x, p)) == After(read + [x], p)
  {
    if p.Ok? { assert read + ([x] + p.value) == read + [x] + p.value; }
  }

  lemma AfterNothing<T>(p: Parsed<seq<T>>)
    ensures After([], p) == p
  {
    if p.Ok? { assert [] + p.value == p.value; }
  }

  lemma AfterAll<T>(read: seq<T>, rest: string)
    ensures After(read, Ok([], rest)) == Ok(read, rest)
  {
    assert read + [] == read;
  }

  // What has been read of an array repeats no key and stands for the values so far.
  ghost predicate ItemsStandFor(read: seq<Tree>, values: seq<Value>) {
    AllDuplicateFree(read) && values == ToValues(read)
  }

  lemma ItemJoins(read: seq<Tree>, values: seq<Value>, t: Tree)
    requires ItemsStandFor(read, values) && DuplicateFree(t)
    ensures ItemsStandFor(read + [t], values + [ToValue(t)])
  {
    assert (read + [t])[..|read|] == read;
  }

  // A duplicate inside one item spoils the whole array.
  lemma ItemSpoils(read: seq<Tree>, t: Tree, p: Parsed<seq<Tree>>)
    requires !DuplicateFree(t)
    ensures var whole := After(read, Front(t, p)); whole.Ok? ==> !AllDuplicateFree(whole.value)
  {
    var whole := After(read, Front(t, p));
    if whole.Ok? { assert whole.value[|read|] == t; }
  }

  // One item more.
  lemma ItemsStep(read: seq<Tree>, s: string, depth: nat, first: bool)
    requires !Closes(s, ']')
    ensures var at, whole := Separator(s, first, ']'), After(read, ItemsText(s, depth, first));
      if at.Err? then whole.Err?
      else
        var item := ValueText(at.rest, depth);
        if item.Err? then whole.Err?
        else if !DuplicateFree(item.value) then whole.Ok? ==> !AllDuplicateFree(whole.value)
        else whole == After(read + [item.value], ItemsText(item.rest, depth, false))
  {
    var at := Separator(s, first, ']');
    if at.Ok? && ValueText(at.rest, depth).Ok? {
      var item := ValueText(at.rest, depth);
      var more := ItemsText(item.rest, depth, false);
      AfterOne(read, item.value, more);
      if !DuplicateFree(item.value) { ItemSpoils(read, item.value, more); }
    }
  }

  lemma ItemsEnd(read: seq<Tree>, s: string, depth: nat, first: bool)
    requires Closes(s, ']')
    ensures After(read, ItemsText(s, depth, first)) == Ok(read, SkipSpace(s)[1..])
  {
    AfterAll(read, SkipSpace(s)[1..]);
  }

  // What has been read of an object repeats no key and stands for the map so far.
  ghost predicate MembersStandFor(read: seq<Member>, values: map<string, Value>) {
    DuplicateFree(TObject(read)) && values == ToMap(read)
  }

  // A member that repeats no key so far, with a duplicate-free value.
  lemma MemberJoins(read: seq<Member>, values: map<string, Value>, m: Member)
    requires MembersStandFor(read, values) && m.key !in values && DuplicateFree(m.value)
    ensures MembersStandFor(read + [m], values[m.key := ToValue(m.value)])
  {
    ToMapSnoc(read, m);
    ToMapKeys(read, m.key);
    var more := read + [m];
    assert forall i :: 0 <= i < |read| ==> more[i] == read[i];
    assert more[|read|] == m;
  }

  lemma ToMapSnoc(read: seq<Member>, m: Member)
    ensures ToMap(read + [m]) == ToMap(read)[m.key := ToValue(m.value)]
  {
    assert (read + [m])[..|read|] == read;
  }

  // A repeated key, or a duplicate inside the value, spoils the whole object.
  lemma MemberSpoils(read: seq<Member>, m: Member, p: Parsed<seq<Member>>)
    requires m.key in ToMap(read) || !DuplicateFree(m.value)
    ensures var whole := After(read, Front(m, p)); whole.Ok? ==> !DuplicateFree(TObject(whole.value))
  {
    var whole := After(read, Front(m, p));
    if whole.Ok? {
      assert whole.value[|read|] == m;
      ToMapKeys(read, m.key);
      if m.key in ToMap(read) {
        var i :| 0 <= i < |read| && read[i].key == m.key;
        assert whole.value[i].key == whole.value[|read|].key;
      }
    }
  }

  // One member more.
  lemma MembersStep(read: seq<Member>, s: string, depth: nat, first: bool)
    requires !Closes(s, '}')
    ensures var at, whole := Separator(s, first, '}'), After(read, MembersText(s, depth, first));
      if at.Err? || KeyText(at.rest).Err? then whole.Err?
      else
        var key := KeyText(at.rest);
        var item := ValueText(key.rest, depth);
        if item.Err? then whole.Err?
        else if key.value in ToMap(read) || !DuplicateFree(item.value) then whole.Ok? ==> !DuplicateFree(TObject(whole.value))
        else whole == After(read + [Member(key.value, item.value)], MembersText(item.rest, depth, false))
  {
    var at := Separator(s, first, '}');
    if at.Ok? && KeyText(at.rest).Ok? {
      var key := KeyText(at.rest);
      var item := ValueText(key.rest, depth);
      if item.Ok? {
        var m, more := Member(key.value, item.value), MembersText(item.rest, depth, false);
        AfterOne(read, m, more);
        if m.key in ToMap(read) || !DuplicateFree(m.value) { MemberSpoils(read, m, more); }
      }
    }
  }

  lemma MembersEnd(read: seq<Member>, s: string, depth: nat, first: bool)
    requires Closes(s, '}')
    ensures After(read, MembersText(s, depth, first)) == Ok(read, SkipSpace(s)[1..])
  {
    AfterAll(read, SkipSpace(s)[1..]);
  }

  // A value behind space is a leaf, or an array or object one level down.
  lemma ValueCases(s: string, depth: nat)
    ensures var t, p := SkipSpace(s), ValueText(s, depth);
      if t == "" then p.Err?
      else if t[0] == '[' || t[0] == '{' then
        if depth <= 1 then p.Err?
        else if t[0] == '[' then
          var q := ItemsText(t[1..], depth - 1, true);
          p == if q.Ok? then Ok(TArray(q.value), q.rest) else Err
        else
          var q := MembersText(t[1..], depth - 1, true);
          p == if q.Ok? then Ok(TObject(q.value), q.rest) else Err
      else p == ValueText(t, depth)
  {
    assert SkipSpace(SkipSpace(s)) == SkipSpace(s);
  }

  class Deserializer {
    var rest: string
    var depth: nat

    constructor (text: string, limit: nat)
      ensures rest == text && depth == limit
    {
      rest, depth := text, limit;
    }

    // `r` and what is left of the input are what the grammar's reading `p`
    // says, or nothing if `p` failed or repeats a key somewhere.
    ghost predicate Agrees(r: Option<Value>, p: Parsed<Tree>)
      reads this
    {
      if p.Ok? && DuplicateFree(p.value) then r == Some(ToValue(p.value)) && rest == p.rest
      else r == None
    }

    method DeserializeAny() returns (r: Option<Value>)
      modifies this
      ensures Agrees(r, ValueText(old(rest), old(depth)))
      ensures r.Some? ==> depth == old(depth)
      decreases |rest|, 0, 1
    {
      ValueCases(rest, depth);
      rest := SkipSpace(rest);
      if rest == "" {
        r := None;
      } else if rest[0] == '[' || rest[0] == '{' {
        if depth <= 1 { return None; }
        r := Nested();
      } else {
        r := Leaf();
      }
    }

    // One level down, for the time of one array or object.
    method Nested() returns (r: Option<Value>)
      requires rest != "" && (rest[0] == '[' || rest[0] == '{') && depth > 1
      modifies this
      ensures Agrees(r, ValueText(old(rest), old(depth)))
      ensures r.Some? ==> depth == old(depth)
      decreases |rest|, 0, 0
    {
      ValueCases(rest, depth);
      assert SkipSpace(rest) == rest;
      var isSeq := rest[0] == '[';
      depth, rest := depth - 1, rest[1..];
      if isSeq { r := VisitSeq(); } else { r := VisitMap(); }
      depth := depth + 1;
    }

    method Leaf() returns (r: Option<Value>)
      requires rest != "" && !IsSpace(rest[0]) && rest[0] != '[' && rest[0] != '{'
      modifies this
      ensures Agrees(r, ValueText(old(rest), old(depth)))
      ensures depth == old(depth)
    {
      assert SkipSpace(rest) == rest;
      if rest[0] == '\"' {
        var p := StringBody(rest[1..]);
        if p.Err? { return None; }
        r, rest := Some(String(p.value)), p.rest;
      } else if rest[0] == '-' || '0' <= rest[0] <= '9' {
        var p := NumberText(rest);
        if p.Err? { return None; }
        r, rest := Some(Number(p.value)), p.rest;
      } else if StartsWith(rest, "null") {
        r, rest := Some(Null), rest[4..];
      } else if StartsWith(rest, "true") {
        r, rest := Some(Bool(true)), rest[4..];
      } else if StartsWith(rest, "false") {
        r, rest := Some(Bool(false)), rest[5..];
      } else {
        r := None;
      }
    }

    // Behind an opening bracket.
    method VisitSeq() returns (r: Option<Value>)
      modifies this
      ensures var p := ItemsText(old(rest), old(depth), true);
        Agrees(r, if p.Ok? then Ok(TArray(p.value), p.rest) else Err)
      ensures r.Some? ==> depth == old(depth)
      decreases |rest|, 1
    {
      var values: seq<Value> := [];
      ghost var read: seq<Tree> := [];
      ghost var whole := ItemsText(rest, depth, true);
      var first := true;
      AfterNothing(whole);
      while !Closes(rest, ']')
        invariant depth == old(depth) && |rest| <= old(|rest|)
        invariant whole == After(read, ItemsText(rest, depth, first))
        invariant ItemsStandFor(read, values)
        decreases |rest|
      {
        ItemsStep(read, rest, depth, first);
        var at := Separator(rest, first, ']');
        if at.Err? { return None; }
        ghost var item := ValueText(at.rest, depth);
        rest := at.rest;
        var value := DeserializeAny();
        if value.None? { return None; }
        ItemJoins(read, values, item.value);
        read := read + [item.value];
        values, first := values + [value.value], false;
      }
      ItemsEnd(read, rest, depth, first);
      rest := SkipSpace(rest)[1..];
      r := Some(Array(values));
    }

    // Behind an opening brace. A repeated name is an error before its value is read.
    method VisitMap() returns (r: Option<Value>)
      modifies this
      ensures var p := MembersText(old(rest), old(depth), true);
        Agrees(r, if p.Ok? then Ok(TObject(p.value), p.rest) else Err)
      ensures r.Some? ==> depth == old(depth)
      decreases |rest|, 1
    {
      var values: map<string, Value> := map[];
      ghost var read: seq<Member> := [];
      ghost var whole := MembersText(rest, depth, true);
      var first := true;
      AfterNothing(whole);
      while !Closes(rest, '}')
        invariant depth == old(depth) && |rest| <= old(|rest|)
        invariant whole == After(read, MembersText(rest, depth, first))
        invariant MembersStandFor(read, values)
        decreases |rest|
      {
        MembersStep(read, rest, depth, first);
        var at := Separator(rest, first, '}');
        if at.Err? { return None; }
        var key := KeyText(at.rest);
        if key.Err? || key.value in values { return None; }
        ghost var item := ValueText(key.rest, depth);
        rest := key.rest;
        var value := DeserializeAny();
        if value.None? { return None; }
        MemberJoins(read, values, Member(key.value, item.value));
        read := read + [Member(key.value, item.value)];
        values, first := values[key.value := value.value], false;
      }
      MembersEnd(read, rest, depth, first);
      rest := SkipSpace(rest)[1..];
      r := Some(Object(values));
    }
  }

  /** Accepts exactly the documents that mean something, with that meaning. */
  method ParseStrict(raw: string, limit: nat) returns (r: Option<Value>)
    ensures r == Meaning(raw, limit)
  {
    var deserializer := new Deserializer(raw, limit);
    r := deserializer.DeserializeAny();
    if r.Some? && SkipSpace(deserializer.rest) != "" {
      r := None;
    }
  }

  // ------------------------------------------------- what documents mean

  ghost predicate Denotes(s: string, t: Tree, v: Value, limit: nat) {
    IsDocument(s, t) && DuplicateFree(t) && ToValue(t) == v && Depth(t) < limit
  }

  /**
   * A document means a value exactly when it is, with any space and any
   * spelling of its strings, the text of a tree that repeats no key, nests
   * less deep than the limit and stands for that value.
   */
  lemma MeaningExactly(s: string, v: Value, limit: nat)
    requires limit > 0
    ensures Meaning(s, limit) == Some(v) <==> exists t :: Denotes(s, t, v, limit)
  {
    if Meaning(s, limit) == Some(v) {
      var t := Document(s, limit).value;
      DocumentExactly(s, t, limit);
      assert Denotes(s, t, v, limit);
    }
    if exists t :: Denotes(s, t, v, limit) {
      var t :| Denotes(s, t, v, limit);
      DocumentExactly(s, t, limit);
    }
  }

  /** A text of a tree that repeats a key, however the key is spelled, means nothing. */
  lemma RepeatedKeyMeansNothing(s: string, t: Tree, limit: nat)
    requires IsDocument(s, t) && !DuplicateFree(t) && limit > 0
    ensures Meaning(s, limit) == None
  {
    if Meaning(s, limit).Some? {
      DocumentExactly(s, Document(s, limit).value, limit);
      TreeIsUnique(s, t, Document(s, limit).value);
    }
  }

  const OPEN: string := "{"
  const CLOSE: string := "}"
  const COLON: string := ":"
  const COMMA: string := ","

  // An object of two members.
  function TwoMembers(first: string, one: string, second: string, two: string): string {
    OPEN + (first + (COLON + (one + (COMMA + (second + (COLON + (two + CLOSE)))))))
  }

  /** Two spellings of one name in an object, such as a character and its escape, are a repeated key. */
  lemma TwoSpellingsOfOneName(first: string, one: string, second: string, two: string, name: string, a: Tree, b: Tree, limit: nat)
    requires Quoted(first, name) && Quoted(second, name) && Writes(one, a) && Writes(two, b) && limit > 0
    ensures Meaning(TwoMembers(first, one, second, two), limit) == None
  {
    var members := [Member(name, a)] + [Member(name, b)];
    TwoMembersAreWritten(first, one, second, two, Member(name, a), Member(name, b));
    var body := first + (COLON + (one + (COMMA + (second + (COLON + (two + CLOSE))))));
    ObjectIsDocument(body, members);
    TwiceIsADuplicate(name, a, b);
    RepeatedKeyMeansNothing(OPEN + body, TObject(members), limit);
  }

  lemma TwiceIsADuplicate(name: string, a: Tree, b: Tree)
    ensures !DuplicateFree(TObject([Member(name, a)] + [Member(name, b)]))
  {
    var members := [Member(name, a)] + [Member(name, b)];
    assert members[0].key == members[1].key;
  }

  lemma TwoMembersAreWritten(first: string, one: string, second: string, two: string, m: Member, n: Member)
    requires Quoted(first, m.key) && Quoted(second, n.key) && Writes(one, m.value) && Writes(two, n.value)
    ensures WritesMembers(first + (COLON + (one + (COMMA + (second + (COLON + (two + CLOSE)))))), [m] + [n], true)
  {
    var tail := COMMA + (second + (COLON + (two + CLOSE)));
    MarksAreAround();
    WritesMembersCons(COMMA, false, second, COLON, two, n, CLOSE, []);
    assert [n] + [] == [n];
    WritesMembersCons("", true, first, COLON, one, m, tail, [n]);
    NothingInFront(first + (COLON + (one + tail)));
  }

  lemma NothingInFront(s: string)
    ensures "" + s == s
  {}

  lemma MarksAreAround()
    ensures Lead(COMMA, false) && Around(COLON, ':') && Ending(CLOSE, '}')
  {
    var comma, colon, close := COMMA, COLON, CLOSE;
    assert comma[0] == ',' && comma[..0] == "" && comma[1..] == "";
    assert colon[0] == ':' && colon[..0] == "" && colon[1..] == "";
    assert close[..0] == "";
  }

  lemma ObjectIsDocument(body: string, members: seq<Member>)
    requires WritesMembers(body, members, true)
    ensures IsDocument(OPEN + body, TObject(members))
  {
    Cons('{', body);
    assert OPEN + body == ['{'] + body;
    assert Writes(OPEN + body, TObject(members));
    assert Space("");
    assert OPEN + body == "" + ((OPEN + body) + "");
  }
}
