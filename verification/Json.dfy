// JSON values, their syntax trees, and the canonical text of section 3.2 of RFC 8785.

module Json {
  import Decimal
  import Utf16

  // 2^53 - 1: integers up to here are exact IEEE 754 doubles, and their
  // shortest decimal form is the integer itself.
  const MAX_SAFE_INTEGER: int := 9007199254740991

  type SafeInt = n: int | -MAX_SAFE_INTEGER <= n <= MAX_SAFE_INTEGER

  // A parsed value. An object is a map: member order is not part of the value.
  datatype Value =
    | Null
    | Bool(b: bool)
    | Number(n: SafeInt)
    | String(text: string)
    | Array(items: seq<Value>)
    | Object(members: map<string, Value>)

  // A written value: members in the order in which they stand in the text,
  // where the same key may stand more than once.
  datatype Tree =
    | TNull
    | TBool(b: bool)
    | TNumber(n: SafeInt)
    | TString(text: string)
    | TArray(items: seq<Tree>)
    | TObject(members: seq<Member>)

  datatype Member = Member(key: string, value: Tree)

  // ---------------------------------------------------------------- text

  const HEX: string := "0123456789abcdef"

  function EscapeChar(c: char): (s: string)
    ensures |s| >= 1
  {
    if c == '\"' then "\\\""
    else if c == '\\' then "\\\\"
    else if c == '\U{8}' then "\\b"
    else if c == '\t' then "\\t"
    else if c == '\n' then "\\n"
    else if c == '\U{C}' then "\\f"
    else if c == '\r' then "\\r"
    else if c < ' ' then "\\u00" + [HEX[c as int / 16], HEX[c as int % 16]]
    else [c]
  }

  function Escape(s: string): string {
    if s == "" then "" else EscapeChar(s[0]) + Escape(s[1..])
  }

  function Quote(s: string): string { "\"" + Escape(s) + "\"" }

  function Print(t: Tree): string {
    match t
    case TNull => "null"
    case TBool(b) => if b then "true" else "false"
    case TNumber(n) => Decimal.Signed(n)
    case TString(text) => Quote(text)
    case TArray(items) => "[" + PrintItems(items, true)
    case TObject(members) => "{" + PrintMembers(members, true)
  }

  // What is left to print of an array or object once the items before are out.
  function PrintItems(items: seq<Tree>, first: bool): string {
    if items == [] then "]"
    else (if first then "" else ",") + Print(items[0]) + PrintItems(items[1..], false)
  }

  function PrintMembers(members: seq<Member>, first: bool): string {
    if members == [] then "}"
    else (if first then "" else ",") + Quote(members[0].key) + ":" + Print(members[0].value)
         + PrintMembers(members[1..], false)
  }

  // How many arrays and objects are open at the deepest point.
  function Depth(t: Tree): nat {
    match t
    case TArray(items) => 1 + DepthItems(items)
    case TObject(members) => 1 + DepthMembers(members)
    case _ => 0
  }

  function DepthItems(items: seq<Tree>): nat {
    if items == [] then 0 else Max(Depth(items[0]), DepthItems(items[1..]))
  }

  function DepthMembers(members: seq<Member>): nat {
    if members == [] then 0 else Max(Depth(members[0].value), DepthMembers(members[1..]))
  }

  function Max(a: nat, b: nat): nat { if a < b then b else a }

  // -------------------------------------------------- trees and values

  ghost predicate DistinctKeys(members: seq<Member>) {
    forall i, j :: 0 <= i < j < |members| ==> members[i].key != members[j].key
  }

  // No object at any depth repeats a key.
  ghost predicate DuplicateFree(t: Tree) {
    match t
    case TArray(items) => forall i :: 0 <= i < |items| ==> DuplicateFree(items[i])
    case TObject(members) =>
      DistinctKeys(members) && forall i :: 0 <= i < |members| ==> DuplicateFree(members[i].value)
    case _ => true
  }

  // The value a tree stands for: members are inserted one after the other.
  function ToValue(t: Tree): Value {
    match t
    case TNull => Null
    case TBool(b) => Bool(b)
    case TNumber(n) => Number(n)
    case TString(text) => String(text)
    case TArray(items) => Array(ToValues(items))
    case TObject(members) => Object(ToMap(members))
  }

  function ToValues(items: seq<Tree>): (values: seq<Value>)
    ensures |values| == |items|
    ensures forall i :: 0 <= i < |items| ==> values[i] == ToValue(items[i])
  {
    if items == [] then [] else ToValues(items[..|items| - 1]) + [ToValue(items[|items| - 1])]
  }

  function ToMap(members: seq<Member>): (m: map<string, Value>)
    ensures |m| <= |members|
  {
    if members == [] then map[]
    else
      var last := members[|members| - 1];
      ToMap(members[..|members| - 1])[last.key := ToValue(last.value)]
  }

  lemma {:induction false} ToMapKeys(members: seq<Member>, k: string)
    ensures k in ToMap(members) <==> exists i :: 0 <= i < |members| && members[i].key == k
  {
    if members != [] {
      var n := |members| - 1;
      var init := members[..n];
      ToMapKeys(init, k);
      assert forall i :: 0 <= i < n ==> init[i] == members[i];
      if k in ToMap(init) {
        var i :| 0 <= i < n && init[i].key == k;
        assert members[i].key == k;
      } else if exists i :: 0 <= i < |members| && members[i].key == k {
        var i :| 0 <= i < |members| && members[i].key == k;
        assert i == n;
      }
    }
  }

  lemma {:induction false} ToMapLooksUp(members: seq<Member>, i: nat)
    requires DistinctKeys(members) && i < |members|
    ensures members[i].key in ToMap(members) && ToMap(members)[members[i].key] == ToValue(members[i].value)
  {
    var n := |members| - 1;
    if i < n {
      ToMapLooksUp(members[..n], i);
      assert members[i].key != members[n].key;
    }
  }

  /** No member is dropped exactly when no key repeats. */
  lemma {:induction false} NoMemberDropped(members: seq<Member>)
    ensures |ToMap(members)| == |members| <==> DistinctKeys(members)
  {
    if members != [] {
      var n := |members| - 1;
      var init := members[..n];
      var k := members[n].key;
      NoMemberDropped(init);
      ToMapKeys(init, k);
      if k in ToMap(init) {
        var i :| 0 <= i < n && init[i].key == k;
        assert members[i].key == members[n].key;
        assert ToMap(members).Keys == ToMap(init).Keys;
      } else {
        assert ToMap(members).Keys == ToMap(init).Keys + {k};
        assert forall i :: 0 <= i < n ==> init[i].key == members[i].key;
      }
    }
  }

  // ------------------------------------------------------ canonical form

  ghost predicate KeysAscend(keys: seq<string>) {
    forall i, j :: 0 <= i < j < |keys| ==> Utf16.KeyBefore(keys[i], keys[j])
  }

  ghost function KeySet(keys: seq<string>): set<string> { set k | k in keys }

  ghost predicate IsLeast(least: string, keys: set<string>) {
    least in keys && forall k :: k in keys && k != least ==> Utf16.KeyBefore(least, k)
  }

  lemma LeastKeyExists(keys: set<string>)
    requires keys != {}
    ensures exists least :: IsLeast(least, keys)
    decreases |keys|
  {
    var k :| k in keys;
    if keys == {k} {
      assert IsLeast(k, keys);
    } else {
      LeastKeyExists(keys - {k});
      var l :| IsLeast(l, keys - {k});
      Utf16.KeyBeforeTotal(k, l);
      if Utf16.KeyBefore(k, l) {
        forall j | j in keys && j != k && j != l ensures Utf16.KeyBefore(k, j) {
          assert j in keys - {k};
          Utf16.BeforeTransitive(Utf16.Encode(k), Utf16.Encode(l), Utf16.Encode(j));
        }
        assert IsLeast(k, keys);
      } else {
        assert IsLeast(l, keys);
      }
    }
  }

  ghost function SortedKeys(keys: set<string>): (sorted: seq<string>)
    ensures KeySet(sorted) == keys
    decreases |keys|
  {
    if keys == {} then []
    else
      LeastKeyExists(keys);
      var least :| IsLeast(least, keys);
      var rest := SortedKeys(keys - {least});
      assert KeySet([least] + rest) == {least} + KeySet(rest);
      [least] + rest
  }

  lemma {:induction false} SortedKeysAscend(keys: set<string>)
    ensures KeysAscend(SortedKeys(keys))
    decreases |keys|
  {
    if keys != {} {
      var sorted := SortedKeys(keys);
      var least, rest := sorted[0], sorted[1..];
      assert IsLeast(least, keys) && rest == SortedKeys(keys - {least});
      SortedKeysAscend(keys - {least});
      forall i | 0 <= i < |rest| ensures Utf16.KeyBefore(least, rest[i]) {
        assert rest[i] in KeySet(rest);
      }
      forall i, j | 0 <= i < j < |sorted| ensures Utf16.KeyBefore(sorted[i], sorted[j]) {
        assert sorted[j] == rest[j - 1];
        assert i > 0 ==> sorted[i] == rest[i - 1];
      }
    }
  }

  /** Ascending order leaves no choice: a set of keys has one sorted listing. */
  lemma {:induction false} SortedListingUnique(a: seq<string>, b: seq<string>)
    requires KeysAscend(a) && KeysAscend(b) && KeySet(a) == KeySet(b)
    ensures a == b
  {
    assert b != [] ==> b[0] in KeySet(b);
    assert a != [] ==> a[0] in KeySet(a);
    if a != [] && b != [] {
      if a[0] != b[0] {
        var i :| 0 <= i < |b| && b[i] == a[0];
        var j :| 0 <= j < |a| && a[j] == b[0];
        Utf16.KeyBeforeAsymmetric(b[0], b[i]);
        assert false;
      }
      TailKeys(a);
      TailKeys(b);
      SortedListingUnique(a[1..], b[1..]);
    }
  }

  lemma TailKeys(keys: seq<string>)
    requires KeysAscend(keys) && keys != []
    ensures KeySet(keys[1..]) == KeySet(keys) - {keys[0]}
  {
    forall k | k in keys[1..] ensures k != keys[0] {
      var i :| 0 <= i < |keys[1..]| && keys[1..][i] == k;
      Utf16.KeyBeforeAsymmetric(keys[0], keys[i + 1]);
    }
    assert keys == [keys[0]] + keys[1..];
  }

  // The canonical tree of a value: every object lists its members in key order.
  ghost function Canonical(v: Value): Tree {
    match v
    case Null => TNull
    case Bool(b) => TBool(b)
    case Number(n) => TNumber(n)
    case String(text) => TString(text)
    case Array(items) => TArray(CanonicalItems(items))
    case Object(members) => TObject(CanonicalMembers(v, SortedKeys(members.Keys)))
  }

  ghost function CanonicalItems(items: seq<Value>): (trees: seq<Tree>)
    ensures |trees| == |items|
    ensures forall i :: 0 <= i < |items| ==> trees[i] == Canonical(items[i])
  {
    if items == [] then [] else [Canonical(items[0])] + CanonicalItems(items[1..])
  }

  ghost function CanonicalMembers(v: Value, keys: seq<string>): (members: seq<Member>)
    requires v.Object? && forall k :: k in keys ==> k in v.members
    ensures |members| == |keys|
    ensures forall i :: 0 <= i < |keys| ==> members[i] == Member(keys[i], Canonical(v.members[keys[i]]))
    decreases v, |keys|
  {
    if keys == [] then []
    else [Member(keys[0], Canonical(v.members[keys[0]]))] + CanonicalMembers(v, keys[1..])
  }

  ghost function CanonicalText(v: Value): string { Print(Canonical(v)) }

  ghost predicate AllDistinct(keys: seq<string>) {
    forall i, j :: 0 <= i < j < |keys| ==> keys[i] != keys[j]
  }

  lemma SortedKeysDistinct(keys: set<string>)
    ensures AllDistinct(SortedKeys(keys))
  {
    var sorted := SortedKeys(keys);
    SortedKeysAscend(keys);
    forall i, j | 0 <= i < j < |sorted| ensures sorted[i] != sorted[j] {
      Utf16.KeyBeforeAsymmetric(sorted[i], sorted[j]);
    }
  }

  // If each listed member stands for the map's entry, the list stands for the map.
  lemma MembersStandForMap(m: map<string, Value>, keys: seq<string>, members: seq<Member>)
    requires KeySet(keys) == m.Keys && |keys| == |members| && DistinctKeys(members)
    requires forall i :: 0 <= i < |members| ==> members[i].key == keys[i] && m[keys[i]] == ToValue(members[i].value)
    ensures ToMap(members) == m
  {
    var built := ToMap(members);
    forall k ensures k in built <==> k in m {
      ToMapKeys(members, k);
      if k in m {
        var i :| 0 <= i < |keys| && keys[i] == k;
        assert members[i].key == k;
      }
    }
    forall k | k in m ensures built[k] == m[k] {
      var i :| 0 <= i < |keys| && keys[i] == k;
      ToMapLooksUp(members, i);
    }
  }

  ghost predicate StandsFor(t: Tree, v: Value) { DuplicateFree(t) && ToValue(t) == v }

  /** The canonical tree repeats no key and stands for the value it came from. */
  lemma {:induction false} CanonicalStandsForValue(v: Value)
    ensures StandsFor(Canonical(v), v)
    decreases v
  {
    match v
    case Array(items) =>
      forall i | 0 <= i < |items| ensures StandsFor(CanonicalItems(items)[i], items[i]) {
        CanonicalStandsForValue(items[i]);
      }
      assert ToValues(CanonicalItems(items)) == items;
    case Object(m) =>
      forall k | k in m ensures StandsFor(Canonical(m[k]), m[k]) {
        CanonicalStandsForValue(m[k]);
      }
      var keys := SortedKeys(m.Keys);
      SortedKeysDistinct(m.Keys);
      CanonicalMembersStandForMap(v, keys, CanonicalMembers(v, keys));
    case _ =>
  }

  lemma CanonicalMembersStandForMap(v: Value, keys: seq<string>, members: seq<Member>)
    requires v.Object? && KeySet(keys) == v.members.Keys && AllDistinct(keys) && |members| == |keys|
    requires forall i :: 0 <= i < |keys| ==>
      members[i].key == keys[i] && keys[i] in v.members && StandsFor(members[i].value, v.members[keys[i]])
    ensures StandsFor(TObject(members), v)
  {
    MembersStandForMap(v.members, keys, members);
  }
}
