// Canonical bytes of a value, the bytes a package signature covers, and what
// those bytes determine.

module SignedPayload {
  import opened Common
  import opened Json
  import opened JsonGrammar
  import opened JsonText
  import opened JsonRoundTrip
  import opened StrictJson
  import Decimal
  import Utf8
  import Utf16

  datatype Payload = Bytes(bytes: seq<Utf8.byte>) | NotAnObject | MissingSignature

  ghost function CanonicalBytes(v: Value): seq<Utf8.byte> { Utf8.Encode(CanonicalText(v)) }

  const SIGNATURE: string := "signature"

  // The object without its own `signature` member.
  ghost function Unsigned(v: Value): Value
    requires v.Object?
  {
    Object(v.members - {SIGNATURE})
  }

  class ByteBuffer {
    var data: seq<Utf8.byte>

    constructor ()
      ensures data == []
    {
      data := [];
    }

    method Extend(s: string)
      modifies this
      ensures data == old(data) + Utf8.Encode(s)
    {
      data := data + Utf8.Encode(s);
    }
  }

  // The members in whatever order the map yields them.
  method CollectKeys(m: map<string, Value>) returns (keys: seq<string>)
    ensures KeySet(keys) == m.Keys && AllDistinct(keys)
  {
    keys := [];
    var left := m.Keys;
    while left != {}
      invariant left <= m.Keys && KeySet(keys) == m.Keys - left && AllDistinct(keys)
      decreases |left|
    {
      var k :| k in left;
      KeySetSplice(keys, |keys|, k);
      assert forall i :: 0 <= i < |keys| ==> keys[i] in KeySet(keys);
      keys, left := keys + [k], left - {k};
    }
  }

  lemma KeySetSplice(keys: seq<string>, i: nat, key: string)
    requires i <= |keys|
    ensures KeySet(keys[..i] + [key] + keys[i..]) == KeySet(keys) + {key}
    ensures i == |keys| ==> keys[..i] + [key] + keys[i..] == keys + [key]
  {
    assert keys == keys[..i] + keys[i..];
  }

  // Sorting by UTF-16 code units, whatever the order before.
  method SortKeys(keys: seq<string>) returns (sorted: seq<string>)
    requires AllDistinct(keys)
    ensures KeySet(sorted) == KeySet(keys) && KeysAscend(sorted)
  {
    sorted := [];
    for n := 0 to |keys|
      invariant KeySet(sorted) == KeySet(keys[..n]) && KeysAscend(sorted)
    {
      assert forall i :: 0 <= i < |sorted| ==> sorted[i] in KeySet(sorted);
      assert keys[..n + 1] == keys[..n] + [keys[n]];
      KeySetSplice(keys[..n], n, keys[n]);
      sorted := InsertKey(sorted, keys[n]);
    }
    assert keys[..|keys|] == keys;
  }

  method InsertKey(sorted: seq<string>, key: string) returns (r: seq<string>)
    requires KeysAscend(sorted) && key !in sorted
    ensures KeySet(r) == KeySet(sorted) + {key} && KeysAscend(r)
  {
    var i := |sorted|;
    while i > 0 && Utf16.KeyBefore(key, sorted[i - 1])
      invariant 0 <= i <= |sorted|
      invariant forall j :: i <= j < |sorted| ==> Utf16.KeyBefore(key, sorted[j])
    {
      i := i - 1;
    }
    r := sorted[..i] + [key] + sorted[i..];
    KeySetSplice(sorted, i, key);
    SpliceAscends(sorted, i, key);
  }

  lemma SpliceAscends(sorted: seq<string>, i: nat, key: string)
    requires KeysAscend(sorted) && i <= |sorted| && key !in sorted
    requires i > 0 ==> !Utf16.KeyBefore(key, sorted[i - 1])
    requires forall j :: i <= j < |sorted| ==> Utf16.KeyBefore(key, sorted[j])
    ensures KeysAscend(sorted[..i] + [key] + sorted[i..])
  {
    forall j | 0 <= j < i ensures Utf16.KeyBefore(sorted[j], key) {
      Utf16.KeyBeforeTotal(sorted[i - 1], key);
      if j < i - 1 {
        Utf16.BeforeTransitive(Utf16.Encode(sorted[j]), Utf16.Encode(sorted[i - 1]), Utf16.Encode(key));
      }
    }
    var r := sorted[..i] + [key] + sorted[i..];
    forall j, k | 0 <= j < k < |r| ensures Utf16.KeyBefore(r[j], r[k]) {
      assert r[j] == if j < i then sorted[j] else if j == i then key else sorted[j - 1];
      assert r[k] == if k < i then sorted[k] else if k == i then key else sorted[k - 1];
    }
  }

  /** Appends exactly the canonical bytes of the value. */
  method WriteJcsValue(value: Value, output: ByteBuffer)
    modifies output
    ensures output.data == old(output.data) + CanonicalBytes(value)
    decreases value, 2
  {
    match value
    case Null => output.Extend("null");
    case Bool(b) => output.Extend(if b then "true" else "false");
    case Number(n) => output.Extend(Decimal.Signed(n));
    case String(text) => output.Extend(Quote(text));
    case Array(items) => WriteArray(value, output);
    case Object(members) => WriteObject(value, output);
  }

  method WriteArray(value: Value, output: ByteBuffer)
    requires value.Array?
    modifies output
    ensures output.data == old(output.data) + CanonicalBytes(value)
    decreases value, 1
  {
    ArrayOpens(output.data, value);
    output.Extend(OPEN_ARRAY);
    WriteItems(value, output);
  }

  method WriteObject(value: Value, output: ByteBuffer)
    requires value.Object?
    modifies output
    ensures output.data == old(output.data) + CanonicalBytes(value)
    decreases value, 1
  {
    var keys := CollectKeys(value.members);
    var sorted := SortKeys(keys);
    SortedIsCanonical(value.members.Keys, sorted);
    ObjectOpens(output.data, value, sorted);
    output.Extend(OPEN_OBJECT);
    WriteMembers(value, sorted, output);
  }

  lemma ArrayOpens(data: seq<Utf8.byte>, value: Value)
    requires value.Array?
    ensures data + CanonicalBytes(value)
         == data + Utf8.Encode(OPEN_ARRAY) + Utf8.Encode(PrintItems(CanonicalItems(value.items), true))
  {
    Utf8.EncodeConcat(OPEN_ARRAY, PrintItems(CanonicalItems(value.items), true));
    assert Canonical(value) == TArray(CanonicalItems(value.items));
  }

  lemma ObjectOpens(data: seq<Utf8.byte>, value: Value, sorted: seq<string>)
    requires value.Object? && sorted == SortedKeys(value.members.Keys)
    ensures data + CanonicalBytes(value)
         == data + Utf8.Encode(OPEN_OBJECT) + Utf8.Encode(PrintMembers(CanonicalMembers(value, sorted), true))
  {
    Utf8.EncodeConcat(OPEN_OBJECT, PrintMembers(CanonicalMembers(value, sorted), true));
    assert Canonical(value) == TObject(CanonicalMembers(value, sorted));
  }

  lemma SortedIsCanonical(keys: set<string>, sorted: seq<string>)
    requires KeySet(sorted) == keys && KeysAscend(sorted)
    ensures sorted == SortedKeys(keys)
  {
    SortedKeysAscend(keys);
    SortedListingUnique(sorted, SortedKeys(keys));
  }

  method WriteItems(value: Value, output: ByteBuffer)
    requires value.Array?
    modifies output
    ensures output.data == old(output.data) + Utf8.Encode(PrintItems(CanonicalItems(value.items), true))
    decreases value, 0
  {
    ghost var trees := CanonicalItems(value.items);
    ghost var whole := output.data + Utf8.Encode(PrintItems(trees, true));
    assert trees[0..] == trees;
    for index := 0 to |value.items|
      invariant output.data + Utf8.Encode(PrintItems(trees[index..], index == 0)) == whole
    {
      ghost var left := trees[index..];
      assert left[1..] == trees[index + 1..];
      ItemsLeft(output.data, left, index == 0);
      if index != 0 { output.Extend(SEPARATOR); }
      WriteJcsValue(value.items[index], output);
    }
    output.Extend("]");
  }

  method WriteKey(key: string, output: ByteBuffer)
    modifies output
    ensures output.data == old(output.data) + Utf8.Encode(Quote(key)) + Utf8.Encode(COLON)
  {
    output.Extend(Quote(key));
    output.Extend(COLON);
  }

  method WriteMembers(value: Value, sorted: seq<string>, output: ByteBuffer)
    requires value.Object? && sorted == SortedKeys(value.members.Keys)
    modifies output
    ensures output.data == old(output.data) + Utf8.Encode(PrintMembers(CanonicalMembers(value, sorted), true))
    decreases value, 0
  {
    assert forall k :: k in sorted ==> k in KeySet(sorted);
    ghost var listed := CanonicalMembers(value, sorted);
    ghost var whole := output.data + Utf8.Encode(PrintMembers(listed, true));
    assert listed[0..] == listed;
    for index := 0 to |sorted|
      invariant output.data + Utf8.Encode(PrintMembers(listed[index..], index == 0)) == whole
    {
      ghost var left := listed[index..];
      assert left[1..] == listed[index + 1..];
      MembersLeft(output.data, left, index == 0);
      if index != 0 { output.Extend(SEPARATOR); }
      WriteKey(sorted[index], output);
      WriteJcsValue(value.members[sorted[index]], output);
    }
    output.Extend("}");
  }

  const OPEN_ARRAY: string := "["
  const OPEN_OBJECT: string := "{"
  const SEPARATOR: string := ","
  const COLON: string := ":"

  lemma ItemsLeft(data: seq<Utf8.byte>, items: seq<Tree>, first: bool)
    requires items != []
    ensures data + Utf8.Encode(PrintItems(items, first))
         == (if first then data else data + Utf8.Encode(SEPARATOR))
            + Utf8.Encode(Print(items[0])) + Utf8.Encode(PrintItems(items[1..], false))
  {
    var sep, item, more := if first then "" else ",", Print(items[0]), PrintItems(items[1..], false);
    Utf8.EncodeConcat(sep + item, more);
    Utf8.EncodeConcat(sep, item);
    Regroup(data, Utf8.Encode(sep), Utf8.Encode(item), Utf8.Encode(more));
    assert data + Utf8.Encode("") == data;
  }

  lemma MembersLeft(data: seq<Utf8.byte>, members: seq<Member>, first: bool)
    requires members != []
    ensures data + Utf8.Encode(PrintMembers(members, first))
         == (if first then data else data + Utf8.Encode(SEPARATOR))
            + Utf8.Encode(Quote(members[0].key)) + Utf8.Encode(COLON)
            + Utf8.Encode(Print(members[0].value)) + Utf8.Encode(PrintMembers(members[1..], false))
  {
    var sep, key, value, more := if first then "" else ",", Quote(members[0].key), Print(members[0].value), PrintMembers(members[1..], false);
    Utf8.EncodeConcat(sep + key + ":" + value, more);
    Utf8.EncodeConcat(sep + key + ":", value);
    Utf8.EncodeConcat(sep + key, ":");
    Utf8.EncodeConcat(sep, key);
    Regroup(data, Utf8.Encode(sep) + Utf8.Encode(key) + Utf8.Encode(":"), Utf8.Encode(value), Utf8.Encode(more));
    Regroup(data, Utf8.Encode(sep), Utf8.Encode(key), Utf8.Encode(":"));
    assert data + Utf8.Encode("") == data;
  }

  /** The signed bytes cover every member but the top-level signature, which must be there. */
  method CanonicalSignedPayload(package: Value) returns (payload: Payload)
    ensures payload == SignedBytes(package)
  {
    if !package.Object? { return NotAnObject; }
    if SIGNATURE !in package.members { return MissingSignature; }
    var canonical := new ByteBuffer();
    WriteJcsValue(Object(package.members - {SIGNATURE}), canonical);
    payload := Bytes(canonical.data);
  }

  ghost function SignedBytes(package: Value): Payload {
    if !package.Object? then NotAnObject
    else if SIGNATURE !in package.members then MissingSignature
    else Bytes(CanonicalBytes(Unsigned(package)))
  }

  // ------------------------------------------------------------- theorems

  /**
   * Canonical text, whatever follows it, determines the value and where the
   * text ends: no canonical text is a proper prefix of another.
   */
  lemma CanonicalTextDetermines(a: Value, b: Value, x: string, y: string)
    requires NumberEnds(x) && NumberEnds(y) && CanonicalText(a) + x == CanonicalText(b) + y
    ensures a == b && x == y
  {
    PrintPrefixFree(Canonical(a), Canonical(b), x, y);
    CanonicalStandsForValue(a);
    CanonicalStandsForValue(b);
  }

  /** Of all texts whose tree stands for the value and lists keys in the same order, the canonical one is the shortest. */
  lemma CanonicalTextIsShortest(v: Value, s: string)
    requires Writes(s, Canonical(v))
    ensures |CanonicalText(v)| <= |s|
  {
    PrintIsShortest(s, Canonical(v));
  }

  /** Two values print to the same bytes exactly when they are the same value. */
  lemma CanonicalBytesInjective(a: Value, b: Value)
    ensures CanonicalBytes(a) == CanonicalBytes(b) <==> a == b
  {
    if CanonicalBytes(a) == CanonicalBytes(b) {
      Utf8.EncodeInjective(CanonicalText(a), CanonicalText(b));
      assert CanonicalText(a) + "" == CanonicalText(b) + "";
      CanonicalTextDetermines(a, b, "", "");
    }
  }

  /** Strict parsing undoes canonical printing exactly when the nesting limit allows it. */
  lemma ParseUndoesPrint(v: Value, limit: nat)
    requires limit > 0
    ensures Meaning(CanonicalText(v), limit) == if Depth(Canonical(v)) < limit then Some(v) else None
  {
    assert CanonicalText(v) + "" == CanonicalText(v);
    ValueReadsBack(Canonical(v), "", limit);
    CanonicalStandsForValue(v);
  }

  // Arrays inside one another.
  function Nest(n: nat): Value { if n == 0 then Null else Array([Nest(n - 1)]) }

  /** Some value nests too deep for any limit: its canonical text does not parse. */
  lemma {:induction false} TooDeepToParse(limit: nat)
    requires limit > 0
    ensures Meaning(CanonicalText(Nest(limit)), limit) == None
  {
    NestDepth(limit);
    ParseUndoesPrint(Nest(limit), limit);
  }

  lemma {:induction false} NestDepth(n: nat)
    ensures Depth(Canonical(Nest(n))) == n
  {
    if n > 0 {
      NestDepth(n - 1);
      assert CanonicalItems([Nest(n - 1)]) == [Canonical(Nest(n - 1))];
    }
  }

  lemma {:induction false} DepthItemsBound(items: seq<Tree>, bound: nat)
    ensures DepthItems(items) <= bound <==> forall i :: 0 <= i < |items| ==> Depth(items[i]) <= bound
  {
    if items != [] {
      DepthItemsBound(items[1..], bound);
      assert forall i :: 1 <= i < |items| ==> items[i] == items[1..][i - 1];
    }
  }

  lemma {:induction false} DepthMembersBound(members: seq<Member>, bound: nat)
    ensures DepthMembers(members) <= bound <==> forall i :: 0 <= i < |members| ==> Depth(members[i].value) <= bound
  {
    if members != [] {
      DepthMembersBound(members[1..], bound);
      assert forall i :: 1 <= i < |members| ==> members[i] == members[1..][i - 1];
    }
  }

  /** Sorting the members of a duplicate-free tree does not change how deep it nests. */
  lemma {:induction false} CanonicalDepth(t: Tree)
    requires DuplicateFree(t)
    ensures Depth(Canonical(ToValue(t))) <= Depth(t)
  {
    match t
    case TArray(items) =>
      DepthItemsBound(items, DepthItems(items));
      forall i | 0 <= i < |items| ensures Depth(CanonicalItems(ToValues(items))[i]) <= DepthItems(items) {
        CanonicalDepth(items[i]);
      }
      DepthItemsBound(CanonicalItems(ToValues(items)), DepthItems(items));
    case TObject(members) =>
      var v := ToValue(t);
      var keys := SortedKeys(v.members.Keys);
      DepthMembersBound(members, DepthMembers(members));
      forall i | 0 <= i < |keys| ensures Depth(Canonical(v.members[keys[i]])) <= DepthMembers(members) {
        assert keys[i] in KeySet(keys);
        ToMapKeys(members, keys[i]);
        var j :| 0 <= j < |members| && members[j].key == keys[i];
        ToMapLooksUp(members, j);
        CanonicalDepth(members[j].value);
      }
      DepthMembersBound(CanonicalMembers(v, keys), DepthMembers(members));
    case _ =>
  }

  /**
   * Canonicalising a parsed document gives a text that parses to the same
   * value again, under the same nesting limit.
   */
  lemma CanonicalFormIsStable(s: string, limit: nat)
    requires limit > 0 && Meaning(s, limit).Some?
    ensures Meaning(CanonicalText(Meaning(s, limit).value), limit) == Meaning(s, limit)
  {
    var t := Document(s, limit).value;
    DocumentRead(s, t, limit);
    CanonicalDepth(t);
    ParseUndoesPrint(ToValue(t), limit);
  }

  /** Bytes are signed exactly for objects with a signature; without an object, that is what is missing. */
  lemma SignedExactly(package: Value)
    ensures SignedBytes(package).Bytes? <==> package.Object? && "signature" in package.members
    ensures SignedBytes(package).NotAnObject? <==> !package.Object?
  {}

  /**
   * Two packages have the same signed bytes exactly when they agree on every
   * member but the top-level signature; members of that name further down
   * are part of the values compared.
   */
  lemma SignatureCoverage(a: Value, b: Value)
    requires SignedBytes(a).Bytes? && SignedBytes(b).Bytes?
    ensures SignedBytes(a) == SignedBytes(b)
       <==> forall k :: k != "signature" ==>
              (k in a.members <==> k in b.members) && (k in a.members ==> a.members[k] == b.members[k])
  {
    CanonicalBytesInjective(Unsigned(a), Unsigned(b));
    var x, y := Unsigned(a).members, Unsigned(b).members;
    assert forall k :: k in x <==> k in a.members && k != SIGNATURE;
    assert forall k :: k in y <==> k in b.members && k != SIGNATURE;
    if forall k :: k != SIGNATURE ==> (k in a.members <==> k in b.members) && (k in a.members ==> a.members[k] == b.members[k]) {
      assert x == y;
    }
    if x == y {
      forall k | k != SIGNATURE && k in a.members ensures k in b.members && a.members[k] == b.members[k] {
        assert k in x && x[k] == y[k];
      }
      forall k | k != SIGNATURE && k in b.members ensures k in a.members {
        assert k in y && k in x;
      }
    }
  }
}
