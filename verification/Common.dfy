// What several parts share.

module Common {
  datatype Option<+T> = Some(value: T) | None {
    function OrElse(default: T): T { if Some? then value else default }
  }

  function Min(a: nat, b: nat): nat { if a < b then a else b }

  /** Concatenation may be regrouped. */
  lemma Regroup<T>(data: seq<T>, a: seq<T>, b: seq<T>, c: seq<T>)
    ensures data + (a + b + c) == data + a + b + c
    ensures data + (a + b) == data + a + b
  {}

  lemma Cons<T>(x: T, more: seq<T>)
    ensures ([x] + more)[0] == x && ([x] + more)[1..] == more && |[x] + more| == |more| + 1
  {}

  lemma Split<T>(s: seq<T>, k: nat)
    requires k <= |s|
    ensures s == s[..k] + s[k..]
  {}
}
