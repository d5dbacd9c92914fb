// Unicode encoding forms used by the verifier: UTF-8 for the bytes that are
// hashed and signed, UTF-16 code units for the order of object members.

module Utf8 {
  import opened Common

  type byte = b: int | 0 <= b < 0x100

  datatype Decoded = Valid(text: string) | Malformed

  function EncodeChar(c: char): (bs: seq<byte>)
    ensures 1 <= |bs| <= 4
  {
    var n := c as int;
    if n < 0x80 then [n]
    else if n < 0x800 then [0xC0 + n / 0x40, 0x80 + n % 0x40]
    else if n < 0x10000 then [0xE0 + n / 0x1000, 0x80 + n / 0x40 % 0x40, 0x80 + n % 0x40]
    else [0xF0 + n / 0x40000, 0x80 + n / 0x1000 % 0x40, 0x80 + n / 0x40 % 0x40, 0x80 + n % 0x40]
  }

  function Encode(s: string): (bs: seq<byte>)
    ensures |bs| >= |s|
  {
    if s == "" then [] else EncodeChar(s[0]) + Encode(s[1..])
  }

  predicate Trail(b: byte) { 0x80 <= b < 0xC0 }

  predicate IsScalar(n: int) { 0 <= n < 0xD800 || 0xE000 <= n <= 0x10FFFF }

  // The scalar value spread over a lead byte's bits and its trailing bytes.
  function Bits2(a: int, b: int): int { (a - 0xC0) * 0x40 + (b - 0x80) }
  function Bits3(a: int, b: int, c: int): int { (a - 0xE0) * 0x1000 + (b - 0x80) * 0x40 + (c - 0x80) }
  function Bits4(a: int, b: int, c: int, d: int): int {
    (a - 0xF0) * 0x40000 + (b - 0x80) * 0x1000 + (c - 0x80) * 0x40 + (d - 0x80)
  }

  // Strict decoding: overlong forms, surrogates and truncated sequences are malformed.
  function Decode(bs: seq<byte>): (d: Decoded)
    ensures d.Valid? ==> |d.text| <= |bs|
  {
    if bs == [] then Valid("")
    else if bs[0] < 0x80 then Prepend(bs[0], 0, Decode(bs[1..]))
    else if 0xC0 <= bs[0] < 0xE0 && |bs| >= 2 && Trail(bs[1]) then
      Prepend(Bits2(bs[0], bs[1]), 0x80, Decode(bs[2..]))
    else if 0xE0 <= bs[0] < 0xF0 && |bs| >= 3 && Trail(bs[1]) && Trail(bs[2]) then
      Prepend(Bits3(bs[0], bs[1], bs[2]), 0x800, Decode(bs[3..]))
    else if 0xF0 <= bs[0] < 0xF8 && |bs| >= 4 && Trail(bs[1]) && Trail(bs[2]) && Trail(bs[3]) then
      Prepend(Bits4(bs[0], bs[1], bs[2], bs[3]), 0x10000, Decode(bs[4..]))
    else Malformed
  }

  // Values below the least one that needs this length are overlong.
  function Prepend(n: int, least: nat, d: Decoded): Decoded {
    if d.Valid? && IsScalar(n) && n >= least then Valid([n as char] + d.text) else Malformed
  }

  lemma BitsRoundTrip(n: int)
    requires n >= 0
    ensures Bits2(0xC0 + n / 0x40, 0x80 + n % 0x40) == n
    ensures Bits3(0xE0 + n / 0x1000, 0x80 + n / 0x40 % 0x40, 0x80 + n % 0x40) == n
    ensures Bits4(0xF0 + n / 0x40000, 0x80 + n / 0x1000 % 0x40, 0x80 + n / 0x40 % 0x40, 0x80 + n % 0x40) == n
  {
    assert n / 0x1000 == n / 0x40 / 0x40;
    assert n / 0x40000 == n / 0x1000 / 0x40;
  }

  lemma DecodeFirst(c: char, bs: seq<byte>)
    ensures Decode(EncodeChar(c) + bs) == Prepend(c as int, 0, Decode(bs))
  {
    var e, n := EncodeChar(c), c as int;
    BitsRoundTrip(n);
    var all := e + bs;
    assert all[|e|..] == bs;
    if n >= 0x10000 {
      assert Decode(all) == Prepend(Bits4(e[0], e[1], e[2], e[3]), 0x10000, Decode(bs));
    } else if n >= 0x800 {
      assert Decode(all) == Prepend(Bits3(e[0], e[1], e[2]), 0x800, Decode(bs));
    }
  }

  /** Every text survives encoding and strict decoding. */
  lemma {:induction false} DecodeEncode(s: string)
    ensures Decode(Encode(s)) == Valid(s)
  {
    if s != "" {
      DecodeFirst(s[0], Encode(s[1..]));
      DecodeEncode(s[1..]);
      assert [s[0]] + s[1..] == s;
    }
  }

  // A sequence of bytes that decodes to a character is that character's encoding.
  lemma Bits2Back(a: int, b: int)
    requires 0xC0 <= a < 0xE0 && 0x80 <= b < 0xC0 && Bits2(a, b) >= 0x80
    ensures EncodeChar(Bits2(a, b) as char) == [a, b]
  {}

  lemma Bits3Back(a: int, b: int, c: int)
    requires 0xE0 <= a < 0xF0 && 0x80 <= b < 0xC0 && 0x80 <= c < 0xC0 && Bits3(a, b, c) >= 0x800 && IsScalar(Bits3(a, b, c))
    ensures EncodeChar(Bits3(a, b, c) as char) == [a, b, c]
  {
    var n, m := Bits3(a, b, c), (a - 0xE0) * 0x40 + (b - 0x80);
    assert n == m * 0x40 + (c - 0x80);
    assert n / 0x40 == m && n / 0x1000 == m / 0x40;
  }

  lemma Bits4Back(a: int, b: int, c: int, d: int)
    requires 0xF0 <= a < 0xF8 && 0x80 <= b < 0xC0 && 0x80 <= c < 0xC0 && 0x80 <= d < 0xC0
    requires Bits4(a, b, c, d) >= 0x10000 && IsScalar(Bits4(a, b, c, d))
    ensures EncodeChar(Bits4(a, b, c, d) as char) == [a, b, c, d]
  {
    var n, k := Bits4(a, b, c, d), (a - 0xF0) * 0x40 + (b - 0x80);
    var m := k * 0x40 + (c - 0x80);
    assert n == m * 0x40 + (d - 0x80);
    assert n / 0x40 == m && m / 0x40 == k && n / 0x1000 == m / 0x40 && n / 0x40000 == k / 0x40;
  }

  lemma DecodedFirst(bs: seq<byte>) returns (c: char, k: nat)
    requires bs != [] && Decode(bs).Valid?
    ensures 0 < k <= |bs| && Decode(bs[k..]).Valid? && Decode(bs).text == [c] + Decode(bs[k..]).text
    ensures EncodeChar(c) == bs[..k]
  {
    if bs[0] < 0x80 {
      c, k := bs[0] as char, 1;
    } else if bs[0] < 0xE0 {
      Bits2Back(bs[0], bs[1]);
      c, k := Bits2(bs[0], bs[1]) as char, 2;
    } else if bs[0] < 0xF0 {
      Bits3Back(bs[0], bs[1], bs[2]);
      c, k := Bits3(bs[0], bs[1], bs[2]) as char, 3;
    } else {
      Bits4Back(bs[0], bs[1], bs[2], bs[3]);
      c, k := Bits4(bs[0], bs[1], bs[2], bs[3]) as char, 4;
    }
  }

  /** Decoding is strict: only the encoding of a text decodes to it. */
  lemma {:induction false} EncodeDecode(bs: seq<byte>)
    requires Decode(bs).Valid?
    ensures Encode(Decode(bs).text) == bs
    decreases |bs|
  {
    if bs != [] {
      var c, k := DecodedFirst(bs);
      EncodeDecode(bs[k..]);
      EncodeCons(c, Decode(bs[k..]).text);
      Split(bs, k);
    }
  }

  /** Distinct texts have distinct bytes. */
  lemma EncodeInjective(s: string, t: string)
    requires Encode(s) == Encode(t)
    ensures s == t
  {
    DecodeEncode(s);
    DecodeEncode(t);
  }

  lemma EncodeCons(c: char, rest: string)
    ensures Encode([c] + rest) == EncodeChar(c) + Encode(rest)
  {
    assert ([c] + rest)[1..] == rest;
  }

  lemma {:induction false} EncodeConcat(s: string, t: string)
    ensures Encode(s + t) == Encode(s) + Encode(t)
  {
    if s == "" {
      assert s + t == t;
    } else {
      var c, more := s[0], s[1..];
      assert s == [c] + more && s + t == [c] + (more + t);
      EncodeCons(c, more);
      EncodeCons(c, more + t);
      EncodeConcat(more, t);
      Regroup(EncodeChar(c), Encode(more), Encode(t), []);
    }
  }
}

module Utf16 {
  import opened Common

  type CodeUnit = u: int | 0 <= u < 0x10000

  function EncodeChar(c: char): (us: seq<CodeUnit>)
    ensures 1 <= |us| <= 2
  {
    var n := c as int;
    if n < 0x10000 then [n]
    else [0xD800 + (n - 0x10000) / 0x400, 0xDC00 + (n - 0x10000) % 0x400]
  }

  function Encode(s: string): seq<CodeUnit> {
    if s == "" then [] else EncodeChar(s[0]) + Encode(s[1..])
  }

  // Lexicographic order; a proper prefix comes first.
  predicate Before(a: seq<CodeUnit>, b: seq<CodeUnit>) {
    b != [] && (a == [] || a[0] < b[0] || (a[0] == b[0] && Before(a[1..], b[1..])))
  }

  // The member order of section 3.2.3 of RFC 8785.
  predicate KeyBefore(a: string, b: string) {
    Before(Encode(a), Encode(b))
  }

  // Where a character stands in the member order: characters outside the
  // Basic Multilingual Plane lie between U+D7FF and U+E000.
  function Rank(c: char): nat {
    var n := c as int;
    if n < 0xD800 then n else if n < 0x10000 then n + 0x100000 else n - 0x10000 + 0xD800
  }

  lemma FirstCharacterDecides(c: char, d: char, x: string, y: string)
    requires c != d
    ensures KeyBefore([c] + x, [d] + y) <==> Rank(c) < Rank(d)
  {
    var a, b := Encode([c] + x), Encode([d] + y);
    assert ([c] + x)[1..] == x && ([d] + y)[1..] == y;
    assert a == EncodeChar(c) + Encode(x) && b == EncodeChar(d) + Encode(y);
    if c as int >= 0x10000 && d as int >= 0x10000 {
      assert a[1] == EncodeChar(c)[1] && b[1] == EncodeChar(d)[1];
      assert Before(a[1..], b[1..]) <==> (a[1] < b[1] || (a[1] == b[1] && Before(a[1..][1..], b[1..][1..])));
      RankPairs(c as int - 0x10000, d as int - 0x10000);
    }
  }

  lemma RankPairs(m: nat, n: nat)
    requires m != n
    ensures m < n <==> (m / 0x400 < n / 0x400 || (m / 0x400 == n / 0x400 && m % 0x400 < n % 0x400))
    ensures m / 0x400 != n / 0x400 || m % 0x400 != n % 0x400
  {}

  lemma {:induction false} CommonPrefixIgnored(p: seq<CodeUnit>, a: seq<CodeUnit>, b: seq<CodeUnit>)
    ensures Before(p + a, p + b) <==> Before(a, b)
  {
    if p == [] {
      assert p + a == a && p + b == b;
    } else {
      CommonPrefixIgnored(p[1..], a, b);
      assert (p + a)[1..] == p[1..] + a && (p + b)[1..] == p[1..] + b;
    }
  }

  lemma {:induction false} EncodeConcat(s: string, t: string)
    ensures Encode(s + t) == Encode(s) + Encode(t)
  {
    if s == "" {
      assert s + t == t;
    } else {
      var c, more := s[0], s[1..];
      assert s == [c] + more && s + t == [c] + (more + t);
      EncodeCons(c, more);
      EncodeCons(c, more + t);
      EncodeConcat(more, t);
      Regroup(EncodeChar(c), Encode(more), Encode(t), []);
    }
  }

  lemma EncodeCons(c: char, rest: string)
    ensures Encode([c] + rest) == EncodeChar(c) + Encode(rest)
  {
    assert ([c] + rest)[1..] == rest;
  }

  /**
   * Behind whatever two keys have in common, the first differing character
   * decides, by its rank rather than by its code point.
   */
  lemma FirstDifferenceDecides(common: string, c: char, d: char, x: string, y: string)
    requires c != d
    ensures KeyBefore(common + ([c] + x), common + ([d] + y)) <==> Rank(c) < Rank(d)
  {
    EncodeConcat(common, [c] + x);
    EncodeConcat(common, [d] + y);
    CommonPrefixIgnored(Encode(common), Encode([c] + x), Encode([d] + y));
    FirstCharacterDecides(c, d, x, y);
  }

  /** A key comes before every key that it is a proper prefix of. */
  lemma PrefixComesFirst(a: string, c: char, x: string)
    ensures KeyBefore(a, a + ([c] + x)) && !KeyBefore(a + ([c] + x), a)
  {
    EncodeConcat(a, [c] + x);
    EncodeCons(c, x);
    CommonPrefixIgnored(Encode(a), [], Encode([c] + x));
    CommonPrefixIgnored(Encode(a), Encode([c] + x), []);
    assert Encode(a) + [] == Encode(a);
  }

  // The keys are the same up to k, where the first one ends or has the lower rank.
  ghost predicate LowerAt(a: string, b: string, k: nat) {
    && k <= |a| && k < |b| && a[..k] == b[..k]
    && (k == |a| || Rank(a[k]) < Rank(b[k]))
  }

  /** The whole order: one key comes before another exactly if at some place it has ended or has the lower rank. */
  lemma KeyBeforeExactly(a: string, b: string)
    ensures KeyBefore(a, b) <==> exists k: nat :: LowerAt(a, b, k)
  {
    forall k: nat | LowerAt(a, b, k) ensures KeyBefore(a, b) {
      LowerIsBefore(a, b, k);
    }
    if KeyBefore(a, b) {
      KeyBeforeAsymmetric(a, b);
      var k := FirstDifference(a, b);
      if LowerAt(b, a, k) { LowerIsBefore(b, a, k); }
      assert LowerAt(a, b, k);
    }
  }

  lemma LowerIsBefore(a: string, b: string, k: nat)
    requires LowerAt(a, b, k)
    ensures KeyBefore(a, b)
  {
    assert b == a[..k] + ([b[k]] + b[k + 1..]);
    if k == |a| {
      assert a[..k] == a;
      PrefixComesFirst(a, b[k], b[k + 1..]);
    } else {
      assert a == a[..k] + ([a[k]] + a[k + 1..]);
      FirstDifferenceDecides(a[..k], a[k], b[k], a[k + 1..], b[k + 1..]);
    }
  }

  lemma {:induction false} FirstDifference(a: string, b: string) returns (k: nat)
    requires a != b
    ensures LowerAt(a, b, k) || LowerAt(b, a, k)
    decreases |a|
  {
    if a == "" || b == "" {
      k := 0;
    } else if a[0] != b[0] {
      k := 0;
      RankInjective(a[0], b[0]);
    } else {
      var m := FirstDifference(a[1..], b[1..]);
      k := m + 1;
      assert a[..k] == [a[0]] + a[1..][..m];
      assert b[..k] == [b[0]] + b[1..][..m];
    }
  }

  lemma RankInjective(c: char, d: char)
    requires c != d
    ensures Rank(c) != Rank(d)
  {}

  lemma {:induction false} BeforeIrreflexive(a: seq<CodeUnit>)
    ensures !Before(a, a)
  {
    if a != [] { BeforeIrreflexive(a[1..]); }
  }

  /** Any two distinct keys are ordered: the order is total. */
  lemma {:induction false} KeyBeforeTotal(a: string, b: string)
    requires a != b
    ensures KeyBefore(a, b) || KeyBefore(b, a)
  {
    if a == "" || b == "" {
    } else if a[0] == b[0] {
      KeyBeforeTotal(a[1..], b[1..]);
      CommonPrefixIgnored(EncodeChar(a[0]), Encode(a[1..]), Encode(b[1..]));
      CommonPrefixIgnored(EncodeChar(a[0]), Encode(b[1..]), Encode(a[1..]));
    } else {
      assert [a[0]] + a[1..] == a && [b[0]] + b[1..] == b;
      FirstCharacterDecides(a[0], b[0], a[1..], b[1..]);
      FirstCharacterDecides(b[0], a[0], b[1..], a[1..]);
      assert Rank(a[0]) != Rank(b[0]);
    }
  }

  lemma {:induction false} BeforeTransitive(a: seq<CodeUnit>, b: seq<CodeUnit>, c: seq<CodeUnit>)
    requires Before(a, b) && Before(b, c)
    ensures Before(a, c)
  {
    if a != [] && a[0] == b[0] && b[0] == c[0] {
      BeforeTransitive(a[1..], b[1..], c[1..]);
    }
  }

  /** No two keys precede each other, and a key never precedes itself. */
  lemma KeyBeforeAsymmetric(a: string, b: string)
    requires KeyBefore(a, b)
    ensures a != b && !KeyBefore(b, a)
  {
    BeforeIrreflexive(Encode(a));
    if KeyBefore(b, a) {
      BeforeTransitive(Encode(a), Encode(b), Encode(a));
    }
  }
}
