// Base64 with the standard alphabet and canonical padding (section 4 of RFC 4648).

module Base64 {
  import opened Utf8

  datatype Decoded = Bytes(bytes: seq<byte>) | Invalid

  function Symbol(i: int): (c: char)
    requires 0 <= i < 64
    ensures Index(c) == i && c != '='
  {
    if i < 26 then (i + 'A' as int) as char
    else if i < 52 then (i - 26 + 'a' as int) as char
    else if i < 62 then (i - 52 + '0' as int) as char
    else if i == 62 then '+' else '/'
  }

  function Index(c: char): (i: int)
    ensures -1 <= i < 64
  {
    if 'A' <= c <= 'Z' then c as int - 'A' as int
    else if 'a' <= c <= 'z' then c as int - 'a' as int + 26
    else if '0' <= c <= '9' then c as int - '0' as int + 52
    else if c == '+' then 62 else if c == '/' then 63 else -1
  }

  // Three bytes as four sextets, and back.
  type sextet = i: int | 0 <= i < 64

  function S0(a: byte): sextet { a / 4 }
  function S1(a: byte, b: byte): sextet { a % 4 * 16 + b / 16 }
  function S2(b: byte, c: byte): sextet { b % 16 * 4 + c / 64 }
  function S3(c: byte): sextet { c % 64 }
  function B0(i: sextet, j: sextet): byte { i * 4 + j / 16 }
  function B1(j: sextet, k: sextet): byte { j % 16 * 16 + k / 4 }
  function B2(k: sextet, l: sextet): byte { k % 4 * 64 + l }

  lemma Regrouped(a: byte, b: byte, c: byte)
    ensures B0(S0(a), S1(a, b)) == a && B1(S1(a, b), S2(b, c)) == b && B2(S2(b, c), S3(c)) == c
    ensures S1(a, 0) % 16 == 0 && S2(b, 0) % 4 == 0
  {}

  lemma RegroupedBack(i: sextet, j: sextet, k: sextet, l: sextet)
    ensures S0(B0(i, j)) == i && S1(B0(i, j), B1(j, k)) == j && S2(B1(j, k), B2(k, l)) == k && S3(B2(k, l)) == l
    ensures j % 16 == 0 ==> S1(B0(i, j), 0) == j
    ensures k % 4 == 0 ==> S2(B1(j, k), 0) == k
  {}

  /** The standard alphabet, in order. */
  lemma AlphabetExactly(i: int)
    requires 0 <= i < 64
    ensures i < 13 ==> Symbol(i) == "ABCDEFGHIJKLM"[i]
    ensures 13 <= i < 26 ==> Symbol(i) == "NOPQRSTUVWXYZ"[i - 13]
    ensures 26 <= i < 39 ==> Symbol(i) == "abcdefghijklm"[i - 26]
    ensures 39 <= i < 52 ==> Symbol(i) == "nopqrstuvwxyz"[i - 39]
    ensures 52 <= i ==> Symbol(i) == "0123456789+/"[i - 52]
  {}

  /** Three bytes and their four sextets are the same number, written in base 256 and in base 64. */
  lemma SameNumber(a: byte, b: byte, c: byte)
    ensures (a * 256 + b) * 256 + c == ((S0(a) * 64 + S1(a, b)) * 64 + S2(b, c)) * 64 + S3(c)
  {}

  function Encode(bs: seq<byte>): (s: string)
    ensures |s| == (|bs| + 2) / 3 * 4
  {
    if bs == [] then ""
    else if |bs| == 1 then [Symbol(S0(bs[0])), Symbol(S1(bs[0], 0)), '=', '=']
    else if |bs| == 2 then [Symbol(S0(bs[0])), Symbol(S1(bs[0], bs[1])), Symbol(S2(bs[1], 0)), '=']
    else
      [Symbol(S0(bs[0])), Symbol(S1(bs[0], bs[1])), Symbol(S2(bs[1], bs[2])), Symbol(S3(bs[2]))] + Encode(bs[3..])
  }

  // Unused trailing bits must be zero, and padding must be complete.
  function Decode(s: string): (d: Decoded)
    ensures d.Bytes? && s != "" ==> |d.bytes| < |s|
  {
    if s == "" then Bytes([])
    else if |s| < 4 then Invalid
    else
      var i, j, k, l := Index(s[0]), Index(s[1]), Index(s[2]), Index(s[3]);
      if i < 0 || j < 0 then Invalid
      else if |s| == 4 && s[2] == '=' && s[3] == '=' then
        if j % 16 == 0 then Bytes([B0(i, j)]) else Invalid
      else if k < 0 then Invalid
      else if |s| == 4 && s[3] == '=' then
        if k % 4 == 0 then Bytes([B0(i, j), B1(j, k)]) else Invalid
      else if l < 0 then Invalid
      else
        var rest := Decode(s[4..]);
        if rest.Invalid? then Invalid else Bytes([B0(i, j), B1(j, k), B2(k, l)] + rest.bytes)
  }

  lemma DecodeQuad(i: sextet, j: sextet, k: sextet, l: sextet, rest: string)
    ensures Decode([Symbol(i), Symbol(j), Symbol(k), Symbol(l)] + rest)
         == match Decode(rest)
            case Invalid => Invalid
            case Bytes(bs) => Bytes([B0(i, j), B1(j, k), B2(k, l)] + bs)
  {
    assert ([Symbol(i), Symbol(j), Symbol(k), Symbol(l)] + rest)[4..] == rest;
  }

  lemma EncodeTriple(a: byte, b: byte, c: byte, rest: seq<byte>)
    ensures Encode([a, b, c] + rest)
         == [Symbol(S0(a)), Symbol(S1(a, b)), Symbol(S2(b, c)), Symbol(S3(c))] + Encode(rest)
  {
    assert ([a, b, c] + rest)[3..] == rest;
  }

  lemma DecodeTwice(i: sextet, j: sextet)
    ensures Decode([Symbol(i), Symbol(j), '=', '=']) == if j % 16 == 0 then Bytes([B0(i, j)]) else Invalid
  {}

  lemma DecodeOnce(i: sextet, j: sextet, k: sextet)
    ensures Decode([Symbol(i), Symbol(j), Symbol(k), '=']) == if k % 4 == 0 then Bytes([B0(i, j), B1(j, k)]) else Invalid
  {}

  lemma EncodePadded(a: byte, b: byte)
    ensures Encode([a]) == [Symbol(S0(a)), Symbol(S1(a, 0)), '=', '=']
    ensures Encode([a, b]) == [Symbol(S0(a)), Symbol(S1(a, b)), Symbol(S2(b, 0)), '=']
  {}

  lemma OneByteSextets(a: byte)
    ensures B0(S0(a), S1(a, 0)) == a && S1(a, 0) % 16 == 0
  {}

  lemma OneByte(a: byte)
    ensures Decode(Encode([a])) == Bytes([a])
  {
    EncodePadded(a, a);
    OneByteSextets(a);
    DecodeTwice(S0(a), S1(a, 0));
  }

  lemma TwoBytes(a: byte, b: byte)
    ensures Decode(Encode([a, b])) == Bytes([a, b])
  {
    EncodePadded(a, b);
    Regrouped(a, b, 0);
    DecodeOnce(S0(a), S1(a, b), S2(b, 0));
  }

  /** Every byte string survives encoding and decoding. */
  lemma {:induction false} DecodeEncode(bs: seq<byte>)
    ensures Decode(Encode(bs)) == Bytes(bs)
  {
    if |bs| >= 3 {
      var a, b, c, rest := bs[0], bs[1], bs[2], bs[3..];
      assert bs == [a, b, c] + rest;
      EncodeTriple(a, b, c, rest);
      DecodeQuad(S0(a), S1(a, b), S2(b, c), S3(c), Encode(rest));
      Regrouped(a, b, c);
      DecodeEncode(rest);
    } else if |bs| == 2 {
      assert bs == [bs[0], bs[1]];
      TwoBytes(bs[0], bs[1]);
    } else if |bs| == 1 {
      assert bs == [bs[0]];
      OneByte(bs[0]);
    }
  }

  /** Only the canonical encoding decodes: decoding loses nothing of the text. */
  lemma {:induction false} EncodeDecode(s: string)
    requires Decode(s).Bytes?
    ensures Encode(Decode(s).bytes) == s
  {
    if s != "" {
      var i, j, k, l := Index(s[0]), Index(s[1]), Index(s[2]), Index(s[3]);
      SymbolIndex(s[0]);
      SymbolIndex(s[1]);
      SymbolIndex(s[2]);
      SymbolIndex(s[3]);
      if k < 0 {
        assert s == [Symbol(i), Symbol(j), '=', '='];
        DecodeTwice(i, j);
        RegroupedBack(i, j, 0, 0);
      } else if l < 0 {
        assert s == [Symbol(i), Symbol(j), Symbol(k), '='];
        DecodeOnce(i, j, k);
        RegroupedBack(i, j, k, 0);
      } else {
        var rest := s[4..];
        assert s == [s[0], s[1], s[2], s[3]] + rest;
        DecodeQuad(i, j, k, l, rest);
        EncodeTriple(B0(i, j), B1(j, k), B2(k, l), Decode(rest).bytes);
        RegroupedBack(i, j, k, l);
        EncodeDecode(rest);
      }
    }
  }

  lemma SymbolIndex(c: char)
    ensures Index(c) >= 0 ==> Symbol(Index(c)) == c
  {}

  // Encoded text is made of alphabet symbols and padding only.
  predicate IsText(c: char) { Index(c) >= 0 || c == '=' }

  lemma {:induction false} EncodeIsText(bs: seq<byte>, i: nat)
    requires i < |Encode(bs)|
    ensures IsText(Encode(bs)[i])
  {
    if |bs| >= 3 && i >= 4 { EncodeIsText(bs[3..], i - 4); }
  }
}

// The PEM text of a certificate (section 2 of RFC 7468).
module Pem {
  import opened Common
  import opened Utf8
  import Base64

  const BEGIN: string := "-----BEGIN CERTIFICATE-----\n"
  const END: string := "-----END CERTIFICATE-----\n"
  const WIDTH := 64

  function Lines(encoded: string): seq<string> {
    if encoded == "" then []
    else [encoded[..Min(WIDTH, |encoded|)]] + Lines(encoded[Min(WIDTH, |encoded|)..])
  }

  function Join(lines: seq<string>): string {
    if lines == [] then "" else lines[0] + "\n" + Join(lines[1..])
  }

  function Text(der: seq<byte>): string { BEGIN + Join(Lines(Base64.Encode(der))) + END }

  method CertificateDerToPem(der: seq<byte>) returns (pem: string)
    ensures pem == Text(der)
  {
    var encoded := Base64.Encode(der);
    pem := BEGIN;
    ghost var whole := pem + Join(Lines(encoded));
    var start := 0;
    assert encoded[0..] == encoded;
    while start < |encoded|
      invariant 0 <= start
      invariant pem + Join(Lines(encoded[Min(start, |encoded|)..])) == whole
    {
      var end := Min(start + 64, |encoded|);
      NextLine(pem, encoded, start, end);
      pem := pem + encoded[start..end];
      pem := pem + "\n";
      start := start + 64;
    }
    NoLineLeft(pem, encoded);
    pem := pem + END;
  }

  lemma NextLine(pem: string, encoded: string, start: nat, end: nat)
    requires start < |encoded| && end == Min(start + 64, |encoded|)
    ensures pem + Join(Lines(encoded[start..])) == pem + encoded[start..end] + "\n" + Join(Lines(encoded[end..]))
  {
    var left := encoded[start..];
    JoinFirst(pem, left);
    assert left[..end - start] == encoded[start..end] && left[end - start..] == encoded[end..];
  }

  lemma NoLineLeft(pem: string, encoded: string)
    ensures pem + Join(Lines(encoded[|encoded|..])) == pem
  {
    assert encoded[|encoded|..] == "" && pem + "" == pem;
  }

  lemma JoinFirst(pem: string, encoded: string)
    requires encoded != ""
    ensures var k := Min(WIDTH, |encoded|);
      pem + Join(Lines(encoded)) == pem + encoded[..k] + "\n" + Join(Lines(encoded[k..]))
  {
    var k := Min(WIDTH, |encoded|);
    var line, more := encoded[..k], Join(Lines(encoded[k..]));
    assert Lines(encoded)[1..] == Lines(encoded[k..]);
    Regroup(pem, line, "\n", more);
  }

  /** Every line holds exactly 64 symbols, but the last, which holds 1 to 64. */
  lemma {:induction false} LineLengths(encoded: string, i: nat)
    requires i < |Lines(encoded)|
    ensures |Lines(encoded)| == (|encoded| + 63) / 64
    ensures if i < |Lines(encoded)| - 1 then |Lines(encoded)[i]| == 64 else 1 <= |Lines(encoded)[i]| <= 64
  {
    var k := Min(WIDTH, |encoded|);
    var rest := Lines(encoded[k..]);
    if i > 0 {
      LineLengths(encoded[k..], i - 1);
    } else if rest != [] {
      LineLengths(encoded[k..], 0);
    }
  }

  // Reading PEM text: what stands between the armour, without the line ends.
  function Unwrap(pem: string): Base64.Decoded {
    if |pem| >= |BEGIN| + |END| && pem[..|BEGIN|] == BEGIN && pem[|pem| - |END|..] == END then
      Base64.Decode(WithoutNewlines(pem[|BEGIN|..|pem| - |END|]))
    else Base64.Invalid
  }

  function WithoutNewlines(s: string): string {
    if s == "" then "" else (if s[0] == '\n' then "" else [s[0]]) + WithoutNewlines(s[1..])
  }

  lemma WithoutNewlinesCons(c: char, s: string)
    ensures WithoutNewlines([c] + s) == (if c == '\n' then "" else [c]) + WithoutNewlines(s)
  {
    assert ([c] + s)[1..] == s;
  }

  lemma {:induction false} WithoutNewlinesConcat(s: string, t: string)
    ensures WithoutNewlines(s + t) == WithoutNewlines(s) + WithoutNewlines(t)
  {
    if s == "" {
      assert s + t == t;
    } else {
      var c, more := s[0], s[1..];
      assert s == [c] + more && s + t == [c] + (more + t);
      WithoutNewlinesCons(c, more);
      WithoutNewlinesCons(c, more + t);
      WithoutNewlinesConcat(more, t);
      Regroup(if c == '\n' then "" else [c], WithoutNewlines(more), WithoutNewlines(t), []);
    }
  }

  lemma {:induction false} NothingRemoved(s: string)
    requires '\n' !in s
    ensures WithoutNewlines(s) == s
  {
    if s != "" { NothingRemoved(s[1..]); }
  }

  lemma {:induction false} JoinUndone(encoded: string)
    requires '\n' !in encoded
    ensures WithoutNewlines(Join(Lines(encoded))) == encoded
  {
    if encoded != "" {
      var k := Min(WIDTH, |encoded|);
      var line, more := encoded[..k], encoded[k..];
      assert Lines(encoded)[1..] == Lines(more);
      JoinUndone(more);
      WithoutNewlinesConcat(line + "\n", Join(Lines(more)));
      WithoutNewlinesConcat(line, "\n");
      NothingRemoved(line);
      assert WithoutNewlines("\n") == "";
      assert encoded == line + more;
    }
  }

  /** Unwrapping the PEM text gives the certificate back. */
  lemma UnwrapText(der: seq<byte>)
    ensures Unwrap(Text(der)) == Base64.Bytes(der)
  {
    var encoded := Base64.Encode(der);
    var body := Join(Lines(encoded));
    var pem := Text(der);
    assert '\n' !in encoded by {
      if '\n' in encoded {
        var i :| 0 <= i < |encoded| && encoded[i] == '\n';
        Base64.EncodeIsText(der, i);
        assert false;
      }
    }
    JoinUndone(encoded);
    assert pem[..|BEGIN|] == BEGIN && pem[|pem| - |END|..] == END && pem[|BEGIN|..|pem| - |END|] == body;
    Base64.DecodeEncode(der);
  }

  /** The text starts and ends with the certificate armour lines. */
  lemma ArmourAround(der: seq<byte>)
    ensures var body := Join(Lines(Base64.Encode(der)));
      Text(der) == "-----BEGIN CERTIFICATE-----" + "\n" + body + "-----END CERTIFICATE-----" + "\n"
  {
    assert BEGIN == "-----BEGIN CERTIFICATE-----" + "\n" && END == "-----END CERTIFICATE-----" + "\n";
    var body := Join(Lines(Base64.Encode(der)));
    assert BEGIN + body + END == BEGIN + body + "-----END CERTIFICATE-----" + "\n";
  }

  /** Distinct certificates have distinct PEM texts. */
  lemma TextInjective(a: seq<byte>, b: seq<byte>)
    requires Text(a) == Text(b)
    ensures a == b
  {
    UnwrapText(a);
    UnwrapText(b);
  }
}
