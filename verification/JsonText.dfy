// What counts as the text of a tree (RFC 8259), stated without the parser, and
// that the parser reads exactly these texts.

module JsonText {
  import opened Common
  import opened Json
  import opened JsonGrammar
  import Decimal
  import Utf16

  // ------------------------------------------------------------ spellings

  predicate Space(w: string) { forall i :: 0 <= i < |w| ==> w[i] in " \t\n\r" }

  const LOWER: string := "0123456789abcdef"
  const UPPER: string := "0123456789ABCDEF"

  predicate HexDigit(c: char, d: int) { 0 <= d < 16 && (c == LOWER[d] || c == UPPER[d]) }

  // A number in hexadecimal digits, in either case.
  predicate Hex(h: string, u: int) {
    if h == "" then u == 0
    else HexDigit(h[|h| - 1], u % 0x10) && Hex(h[..|h| - 1], u / 0x10)
  }

  // The letters of the two-character escapes and what they stand for.
  const LETTERS: string := "\"\\/bfnrt"
  const MEANINGS: string := "\"\\/\U{8}\U{C}\n\r\t"

  predicate PlainSpelling(e: string, c: char) { e == [c] && c >= ' ' && c != '\"' && c != '\\' }

  predicate ShortSpelling(e: string, c: char) {
    |e| == 2 && e[0] == '\\' && exists k :: 0 <= k < 8 && LETTERS[k] == e[1] && MEANINGS[k] == c
  }

  predicate UnitSpelling(e: string, u: int) { |e| == 6 && e[..2] == "\\u" && Hex(e[2..], u) }

  // One or two escapes, as many as the character has UTF-16 code units.
  predicate UnicodeSpelling(e: string, c: char) {
    var units := Utf16.EncodeChar(c);
    if |units| == 1 then UnitSpelling(e, units[0])
    else |e| == 12 && UnitSpelling(e[..6], units[0]) && UnitSpelling(e[6..], units[1])
  }

  predicate SpellsChar(e: string, c: char) { PlainSpelling(e, c) || ShortSpelling(e, c) || UnicodeSpelling(e, c) }

  ghost predicate SpellsText(s: string, text: string)
    decreases |text|
  {
    if text == "" then s == ""
    else exists e, more :: SpellsChar(e, text[0]) && SpellsText(more, text[1..]) && s == e + more
  }

  ghost predicate Quoted(s: string, text: string) {
    exists body :: SpellsText(body, text) && s == QUOTE + body + QUOTE
  }

  // ---------------------------------------------------------------- trees

  // What stands between an opening bracket or an item and the next item.
  ghost predicate Lead(w: string, first: bool) {
    if first then Space(w) else Around(w, ',')
  }

  ghost predicate Around(w: string, mark: char) {
    exists k :: 0 <= k < |w| && w[k] == mark && Space(w[..k]) && Space(w[k + 1..])
  }

  ghost predicate Ending(s: string, close: char) {
    s != "" && s[|s| - 1] == close && Space(s[..|s| - 1])
  }

  // The text of a tree: any spelling of its strings, any space between its tokens.
  ghost predicate Writes(s: string, t: Tree)
    decreases t, 0
  {
    match t
    case TNull => s == "null"
    case TBool(b) => s == if b then "true" else "false"
    case TNumber(n) => WritesNumber(s, n)
    case TString(text) => Quoted(s, text)
    case TArray(items) => s != "" && s[0] == '[' && WritesItems(s[1..], items, true)
    case TObject(members) => s != "" && s[0] == '{' && WritesMembers(s[1..], members, true)
  }

  ghost predicate WritesItems(s: string, items: seq<Tree>, first: bool)
    decreases items, 1
  {
    if items == [] then Ending(s, ']')
    else exists lead, text, more ::
      && Lead(lead, first) && Writes(text, items[0]) && WritesItems(more, items[1..], false)
      && s == lead + (text + more)
  }

  ghost predicate WritesMembers(s: string, members: seq<Member>, first: bool)
    decreases members, 1
  {
    if members == [] then Ending(s, '}')
    else exists lead, key, colon, text, more ::
      && Lead(lead, first) && Quoted(key, members[0].key) && Around(colon, ':')
      && Writes(text, members[0].value) && WritesMembers(more, members[1..], false)
      && s == lead + (key + (colon + (text + more)))
  }

  ghost predicate IsDocument(s: string, t: Tree) {
    exists before, text, after :: Space(before) && Writes(text, t) && Space(after) && s == before + (text + after)
  }

  // ---------------------------------------------------------------- space

  lemma {:induction false} SkipsSpace(w: string, s: string)
    requires Space(w)
    ensures SkipSpace(w + s) == SkipSpace(s)
  {
    if w == "" {
      assert w + s == s;
    } else {
      assert (w + s)[1..] == w[1..] + s;
      SkipsSpace(w[1..], s);
    }
  }

  lemma {:induction false} SkippedSpace(s: string) returns (w: string)
    ensures Space(w) && s == w + SkipSpace(s)
  {
    if s != "" && IsSpace(s[0]) {
      var more := SkippedSpace(s[1..]);
      w := [s[0]] + more;
    } else {
      w := "";
    }
  }

  lemma AroundParts(w: string, mark: char) returns (before: string, after: string)
    requires Around(w, mark)
    ensures Space(before) && Space(after) && w == before + ([mark] + after)
  {
    var k :| 0 <= k < |w| && w[k] == mark && Space(w[..k]) && Space(w[k + 1..]);
    before, after := w[..k], w[k + 1..];
  }

  // Skipping space finds the mark, and behind it the same as behind its space.
  lemma SkipsAround(w: string, mark: char, s: string) returns (behind: string)
    requires Around(w, mark) && !IsSpace(mark)
    ensures SkipSpace(w + s) == [mark] + behind && SkipSpace(behind) == SkipSpace(s)
  {
    var before, after := AroundParts(w, mark);
    behind := after + s;
    SkipsSpace(after, s);
    SkipsSpace(before, [mark] + behind);
    StopsAtMark(mark, behind);
    MarkRegroup(before, mark, after, s);
  }

  lemma StopsAtMark(mark: char, behind: string)
    requires !IsSpace(mark)
    ensures SkipSpace([mark] + behind) == [mark] + behind
  {}

  lemma MarkRegroup(before: string, mark: char, after: string, s: string)
    ensures before + ([mark] + after) + s == before + ([mark] + (after + s))
  {}

  // -------------------------------------------------------------- strings

  lemma HexDigitReads(c: char, d: int)
    ensures HexDigit(c, d) <==> 0 <= d == HexValue(c)
  {}

  // Four digits, one by one.
  lemma FourDigits(h: string, u: int)
    requires |h| == 4
    ensures Hex(h, u) <==>
      && HexDigit(h[3], u % 0x10) && HexDigit(h[2], u / 0x10 % 0x10) && HexDigit(h[1], u / 0x10 / 0x10 % 0x10)
      && HexDigit(h[0], u / 0x10 / 0x10 / 0x10 % 0x10) && u / 0x10 / 0x10 / 0x10 / 0x10 == 0
  {
    LastDigit(h, u);
    LastDigit(h[..3], u / 0x10);
    LastDigit(h[..3][..2], u / 0x10 / 0x10);
    LastDigit(h[..3][..2][..1], u / 0x10 / 0x10 / 0x10);
  }

  lemma LastDigit(h: string, u: int)
    requires h != ""
    ensures Hex(h, u) <==> HexDigit(h[|h| - 1], u % 0x10) && Hex(h[..|h| - 1], u / 0x10)
    ensures |h| == 1 ==> (Hex(h[..|h| - 1], u / 0x10) <==> u / 0x10 == 0)
  {
    if |h| == 1 { assert h[..0] == ""; }
  }

  lemma Places(u: int)
    requires 0 <= u / 0x10 / 0x10 / 0x10 < 0x10
    ensures u == u / 0x10 / 0x10 / 0x10 * 0x1000 + u / 0x10 / 0x10 % 0x10 * 0x100 + u / 0x10 % 0x10 * 0x10 + u % 0x10
  {}

  lemma Place(high: int, d: int)
    requires 0 <= d < 0x10
    ensures (high * 0x10 + d) / 0x10 == high && (high * 0x10 + d) % 0x10 == d
  {}

  lemma HexReads(h: string, u: int, rest: string)
    requires |h| == 4 && Hex(h, u)
    ensures Hex4(h + rest) == u && (h + rest)[4..] == rest
  {
    FourDigits(h, u);
    HexDigitReads(h[0], u / 0x10 / 0x10 / 0x10 % 0x10);
    HexDigitReads(h[1], u / 0x10 / 0x10 % 0x10);
    HexDigitReads(h[2], u / 0x10 % 0x10);
    HexDigitReads(h[3], u % 0x10);
    var s := h + rest;
    assert s[0] == h[0] && s[1] == h[1] && s[2] == h[2] && s[3] == h[3];
    Places(u);
  }

  // Four digits make a number whose places they are.
  lemma FourPlaces(a: int, b: int, c: int, d: int)
    requires 0 <= a < 0x10 && 0 <= b < 0x10 && 0 <= c < 0x10 && 0 <= d < 0x10
    ensures var u := a * 0x1000 + b * 0x100 + c * 0x10 + d;
      && u % 0x10 == d && u / 0x10 % 0x10 == c && u / 0x10 / 0x10 % 0x10 == b && u / 0x10 / 0x10 / 0x10 % 0x10 == a
      && u / 0x10 / 0x10 / 0x10 / 0x10 == 0
  {
    Place((a * 0x10 + b) * 0x10 + c, d);
    Place(a * 0x10 + b, c);
    Place(a, b);
  }

  lemma HexRead(s: string)
    requires Hex4(s) >= 0
    ensures Hex(s[..4], Hex4(s))
  {
    var h := s[..4];
    var a, b, c, d := HexValue(s[0]), HexValue(s[1]), HexValue(s[2]), HexValue(s[3]);
    HexDigitReads(h[0], a);
    HexDigitReads(h[1], b);
    HexDigitReads(h[2], c);
    HexDigitReads(h[3], d);
    FourPlaces(a, b, c, d);
    FourDigits(h, Hex4(s));
  }

  lemma UnitReads(e: string, u: int, rest: string)
    requires UnitSpelling(e, u)
    ensures var s := e + rest;
      s[0] == '\\' && s[1] == 'u' && s[..2] == "\\u" && s[2..] == e[2..] + rest && Hex4(s[2..]) == u && s[2..][4..] == rest
  {
    assert e[0] == e[..2][0] && e[1] == e[..2][1];
    HexReads(e[2..], u, rest);
  }

  // A spelling in front of any text reads as its character.
  lemma SpelledCharReads(e: string, c: char, rest: string)
    requires SpellsChar(e, c)
    ensures StringBody(e + rest) == Push(c, StringBody(rest))
  {
    if PlainSpelling(e, c) {
      assert ([c] + rest)[1..] == rest;
    } else if ShortSpelling(e, c) {
      ShortReads(e, c, rest);
    } else {
      UnicodeReads(e, c, rest);
    }
  }

  lemma ShortReads(e: string, c: char, rest: string)
    requires ShortSpelling(e, c)
    ensures StringBody(e + rest) == Push(c, StringBody(rest))
  {
    var s := e + rest;
    var body := s[1..];
    assert s[0] == '\\' && body[0] == e[1] && body[1..] == rest;
    assert EscapeSequence(body) == Ok(c, rest);
  }

  lemma UnicodeReads(e: string, c: char, rest: string)
    requires UnicodeSpelling(e, c)
    ensures StringBody(e + rest) == Push(c, StringBody(rest))
  {
    var units := Utf16.EncodeChar(c);
    var s := e + rest;
    if |units| == 1 {
      UnitReads(e, units[0], rest);
      EscapeReads(s, c, rest);
    } else {
      var behind := e[6..] + rest;
      assert s == e[..6] + behind;
      UnitReads(e[..6], units[0], behind);
      UnitReads(e[6..], units[1], rest);
      PairOf(c);
      PairReads(s[2..], c, rest);
      EscapeReads(s, c, rest);
    }
  }

  lemma EscapeReads(s: string, c: char, rest: string)
    requires |s| >= 2 && s[0] == '\\' && s[1] == 'u' && UnicodeEscape(s[2..]) == Ok(c, rest)
    ensures StringBody(s) == Push(c, StringBody(rest))
  {
    assert s[1..][1..] == s[2..];
  }

  lemma PairReads(s: string, c: char, rest: string)
    requires c as int >= 0x10000 && |s| >= 6 && Hex4(s) == Utf16.EncodeChar(c)[0]
    requires s[4..][..2] == "\\u" && Hex4(s[4..][2..]) == Utf16.EncodeChar(c)[1] && |s| >= 10 && s[4..][2..][4..] == rest
    ensures UnicodeEscape(s) == Ok(c, rest)
  {
    PairOf(c);
    assert s[6..] == s[4..][2..] && s[10..] == s[4..][2..][4..];
  }

  lemma PairOf(c: char)
    requires c as int >= 0x10000
    ensures var high: int, low: int := Utf16.EncodeChar(c)[0], Utf16.EncodeChar(c)[1];
      && 0xD800 <= high < 0xDC00 && 0xDC00 <= low < 0xE000
      && 0x10000 + (high - 0xD800) * 0x400 + (low - 0xDC00) == c as int
  {}

  const QUOTE: string := "\""

  // The first character of a spelled text.
  lemma FirstReads(s: string, text: string, tail: string) returns (more: string)
    requires SpellsText(s, text) && text != ""
    ensures SpellsText(more, text[1..]) && StringBody(s + tail) == Push(text[0], StringBody(more + tail))
  {
    var e;
    e, more :| SpellsChar(e, text[0]) && SpellsText(more, text[1..]) && s == e + more;
    SpelledCharReads(e, text[0], more + tail);
    Regroup(e, more, tail, []);
  }

  lemma EndReads(rest: string)
    ensures StringBody("" + (QUOTE + rest)) == Ok("", rest)
  {
    assert "" + (QUOTE + rest) == QUOTE + rest;
    Cons('\"', rest);
  }

  /** Any spelling of a text reads as that text, up to the closing quote. */
  lemma {:induction false} SpelledTextReads(s: string, text: string, rest: string)
    requires SpellsText(s, text)
    ensures StringBody(s + (QUOTE + rest)) == Ok(text, rest)
    decreases |text|
  {
    if text == "" {
      EndReads(rest);
    } else {
      var more := FirstReads(s, text, QUOTE + rest);
      SpelledTextReads(more, text[1..], rest);
      PushReads(text, StringBody(more + (QUOTE + rest)), rest);
    }
  }

  lemma PushReads(text: string, p: Parsed<string>, rest: string)
    requires text != "" && p == Ok(text[1..], rest)
    ensures Push(text[0], p) == Ok(text, rest)
  {
    assert text == [text[0]] + text[1..];
  }

  lemma QuotedReads(s: string, text: string, rest: string)
    requires Quoted(s, text)
    ensures s != "" && s[0] == '\"' && StringBody((s + rest)[1..]) == Ok(text, rest)
  {
    var body :| SpellsText(body, text) && s == QUOTE + body + QUOTE;
    SpelledTextReads(body, text, rest);
    QuotesAround(body, rest);
  }

  lemma QuotesAround(body: string, rest: string)
    ensures (QUOTE + body + QUOTE + rest)[1..] == body + (QUOTE + rest) && (QUOTE + body + QUOTE)[0] == '\"'
  {}

  // What an escape was read from is a spelling of what it was read as.
  lemma EscapeRead(s: string) returns (e: string)
    requires EscapeSequence(s).Ok?
    ensures SpellsChar("\\" + e, EscapeSequence(s).value) && s == e + EscapeSequence(s).rest
  {
    if s[0] == 'u' {
      e := UnicodeEscapeRead(s);
    } else {
      e := s[..1];
      ShortRead(s);
    }
  }

  lemma ShortRead(s: string)
    requires EscapeSequence(s).Ok? && s[0] != 'u'
    ensures ShortSpelling("\\" + s[..1], EscapeSequence(s).value) && s == s[..1] + EscapeSequence(s).rest
  {
    var e := "\\" + s[..1];
    assert e[0] == '\\' && e[1] == s[0];
    assert LETTERS[0] == '\"' && LETTERS[1] == '\\' && LETTERS[2] == '/' && LETTERS[3] == 'b';
    assert LETTERS[4] == 'f' && LETTERS[5] == 'n' && LETTERS[6] == 'r' && LETTERS[7] == 't';
  }

  lemma UnitRead(s: string)
    requires Hex4(s) >= 0
    ensures UnitSpelling("\\u" + s[..4], Hex4(s))
  {
    HexRead(s);
    assert ("\\u" + s[..4])[..2] == "\\u" && ("\\u" + s[..4])[2..] == s[..4];
  }

  lemma UnicodeEscapeRead(s: string) returns (e: string)
    requires s != "" && s[0] == 'u' && UnicodeEscape(s[1..]).Ok?
    ensures SpellsChar("\\" + e, UnicodeEscape(s[1..]).value) && s == e + UnicodeEscape(s[1..]).rest
  {
    var t, n, h := s[1..], Hex4(s[1..]), "";
    if n < 0xD800 || 0xE000 <= n { h := OneUnitRead(t); } else { h := TwoUnitsRead(t); }
    e := "u" + h;
    BehindBackslash(h);
    Split(s, 1);
    Regroup("u", h, UnicodeEscape(t).rest, []);
  }

  lemma BehindBackslash(h: string)
    ensures "\\" + ("u" + h) == "\\u" + h
  {}

  lemma OneUnitRead(t: string) returns (h: string)
    requires Hex4(t) >= 0 && !(0xD800 <= Hex4(t) < 0xE000)
    ensures SpellsChar("\\u" + h, Hex4(t) as char) && t == h + t[4..]
  {
    h := t[..4];
    UnitRead(t);
    OneUnitSpells("\\u" + h, Hex4(t));
  }

  lemma TwoUnitsRead(t: string) returns (h: string)
    requires |t| >= 10 && StartsWith(t[4..], "\\u")
    requires 0xD800 <= Hex4(t) < 0xDC00 && 0xDC00 <= Hex4(t[6..]) < 0xE000
    ensures SpellsChar("\\u" + h, (0x10000 + (Hex4(t) - 0xD800) * 0x400 + (Hex4(t[6..]) - 0xDC00)) as char)
    ensures t == h + t[10..]
  {
    var first, second := t[..4], t[6..][..4];
    UnitRead(t);
    UnitRead(t[6..]);
    TwoUnitsSpell("\\u" + first, "\\u" + second, Hex4(t), Hex4(t[6..]));
    h := first + ("\\u" + second);
    Regroup("\\u", first, "\\u" + second, []);
    PairSplits(t);
  }

  lemma PairSplits(t: string)
    requires |t| >= 10 && StartsWith(t[4..], "\\u")
    ensures t == t[..4] + ("\\u" + t[6..][..4]) + t[10..]
  {
    assert t[4..][..2] == "\\u" && t[4] == t[4..][..2][0] && t[5] == t[4..][..2][1];
  }

  lemma OneUnitSpells(e: string, n: int)
    requires UnitSpelling(e, n) && (0 <= n < 0xD800 || 0xE000 <= n < 0x10000)
    ensures SpellsChar(e, n as char)
  {
    assert Utf16.EncodeChar(n as char) == [n];
  }

  lemma TwoUnitsSpell(first: string, second: string, n: int, m: int)
    requires UnitSpelling(first, n) && UnitSpelling(second, m) && 0xD800 <= n < 0xDC00 && 0xDC00 <= m < 0xE000
    ensures SpellsChar(first + second, (0x10000 + (n - 0xD800) * 0x400 + (m - 0xDC00)) as char)
  {
    PairRead(n, m);
    assert (first + second)[..6] == first && (first + second)[6..] == second;
  }

  lemma PairRead(n: int, m: int)
    requires 0xD800 <= n < 0xDC00 && 0xDC00 <= m < 0xE000
    ensures Utf16.EncodeChar((0x10000 + (n - 0xD800) * 0x400 + (m - 0xDC00)) as char) == [n, m]
  {}

  lemma SpellsTextCons(e: string, c: char, more: string, text: string)
    requires SpellsChar(e, c) && SpellsText(more, text)
    ensures SpellsText(e + more, [c] + text)
  {
    Cons(c, text);
  }

  // What one character was read from spells it.
  lemma CharRead(s: string) returns (e: string, c: char, behind: string)
    requires StringBody(s).Ok? && s[0] != '\"'
    ensures SpellsChar(e, c) && s == e + behind && |behind| < |s| && StringBody(s) == Push(c, StringBody(behind))
  {
    if s[0] == '\\' {
      e := EscapeRead(s[1..]);
      c, behind := EscapeSequence(s[1..]).value, EscapeSequence(s[1..]).rest;
      assert s == "\\" + s[1..];
      Regroup("\\", e, behind, []);
      e := "\\" + e;
    } else {
      e, c, behind := s[..1], s[0], s[1..];
      assert PlainSpelling(e, c);
    }
  }

  /** What a string was read from spells what it was read as. */
  lemma {:induction false} StringRead(s: string) returns (body: string)
    requires StringBody(s).Ok?
    ensures SpellsText(body, StringBody(s).value) && s == body + (QUOTE + StringBody(s).rest)
    decreases |s|
  {
    if s[0] == '\"' {
      body := "";
      assert s == QUOTE + s[1..];
    } else {
      var e, c, behind := CharRead(s);
      var more := StringRead(behind);
      body := e + more;
      SpellsTextCons(e, c, more, StringBody(behind).value);
      Regroup(e, more, QUOTE + StringBody(s).rest, []);
    }
  }

  // -------------------------------------------------------------- numbers

  predicate WritesNumber(s: string, n: SafeInt) { s == Decimal.Signed(n) || (n == 0 && s == "-0") }

  lemma DigitsRead(ds: string, rest: string)
    requires NumberEnds(rest) && Decimal.AllDigits(ds) && ds != "" && (ds[0] == '0' ==> |ds| == 1)
    ensures var n: int := Decimal.ValueOf(ds); NumberText(ds + rest) == if n > MAX_SAFE_INTEGER then Err else Ok(n, rest)
  {
    var t := ds + rest;
    Decimal.DigitCountMaximal(ds, rest);
    assert t[..|ds|] == ds && t[|ds|..] == rest && t[0] == ds[0];
    assert t[..1] == [ds[0]];
  }

  lemma NegativeReads(t: string)
    requires t != "" && Decimal.IsDigit(t[0])
    ensures var p := NumberText(t); NumberText("-" + t) == if p.Ok? then Ok(0 - p.value, p.rest) else Err
  {
    assert ("-" + t)[..1] == "-" && ("-" + t)[1..] == t;
    assert t[..1] == [t[0]];
  }

  lemma MagnitudeReads(m: nat, rest: string)
    requires NumberEnds(rest) && m <= MAX_SAFE_INTEGER
    ensures NumberText(Decimal.Digits(m) + rest) == Ok(m, rest)
  {
    DigitsRead(Decimal.Digits(m), rest);
    Decimal.ValueOfDigits(m);
  }

  lemma MinusDigitsRead(ds: string, m: nat, rest: string)
    requires m <= MAX_SAFE_INTEGER && ds != "" && Decimal.IsDigit(ds[0])
    requires NumberText(ds + rest) == Ok(m, rest)
    ensures NumberText("-" + ds + rest) == Ok(0 - m, rest)
  {
    MinusRegroup(ds, rest);
    NegativeReads(ds + rest);
  }

  lemma SignedReads(n: SafeInt, rest: string)
    requires NumberEnds(rest)
    ensures NumberText(Decimal.Signed(n) + rest) == Ok(n, rest)
  {
    if n < 0 {
      MagnitudeReads(-n, rest);
      MinusDigitsRead(Decimal.Digits(-n), -n, rest);
    } else {
      MagnitudeReads(n, rest);
    }
  }

  lemma MinusRegroup(ds: string, rest: string)
    ensures "-" + ds + rest == "-" + (ds + rest)
  {}

  lemma MinusZeroReads(rest: string)
    requires NumberEnds(rest)
    ensures NumberText("-0" + rest) == Ok(0, rest)
  {
    assert Decimal.AllDigits("0") && Decimal.Digits(0) == "0";
    Decimal.ValueOfDigits(0);
    DigitsRead("0", rest);
    NegativeReads("0" + rest);
    assert "-0" + rest == "-" + ("0" + rest);
  }

  // Digits without a leading zero are the digits of their value.
  lemma {:induction false} DigitsOfValue(ds: string)
    requires Decimal.AllDigits(ds) && ds != "" && (ds[0] == '0' ==> |ds| == 1)
    ensures Decimal.Digits(Decimal.ValueOf(ds)) == ds
  {
    var n := |ds| - 1;
    var init, last := ds[..n], ds[n] as int - '0' as int;
    if n > 0 {
      DigitsOfValue(init);
      Place10(Decimal.ValueOf(init), last);
      PositiveValue(init);
      assert ds == init + [ds[n]];
      assert Decimal.DigitChar(last) == ds[n];
    } else {
      assert init == "" && ds == [ds[0]];
      assert Decimal.DigitChar(last) == ds[0];
    }
  }

  lemma Place10(high: nat, d: nat)
    requires d < 10
    ensures (10 * high + d) / 10 == high && (10 * high + d) % 10 == d
  {}

  lemma {:induction false} PositiveValue(ds: string)
    requires Decimal.AllDigits(ds) && ds != "" && ds[0] != '0'
    ensures Decimal.ValueOf(ds) > 0
  {
    if |ds| > 1 { PositiveValue(ds[..|ds| - 1]); } else { assert ds[..0] == ""; }
  }

  // The digits at the start of a text.
  lemma DigitsAreRead(t: string) returns (ds: string)
    requires var k := Decimal.DigitCount(t); k > 0 && !(t[0] == '0' && k > 1)
    ensures var k := Decimal.DigitCount(t);
      ds == t[..k] && t == ds + t[k..] && Decimal.Digits(Decimal.ValueOf(t[..k])) == ds && (Decimal.ValueOf(t[..k]) == 0 ==> ds == "0")
  {
    var k := Decimal.DigitCount(t);
    ds := t[..k];
    assert ds[0] == t[0];
    DigitsOfValue(ds);
    ZeroDigits(ds);
    Split(t, k);
  }

  lemma NumberRead(s: string) returns (text: string)
    requires NumberText(s).Ok?
    ensures WritesNumber(text, NumberText(s).value) && s == text + NumberText(s).rest
  {
    if StartsWith(s, "-") {
      text := DigitsAreRead(s[1..]);
      MinusRegroup(text, NumberText(s).rest);
      Split(s, 1);
      text := "-" + text;
    } else {
      text := DigitsAreRead(s);
    }
  }

  lemma ZeroDigits(ds: string)
    requires Decimal.AllDigits(ds) && ds != "" && Decimal.Digits(Decimal.ValueOf(ds)) == ds
    ensures Decimal.ValueOf(ds) == 0 ==> ds == "0"
  {
    assert Decimal.Digits(0) == "0";
  }

  // ------------------------------------------------------- texts are read

  lemma {:induction false} ValueSkips(w: string, s: string, depth: nat)
    requires Space(w)
    ensures ValueText(w + s, depth) == ValueText(s, depth)
  {
    SkipsSpace(w, s);
  }

  // No token starts with space, a comma or a closing bracket.
  predicate TokenStart(s: string) { s != "" && !IsSpace(s[0]) && s[0] != ',' && s[0] != ']' && s[0] != '}' }

  lemma TextStarts(s: string, t: Tree, more: string)
    requires Writes(s, t)
    ensures TokenStart(s) && TokenStart(s + more)
  {
    assert s != "" ==> (s + more)[0] == s[0];
    if t.TString? { QuotedReads(s, t.text, more); }
  }

  // What follows a value in an array or object does not extend a number.
  lemma ItemsStart(s: string, items: seq<Tree>, rest: string)
    requires WritesItems(s, items, false)
    ensures NumberEnds(s + rest)
  {
    if items != [] {
      var lead, text, more := FirstItem(s, items, false);
      AroundStarts(lead, ',');
      assert s[0] == lead[0];
    }
    assert (s + rest)[0] == s[0];
  }

  lemma AroundStarts(w: string, mark: char)
    requires Around(w, mark)
    ensures w != "" && (w[0] == mark || IsSpace(w[0]))
  {
    var k :| 0 <= k < |w| && w[k] == mark && Space(w[..k]) && Space(w[k + 1..]);
    if k > 0 { assert w[..k][0] == w[0]; }
  }

  lemma MembersStart(s: string, members: seq<Member>, rest: string)
    requires WritesMembers(s, members, false)
    ensures NumberEnds(s + rest)
  {
    if members != [] {
      var lead, key, colon, text, more := FirstMember(s, members, false);
      AroundStarts(lead, ',');
      assert s[0] == lead[0];
    }
    assert (s + rest)[0] == s[0];
  }

  lemma LeadReads(lead: string, first: bool, body: string, close: char)
    requires Lead(lead, first) && TokenStart(body) && body[0] != close && close != ',' && !IsSpace(close)
    ensures !Closes(lead + body, close) && Separator(lead + body, first, close) == Ok((), body)
  {
    assert SkipSpace(body) == body;
    if first {
      SkipsSpace(lead, body);
    } else {
      var behind := SkipsAround(lead, ',', body);
      Cons(',', behind);
    }
  }

  lemma EndingReads(s: string, close: char, rest: string)
    requires Ending(s, close) && !IsSpace(close)
    ensures Closes(s + rest, close) && SkipSpace(s + rest)[1..] == rest
  {
    var w := s[..|s| - 1];
    assert s + rest == w + ([close] + rest);
    SkipsSpace(w, [close] + rest);
    Cons(close, rest);
    assert SkipSpace([close] + rest) == [close] + rest;
  }

  lemma LeafReads(s: string, t: Tree, rest: string, depth: nat)
    requires Writes(s, t) && NumberEnds(rest) && !t.TArray? && !t.TObject?
    ensures ValueText(s + rest, depth) == Ok(t, rest)
  {
    TextStarts(s, t, rest);
    match t
    case TNull => WordReads("null", rest);
    case TBool(b) => WordReads(if b then "true" else "false", rest);
    case TNumber(n) => NumberLeafReads(s, n, rest, depth);
    case TString(text) => StringLeafReads(s, text, rest, depth);
  }

  lemma WordReads(word: string, rest: string)
    requires word == "null" || word == "true" || word == "false"
    ensures StartsWith(word + rest, word) && (word + rest)[|word|..] == rest && SkipSpace(word + rest) == word + rest
  {
    assert (word + rest)[..|word|] == word;
  }

  lemma NumberLeafReads(s: string, n: SafeInt, rest: string, depth: nat)
    requires WritesNumber(s, n) && NumberEnds(rest)
    ensures ValueText(s + rest, depth) == Ok(TNumber(n), rest)
  {
    if s == Decimal.Signed(n) { SignedReads(n, rest); } else { MinusZeroReads(rest); }
    assert (s + rest)[0] == s[0] && (s[0] == '-' || Decimal.IsDigit(s[0]));
    assert SkipSpace(s + rest) == s + rest;
  }

  lemma StringLeafReads(s: string, text: string, rest: string, depth: nat)
    requires Quoted(s, text)
    ensures ValueText(s + rest, depth) == Ok(TString(text), rest)
  {
    QuotedReads(s, text, rest);
    assert (s + rest)[0] == s[0];
    assert SkipSpace(s + rest) == s + rest;
  }

  // An opening bracket hands over to the items or members.
  lemma BracketHandsOver(s: string, rest: string, depth: nat)
    requires s != "" && (s[0] == '[' || s[0] == '{') && depth > 0
    ensures s[0] == '[' ==> var p := ItemsText(s[1..] + rest, depth - 1, true);
      ValueText(s + rest, depth) == if depth > 1 && p.Ok? then Ok(TArray(p.value), p.rest) else Err
    ensures s[0] == '{' ==> var p := MembersText(s[1..] + rest, depth - 1, true);
      ValueText(s + rest, depth) == if depth > 1 && p.Ok? then Ok(TObject(p.value), p.rest) else Err
  {
    assert (s + rest)[1..] == s[1..] + rest && (s + rest)[0] == s[0];
    assert SkipSpace(s + rest) == s + rest;
  }

  /**
   * Every text of a tree, in front of any continuation that does not extend a
   * number, is read as that tree and nothing more is consumed. Reading fails
   * exactly when the tree nests deeper than allowed.
   */
  lemma {:induction false} TextReads(s: string, t: Tree, rest: string, depth: nat)
    requires Writes(s, t) && NumberEnds(rest) && depth > 0
    ensures ValueText(s + rest, depth) == if Depth(t) < depth then Ok(t, rest) else Err
    decreases t, 0
  {
    match t
    case TArray(items) => ArrayTextReads(s, items, rest, depth);
    case TObject(members) => ObjectTextReads(s, members, rest, depth);
    case _ => LeafReads(s, t, rest, depth);
  }

  lemma {:induction false} ArrayTextReads(s: string, items: seq<Tree>, rest: string, depth: nat)
    requires s != "" && s[0] == '[' && WritesItems(s[1..], items, true) && NumberEnds(rest) && depth > 0
    ensures ValueText(s + rest, depth) == if Depth(TArray(items)) < depth then Ok(TArray(items), rest) else Err
    decreases items, 2
  {
    if depth > 1 { ItemsRead(s[1..], items, true, rest, depth - 1); }
    ArrayReads(s, items, rest, depth);
  }

  lemma {:induction false} ObjectTextReads(s: string, members: seq<Member>, rest: string, depth: nat)
    requires s != "" && s[0] == '{' && WritesMembers(s[1..], members, true) && NumberEnds(rest) && depth > 0
    ensures ValueText(s + rest, depth) == if Depth(TObject(members)) < depth then Ok(TObject(members), rest) else Err
    decreases members, 2
  {
    if depth > 1 { MembersRead(s[1..], members, true, rest, depth - 1); }
    ObjectReads(s, members, rest, depth);
  }

  lemma ArrayReads(s: string, items: seq<Tree>, rest: string, depth: nat)
    requires s != "" && s[0] == '[' && depth > 0
    requires depth > 1 ==>
      ItemsText(s[1..] + rest, depth - 1, true) == if DepthItems(items) < depth - 1 then Ok(items, rest) else Err
    ensures ValueText(s + rest, depth) == if Depth(TArray(items)) < depth then Ok(TArray(items), rest) else Err
  {
    BracketHandsOver(s, rest, depth);
  }

  lemma ObjectReads(s: string, members: seq<Member>, rest: string, depth: nat)
    requires s != "" && s[0] == '{' && depth > 0
    requires depth > 1 ==>
      MembersText(s[1..] + rest, depth - 1, true) == if DepthMembers(members) < depth - 1 then Ok(members, rest) else Err
    ensures ValueText(s + rest, depth) == if Depth(TObject(members)) < depth then Ok(TObject(members), rest) else Err
  {
    BracketHandsOver(s, rest, depth);
  }

  lemma {:induction false} ItemsRead(s: string, items: seq<Tree>, first: bool, rest: string, depth: nat)
    requires WritesItems(s, items, first) && NumberEnds(rest) && depth > 0
    ensures ItemsText(s + rest, depth, first) == if DepthItems(items) < depth then Ok(items, rest) else Err
    decreases items, 1
  {
    if items == [] {
      EndingReads(s, ']', rest);
    } else {
      var lead, text, more := FirstItem(s, items, first);
      ItemsStart(more, items[1..], rest);
      TextReads(text, items[0], more + rest, depth);
      ItemsRead(more, items[1..], false, rest, depth);
      ItemHandsOver(lead, text, items[0], more + rest, first, depth);
      ItemsRegroup(lead, text, more, rest);
      FrontItem(items, more + rest, rest, depth);
    }
  }

  lemma FirstItem(s: string, items: seq<Tree>, first: bool) returns (lead: string, text: string, more: string)
    requires WritesItems(s, items, first) && items != []
    ensures Lead(lead, first) && Writes(text, items[0]) && WritesItems(more, items[1..], false) && s == lead + (text + more)
  {
    lead, text, more :| Lead(lead, first) && Writes(text, items[0]) && WritesItems(more, items[1..], false)
      && s == lead + (text + more);
  }

  // A written item hands over to the items behind it.
  lemma ItemHandsOver(lead: string, text: string, t: Tree, tail: string, first: bool, depth: nat)
    requires Lead(lead, first) && Writes(text, t)
    ensures var p := ValueText(text + tail, depth);
      ItemsText(lead + (text + tail), depth, first)
      == if p.Ok? then Front(p.value, ItemsText(p.rest, depth, false)) else Err
  {
    TextStarts(text, t, tail);
    LeadReads(lead, first, text + tail, ']');
  }

  lemma FrontItem(items: seq<Tree>, tail: string, rest: string, depth: nat)
    requires items != [] && depth > 0
    requires ItemsText(tail, depth, false) == if DepthItems(items[1..]) < depth then Ok(items[1..], rest) else Err
    ensures (if Depth(items[0]) < depth then Front(items[0], ItemsText(tail, depth, false)) else Err)
         == if DepthItems(items) < depth then Ok(items, rest) else Err
  {
    assert [items[0]] + items[1..] == items;
  }

  lemma FrontMember(members: seq<Member>, tail: string, rest: string, depth: nat)
    requires members != [] && depth > 0
    requires MembersText(tail, depth, false) == if DepthMembers(members[1..]) < depth then Ok(members[1..], rest) else Err
    ensures (if Depth(members[0].value) < depth then Front(members[0], MembersText(tail, depth, false)) else Err)
         == if DepthMembers(members) < depth then Ok(members, rest) else Err
  {
    assert [members[0]] + members[1..] == members;
  }

  lemma ItemsRegroup(lead: string, text: string, more: string, rest: string)
    ensures lead + (text + more) + rest == lead + (text + (more + rest))
  {}

  lemma {:induction false} MembersRead(s: string, members: seq<Member>, first: bool, rest: string, depth: nat)
    requires WritesMembers(s, members, first) && NumberEnds(rest) && depth > 0
    ensures MembersText(s + rest, depth, first) == if DepthMembers(members) < depth then Ok(members, rest) else Err
    decreases members, 1
  {
    if members == [] {
      EndingReads(s, '}', rest);
    } else {
      var Member(name, value) := members[0];
      var lead, key, colon, text, more := FirstMember(s, members, first);
      MembersStart(more, members[1..], rest);
      TextReads(text, value, more + rest, depth);
      MembersRead(more, members[1..], false, rest, depth);
      MemberHandsOver(lead, key, name, colon, text + (more + rest), first, depth);
      MembersRegroup(lead, key, colon, text, more, rest);
      FrontMember(members, more + rest, rest, depth);
    }
  }

  lemma FirstMember(s: string, members: seq<Member>, first: bool)
    returns (lead: string, key: string, colon: string, text: string, more: string)
    requires WritesMembers(s, members, first) && members != []
    ensures Lead(lead, first) && Quoted(key, members[0].key) && Around(colon, ':')
    ensures Writes(text, members[0].value) && WritesMembers(more, members[1..], false)
    ensures s == lead + (key + (colon + (text + more)))
  {
    lead, key, colon, text, more :| Lead(lead, first) && Quoted(key, members[0].key) && Around(colon, ':')
      && Writes(text, members[0].value) && WritesMembers(more, members[1..], false)
      && s == lead + (key + (colon + (text + more)));
  }

  lemma MembersRegroup(lead: string, key: string, colon: string, text: string, more: string, rest: string)
    ensures lead + (key + (colon + (text + more))) + rest == lead + (key + (colon + (text + (more + rest))))
  {
    assert colon + (text + more) + rest == colon + (text + (more + rest));
    assert key + (colon + (text + more)) + rest == key + (colon + (text + (more + rest)));
  }

  // A written name hands over to its value, and the value to the members behind it.
  lemma MemberHandsOver(lead: string, key: string, name: string, colon: string, body: string, first: bool, depth: nat)
    requires Lead(lead, first) && Quoted(key, name) && Around(colon, ':')
    ensures var p := ValueText(body, depth);
      MembersText(lead + (key + (colon + body)), depth, first)
      == if p.Ok? then Front(Member(name, p.value), MembersText(p.rest, depth, false)) else Err
  {
    QuotedReads(key, name, colon + body);
    assert (key + (colon + body))[0] == '\"';
    LeadReads(lead, first, key + (colon + body), '}');
    var behind := KeyReads(key, name, colon, body, depth);
  }

  lemma KeyReads(key: string, name: string, colon: string, body: string, depth: nat) returns (behind: string)
    requires Quoted(key, name) && Around(colon, ':')
    ensures KeyText(key + (colon + body)) == Ok(name, behind) && ValueText(behind, depth) == ValueText(body, depth)
  {
    QuotedReads(key, name, colon + body);
    behind := SkipsAround(colon, ':', body);
    Cons(':', behind);
    assert (key + (colon + body))[0] == '\"';
    SameSpaceSameValue(behind, body, depth);
  }

  lemma SameSpaceSameValue(s: string, t: string, depth: nat)
    requires SkipSpace(s) == SkipSpace(t)
    ensures ValueText(s, depth) == ValueText(t, depth)
  {}

  // ---------------------------------------------- what is read is a text

  lemma SpaceConcat(v: string, w: string)
    requires Space(v) && Space(w)
    ensures Space(v + w)
  {}

  lemma LeadGrows(lead: string, first: bool, w: string)
    requires Lead(lead, first) && Space(w)
    ensures Lead(lead + w, first)
  {
    if !first {
      var k :| 0 <= k < |lead| && lead[k] == ',' && Space(lead[..k]) && Space(lead[k + 1..]);
      assert (lead + w)[..k] == lead[..k] && (lead + w)[k + 1..] == lead[k + 1..] + w;
      SpaceConcat(lead[k + 1..], w);
    }
  }

  // A mark in front of which there may be space, and the space behind it.
  lemma MarkRead(s: string, mark: char) returns (w: string)
    requires Closes(s, mark)
    ensures Around(w, mark) && s == w + SkipSpace(SkipSpace(s)[1..])
  {
    var before := SkippedSpace(s);
    var after := SkippedSpace(SkipSpace(s)[1..]);
    w := before + ([mark] + after);
    AroundMark(before, mark, after);
    MarkSplits(s, before, mark, after, SkipSpace(s));
  }

  lemma AroundMark(before: string, mark: char, after: string)
    requires Space(before) && Space(after)
    ensures Around(before + ([mark] + after), mark)
  {
    var w, k := before + ([mark] + after), |before|;
    assert w[..k] == before && w[k] == mark && w[k + 1..] == after;
  }

  lemma MarkSplits(s: string, before: string, mark: char, after: string, t: string)
    requires s == before + t && t != "" && t[0] == mark && t[1..] == after + SkipSpace(t[1..])
    ensures s == before + ([mark] + after) + SkipSpace(t[1..])
  {
    assert t == [mark] + t[1..];
  }

  lemma SeparatorRead(s: string, first: bool, close: char) returns (lead: string)
    requires Separator(s, first, close).Ok?
    ensures Lead(lead, first) && s == lead + Separator(s, first, close).rest
  {
    if first { lead := SkippedSpace(s); } else { lead := MarkRead(s, ','); }
  }

  lemma EndingRead(s: string, close: char) returns (body: string)
    requires Closes(s, close)
    ensures Ending(body, close) && s == body + SkipSpace(s)[1..]
  {
    var w := SkippedSpace(s);
    body := w + [close];
    assert SkipSpace(s) == [close] + SkipSpace(s)[1..];
    assert body[..|body| - 1] == w;
  }

  lemma QuotedRead(s: string) returns (q: string)
    requires s != "" && s[0] == '\"' && StringBody(s[1..]).Ok?
    ensures Quoted(q, StringBody(s[1..]).value) && s == q + StringBody(s[1..]).rest
  {
    var body := StringRead(s[1..]);
    q := QUOTE + body + QUOTE;
    QuoteSplits(s, body, StringBody(s[1..]).rest);
  }

  lemma QuoteSplits(s: string, body: string, behind: string)
    requires s != "" && s[0] == '\"' && s[1..] == body + (QUOTE + behind)
    ensures s == QUOTE + body + QUOTE + behind
  {
    assert s == QUOTE + s[1..];
  }

  lemma ColonRead(s: string) returns (colon: string)
    requires Closes(s, ':')
    ensures Around(colon, ':') && s == colon + SkipSpace(s)[1..]
  {
    var w := SkippedSpace(s);
    colon := w + ([':'] + "");
    AroundMark(w, ':', "");
    assert SkipSpace(s) == [':'] + SkipSpace(s)[1..];
  }

  lemma KeyRead(s: string) returns (key: string, colon: string)
    requires KeyText(s).Ok?
    ensures Quoted(key, KeyText(s).value) && Around(colon, ':') && s == key + (colon + KeyText(s).rest)
  {
    key := QuotedRead(s);
    colon := ColonRead(StringBody(s[1..]).rest);
  }

  lemma LeafRead(s: string, depth: nat) returns (text: string)
    requires ValueText(s, depth).Ok? && SkipSpace(s) == s && s[0] != '[' && s[0] != '{'
    ensures Writes(text, ValueText(s, depth).value) && s == text + ValueText(s, depth).rest
  {
    if s[0] == '\"' {
      text := QuotedRead(s);
    } else if s[0] == '-' || Decimal.IsDigit(s[0]) {
      text := NumberRead(s);
    } else {
      text := if s[0] == 'n' then "null" else if s[0] == 't' then "true" else "false";
      Split(s, |text|);
    }
  }

  /** Whatever is read as a tree is, behind space, a text of that tree. */
  lemma {:induction false} ValueRead(s: string, depth: nat) returns (w: string, text: string)
    requires ValueText(s, depth).Ok?
    ensures Space(w) && Writes(text, ValueText(s, depth).value) && s == w + (text + ValueText(s, depth).rest)
    decreases |s|, 1
  {
    w := SkippedSpace(s);
    var t := SkipSpace(s);
    SameSpaceSameValue(s, t, depth);
    if t[0] == '[' || t[0] == '{' {
      text := NestedRead(t, depth);
    } else {
      text := LeafRead(t, depth);
    }
  }

  lemma {:induction false} NestedRead(s: string, depth: nat) returns (text: string)
    requires ValueText(s, depth).Ok? && SkipSpace(s) == s && (s[0] == '[' || s[0] == '{')
    ensures Writes(text, ValueText(s, depth).value) && s == text + ValueText(s, depth).rest
    decreases |s|, 0
  {
    var body;
    if s[0] == '[' {
      body := ItemsAreRead(s[1..], depth - 1, true);
    } else {
      body := MembersAreRead(s[1..], depth - 1, true);
    }
    text := [s[0]] + body;
    Cons(s[0], body);
    Cons(s[0], s[1..]);
    assert s == [s[0]] + s[1..];
  }

  lemma {:induction false} ItemsAreRead(s: string, depth: nat, first: bool) returns (body: string)
    requires ItemsText(s, depth, first).Ok?
    ensures WritesItems(body, ItemsText(s, depth, first).value, first) && s == body + ItemsText(s, depth, first).rest
    decreases |s|, 2
  {
    if Closes(s, ']') {
      body := EndingRead(s, ']');
    } else {
      var lead := SeparatorRead(s, first, ']');
      var at := Separator(s, first, ']').rest;
      var item := ValueText(at, depth);
      var w, text := ValueRead(at, depth);
      var more := ItemsAreRead(item.rest, depth, false);
      var p := ItemsText(item.rest, depth, false);
      LeadGrows(lead, first, w);
      body := (lead + w) + (text + more);
      WritesItemsCons(lead + w, first, text, item.value, more, p.value);
      ItemSplits(lead, w, text, more, p.rest);
    }
  }

  lemma WritesItemsCons(lead: string, first: bool, text: string, t: Tree, more: string, items: seq<Tree>)
    requires Lead(lead, first) && Writes(text, t) && WritesItems(more, items, false)
    ensures WritesItems(lead + (text + more), [t] + items, first)
  {
    Cons(t, items);
  }

  lemma ItemSplits(lead: string, w: string, text: string, more: string, rest: string)
    ensures lead + (w + (text + (more + rest))) == (lead + w) + (text + more) + rest
  {
    assert w + (text + (more + rest)) == w + (text + more) + rest;
  }

  lemma {:induction false} MembersAreRead(s: string, depth: nat, first: bool) returns (body: string)
    requires MembersText(s, depth, first).Ok?
    ensures WritesMembers(body, MembersText(s, depth, first).value, first) && s == body + MembersText(s, depth, first).rest
    decreases |s|, 2
  {
    if Closes(s, '}') {
      body := EndingRead(s, '}');
    } else {
      var lead := SeparatorRead(s, first, '}');
      var at := Separator(s, first, '}').rest;
      var key, colon := KeyRead(at);
      var name := KeyText(at);
      var item := ValueText(name.rest, depth);
      var w, text := ValueRead(name.rest, depth);
      var more := MembersAreRead(item.rest, depth, false);
      var p := MembersText(item.rest, depth, false);
      AroundGrows(colon, ':', w);
      body := lead + (key + ((colon + w) + (text + more)));
      WritesMembersCons(lead, first, key, colon + w, text, Member(name.value, item.value), more, p.value);
      MemberSplits(lead, key, colon, w, text, more, p.rest);
    }
  }

  lemma AroundGrows(colon: string, mark: char, w: string)
    requires Around(colon, mark) && Space(w)
    ensures Around(colon + w, mark)
  {
    var k :| 0 <= k < |colon| && colon[k] == mark && Space(colon[..k]) && Space(colon[k + 1..]);
    assert (colon + w)[..k] == colon[..k] && (colon + w)[k + 1..] == colon[k + 1..] + w;
    SpaceConcat(colon[k + 1..], w);
  }

  lemma WritesMembersCons(lead: string, first: bool, key: string, colon: string, text: string, m: Member, more: string,
                          members: seq<Member>)
    requires Lead(lead, first) && Quoted(key, m.key) && Around(colon, ':') && Writes(text, m.value)
    requires WritesMembers(more, members, false)
    ensures WritesMembers(lead + (key + (colon + (text + more))), [m] + members, first)
  {
    Cons(m, members);
  }

  lemma MemberSplits(lead: string, key: string, colon: string, w: string, text: string, more: string, rest: string)
    ensures lead + (key + (colon + (w + (text + (more + rest))))) == lead + (key + ((colon + w) + (text + more))) + rest
  {
    ItemSplits(colon, w, text, more, rest);
    assert key + ((colon + w) + (text + more) + rest) == key + ((colon + w) + (text + more)) + rest;
  }

  // -------------------------------------------------------------- document

  lemma SpaceEndsNumber(w: string)
    requires Space(w)
    ensures NumberEnds(w) && SkipSpace(w) == ""
  {
    SkipsSpace(w, "");
    assert w + "" == w;
  }

  /**
   * The parser accepts exactly the documents of the grammar whose depth is
   * below the limit, each with the one tree that it is a text of.
   */
  lemma DocumentExactly(s: string, t: Tree, limit: nat)
    requires limit > 0
    ensures Document(s, limit) == Ok(t, "") <==> IsDocument(s, t) && Depth(t) < limit
  {
    if IsDocument(s, t) {
      var before, text, after :| Space(before) && Writes(text, t) && Space(after) && s == before + (text + after);
      SpaceEndsNumber(after);
      TextReads(text, t, after, limit);
      ValueSkips(before, text + after, limit);
    }
    if Document(s, limit) == Ok(t, "") { DocumentRead(s, t, limit); }
  }

  lemma DocumentRead(s: string, t: Tree, limit: nat)
    requires limit > 0 && Document(s, limit) == Ok(t, "")
    ensures IsDocument(s, t) && Depth(t) < limit
  {
    var p := ValueText(s, limit);
    var before, text := ValueRead(s, limit);
    var after := SkippedSpace(p.rest);
    assert after + "" == after;
    SpaceEndsNumber(after);
    TextReads(text, t, after, limit);
    ValueSkips(before, text + after, limit);
  }

  /** A text is a text of one tree only. */
  lemma TreeIsUnique(s: string, a: Tree, b: Tree)
    requires IsDocument(s, a) && IsDocument(s, b)
    ensures a == b
  {
    var limit := Max(Depth(a), Depth(b)) + 1;
    DocumentExactly(s, a, limit);
    DocumentExactly(s, b, limit);
  }
}
