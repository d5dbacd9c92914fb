// The JSON text grammar (RFC 8259) as the deserializer reads it, ahead of the
// duplicate check: objects keep every member in the order of the text.

module JsonGrammar {
  import opened Json
  import Decimal

  datatype Parsed<+T> = Ok(value: T, rest: string) | Err

  predicate IsSpace(c: char) { c == ' ' || c == '\n' || c == '\t' || c == '\r' }

  function SkipSpace(s: string): (rest: string)
    ensures |rest| <= |s|
    ensures rest != "" ==> !IsSpace(rest[0])
  {
    if s != "" && IsSpace(s[0]) then SkipSpace(s[1..]) else s
  }

  predicate StartsWith(s: string, prefix: string) { |prefix| <= |s| && s[..|prefix|] == prefix }

  // ------------------------------------------------------------- strings

  function HexValue(c: char): (n: int)
    ensures n < 16
  {
    if '0' <= c <= '9' then c as int - '0' as int
    else if 'a' <= c <= 'f' then c as int - 'a' as int + 10
    else if 'A' <= c <= 'F' then c as int - 'A' as int + 10
    else -1
  }

  // Four hexadecimal digits, or -1.
  function Hex4(s: string): (n: int)
    ensures n >= 0 ==> |s| >= 4 && n < 0x10000
  {
    if |s| < 4 || exists i :: 0 <= i < 4 && HexValue(s[i]) < 0 then -1
    else HexValue(s[0]) * 0x1000 + HexValue(s[1]) * 0x100 + HexValue(s[2]) * 0x10 + HexValue(s[3])
  }

  // The text after `\u`. A leading surrogate needs a trailing one right behind it.
  function UnicodeEscape(s: string): (p: Parsed<char>)
    ensures p.Ok? ==> |p.rest| < |s|
  {
    var n := Hex4(s);
    if n < 0 || 0xDC00 <= n < 0xE000 then Err
    else if n < 0xD800 || 0xE000 <= n then Ok(n as char, s[4..])
    else if !StartsWith(s[4..], "\\u") then Err
    else
      var m := Hex4(s[6..]);
      if 0xDC00 <= m < 0xE000 then Ok((0x10000 + (n - 0xD800) * 0x400 + (m - 0xDC00)) as char, s[10..])
      else Err
  }

  // The text after a backslash.
  function EscapeSequence(s: string): (p: Parsed<char>)
    ensures p.Ok? ==> |p.rest| < |s|
  {
    if s == "" then Err
    else match s[0]
      case '\"' => Ok('\"', s[1..])
      case '\\' => Ok('\\', s[1..])
      case '/' => Ok('/', s[1..])
      case 'b' => Ok('\U{8}', s[1..])
      case 'f' => Ok('\U{C}', s[1..])
      case 'n' => Ok('\n', s[1..])
      case 'r' => Ok('\r', s[1..])
      case 't' => Ok('\t', s[1..])
      case 'u' => UnicodeEscape(s[1..])
      case _ => Err
  }

  // The text after the opening quote.
  function StringBody(s: string): (p: Parsed<string>)
    ensures p.Ok? ==> |p.rest| < |s|
    decreases |s|
  {
    if s == "" || s[0] < ' ' then Err
    else if s[0] == '\"' then Ok("", s[1..])
    else if s[0] == '\\' then
      var e := EscapeSequence(s[1..]);
      if e.Err? then Err else Push(e.value, StringBody(e.rest))
    else Push(s[0], StringBody(s[1..]))
  }

  function Push(c: char, p: Parsed<string>): Parsed<string> {
    if p.Ok? then Ok([c] + p.value, p.rest) else Err
  }

  // ------------------------------------------------------------- numbers

  // Integers of the safe range; fractions, exponents and larger integers are
  // not part of this model and do not parse.
  function NumberText(s: string): (p: Parsed<SafeInt>)
    ensures p.Ok? ==> |p.rest| < |s|
  {
    var negative := StartsWith(s, "-");
    var t := if negative then s[1..] else s;
    var k := Decimal.DigitCount(t);
    if k == 0 || (t[0] == '0' && k > 1) || !NumberEnds(t[k..]) then Err
    else
      var n: int := Decimal.ValueOf(t[..k]);
      if n > MAX_SAFE_INTEGER then Err else Ok(if negative then -n else n, t[k..])
  }

  // What may not follow an integer.
  predicate NumberEnds(s: string) {
    s == "" || !(Decimal.IsDigit(s[0]) || s[0] == '.' || s[0] == 'e' || s[0] == 'E')
  }

  // -------------------------------------------------------------- values

  // `depth` is how much nesting is still allowed: opening an array or object
  // uses one up and fails when none is left.
  function ValueText(s: string, depth: nat): (p: Parsed<Tree>)
    ensures p.Ok? ==> |p.rest| < |s|
    decreases |s|, 0
  {
    var t := SkipSpace(s);
    if t == "" then Err
    else if t[0] == 'n' then (if StartsWith(t, "null") then Ok(TNull, t[4..]) else Err)
    else if t[0] == 't' then (if StartsWith(t, "true") then Ok(TBool(true), t[4..]) else Err)
    else if t[0] == 'f' then (if StartsWith(t, "false") then Ok(TBool(false), t[5..]) else Err)
    else if t[0] == '-' || Decimal.IsDigit(t[0]) then
      var p := NumberText(t);
      if p.Ok? then Ok(TNumber(p.value), p.rest) else Err
    else if t[0] == '\"' then
      var p := StringBody(t[1..]);
      if p.Ok? then Ok(TString(p.value), p.rest) else Err
    else if t[0] == '[' && depth > 1 then
      var p := ItemsText(t[1..], depth - 1, true);
      if p.Ok? then Ok(TArray(p.value), p.rest) else Err
    else if t[0] == '{' && depth > 1 then
      var p := MembersText(t[1..], depth - 1, true);
      if p.Ok? then Ok(TObject(p.value), p.rest) else Err
    else Err
  }

  // The separator before the next item or member: nothing in front of the first one.
  function Separator(s: string, first: bool, close: char): (p: Parsed<()>)
    ensures p.Ok? ==> |p.rest| <= |s| && p.rest != "" && p.rest[0] != close
  {
    var t := SkipSpace(s);
    if first then (if t == "" || t[0] == close then Err else Ok((), t))
    else if t == "" || t[0] != ',' then Err
    else
      var u := SkipSpace(t[1..]);
      if u == "" || u[0] == close then Err else Ok((), u)
  }

  predicate Closes(s: string, close: char) {
    var t := SkipSpace(s);
    t != "" && t[0] == close
  }

  // The rest of an array.
  function ItemsText(s: string, depth: nat, first: bool): (p: Parsed<seq<Tree>>)
    ensures p.Ok? ==> |p.rest| < |s|
    decreases |s|, 1
  {
    if Closes(s, ']') then Ok([], SkipSpace(s)[1..])
    else
      var at := Separator(s, first, ']');
      if at.Err? then Err
      else
        var item := ValueText(at.rest, depth);
        if item.Err? then Err else Front(item.value, ItemsText(item.rest, depth, false))
  }

  function Front<T>(x: T, p: Parsed<seq<T>>): Parsed<seq<T>> {
    if p.Ok? then Ok([x] + p.value, p.rest) else Err
  }

  // A member name and the colon behind it.
  function KeyText(s: string): (p: Parsed<string>)
    ensures p.Ok? ==> |p.rest| < |s|
  {
    if s == "" || s[0] != '\"' then Err
    else
      var key := StringBody(s[1..]);
      if key.Err? || !Closes(key.rest, ':') then Err
      else Ok(key.value, SkipSpace(key.rest)[1..])
  }

  // The rest of an object.
  function MembersText(s: string, depth: nat, first: bool): (p: Parsed<seq<Member>>)
    ensures p.Ok? ==> |p.rest| < |s|
    decreases |s|, 1
  {
    if Closes(s, '}') then Ok([], SkipSpace(s)[1..])
    else
      var at := Separator(s, first, '}');
      if at.Err? then Err
      else
        var key := KeyText(at.rest);
        if key.Err? then Err
        else
          var value := ValueText(key.rest, depth);
          if value.Err? then Err
          else Front(Member(key.value, value.value), MembersText(value.rest, depth, false))
  }

  // A whole document: one value and nothing but space behind it.
  function Document(s: string, limit: nat): (p: Parsed<Tree>) {
    var p := ValueText(s, limit);
    if p.Ok? && SkipSpace(p.rest) == "" then Ok(p.value, "") else Err
  }
}
