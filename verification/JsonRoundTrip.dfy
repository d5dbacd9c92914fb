// What the printer writes: a text of the tree, the shortest there is, and
// therefore one that the parser reads back.

module JsonRoundTrip {
  import opened Common
  import opened Json
  import opened JsonGrammar
  import opened JsonText
  import Decimal
  import Utf16

  // ------------------------------------------------------- printed strings

  lemma EscapeCharSpells(c: char)
    ensures SpellsChar(EscapeChar(c), c)
  {
    var e := EscapeChar(c);
    if |e| == 2 {
      ShortEscapeSpells(c);
    } else if |e| > 2 {
      ControlSpells(c);
    }
  }

  lemma ShortEscapeSpells(c: char)
    requires |EscapeChar(c)| == 2
    ensures ShortSpelling(EscapeChar(c), c)
  {
    assert LETTERS[0] == '\"' && LETTERS[1] == '\\' && LETTERS[3] == 'b';
    assert LETTERS[4] == 'f' && LETTERS[5] == 'n' && LETTERS[6] == 'r' && LETTERS[7] == 't';
    assert MEANINGS[0] == '\"' && MEANINGS[1] == '\\' && MEANINGS[3] == '\U{8}';
    assert MEANINGS[4] == '\U{C}' && MEANINGS[5] == '\n' && MEANINGS[6] == '\r' && MEANINGS[7] == '\t';
  }

  lemma ControlSpells(c: char)
    requires |EscapeChar(c)| > 2
    ensures UnicodeSpelling(EscapeChar(c), c) && c < ' '
  {
    var e, n := EscapeChar(c), c as int;
    assert e == "\\u00" + [HEX[n / 16], HEX[n % 16]];
    assert e[..2] == "\\u" && e[2..] == ['0', '0', HEX[n / 16], HEX[n % 16]];
    FourDigits(e[2..], n);
  }

  lemma {:induction false} EscapeSpells(text: string)
    ensures SpellsText(Escape(text), text)
  {
    if text != "" {
      EscapeCharSpells(text[0]);
      EscapeSpells(text[1..]);
    }
  }

  /** No spelling of a character is shorter than its escape, and the hexadecimal digits of an escape are lower case. */
  lemma EscapeCharIsShortest(e: string, c: char)
    requires SpellsChar(e, c)
    ensures |EscapeChar(c)| <= |e|
    ensures |EscapeChar(c)| > 2 ==> forall i :: 2 <= i < |EscapeChar(c)| ==> EscapeChar(c)[i] in "0123456789abcdef"
  {
    if |EscapeChar(c)| > 2 {
      ControlSpells(c);
      LowerCase(c);
      if ShortSpelling(e, c) { NotShort(e, c); }
    }
  }

  lemma LowerCase(c: char)
    requires c < ' ' && |EscapeChar(c)| > 2
    ensures forall i :: 2 <= i < |EscapeChar(c)| ==> EscapeChar(c)[i] in "0123456789abcdef"
  {
    var e, n := EscapeChar(c), c as int;
    assert e == "\\u00" + [HEX[n / 16], HEX[n % 16]];
    assert HEX == "0123456789abcdef";
    assert e[2] == HEX[0] && e[3] == HEX[0] && e[4] == HEX[n / 16] && e[5] == HEX[n % 16];
  }

  lemma NotShort(e: string, c: char)
    requires ShortSpelling(e, c)
    ensures |EscapeChar(c)| <= 2
  {
    assert MEANINGS[0] == '\"' && MEANINGS[1] == '\\' && MEANINGS[2] == '/' && MEANINGS[3] == '\U{8}';
    assert MEANINGS[4] == '\U{C}' && MEANINGS[5] == '\n' && MEANINGS[6] == '\r' && MEANINGS[7] == '\t';
  }

  lemma {:induction false} EscapeIsShortest(s: string, text: string)
    requires SpellsText(s, text)
    ensures |Escape(text)| <= |s|
    decreases |text|
  {
    if text != "" {
      var e, more :| SpellsChar(e, text[0]) && SpellsText(more, text[1..]) && s == e + more;
      EscapeCharIsShortest(e, text[0]);
      EscapeIsShortest(more, text[1..]);
    }
  }

  lemma QuoteWrites(text: string)
    ensures Quoted(Quote(text), text)
  {
    EscapeSpells(text);
    assert Quote(text) == QUOTE + Escape(text) + QUOTE;
  }

  lemma QuoteIsShortest(s: string, text: string)
    requires Quoted(s, text)
    ensures |Quote(text)| <= |s|
  {
    var body :| SpellsText(body, text) && s == QUOTE + body + QUOTE;
    EscapeIsShortest(body, text);
  }

  // --------------------------------------------------------- printed trees

  /** What is printed is a text of the tree. */
  lemma {:induction false} PrintWrites(t: Tree)
    ensures Writes(Print(t), t)
    decreases t, 0
  {
    match t
    case TString(text) => QuoteWrites(text);
    case TArray(items) =>
      PrintItemsWrites(items, true);
      Cons('[', PrintItems(items, true));
      assert Print(t) == ['['] + PrintItems(items, true);
    case TObject(members) =>
      PrintMembersWrites(members, true);
      Cons('{', PrintMembers(members, true));
      assert Print(t) == ['{'] + PrintMembers(members, true);
    case _ =>
  }

  function Comma(first: bool): string { if first then "" else "," }

  lemma CommaLeads(first: bool)
    ensures Lead(Comma(first), first)
  {
    if !first {
      var w := ",";
      assert w[0] == ',' && Space(w[..0]) && Space(w[1..]);
    }
  }

  lemma {:induction false} PrintItemsWrites(items: seq<Tree>, first: bool)
    ensures WritesItems(PrintItems(items, first), items, first)
    decreases items, 1
  {
    if items != [] {
      PrintWrites(items[0]);
      PrintItemsWrites(items[1..], false);
      CommaLeads(first);
      var text, more := Print(items[0]), PrintItems(items[1..], false);
      WritesItemsCons(Comma(first), first, text, items[0], more, items[1..]);
      assert items == [items[0]] + items[1..];
      Regroup(Comma(first), text, more, []);
    }
  }

  lemma {:induction false} PrintMembersWrites(members: seq<Member>, first: bool)
    ensures WritesMembers(PrintMembers(members, first), members, first)
    decreases members, 1
  {
    if members != [] {
      var Member(key, value) := members[0];
      PrintWrites(value);
      PrintMembersWrites(members[1..], false);
      CommaLeads(first);
      QuoteWrites(key);
      ColonIsAround();
      var text, more := Print(value), PrintMembers(members[1..], false);
      WritesMembersCons(Comma(first), first, Quote(key), ":", text, members[0], more, members[1..]);
      assert members == [members[0]] + members[1..];
      RegroupMember(Comma(first), Quote(key), text, more);
    }
  }

  lemma ColonIsAround()
    ensures Around(":", ':')
  {
    var w := ":";
    assert w[0] == ':' && Space(w[..0]) && Space(w[1..]);
  }

  lemma RegroupMember(comma: string, key: string, text: string, more: string)
    ensures comma + key + ":" + text + more == comma + (key + (":" + (text + more)))
  {
    assert key + ":" + text + more == key + (":" + (text + more));
    assert comma + key + ":" + text + more == comma + (key + ":" + text + more);
  }

  /** No text of the tree is shorter: the printer writes no space and the shortest spelling of every string. */
  lemma {:induction false} PrintIsShortest(s: string, t: Tree)
    requires Writes(s, t)
    ensures |Print(t)| <= |s|
    decreases t, 0
  {
    match t
    case TString(text) => QuoteIsShortest(s, text);
    case TArray(items) => PrintItemsAreShortest(s[1..], items, true);
    case TObject(members) => PrintMembersAreShortest(s[1..], members, true);
    case _ =>
  }

  lemma LeadIsLong(lead: string, first: bool)
    requires Lead(lead, first)
    ensures |lead| >= |Comma(first)|
  {}

  lemma {:induction false} PrintItemsAreShortest(s: string, items: seq<Tree>, first: bool)
    requires WritesItems(s, items, first)
    ensures |PrintItems(items, first)| <= |s|
    decreases items, 1
  {
    if items != [] {
      var lead, text, more := FirstItem(s, items, first);
      LeadIsLong(lead, first);
      PrintIsShortest(text, items[0]);
      PrintItemsAreShortest(more, items[1..], false);
    }
  }

  lemma {:induction false} PrintMembersAreShortest(s: string, members: seq<Member>, first: bool)
    requires WritesMembers(s, members, first)
    ensures |PrintMembers(members, first)| <= |s|
    decreases members, 1
  {
    if members != [] {
      var lead, key, colon, text, more := FirstMember(s, members, first);
      LeadIsLong(lead, first);
      QuoteIsShortest(key, members[0].key);
      AroundStarts(colon, ':');
      PrintIsShortest(text, members[0].value);
      PrintMembersAreShortest(more, members[1..], false);
    }
  }

  // ------------------------------------------------------------ round trip

  /**
   * Reading back is exact: in front of any continuation that does not extend
   * a number, the printed tree is read as itself, and nothing more is
   * consumed. It fails exactly when the tree nests deeper than allowed.
   */
  lemma ValueReadsBack(t: Tree, rest: string, depth: nat)
    requires NumberEnds(rest) && depth > 0
    ensures ValueText(Print(t) + rest, depth) == if Depth(t) < depth then Ok(t, rest) else Err
  {
    PrintWrites(t);
    TextReads(Print(t), t, rest, depth);
  }

  /** Printed trees are never prefixes of one another, and distinct trees print differently. */
  lemma PrintPrefixFree(a: Tree, b: Tree, x: string, y: string)
    requires NumberEnds(x) && NumberEnds(y) && Print(a) + x == Print(b) + y
    ensures a == b && x == y
  {
    var depth := Max(Depth(a), Depth(b)) + 1;
    ValueReadsBack(a, x, depth);
    ValueReadsBack(b, y, depth);
  }
}
