/** The simple regular expressions of gtest-port.cc: syntax check, matcher and the RE class.

    C strings are sequences without NUL; a test for the terminator is a test for the end. */
module SimpleRegex {

  import opened Wrappers

  ghost predicate NulFree(s: string) { forall i :: 0 <= i < |s| ==> s[i] != '\0' }

  /** The character at i; the terminator behind the end. */
  function At(s: string, i: nat): char { if i < |s| then s[i] else '\0' }

  // ---------- Character classes ----------

  const FORM_FEED := '\U{0C}'
  const VERTICAL_TAB := '\U{0B}'

  predicate IsInSet(ch: char, str: string) { ch != '\0' && ch in str }

  predicate IsAsciiDigit(ch: char) { '0' <= ch <= '9' }

  predicate IsAsciiPunct(ch: char) { IsInSet(ch, "^-!\"#$%&'()*+,./:;<=>?@[\\]_`{|}~") }

  predicate IsRepeat(ch: char) { IsInSet(ch, "?*+") }

  predicate IsAsciiWhiteSpace(ch: char) { IsInSet(ch, [' ', FORM_FEED, '\n', '\r', '\t', VERTICAL_TAB]) }

  predicate IsAsciiWordChar(ch: char) {
    'a' <= ch <= 'z' || 'A' <= ch <= 'Z' || '0' <= ch <= '9' || ch == '_'
  }

  predicate IsValidEscape(c: char) { IsAsciiPunct(c) || IsInSet(c, "dDfnrsStvwW") }

  predicate AtomMatchesChar(escaped: bool, patternChar: char, ch: char) {
    if escaped then
      match patternChar
      case 'd' => IsAsciiDigit(ch)
      case 'D' => !IsAsciiDigit(ch)
      case 'f' => ch == FORM_FEED
      case 'n' => ch == '\n'
      case 'r' => ch == '\r'
      case 's' => IsAsciiWhiteSpace(ch)
      case 'S' => !IsAsciiWhiteSpace(ch)
      case 't' => ch == '\t'
      case 'v' => ch == VERTICAL_TAB
      case 'w' => IsAsciiWordChar(ch)
      case 'W' => !IsAsciiWordChar(ch)
      case _ => IsAsciiPunct(patternChar) && patternChar == ch
    else (patternChar == '.' && ch != '\n') || patternChar == ch
  }

  // ---------- The grammar: [^] (atom [?*+])* [$] ----------

  datatype Repeat = Once | Optional | Any | AtLeastOnce

  datatype Item = Item(escaped: bool, c: char, repeat: Repeat)

  datatype Pattern = Pattern(atStart: bool, items: seq<Item>, atEnd: bool)

  predicate ValidItem(item: Item) {
    if item.escaped then IsValidEscape(item.c) else item.c != '\0' && item.c !in "\\^$()[]{}|?*+"
  }

  ghost predicate ValidItems(items: seq<Item>) { forall i :: 0 <= i < |items| ==> ValidItem(items[i]) }

  function RepeatText(r: Repeat): string {
    match r
    case Once => ""
    case Optional => "?"
    case Any => "*"
    case AtLeastOnce => "+"
  }

  function ItemText(item: Item): string {
    (if item.escaped then "\\" else "") + [item.c] + RepeatText(item.repeat)
  }

  /** The text of a list of items, followed by the end anchor if there is one. */
  function TailText(items: seq<Item>, atEnd: bool): string {
    if items == [] then (if atEnd then "$" else "") else ItemText(items[0]) + TailText(items[1..], atEnd)
  }

  function Text(p: Pattern): string { (if p.atStart then "^" else "") + TailText(p.items, p.atEnd) }

  ghost predicate Denotes(regex: string, p: Pattern) { ValidItems(p.items) && regex == Text(p) }

  // ---------- The syntax check ----------

  /** What the scan says of the characters from i on. */
  predicate Scan(regex: string, i: nat, prevRepeatable: bool)
    decreases |regex| - i
  {
    if i >= |regex| then true
    else if regex[i] == '\\' then
      i + 1 < |regex| && IsValidEscape(regex[i + 1]) && Scan(regex, i + 2, true)
    else
      var ch := regex[i];
      && !(ch == '^' && i > 0)
      && !(ch == '$' && i + 1 < |regex|)
      && !IsInSet(ch, "()[]{}|")
      && !(IsRepeat(ch) && !prevRepeatable)
      && Scan(regex, i + 1, !IsInSet(ch, "^$?*+"))
  }

  lemma ScanAcceptsItem(items: seq<Item>, rest: string, regex: string, i: nat, prev: bool)
    requires items != [] && ValidItems(items) && i <= |regex| && regex[i..] == ItemText(items[0]) + rest
    requires Scan(regex, i + |ItemText(items[0])|, items[0].repeat == Once)
    ensures Scan(regex, i, prev)
  {
    var item := items[0];
    var text, t := ItemText(item), regex[i..];
    var j := if item.escaped then 1 else 0;
    assert text[0] == (if item.escaped then '\\' else item.c) && text[j] == item.c;
    assert regex[i] == t[0] == text[0] && regex[i + j] == t[j] == text[j];
    if item.repeat != Once {
      assert regex[i + (j + 1)] == t[j + 1] == text[j + 1] == RepeatText(item.repeat)[0];
      assert Scan(regex, i + j + 1, true);
    }
  }

  lemma ScanAcceptsEnd(regex: string, i: nat, atEnd: bool, prev: bool)
    requires i <= |regex| && regex[i..] == if atEnd then "$" else ""
    ensures Scan(regex, i, prev)
  {
    assert atEnd ==> |regex| == i + 1 && regex[i..][0] == regex[i] == '$';
  }

  lemma DropFront(s: string, i: nat, a: string, b: string)
    requires i <= |s| && s[i..] == a + b
    ensures i + |a| <= |s| && s[i + |a|..] == b
  {
    assert |s[i..]| == |a| + |b| && s[i + |a|..] == s[i..][|a|..];
  }

  lemma {:induction false} ScanAcceptsTail(items: seq<Item>, atEnd: bool, regex: string, i: nat, prev: bool)
    requires ValidItems(items) && i <= |regex| && regex[i..] == TailText(items, atEnd)
    ensures Scan(regex, i, prev)
    decreases |items|
  {
    if items == [] {
      ScanAcceptsEnd(regex, i, atEnd, prev);
    } else {
      var text, rest := ItemText(items[0]), TailText(items[1..], atEnd);
      assert i + |text| <= |regex| && regex[i + |text|..] == rest by { DropFront(regex, i, text, rest); }
      ScanAcceptsTail(items[1..], atEnd, regex, i + |text|, items[0].repeat == Once);
      ScanAcceptsItem(items, rest, regex, i, prev);
    }
  }

  function RepeatOf(ch: char): Repeat {
    match ch
    case '?' => Optional
    case '*' => Any
    case '+' => AtLeastOnce
    case _ => Once
  }

  lemma TailAfterItem(atom: string, item: Item, rest: seq<Item>, atEnd: bool)
    requires atom == (if item.escaped then "\\" else "") + [item.c]
    ensures atom + (RepeatText(item.repeat) + TailText(rest, atEnd)) == TailText([item] + rest, atEnd)
  {
    assert ([item] + rest)[1..] == rest;
    assert ItemText(item) == atom + RepeatText(item.repeat);
  }

  lemma PlainAtom(c: char)
    requires c != '\0' && c != '\\' && !IsInSet(c, "()[]{}|") && !IsInSet(c, "^$?*+")
    ensures c !in "\\^$()[]{}|?*+"
  {
  }

  /** An atom, its repetition and what follows are items again. */
  lemma ReadsAtom(regex: string, i: nat, next: nat, item: Item, rest: seq<Item>, atEnd: bool)
    requires NulFree(regex) && i < next <= |regex| && item.c == regex[next - 1] && ValidItems(rest)
    requires if item.escaped then next == i + 2 && regex[i] == '\\' && IsValidEscape(item.c)
             else next == i + 1 && item.c != '\\' && !IsInSet(item.c, "()[]{}|") && !IsInSet(item.c, "^$?*+")
    requires regex[next..] == RepeatText(item.repeat) + TailText(rest, atEnd)
    ensures ValidItems([item] + rest) && regex[i..] == TailText([item] + rest, atEnd)
  {
    var atom := regex[i..next];
    if !item.escaped { PlainAtom(item.c); }
    assert ValidItem(item);
    assert atom == (if item.escaped then "\\" else "") + [item.c];
    assert regex[i..] == atom + regex[next..];
    TailAfterItem(atom, item, rest, atEnd);
  }

  lemma ReadsRepeat(regex: string, i: nat)
    requires i < |regex| && IsRepeat(regex[i])
    ensures RepeatOf(regex[i]) != Once && regex[i..] == RepeatText(RepeatOf(regex[i])) + regex[i + 1..]
  {
    assert regex[i..] == [regex[i]] + regex[i + 1..];
  }

  /** What a successful scan has read: perhaps a repetition of the atom before, then items. */
  lemma {:induction false} ScanReads(regex: string, i: nat, prev: bool)
    returns (lead: Repeat, items: seq<Item>, atEnd: bool)
    requires NulFree(regex) && i <= |regex| && Scan(regex, i, prev)
    requires i == 0 ==> At(regex, 0) != '^'
    ensures lead != Once ==> prev
    ensures ValidItems(items) && regex[i..] == RepeatText(lead) + TailText(items, atEnd)
    decreases |regex| - i
  {
    lead, items, atEnd := Once, [], false;
    if i < |regex| {
      var ch := regex[i];
      var escaped := ch == '\\';
      var next := if escaped then i + 2 else i + 1;
      var r, rest, e := ScanReads(regex, next, escaped || !IsInSet(ch, "^$?*+"));
      if escaped || !IsInSet(ch, "^$?*+") {
        var item := Item(escaped, regex[next - 1], r);
        ReadsAtom(regex, i, next, item, rest, e);
        items, atEnd := [item] + rest, e;
      } else if IsRepeat(ch) {
        ReadsRepeat(regex, i);
        lead, items, atEnd := RepeatOf(ch), rest, e;
      } else {
        atEnd := true;
        assert regex[i..] == "$";
      }
    }
  }

  lemma ScanIsGrammar(regex: string)
    requires NulFree(regex)
    ensures Scan(regex, 0, false) <==> exists p :: Denotes(regex, p)
  {
    if Scan(regex, 0, false) {
      var start := At(regex, 0) == '^';
      var lead, items, atEnd := ScanReads(regex, if start then 1 else 0, false);
      assert Denotes(regex, Pattern(start, items, atEnd)) by {
        assert start ==> regex == "^" + regex[1..];
        assert !start ==> regex == regex[0..];
      }
    }
    if p :| Denotes(regex, p) {
      if p.atStart {
        assert regex[1..] == TailText(p.items, p.atEnd);
        ScanAcceptsTail(p.items, p.atEnd, regex, 1, false);
      } else {
        assert regex[0..] == TailText(p.items, p.atEnd);
        ScanAcceptsTail(p.items, p.atEnd, regex, 0, false);
      }
    }
  }

  method ValidateRegex(regex: Option<string>) returns (isValid: bool)
    requires regex.Some? ==> NulFree(regex.value)
    ensures isValid <==> regex.Some? && exists p :: Denotes(regex.value, p)
  {
    if regex == None { return false; }
    var s := regex.value;
    ScanIsGrammar(s);
    isValid := true;
    var prevRepeatable := false;
    var i := 0;
    while i < |s|
      invariant 0 <= i <= |s|
      invariant Scan(s, 0, false) <==> isValid && Scan(s, i, prevRepeatable)
      decreases |s| - i
    {
      if s[i] == '\\' {
        i := i + 1;
        if i == |s| { return false; }
        if !IsValidEscape(s[i]) {
          isValid := false;
        }
        prevRepeatable := true;
      } else {
        var ch := s[i];
        if ch == '^' && i > 0 {
          isValid := false;
        } else if ch == '$' && At(s, i + 1) != '\0' {
          isValid := false;
        } else if IsInSet(ch, "()[]{}|") {
          isValid := false;
        } else if IsRepeat(ch) && !prevRepeatable {
          isValid := false;
        }
        prevRepeatable := !IsInSet(ch, "^$?*+");
      }
      i := i + 1;
    }
  }

  // ---------- The language of a pattern ----------

  predicate CountAllowed(r: Repeat, n: nat) {
    match r
    case Once => n == 1
    case Optional => n <= 1
    case Any => true
    case AtLeastOnce => n >= 1
  }

  ghost predicate ItemAccepts(item: Item, s: string) {
    CountAllowed(item.repeat, |s|) && forall k :: 0 <= k < |s| ==> AtomMatchesChar(item.escaped, item.c, s[k])
  }

  ghost predicate InLanguage(items: seq<Item>, s: string) {
    if items == [] then s == ""
    else exists k :: 0 <= k <= |s| && ItemAccepts(items[0], s[..k]) && InLanguage(items[1..], s[k..])
  }

  /** Some prefix of s, all of it if the pattern is anchored at the end, is in the language. */
  ghost predicate PrefixInLanguage(items: seq<Item>, atEnd: bool, s: string) {
    exists b :: 0 <= b <= |s| && (atEnd ==> b == |s|) && InLanguage(items, s[..b])
  }

  /** Some substring that the anchors allow is in the language. */
  ghost predicate SubstringInLanguage(p: Pattern, s: string) {
    exists a, b :: 0 <= a <= b <= |s| && (p.atStart ==> a == 0) && (p.atEnd ==> b == |s|)
                   && InLanguage(p.items, s[a..b])
  }

  lemma PrefixOfNoItems(atEnd: bool, s: string)
    ensures PrefixInLanguage([], atEnd, s) <==> !atEnd || s == ""
  {
    assert InLanguage([], s[..0]);
  }

  /** The first item takes i characters and the others a prefix of what is left. */
  ghost predicate ItemThenPrefix(item: Item, rest: seq<Item>, atEnd: bool, s: string, i: int) {
    0 <= i <= |s| && ItemAccepts(item, s[..i]) && PrefixInLanguage(rest, atEnd, s[i..])
  }

  lemma PrefixOfItems(item: Item, rest: seq<Item>, atEnd: bool, s: string)
    ensures PrefixInLanguage([item] + rest, atEnd, s) <==> exists i :: ItemThenPrefix(item, rest, atEnd, s, i)
  {
    var items := [item] + rest;
    assert items[1..] == rest;
    if PrefixInLanguage(items, atEnd, s) {
      var b :| 0 <= b <= |s| && (atEnd ==> b == |s|) && InLanguage(items, s[..b]);
      var k :| 0 <= k <= b && ItemAccepts(item, s[..b][..k]) && InLanguage(rest, s[..b][k..]);
      assert s[..b][..k] == s[..k] && s[..b][k..] == s[k..][..b - k];
      assert ItemThenPrefix(item, rest, atEnd, s, k);
    }
    if i :| ItemThenPrefix(item, rest, atEnd, s, i) {
      var c :| 0 <= c <= |s[i..]| && (atEnd ==> c == |s[i..]|) && InLanguage(rest, s[i..][..c]);
      assert s[..i + c][..i] == s[..i] && s[..i + c][i..] == s[i..][..c];
      assert InLanguage(items, s[..i + c]);
    }
  }

  // ---------- The matcher ----------

  /** Tries 0, 1, 2, ... repetitions of the atom, each followed by the rest of the pattern. */
  method MatchRepetitionAndRegexAtHead(escaped: bool, c: char, repeat: char, regex: string, str: string,
                                       ghost items: seq<Item>, ghost atEnd: bool)
    returns (result: bool)
    requires IsRepeat(repeat) && ValidItems(items) && regex == TailText(items, atEnd)
    ensures result <==> exists i :: ItemThenPrefix(Item(escaped, c, RepeatOf(repeat)), items, atEnd, str, i)
    decreases |regex|, 1
  {
    ghost var item := Item(escaped, c, RepeatOf(repeat));
    var minCount := if repeat == '+' then 1 else 0;
    var i := 0;
    while repeat != '?' || i <= 1
      invariant 0 <= i <= |str|
      invariant forall k :: 0 <= k < i ==> AtomMatchesChar(escaped, c, str[k])
      invariant forall k :: 0 <= k < i ==> !ItemThenPrefix(item, items, atEnd, str, k)
      decreases |str| - i
    {
      if i >= minCount {
        var tailMatches := MatchRegexAtHead(regex, str[i..], items, atEnd);
        if tailMatches {
          assert CountAllowed(item.repeat, i) ==> ItemThenPrefix(item, items, atEnd, str, i);
          return true;
        }
      }
      assert !ItemThenPrefix(item, items, atEnd, str, i);
      if i == |str| || !AtomMatchesChar(escaped, c, str[i]) {
        assert forall k :: i < k <= |str| ==> !AtomMatchesChar(escaped, c, str[..k][i]);
        return false;
      }
      i := i + 1;
    }
    return false;
  }

  method MatchRegexAtHead(regex: string, str: string, ghost items: seq<Item>, ghost atEnd: bool)
    returns (result: bool)
    requires ValidItems(items) && regex == TailText(items, atEnd)
    ensures result <==> PrefixInLanguage(items, atEnd, str)
    decreases |regex|, 0
  {
    PrefixOfNoItems(atEnd, str);
    if regex == "" { return true; }
    if regex[0] == '$' { return str == ""; }
    ghost var item, rest := items[0], items[1..];
    HeadOfText(items, atEnd);
    assert items == [item] + rest;
    PrefixOfItems(item, rest, atEnd, str);
    var escaped := regex[0] == '\\';
    var atom := if escaped then regex[1..] else regex;
    if IsRepeat(At(atom, 1)) {
      result := MatchRepetitionAndRegexAtHead(escaped, atom[0], atom[1], atom[2..], str, rest, atEnd);
    } else {
      result := str != "" && AtomMatchesChar(escaped, atom[0], str[0]);
      if result {
        result := MatchRegexAtHead(atom[1..], str[1..], rest, atEnd);
      }
      assert result <==> ItemThenPrefix(item, rest, atEnd, str, 1);
    }
  }

  lemma PlainCharacter(item: Item)
    requires ValidItem(item) && !item.escaped
    ensures item.c != '$' && item.c != '^' && item.c != '\\' && !IsRepeat(item.c)
  {
    assert forall c :: c in "\\^$?*+" ==> c in "\\^$()[]{}|?*+";
  }

  lemma FirstOfItemText(item: Item)
    ensures ItemText(item) != "" && ItemText(item)[0] == if item.escaped then '\\' else item.c
  {
  }

  /** No repetition character follows an item's own. */
  lemma TailNeverRepeats(items: seq<Item>, atEnd: bool)
    requires ValidItems(items)
    ensures !IsRepeat(At(TailText(items, atEnd), 0))
  {
    if items != [] {
      FirstOfItemText(items[0]);
      assert TailText(items, atEnd)[0] == ItemText(items[0])[0];
      assert ValidItem(items[0]);
    }
  }

  lemma AtomThenRest(atom: string, c: char, r: Repeat, rest: string)
    requires atom == [c] + RepeatText(r) + rest && !IsRepeat(At(rest, 0))
    ensures atom[0] == c && (IsRepeat(At(atom, 1)) <==> r != Once)
    ensures r != Once ==> RepeatOf(atom[1]) == r && atom[2..] == rest
    ensures r == Once ==> atom[1..] == rest
  {
    match r
    case Once => assert atom == [c] + rest;
    case Optional => assert atom == [c, '?'] + rest;
    case Any => assert atom == [c, '*'] + rest;
    case AtLeastOnce => assert atom == [c, '+'] + rest;
  }

  /** How the text of at least one item starts. */
  lemma HeadOfText(items: seq<Item>, atEnd: bool)
    requires items != [] && ValidItems(items)
    ensures var regex, item, rest := TailText(items, atEnd), items[0], TailText(items[1..], atEnd);
      && regex != "" && regex[0] != '$' && (regex[0] == '\\' <==> item.escaped)
      && (item.escaped ==> |regex| > 1)
      && var atom := if item.escaped then regex[1..] else regex;
         && atom != "" && atom[0] == item.c
         && (IsRepeat(At(atom, 1)) <==> item.repeat != Once)
         && (item.repeat != Once ==> RepeatOf(atom[1]) == item.repeat && atom[2..] == rest)
         && (item.repeat == Once ==> atom[1..] == rest)
  {
    var item, rest := items[0], TailText(items[1..], atEnd);
    var atom := [item.c] + RepeatText(item.repeat) + rest;
    assert ValidItem(item);
    TailNeverRepeats(items[1..], atEnd);
    AtomThenRest(atom, item.c, item.repeat, rest);
    TextAroundAtom(item, rest);
    if item.escaped {
      assert (['\\'] + atom)[1..] == atom;
    } else {
      PlainCharacter(item);
    }
  }

  lemma TextAroundAtom(item: Item, rest: string)
    ensures ItemText(item) + rest ==
              (if item.escaped then ['\\'] else []) + ([item.c] + RepeatText(item.repeat) + rest)
  {
  }

  lemma {:induction false} TailDeterminesItems(items: seq<Item>, atEnd: bool, items': seq<Item>, atEnd': bool)
    requires ValidItems(items) && ValidItems(items') && TailText(items, atEnd) == TailText(items', atEnd')
    ensures items == items' && atEnd == atEnd'
  {
    if items != [] {
      HeadOfText(items, atEnd);
    }
    if items' != [] {
      HeadOfText(items', atEnd');
    }
    if items != [] && items' != [] {
      TailDeterminesItems(items[1..], atEnd, items'[1..], atEnd');
      assert items == [items[0]] + items[1..] && items' == [items'[0]] + items'[1..];
    }
  }

  /** The grammar is unambiguous: a text denotes at most one pattern. */
  lemma TextDeterminesPattern(p: Pattern, q: Pattern)
    requires ValidItems(p.items) && ValidItems(q.items) && Text(p) == Text(q)
    ensures p == q
  {
    StartAnchorShows(p);
    StartAnchorShows(q);
    var n := if p.atStart then 1 else 0;
    assert Text(p)[n..] == TailText(p.items, p.atEnd) && Text(q)[n..] == TailText(q.items, q.atEnd);
    TailDeterminesItems(p.items, p.atEnd, q.items, q.atEnd);
  }

  lemma StartAnchorShows(p: Pattern)
    requires ValidItems(p.items)
    ensures At(Text(p), 0) == '^' <==> p.atStart
  {
    if !p.atStart && p.items != [] {
      FirstOfItemText(p.items[0]);
      assert ValidItem(p.items[0]) && Text(p)[0] == ItemText(p.items[0])[0];
      if !p.items[0].escaped {
        PlainCharacter(p.items[0]);
      }
    }
  }

  lemma SubstringByStart(p: Pattern, s: string)
    ensures SubstringInLanguage(p, s) <==>
              exists a :: 0 <= a <= |s| && (p.atStart ==> a == 0) && PrefixInLanguage(p.items, p.atEnd, s[a..])
  {
    if SubstringInLanguage(p, s) {
      var a, b :| 0 <= a <= b <= |s| && (p.atStart ==> a == 0) && (p.atEnd ==> b == |s|)
                  && InLanguage(p.items, s[a..b]);
      assert s[a..][..b - a] == s[a..b];
      assert PrefixInLanguage(p.items, p.atEnd, s[a..]);
    }
    if a :| 0 <= a <= |s| && (p.atStart ==> a == 0) && PrefixInLanguage(p.items, p.atEnd, s[a..]) {
      var c :| 0 <= c <= |s[a..]| && (p.atEnd ==> c == |s[a..]|) && InLanguage(p.items, s[a..][..c]);
      assert s[a..][..c] == s[a..a + c];
    }
  }

  method MatchRegexAnywhere(regex: Option<string>, str: Option<string>, ghost p: Pattern) returns (result: bool)
    requires regex.Some? ==> Denotes(regex.value, p)
    ensures result <==> regex.Some? && str.Some? && SubstringInLanguage(p, str.value)
  {
    if regex == None || str == None { return false; }
    var r, s := regex.value, str.value;
    StartAnchorShows(p);
    SubstringByStart(p, s);
    if At(r, 0) == '^' {
      assert s[0..] == s && r[1..] == TailText(p.items, p.atEnd);
      result := MatchRegexAtHead(r[1..], s, p.items, p.atEnd);
      return;
    }
    assert r == TailText(p.items, p.atEnd);
    var a := 0;
    while true
      invariant 0 <= a <= |s|
      invariant forall k :: 0 <= k < a ==> !PrefixInLanguage(p.items, p.atEnd, s[k..])
      decreases |s| - a
    {
      result := MatchRegexAtHead(r, s[a..], p.items, p.atEnd);
      if result || a == |s| { return; }
      a := a + 1;
    }
  }

  // ---------- The RE class ----------

  /** The pattern's text ends in a backslash and a dollar, which does not anchor it. */
  predicate EndsInEscapedDollar(p: Pattern) {
    !p.atEnd && p.items != [] && p.items[|p.items| - 1] == Item(true, '$', Once)
  }

  /** The pattern that full matching uses. */
  function Full(p: Pattern): Pattern { Pattern(true, p.items, p.atEnd || !EndsInEscapedDollar(p)) }

  lemma {:induction false} LastOfTail(items: seq<Item>, atEnd: bool)
    requires ValidItems(items) && (items != [] || atEnd)
    ensures var text := TailText(items, atEnd);
      text != "" && (text[|text| - 1] == '$' <==> atEnd || items[|items| - 1] == Item(true, '$', Once))
  {
    if items != [] {
      var item, rest := items[0], TailText(items[1..], atEnd);
      assert ValidItem(item);
      if items[1..] != [] || atEnd {
        LastOfTail(items[1..], atEnd);
      } else {
        assert ItemText(item) + rest == ItemText(item);
        if item.repeat == Once && !item.escaped {
          PlainCharacter(item);
        }
      }
    }
  }

  lemma {:induction false} TailWithAnchor(items: seq<Item>)
    ensures TailText(items, true) == TailText(items, false) + "$"
  {
    if items != [] {
      TailWithAnchor(items[1..]);
    }
  }

  /** A text ends in a dollar when that dollar is the anchor or an escaped last atom. */
  lemma EndAnchorShows(p: Pattern)
    requires ValidItems(p.items)
    ensures var text := Text(p);
      text != "" && text[|text| - 1] == '$' <==> p.atEnd || EndsInEscapedDollar(p)
  {
    var text, tail := Text(p), TailText(p.items, p.atEnd);
    if p.items != [] || p.atEnd {
      LastOfTail(p.items, p.atEnd);
      assert text[|text| - 1] == tail[|tail| - 1];
    }
  }

  /** The text with the anchors that its first and last character do not already show. */
  function WithAnchors(text: string): string {
    (if text == "" || text[0] != '^' then "^" else "") + text
    + (if text == "" || text[|text| - 1] != '$' then "$" else "")
  }

  lemma FullText(p: Pattern)
    requires ValidItems(p.items)
    ensures Text(Full(p)) == WithAnchors(Text(p))
  {
    var text := Text(p);
    StartAnchorShows(p);
    EndAnchorShows(p);
    TailWithAnchor(p.items);
    var head, anchor := if p.atStart then "" else "^", if p.atEnd || EndsInEscapedDollar(p) then "" else "$";
    var tail := TailText(p.items, p.atEnd);
    assert TailText(p.items, Full(p).atEnd) == tail + anchor;
    assert "^" + (tail + anchor) == "^" + tail + anchor;
    assert "^" + tail == head + text;
  }

  lemma FullIsWhole(p: Pattern, s: string)
    requires !EndsInEscapedDollar(p)
    ensures SubstringInLanguage(Full(p), s) <==> InLanguage(p.items, s)
  {
    assert s[0..|s|] == s;
  }

  class RE {
    var isValid: bool
    var pattern: string
    var fullPattern: string

    // The text it was made from, if any.
    ghost var regex: Option<string>

    ghost predicate Valid()
      reads this
    {
      && (regex.Some? ==> pattern == regex.value)
      && (isValid <==> regex.Some? && exists p :: Denotes(pattern, p))
      && (isValid ==> forall p :: Denotes(pattern, p) ==> fullPattern == Text(Full(p)))
    }

    constructor (regex: Option<string>)
      requires regex.Some? ==> NulFree(regex.value)
      ensures Valid() && this.regex == regex
    {
      isValid, pattern, fullPattern := false, "", "";
      new;
      Init(regex);
    }

    method Init(regex: Option<string>)
      requires regex.Some? ==> NulFree(regex.value)
      modifies this
      ensures Valid() && this.regex == regex
    {
      this.regex := regex;
      fullPattern := "";
      pattern := "";
      if regex.Some? {
        pattern := regex.value;
      }
      isValid := ValidateRegex(regex);
      if !isValid { return; }
      if pattern == "" || pattern[0] != '^' {
        fullPattern := fullPattern + "^";
      }
      fullPattern := fullPattern + pattern;
      if pattern == "" || pattern[|pattern| - 1] != '$' {
        fullPattern := fullPattern + "$";
      }
      assert fullPattern == WithAnchors(pattern);
      forall p | Denotes(pattern, p) ensures fullPattern == Text(Full(p)) {
        FullText(p);
      }
    }

    /** The whole string is in the language, unless the pattern ends in an escaped dollar: then
        any string with a prefix in the language passes. Without a text no string passes. */
    method FullMatch(str: Option<string>) returns (result: bool)
      requires Valid()
      ensures result ==> isValid && str.Some?
      ensures regex.Some? && str.Some? ==> forall p :: Denotes(regex.value, p) ==>
        && (result <==> SubstringInLanguage(Full(p), str.value))
        && (!EndsInEscapedDollar(p) ==> (result <==> InLanguage(p.items, str.value)))
    {
      result := false;
      if isValid {
        ghost var p :| Denotes(pattern, p);
        result := MatchRegexAnywhere(Some(fullPattern), str, Full(p));
        forall q | Denotes(pattern, q) && str.Some?
          ensures SubstringInLanguage(Full(q), str.value) <==> result
          ensures !EndsInEscapedDollar(q) ==> (result <==> InLanguage(q.items, str.value))
        {
          TextDeterminesPattern(p, q);
          if !EndsInEscapedDollar(q) { FullIsWhole(q, str.value); }
        }
      }
    }

    method PartialMatch(str: Option<string>) returns (result: bool)
      requires Valid()
      ensures result ==> isValid && str.Some?
      ensures regex.Some? && str.Some? ==>
        forall p :: Denotes(regex.value, p) ==> (result <==> SubstringInLanguage(p, str.value))
    {
      result := false;
      if isValid {
        ghost var p :| Denotes(pattern, p);
        result := MatchRegexAnywhere(Some(pattern), str, p);
        forall q | Denotes(pattern, q) && str.Some? ensures SubstringInLanguage(q, str.value) <==> result {
          TextDeterminesPattern(p, q);
        }
      }
    }
  }

  // ---------- When full matching matches the whole string ----------

  /** A character that the atom of a valid item matches. */
  function Sample(item: Item): (ch: char)
    requires ValidItem(item)
    ensures ch != '\0' && AtomMatchesChar(item.escaped, item.c, ch)
  {
    if item.escaped then
      match item.c
      case 'd' => '0'
      case 'D' => 'a'
      case 'f' => FORM_FEED
      case 'n' => '\n'
      case 'r' => '\r'
      case 's' => ' '
      case 'S' => 'a'
      case 't' => '\t'
      case 'v' => VERTICAL_TAB
      case 'w' => 'a'
      case 'W' => '-'
      case c => c
    else item.c
  }

  function Word(items: seq<Item>): string
    requires ValidItems(items)
  {
    if items == [] then "" else [Sample(items[0])] + Word(items[1..])
  }

  /** Every valid pattern accepts something. */
  lemma {:induction false} WordInLanguage(items: seq<Item>)
    requires ValidItems(items)
    ensures InLanguage(items, Word(items)) && NulFree(Word(items))
  {
    if items != [] {
      var w := Word(items);
      WordInLanguage(items[1..]);
      assert w[..1] == [Sample(items[0])] && w[1..] == Word(items[1..]);
      assert ItemAccepts(items[0], w[..1]);
    }
  }

  lemma {:induction false} EndsInDollar(items: seq<Item>, s: string)
    requires items != [] && items[|items| - 1] == Item(true, '$', Once) && InLanguage(items, s)
    ensures s != "" && s[|s| - 1] == '$'
  {
    var k :| 0 <= k <= |s| && ItemAccepts(items[0], s[..k]) && InLanguage(items[1..], s[k..]);
    if |items| == 1 {
      assert s[k..] == "" && s[..k][0] == s[0];
    } else {
      EndsInDollar(items[1..], s[k..]);
    }
  }

  /** Full matching means "the whole string is in the language" for exactly the patterns that do not
      end in an escaped dollar. */
  lemma FullMatchIsWholeMatch(p: Pattern)
    requires ValidItems(p.items)
    ensures (forall s :: NulFree(s) ==> (SubstringInLanguage(Full(p), s) <==> InLanguage(p.items, s)))
            <==> !EndsInEscapedDollar(p)
  {
    if EndsInEscapedDollar(p) {
      var w := Word(p.items);
      WordInLanguage(p.items);
      var s := w + "x";
      assert s[0..|w|] == w;
      assert SubstringInLanguage(Full(p), s);
      if InLanguage(p.items, s) {
        EndsInDollar(p.items, s);
      }
      assert NulFree(s);
    } else {
      forall s | NulFree(s) ensures SubstringInLanguage(Full(p), s) <==> InLanguage(p.items, s) {
        FullIsWhole(p, s);
      }
    }
  }
}
