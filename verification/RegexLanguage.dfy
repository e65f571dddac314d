/** What the simple regular expressions of gtest-port.cc accept, said without the functions of the matcher. */
module RegexLanguage {
  import opened SimpleRegex

  // ---------- What single atoms accept ----------

  /** The pattern of one atom accepts the string of one character. */
  ghost predicate MatchesOne(escaped: bool, c: char, ch: char) {
    InLanguage([Item(escaped, c, Once)], [ch])
  }

  lemma OneCharacter(escaped: bool, c: char, ch: char)
    ensures MatchesOne(escaped, c, ch) <==> AtomMatchesChar(escaped, c, ch)
  {
    var item, s := Item(escaped, c, Once), [ch];
    SingleItem(item, s);
    assert s[0] == ch;
  }

  lemma SingleItem(item: Item, s: string)
    ensures InLanguage([item], s) <==> ItemAccepts(item, s)
  {
    assert s[..|s|] == s && s[|s|..] == "" && [item][1..] == [];
    assert ItemAccepts(item, s) ==> ItemAccepts(item, s[..|s|]) && InLanguage([item][1..], s[|s|..]);
  }

  /** An atom with a repetition accepts so many of the characters that it accepts alone. */
  lemma RepetitionsMatch(item: Item, s: string)
    ensures InLanguage([item], s) <==>
      && (forall k :: 0 <= k < |s| ==> MatchesOne(item.escaped, item.c, s[k]))
      && (item.repeat == Once ==> |s| == 1)
      && (item.repeat == Optional ==> |s| == 0 || |s| == 1)
      && (item.repeat == AtLeastOnce ==> s != "")
  {
    SingleItem(item, s);
    forall k | 0 <= k < |s|
      ensures MatchesOne(item.escaped, item.c, s[k]) <==> AtomMatchesChar(item.escaped, item.c, s[k])
    {
      OneCharacter(item.escaped, item.c, s[k]);
    }
  }

  /** The string can be cut into one part for each list of items. */
  ghost predicate Cuts(a: seq<Item>, b: seq<Item>, s: string, k: int) {
    0 <= k <= |s| && InLanguage(a, s[..k]) && InLanguage(b, s[k..])
  }

  lemma FirstOf(items: seq<Item>, s: string) returns (i: nat)
    requires items != [] && InLanguage(items, s)
    ensures i <= |s| && ItemAccepts(items[0], s[..i]) && InLanguage(items[1..], s[i..])
  {
    i :| 0 <= i <= |s| && ItemAccepts(items[0], s[..i]) && InLanguage(items[1..], s[i..]);
  }

  lemma FirstThenRest(items: seq<Item>, s: string, i: nat)
    requires items != [] && i <= |s| && ItemAccepts(items[0], s[..i]) && InLanguage(items[1..], s[i..])
    ensures InLanguage(items, s)
  {
  }

  lemma CutTwice(s: string, i: nat, k: nat)
    requires i <= k <= |s|
    ensures s[..k][..i] == s[..i] && s[..k][i..] == s[i..][..k - i] && s[k..] == s[i..][k - i..]
  {
  }

  lemma {:induction false} CutOf(a: seq<Item>, b: seq<Item>, s: string) returns (k: nat)
    requires InLanguage(a + b, s)
    ensures Cuts(a, b, s, k)
  {
    if a == [] {
      assert a + b == b && s[0..] == s;
      k := 0;
    } else {
      assert (a + b)[0] == a[0] && (a + b)[1..] == a[1..] + b;
      var i := FirstOf(a + b, s);
      var j := CutOf(a[1..], b, s[i..]);
      k := i + j;
      CutTwice(s, i, k);
      FirstThenRest(a, s[..k], i);
    }
  }

  lemma {:induction false} JoinParts(a: seq<Item>, b: seq<Item>, t: string, u: string)
    requires InLanguage(a, t) && InLanguage(b, u)
    ensures InLanguage(a + b, t + u)
  {
    if a == [] {
      assert a + b == b && t + u == u;
    } else {
      var i := FirstOf(a, t);
      JoinParts(a[1..], b, t[i..], u);
      assert (a + b)[0] == a[0] && (a + b)[1..] == a[1..] + b;
      assert (t + u)[..i] == t[..i] && (t + u)[i..] == t[i..] + u;
      FirstThenRest(a + b, t + u, i);
    }
  }

  /** Patterns one after the other accept exactly what can be cut into what each accepts. */
  lemma ConcatenationsMatch(a: seq<Item>, b: seq<Item>, s: string)
    ensures InLanguage(a + b, s) <==> exists k :: Cuts(a, b, s, k)
  {
    if InLanguage(a + b, s) {
      var k := CutOf(a, b, s);
    }
    if k :| Cuts(a, b, s, k) {
      JoinParts(a, b, s[..k], s[k..]);
      assert s[..k] + s[k..] == s;
    }
  }

  /** A search for one atom finds one character anywhere in the string. */
  lemma OneAtomAnywhere(escaped: bool, c: char, s: string)
    ensures SubstringInLanguage(Pattern(false, [Item(escaped, c, Once)], false), s) <==>
              exists i :: 0 <= i < |s| && MatchesOne(escaped, c, s[i])
  {
    var item := Item(escaped, c, Once);
    forall a, b | 0 <= a <= b <= |s|
      ensures InLanguage([item], s[a..b]) <==> b == a + 1 && MatchesOne(escaped, c, s[a])
    {
      RepetitionsMatch(item, s[a..b]);
      if b == a + 1 {
        assert s[a..b][0] == s[a];
      }
    }
    if i :| 0 <= i < |s| && MatchesOne(escaped, c, s[i]) {
      assert InLanguage([item], s[i..i + 1]);
    }
  }

  /** The character classes. */
  lemma ClassesMatch(ch: char)
    requires ch != '\0'
    ensures MatchesOne(true, 'd', ch) <==> '0' <= ch <= '9'
    ensures MatchesOne(true, 'w', ch) <==>
              'a' <= ch <= 'z' || 'A' <= ch <= 'Z' || '0' <= ch <= '9' || ch == '_'
    ensures MatchesOne(true, 's', ch) <==>
              ch == ' ' || ch == '\t' || ch == '\n' || ch == '\r' || ch == '\U{0B}' || ch == '\U{0C}'
    ensures MatchesOne(true, 'D', ch) <==> !('0' <= ch <= '9')
    ensures MatchesOne(true, 'W', ch) <==>
              !('a' <= ch <= 'z' || 'A' <= ch <= 'Z' || '0' <= ch <= '9' || ch == '_')
    ensures MatchesOne(true, 'S', ch) <==>
              ch != ' ' && ch != '\t' && ch != '\n' && ch != '\r' && ch != '\U{0B}' && ch != '\U{0C}'
  {
    OneCharacter(true, 'd', ch);
    OneCharacter(true, 'w', ch);
    OneCharacter(true, 's', ch);
    OneCharacter(true, 'D', ch);
    OneCharacter(true, 'W', ch);
    OneCharacter(true, 'S', ch);
    WhiteSpace(ch);
  }

  lemma WhiteSpace(ch: char)
    ensures IsAsciiWhiteSpace(ch) <==>
              ch == ' ' || ch == '\t' || ch == '\n' || ch == '\r' || ch == '\U{0B}' || ch == '\U{0C}'
  {
  }

  /** The escapes for one control character each, and the dot. */
  lemma ControlsMatch(ch: char)
    requires ch != '\0'
    ensures MatchesOne(true, 'f', ch) <==> ch == '\U{0C}'
    ensures MatchesOne(true, 'n', ch) <==> ch == '\n'
    ensures MatchesOne(true, 'r', ch) <==> ch == '\r'
    ensures MatchesOne(true, 't', ch) <==> ch == '\t'
    ensures MatchesOne(true, 'v', ch) <==> ch == '\U{0B}'
    ensures MatchesOne(false, '.', ch) <==> ch != '\n'
  {
    OneCharacter(true, 'f', ch);
    OneCharacter(true, 'n', ch);
    OneCharacter(true, 'r', ch);
    OneCharacter(true, 't', ch);
    OneCharacter(true, 'v', ch);
    OneCharacter(false, '.', ch);
  }

  /** The printable characters of ASCII that are neither letters, digits nor the space. */
  predicate IsPunctuation(c: char) {
    '!' <= c <= '/' || ':' <= c <= '@' || '[' <= c <= '`' || '{' <= c <= '~'
  }

  lemma PunctuationIsPunct(c: char)
    ensures IsAsciiPunct(c) <==> IsPunctuation(c)
  {
  }

  /** Escaped punctuation and plain characters stand for themselves. */
  lemma OthersMatchThemselves(c: char, ch: char)
    ensures IsPunctuation(c) ==> (MatchesOne(true, c, ch) <==> ch == c)
    ensures c != '.' ==> (MatchesOne(false, c, ch) <==> ch == c)
  {
    OneCharacter(true, c, ch);
    OneCharacter(false, c, ch);
    PunctuationIsPunct(c);
  }

  /** Which atoms the syntax check lets pass: escaped punctuation and the letters of the escapes, and every
      plain character but the backslash and the characters with a meaning of their own. */
  lemma AtomsThatPass(c: char)
    requires c != '\0'
    ensures (exists p :: Denotes(['\\', c], p)) <==>
              || IsPunctuation(c) || c == 'd' || c == 'D' || c == 'f' || c == 'n' || c == 'r' || c == 's' || c == 'S'
              || c == 't' || c == 'v' || c == 'w' || c == 'W'
    ensures (exists p :: Denotes([c], p)) <==>
              && c != '\\' && c != '(' && c != ')' && c != '[' && c != ']' && c != '{' && c != '}' && c != '|'
              && c != '?' && c != '*' && c != '+'
  {
    PunctuationIsPunct(c);
    ScanIsGrammar(['\\', c]);
    assert Scan(['\\', c], 2, true);
    ScanIsGrammar([c]);
    assert Scan([c], 1, !IsInSet(c, "^$?*+"));
  }
}
