/**
  The simple regular expression engine used where no POSIX regex library is available.

  A pattern is a C string; reading index |s| gives the terminator and reading further is an error, so
  the bounds checks of this module show that neither the pattern nor the subject is read too far.

  The meaning of a pattern is given independently of the matcher: Text prints an abstract pattern,
  Language gives it the textbook language over Epsilon, Char, Cat, Alt and Star.  The validator is
  proved to accept exactly the printed forms of well-formed patterns, and the backtracking matcher is
  proved to decide the language.
 */
module SimpleRegex {

  import opened Common

  ghost predicate IsCString(s: string) {
    forall i | 0 <= i < |s| :: s[i] != '\0'
  }

  function At(s: string, i: nat): char
    requires i <= |s|
  {
    if i < |s| then s[i] else '\0'
  }

  // ---------- character classes ----------

  predicate IsAsciiDigit(ch: char) {
    '0' <= ch <= '9'
  }

  // The 32 ASCII punctuation characters occupy four ranges.
  predicate IsAsciiPunct(ch: char) {
    '!' <= ch <= '/' || ':' <= ch <= '@' || '[' <= ch <= '`' || '{' <= ch <= '~'
  }

  predicate IsRepeat(ch: char) {
    ch == '?' || ch == '*' || ch == '+'
  }

  predicate IsUnsupported(ch: char) {
    ch == '(' || ch == ')' || ch == '[' || ch == ']' || ch == '{' || ch == '}' || ch == '|'
  }

  predicate IsAsciiWhiteSpace(ch: char) {
    ch == ' ' || ch == '\U{000C}' || ch == '\n' || ch == '\r' || ch == '\t' || ch == '\U{000B}'
  }

  predicate IsAsciiWordChar(ch: char) {
    'a' <= ch <= 'z' || 'A' <= ch <= 'Z' || '0' <= ch <= '9' || ch == '_'
  }

  predicate IsValidEscape(c: char) {
    IsAsciiPunct(c) || IsClassLetter(c)
  }

  predicate IsClassLetter(c: char) {
    || c == 'd' || c == 'D' || c == 'f' || c == 'n' || c == 'r' || c == 's'
    || c == 'S' || c == 't' || c == 'v' || c == 'w' || c == 'W'
  }

  // The classes agree with the character lists they abbreviate.
  lemma CharacterLists(ch: char)
    ensures IsAsciiPunct(ch) <==> ch in "^-!\"#$%&'()*+,./:;<=>?@[\\]_`{|}~"
    ensures IsRepeat(ch) <==> ch in "?*+"
    ensures IsUnsupported(ch) <==> ch in "()[]{}|"
    ensures IsAsciiWhiteSpace(ch) <==> ch in " \U{000C}\n\r\t\U{000B}"
    ensures IsClassLetter(ch) <==> ch in "dDfnrsStvwW"
  {
  }

  predicate AtomMatchesChar(escaped: bool, patternChar: char, ch: char) {
    if escaped then
      match patternChar
      case 'd' => IsAsciiDigit(ch)
      case 'D' => !IsAsciiDigit(ch)
      case 'f' => ch == '\U{000C}'
      case 'n' => ch == '\n'
      case 'r' => ch == '\r'
      case 's' => IsAsciiWhiteSpace(ch)
      case 'S' => !IsAsciiWhiteSpace(ch)
      case 't' => ch == '\t'
      case 'v' => ch == '\U{000B}'
      case 'w' => IsAsciiWordChar(ch)
      case 'W' => !IsAsciiWordChar(ch)
      case _ => IsAsciiPunct(patternChar) && patternChar == ch
    else
      (patternChar == '.' && ch != '\n') || patternChar == ch
  }

  // ---------- what the atoms mean, character by character ----------

  lemma LowerCase(ch: char)
    ensures ch in "abcdefghijklmnopqrstuvwxyz" <==> 'a' <= ch <= 'z'
  {
    var s := "abcdefghijklmnopqrstuvwxyz";
    if 'a' <= ch <= 'z' {
      assert s[ch as int - 'a' as int] == ch;
    }
  }

  lemma UpperCase(ch: char)
    ensures ch in "ABCDEFGHIJKLMNOPQRSTUVWXYZ" <==> 'A' <= ch <= 'Z'
  {
    var s := "ABCDEFGHIJKLMNOPQRSTUVWXYZ";
    if 'A' <= ch <= 'Z' {
      assert s[ch as int - 'A' as int] == ch;
    }
  }

  // The classes of digits, white space and word characters, and their complements.
  lemma ClassAtoms(ch: char)
    ensures AtomMatchesChar(true, 'd', ch) <==> ch in "0123456789"
    ensures AtomMatchesChar(true, 'D', ch) <==> ch !in "0123456789"
    ensures AtomMatchesChar(true, 's', ch) <==> ch in " \U{000C}\n\r\t\U{000B}"
    ensures AtomMatchesChar(true, 'S', ch) <==> ch !in " \U{000C}\n\r\t\U{000B}"
    ensures AtomMatchesChar(true, 'w', ch) <==>
            ch in "abcdefghijklmnopqrstuvwxyz" || ch in "ABCDEFGHIJKLMNOPQRSTUVWXYZ" || ch in "0123456789" || ch == '_'
    ensures AtomMatchesChar(true, 'W', ch) <==> !AtomMatchesChar(true, 'w', ch)
  {
    LowerCase(ch);
    UpperCase(ch);
  }

  // All other atoms but the dot stand for a single character.
  lemma SingleAtoms(c: char, ch: char)
    ensures AtomMatchesChar(true, 'f', ch) <==> ch == '\U{000C}'
    ensures AtomMatchesChar(true, 'n', ch) <==> ch == '\n'
    ensures AtomMatchesChar(true, 'r', ch) <==> ch == '\r'
    ensures AtomMatchesChar(true, 't', ch) <==> ch == '\t'
    ensures AtomMatchesChar(true, 'v', ch) <==> ch == '\U{000B}'
    ensures c in "^-!\"#$%&'()*+,./:;<=>?@[\\]_`{|}~" ==> (AtomMatchesChar(true, c, ch) <==> ch == c)
    ensures AtomMatchesChar(false, '.', ch) <==> ch != '\n'
    ensures c != '.' ==> (AtomMatchesChar(false, c, ch) <==> ch == c)
  {
    CharacterLists(c);
  }

  // Which atoms the grammar admits.
  lemma AtomSyntax(c: char)
    ensures WellFormedAtom(Atom(true, c)) <==> c in "^-!\"#$%&'()*+,./:;<=>?@[\\]_`{|}~" || c in "dDfnrsStvwW"
    ensures WellFormedAtom(Atom(false, c)) <==> c !in "\\^$?*+" && c !in "()[]{}|" && c != '\0'
  {
    CharacterLists(c);
  }

  // ---------- abstract patterns and their language ----------

  datatype Atom = Atom(escaped: bool, c: char)

  datatype Repeat = Once | Optional | ZeroOrMore | OneOrMore

  datatype Item = Item(atom: Atom, repeat: Repeat)

  datatype Pattern = Pattern(caret: bool, items: seq<Item>, dollar: bool)

  predicate WellFormedAtom(a: Atom) {
    if a.escaped then IsValidEscape(a.c) else
      a.c != '\0' && a.c != '\\' && a.c != '^' && a.c != '$' && !IsUnsupported(a.c) && !IsRepeat(a.c)
  }

  ghost predicate WellFormed(items: seq<Item>) {
    forall i | 0 <= i < |items| :: WellFormedAtom(items[i].atom)
  }

  datatype Regex = Epsilon | Char(atom: Atom) | Cat(first: Regex, second: Regex)
                 | Alt(one: Regex, other: Regex) | Star(body: Regex)

  ghost predicate Language(re: Regex, w: string)
    decreases re, |w|
  {
    match re
    case Epsilon => w == ""
    case Char(a) => |w| == 1 && AtomMatchesChar(a.escaped, a.c, w[0])
    case Cat(first, second) => exists i | 0 <= i <= |w| :: Language(first, w[..i]) && Language(second, w[i..])
    case Alt(one, other) => Language(one, w) || Language(other, w)
    case Star(body) => w == "" || exists i | 0 < i <= |w| :: Language(body, w[..i]) && Language(re, w[i..])
  }

  function ItemRegex(item: Item): Regex {
    var c := Char(item.atom);
    match item.repeat
    case Once => c
    case Optional => Alt(Epsilon, c)
    case ZeroOrMore => Star(c)
    case OneOrMore => Cat(c, Star(c))
  }

  function Body(items: seq<Item>): Regex {
    if items == [] then Epsilon else Cat(ItemRegex(items[0]), Body(items[1..]))
  }

  // ---------- concrete syntax ----------

  function RepeatText(repeat: Repeat): string {
    match repeat
    case Once => ""
    case Optional => "?"
    case ZeroOrMore => "*"
    case OneOrMore => "+"
  }

  function ItemText(item: Item): string {
    (if item.atom.escaped then "\\" else "") + [item.atom.c] + RepeatText(item.repeat)
  }

  function ItemsText(items: seq<Item>): string {
    if items == [] then "" else ItemText(items[0]) + ItemsText(items[1..])
  }

  function BodyText(items: seq<Item>, dollar: bool): string {
    ItemsText(items) + if dollar then "$" else ""
  }

  function Text(p: Pattern): string {
    (if p.caret then "^" else "") + BodyText(p.items, p.dollar)
  }

  function RepeatOf(ch: char): Repeat {
    if ch == '?' then Optional else if ch == '*' then ZeroOrMore else if ch == '+' then OneOrMore else Once
  }

  // Reads one item, together with the length of its text.
  function FirstItem(s: string): Option<(Item, nat)>
    requires s != ""
  {
    var escaped := s[0] == '\\';
    var start := if escaped then 1 else 0;
    if start == |s| || !WellFormedAtom(Atom(escaped, s[start])) then None
    else
      var repeat := if start + 1 < |s| then RepeatOf(s[start + 1]) else Once;
      Some((Item(Atom(escaped, s[start]), repeat), if repeat == Once then start + 1 else start + 2))
  }

  lemma FirstItemPrints(s: string)
    requires s != "" && FirstItem(s).Some?
    ensures var (item, n) := FirstItem(s).value;
      0 < n <= |s| && WellFormedAtom(item.atom) && ItemText(item) == s[..n]
  {
  }

  lemma FirstItemOfText(item: Item, rest: string)
    requires WellFormedAtom(item.atom) && (rest != "" ==> RepeatOf(rest[0]) == Once)
    ensures ItemText(item) != "" && FirstItem(ItemText(item) + rest) == Some((item, |ItemText(item)|))
  {
  }

  // Reads back what BodyText prints.
  function ParseBody(s: string): Option<(seq<Item>, bool)>
    decreases |s|
  {
    if s == "" then Some(([], false))
    else if s == "$" then Some(([], true))
    else
      match FirstItem(s)
      case None => None
      case Some((item, n)) => FirstItemPrints(s); Prepend(item, ParseBody(s[n..]))
  }

  function Prepend(item: Item, tail: Option<(seq<Item>, bool)>): Option<(seq<Item>, bool)> {
    match tail
    case None => None
    case Some((items, dollar)) => Some(([item] + items, dollar))
  }

  function Parse(s: string): Option<Pattern> {
    var caret := s != "" && s[0] == '^';
    match ParseBody(if caret then s[1..] else s)
    case None => None
    case Some((items, dollar)) => Some(Pattern(caret, items, dollar))
  }

  lemma BodyTextOfCons(item: Item, rest: seq<Item>, dollar: bool)
    ensures BodyText([item] + rest, dollar) == ItemText(item) + BodyText(rest, dollar)
  {
    assert ([item] + rest)[1..] == rest;
  }

  lemma {:induction false} ParseBodyPrints(s: string)
    requires ParseBody(s).Some?
    ensures var (items, dollar) := ParseBody(s).value; WellFormed(items) && BodyText(items, dollar) == s
    decreases |s|
  {
    if s != "" && s != "$" {
      var (item, n) := FirstItem(s).value;
      FirstItemPrints(s);
      ParseBodyPrints(s[n..]);
      var (rest, dollar) := ParseBody(s[n..]).value;
      BodyTextOfCons(item, rest, dollar);
      assert s == s[..n] + s[n..];
    }
  }

  lemma {:induction false} PrintParses(items: seq<Item>, dollar: bool)
    requires WellFormed(items)
    ensures ParseBody(BodyText(items, dollar)) == Some((items, dollar))
  {
    if items != [] {
      var rest := BodyText(items[1..], dollar);
      PrintParses(items[1..], dollar);
      NoLeadingRepeat(items[1..], dollar);
      FirstItemOfText(items[0], rest);
      NotJustDollar(items[0], rest);
      BodyTextOfCons(items[0], items[1..], dollar);
      assert (ItemText(items[0]) + rest)[|ItemText(items[0])|..] == rest;
      assert [items[0]] + items[1..] == items;
    }
  }

  lemma NotJustDollar(item: Item, rest: string)
    requires WellFormedAtom(item.atom)
    ensures ItemText(item) + rest != "" && ItemText(item) + rest != "$"
  {
    assert (ItemText(item) + rest)[0] == if item.atom.escaped then '\\' else item.atom.c;
  }

  // What follows an item never starts with a repetition character or with '^'.
  lemma NoLeadingRepeat(items: seq<Item>, dollar: bool)
    requires WellFormed(items)
    ensures var s := BodyText(items, dollar); s != "" ==> RepeatOf(s[0]) == Once && s[0] != '^'
  {
    if items != [] {
      var atom := items[0].atom;
      assert WellFormedAtom(atom);
      assert BodyText(items, dollar)[0] == if atom.escaped then '\\' else atom.c;
    }
  }

  // Parse is the inverse of Text on well-formed patterns.
  lemma ParseIffPrinted(s: string, p: Pattern)
    ensures Parse(s) == Some(p) <==> WellFormed(p.items) && Text(p) == s
  {
    if Parse(s) == Some(p) {
      ParseBodyPrints(if p.caret then s[1..] else s);
    }
    if WellFormed(p.items) && Text(p) == s {
      PrintParses(p.items, p.dollar);
      NoLeadingRepeat(p.items, p.dollar);
      assert (if p.caret then s[1..] else s) == BodyText(p.items, p.dollar);
    }
  }

  // ---------- validation ----------

  // What remains to be accepted from index i on: the rest of a pattern, or, after a repeatable atom,
  // one repetition character first.
  ghost predicate Acceptable(regex: string, i: nat, prevRepeatable: bool)
    requires i <= |regex|
  {
    if i == 0 then Parse(regex).Some? else AcceptableTail(regex[i..], prevRepeatable)
  }

  ghost predicate AcceptableTail(s: string, prevRepeatable: bool) {
    || ParseBody(s).Some?
    || (prevRepeatable && s != "" && RepeatOf(s[0]) != Once && ParseBody(s[1..]).Some?)
  }

  lemma AfterEscape(s: string)
    requires s != "" && s[0] == '\\'
    ensures |s| == 1 || !IsValidEscape(s[1]) ==> ParseBody(s).None?
    ensures |s| > 1 && IsValidEscape(s[1]) ==> (ParseBody(s).Some? <==> AcceptableTail(s[2..], true))
  {
    if |s| > 1 && IsValidEscape(s[1]) {
      AfterAtom(s, 2);
    }
  }

  // One step over a character that is not an escape, away from the start of the pattern.
  lemma AfterChar(s: string, prevRepeatable: bool)
    requires IsCString(s) && s != "" && s[0] != '\\'
    ensures AcceptableTail(s, prevRepeatable) <==>
            && s[0] != '^' && (s[0] == '$' ==> |s| == 1) && !IsUnsupported(s[0])
            && (IsRepeat(s[0]) ==> prevRepeatable)
            && AcceptableTail(s[1..], s[0] != '^' && s[0] != '$' && !IsRepeat(s[0]))
  {
    if WellFormedAtom(Atom(false, s[0])) {
      AfterAtom(s, 1);
    } else if s == "$" {
    } else {
      assert ParseBody(s).None?;
    }
  }

  lemma AfterStart(s: string)
    requires s != ""
    ensures Parse(s).Some? <==> if s[0] == '^' then AcceptableTail(s[1..], false) else AcceptableTail(s, false)
  {
  }

  lemma AfterAtom(s: string, n: nat)
    requires s != "" && s != "$" && FirstItem(s).Some?
    requires n == (if s[0] == '\\' then 2 else 1) && n <= |s|
    ensures ParseBody(s).Some? <==> AcceptableTail(s[n..], true)
  {
    var rest := s[n..];
    if rest != "" && RepeatOf(rest[0]) != Once {
      assert rest[1..] == s[n + 1..];
      assert FirstItem(rest).None?;
    }
  }

  method ValidateRegex(regex: Option<string>) returns (valid: bool)
    requires regex.Some? ==> IsCString(regex.value)
    ensures valid <==> regex.Some? && Parse(regex.value).Some?
  {
    if regex.None? {
      return false;
    }
    var re := regex.value;
    var isValid := true;
    var prevRepeatable := false;
    var i := 0;
    while At(re, i) != '\0'
      invariant 0 <= i <= |re|
      invariant i == 0 ==> !prevRepeatable
      invariant isValid && Acceptable(re, i, prevRepeatable) <==> Parse(re).Some?
      decreases |re| - i
    {
      AfterStart(re);
      if re[i] == '\\' {
        AfterEscape(re[i..]);
        i := i + 1;
        if At(re, i) == '\0' {
          return false;
        }
        if !IsValidEscape(re[i]) {
          isValid := false;
        }
        prevRepeatable := true;
        i := i + 1;
      } else {
        var ch := re[i];
        AfterChar(re[i..], prevRepeatable);
        assert re[i..][1..] == re[i + 1..];
        if ch == '^' && i > 0 {
          isValid := false;
        } else if ch == '$' && At(re, i + 1) != '\0' {
          isValid := false;
        } else if IsUnsupported(ch) {
          isValid := false;
        } else if IsRepeat(ch) && !prevRepeatable {
          isValid := false;
        }
        prevRepeatable := ch != '^' && ch != '$' && !IsRepeat(ch);
        i := i + 1;
      }
    }
    return isValid;
  }

  // ---------- matching at the head of a string ----------

  // Some prefix of s (all of s, if dollar) is in the language of items.
  ghost predicate HeadMatch(items: seq<Item>, dollar: bool, s: string) {
    exists n | 0 <= n <= |s| :: Language(Body(items), s[..n]) && (dollar ==> n == |s|)
  }

  ghost predicate AllMatch(a: Atom, w: string) {
    forall i | 0 <= i < |w| :: AtomMatchesChar(a.escaped, a.c, w[i])
  }

  predicate CountAllowed(repeat: Repeat, n: nat) {
    match repeat
    case Once => n == 1
    case Optional => n <= 1
    case ZeroOrMore => true
    case OneOrMore => n >= 1
  }

  lemma {:induction false} StarLanguage(a: Atom, w: string)
    ensures Language(Star(Char(a)), w) <==> AllMatch(a, w)
    decreases |w|
  {
    if w != "" {
      StarLanguage(a, w[1..]);
      assert Language(Char(a), w[..1]) <==> AtomMatchesChar(a.escaped, a.c, w[0]);
      assert AllMatch(a, w) <==> AtomMatchesChar(a.escaped, a.c, w[0]) && AllMatch(a, w[1..]);
    }
  }

  // An item denotes the runs of matching characters of an allowed length.
  lemma ItemLanguage(item: Item, w: string)
    ensures Language(ItemRegex(item), w) <==> CountAllowed(item.repeat, |w|) && AllMatch(item.atom, w)
  {
    StarLanguage(item.atom, w);
    if item.repeat.OneOrMore? && w != "" {
      StarLanguage(item.atom, w[1..]);
      assert Language(Char(item.atom), w[..1]) <==> AtomMatchesChar(item.atom.escaped, item.atom.c, w[0]);
      assert AllMatch(item.atom, w) <==>
             AtomMatchesChar(item.atom.escaped, item.atom.c, w[0]) && AllMatch(item.atom, w[1..]);
    }
  }

  // What each repetition character means: at most one, any number, at least one, exactly one.
  lemma RepetitionLanguage(a: Atom, ch: char, w: string)
    ensures Language(ItemRegex(Item(a, RepeatOf(ch))), w) <==>
            && AllMatch(a, w)
            && (if ch == '?' then |w| <= 1 else if ch == '*' then true else if ch == '+' then |w| >= 1 else |w| == 1)
  {
    ItemLanguage(Item(a, RepeatOf(ch)), w);
  }

  // The first item takes some run of k characters and the remaining items match what follows.
  ghost predicate HeadMatchAfter(item: Item, rest: seq<Item>, dollar: bool, s: string, k: nat) {
    && k <= |s| && CountAllowed(item.repeat, k) && AllMatch(item.atom, s[..k])
    && HeadMatch(rest, dollar, s[k..])
  }

  lemma HeadMatchItem(item: Item, rest: seq<Item>, dollar: bool, s: string)
    ensures HeadMatch([item] + rest, dollar, s) <==> exists k: nat :: HeadMatchAfter(item, rest, dollar, s, k)
  {
    var items := [item] + rest;
    assert items[1..] == rest;
    if HeadMatch(items, dollar, s) {
      var n :| 0 <= n <= |s| && Language(Body(items), s[..n]) && (dollar ==> n == |s|);
      var k :| 0 <= k <= n && Language(ItemRegex(item), s[..n][..k]) && Language(Body(rest), s[..n][k..]);
      ItemLanguage(item, s[..k]);
      assert s[..n][..k] == s[..k] && s[..n][k..] == s[k..][..n - k];
      assert HeadMatchAfter(item, rest, dollar, s, k);
    }
    if k: nat :| HeadMatchAfter(item, rest, dollar, s, k) {
      var m :| 0 <= m <= |s[k..]| && Language(Body(rest), s[k..][..m]) && (dollar ==> m == |s[k..]|);
      ItemLanguage(item, s[..k]);
      assert s[..k + m][..k] == s[..k] && s[..k + m][k..] == s[k..][..m];
      assert Language(Body(items), s[..k + m]);
    }
  }

  // The pattern text from index p on prints these items and this end anchor.
  ghost predicate Denotes(regex: string, p: nat, items: seq<Item>, dollar: bool) {
    p <= |regex| && WellFormed(items) && regex[p..] == BodyText(items, dollar)
  }

  lemma EndShown(regex: string, p: nat, items: seq<Item>, dollar: bool)
    requires IsCString(regex) && Denotes(regex, p, items, dollar)
    ensures At(regex, p) == '\0' <==> items == [] && !dollar
    ensures At(regex, p) == '$' <==> items == [] && dollar
  {
    var s := regex[p..];
    assert At(regex, p) == if s == "" then '\0' else s[0];
    if items != [] {
      assert WellFormedAtom(items[0].atom);
      assert s[0] == if items[0].atom.escaped then '\\' else items[0].atom.c;
    }
  }

  lemma TextAt(regex: string, p: nat, text: string, rest: string)
    requires p <= |regex| && regex[p..] == text + rest
    ensures p + |text| <= |regex| && regex[p + |text|..] == rest
    ensures forall i | 0 <= i < |text| :: regex[p + i] == text[i]
    ensures At(regex, p + |text|) == At(rest, 0)
  {
    assert forall i | 0 <= i < |text| :: regex[p + i] == regex[p..][i];
    assert regex[p + |text|..] == regex[p..][|text|..];
  }

  lemma ItemTextShape(item: Item)
    requires WellFormedAtom(item.atom)
    ensures var c := if item.atom.escaped then 1 else 0;
      var text := ItemText(item);
      && |text| == (if item.repeat == Once then c + 1 else c + 2)
      && (text[0] == '\\' <==> item.atom.escaped) && text[c] == item.atom.c
      && (item.repeat != Once ==> RepeatOf(text[c + 1]) == item.repeat)
  {
  }

  lemma RestShown(regex: string, p: nat, items: seq<Item>, dollar: bool)
    requires Denotes(regex, p, items, dollar) && items != []
    ensures var text := ItemText(items[0]);
      && Denotes(regex, p + |text|, items[1..], dollar)
      && (forall i | 0 <= i < |text| :: regex[p + i] == text[i])
      && RepeatOf(At(regex, p + |text|)) == Once
  {
    var rest := BodyText(items[1..], dollar);
    BodyTextOfCons(items[0], items[1..], dollar);
    assert [items[0]] + items[1..] == items;
    TextAt(regex, p, ItemText(items[0]), rest);
    NoLeadingRepeat(items[1..], dollar);
  }

  // How the text of a body reveals its first item.
  lemma FirstItemShown(regex: string, p: nat, items: seq<Item>, dollar: bool)
    requires IsCString(regex) && Denotes(regex, p, items, dollar) && items != []
    ensures p < |regex| && (regex[p] == '\\' <==> items[0].atom.escaped)
    ensures var c := if items[0].atom.escaped then p + 1 else p;
      && c < |regex| && regex[c] == items[0].atom.c
      && RepeatOf(At(regex, c + 1)) == items[0].repeat
      && Denotes(regex, if items[0].repeat == Once then c + 1 else c + 2, items[1..], dollar)
  {
    RestShown(regex, p, items, dollar);
    assert WellFormedAtom(items[0].atom);
    ItemTextShape(items[0]);
    assert regex[p + 0] == ItemText(items[0])[0];
  }

  const MAX_SIZE: nat := 0xFFFF_FFFF_FFFF_FFFF

  // The repetition loop.  The subject must be indexable by size_t.
  method MatchRepetitionAndRegexAtHead(escaped: bool, c: char, repeat: char, regex: string, p: nat, str: string,
          q: nat, ghost rest: seq<Item>, ghost dollar: bool)
    returns (matched: bool)
    requires IsCString(regex) && IsCString(str) && |str| < MAX_SIZE && q <= |str|
    requires IsRepeat(repeat) && Denotes(regex, p, rest, dollar)
    ensures matched <==> HeadMatch([Item(Atom(escaped, c), RepeatOf(repeat))] + rest, dollar, str[q..])
    decreases |regex| - p, 1
  {
    ghost var item, s := Item(Atom(escaped, c), RepeatOf(repeat)), str[q..];
    HeadMatchItem(item, rest, dollar, s);
    var minCount := if repeat == '+' then 1 else 0;
    var maxCount := if repeat == '?' then 1 else MAX_SIZE - 1;
    var i := 0;
    while i <= maxCount
      invariant 0 <= i <= |s| + 1 && i <= maxCount + 1
      invariant i <= |s| && AllMatch(item.atom, s[..i])
      invariant forall k: nat | k < i :: !HeadMatchAfter(item, rest, dollar, s, k)
      decreases maxCount + 1 - i
    {
      if i >= minCount {
        var tail := MatchRegexAtHead(regex, p, str, q + i, rest, dollar);
        assert str[q + i..] == s[i..];
        if tail {
          assert HeadMatchAfter(item, rest, dollar, s, i);
          return true;
        }
      }
      if At(str, q + i) == '\0' || !AtomMatchesChar(escaped, c, str[q + i]) {
        NoLongerRun(item, rest, dollar, s, i);
        return false;
      }
      assert s[..i + 1] == s[..i] + [s[i]];
      i := i + 1;
    }
    return false;
  }

  lemma NoLongerRun(item: Item, rest: seq<Item>, dollar: bool, s: string, i: nat)
    requires i <= |s| && (i < |s| ==> !AtomMatchesChar(item.atom.escaped, item.atom.c, s[i]))
    ensures forall k: nat | k > i :: !HeadMatchAfter(item, rest, dollar, s, k)
  {
    forall k: nat | i < k <= |s|
      ensures !AllMatch(item.atom, s[..k])
    {
      assert s[..k][i] == s[i];
    }
  }

  method MatchRegexAtHead(regex: string, p: nat, str: string, q: nat, ghost items: seq<Item>, ghost dollar: bool)
    returns (matched: bool)
    requires IsCString(regex) && IsCString(str) && |str| < MAX_SIZE && q <= |str|
    requires Denotes(regex, p, items, dollar)
    ensures matched <==> HeadMatch(items, dollar, str[q..])
    decreases |regex| - p, 0
  {
    EndShown(regex, p, items, dollar);
    if At(regex, p) == '\0' {
      HeadMatchNil(dollar, str[q..]);
      return true;
    }
    if At(regex, p) == '$' {
      HeadMatchNil(dollar, str[q..]);
      return At(str, q) == '\0';
    }
    var escaped := regex[p] == '\\';
    FirstItemShown(regex, p, items, dollar);
    var c := if escaped then p + 1 else p;
    assert [items[0]] + items[1..] == items && items[0].atom == Atom(escaped, regex[c]);
    if IsRepeat(At(regex, c + 1)) {
      matched := MatchRepetitionAndRegexAtHead(escaped, regex[c], regex[c + 1], regex, c + 2, str, q,
                                               items[1..], dollar);
    } else {
      HeadMatchOnce(items[0], items[1..], dollar, str[q..]);
      if At(str, q) == '\0' || !AtomMatchesChar(escaped, regex[c], str[q]) {
        return false;
      }
      assert str[q..][1..] == str[q + 1..];
      matched := MatchRegexAtHead(regex, c + 1, str, q + 1, items[1..], dollar);
    }
  }

  lemma HeadMatchNil(dollar: bool, s: string)
    ensures HeadMatch([], dollar, s) <==> (dollar ==> s == "")
  {
    assert s[..0] == "";
    assert Language(Body([]), s[..0]);
  }

  lemma HeadMatchOnce(item: Item, rest: seq<Item>, dollar: bool, s: string)
    requires item.repeat == Once
    ensures HeadMatch([item] + rest, dollar, s) <==>
            s != "" && AtomMatchesChar(item.atom.escaped, item.atom.c, s[0]) && HeadMatch(rest, dollar, s[1..])
  {
    HeadMatchItem(item, rest, dollar, s);
    assert HeadMatchAfter(item, rest, dollar, s, 1) <==>
           s != "" && AtomMatchesChar(item.atom.escaped, item.atom.c, s[0]) && HeadMatch(rest, dollar, s[1..]);
  }

  // ---------- matching anywhere ----------

  // Some substring of s is in the language of the pattern, at the positions its anchors allow.
  ghost predicate Matches(p: Pattern, s: string) {
    exists i, j | 0 <= i <= j <= |s| ::
      Language(Body(p.items), s[i..j]) && (p.caret ==> i == 0) && (p.dollar ==> j == |s|)
  }

  lemma MatchesFrom(p: Pattern, s: string)
    ensures Matches(p, s) <==> exists i | 0 <= i <= |s| :: (p.caret ==> i == 0) && HeadMatch(p.items, p.dollar, s[i..])
  {
    if i, j :|
      && 0 <= i <= j <= |s| && Language(Body(p.items), s[i..j])
      && (p.caret ==> i == 0) && (p.dollar ==> j == |s|) {
      assert s[i..][..j - i] == s[i..j];
      assert HeadMatch(p.items, p.dollar, s[i..]);
    }
    if i :| 0 <= i <= |s| && (p.caret ==> i == 0) && HeadMatch(p.items, p.dollar, s[i..]) {
      var n :| 0 <= n <= |s[i..]| && Language(Body(p.items), s[i..][..n]) && (p.dollar ==> n == |s[i..]|);
      assert s[i..][..n] == s[i..i + n];
    }
  }

  method MatchRegexAnywhere(regex: string, str: Option<string>, ghost p: Pattern) returns (matched: bool)
    requires IsCString(regex) && WellFormed(p.items) && regex == Text(p)
    requires str.Some? ==> IsCString(str.value) && |str.value| < MAX_SIZE
    ensures matched <==> str.Some? && Matches(p, str.value)
  {
    if str.None? {
      return false;
    }
    var s := str.value;
    MatchesFrom(p, s);
    NoLeadingRepeat(p.items, p.dollar);
    if At(regex, 0) == '^' {
      assert s[0..] == s;
      matched := MatchRegexAtHead(regex, 1, s, 0, p.items, p.dollar);
      return;
    }
    assert regex[0..] == BodyText(p.items, p.dollar);
    var q := 0;
    while true
      invariant 0 <= q <= |s|
      invariant forall i | 0 <= i < q :: !HeadMatch(p.items, p.dollar, s[i..])
      decreases |s| - q
    {
      var here := MatchRegexAtHead(regex, 0, s, q, p.items, p.dollar);
      if here {
        return true;
      }
      if At(s, q) == '\0' {
        return false;
      }
      q := q + 1;
    }
  }

  // ---------- the RE class ----------

  // The last item is an escaped dollar sign, so the text ends in '$' without being anchored there.
  ghost predicate EndsInEscapedDollar(p: Pattern) {
    !p.dollar && p.items != [] && p.items[|p.items| - 1] == Item(Atom(true, '$'), Once)
  }

  function FullText(pattern: string): string {
    (if pattern == "" || pattern[0] != '^' then "^" else "") + pattern
    + (if pattern == "" || pattern[|pattern| - 1] != '$' then "$" else "")
  }

  ghost function FullPattern(p: Pattern): Pattern {
    Pattern(true, p.items, !EndsInEscapedDollar(p))
  }

  lemma LastOfConcat(a: string, b: string)
    requires b != ""
    ensures (a + b)[|a + b| - 1] == b[|b| - 1]
  {
  }

  lemma {:induction false} ItemsTextEnd(items: seq<Item>)
    requires WellFormed(items) && items != []
    ensures ItemsText(items) != ""
    ensures var s := ItemsText(items); s[|s| - 1] == '$' <==> items[|items| - 1] == Item(Atom(true, '$'), Once)
  {
    assert WellFormedAtom(items[0].atom);
    ItemTextShape(items[0]);
    if |items| == 1 {
      assert ItemsText(items) == ItemText(items[0]);
    } else {
      ItemsTextEnd(items[1..]);
      LastOfConcat(ItemText(items[0]), ItemsText(items[1..]));
    }
  }

  lemma TextStart(p: Pattern)
    requires WellFormed(p.items)
    ensures var s := Text(p); s != "" && s[0] == '^' <==> p.caret
  {
    NoLeadingRepeat(p.items, p.dollar);
  }

  lemma TextEnd(p: Pattern)
    requires WellFormed(p.items)
    ensures var s := Text(p); s != "" && s[|s| - 1] == '$' <==> p.dollar || EndsInEscapedDollar(p)
  {
    var s := Text(p);
    if p.dollar {
    } else if p.items != [] {
      ItemsTextEnd(p.items);
      var t := ItemsText(p.items);
      assert BodyText(p.items, p.dollar) == t;
      assert s[|s| - 1] == t[|t| - 1];
    }
  }

  // The text that RE::Init builds prints the anchored pattern, except that an escaped dollar sign at
  // the end is taken for an end anchor.
  lemma FullTextPrints(p: Pattern)
    requires WellFormed(p.items)
    ensures FullText(Text(p)) == Text(FullPattern(p))
  {
    TextStart(p);
    TextEnd(p);
  }

  lemma FullTextIsCString(pattern: string)
    requires IsCString(pattern)
    ensures IsCString(FullText(pattern))
  {
  }

  ghost predicate FullyMatches(p: Pattern, s: string) {
    Matches(FullPattern(p), s)
  }

  class RE {
    var pattern: string
    var fullPattern: string
    var isValid: bool

    ghost predicate Valid()
      reads this
    {
      isValid ==> IsCString(pattern) && Parse(pattern).Some? && fullPattern == FullText(pattern)
    }

    constructor (regex: Option<string>)
      requires regex.Some? ==> IsCString(regex.value)
      ensures Valid() && pattern == (if regex.Some? then regex.value else "")
      ensures isValid <==> regex.Some? && Parse(regex.value).Some?
    {
      pattern, fullPattern, isValid := "", "", false;
      new;
      Init(regex);
    }

    method Init(regex: Option<string>)
      requires regex.Some? ==> IsCString(regex.value)
      modifies this
      ensures Valid() && pattern == (if regex.Some? then regex.value else "")
      ensures isValid <==> regex.Some? && Parse(regex.value).Some?
    {
      fullPattern := "";
      pattern := "";
      if regex.Some? {
        pattern := regex.value;
      }
      isValid := ValidateRegex(regex);
      if !isValid {
        return;
      }
      if pattern == "" || pattern[0] != '^' {
        fullPattern := fullPattern + "^";
      }
      fullPattern := fullPattern + pattern;
      if pattern == "" || pattern[|pattern| - 1] != '$' {
        fullPattern := fullPattern + "$";
      }
    }

    static method FullMatch(str: Option<string>, re: RE) returns (matched: bool)
      requires re.Valid()
      requires str.Some? ==> IsCString(str.value) && |str.value| < MAX_SIZE
      ensures matched <==> re.isValid && str.Some? && FullyMatches(Parse(re.pattern).value, str.value)
    {
      if !re.isValid {
        return false;
      }
      ghost var p := Parse(re.pattern).value;
      ParseIffPrinted(re.pattern, p);
      FullTextPrints(p);
      FullTextIsCString(re.pattern);
      assert re.fullPattern == Text(FullPattern(p));
      matched := MatchRegexAnywhere(re.fullPattern, str, FullPattern(p));
    }

    static method PartialMatch(str: Option<string>, re: RE) returns (matched: bool)
      requires re.Valid()
      requires str.Some? ==> IsCString(str.value) && |str.value| < MAX_SIZE
      ensures matched <==> re.isValid && str.Some? && Matches(Parse(re.pattern).value, str.value)
    {
      if !re.isValid {
        return false;
      }
      ghost var p := Parse(re.pattern).value;
      ParseIffPrinted(re.pattern, p);
      matched := MatchRegexAnywhere(re.pattern, str, p);
    }
  }

  // ---------- what FullMatch promises ----------

  // A character that the atom matches.
  function Sample(a: Atom): (c: char)
    requires WellFormedAtom(a)
    ensures c != '\0' && AtomMatchesChar(a.escaped, a.c, c)
  {
    if !a.escaped then a.c
    else
      match a.c
      case 'd' => '0'
      case 'D' => 'a'
      case 'f' => '\U{000C}'
      case 'n' => '\n'
      case 'r' => '\r'
      case 's' => ' '
      case 'S' => 'a'
      case 't' => '\t'
      case 'v' => '\U{000B}'
      case 'w' => 'a'
      case 'W' => ' '
      case _ => a.c
  }

  // The language of a well-formed pattern is never empty.
  lemma {:induction false} LanguageInhabited(items: seq<Item>) returns (w: string)
    requires WellFormed(items)
    ensures IsCString(w) && Language(Body(items), w)
  {
    if items == [] {
      w := "";
    } else {
      var a := items[0].atom;
      assert WellFormedAtom(a);
      var rest := LanguageInhabited(items[1..]);
      ItemLanguage(items[0], [Sample(a)]);
      w := [Sample(a)] + rest;
      assert w[..1] == [Sample(a)] && w[1..] == rest;
    }
  }

  lemma {:induction false} EndsInDollar(items: seq<Item>, w: string)
    requires items != [] && items[|items| - 1] == Item(Atom(true, '$'), Once)
    requires Language(Body(items), w)
    ensures w != "" && w[|w| - 1] == '$'
  {
    var i :| 0 <= i <= |w| && Language(ItemRegex(items[0]), w[..i]) && Language(Body(items[1..]), w[i..]);
    if |items| == 1 {
      ItemLanguage(items[0], w[..i]);
    } else {
      EndsInDollar(items[1..], w[i..]);
    }
  }

  lemma FullyMatchesUnlessEscaped(p: Pattern, s: string)
    requires !EndsInEscapedDollar(p)
    ensures FullyMatches(p, s) <==> Language(Body(p.items), s)
  {
    assert s[0..|s|] == s;
  }

  // FullMatch accepts exactly the strings of the language if and only if the pattern does not end in
  // an escaped dollar sign.
  lemma FullMatchIsWholeMatch(p: Pattern)
    requires WellFormed(p.items)
    ensures (forall s | IsCString(s) :: FullyMatches(p, s) <==> Language(Body(p.items), s)) <==> !EndsInEscapedDollar(p)
  {
    if EndsInEscapedDollar(p) {
      var w := LanguageInhabited(p.items);
      var s := w + "x";
      assert s[0..|w|] == w;
      assert FullyMatches(p, s);
      if Language(Body(p.items), s) {
        EndsInDollar(p.items, s);
      }
    } else {
      forall s {
        FullyMatchesUnlessEscaped(p, s);
      }
    }
  }

  // The shortest instance: the pattern \$ fully matches "$x".
  lemma EscapedDollarExample()
    ensures Parse("\\$") == Some(Pattern(false, [Item(Atom(true, '$'), Once)], false))
    ensures FullyMatches(Parse("\\$").value, "$x") && !Language(Body(Parse("\\$").value.items), "$x")
  {
    var p := Pattern(false, [Item(Atom(true, '$'), Once)], false);
    ParseIffPrinted("\\$", p);
    assert ItemsText(p.items[1..]) == "";
    ItemLanguage(p.items[0], "$x"[..1]);
    assert "$x"[..1][1..] == "" && "$x"[..1][..1] == "$x"[..1];
    assert Language(Body(p.items), "$x"[0..1]);
    if Language(Body(p.items), "$x") {
      EndsInDollar(p.items, "$x");
    }
  }
}
