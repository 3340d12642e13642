/**
  The printer that shows a narrow string as a C++ string literal.

  The lexer below reads such literals back: escapes are resolved inside each literal, with maximal
  munch for hexadecimal and at most three digits for octal escapes (section 5.13.3 of
  ISO/IEC 14882:2017), and adjacent literals are concatenated afterwards (section 5.13.5).  The
  printer closes and reopens the literal when a hexadecimal digit follows a hexadecimal escape.  It
  takes no such care after "\0", so the literal reads back as the original bytes exactly when no NUL
  is directly followed by an octal digit.
 */
module StringLiteral {

  import opened Common

  datatype CharFormat = AsIs | HexEscape | SpecialEscape

  // ---------- printing ----------

  predicate IsPrintableAscii(c: byte) {
    0x20 <= c <= 0x7E
  }

  predicate IsXDigit(c: int) {
    '0' as int <= c <= '9' as int || 'A' as int <= c <= 'F' as int || 'a' as int <= c <= 'f' as int
  }

  function HexDigit(d: nat): char
    requires d < 16
  {
    if d < 10 then ('0' as int + d) as char else ('A' as int + d - 10) as char
  }

  // The number in base 16, in upper case and without leading zeros.
  function HexText(c: byte): string {
    if c < 16 then [HexDigit(c)] else [HexDigit(c / 16), HexDigit(c % 16)]
  }

  // The letter of the special escape for c.
  function EscapeLetter(c: byte): Option<char> {
    if c == 0 then Some('0')
    else if c == 39 then Some('\'')
    else if c == 92 then Some('\\')
    else if c == 7 then Some('a')
    else if c == 8 then Some('b')
    else if c == 12 then Some('f')
    else if c == 10 then Some('n')
    else if c == 13 then Some('r')
    else if c == 9 then Some('t')
    else if c == 11 then Some('v')
    else None
  }

  // How a byte is printed inside a character literal.
  function CharLiteral(c: byte): (string, CharFormat) {
    if EscapeLetter(c).Some? then ("\\" + [EscapeLetter(c).value], SpecialEscape)
    else if IsPrintableAscii(c) then ([c as char], AsIs)
    else ("\\" + ("x" + HexText(c)), HexEscape)
  }

  // The bytes that are escaped by name.
  lemma NamedEscapes(c: byte)
    ensures EscapeLetter(0) == Some('0') && EscapeLetter(39) == Some('\'') && EscapeLetter(92) == Some('\\')
    ensures EscapeLetter(7) == Some('a') && EscapeLetter(8) == Some('b') && EscapeLetter(12) == Some('f')
    ensures EscapeLetter(10) == Some('n') && EscapeLetter(13) == Some('r') && EscapeLetter(9) == Some('t')
    ensures EscapeLetter(11) == Some('v')
    ensures EscapeLetter(c).Some? <==> c == 0 || 7 <= c <= 13 || c == 39 || c == 92
  {
  }

  // Every byte, by what it is printed as in a character literal.
  lemma CharacterTable(c: byte)
    ensures EscapeLetter(c).Some? ==>
              CharLiteral(c).0 == ['\\', EscapeLetter(c).value] && CharLiteral(c).1 == SpecialEscape
    ensures 0x20 <= c <= 0x7E && c != 39 && c != 92 ==> CharLiteral(c).0 == [c as char] && CharLiteral(c).1 == AsIs
    ensures c >= 0x7F || 1 <= c < 7 || 14 <= c < 0x20 ==>
              CharLiteral(c).0 == ['\\', 'x'] + HexText(c) && CharLiteral(c).1 == HexEscape
  {
    NamedEscapes(c);
    assert "\\" + ("x" + HexText(c)) == ['\\', 'x'] + HexText(c);
    if EscapeLetter(c).Some? {
      assert "\\" + [EscapeLetter(c).value] == ['\\', EscapeLetter(c).value];
    }
  }

  // Inside a string literal only the quotes differ.
  lemma QuotesSwap(c: byte)
    ensures StringChar(39) == (['\''], AsIs) && StringChar(34) == (['\\', '"'], SpecialEscape)
    ensures CharLiteral(34) == (['"'], AsIs)
    ensures c != 39 && c != 34 ==> StringChar(c) == CharLiteral(c)
  {
    assert CharLiteral(34).0 == ['"'];
  }

  // Hexadecimal digits, printed in upper case and read in both.
  lemma HexDigits(d: nat, ch: char)
    requires d < 16
    ensures HexDigit(d) == "0123456789ABCDEF"[d]
    ensures IsXDigit(ch as int) <==> ch in "0123456789abcdef" || ch in "ABCDEF"
  {
  }

  // The escape has no leading zero.
  lemma HexTable(c: byte)
    ensures c < 16 ==> HexText(c) == [HexDigit(c)]
    ensures c >= 16 ==> HexText(c) == [HexDigit(c / 16), HexDigit(c % 16)]
  {
  }

  // Inside a string literal the quotes swap roles.
  function StringChar(c: byte): (string, CharFormat) {
    if c == 39 then ("'", AsIs) else if c == 34 then ("\\\"", SpecialEscape) else CharLiteral(c)
  }

  function Gap(previousHex: bool, next: byte): string {
    if previousHex && IsXDigit(next) then "\" \"" else ""
  }

  // The characters between the quotes; the literal is split where a hexadecimal escape would
  // otherwise swallow the next character.
  function Contents(s: seq<byte>, previousHex: bool): string {
    if s == [] then "" else
      Gap(previousHex, s[0]) + StringChar(s[0]).0 + Contents(s[1..], StringChar(s[0]).1 == HexEscape)
  }

  class OStream {
    var text: string

    constructor ()
      ensures text == ""
    {
      text := "";
    }

    method Write(s: string)
      modifies this
      ensures text == old(text) + s
    {
      text := text + s;
    }
  }

  method PrintAsCharLiteralTo(c: byte, os: OStream) returns (format: CharFormat)
    modifies os
    ensures os.text == old(os.text) + CharLiteral(c).0 && format == CharLiteral(c).1
  {
    match c {
    case 0 => os.Write("\\0");
    case 39 => os.Write("\\'");
    case 92 => os.Write("\\\\");
    case 7 => os.Write("\\a");
    case 8 => os.Write("\\b");
    case 12 => os.Write("\\f");
    case 10 => os.Write("\\n");
    case 13 => os.Write("\\r");
    case 9 => os.Write("\\t");
    case 11 => os.Write("\\v");
    case _ =>
      if IsPrintableAscii(c) {
        os.Write([c as char]);
        return AsIs;
      } else {
        os.Write("\\" + ("x" + HexText(c)));
        return HexEscape;
      }
    }
    return SpecialEscape;
  }

  method PrintAsStringLiteralTo(c: byte, os: OStream) returns (format: CharFormat)
    modifies os
    ensures os.text == old(os.text) + StringChar(c).0 && format == StringChar(c).1
  {
    match c {
    case 39 =>
      os.Write("'");
      return AsIs;
    case 34 =>
      os.Write("\\\"");
      return SpecialEscape;
    case _ =>
      format := PrintAsCharLiteralTo(c, os);
    }
  }

  ghost predicate AnyHex(s: seq<byte>) {
    exists i | 0 <= i < |s| :: StringChar(s[i]).1 == HexEscape
  }

  lemma AnyHexLast(s: seq<byte>, n: nat)
    requires n < |s|
    ensures AnyHex(s[..n + 1]) <==> AnyHex(s[..n]) || StringChar(s[n]).1 == HexEscape
  {
    assert s[..n + 1] == s[..n] + [s[n]];
    if AnyHex(s[..n]) {
      var i :| 0 <= i < n && StringChar(s[..n][i]).1 == HexEscape;
      assert s[..n + 1][i] == s[..n][i];
    }
    assert s[..n + 1][n] == s[n];
  }

  // Prints the literal and reports whether any byte needed a hexadecimal escape.
  method PrintCharsAsStringTo(s: seq<byte>, os: OStream) returns (format: CharFormat)
    modifies os
    ensures os.text == old(os.text) + "\"" + Contents(s, false) + "\""
    ensures format == if AnyHex(s) then HexEscape else AsIs
  {
    os.Write("\"");
    ghost var target := os.text + Contents(s, false);
    var isPreviousHex := false;
    format := AsIs;
    for index := 0 to |s|
      invariant os.text + Contents(s[index..], isPreviousHex) == target
      invariant format == if AnyHex(s[..index]) then HexEscape else AsIs
    {
      var cur := s[index];
      ghost var before, gap, piece := os.text, Gap(isPreviousHex, cur), StringChar(cur).0;
      ContentsStep(before, s, index, isPreviousHex);
      AnyHexLast(s, index);
      if isPreviousHex && IsXDigit(cur) {
        os.Write("\" \"");
      }
      assert os.text == before + gap;
      var printed := PrintAsStringLiteralTo(cur, os);
      assert os.text == before + gap + piece;
      isPreviousHex := printed == HexEscape;
      if isPreviousHex {
        format := HexEscape;
      }
    }
    os.Write("\"");
    assert s[..|s|] == s;
  }

  lemma ContentsStep(before: string, s: seq<byte>, index: nat, previousHex: bool)
    requires index < |s|
    ensures before + Contents(s[index..], previousHex) ==
      before + Gap(previousHex, s[index]) + StringChar(s[index]).0
      + Contents(s[index + 1..], StringChar(s[index]).1 == HexEscape)
  {
    assert s[index..][1..] == s[index + 1..];
  }

  // ---------- reading the literal back ----------

  predicate IsHexDigit(ch: char) {
    IsXDigit(ch as int)
  }

  predicate IsOctalDigit(ch: char) {
    '0' <= ch <= '7'
  }

  function HexRun(s: string): (n: nat)
    ensures n <= |s|
  {
    if s != "" && IsHexDigit(s[0]) then 1 + HexRun(s[1..]) else 0
  }

  function HexDigitValue(ch: char): nat
    requires IsHexDigit(ch)
  {
    var c := ch as int;
    if c <= '9' as int then c - '0' as int else if c <= 'F' as int then c - 'A' as int + 10 else c - 'a' as int + 10
  }

  function HexValue(s: string, acc: nat): nat
    requires forall i | 0 <= i < |s| :: IsHexDigit(s[i])
  {
    if s == "" then acc else HexValue(s[1..], 16 * acc + HexDigitValue(s[0]))
  }

  lemma {:induction false} HexRunIsHex(s: string)
    ensures forall i | 0 <= i < HexRun(s) :: IsHexDigit(s[i])
  {
    if s != "" && IsHexDigit(s[0]) {
      HexRunIsHex(s[1..]);
      forall i | 0 < i < HexRun(s)
        ensures IsHexDigit(s[i])
      {
        assert s[i] == s[1..][i - 1];
      }
    }
  }

  // The number of octal digits at the head of s, at most limit.
  function OctalRun(s: string, limit: nat): (n: nat)
    ensures n <= |s| && n <= limit
    ensures forall i | 0 <= i < n :: IsOctalDigit(s[i])
  {
    if limit > 0 && s != "" && IsOctalDigit(s[0]) then 1 + OctalRun(s[1..], limit - 1) else 0
  }

  function OctalValue(s: string): nat
    requires forall i | 0 <= i < |s| :: IsOctalDigit(s[i])
  {
    if s == "" then 0 else
      assert IsOctalDigit(s[|s| - 1]);
      8 * OctalValue(s[..|s| - 1]) + (s[|s| - 1] as int - '0' as int)
  }

  function SimpleEscape(ch: char): Option<byte> {
    match ch
    case '\'' => Some(39)
    case '"' => Some(34)
    case '?' => Some(63)
    case '\\' => Some(92)
    case 'a' => Some(7)
    case 'b' => Some(8)
    case 'f' => Some(12)
    case 'n' => Some(10)
    case 'r' => Some(13)
    case 't' => Some(9)
    case 'v' => Some(11)
    case _ => None
  }

  // The escapes of table 8 of ISO/IEC 14882:2017.
  lemma EscapeTable()
    ensures SimpleEscape('\'') == Some(39) && SimpleEscape('"') == Some(34) && SimpleEscape('?') == Some(63)
    ensures SimpleEscape('\\') == Some(92) && SimpleEscape('a') == Some(7) && SimpleEscape('b') == Some(8)
    ensures SimpleEscape('f') == Some(12) && SimpleEscape('n') == Some(10) && SimpleEscape('r') == Some(13)
    ensures SimpleEscape('t') == Some(9) && SimpleEscape('v') == Some(11)
  {
  }

  function Cons(value: int, rest: Option<seq<byte>>): Option<seq<byte>> {
    if rest.Some? && 0 <= value < 256 then Some([value] + rest.value) else None
  }

  // The value and the length of the escape whose text, after the backslash, starts s.
  function Escape(s: string): (e: Option<(nat, nat)>)
    ensures e.Some? ==> 0 < e.value.1 <= |s|
  {
    if s == "" then None
    else if SimpleEscape(s[0]).Some? then Some((SimpleEscape(s[0]).value, 1))
    else if s[0] == 'x' then HexEscapeAt(s[1..])
    else OctalEscapeAt(s)
  }

  function HexEscapeAt(s: string): (e: Option<(nat, nat)>)
    ensures e.Some? ==> 0 < e.value.1 <= 1 + |s|
  {
    HexRunIsHex(s);
    var n := HexRun(s);
    if n == 0 then None else Some((HexValue(s[..n], 0), 1 + n))
  }

  function OctalEscapeAt(s: string): (e: Option<(nat, nat)>)
    ensures e.Some? ==> 0 < e.value.1 <= |s|
  {
    var n := OctalRun(s, 3);
    if n == 0 then None else Some((OctalValue(s[..n]), n))
  }

  // The bytes denoted from inside a literal on, adjacent literals included.
  function Inside(s: string): Option<seq<byte>>
    decreases |s|
  {
    if s == "" || s[0] == '\n' then None
    else if s[0] == '"' then Between(s[1..])
    else if s[0] != '\\' then Cons(s[0] as int, Inside(s[1..]))
    else
      match Escape(s[1..])
      case None => None
      case Some((value, n)) => Cons(value, Inside(s[1..][n..]))
  }

  // The same, from outside a literal.
  function Between(s: string): Option<seq<byte>>
    decreases |s|
  {
    if s == "" then Some([])
    else if s[0] == ' ' then Between(s[1..])
    else if s[0] == '"' then Inside(s[1..])
    else None
  }

  // ---------- the round trip ----------

  ghost predicate NulBeforeOctal(s: seq<byte>) {
    exists i | 0 <= i < |s| - 1 :: s[i] == 0 && '0' as int <= s[i + 1] <= '7' as int
  }

  lemma NulBeforeOctalCons(s: seq<byte>)
    requires s != []
    ensures NulBeforeOctal(s) <==>
      (|s| >= 2 && s[0] == 0 && '0' as int <= s[1] <= '7' as int) || NulBeforeOctal(s[1..])
  {
    assert forall i | 0 < i < |s| - 1 :: s[i] == s[1..][i - 1] && s[i + 1] == s[1..][i];
    if NulBeforeOctal(s[1..]) {
      var i :| 0 <= i < |s[1..]| - 1 && s[1..][i] == 0 && '0' as int <= s[1..][i + 1] <= '7' as int;
      assert s[i + 1] == 0;
    }
  }

  predicate IsOctalByte(c: byte) {
    '0' as int <= c <= '7' as int
  }

  // What is printed for s after a byte, up to and including the closing quote.
  function Rest(s: seq<byte>, previousHex: bool): string {
    Contents(s, previousHex) + "\""
  }

  lemma RestOfCons(s: seq<byte>, previousHex: bool)
    requires s != []
    ensures Rest(s, previousHex) ==
      Gap(previousHex, s[0]) + (StringChar(s[0]).0 + Rest(s[1..], StringChar(s[0]).1 == HexEscape))
  {
    var gap, piece, rest := Gap(previousHex, s[0]), StringChar(s[0]).0,
                            Contents(s[1..], StringChar(s[0]).1 == HexEscape);
    Assoc(gap + piece, rest, "\"");
    Assoc(gap, piece, rest + "\"");
  }

  lemma StringCharHead(c: byte)
    ensures var t := StringChar(c); t.0 != "" && t.0[0] == if t.1 == AsIs then c as char else '\\'
    ensures IsXDigit(c) ==> StringChar(c) == ([c as char], AsIs)
  {
  }

  // After a hexadecimal escape comes no hexadecimal digit, and an octal digit comes only as itself.
  lemma RestHead(s: seq<byte>, previousHex: bool)
    ensures var t := Rest(s, previousHex);
      && t != ""
      && (previousHex ==> !IsHexDigit(t[0]))
      && (!previousHex ==> (IsOctalDigit(t[0]) <==> s != [] && IsOctalByte(s[0])))
      && (!previousHex && s != [] && IsOctalByte(s[0]) ==> t == [s[0] as char] + Rest(s[1..], false))
  {
    if s != [] {
      RestOfCons(s, previousHex);
      StringCharHead(s[0]);
    }
  }

  // An escape followed by t reads as its value followed by what t reads as.
  lemma InsideEscape(escape: string, t: string, value: nat)
    requires Escape(escape + t) == Some((value, |escape|))
    ensures Inside("\\" + escape + t) == Cons(value, Inside(t))
  {
    var s := "\\" + escape + t;
    assert s[1..] == escape + t;
    assert s[1..][|escape|..] == t;
  }

  lemma InsideSpecial(letter: char, c: byte, t: string)
    requires SimpleEscape(letter) == Some(c)
    ensures Inside("\\" + [letter] + t) == Cons(c, Inside(t))
  {
    InsideEscape([letter], t, c);
  }

  lemma OctalRunCons(d: char, t: string, limit: nat)
    ensures OctalRun([d] + t, limit) == if limit > 0 && IsOctalDigit(d) then 1 + OctalRun(t, limit - 1) else 0
  {
    assert ([d] + t)[1..] == t;
  }

  // An octal escape that starts with zero.
  lemma EscapeOctal(digits: string, t: string)
    requires digits != "" && digits[0] == '0' && OctalRun(digits + t, 3) == |digits|
    ensures forall i | 0 <= i < |digits| :: IsOctalDigit(digits[i])
    ensures Escape(digits + t) == Some((OctalValue(digits), |digits|))
  {
    assert (digits + t)[..|digits|] == digits;
    assert forall i | 0 <= i < |digits| :: digits[i] == (digits + t)[i];
  }

  lemma InsideNul(t: string)
    requires t == "" || !IsOctalDigit(t[0])
    ensures Inside("\\" + "0" + t) == Cons(0, Inside(t))
  {
    OctalRunCons('0', t, 3);
    EscapeOctal("0", t);
    assert "0"[..0] == "";
    InsideEscape("0", t, 0);
  }

  lemma InsidePlain(ch: char, t: string)
    requires ch != '\\' && ch != '"' && ch != '\n'
    ensures Inside([ch] + t) == Cons(ch as int, Inside(t))
  {
    assert ([ch] + t)[1..] == t;
  }

  lemma HexCons(d: nat, t: string, acc: nat)
    requires d < 16
    ensures IsHexDigit(HexDigit(d)) && HexRun([HexDigit(d)] + t) == 1 + HexRun(t)
    ensures (forall i | 0 <= i < |t| :: IsHexDigit(t[i]))
            ==> HexValue([HexDigit(d)] + t, acc) == HexValue(t, 16 * acc + d)
  {
    assert ([HexDigit(d)] + t)[1..] == t;
  }

  lemma HexTextValue(c: byte, t: string)
    requires t == "" || !IsHexDigit(t[0])
    ensures forall i | 0 <= i < |HexText(c)| :: IsHexDigit(HexText(c)[i])
    ensures HexRun(HexText(c) + t) == |HexText(c)| && HexValue(HexText(c), 0) == c
  {
    if c < 16 {
      HexCons(c, t, 0);
      HexCons(c, "", 0);
      assert HexText(c) == [HexDigit(c)] + "";
    } else {
      var low := [HexDigit(c % 16)];
      HexCons(c % 16, t, 0);
      HexCons(c / 16, low + t, 0);
      HexCons(c % 16, "", c / 16);
      assert low == low + "";
      HexCons(c / 16, low, 0);
      assert HexText(c) == [HexDigit(c / 16)] + low;
      assert HexText(c) + t == [HexDigit(c / 16)] + (low + t);
    }
  }

  lemma HexEscapeOfText(c: byte, t: string)
    requires t == "" || !IsHexDigit(t[0])
    ensures HexEscapeAt(HexText(c) + t) == Some((c, 1 + |HexText(c)|))
  {
    HexTextValue(c, t);
    assert (HexText(c) + t)[..|HexText(c)|] == HexText(c);
  }

  lemma EscapeX(u: string)
    ensures Escape("x" + u) == HexEscapeAt(u)
  {
    assert ("x" + u)[1..] == u;
  }

  lemma InsideHex(c: byte, t: string)
    requires t == "" || !IsHexDigit(t[0])
    ensures Inside("\\" + ("x" + HexText(c)) + t) == Cons(c, Inside(t))
  {
    HexEscapeOfText(c, t);
    EscapeX(HexText(c) + t);
    Assoc("x", HexText(c), t);
    InsideEscape("x" + HexText(c), t, c);
  }

  // A printed byte reads back as itself when what follows cannot extend its escape.
  lemma InsidePiece(c: byte, t: string)
    requires t != "" && (c == 0 ==> !IsOctalDigit(t[0]))
    requires StringChar(c).1 == HexEscape ==> !IsHexDigit(t[0])
    ensures Inside(StringChar(c).0 + t) == Cons(c, Inside(t))
  {
    var text := StringChar(c).0;
    if c == 39 {
      assert text == ['\''];
      InsidePlain('\'', t);
    } else if c == 34 {
      assert text == "\\" + ['"'];
      InsideSpecial('"', 34, t);
    } else if c == 0 {
      assert text == "\\" + "0";
      InsideNul(t);
    } else if EscapeLetter(c).Some? {
      assert text == "\\" + [EscapeLetter(c).value];
      InsideSpecial(EscapeLetter(c).value, c, t);
    } else if IsPrintableAscii(c) {
      assert text == [c as char];
      InsidePlain(c as char, t);
    } else {
      assert text == "\\" + ("x" + HexText(c));
      InsideHex(c, t);
    }
  }

  lemma InsideGap(previousHex: bool, c: byte, t: string)
    ensures Inside(Gap(previousHex, c) + t) == Inside(t)
  {
    if previousHex && IsXDigit(c) {
      var s, u, w := "\" \"" + t, " \"" + t, "\"" + t;
      assert s[1..] == u;
      assert u[1..] == w;
      assert w[1..] == t;
      assert Between(w) == Inside(t);
      assert Between(u) == Between(w);
    } else {
      assert "" + t == t;
    }
  }

  // A NUL before an octal digit swallows that digit, and a second one if there is one.
  lemma InsideSwallows(s: seq<byte>) returns (k: nat, v: nat)
    requires |s| >= 2 && s[0] == 0 && IsOctalByte(s[1])
    ensures 2 <= k <= |s| && v < 64 && Inside(Rest(s, false)) == Cons(v, Inside(Rest(s[k..], false)))
  {
    var d := s[1] as char;
    var t := Rest(s[2..], false);
    RestHead(s[2..], false);
    OctalRunCons('0', [d] + t, 3);
    OctalRunCons(d, t, 2);
    Assoc("0", [d], t);
    Assoc("\\", "0" + [d], t);
    NulText(s);
    if |s| >= 3 && IsOctalByte(s[2]) {
      var e, rest := s[2] as char, Rest(s[3..], false);
      assert s[2..][1..] == s[3..];
      OctalRunCons(e, rest, 1);
      Assoc("0" + [d], [e], rest);
      Assoc("\\", "0" + [d] + [e], rest);
      k := 3;
      v := SwallowOctal("0" + [d] + [e], rest);
    } else {
      k := 2;
      v := SwallowOctal("0" + [d], t);
    }
  }

  lemma SwallowOctal(digits: string, t: string) returns (v: nat)
    requires 2 <= |digits| <= 3 && digits[0] == '0' && OctalRun(digits + t, 3) == |digits|
    ensures v < 64 && Inside("\\" + digits + t) == Cons(v, Inside(t))
  {
    EscapeOctal(digits, t);
    v := OctalValue(digits);
    OctalAtMost(digits);
    InsideEscape(digits, t, v);
  }

  lemma NulText(s: seq<byte>)
    requires |s| >= 2 && s[0] == 0 && IsOctalByte(s[1])
    ensures Rest(s, false) == "\\" + ("0" + [s[1] as char] + Rest(s[2..], false))
  {
    RestOfCons(s, false);
    RestHead(s[1..], false);
    assert s[1..][1..] == s[2..];
    var d, t := [s[1] as char], Rest(s[2..], false);
    assert Rest(s, false) == ("\\" + "0") + (d + t);
    Assoc("\\", "0", d + t);
    Assoc("0", d, t);
  }

  // At most three octal digits of which the first is zero denote less than 64.
  lemma OctalAtMost(s: string)
    requires 2 <= |s| <= 3 && s[0] == '0' && forall i | 0 <= i < |s| :: IsOctalDigit(s[i])
    ensures OctalValue(s) < 64
  {
    var p := s[..|s| - 1];
    var q := p[..|p| - 1];
    assert OctalValue(s) == 8 * OctalValue(p) + (s[|s| - 1] as int - '0' as int);
    assert OctalValue(p) == 8 * OctalValue(q) + (p[|p| - 1] as int - '0' as int);
    assert |s| == 3 ==> q == ['0'] && q[..0] == "" && OctalValue(q) == 0;
  }

  // The split before a hexadecimal digit does not change what is read.
  lemma InsideSplit(s: seq<byte>, previousHex: bool)
    requires s != []
    ensures var piece := StringChar(s[0]);
      Inside(Rest(s, previousHex)) == Inside(piece.0 + Rest(s[1..], piece.1 == HexEscape))
  {
    RestOfCons(s, previousHex);
    InsideGap(previousHex, s[0], StringChar(s[0]).0 + Rest(s[1..], StringChar(s[0]).1 == HexEscape));
  }

  // The literal always reads back; it gives no more bytes than were printed, and exactly the printed
  // bytes unless a NUL stands before an octal digit.
  lemma {:induction false} InsideRest(s: seq<byte>, previousHex: bool)
    ensures var r := Inside(Rest(s, previousHex));
      && r.Some? && |r.value| <= |s| && (r.value == s <==> !NulBeforeOctal(s))
    decreases |s|
  {
    if s == [] {
      assert Rest(s, previousHex)[1..] == "";
    } else {
      InsideSplit(s, previousHex);
      NulBeforeOctalCons(s);
      if |s| >= 2 && s[0] == 0 && IsOctalByte(s[1]) {
        InsideSplit(s, false);
        var k, v := InsideSwallows(s);
        InsideRest(s[k..], false);
      } else {
        var hex := StringChar(s[0]).1 == HexEscape;
        RestHead(s[1..], hex);
        InsidePiece(s[0], Rest(s[1..], hex));
        InsideRest(s[1..], hex);
        assert s == [s[0]] + s[1..];
      }
    }
  }

  // Reading back what PrintCharsAsStringTo writes gives the original bytes if and only if no NUL is
  // directly followed by an octal digit.
  lemma LiteralRoundTrip(s: seq<byte>)
    ensures Between("\"" + Contents(s, false) + "\"") == Some(s) <==> !NulBeforeOctal(s)
  {
    var text := "\"" + Contents(s, false) + "\"";
    assert text[1..] == Rest(s, false);
    InsideRest(s, false);
  }

  // The smallest instance of the ambiguity: NUL followed by '1' prints as "\01", which denotes 1.
  lemma NulOneExample()
    ensures Contents([0, 49], false) == "\\01"
    ensures Between("\"" + Contents([0, 49], false) + "\"") != Some([0, 49])
  {
    assert [0, 49][1..] == [49] && [49][1..] == [];
    assert Contents([49], false) == "1" + Contents([], false);
    var s: seq<byte> := [0, 49];
    assert s[0] == 0 && s[0 + 1] == 49;
    assert NulBeforeOctal(s);
    LiteralRoundTrip([0, 49]);
  }
}
