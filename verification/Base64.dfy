/**
  Base64: the messenger's wrapper around OpenSSL's block coder, and the tolerant decoder of the
  mocking library.

  EVP_EncodeBlock and EVP_DecodeBlock are modelled as the block coder of section 4 of RFC 4648: the
  decoder takes whole groups of four characters and reads a pad as six zero bits.
 */
module Base64 {
  import opened Common

  type sextet = v: int | 0 <= v < 64

  const UPPER: string := "ABCDEFGHIJKLMNOPQRSTUVWXYZ"
  const LOWER: string := "abcdefghijklmnopqrstuvwxyz"
  const DIGITS: string := "0123456789"
  const ALPHABET: string := UPPER + LOWER + DIGITS + "+/"

  function Base64Char(v: sextet): char {
    if v < 26 then ('A' as int + v) as char
    else if v < 52 then ('a' as int + v - 26) as char
    else if v < 62 then ('0' as int + v - 52) as char
    else if v == 62 then '+' else '/'
  }

  lemma Uppers(v: nat)
    requires v < 26
    ensures |UPPER| == 26 && UPPER[v] == Base64Char(v)
  {
  }

  lemma Lowers(v: nat)
    requires v < 26
    ensures |LOWER| == 26 && LOWER[v] == Base64Char(v + 26)
  {
  }

  lemma DigitChars(v: nat)
    requires v < 10
    ensures |DIGITS| == 10 && DIGITS[v] == Base64Char(v + 52)
  {
  }

  lemma AlphabetLists(v: sextet)
    ensures |ALPHABET| == 64 && ALPHABET[v] == Base64Char(v)
  {
    if v < 26 {
      Uppers(v);
    } else if v < 52 {
      Lowers(v - 26);
    } else if v < 62 {
      DigitChars(v - 52);
    }
  }

  // ---------- the encoding, section 4 of RFC 4648 ----------

  // Three bytes make four six-bit groups.
  function Split(a: byte, b: byte, c: byte): seq<sextet> {
    [a / 4, a % 4 * 16 + b / 16, b % 16 * 4 + c / 64, c % 64]
  }

  // The six-bit groups of d; the last one is filled up with zero bits.
  function Sextets(d: seq<byte>): (s: seq<sextet>)
    ensures |s| == (4 * |d| + 2) / 3
  {
    if d == [] then []
    else if |d| == 1 then Split(d[0], 0, 0)[..2]
    else if |d| == 2 then Split(d[0], d[1], 0)[..3]
    else Split(d[0], d[1], d[2]) + Sextets(d[3..])
  }

  function Chars(s: seq<sextet>): (t: string)
    ensures |t| == |s|
  {
    seq(|s|, i requires 0 <= i < |s| => Base64Char(s[i]))
  }

  function Padding(n: nat): string {
    if n % 3 == 1 then "==" else if n % 3 == 2 then "=" else ""
  }

  function Encode(d: seq<byte>): string {
    Chars(Sextets(d)) + Padding(|d|)
  }

  // The groups are the bits in order, most significant first; missing bytes count as zero bits.
  lemma GroupsAreBits(a: byte, b: byte, c: byte)
    ensures var v := Split(a, b, c);
      v[0] as int * 0x40000 + v[1] as int * 0x1000 + v[2] as int * 0x40 + v[3] as int
      == a as int * 0x10000 + b as int * 0x100 + c as int
    ensures Sextets([a]) == Split(a, 0, 0)[..2] && Sextets([a, b]) == Split(a, b, 0)[..3]
    ensures Sextets([a, b, c]) == Split(a, b, c)
  {
    assert [a, b, c][3..] == [];
    assert Split(a, b, c) + [] == Split(a, b, c);
  }

  // Four characters for every three bytes, and pads for the missing ones.
  lemma EncodingShape(a: byte, b: byte, c: byte, rest: seq<byte>)
    ensures Encode([]) == "" && Encode([a]) == Chars(Split(a, 0, 0)[..2]) + "=="
    ensures Encode([a, b]) == Chars(Split(a, b, 0)[..3]) + "="
    ensures Encode([a, b, c] + rest) == Chars(Split(a, b, c)) + Encode(rest)
  {
    EncodeGroup([a, b, c] + rest);
    assert ([a, b, c] + rest)[3..] == rest;
    assert Chars([]) + "" == "";
  }

  lemma CharsConcat(s: seq<sextet>, t: seq<sextet>)
    ensures Chars(s + t) == Chars(s) + Chars(t)
  {
  }

  // The encoding, one group at a time.
  lemma EncodeGroup(d: seq<byte>)
    requires |d| >= 3
    ensures Encode(d) == Chars(Split(d[0], d[1], d[2])) + Encode(d[3..])
  {
    var group, rest := Split(d[0], d[1], d[2]), Sextets(d[3..]);
    CharsConcat(group, rest);
    PeriodThree(|d|);
    Assoc(Chars(group), Chars(rest), Padding(|d|));
  }

  lemma EncodeLength(d: seq<byte>)
    ensures |Encode(d)| == 4 * ((|d| + 2) / 3)
  {
    PaddedLength(|d|);
    assert |Encode(d)| == |Chars(Sextets(d))| + |Padding(|d|)|;
  }

  lemma PaddedLength(n: nat)
    ensures (4 * n + 2) / 3 + |Padding(n)| == 4 * ((n + 2) / 3)
  {
    var k := n / 3;
    assert n == 3 * k || n == 3 * k + 1 || n == 3 * k + 2;
  }

  // ---------- the block coder ----------

  // The value of one character of a group; a pad counts as zero.
  function Decoded(c: char): Option<sextet> {
    if 'A' <= c <= 'Z' then Some(c as int - 'A' as int)
    else if 'a' <= c <= 'z' then Some(c as int - 'a' as int + 26)
    else if '0' <= c <= '9' then Some(c as int - '0' as int + 52)
    else if c == '+' then Some(62)
    else if c == '/' then Some(63)
    else if c == '=' then Some(0)
    else None
  }

  // The characters that a group may contain: the alphabet and the pad.
  lemma DecodableChars(c: char)
    ensures Decoded(c).Some? <==> c == '=' || exists v: sextet :: Base64Char(v) == c
    ensures forall v: sextet :: Base64Char(v) == c ==> Decoded(c) == Some(v)
  {
    if Decoded(c).Some? && c != '=' {
      assert Base64Char(Decoded(c).value) == c;
    }
  }

  predicate Decodable(s: string) {
    |s| % 4 == 0 && forall i | 0 <= i < |s| :: Decoded(s[i]).Some?
  }

  function Triple(a: sextet, b: sextet, c: sextet, d: sextet): seq<byte> {
    [a * 4 + b / 16, b % 16 * 16 + c / 4, c % 4 * 64 + d]
  }

  function DecodeGroups(s: string): (d: seq<byte>)
    requires Decodable(s)
    ensures |d| == |s| / 4 * 3
  {
    if s == "" then [] else
      Triple(Decoded(s[0]).value, Decoded(s[1]).value, Decoded(s[2]).value, Decoded(s[3]).value) + DecodeGroups(s[4..])
  }

  // EVP_EncodeBlock also writes a terminator, so it needs room for one more character.
  method EvpEncodeBlock(dst: array<char>, src: seq<byte>) returns (written: nat)
    requires dst.Length > |Encode(src)|
    modifies dst
    ensures written == |Encode(src)| && dst[..written] == Encode(src)
  {
    var text := Encode(src);
    written := |text|;
    forall i | 0 <= i < written {
      dst[i] := text[i];
    }
    dst[written] := '\0';
  }

  // EVP_DecodeBlock returns -1 for a text it cannot decode.
  method EvpDecodeBlock(dst: array<byte>, src: string) returns (written: int)
    requires dst.Length >= |src| / 4 * 3
    modifies dst
    ensures written == if Decodable(src) then |src| / 4 * 3 else -1
    ensures Decodable(src) ==> dst[..written] == DecodeGroups(src)
  {
    if !Decodable(src) {
      return -1;
    }
    var data := DecodeGroups(src);
    written := |data|;
    forall i | 0 <= i < written {
      dst[i] := data[i];
    }
  }

  // ---------- MessageProtocol::base64Encode and base64Decode ----------

  method Base64Encode(data: seq<byte>) returns (text: string)
    ensures text == Encode(data)
  {
    if data == [] {
      return "";
    }
    EncodeLength(data);
    var outLen := 4 * ((|data| + 2) / 3);
    var out := new char[outLen + 1];
    var written := EvpEncodeBlock(out, data);
    return out[..written];
  }

  // The number of pads that base64Decode trims.
  function Pads(s: string): nat {
    if s != "" && s[|s| - 1] == '=' then if |s| > 1 && s[|s| - 2] == '=' then 2 else 1 else 0
  }

  lemma PadsFit(s: string)
    requires s != "" && Decodable(s)
    ensures Pads(s) <= |DecodeGroups(s)| == |s| / 4 * 3 <= |s| * 3 / 4
  {
    assert |s| == 4 * (|s| / 4);
  }

  // None where the program throws.
  function Decode(s: string): Option<seq<byte>> {
    if s == "" then Some([])
    else if !Decodable(s) then None
    else
      PadsFit(s);
      Some(DecodeGroups(s)[..|DecodeGroups(s)| - Pads(s)])
  }

  method Base64Decode(base64: string) returns (r: Option<seq<byte>>)
    ensures r == Decode(base64)
  {
    if base64 == "" {
      return Some([]);
    }
    BufferFits(|base64|);
    var out := new byte[|base64| * 3 / 4 + 2];
    var written := EvpDecodeBlock(out, base64);
    if written < 0 {
      return None;
    }
    PadsFit(base64);
    var data := out[..written];
    assert data == DecodeGroups(base64);
    var pad := 0;
    if base64[|base64| - 1] == '=' {
      pad := pad + 1;
      if |base64| > 1 && base64[|base64| - 2] == '=' {
        pad := pad + 1;
      }
    }
    assert pad == Pads(base64);
    return Some(data[..|data| - pad]);
  }

  lemma BufferFits(n: nat)
    ensures n / 4 * 3 <= n * 3 / 4
  {
    assert n == 4 * (n / 4) + n % 4;
  }

  lemma DecodedChar(v: sextet)
    ensures Decoded(Base64Char(v)) == Some(v) && Base64Char(v) != '='
  {
  }

  lemma GroupDecodes(a: byte, b: byte, c: byte, t: string)
    requires Decodable(t)
    ensures var s := Chars(Split(a, b, c)) + t; Decodable(s) && DecodeGroups(s) == [a, b, c] + DecodeGroups(t)
  {
    var v := Split(a, b, c);
    var s := Chars(v) + t;
    forall i | 0 <= i < 4
      ensures Decoded(s[i]) == Some(v[i])
    {
      DecodedChar(v[i]);
    }
    forall i | 4 <= i < |s|
      ensures Decoded(s[i]).Some?
    {
      assert s[i] == t[i - 4];
    }
    assert s[4..] == t;
    TripleOfSplit(a, b, c);
  }

  lemma TripleOfSplit(a: byte, b: byte, c: byte)
    ensures var v := Split(a, b, c); Triple(v[0], v[1], v[2], v[3]) == [a, b, c]
  {
    TwoDigits(a / 4, a % 4, 4);
    TwoDigits(a % 4, b / 16, 16);
    TwoDigits(b % 16, c / 64, 4);
  }

  lemma TwoDigits(high: nat, low: nat, m: nat)
    requires low < m && (m == 4 || m == 16)
    ensures (high * m + low) / m == high && (high * m + low) % m == low
  {
  }

  function Zeros(n: nat): seq<byte> {
    if n % 3 == 1 then [0, 0] else if n % 3 == 2 then [0] else []
  }

  lemma FirstThree(d: seq<byte>)
    requires |d| >= 3
    ensures d == [d[0], d[1], d[2]] + d[3..]
  {
  }

  lemma PeriodThree(n: nat)
    requires n >= 3
    ensures Zeros(n) == Zeros(n - 3) && Padding(n) == Padding(n - 3)
  {
  }

  // What the block decoder makes of an encoding: d, then one zero byte per pad.
  ghost predicate DecodesPadded(d: seq<byte>) {
    Decodable(Encode(d)) && DecodeGroups(Encode(d)) == d + Zeros(|d|)
  }

  lemma ShortDecodesPadded(d: seq<byte>)
    requires |d| < 3
    ensures DecodesPadded(d)
  {
    if |d| == 1 {
      ShortDecodes(d[0], 0, 2);
      assert d + Zeros(|d|) == [d[0], 0, 0];
    } else if |d| == 2 {
      ShortDecodes(d[0], d[1], 3);
      assert d + Zeros(|d|) == [d[0], d[1], 0];
    }
  }

  lemma GroupDecodesPadded(d: seq<byte>)
    requires |d| >= 3 && DecodesPadded(d[3..])
    ensures DecodesPadded(d)
  {
    var first, rest := [d[0], d[1], d[2]], d[3..];
    EncodeGroup(d);
    GroupDecodes(d[0], d[1], d[2], Encode(rest));
    FirstThree(d);
    PeriodThree(|d|);
    Assoc(first, rest, Zeros(|d|));
  }

  lemma {:induction false} EncodeDecodes(d: seq<byte>)
    ensures DecodesPadded(d)
    decreases |d|
  {
    if |d| < 3 {
      ShortDecodesPadded(d);
    } else {
      EncodeDecodes(d[3..]);
      GroupDecodesPadded(d);
    }
  }

  // A last group with k characters and 4 - k pads.
  lemma ShortDecodes(a: byte, b: byte, k: nat)
    requires 2 <= k <= 3 && (k == 2 ==> b == 0)
    ensures var s := Chars(Split(a, b, 0)[..k]) + (if k == 2 then "==" else "=");
      Decodable(s) && DecodeGroups(s) == [a, b, 0]
  {
    var v := Split(a, b, 0);
    var s := Chars(v[..k]) + (if k == 2 then "==" else "=");
    assert |s| == 4;
    forall i | 0 <= i < 4
      ensures Decoded(s[i]) == Some(v[i])
    {
      DecodedChar(v[i]);
    }
    TripleOfSplit(a, b, 0);
    assert s[4..] == "";
  }

  lemma EncodePads(d: seq<byte>)
    requires d != []
    ensures Encode(d) != "" && Pads(Encode(d)) == |Padding(|d|)|
  {
    var v, s, p := Sextets(d), Encode(d), Padding(|d|);
    assert forall i | 0 <= i < |v| :: s[i] == Base64Char(v[i]);
    DecodedChar(v[|v| - 1]);
    assert |v| >= 2;
    if |p| == 0 {
      assert s[|s| - 1] == Base64Char(v[|v| - 1]);
    } else if |p| == 1 {
      assert s[|s| - 1] == '=' && s[|s| - 2] == Base64Char(v[|v| - 1]);
    } else {
      assert s[|s| - 1] == '=' && s[|s| - 2] == '=';
    }
  }

  // Decoding undoes encoding, for every byte string.
  lemma Base64RoundTrip(d: seq<byte>)
    ensures Decode(Encode(d)) == Some(d)
  {
    if d != [] {
      EncodeDecodes(d);
      EncodePads(d);
    }
  }

  // ---------- Base64Unescape ----------

  predicate IsSpace(c: char) {
    c == ' ' || '\t' <= c <= '\r'
  }

  function UndoWebSafeEncoding(c: char): char {
    if c == '-' then '+' else if c == '_' then '/' else c
  }

  // The index of c in base64, counted from carry, or 65.
  function UnBase64Impl(c: char, base64: string, carry: nat): nat
  {
    if base64 == "" then 65 else if base64[0] == c then carry else UnBase64Impl(c, base64[1..], carry + 1)
  }

  function UnBase64(c: char): nat {
    UnBase64Impl(UndoWebSafeEncoding(c), ALPHABET, 0)
  }

  lemma {:induction false} SearchFinds(base64: string, i: nat, carry: nat)
    requires i < |base64| && forall j | 0 <= j < i :: base64[j] != base64[i]
    ensures UnBase64Impl(base64[i], base64, carry) == carry + i
  {
    if i > 0 {
      assert base64[0] != base64[i];
      assert forall j | 0 <= j < i - 1 :: base64[1..][j] == base64[j + 1];
      SearchFinds(base64[1..], i - 1, carry + 1);
    }
  }

  lemma {:induction false} SearchMisses(base64: string, c: char, carry: nat)
    ensures c !in base64 ==> UnBase64Impl(c, base64, carry) == 65
    ensures c in base64 ==> carry <= UnBase64Impl(c, base64, carry) < carry + |base64|
  {
    if base64 != "" {
      SearchMisses(base64[1..], c, carry + 1);
    }
  }

  // The table holds 0 to 63 for the alphabet, standard or URL-safe, and 65 for everything else.
  lemma TableEntry(v: sextet)
    ensures UnBase64(Base64Char(v)) == v
    ensures UnBase64('-') == 62 && UnBase64('_') == 63
  {
    AlphabetLists(v);
    AlphabetLists(62);
    AlphabetLists(63);
    forall j: sextet
      ensures ALPHABET[j] == Base64Char(j)
    {
      AlphabetLists(j);
    }
    SearchFinds(ALPHABET, v, 0);
    SearchFinds(ALPHABET, 62, 0);
    SearchFinds(ALPHABET, 63, 0);
  }

  lemma TableRange(c: char)
    ensures UnBase64(c) == 65 || (UnBase64(c) < 64 && (c == '-' || c == '_' || Base64Char(UnBase64(c)) == c))
    ensures c != '-' && c != '_' && (forall v: sextet :: Base64Char(v) != c) ==> UnBase64(c) == 65
  {
    AlphabetLists(0);
    SearchMisses(ALPHABET, UndoWebSafeEncoding(c), 0);
    if v: sextet :| ALPHABET[v] == UndoWebSafeEncoding(c) {
      AlphabetLists(v);
      TableEntry(v);
    }
  }

  lemma SkippedChars(c: char)
    ensures Skipped(c) <==> c == '=' || c in " \t\n\U{000B}\U{000C}\r"
  {
  }

  // Operations on a char of eight bits: bitwise or, and shifts one bit at a time.
  function Or(a: nat, b: nat): nat
    decreases a + b
  {
    if a == 0 && b == 0 then 0 else (if a % 2 == 1 || b % 2 == 1 then 1 else 0) + 2 * Or(a / 2, b / 2)
  }

  function ShiftLeft(x: nat, k: nat): byte
    requires k <= 8
  {
    (if k == 0 then x else if k == 1 then x * 2 else if k == 2 then x * 4 else if k == 3 then x * 8
     else if k == 4 then x * 16
     else if k == 5 then x * 32 else if k == 6 then x * 64 else if k == 7 then x * 128 else x * 256) % 256
  }

  function ShiftRight(x: nat, k: nat): nat
    requires k <= 8
  {
    if k == 0 then x else if k == 1 then x / 2 else if k == 2 then x / 4 else if k == 3 then x / 8
    else if k == 4 then x / 16
    else if k == 5 then x / 32 else if k == 6 then x / 64 else if k == 7 then x / 128 else x / 256
  }

  function Doubled(a: nat, k: nat): nat {
    if k == 0 then a else 2 * Doubled(a, k - 1)
  }

  lemma {:induction false} OrDisjoint(a: nat, b: nat, k: nat)
    requires b < Doubled(1, k)
    ensures Or(Doubled(a, k), b) == Doubled(a, k) + b
  {
    if k == 0 {
      OrZero(a);
    } else {
      OrDisjoint(a, b / 2, k - 1);
    }
  }

  lemma {:induction false} OrZero(a: nat)
    ensures Or(a, 0) == a
  {
    if a > 0 {
      OrZero(a / 2);
    }
  }

  lemma DoubledTwice(a: nat, k: nat)
    ensures Doubled(a, k + 2) == 4 * Doubled(a, k)
  {
    assert Doubled(a, k + 2) == 2 * Doubled(a, k + 1);
  }

  // The three ways in which the accumulator meets the next sextet.
  lemma OrTwoBits(x: nat, y: nat)
    requires y < 4
    ensures Or(x * 4, y) == x * 4 + y
  {
    DoubledTwice(1, 0);
    DoubledTwice(x, 0);
    OrDisjoint(x, y, 2);
  }

  lemma OrFourBits(x: nat, y: nat)
    requires y < 16
    ensures Or(x * 16, y) == x * 16 + y
  {
    DoubledTwice(1, 0);
    DoubledTwice(1, 2);
    DoubledTwice(x, 0);
    DoubledTwice(x, 2);
    OrDisjoint(x, y, 4);
  }

  lemma OrSixBits(x: nat, y: nat)
    requires y < 64
    ensures Or(x * 64, y) == x * 64 + y
  {
    DoubledTwice(1, 0);
    DoubledTwice(1, 2);
    DoubledTwice(1, 4);
    DoubledTwice(x, 0);
    DoubledTwice(x, 2);
    DoubledTwice(x, 4);
    OrDisjoint(x, y, 6);
  }

  predicate Skipped(c: char) {
    IsSpace(c) || c == '='
  }

  // The sextets of the characters that are not skipped; None if one of them is not in the table.
  function Values(s: string): Option<seq<sextet>> {
    if s == "" then Some([]) else
      var before, c := Values(s[..|s| - 1]), s[|s| - 1];
      if Skipped(c) || before.None? then before
      else if UnBase64(c) >= 64 then None else Some(before.value + [UnBase64(c)])
  }

  // The eight bits that sextets x and y contribute, when y comes k sextets after a byte boundary.
  function Joint(x: sextet, y: sextet, k: nat): byte
    requires 1 <= k <= 3
  {
    if k == 1 then x * 4 + y / 16 else if k == 2 then x % 16 * 16 + y / 4 else x % 4 * 64 + y
  }

  // The whole bytes in a stream of sextets.
  function Pack(v: seq<sextet>): seq<byte> {
    if v == [] then [] else Pack(v[..|v| - 1]) + Completed(v[..|v| - 1], v[|v| - 1])
  }

  // The byte that y completes, if it completes one.
  function Completed(v: seq<sextet>, y: sextet): seq<byte> {
    if |v| % 4 == 0 then [] else [Joint(v[|v| - 1], y, |v| % 4)]
  }

  lemma PackLast(v: seq<sextet>, y: sextet)
    ensures Pack(v + [y]) == Pack(v) + Completed(v, y)
  {
    assert (v + [y])[..|v|] == v;
  }

  function Unescape(s: string): Option<seq<byte>> {
    match Values(s)
    case None => None
    case Some(v) => Some(Pack(v))
  }

  // The bits left over after the last whole byte, in the high positions of dst.
  ghost predicate Pending(v: seq<sextet>, dst: byte, bitPos: nat) {
    if |v| % 4 == 0 then bitPos == 0 && dst == 0 else
      var x: int := v[|v| - 1];
      if |v| % 4 == 1 then bitPos == 6 && dst == x * 4
      else if |v| % 4 == 2 then bitPos == 4 && dst == x % 16 * 16
      else bitPos == 2 && dst == x % 4 * 64
  }

  lemma FirstBits(v: seq<sextet>, dst: byte, y: sextet)
    requires Pending(v, dst, 0)
    ensures Or(dst, ShiftLeft(y, 2)) < 256 && Pending(v + [y], Or(dst, ShiftLeft(y, 2)), 6)
    ensures Pack(v + [y]) == Pack(v)
  {
    var z: nat := ShiftLeft(y, 2);
    assert z == y as int * 4;
    OrZero(z);
    OrSymmetric(0, z);
    PackLast(v, y);
    PendingNext(v, y, z, 6);
  }

  lemma PendingNext(v: seq<sextet>, y: sextet, dst: byte, bitPos: nat)
    requires |v| % 4 == 0 ==> bitPos == 6 && dst == y as int * 4
    requires |v| % 4 == 1 ==> bitPos == 4 && dst == y as int % 16 * 16
    requires |v| % 4 == 2 ==> bitPos == 2 && dst == y as int % 4 * 64
    requires |v| % 4 == 3 ==> bitPos == 0 && dst == 0
    ensures Pending(v + [y], dst, bitPos)
  {
    assert (v + [y])[|v|] == y;
  }

  lemma {:induction false} OrSymmetric(a: nat, b: nat)
    ensures Or(a, b) == Or(b, a)
    decreases a + b
  {
    if a != 0 || b != 0 {
      OrSymmetric(a / 2, b / 2);
    }
  }

  // The bits of x kept in dst and the bits of y shifted down do not overlap.
  lemma OrJoint(x: sextet, y: sextet)
    ensures Or(x as int * 4, ShiftRight(y, 4)) == Joint(x, y, 1)
    ensures Or(x as int % 16 * 16, ShiftRight(y, 2)) == Joint(x, y, 2)
    ensures Or(x as int % 4 * 64, ShiftRight(y, 0)) == Joint(x, y, 3)
  {
    OrTwoBits(x, y / 16);
    OrFourBits(x % 16, y / 4);
    OrSixBits(x % 4, y);
  }

  lemma ShiftRemainder(y: int, m: int, k: int)
    requires 0 <= y < 64 && ((m == 16 && k == 16) || (m == 4 && k == 64))
    ensures y * k % 256 == y % m * k
  {
    assert y * k == 256 * (y / m) + y % m * k;
  }

  // A truncating shift keeps the low bits.
  lemma LowBits(y: int)
    requires 0 <= y < 64
    ensures ShiftLeft(y, 4) == y % 16 * 16 && ShiftLeft(y, 6) == y % 4 * 64 && ShiftLeft(y, 8) == 0
  {
    ShiftRemainder(y, 16, 16);
    ShiftRemainder(y, 4, 64);
  }

  lemma MoreBits(v: seq<sextet>, dst: byte, bitPos: nat, y: sextet)
    requires Pending(v, dst, bitPos) && bitPos != 0
    ensures bitPos <= 8 && Completed(v, y) == [Or(dst, ShiftRight(y, bitPos - 2))]
    ensures Pending(v + [y], ShiftLeft(y, 10 - bitPos), (bitPos + 6) % 8)
  {
    OrJoint(v[|v| - 1], y);
    LowBits(y);
    if bitPos == 6 {
      PendingNext(v, y, ShiftLeft(y, 4), 4);
    } else if bitPos == 4 {
      PendingNext(v, y, ShiftLeft(y, 6), 2);
    } else {
      PendingNext(v, y, ShiftLeft(y, 8), 0);
    }
  }

  lemma {:induction false} NoneStays(s: string, n: nat)
    requires n <= |s| && Values(s[..n]).None?
    ensures Values(s).None?
  {
    if n < |s| {
      assert s[..|s| - 1][..n] == s[..n];
      NoneStays(s[..|s| - 1], n);
    } else {
      assert s[..n] == s;
    }
  }

  // The accumulator between two characters: the bytes completed, and the bits left over.
  datatype Accumulator = Accumulator(decoded: seq<byte>, dst: byte, bitPos: nat)

  ghost predicate Holds(acc: Accumulator, v: seq<sextet>) {
    acc.decoded == Pack(v) && Pending(v, acc.dst, acc.bitPos)
  }

  // One turn of the loop, for a character of value srcBin.
  method Accumulate(acc: Accumulator, srcBin: sextet, ghost v: seq<sextet>) returns (next: Accumulator)
    requires Holds(acc, v)
    ensures Holds(next, v + [srcBin])
  {
    if acc.bitPos == 0 {
      FirstBits(v, acc.dst, srcBin);
      next := Accumulator(acc.decoded, Or(acc.dst, ShiftLeft(srcBin, 2)), 6);
    } else {
      MoreBits(v, acc.dst, acc.bitPos, srcBin);
      PackLast(v, srcBin);
      var byte := Or(acc.dst, ShiftRight(srcBin, acc.bitPos - 2));
      next := Accumulator(acc.decoded + [byte], ShiftLeft(srcBin, 10 - acc.bitPos), (acc.bitPos + 6) % 8);
    }
  }

  lemma ValuesLast(s: string, i: nat)
    requires i < |s|
    ensures Values(s[..i + 1]) ==
            if Skipped(s[i]) || Values(s[..i]).None? then Values(s[..i])
            else if UnBase64(s[i]) >= 64 then None else Some(Values(s[..i]).value + [UnBase64(s[i])])
  {
    assert s[..i + 1][..i] == s[..i];
  }

  // A char is taken as unsigned: the table has an entry for each of its 256 values.
  method Base64Unescape(encoded: string) returns (ok: bool, decoded: seq<byte>)
    requires forall i | 0 <= i < |encoded| :: encoded[i] as int < 256
    ensures ok <==> Unescape(encoded).Some?
    ensures decoded == if ok then Unescape(encoded).value else []
  {
    var acc := Accumulator([], 0, 0);
    ghost var v: seq<sextet> := [];
    for i := 0 to |encoded|
      invariant Values(encoded[..i]) == Some(v) && Holds(acc, v)
    {
      var src := encoded[i];
      ValuesLast(encoded, i);
      if IsSpace(src) || src == '=' {
        continue;
      }
      var srcBin := UnBase64(src);
      if srcBin >= 64 {
        NoneStays(encoded, i + 1);
        return false, [];
      }
      acc := Accumulate(acc, srcBin, v);
      v := v + [srcBin];
    }
    assert encoded[..|encoded|] == encoded;
    return true, acc.decoded;
  }

  // ---------- the two decoders agree on every form of an encoding ----------

  // s without white space and pads, in the standard alphabet.
  function Normal(s: string): string {
    if s == "" then "" else
      var c := s[|s| - 1];
      Normal(s[..|s| - 1]) + if Skipped(c) then "" else [UndoWebSafeEncoding(c)]
  }

  lemma {:induction false} ValuesOfNormal(s: string, v: seq<sextet>)
    requires Normal(s) == Chars(v)
    ensures Values(s) == Some(v)
  {
    if s != "" {
      var c, before := s[|s| - 1], Normal(s[..|s| - 1]);
      if Skipped(c) {
        ValuesOfNormal(s[..|s| - 1], v);
      } else {
        var n := |v| - 1;
        assert Chars(v)[n] == Base64Char(v[n]) == UndoWebSafeEncoding(c);
        assert before == Normal(s)[..n] == Chars(v[..n]);
        ValuesOfNormal(s[..|s| - 1], v[..n]);
        TableEntry(v[n]);
        UndoTwice(c, v[n]);
        assert v[..n] + [v[n]] == v;
      }
    }
  }

  lemma UndoTwice(c: char, v: sextet)
    requires UndoWebSafeEncoding(c) == Base64Char(v)
    ensures UnBase64(c) == UnBase64(Base64Char(v))
  {
  }

  lemma {:induction false} PackGroup(a: byte, b: byte, c: byte, v: seq<sextet>)
    ensures Pack(Split(a, b, c) + v) == [a, b, c] + Pack(v)
  {
    if v == [] {
      assert Split(a, b, c) + v == Split(a, b, c);
      PackOne(a, b, c);
    } else {
      var w, y := v[..|v| - 1], v[|v| - 1];
      PackGroup(a, b, c, w);
      PackGroupLast(Split(a, b, c), w, y);
      assert v == w + [y];
      PackLast(w, y);
      Assoc([a, b, c], Pack(w), Completed(w, y));
    }
  }

  lemma CompletedAfterGroup(g: seq<sextet>, w: seq<sextet>, y: sextet)
    requires |g| == 4
    ensures Completed(g + w, y) == Completed(w, y)
  {
    assert |g + w| % 4 == |w| % 4;
    if |w| % 4 != 0 {
      assert (g + w)[|g + w| - 1] == w[|w| - 1];
    }
  }

  lemma PackGroupLast(g: seq<sextet>, w: seq<sextet>, y: sextet)
    requires |g| == 4
    ensures Pack(g + (w + [y])) == Pack(g + w) + Completed(w, y)
  {
    Assoc(g, w, [y]);
    PackLast(g + w, y);
    CompletedAfterGroup(g, w, y);
  }

  lemma PackTwo(p: sextet, q: sextet)
    ensures Pack([p, q]) == [Joint(p, q, 1)]
  {
    PackLast([], p);
    PackLast([p], q);
    assert [] + [p] == [p] && [p] + [q] == [p, q];
  }

  lemma PackThree(p: sextet, q: sextet, r: sextet)
    ensures Pack([p, q, r]) == [Joint(p, q, 1), Joint(q, r, 2)]
  {
    PackTwo(p, q);
    PackLast([p, q], r);
    assert [p, q] + [r] == [p, q, r];
  }

  lemma PackFour(p: sextet, q: sextet, r: sextet, s: sextet)
    ensures Pack([p, q, r, s]) == Triple(p, q, r, s)
  {
    PackThree(p, q, r);
    PackLast([p, q, r], s);
    assert [p, q, r] + [s] == [p, q, r, s];
  }

  lemma PackOne(a: byte, b: byte, c: byte)
    ensures Pack(Split(a, b, c)) == [a, b, c]
    ensures Pack(Split(a, b, c)[..3]) == [a, b] && Pack(Split(a, b, c)[..2]) == [a]
  {
    var v := Split(a, b, c);
    TripleOfSplit(a, b, c);
    PackFour(v[0], v[1], v[2], v[3]);
    PackThree(v[0], v[1], v[2]);
    PackTwo(v[0], v[1]);
    assert v[..3] == [v[0], v[1], v[2]] && v[..2] == [v[0], v[1]];
  }

  lemma {:induction false} PackSextets(d: seq<byte>)
    ensures Pack(Sextets(d)) == d
    decreases |d|
  {
    if |d| == 1 {
      PackOne(d[0], 0, 0);
    } else if |d| == 2 {
      PackOne(d[0], d[1], 0);
    } else if |d| >= 3 {
      PackSextets(d[3..]);
      PackGroup(d[0], d[1], d[2], Sextets(d[3..]));
      FirstThree(d);
    }
  }

  // Whatever mixture of white space, pads and URL-safe letters an encoding of d is written with, it
  // decodes to d.
  lemma UnescapeInverse(s: string, d: seq<byte>)
    requires Normal(s) == Chars(Sextets(d))
    ensures Unescape(s) == Some(d)
  {
    ValuesOfNormal(s, Sextets(d));
    PackSextets(d);
  }

  // Section 5 of RFC 4648 replaces the last two letters of the alphabet.
  function UrlSafe(s: string): string {
    seq(|s|, i requires 0 <= i < |s| => if s[i] == '+' then '-' else if s[i] == '/' then '_' else s[i])
  }

  lemma NormalLast(s: string, c: char)
    ensures Normal(s + [c]) == Normal(s) + if Skipped(c) then "" else [UndoWebSafeEncoding(c)]
  {
    assert (s + [c])[..|s|] == s;
  }

  lemma PlainChar(v: sextet)
    ensures var c := Base64Char(v); !Skipped(c) && UndoWebSafeEncoding(c) == c
    ensures var u := UrlSafe([Base64Char(v)])[0]; !Skipped(u) && UndoWebSafeEncoding(u) == Base64Char(v)
  {
  }

  lemma CharsLast(v: seq<sextet>)
    requires v != []
    ensures var w, c := Chars(v[..|v| - 1]), Base64Char(v[|v| - 1]);
      Chars(v) == w + [c] && UrlSafe(Chars(v)) == UrlSafe(w) + [UrlSafe([c])[0]]
  {
  }

  lemma {:induction false} NormalOfChars(v: seq<sextet>)
    ensures Normal(Chars(v)) == Chars(v) && Normal(UrlSafe(Chars(v))) == Chars(v)
  {
    if v != [] {
      var w, c := Chars(v[..|v| - 1]), Base64Char(v[|v| - 1]);
      NormalOfChars(v[..|v| - 1]);
      PlainChar(v[|v| - 1]);
      CharsLast(v);
      NormalLast(w, c);
      NormalLast(UrlSafe(w), UrlSafe([c])[0]);
    }
  }

  lemma {:induction false} NormalOfPadded(s: string, pad: string)
    requires forall i | 0 <= i < |pad| :: pad[i] == '='
    ensures Normal(s + pad) == Normal(s)
  {
    if pad == "" {
      assert s + pad == s;
    } else {
      var p := pad[..|pad| - 1];
      NormalOfPadded(s, p);
      NormalLast(s + p, '=');
      assert s + pad == (s + p) + ['='];
    }
  }

  lemma UrlSafeConcat(s: string, t: string)
    ensures UrlSafe(s + t) == UrlSafe(s) + UrlSafe(t)
  {
  }

  lemma UrlSafeForms(d: seq<byte>)
    ensures Normal(UrlSafe(Encode(d))) == Normal(UrlSafe(Chars(Sextets(d)))) == Chars(Sextets(d))
  {
    var s, pad := Chars(Sextets(d)), Padding(|d|);
    NormalOfChars(Sextets(d));
    UrlSafeConcat(s, pad);
    UrlSafePadding(|d|);
    NormalOfPadded(UrlSafe(s), pad);
  }

  lemma UrlSafePadding(n: nat)
    ensures UrlSafe(Padding(n)) == Padding(n)
    ensures forall i | 0 <= i < |Padding(n)| :: Padding(n)[i] == '='
  {
  }

  // Both decoders undo the standard encoding; the tolerant one also undoes the forms without pads
  // and with the URL-safe alphabet.
  lemma DecodersAgree(d: seq<byte>)
    ensures Decode(Encode(d)) == Some(d) && Unescape(Encode(d)) == Some(d)
    ensures Unescape(Chars(Sextets(d))) == Some(d)
    ensures Unescape(UrlSafe(Encode(d))) == Some(d) && Unescape(UrlSafe(Chars(Sextets(d)))) == Some(d)
  {
    Base64RoundTrip(d);
    NormalOfChars(Sextets(d));
    NormalOfPadded(Chars(Sextets(d)), Padding(|d|));
    UrlSafeForms(d);
    UnescapeInverse(Encode(d), d);
    UnescapeInverse(Chars(Sextets(d)), d);
    UnescapeInverse(UrlSafe(Encode(d)), d);
    UnescapeInverse(UrlSafe(Chars(Sextets(d))), d);
  }
}
