/**
  Decimal numerals, and the printer for 128-bit integers.

  The printer may not divide 128-bit numbers, so it divides two 64-bit limbs by hand.  The limbs have
  the type u64: every arithmetic result of that type is proved to fit, so nothing wraps around.
 */
module Decimal {
  import opened Common

  newtype u64 = x: int | 0 <= x < 0x1_0000_0000_0000_0000
  newtype u128 = x: int | 0 <= x < 0x1_0000_0000_0000_0000_0000_0000_0000_0000
  newtype i128 = x: int | -0x8000_0000_0000_0000_0000_0000_0000_0000 <= x < 0x8000_0000_0000_0000_0000_0000_0000_0000

  // ---------- numerals ----------

  function Digit(d: nat): (c: char)
    requires d < 10
    ensures IsDigit(c) && DigitValue(c) == d
  {
    ('0' as int + d) as char
  }

  predicate IsDigit(c: char) {
    '0' <= c <= '9'
  }

  function DigitValue(c: char): (d: nat)
    requires IsDigit(c)
    ensures d < 10
  {
    c as int - '0' as int
  }

  predicate AllDigits(s: string) {
    forall i | 0 <= i < |s| :: IsDigit(s[i])
  }

  // The value of a string of digits.
  function Value(s: string): nat
    requires AllDigits(s)
  {
    if s == "" then 0 else 10 * Value(s[..|s| - 1]) + DigitValue(s[|s| - 1])
  }

  // The shortest string of digits with value n.
  function Numeral(n: nat): (s: string)
    ensures s != "" && AllDigits(s)
  {
    if n < 10 then [Digit(n)] else Numeral(n / 10) + [Digit(n % 10)]
  }

  function SignedNumeral(n: int): string {
    if n < 0 then "-" + Numeral(-n) else Numeral(n)
  }

  predicate Canonical(s: string) {
    AllDigits(s) && s != "" && (s[0] == '0' ==> |s| == 1)
  }

  lemma {:induction false} NumeralIsCanonical(n: nat)
    ensures Canonical(Numeral(n)) && (Numeral(n)[0] == '0' ==> n == 0)
    ensures Value(Numeral(n)) == n
  {
    if n >= 10 {
      NumeralIsCanonical(n / 10);
      var s := Numeral(n / 10) + [Digit(n % 10)];
      assert s[..|s| - 1] == Numeral(n / 10);
    }
  }

  // What the digits are worth, and that they count from the right in powers of ten.
  lemma DigitValues(s: string, c: char)
    requires AllDigits(s) && IsDigit(c)
    ensures c == "0123456789"[DigitValue(c)]
    ensures Value("") == 0 && AllDigits(s + [c]) && Value(s + [c]) == 10 * Value(s) + DigitValue(c)
  {
    assert (s + [c])[..|s|] == s;
  }

  lemma {:induction false} LeadingDigit(s: string)
    requires AllDigits(s) && s != "" && s[0] != '0'
    ensures Value(s) >= 1 && (|s| >= 2 ==> Value(s) >= 10)
  {
    if |s| >= 2 {
      LeadingDigit(s[..|s| - 1]);
    }
  }

  lemma NumeralEnds(n: nat, last: char)
    requires IsDigit(last) && 10 * n + DigitValue(last) >= 10
    ensures Numeral(10 * n + DigitValue(last)) == Numeral(n) + [last]
  {
    var d := DigitValue(last);
    assert (10 * n + d) / 10 == n && (10 * n + d) % 10 == d;
    assert Digit(d) == last;
  }

  // A numeral is the only canonical string with its value.
  lemma {:induction false} CanonicalIsNumeral(s: string)
    requires Canonical(s)
    ensures Numeral(Value(s)) == s
  {
    var prefix, last := s[..|s| - 1], s[|s| - 1];
    SplitOffLast(s);
    if |s| == 1 {
      DigitNumeral(last);
    } else {
      CanonicalIsNumeral(prefix);
      LeadingDigit(s);
      NumeralEnds(Value(prefix), last);
    }
  }

  lemma DigitNumeral(c: char)
    requires IsDigit(c)
    ensures Value([c]) == DigitValue(c) && Numeral(DigitValue(c)) == [c]
  {
    assert [c][..0] == "";
  }

  function Pow10(k: nat): nat {
    if k == 0 then 1 else 10 * Pow10(k - 1)
  }

  lemma {:induction false} NumeralLength(n: nat, k: nat)
    requires k >= 1 && n < Pow10(k)
    ensures |Numeral(n)| <= k
  {
    if n >= 10 {
      NumeralLength(n / 10, k - 1);
    }
  }

  // ---------- printing 128-bit integers ----------

  const LIMB: int := 0x1_0000_0000_0000_0000

  // The limbs of the value still to be printed, with the least significant limb last.
  function Joined(high: u64, low: u64): nat {
    high as int * LIMB + low as int
  }

  // The step of the long division: 2^64 is 10 * 1844674407370955161 + 6.
  lemma DivideLimbs(high: int, low: int, carry: int, quotient: int)
    requires 0 <= high < LIMB && 0 <= low < LIMB
    requires carry == 6 * (high % 10) + low % 10
    requires quotient == low / 10 + (high % 10) * 1844674407370955161 + carry / 10
    ensures quotient < LIMB
    ensures (high * LIMB + low) / 10 == (high / 10) * LIMB + quotient
    ensures (high * LIMB + low) % 10 == carry % 10
  {
    assert high * LIMB + low == 10 * ((high / 10) * LIMB + quotient) + carry % 10;
  }

  // The digits of n, without a digit for zero.
  ghost function Digits(n: nat): string {
    if n == 0 then "" else Numeral(n)
  }

  // One turn moves the last digit of n to the front of what is printed, and there is room for it.
  lemma DigitMoves(n: nat, printed: string)
    requires n > 0
    ensures Digits(n) + printed == Digits(n / 10) + ([Digit(n % 10)] + printed)
    ensures |Digits(n)| > 0
  {
    Assoc(Digits(n / 10), [Digit(n % 10)], printed);
  }

  lemma NumeralFits(v: u128)
    ensures |Numeral(v as int)| <= 39
  {
    assert Pow10(39) == 1_000_000_000_000_000_000_000_000_000_000_000_000_000 by {
      assert Pow10(13) == 10_000_000_000_000;
      assert Pow10(26) == 100_000_000_000_000_000_000_000_000;
    }
    NumeralLength(v as int, 39);
  }

  // Prints v into a buffer of 40 characters, from the end, and returns the text up to the terminator.
  method PrintUnsigned(v: u128) returns (text: string)
    ensures text == Numeral(v as int)
    ensures AllDigits(text) && Value(text) == v as int && text != "" && (text[0] == '0' ==> text == "0")
  {
    if v == 0 {
      NumeralIsCanonical(0);
      return "0";
    }
    NumeralFits(v);
    var buf := new char[40];
    var p := buf.Length;
    var high := (v as int / LIMB) as u64;
    var low := (v as int % LIMB) as u64;
    p := p - 1;
    buf[p] := '\0';
    ghost var n: nat, printed := v as int, "";
    while high != 0 || low != 0
      invariant 0 <= p <= 39 && buf[39] == '\0' && p == 39 - |printed|
      invariant n == Joined(high, low) && printed == buf[p..39]
      invariant Numeral(v as int) == Digits(n) + printed
      decreases n
    {
      var digit: u64;
      high, low, digit := DivideByTen(high, low);
      DigitMoves(n, printed);
      p := p - 1;
      buf[p] := Digit(digit as nat);
      assert buf[p..39] == [buf[p]] + printed;
      printed := [Digit(n % 10)] + printed;
      n := n / 10;
    }
    NumeralIsCanonical(v as int);
    return buf[p..39];
  }

  // One step of the loop, on 64-bit words only.
  method DivideByTen(high: u64, low: u64) returns (high': u64, low': u64, digit: u64)
    ensures Joined(high', low') == Joined(high, low) / 10
    ensures digit as int == Joined(high, low) % 10
  {
    ghost var carried := 6 * (high as int % 10) + low as int % 10;
    DivideLimbs(high as int, low as int, carried,
                low as int / 10 + (high as int % 10) * 1844674407370955161 + carried / 10);
    var highMod := high % 10;
    high' := high / 10;
    var carry := 6 * highMod + low % 10;
    low' := low / 10 + highMod * 1844674407370955161 + carry / 10;
    digit := carry % 10;
  }

  const WORD: int := 0x1_0000_0000_0000_0000_0000_0000_0000_0000

  lemma Wrap(x: int)
    requires -WORD <= x < WORD
    ensures x % WORD == if x < 0 then x + WORD else x
  {
  }

  lemma SignedValue(n: int)
    ensures n >= 0 ==> AllDigits(SignedNumeral(n)) && Value(SignedNumeral(n)) == n
    ensures n < 0 ==> var s := SignedNumeral(n); s != "" && s[0] == '-' && AllDigits(s[1..]) && Value(s[1..]) == -n
  {
    NumeralIsCanonical(if n < 0 then -n else n);
    assert n < 0 ==> SignedNumeral(n)[1..] == Numeral(-n);
  }

  // Negation is taken modulo 2^128 on the unsigned image, which is right down to -2^127.
  method PrintSigned(v: i128) returns (text: string)
    ensures text == SignedNumeral(v as int)
    ensures v >= 0 ==> AllDigits(text) && Value(text) == v as int
    ensures v < 0 ==> text != "" && text[0] == '-' && AllDigits(text[1..]) && Value(text[1..]) == -(v as int)
  {
    Wrap(v as int);
    var uv := (v as int % WORD) as u128;
    text := "";
    if v < 0 {
      text := text + "-";
      Wrap(-(uv as int));
      uv := ((-(uv as int)) % WORD) as u128;
    }
    var digits := PrintUnsigned(uv);
    text := text + digits;
    SignedValue(v as int);
  }

  // The printed text determines the number.
  lemma SignedNumeralInjective(a: int, b: int)
    requires SignedNumeral(a) == SignedNumeral(b)
    ensures a == b
  {
    var x, y := if a < 0 then -a else a, if b < 0 then -b else b;
    NumeralIsCanonical(x);
    NumeralIsCanonical(y);
    assert a < 0 ==> SignedNumeral(a)[1..] == Numeral(x);
    assert b < 0 ==> SignedNumeral(b)[1..] == Numeral(y);
  }
}
