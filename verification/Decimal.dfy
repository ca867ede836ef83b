/** Decimal numerals: `std::to_string` and the reading of `strtoull`. */
module Decimal {
  predicate IsDigit(c: char) { '0' <= c <= '9' }

  function DigitOf(d: int): char
    requires 0 <= d < 10
  {
    ('0' as int + d) as char
  }

  function ToDecimal(n: nat): (s: string)
    ensures s != "" && forall i | 0 <= i < |s| :: IsDigit(s[i])
  {
    if n < 10 then [DigitOf(n)] else ToDecimal(n / 10) + [DigitOf(n % 10)]
  }

  /** The digits at the front of `s`, read on from the value `v`. */
  function ReadDigits(v: nat, s: string): nat
    decreases |s|
  {
    if s == "" || !IsDigit(s[0]) then v else ReadDigits(10 * v + (s[0] as int - '0' as int), s[1..])
  }

  lemma {:induction false} ReadDigitsAppend(v: nat, s: string, c: char)
    requires forall i | 0 <= i < |s| :: IsDigit(s[i])
    requires IsDigit(c)
    ensures ReadDigits(v, s + [c]) == 10 * ReadDigits(v, s) + (c as int - '0' as int)
    decreases |s|
  {
    if s == "" {
      assert s + [c] == [c] && [c][1..] == "";
    } else {
      assert (s + [c])[0] == s[0] && (s + [c])[1..] == s[1..] + [c];
      ReadDigitsAppend(10 * v + (s[0] as int - '0' as int), s[1..], c);
    }
  }

  /** Reading a numeral gives the number, so different numbers have different numerals. */
  lemma {:induction false} ReadOfDecimal(n: nat)
    ensures ReadDigits(0, ToDecimal(n)) == n
  {
    if n < 10 {
      assert [DigitOf(n)][1..] == "";
    } else {
      ReadOfDecimal(n / 10);
      ReadDigitsAppend(0, ToDecimal(n / 10), DigitOf(n % 10));
    }
  }

  lemma DecimalInjective(m: nat, n: nat)
    requires ToDecimal(m) == ToDecimal(n)
    ensures m == n
  {
    ReadOfDecimal(m);
    ReadOfDecimal(n);
  }

  const ULL_MAX: nat := 0xFFFF_FFFF_FFFF_FFFF

  predicate IsSpace(c: char) { c == ' ' || 9 <= c as int <= 13 }

  function SkipSpace(s: string): string {
    if s != "" && IsSpace(s[0]) then SkipSpace(s[1..]) else s
  }

  /** `strtoull(s, nullptr, 10)`: white space, an optional sign, digits; too large is the maximum, and a
      minus sign wraps around. */
  function Strtoull(s: string): nat {
    var t := SkipSpace(s);
    var minus := t != "" && t[0] == '-';
    var v := ReadDigits(0, if t != "" && (t[0] == '-' || t[0] == '+') then t[1..] else t);
    if v > ULL_MAX then ULL_MAX
    else if minus && v != 0 then ULL_MAX + 1 - v
    else v
  }

  lemma {:induction false} SkipSpaces(blanks: string, rest: string)
    requires forall i | 0 <= i < |blanks| :: IsSpace(blanks[i])
    requires rest == "" || !IsSpace(rest[0])
    ensures SkipSpace(blanks + rest) == rest
  {
    if blanks == "" {
      assert blanks + rest == rest;
    } else {
      assert (blanks + rest)[1..] == blanks[1..] + rest;
      SkipSpaces(blanks[1..], rest);
    }
  }

  lemma {:induction false} ReadDigitsStops(v: nat, digits: string, rest: string)
    requires (forall i | 0 <= i < |digits| :: IsDigit(digits[i])) && (rest == "" || !IsDigit(rest[0]))
    ensures ReadDigits(v, digits + rest) == ReadDigits(v, digits)
    decreases |digits|
  {
    if digits == "" {
      assert digits + rest == rest;
    } else {
      assert (digits + rest)[1..] == digits[1..] + rest;
      ReadDigitsStops(10 * v + (digits[0] as int - '0' as int), digits[1..], rest);
    }
  }

  /** Of blanks, a sign, a numeral and anything behind it: the number, the largest one when it is larger, and
      with a minus sign what is missing to the next power of two. */
  lemma StrtoullReads(blanks: string, sign: string, n: nat, rest: string)
    requires (forall i | 0 <= i < |blanks| :: IsSpace(blanks[i])) && sign in ["", "+", "-"]
    requires rest == "" || !IsDigit(rest[0])
    ensures Strtoull(blanks + (sign + (ToDecimal(n) + rest)))
         == if n > 0xFFFF_FFFF_FFFF_FFFF then 0xFFFF_FFFF_FFFF_FFFF
            else if sign == "-" && n != 0 then 0x1_0000_0000_0000_0000 - n else n
  {
    var t := sign + (ToDecimal(n) + rest);
    assert IsDigit(ToDecimal(n)[0]);
    assert sign == "" ==> t == ToDecimal(n) + rest;
    assert sign != "" ==> t[0] == sign[0] && t[1..] == ToDecimal(n) + rest;
    SkipSpaces(blanks, t);
    ReadDigitsStops(0, ToDecimal(n), rest);
    ReadOfDecimal(n);
  }

  lemma StrtoullOfDecimal(n: nat)
    requires n <= ULL_MAX
    ensures Strtoull(ToDecimal(n)) == n
  {
    var s := ToDecimal(n);
    assert IsDigit(s[0]);
    ReadOfDecimal(n);
  }

  /** 32-bit wrap-around of a signed number. */
  function Wrap32(x: int): (r: int)
    ensures -0x8000_0000 <= r < 0x8000_0000
    ensures -0x8000_0000 <= x < 0x8000_0000 <==> r == x
  {
    (x + 0x8000_0000) % 0x1_0000_0000 - 0x8000_0000
  }

  /** Whole turns do not show. */
  lemma WrapTurns(x: int, turns: int)
    ensures Wrap32(x + turns * 0x1_0000_0000) == Wrap32(x)
  {
  }

  /** Wrapping on the way does not show in the end. */
  lemma WrapOnTheWay(x: int, factor: int, d: int)
    ensures Wrap32(factor * Wrap32(x) + d) == Wrap32(factor * x + d)
  {
    var turns := (Wrap32(x) - x) / 0x1_0000_0000;
    assert Wrap32(x) == x + turns * 0x1_0000_0000;
    assert factor * Wrap32(x) == factor * x + (factor * turns) * 0x1_0000_0000;
    WrapTurns(factor * x + d, factor * turns);
  }
}
