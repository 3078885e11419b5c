/** Positional numerals as strings: the printed form of a number and its reading. */
module Numerals {
  import opened Wrappers

  const DIGITS: string := "0123456789abcdef"

  function DigitValue(c: char): (d: Option<nat>)
    ensures d.Some? ==> d.value < 16
  {
    if '0' <= c <= '9' then Some(c as int - '0' as int)
    else if 'a' <= c <= 'f' then Some(c as int - 'a' as int + 10)
    else if 'A' <= c <= 'F' then Some(c as int - 'A' as int + 10)
    else None
  }

  lemma DigitRoundTrip(d: nat)
    requires d < 16
    ensures DigitValue(DIGITS[d]) == Some(d)
  {
    if d < 10 {
      assert DIGITS[d] == ('0' as int + d) as char;
    } else {
      assert DIGITS[d] == ('a' as int + d - 10) as char;
    }
  }

  lemma DivShrinks(n: nat, base: nat)
    requires 2 <= base <= n
    ensures 0 < n / base < n && n == (n / base) * base + n % base
  {
    var high, low := n / base, n % base;
    assert n == base * high + low;
    QuotientBounds(n, base, high, low);
  }

  lemma QuotientBounds(n: int, base: int, high: int, low: int)
    requires 2 <= base <= n && 0 <= low < base && n == base * high + low
    ensures 0 < high < n
  {
    if high > 0 {
      assert base * high >= 2 * high;
    }
  }

  /** The shortest numeral of `n`; zero is written with one digit. */
  function Print(n: nat, base: nat): (s: string)
    requires 2 <= base <= 16
    ensures |s| > 0
    decreases n
  {
    if n < base then [DIGITS[n]]
    else
      DivShrinks(n, base);
      Print(n / base, base) + [DIGITS[n % base]]
  }

  /** The value of a numeral; nothing for the empty string or a foreign character. */
  function Parse(s: string, base: nat): Option<nat>
    requires 2 <= base <= 16
  {
    if s == [] then None else ParseDigits(s, base)
  }

  function ParseDigits(s: string, base: nat): Option<nat>
    requires 2 <= base <= 16
  {
    if s == [] then Some(0)
    else
      match (ParseDigits(s[..|s| - 1], base), DigitValue(s[|s| - 1]))
      case (Some(high), Some(low)) => if low < base then Some(high * base + low) else None
      case _ => None
  }

  lemma ParseAppend(s: string, base: nat, high: nat, low: nat)
    requires 2 <= base <= 16 && low < base
    requires ParseDigits(s, base) == Some(high)
    ensures ParseDigits(s + [DIGITS[low]], base) == Some(high * base + low)
  {
    DigitRoundTrip(low);
    assert (s + [DIGITS[low]])[..|s|] == s;
  }

  lemma Split(n: nat, base: nat) returns (high: nat, low: nat)
    requires 2 <= base <= 16 && base <= n
    ensures n == high * base + low && 0 < high < n && low < base
    ensures Print(n, base) == Print(high, base) + [DIGITS[low]]
  {
    DivShrinks(n, base);
    high, low := n / base, n % base;
  }

  lemma DigitParses(n: nat, base: nat)
    requires 2 <= base <= 16 && n < base
    ensures ParseDigits([DIGITS[n]], base) == Some(n)
  {
    ParseAppend([], base, 0, n);
    assert [] + [DIGITS[n]] == [DIGITS[n]];
  }

  lemma {:induction false} PrintParses(n: nat, base: nat)
    requires 2 <= base <= 16
    ensures ParseDigits(Print(n, base), base) == Some(n)
    decreases n
  {
    hide ParseDigits, DigitValue;
    if n < base {
      DigitParses(n, base);
    } else {
      var high, low := Split(n, base);
      PrintParses(high, base);
      ParseAppend(Print(high, base), base, high, low);
    }
  }

  lemma {:induction false} PrintUsesDigits(n: nat, base: nat)
    requires 2 <= base <= 16
    ensures forall c :: c in Print(n, base) ==> c in DIGITS
    decreases n
  {
    if n >= base {
      var high, low := Split(n, base);
      PrintUsesDigits(high, base);
    }
  }

  // -------------------------------------------------------- signed decimals

  /** `std::to_string` of an integer. */
  function PrintInt(n: int): (s: string)
    ensures |s| > 0
  {
    if n < 0 then "-" + Print(-n, 10) else Print(n, 10)
  }

  lemma PrintInjective(a: nat, b: nat, base: nat)
    requires 2 <= base <= 16 && Print(a, base) == Print(b, base)
    ensures a == b
  {
    PrintParses(a, base);
    PrintParses(b, base);
  }

  lemma PrintIntUses(n: int, c: char)
    requires c in PrintInt(n)
    ensures c == '-' || c in DIGITS
  {
    PrintUsesDigits(if n < 0 then -n else n, 10);
  }

  lemma PrintIntInjective(a: int, b: int)
    requires PrintInt(a) == PrintInt(b)
    ensures a == b
  {
    var x, y := if a < 0 then -a else a, if b < 0 then -b else b;
    PrintUsesDigits(x, 10);
    PrintUsesDigits(y, 10);
    assert a >= 0 ==> PrintInt(a)[0] in DIGITS;
    assert b >= 0 ==> PrintInt(b)[0] in DIGITS;
    assert a < 0 ==> PrintInt(a)[1..] == Print(x, 10);
    assert b < 0 ==> PrintInt(b)[1..] == Print(y, 10);
    PrintInjective(x, y, 10);
  }

  /** A decimal with an optional minus sign. */
  function ReadInt(s: string): Option<int> {
    if s != [] && s[0] == '-' then
      match Parse(s[1..], 10)
      case Some(n) => Some(0 - n)
      case None => None
    else
      match Parse(s, 10)
      case Some(n) => Some(n)
      case None => None
  }

  lemma PrintIntReads(n: int)
    ensures ReadInt(PrintInt(n)) == Some(n)
  {
    hide Parse, Print;
    var m := if n < 0 then -n else n;
    PrintParses(m, 10);
    PrintUsesDigits(m, 10);
    Reads(m);
    assert n >= 0 ==> PrintInt(n)[0] in DIGITS;
    assert n < 0 ==> PrintInt(n)[1..] == Print(m, 10);
  }

  lemma Reads(m: nat)
    ensures Parse(Print(m, 10), 10) == Some(m)
  {
    hide ParseDigits, Print;
    PrintParses(m, 10);
  }
}
