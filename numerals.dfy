/**
 * Positional numerals: digit characters, the value of a digit string, and
 * the shortest numeral of a number as Qt's QString::arg(n, 0, base) writes it.
 */
module Numerals {
  function Pow(base: nat, n: nat): nat
  {
    if n == 0 then 1 else base * Pow(base, n - 1)
  }

  lemma Pow16Eight()
    ensures Pow(16, 8) == 0x1_0000_0000 && Pow(16, 2) == 0x100
  {
    assert Pow(16, 2) == 0x100;
    assert Pow(16, 4) == 16 * (16 * Pow(16, 2));
    assert Pow(16, 6) == 16 * (16 * Pow(16, 4));
    assert Pow(16, 8) == 16 * (16 * Pow(16, 6));
  }

  /** A lower-case hexadecimal digit. */
  function HexDigit(d: nat): char
    requires d < 16
  {
    if d < 10 then ('0' as int + d) as char else ('a' as int + d - 10) as char
  }

  /** A decimal digit. */
  function DecDigit(d: nat): char
    requires d < 10
  {
    ('0' as int + d) as char
  }

  /** The value of a hexadecimal or decimal digit character. */
  function DigitValue(c: char): nat
  {
    if '0' <= c <= '9' then c as int - '0' as int
    else if 'a' <= c <= 'f' then c as int - 'a' as int + 10
    else 0
  }

  /** Reads digits in the given base, most significant first. */
  function DigitsValue(s: string, base: nat): nat
  {
    if s == [] then 0 else DigitsValue(s[..|s| - 1], base) * base + DigitValue(s[|s| - 1])
  }

  /** The shortest numeral of n in the given base (a single "0" for zero), lower-case digits. */
  function Numeral(n: nat, base: nat): (s: string)
    requires 2 <= base <= 16
    ensures 1 <= |s|
    decreases n
  {
    if n < base then [HexDigit(n)] else Numeral(n / base, base) + [HexDigit(n % base)]
  }

  lemma DigitValueOfHexDigit(d: nat)
    requires d < 16
    ensures DigitValue(HexDigit(d)) == d
  {
  }

  lemma DivMod(n: nat, base: nat)
    requires 2 <= base && n >= base
    ensures n == (n / base) * base + n % base && 1 <= n / base < n && n % base < base
  {
  }

  /** The numeral reads back as n and has no leading zero. */
  lemma {:induction false} NumeralRoundTrip(n: nat, base: nat)
    requires 2 <= base <= 16
    ensures DigitsValue(Numeral(n, base), base) == n
    ensures n > 0 ==> Numeral(n, base)[0] != '0'
    decreases n
  {
    var s := Numeral(n, base);
    if n >= base {
      var q, r := n / base, n % base;
      DivMod(n, base);
      DigitValueOfHexDigit(r);
      var t := Numeral(q, base);
      assert s == t + [HexDigit(r)];
      assert s[..|s| - 1] == t;
      NumeralRoundTrip(q, base);
      assert DigitsValue(s, base) == DigitsValue(t, base) * base + r;
      assert s[0] == t[0];
    } else {
      assert s == [HexDigit(n)];
      assert s[..0] == [];
    }
  }
}
