/** Positional numerals: the base-36 ids and the decimal fields. */
module Numerals {
  predicate IsDigit(c: char) { '0' <= c <= '9' || 'a' <= c <= 'z' }

  /** 0-9, then a-z. */
  function Digit(d: nat): (c: char)
    requires d < 36
    ensures IsDigit(c)
    ensures d < 10 ==> '0' <= c <= '9'
    ensures DigitValue(c) == d
  {
    if d < 10 then '0' + d as char else 'a' + (d - 10) as char
  }

  function DigitValue(c: char): nat {
    if '0' <= c <= '9' then (c - '0') as nat
    else if 'a' <= c <= 'z' then (c - 'a') as nat + 10
    else 0
  }

  /** The two radixes in use, each a constant, which keeps the arithmetic linear. */
  datatype Radix = Ten | ThirtySix
  {
    function Size(): nat { if Ten? then 10 else 36 }
    function Quotient(value: nat): nat { if Ten? then value / 10 else value / 36 }
    function Remainder(value: nat): nat { if Ten? then value % 10 else value % 36 }
    function Shifted(value: nat): nat { if Ten? then 10 * value else 36 * value }
  }

  /** The shortest numeral of `value`, most significant digit first. */
  function Numeral(value: nat, radix: Radix): (text: string)
    ensures |text| > 0
    ensures forall i :: 0 <= i < |text| ==> IsDigit(text[i]) && (radix.Ten? ==> '0' <= text[i] <= '9')
    decreases value
  {
    if value < radix.Size() then [Digit(value)]
    else Numeral(radix.Quotient(value), radix) + [Digit(radix.Remainder(value))]
  }

  function Base36(value: nat): string { Numeral(value, ThirtySix) }

  function Decimal(value: nat): string { Numeral(value, Ten) }

  function NumeralValue(text: string, radix: Radix): nat {
    if text == [] then 0 else radix.Shifted(NumeralValue(text[..|text| - 1], radix)) + DigitValue(text[|text| - 1])
  }

  lemma {:induction false} NumeralRoundTrip(value: nat, radix: Radix)
    ensures NumeralValue(Numeral(value, radix), radix) == value
    decreases value
  {
    var text := Numeral(value, radix);
    if value < radix.Size() {
      assert text[..|text| - 1] == [];
    } else {
      NumeralRoundTrip(radix.Quotient(value), radix);
      assert text[..|text| - 1] == Numeral(radix.Quotient(value), radix);
    }
  }

  /** Ids built from a counter are never reused: different counters, different text. */
  lemma NumeralInjective(a: nat, b: nat, radix: Radix)
    ensures Numeral(a, radix) == Numeral(b, radix) <==> a == b
  {
    NumeralRoundTrip(a, radix);
    NumeralRoundTrip(b, radix);
  }

  function PowerOf36(exponent: nat): nat { if exponent == 0 then 1 else 36 * PowerOf36(exponent - 1) }

  lemma {:induction false} Base36Length(value: nat, digits: nat)
    requires digits > 0 && value < PowerOf36(digits)
    ensures |Base36(value)| <= digits
    decreases digits
  {
    if value >= 36 {
      assert digits > 1 by { assert PowerOf36(1) == 36 * PowerOf36(0); }
      Base36Length(value / 36, digits - 1);
    }
  }

  /** Every 64-bit counter has at most thirteen base-36 digits. */
  lemma Base36OfWord(value: nat)
    requires value < 0x1_0000_0000_0000_0000
    ensures |Base36(value)| <= 13
  {
    assert PowerOf36(4) == 1679616 by { assert PowerOf36(2) == 1296; }
    assert PowerOf36(8) == 1679616 * 1679616 by { assert PowerOf36(6) == 1296 * PowerOf36(4); }
    assert PowerOf36(12) == 1679616 * PowerOf36(8) by { assert PowerOf36(10) == 1296 * PowerOf36(8); }
    assert PowerOf36(13) == 36 * PowerOf36(12);
    Base36Length(value, 13);
  }

  /** `base36`: digits are produced least significant first and reversed at the end. */
  method Base36Loop(value: nat) returns (text: string)
    ensures text == Base36(value)
  {
    hide Numeral, Reversed;
    if value == 0 {
      ZeroNumeral();
      return "0";
    }
    ReversedSnoc("", '0');
    var rest, buffer := value, "";
    while rest > 0
      invariant (if rest == 0 then "" else Base36(rest)) + Reversed(buffer) == Base36(value)
    {
      var digit := Digit(rest % 36);
      ReversedSnoc(buffer, digit);
      LastDigit(rest);
      assert (if rest / 36 == 0 then "" else Base36(rest / 36)) + ([digit] + Reversed(buffer)) == Base36(rest) + Reversed(buffer);
      rest, buffer := rest / 36, buffer + [digit];
    }
    text := Reversed(buffer);
  }

  function Reversed(s: string): string {
    if s == "" then "" else [s[|s| - 1]] + Reversed(s[..|s| - 1])
  }

  lemma ReversedSnoc(s: string, c: char)
    ensures Reversed(s + [c]) == [c] + Reversed(s)
    ensures Reversed("") == ""
  {
    assert (s + [c])[..|s|] == s;
  }

  lemma LastDigit(value: nat)
    requires value > 0
    ensures Base36(value) == (if value / 36 == 0 then "" else Base36(value / 36)) + [Digit(value % 36)]
  {}

  lemma ZeroNumeral()
    ensures Base36(0) == "0"
  {}
}
