/** Decimal notation, as `toString` of an array index gives it, and the strings that are array indices:
    the canonical decimal numerals below 2^32 - 1. */
module Decimal {
  import opened Options

  const MAX_INDEX := 0xFFFF_FFFE

  function Digit(d: nat): char
    requires d < 10
  {
    "0123456789"[d]
  }

  function Numeral(n: nat): (s: string)
    ensures s != []
  {
    if n < 10 then [Digit(n)] else Numeral(n / 10) + [Digit(n % 10)]
  }

  function DigitValue(c: char): nat {
    if '0' <= c <= '9' then c as int - '0' as int else 0
  }

  function Value(s: string): nat {
    if s == [] then 0 else 10 * Value(s[..|s| - 1]) + DigitValue(s[|s| - 1])
  }

  lemma {:induction false} ValueOfNumeral(n: nat)
    ensures Value(Numeral(n)) == n
  {
    var s := Numeral(n);
    assert DigitValue(Digit(n % 10)) == n % 10;
    if n < 10 {
      assert s[..0] == [];
    } else {
      ValueOfNumeral(n / 10);
      assert s[..|s| - 1] == Numeral(n / 10);
    }
  }

  /** The array index a string denotes, if it is the canonical numeral of one. */
  function StringIndex(s: string): (r: Option<nat>)
    ensures r.Some? ==> r.value <= MAX_INDEX && s == Numeral(r.value)
  {
    if Value(s) <= MAX_INDEX && Numeral(Value(s)) == s then Some(Value(s)) else None
  }

  lemma NumeralIsIndex(n: nat)
    requires n <= MAX_INDEX
    ensures StringIndex(Numeral(n)) == Some(n)
  {
    ValueOfNumeral(n);
  }
}
