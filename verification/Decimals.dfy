/** Numbers in decimal digits. */
module Decimals {
  import opened Bits

  /** The decimal digits of a number, as std::to_string writes them. */
  function Decimal(n: nat): (s: Bytes)
    ensures s != []
  {
    if n < 10 then [0x30 + n] else Decimal(n / 10) + [0x30 + n % 10]
  }

  lemma {:induction false} DecimalDigits(n: nat)
    ensures forall i :: 0 <= i < |Decimal(n)| ==> 0x30 <= Decimal(n)[i] <= 0x39
  {
    if n >= 10 {
      DecimalDigits(n / 10);
      var head := Decimal(n / 10);
      assert Decimal(n) == head + [0x30 + n % 10];
    }
  }

  lemma LongDecimal(n: nat)
    requires n >= 10
    ensures |Decimal(n)| >= 2
    ensures Decimal(n)[..|Decimal(n)| - 1] == Decimal(n / 10) && Decimal(n)[|Decimal(n)| - 1] == 0x30 + n % 10
  {
  }

  lemma {:induction false} DecimalInjective(m: nat, n: nat)
    requires Decimal(m) == Decimal(n)
    ensures m == n
    decreases m
  {
    if m >= 10 { LongDecimal(m); }
    if n >= 10 { LongDecimal(n); }
    if m >= 10 && n >= 10 {
      hide Decimal;
      DecimalInjective(m / 10, n / 10);
    }
  }

  /** The number that decimal digits stand for. */
  function ValueOf(s: Bytes): int {
    if s == [] then 0 else 10 * ValueOf(s[..|s| - 1]) + (s[|s| - 1] as int - 0x30)
  }

  /** The digits are those of the number. */
  lemma {:induction false} DecimalValue(n: nat)
    ensures ValueOf(Decimal(n)) == n
  {
    if n >= 10 {
      LongDecimal(n);
      hide Decimal;
      DecimalValue(n / 10);
    } else {
      assert [0x30 + n][..0] == [];
    }
  }
}
