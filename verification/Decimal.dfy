/** Decimal text of unsigned integers: `to_string` and `str::parse::<u64>`. */
module Decimal {
  import opened Base
  import opened JsonGrammar

  function ToDecimal(n: nat): bytes {
    if n < 10 then [0x30 + n] else ToDecimal(n / 10) + [0x30 + n % 10]
  }

  /** `parse::<u64>`: an optional plus sign, at least one digit, no overflow. */
  function ParseU64(s: bytes): Option<nat> {
    var d := if s != [] && s[0] == 0x2B then s[1..] else s;
    if d == [] || exists i :: 0 <= i < |d| && !Digit(d[i]) then None
    else if Digits(d) > U64_MAX then None
    else Some(Digits(d))
  }

  lemma {:induction false} ToDecimalDigits(n: nat)
    ensures ToDecimal(n) != []
    ensures forall i :: 0 <= i < |ToDecimal(n)| ==> Digit(ToDecimal(n)[i])
    ensures Digits(ToDecimal(n)) == n
    ensures ToDecimal(n)[0] == 0x30 <==> n == 0
  {
    var s := ToDecimal(n);
    if n < 10 {
      assert s[..0] == [];
    } else {
      ToDecimalDigits(n / 10);
      assert s[..|s| - 1] == ToDecimal(n / 10);
    }
  }

  lemma ToDecimalInjective(m: nat, n: nat)
    requires ToDecimal(m) == ToDecimal(n)
    ensures m == n
  {
    ToDecimalDigits(m);
    ToDecimalDigits(n);
  }

  /** Every 64-bit number is parsed back from its own text. */
  lemma ParseToDecimal(n: u64)
    ensures ParseU64(ToDecimal(n)) == Some(n)
  {
    ToDecimalDigits(n);
    assert Digit(ToDecimal(n)[0]);
  }

  lemma {:induction false} AllDigitRun(s: bytes)
    requires forall i :: 0 <= i < |s| ==> Digit(s[i])
    ensures DigitRun(s) == |s|
  {
    if s != [] {
      AllDigitRun(s[1..]);
    }
  }

  /** The text of a number is a JSON number. */
  lemma DecimalIsScalar(n: nat)
    ensures IsScalar(ToDecimal(n))
  {
    var s := ToDecimal(n);
    ToDecimalDigits(n);
    AllDigitRun(s);
    assert s[|s|..] == [];
    if n == 0 {
      assert s == [0x30];
    }
  }
}
