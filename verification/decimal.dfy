/** Numbers in decimal. */
module Decimal {

  predicate IsDigit(c: char) { '0' <= c <= '9' }

  function Digits(n: nat): (s: string)
    ensures s != "" && forall c <- s :: IsDigit(c)
  {
    var d := [('0' as int + n % 10) as char];
    if n < 10 then d else Digits(n / 10) + d
  }

  /** The number the digits denote, without any bound. */
  function Value(digits: string): nat
    requires forall c <- digits :: IsDigit(c)
  {
    if digits == "" then 0 else
      var n := |digits| - 1;
      assert IsDigit(digits[n]);
      Value(digits[..n]) * 10 + (digits[n] as int - '0' as int)
  }

  lemma {:induction false} ValueOfDigits(n: nat)
    ensures Value(Digits(n)) == n
  {
    var s := Digits(n);
    var k := |s| - 1;
    assert s[k] as int - '0' as int == n % 10;
    if n < 10 {
      assert s[..k] == "";
    } else {
      ValueOfDigits(n / 10);
      assert s[..k] == Digits(n / 10);
    }
  }
}
