/** Decimal printing of a natural number, as `{}` formatting does it. */
module Decimal {

  function Digit(d: nat): (c: char)
    requires d < 10
    ensures '0' <= c <= '9'
  {
    ('0' as int + d) as char
  }

  function Show(n: nat): (s: string)
    ensures s != []
    ensures forall i :: 0 <= i < |s| ==> '0' <= s[i] <= '9'
  {
    if n < 10 then [Digit(n)] else Show(n / 10) + [Digit(n % 10)]
  }

  /** No two numbers print alike. */
  lemma {:induction false} ShowInjective(m: nat, n: nat)
    requires Show(m) == Show(n)
    ensures m == n
  {
    var s, t := Show(m), Show(n);
    assert s[|s| - 1] == Digit(m % 10) && t[|t| - 1] == Digit(n % 10);
    assert (m >= 10 ==> |s| >= 2) && (n >= 10 ==> |t| >= 2);
    if m >= 10 && n >= 10 {
      assert s[..|s| - 1] == Show(m / 10) && t[..|t| - 1] == Show(n / 10);
      ShowInjective(m / 10, n / 10);
    }
  }

  /** The number a sequence of digits stands for. */
  function Value(s: string): nat
    requires forall i :: 0 <= i < |s| ==> '0' <= s[i] <= '9'
  {
    if s == [] then 0 else 10 * Value(s[..|s| - 1]) + (s[|s| - 1] as int - '0' as int)
  }

  /** The digits stand for the number, and the first of them is no zero but in 0 itself. */
  lemma {:induction false} ShowValue(n: nat)
    ensures Value(Show(n)) == n && (n > 0 ==> Show(n)[0] != '0')
  {
    if n >= 10 {
      ShowValue(n / 10);
      assert Show(n)[..|Show(n)| - 1] == Show(n / 10);
    } else {
      assert Show(n)[..0] == [];
    }
  }
}
