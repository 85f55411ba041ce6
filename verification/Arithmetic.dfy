/** Facts about products and quotients that the other modules lean on. */
module Arithmetic {

  function Min(a: nat, b: nat): nat { if a <= b then a else b }

  function Power(base: nat, k: nat): nat {
    if k == 0 then 1 else base * Power(base, k - 1)
  }

  lemma MultipleMod(k: int, s: int)
    requires s > 0
    ensures (k * s) % s == 0
    ensures k * s / s == k
  {
    DivModUnique(k * s, s, k, 0);
  }

  lemma DivModUnique(n: int, s: int, quotient: int, remainder: int)
    requires s > 0 && n == quotient * s + remainder && 0 <= remainder < s
    ensures n / s == quotient && n % s == remainder
  {
    var d := n / s - quotient;
    assert d * s == remainder - n % s;
    assert d >= 1 ==> d * s >= s;
    assert d <= -1 ==> d * s <= -s;
  }

  lemma DivisionMonotone(a: int, b: int, m: int)
    requires a <= b && m > 0
    ensures a / m <= b / m
  {
    var p, q := a / m, b / m;
    assert p >= q + 1 ==> p * m >= (q + 1) * m;
  }

  lemma ProductMonotone(a: nat, b: nat, m: nat)
    requires a <= b
    ensures a * m <= b * m
  {
  }
}
