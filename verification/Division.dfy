/** Division of natural numbers by a positive one, kept out of the solver's sight where it can be. */
module Division {
  function Quotient(n: nat, d: nat): nat
    requires d > 0
  {
    n / d
  }

  function Remainder(n: nat, d: nat): (r: nat)
    requires d > 0
    ensures r < d
  {
    n % d
  }

  lemma DivMod(a: nat, d: nat)
    requires d > 0
    ensures Quotient(a, d) * d + Remainder(a, d) == a
  {
  }

  lemma SmallMultiple(k: int, d: int)
    requires -d < k * d < d
    ensures k == 0
  {
    if k >= 1 { MulMonotone(1, k, d); }
    if k <= -1 { MulMonotone(k, -1, d); }
  }

  lemma MulMonotone(a: int, b: int, d: int)
    requires a <= b && d >= 0
    ensures a * d <= b * d
  {
  }

  lemma RemainderOfSum(q: nat, d: nat, r: nat)
    requires r < d
    ensures Remainder(q * d + r, d) == r && Quotient(q * d + r, d) == q
  {
    var n := q * d + r;
    assert n == n / d * d + n % d;
    assert (n / d - q) * d == r - n % d;
    SmallMultiple(n / d - q, d);
  }

  /** Dividing by a product is dividing by its factors in turn. */
  lemma DivTwice(n: nat, d: nat, k: nat)
    requires d > 0 && k > 0
    ensures d * k > 0 && Quotient(n, d * k) == Quotient(Quotient(n, d), k)
  {
    var q, r := Quotient(n, d), Remainder(n, d);
    var a, b := Quotient(q, k), Remainder(q, k);
    DivMod(n, d);
    DivMod(q, k);
    hide Quotient, Remainder;
    MulMonotone(b, k - 1, d);
    assert b * d + r < k * d;
    assert (a * k + b) * d + r == a * (d * k) + (b * d + r);
    RemainderOfSum(a, d * k, b * d + r);
  }
}
