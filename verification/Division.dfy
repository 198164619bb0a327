/** Products, quotients and remainders, in small steps: what the solver needs to be told about
    them in the other modules. */
module Division {

  lemma Quotient(x: nat, p: nat)
    requires p >= 1
    ensures 0 <= x / p <= x
    ensures x == x / p * p + x % p
  {
    Monotone(1, p, x / p);
  }

  /** The remainder is determined by its range. */
  lemma DivMod(x: nat, p: nat, q: nat, r: nat)
    requires r < p && x == q * p + r
    ensures x / p == q && x % p == r
  {
    var d := x / p - q;
    assert d * p == r - x % p;
    Multiples(d, p);
  }

  lemma Multiples(d: int, p: nat)
    ensures d >= 1 ==> d * p >= p
    ensures d <= -1 ==> d * p + p <= 0
  {
  }

  lemma Monotone(x: int, y: int, z: nat)
    requires x <= y
    ensures x * z <= y * z && z * x <= z * y
  {
    assert (y - x) * z >= 0;
  }

  lemma Distribute(x: int, y: int, z: int)
    ensures (x + y) * z == x * z + y * z
  {
  }

  lemma Regroup(x: int, y: int, z: int)
    ensures (x * y) * z == x * (y * z) == (x * z) * y
  {
  }

  lemma Below(k: nat, p: nat, q: nat)
    requires k * p < q * p
    ensures k < q
  {
    Distribute(q - k, k, p);
    Multiples(q - k, p);
  }

  function Power10(n: nat): (p: nat)
    ensures p >= 1
  {
    if n == 0 then 1 else 10 * Power10(n - 1)
  }
}
