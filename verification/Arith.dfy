/** Quotients, remainders and products of natural numbers. */
module Arith {
  function Quot(i: nat, d: nat): nat
    requires 1 <= d
  {
    i / d
  }

  function Rem(i: nat, d: nat): nat
    requires 1 <= d
  {
    i % d
  }

  lemma MulLe(a: int, b: int, c: nat)
    requires a <= b
    ensures a * c <= b * c
  {}

  lemma MulSucc(a: int, c: nat)
    ensures (a + 1) * c == a * c + c
  {}

  lemma DivMod(x: nat, n: nat, q: nat, r: nat)
    requires r < n && x == q * n + r
    ensures x / n == q && x % n == r
    ensures Quot(x, n) == q && Rem(x, n) == r
  {
    var q' := x / n;
    assert x == n * q' + x % n;
    assert q' < q ==> n * (q' + 1) <= n * q;
    assert q < q' ==> n * (q + 1) <= n * q';
  }

  lemma QuotRem(x: nat, n: nat)
    requires 1 <= n
    ensures x == Quot(x, n) * n + Rem(x, n) && Rem(x, n) < n
    ensures Quot(x, n) == x / n && Rem(x, n) == x % n
  {
    assert x == n * (x / n) + x % n;
  }

  /** A number below n * d has a quotient below n. */
  lemma Quotient(i: nat, n: nat, d: nat)
    requires 1 <= d && i < n * d
    ensures Quot(i, d) < n && Rem(i, d) < d && i == Quot(i, d) * d + Rem(i, d)
    ensures Quot(i, d) == i / d && Rem(i, d) == i % d
  {
    QuotRem(i, d);
    var q := Quot(i, d);
    assert q >= n ==> q * d >= n * d;
  }
}
