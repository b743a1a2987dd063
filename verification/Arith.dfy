/** Facts about products, quotients and remainders that the solver does not find by itself. */
module Arith {

  lemma MulMono(a: int, b: int, k: nat)
    requires a <= b
    ensures a * k <= b * k
  {
    assert b * k == a * k + (b - a) * k;
  }

  lemma Quotient(q: nat, n: nat)
    requires n > 0
    ensures q * n / n == q && q * n % n == 0
  {
    var d, r := q * n / n, q * n % n;
    assert q * n == d * n + r;
    if d < q { MulMono(d + 1, q, n); }
    if d > q { MulMono(q + 1, d, n); }
  }

  lemma DivMono(a: nat, b: nat, n: nat)
    requires n > 0 && a <= b
    ensures a / n <= b / n
  {
    if b / n < a / n {
      MulMono(b / n + 1, a / n, n);
    }
  }

  lemma NextMultiple(a: nat, n: nat)
    requires n > 0 && a % n == 0
    ensures (a + n) % n == 0
  {
    var q := a / n;
    assert a == q * n && a + n == (q + 1) * n;
    Quotient(q + 1, n);
  }

  lemma ModShift(q: int, n: nat, t: nat)
    requires t < n
    ensures (q * n + t) % n == t
  {
    var d, r := (q * n + t) / n, (q * n + t) % n;
    assert q * n + t == d * n + r;
    if d < q { MulMono(d + 1, q, n); }
    if d > q { MulMono(q + 1, d, n); }
  }

  lemma SameRemainder(a: nat, b: nat, n: nat) returns (t: int)
    requires n > 0 && a % n == b % n
    ensures a - b == t * n
  {
    var p, q := a / n, b / n;
    assert a == p * n + a % n && b == q * n + b % n;
    t := p - q;
    assert t * n == p * n - q * n;
  }
}
