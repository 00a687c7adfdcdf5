/** Quotients, remainders and products of natural numbers. */
module Division {

  lemma Quotient(a: nat, n: nat)
    requires n > 0
    ensures n * (a / n) <= a < n * (a / n) + n
    ensures a == n * (a / n) + a % n && a % n < n
  {
  }

  lemma ProductMono(a: nat, b: nat, n: nat)
    requires a <= b
    ensures n * a <= n * b
  {
    assert n * b == n * a + n * (b - a);
  }

  /** a / n is the only q with n * q <= a < n * q + n. */
  lemma QuotientAtMost(a: nat, n: nat, q: nat)
    requires n > 0 && a < n * q + n
    ensures a / n <= q
  {
    Quotient(a, n);
    assert n * (q + 1) == n * q + n;
    if a / n > q {
      ProductMono(q + 1, a / n, n);
    }
  }

  lemma QuotientAtLeast(a: nat, n: nat, q: nat)
    requires n > 0 && n * q <= a
    ensures a / n >= q
  {
    Quotient(a, n);
    assert n * (a / n + 1) == n * (a / n) + n;
    if a / n < q {
      ProductMono(a / n + 1, q, n);
    }
  }

  lemma QuotientMono(a: nat, b: nat, n: nat)
    requires n > 0 && a <= b
    ensures a / n <= b / n
  {
    Quotient(a, n);
    QuotientAtLeast(b, n, a / n);
  }

  lemma RemainderUnique(a: nat, q: nat, r: nat, n: nat)
    requires n > 0 && r < n && a == n * q + r
    ensures a % n == r
  {
    Quotient(a, n);
    QuotientAtMost(a, n, q);
    QuotientAtLeast(a, n, q);
  }

  lemma AddModulus(a: nat, n: nat)
    requires n > 0
    ensures (a + n) % n == a % n
  {
    var q, r := a / n, a % n;
    Quotient(a, n);
    assert a == n * q + r;
    assert n * (q + 1) == n * q + n;
    RemainderUnique(a + n, q + 1, r, n);
  }

  /** Adding to a remainder and reducing again is the remainder of the sum. */
  lemma ModAdd(a: nat, b: nat, n: nat)
    requires n > 0
    ensures (a % n + b) % n == (a + b) % n
    ensures a % n + b < n ==> a % n + b == (a + b) % n
  {
    var p, u := a / n, a % n;
    Quotient(a, n);
    var q, t := (u + b) / n, (u + b) % n;
    Quotient(u + b, n);
    Distribute(n, p, q);
    RemainderUnique(a + b, p + q, t, n);
    if u + b < n {
      RemainderUnique(a + b, p, u + b, n);
    }
  }

  lemma Distribute(n: nat, p: nat, q: nat)
    ensures n * (p + q) == n * p + n * q
  {
  }
}
