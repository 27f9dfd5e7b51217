/** Division with remainder, for arithmetic in machine words. */
module Remainders {
  lemma MultipleAtLeast(x: int, m: nat)
    requires x >= 1
    ensures x * m >= m
  {
  }

  lemma MultipleAtMost(x: int, m: nat)
    requires x <= -1
    ensures x * m + m <= 0
  {
  }

  lemma RemainderIs(a: nat, q: nat, r: nat, m: nat)
    requires m > 0 && r < m && a == q * m + r
    ensures a % m == r
  {
    var d, e := a / m - q, a % m - r;
    assert a == (a / m) * m + a % m;
    assert (a / m) * m == q * m + d * m;
    assert d * m + e == 0;
    if d >= 1 {
      MultipleAtLeast(d, m);
    } else if d <= -1 {
      MultipleAtMost(d, m);
    }
  }

  lemma Regroup(q: nat, k: nat, p: nat, m: nat)
    ensures q * (m * k) + p * m == (q * k + p) * m
  {
    assert q * (m * k) == (q * k) * m;
  }

  lemma RemainderOfRemainder(a: nat, m: nat, k: nat)
    requires m > 0 && k > 0
    ensures m * k > 0 && a % (m * k) % m == a % m
  {
    MultipleAtLeast(k, m);
    var n := m * k;
    var q, r := a / n, a % n;
    var p, s := r / m, r % m;
    assert a == q * n + r && r == p * m + s;
    Regroup(q, k, p, m);
    RemainderIs(a, q * k + p, s, m);
  }

  lemma Distribute(x: nat, r: nat, c: nat)
    ensures (x + r) * c == x * c + r * c
  {
  }

  lemma ProductRemainder(a: nat, c: nat, m: nat, q: nat, r: nat, p: nat, s: nat)
    requires s < m && a == q * m + r && r * c == p * m + s
    ensures (a * c) % m == s
  {
    Distribute(q * m, r, c);
    assert (q * m) * c == q * (m * c);
    Regroup(q, c, p, m);
    RemainderIs(a * c, q * c + p, s, m);
  }

  lemma Quotient(x: nat, m: nat) returns (q: nat)
    requires m > 0
    ensures x == q * m + x % m
  {
    q := x / m;
  }

  lemma RemainderOfProduct(a: nat, c: nat, m: nat)
    requires m > 0
    ensures (a * c) % m == ((a % m) * c) % m
  {
    var q := Quotient(a, m);
    var p := Quotient((a % m) * c, m);
    ProductRemainder(a, c, m, q, a % m, p, ((a % m) * c) % m);
  }
}
