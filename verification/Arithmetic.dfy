// Division facts that the solver does not find on its own.
module Arithmetic {

  lemma MulAtLeast(d: int, n: int)
    requires 0 < d && 0 < n
    ensures d * n >= n
  {
  }

  lemma MulSub(x: int, y: int, n: int)
    ensures (x - y) * n == x * n - y * n
  {
  }

  lemma DivModUnique(a: int, n: int, q: int, r: int)
    requires 0 <= r < n && a == q * n + r
    ensures a / n == q && a % n == r
  {
    var p := a / n;
    assert a == p * n + a % n;
    if q < p {
      MulSub(p, q, n);
      MulAtLeast(p - q, n);
    } else if p < q {
      MulSub(q, p, n);
      MulAtLeast(q - p, n);
    }
  }

  lemma Wrap(a: nat, n: nat)
    requires 0 < n && a < 2 * n
    ensures a % n == if a < n then a else a - n
  {
    if a < n {
      DivModUnique(a, n, 0, a);
    } else {
      DivModUnique(a, n, 1, a - n);
    }
  }

  lemma SuccMod(a: int, n: nat)
    requires 0 < n
    ensures (a + 1) % n == if a % n + 1 == n then 0 else a % n + 1
  {
    if a % n + 1 == n {
      DivModUnique(a + 1, n, a / n + 1, 0);
    } else {
      DivModUnique(a + 1, n, a / n, a % n + 1);
    }
  }

  lemma ModAdd(x: int, y: int, n: int)
    requires 0 < n
    ensures (x % n + y % n) % n == (x + y) % n
  {
    var q, s := x / n + y / n, x % n + y % n;
    assert x + y == q * n + s;
    if s < n {
      DivModUnique(x + y, n, q, s);
      DivModUnique(s, n, 0, s);
    } else {
      assert x + y == (q + 1) * n + (s - n);
      DivModUnique(x + y, n, q + 1, s - n);
      DivModUnique(s, n, 1, s - n);
    }
  }

  lemma AtMostQuotient(k: nat, d: nat, span: nat)
    requires 0 < d && k * d <= span
    ensures k <= span / d
  {
    var q := span / d;
    assert span == q * d + span % d;
    if q < k {
      MulSub(k, q, d);
      MulAtLeast(k - q, d);
    }
  }

  lemma DivDiv(n: nat, a: nat, b: nat)
    requires 0 < a && 0 < b
    ensures 0 < a * b && n / (a * b) == n / a / b
  {
    var m := n / a;
    NestedQuotient(n, a, b, m, n % a, m / b, m % b);
  }

  lemma NestedQuotient(n: nat, a: nat, b: nat, m: nat, s: nat, q: nat, r: nat)
    requires s < a && r < b && n == m * a + s && m == q * b + r
    ensures 0 < a * b && n / (a * b) == q
  {
    Distribute(q, b, r, a);
    MulMono(r, b - 1, a);
    MulSub(b, 1, a);
    MulAtLeast(a, b);
    DivModUnique(n, a * b, q, r * a + s);
  }

  lemma Distribute(q: int, b: int, r: int, a: int)
    ensures (q * b + r) * a == q * (a * b) + r * a
  {
  }

  lemma MulMono(x: int, y: int, n: nat)
    requires x <= y
    ensures x * n <= y * n
  {
  }
}
