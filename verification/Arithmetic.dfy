/** Quotients and remainders by a divisor that is not a literal. */
module Arithmetic {
  lemma MulMonotone(a: int, b: int, c: nat)
    requires a <= b
    ensures a * c <= b * c
  {
    if c > 0 {
      MulMonotone(a, b, c - 1);
      assert a * c == a * (c - 1) + a && b * c == b * (c - 1) + b;
    }
  }

  lemma MulNext(q: nat, cap: nat)
    ensures (q + 1) * cap == q * cap + cap
  {
  }

  lemma DivMod(p: nat, cap: nat)
    requires cap > 0
    ensures p == p / cap * cap + p % cap
  {
  }

  lemma QuotientBelow(q: nat, t: nat, q': nat, t': nat, cap: nat)
    requires q * cap + t == q' * cap + t' && t < cap && t' < cap
    ensures q <= q'
  {
    if q > q' {
      MulMonotone(q' + 1, q, cap);
      MulNext(q', cap);
    }
  }

  lemma DivMonotone(a: nat, b: nat, cap: nat)
    requires cap > 0 && a <= b
    ensures a / cap <= b / cap
  {
    DivMod(a, cap);
    DivMod(b, cap);
    if b / cap < a / cap {
      MulMonotone(b / cap + 1, a / cap, cap);
      MulNext(b / cap, cap);
    }
  }

  lemma ModUnique(p: nat, cap: nat, q: nat, t: nat)
    requires cap > 0 && p == q * cap + t && t < cap
    ensures p / cap == q && p % cap == t
  {
    DivMod(p, cap);
    QuotientBelow(q, t, p / cap, p % cap, cap);
    QuotientBelow(p / cap, p % cap, q, t, cap);
  }

  lemma NextMultiple(u: nat, k: nat, n: nat)
    requires u > 0
    ensures k % u == 0 && k + u <= n ==> k + u <= n / u * u && (k + u) % u == 0
  {
    if k % u == 0 && k + u <= n {
      DivMod(k, u);
      MulNext(k / u, u);
      ModUnique(k + u, u, k / u + 1, 0);
      DivMonotone(k + u, n, u);
      MulMonotone(k / u + 1, n / u, u);
    }
  }

  lemma MultipleBelow(u: nat, k: nat, n: nat)
    requires u > 0
    ensures k % u == 0 && n % u == 0 && k < n ==> k + u <= n && (k + u) % u == 0
  {
    if k % u == 0 && n % u == 0 && k < n {
      DivMod(k, u);
      DivMod(n, u);
      MulNext(k / u, u);
      ModUnique(k + u, u, k / u + 1, 0);
      if k / u >= n / u {
        MulMonotone(n / u, k / u, u);
      } else {
        MulMonotone(k / u + 1, n / u, u);
      }
    }
  }

  lemma LastMultiple(u: nat, k: nat, n: nat)
    requires u > 0
    ensures k % u == 0 && k <= n < k + u ==> k == n / u * u
  {
    if k % u == 0 && k <= n < k + u {
      DivMod(k, u);
      ModUnique(n, u, k / u, n - k);
    }
  }

  lemma ModAdd(a: nat, b: nat, m: nat)
    requires m > 0
    ensures (a % m + b) % m == (a + b) % m
  {
    DivMod(a, m);
    var x := a % m + b;
    DivMod(x, m);
    MulDistribute(a / m, x / m, m);
    ModUnique(a + b, m, a / m + x / m, x % m);
  }

  lemma ModAfter(p: nat, i: nat, cap: nat, q: nat, start: nat)
    requires p == q * cap + start && start < cap && i < cap
    ensures (p + i) % cap == if start + i < cap then start + i else start + i - cap
  {
    if start + i < cap {
      ModUnique(p + i, cap, q, start + i);
    } else {
      MulNext(q, cap);
      ModUnique(p + i, cap, q + 1, start + i - cap);
    }
  }

  lemma MulAssoc(a: nat, b: nat, c: nat)
    ensures a * (b * c) == (a * b) * c
  {
  }

  /** Dividing twice is dividing by the product. */
  lemma DivDiv(x: nat, a: nat, p: nat)
    requires a > 0 && p > 0
    ensures a * p > 0 && x / (a * p) == x / a / p
  {
    var q, r := x / a, x % a;
    var h, b := q / p, q % p;
    DivMod(x, a);
    DivMod(q, p);
    MulMonotone(1, a, p);
    MulAssoc(h, p, a);
    MulDistribute(h * p, b, a);
    MulMonotone(b + 1, p, a);
    MulNext(b, a);
    ModUnique(x, a * p, h, b * a + r);
  }

  lemma MulDistribute(a: nat, b: nat, c: nat)
    ensures (a + b) * c == a * c + b * c
  {
  }
}
