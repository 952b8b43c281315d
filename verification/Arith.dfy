/** The few facts about products, quotients and powers that the solver does not
    find by itself. */
module Arith {

  lemma MulNonneg(a: int, b: int)
    requires a >= 0 && b >= 0
    ensures a * b >= 0
  {
  }

  lemma MulAdd(a: int, b: int, c: int)
    ensures (a + b) * c == a * c + b * c
    ensures c * (a + b) == c * a + c * b
  {
  }

  lemma MulAssoc(a: int, b: int, c: int)
    ensures a * (b * c) == (a * b) * c
  {
  }

  lemma MulMonotone(a: int, b: int, c: int)
    requires a <= b && c >= 0
    ensures a * c <= b * c
    ensures c * a <= c * b
  {
    MulNonneg(b - a, c);
    MulAdd(b - a, a, c);
  }

  lemma MulStrict(a: int, b: int, c: int)
    requires a < b && c >= 1
    ensures a * c + c <= b * c
  {
    MulMonotone(a + 1, b, c);
    MulAdd(a, 1, c);
  }

  /** Quotient and remainder are determined by their defining equation. */
  lemma DivUnique(a: int, d: int, q: int, r: int)
    requires 0 <= r < d && a == q * d + r
    ensures a / d == q && a % d == r
  {
    var q', r' := a / d, a % d;
    DivMod(a, d);
    if q' < q {
      MulStrict(q', q, d);
      assert false;
    } else if q < q' {
      MulStrict(q, q', d);
      assert false;
    }
  }

  lemma DivMod(a: int, d: int)
    requires d >= 1
    ensures a == (a / d) * d + a % d && 0 <= a % d < d
  {
  }

  lemma QuotientBelow(k: int, d: int, n: int)
    requires d >= 1 && 0 <= k < n * d
    ensures 0 <= k / d < n && 0 <= k % d < d && (k / d) * d + k % d == k
  {
    DivMod(k, d);
    if k / d >= n { MulMonotone(n, k / d, d); }
    if k / d < 0 { MulStrict(k / d, 0, d); }
  }

  function Pow(b: nat, n: nat): (p: nat)
    ensures b >= 1 ==> p >= 1
  {
    if n == 0 then 1 else MulNonneg(b, Pow(b, n - 1)); b * Pow(b, n - 1)
  }

  lemma {:induction false} PowAdd(b: nat, m: nat, n: nat)
    ensures Pow(b, m + n) == Pow(b, m) * Pow(b, n)
  {
    if m != 0 {
      PowAdd(b, m - 1, n);
      MulAssoc(b, Pow(b, m - 1), Pow(b, n));
    }
  }

  lemma {:induction false} PowMonotone(b: nat, m: nat, n: nat)
    requires b >= 1 && m <= n
    ensures Pow(b, m) <= Pow(b, n)
  {
    PowAdd(b, m, n - m);
    MulMonotone(1, Pow(b, n - m), Pow(b, m));
  }

  lemma DivDiv(v: nat, a: nat, b: nat)
    requires a >= 1 && b >= 1
    ensures a * b >= 1 && v / a / b == v / (a * b)
  {
    MulStrict(0, a, b);
    var q := v / a / b;
    var r := v / a % b;
    DivMod(v, a);
    DivMod(v / a, b);
    MulAdd(q * b, r, a);
    MulAssoc(q, b, a);
    MulStrict(r, b, a);
    MulNonneg(r, a);
    DivUnique(v, a * b, q, r * a + v % a);
  }

  lemma DivNonneg(v: nat, p: nat)
    requires p >= 1
    ensures v / p >= 0
  {
    DivMod(v, p);
    if v / p < 0 { MulStrict(v / p, 0, p); }
  }
}
