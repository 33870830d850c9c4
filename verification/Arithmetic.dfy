/** Division with remainder by a variable divisor. */
module Arithmetic {

  lemma MulMono(a: nat, b: int, c: int)
    requires b <= c
    ensures a * b <= a * c
  {
  }

  /** Quotient and remainder are unique. */
  lemma DivMod(q: int, p: int, r: int)
    requires 0 <= r < p
    ensures (q * p + r) / p == q && (q * p + r) % p == r
  {
    var x := q * p + r;
    var d := x / p - q;
    assert d * p == r - x % p;
    assert d >= 1 ==> d * p >= p;
    assert d <= -1 ==> d * p <= -p;
  }

  lemma QuotientNat(v: nat, p: int)
    requires 0 < p
    ensures 0 <= v / p && v == (v / p) * p + v % p && 0 <= v % p < p
    ensures v >= p ==> v / p >= 1
  {
    var q := v / p;
    assert q <= -1 ==> q * p <= -p;
    assert q == 0 ==> q * p == 0;
  }

  /** Counting one further. */
  lemma DivNext(e: nat, p: int)
    requires 0 < p
    ensures (e + 1) % p == if e % p + 1 == p then 0 else e % p + 1
    ensures (e + 1) / p == e / p + if e % p + 1 == p then 1 else 0
  {
    var q, m := e / p, e % p;
    QuotientNat(e, p);
    if m + 1 == p {
      assert e + 1 == (q + 1) * p + 0;
      DivMod(q + 1, p, 0);
    } else {
      DivMod(q, p, m + 1);
    }
  }

  lemma AddMod(a: nat, n: nat)
    requires 0 < n
    ensures (a + n) % n == a % n
  {
    var q := a / n;
    QuotientNat(a, n);
    assert a + n == (q + 1) * n + a % n;
    DivMod(q + 1, n, a % n);
  }
}
