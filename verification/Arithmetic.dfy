/** Quotients and remainders. */
module Arithmetic {

  lemma QuotientIs(v: int, d: nat, q: int, r: nat)
    requires v == q * d + r && r < d
    ensures v / d == q && v % d == r
  {
    SmallMultiple(v / d - q, d);
  }

  lemma SmallMultiple(k: int, d: nat)
    ensures -(d as int) < k * d < d ==> k == 0
  {
    if k >= 1 {
      assert k * d >= d;
    } else if k <= -1 {
      assert -k * d >= d;
    }
  }

  lemma HalfOfQuotient(v: nat, p: nat)
    requires p > 0
    ensures v / 2 / p == v / (2 * p)
  {
    var q, r := v / 2 / p, v / 2 % p;
    assert v == 2 * (q * p + r) + v % 2;
    QuotientIs(v, 2 * p, q, 2 * r + v % 2);
  }

  lemma ModMod(v: int, p: nat, m: nat)
    requires p > 0 && m > 0
    ensures p * m > 0 && v % (p * m) % p == v % p
  {
    var w := p * m;
    assert w >= p * 1;
    var q, u := v / w, v % w;
    assert q * w == (q * m) * p;
    QuotientIs(v, p, q * m + u / p, u % p);
  }

  lemma ModDouble(v: nat, p: nat)
    requires p > 0
    ensures v % (2 * p) == 2 * (v / 2 % p) + v % 2
  {
    HalfOfQuotient(v, p);
    QuotientIs(v, 2 * p, v / 2 / p, 2 * (v / 2 % p) + v % 2);
  }

  lemma ModOnce(i: nat, n: nat)
    requires i < 2 * n
    ensures i % n == if i < n then i else i - n
  {
    if i >= n {
      QuotientIs(i, n, 1, i - n);
    }
  }
}
