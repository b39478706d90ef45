/** Division and products of integers, one fact at a time. */
module Arithmetic {
  lemma MulMono(x: int, y: int, p: int)
    requires x <= y && p >= 0
    ensures x * p <= y * p
  {
  }

  lemma DivMul(a: int, q: int, p: int)
    requires p > 0 && q * p <= a < (q + 1) * p
    ensures a / p == q && a % p == a - q * p
  {
    var d := a / p;
    assert a == d * p + a % p && a < (d + 1) * p;
    if d > q { MulMono(q + 1, d, p); }
    if d < q { MulMono(d + 1, q, p); }
  }

  lemma Multiple(q: int, p: int)
    requires p > 0
    ensures (q * p) % p == 0 && (q * p) / p == q
  {
    DivMul(q * p, q, p);
  }

  lemma MultipleOfProduct(k: int, p: int, r: int)
    requires p > 0
    ensures (k * (p * r)) % p == 0
  {
    assert k * (p * r) == (k * r) * p;
    Multiple(k * r, p);
  }

  lemma FactorAligned(a: int, p: int, r: int)
    requires p > 0 && r > 0 && a % (p * r) == 0
    ensures a % p == 0
  {
    var k := a / (p * r);
    assert a == k * (p * r);
    MultipleOfProduct(k, p, r);
  }

  lemma DivDiv(a: int, p: int, q: int)
    requires 0 <= a && p > 0 && q > 0
    ensures a / (p * q) == a / p / q
  {
    var u := a / p;
    var v := u / q;
    assert v * q <= u < (v + 1) * q;
    assert u * p <= a < (u + 1) * p;
    assert v * q * p <= u * p;
    assert (u + 1) * p <= (v + 1) * q * p;
    assert v * (p * q) == v * q * p && (v + 1) * (p * q) == (v + 1) * q * p;
    DivMul(a, v, p * q);
  }

  lemma MulInjective(x: int, y: int, p: int)
    requires p > 0
    ensures x * p == y * p <==> x == y
  {
    if x < y { MulMono(x + 1, y, p); }
    if y < x { MulMono(y + 1, x, p); }
  }

  lemma Euclid(a: int, p: int)
    requires p > 0
    ensures a == a / p * p + a % p && 0 <= a % p < p
  {
  }

  lemma NextMultiple(q: int, r: int, p: int)
    requires q * p < r * p || q < r
    requires p > 0
    ensures q * p + p <= r * p
  {
    if r <= q { MulMono(r, q, p); }
    MulMono(q + 1, r, p);
  }

  lemma DivOrder(a: int, b: int, p: int)
    requires p > 0 && a <= b
    ensures a / p <= b / p
  {
    var x, y := a / p, b / p;
    assert x * p <= a && b < (y + 1) * p;
    if y < x { MulMono(y + 1, x, p); }
  }

  lemma ZeroDiv(p: int)
    requires p > 0
    ensures 0 / p == 0
  {
  }
}
