/** The few facts about products and quotients that the solver does not find unaided. */
module Arith {

  lemma MulMono(a: int, b: int, c: nat)
    requires a <= b
    ensures a * c <= b * c
  {
  }

  lemma MulAssoc(a: int, b: int, c: int)
    ensures (a * b) * c == a * (b * c)
  {
  }

  lemma MulDistrib(a: int, b: int, c: int)
    ensures (a + b) * c == a * c + b * c
    ensures c * (a + b) == c * a + c * b
  {
  }

  /** Quotient and remainder are determined by the division identity. */
  lemma DivModUnique(v: int, m: int, q: int, r: int)
    requires 0 <= r < m && v == q * m + r
    ensures v / m == q && v % m == r
  {
    var d := v / m;
    assert v == d * m + v % m;
    if d > q {
      MulMono(q + 1, d, m);
      MulDistrib(q, 1, m);
    } else if d < q {
      MulMono(d + 1, q, m);
      MulDistrib(d, 1, m);
    }
  }

  lemma DivModIdentity(v: int, m: int)
    requires m > 0
    ensures v == (v / m) * m + v % m && 0 <= v % m < m
  {
  }

  lemma DivNat(v: nat, m: nat)
    requires m > 0
    ensures v / m >= 0 && 0 <= v % m < m
  {
  }

  /** v < p * m exactly when v / m < p. */
  lemma DivBelow(v: nat, p: nat, m: nat)
    requires m > 0
    ensures v < p * m <==> v / m < p
  {
    var q := v / m;
    DivModIdentity(v, m);
    if q >= p {
      MulMono(p, q, m);
    } else {
      MulMono(q + 1, p, m);
      MulDistrib(q, 1, m);
    }
  }

  /** Dividing twice is dividing by the product. */
  lemma DivDiv(v: nat, m: nat, n: nat)
    requires m > 0 && n > 0
    ensures n * m > 0 && v / (n * m) == (v / m) / n
  {
    var q, r := v / m, v % m;
    var s, t := q / n, q % n;
    DivModIdentity(v, m);
    DivModIdentity(q, n);
    MulDistrib(s * n, t, m);
    MulAssoc(s, n, m);
    MulMono(t + 1, n, m);
    MulDistrib(t, 1, m);
    DivModUnique(v, n * m, s, t * m + r);
  }

  lemma ModShift(v: int, m: int)
    requires m > 0
    ensures (v + m) % m == v % m
  {
    DivModIdentity(v, m);
    MulDistrib(v / m, 1, m);
    DivModUnique(v + m, m, v / m + 1, v % m);
  }

  /** Numbers less than m apart have different remainders. */
  lemma ModApart(v: int, w: int, m: int)
    requires v < w < v + m
    ensures v % m != w % m
  {
    var a, b := v / m, w / m;
    DivModIdentity(v, m);
    DivModIdentity(w, m);
    if b <= a {
      MulMono(b, a, m);
    } else {
      MulMono(a + 1, b, m);
      MulDistrib(a, 1, m);
    }
  }

  lemma ProductMono(a: nat, b: nat, c: nat, d: nat)
    requires a <= b && c <= d
    ensures a * c <= b * d
  {
    MulMono(a, b, c);
    MulMono(c, d, b);
  }
}
