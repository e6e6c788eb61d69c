/** Euclidean division facts and powers of two, for address and entry arithmetic. */
module Division {

  lemma MulMono(x: nat, y: nat, a: nat)
    requires x <= y
    ensures x * a <= y * a
  {
  }

  lemma Quotient(v: nat, d: nat, q: nat)
    requires d > 0 && q * d <= v < (q + 1) * d
    ensures v / d == q
  {
    var x := v / d;
    assert v == x * d + v % d;
    if x < q {
      MulMono(x + 1, q, d);
    } else if q < x {
      MulMono(q + 1, x, d);
    }
  }

  lemma DivBounds(v: nat, a: nat)
    requires a > 0
    ensures (v / a) * a <= v < (v / a + 1) * a
  {
  }

  lemma DivDivBounds(v: nat, a: nat, b: nat, x: nat, q: nat)
    requires a > 0 && b > 0
    requires x * a <= v < (x + 1) * a && q * b <= x < (q + 1) * b
    ensures q * (a * b) <= v < (q + 1) * (a * b)
  {
    MulMono(q * b, x, a);
    MulMono(x + 1, (q + 1) * b, a);
    Regroup(q, a, b);
    Regroup(q + 1, a, b);
  }

  lemma DivDiv(v: nat, a: nat, b: nat, d: nat)
    requires a > 0 && b > 0 && d > 0 && d == a * b
    ensures v / d == (v / a) / b
  {
    var x := v / a;
    DivBounds(v, a);
    var q := x / b;
    DivBounds(x, b);
    DivDivBounds(v, a, b, x, q);
    Quotient(v, d, q);
  }

  lemma Regroup(q: nat, a: nat, b: nat)
    ensures (q * b) * a == q * (a * b)
  {
  }

  lemma DivMod(a: nat, d: nat, q: nat, r: nat)
    requires d > 0 && a == q * d + r && r < d
    ensures a / d == q && a % d == r
  {
    Quotient(a, d, q);
  }

  lemma MultipleMod(m: nat, h: nat)
    requires h > 0
    ensures (m * h) % h == 0
  {
    Quotient(m * h, h, m);
  }

  function Pow2(k: nat): (p: nat)
    ensures p > 0
  {
    if k == 0 then 1 else 2 * Pow2(k - 1)
  }
}
