/** Division and remainder by a variable, reduced to multiplication. */
module Arith {
  function Quotient(a: nat, d: nat): nat
    requires d > 0
  {
    a / d
  }

  lemma MulMono(d: nat, x: nat, y: nat)
    requires x <= y
    ensures d * x <= d * y && x * d <= y * d
  {
  }

  /** Quotient and remainder are the unique pair that fits. */
  lemma DivUnique(a: nat, d: nat, q: nat, r: nat)
    requires d > 0 && a == q * d + r && r < d
    ensures a / d == q && a % d == r
  {
    var q', r' := a / d, a % d;
    assert a == q' * d + r' && r' < d;
    if q < q' {
      MulMono(d, q + 1, q');
    } else if q' < q {
      MulMono(d, q' + 1, q);
    }
  }

  lemma DivBounds(a: nat, d: nat)
    requires d > 0
    ensures (a / d) * d <= a < (a / d) * d + d
    ensures a == (a / d) * d + a % d
  {
  }

  /** q is at most a / d exactly when q blocks of d fit into a. */
  lemma FitsIffBelow(a: nat, d: nat, q: nat)
    requires d > 0
    ensures q * d <= a <==> q <= a / d
  {
    DivBounds(a, d);
    if q <= a / d {
      MulMono(d, q, a / d);
    } else {
      MulMono(d, a / d + 1, q);
    }
  }

  lemma MulSign(p: int, d: nat)
    requires d > 0
    ensures p >= 0 <==> p * d >= 0
  {
    if p >= 0 {
      MulMono(d, 0, p);
    } else {
      MulMono(d, 1, 0 - p);
      assert p * d == 0 - (0 - p) * d;
    }
  }

  lemma ExactMultiple(k: int, d: nat)
    requires d > 0
    ensures (k * d) / d == k && (k * d) % d == 0
  {
    var q, r := (k * d) / d, (k * d) % d;
    assert (k - q) * d == r;
    assert (k - q - 1) * d == r - d;
    MulSign(k - q, d);
    MulSign(k - q - 1, d);
  }

  lemma ModShift(a: int, q: int, d: nat)
    requires d > 0
    ensures (a + q * d) % d == a % d
  {
    var r, r' := a % d, (a + q * d) % d;
    var p := (a + q * d) / d - a / d - q;
    assert r' - r == 0 - p * d;
    assert (p - 1) * d == r - r' - d;
    assert (0 - p - 1) * d == r' - r - d;
    MulSign(p - 1, d);
    MulSign(0 - p - 1, d);
  }
}
