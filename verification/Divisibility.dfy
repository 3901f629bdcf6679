/** Divisibility, congruences and the greatest common divisor. */
module Divisibility {
  import opened IntMath

  predicate Divides(d: int, x: int) {
    d > 0 && x % d == 0
  }

  lemma MultipleDivides(d: int, k: int)
    requires d > 0
    ensures Divides(d, d * k)
  {
    assert (d * k) % d == 0 by { ModOfMultiple(d, k); }
  }

  lemma ModOfMultiple(d: int, k: int)
    requires d > 0
    ensures (d * k) % d == 0
  {
    var q, m := (d * k) / d, (d * k) % d;
    assert d * k == d * q + m;
    assert d * (k - q) == m;
    ProductSize(d, k - q);
  }

  lemma ProductSize(d: int, k: int)
    requires d > 0
    ensures k >= 1 ==> d * k >= d
    ensures k <= -1 ==> d * k <= -d
  {
  }

  lemma UniqueRemainder(x: int, d: int, q: int, r: int)
    requires d > 0 && x == d * q + r && 0 <= r < d
    ensures x % d == r && x / d == q
  {
    var q', r' := x / d, x % d;
    assert d * q' + r' == d * q + r;
    assert d * (q - q') == r' - r;
    ProductSize(d, q - q');
  }

  lemma DividesCombination(d: int, x: int, y: int, a: int, b: int)
    requires Divides(d, x) && Divides(d, y)
    ensures Divides(d, a * x + b * y)
  {
    var i, j := x / d, y / d;
    assert x == d * i && y == d * j;
    assert a * x + b * y == d * (a * i + b * j) by {
      assert a * (d * i) == d * (a * i);
      assert b * (d * j) == d * (b * j);
    }
    MultipleDivides(d, a * i + b * j);
  }

  lemma DivisorIsSmaller(d: int, x: int)
    requires Divides(d, x) && x != 0
    ensures d <= Abs(x)
  {
    assert x == d * (x / d);
    ProductSize(d, x / d);
  }

  /** g is the greatest common divisor of a and b, not both zero. */
  ghost predicate IsGcd(g: int, a: int, b: int) {
    Divides(g, a) && Divides(g, b) && forall d :: Divides(d, a) && Divides(d, b) ==> Divides(d, g)
  }

  /** Replacing (p, c) by (c, p - q*c) keeps the greatest common divisor. */
  lemma GcdOfStep(g: int, p: int, c: int, q: int)
    requires IsGcd(g, p, c)
    ensures IsGcd(g, c, p - q * c)
  {
    DividesCombination(g, p, c, 1, -q);
    forall d | Divides(d, c) && Divides(d, p - q * c)
      ensures Divides(d, g)
    {
      DividesCombination(d, p - q * c, c, 1, q);
    }
  }

  lemma GcdWithZero(a: int)
    requires a != 0
    ensures IsGcd(Abs(a), a, 0)
  {
    MultipleDivides(Abs(a), if a > 0 then 1 else -1);
    MultipleDivides(Abs(a), 0);
    forall d | Divides(d, a) && Divides(d, 0)
      ensures Divides(d, Abs(a))
    {
      DividesCombination(d, a, 0, if a > 0 then 1 else -1, 0);
    }
  }

  lemma GcdIsUnique(g: int, h: int, a: int, b: int)
    requires IsGcd(g, a, b) && IsGcd(h, a, b)
    ensures g == h
  {
    DivisorIsSmaller(g, h);
    DivisorIsSmaller(h, g);
  }

  lemma {:induction false} GcdExists(a: int, b: int)
    requires a != 0 || b != 0
    ensures exists g :: IsGcd(g, a, b)
    decreases Abs(b)
  {
    if b == 0 {
      GcdWithZero(a);
    } else {
      var q, m := FloorDiv(a, b), FloorMod(a, b);
      FloorModRange(a, b);
      GcdExists(b, m);
      var g :| IsGcd(g, b, m);
      GcdSwap(g, a, b, q, m);
    }
  }

  lemma GcdSwap(g: int, a: int, b: int, q: int, m: int)
    requires IsGcd(g, b, m) && a == b * q + m
    ensures IsGcd(g, a, b)
  {
    hide Divides;
    DividesCombination(g, b, m, q, 1);
    assert q * b + 1 * m == a && 1 * a + -q * b == m;
    forall d | Divides(d, a) && Divides(d, b)
      ensures Divides(d, g)
    {
      DividesCombination(d, a, b, 1, -q);
    }
  }

  ghost function Gcd(a: int, b: int): (g: int)
    requires a != 0 || b != 0
    ensures IsGcd(g, a, b)
  {
    GcdExists(a, b);
    var g :| IsGcd(g, a, b);
    g
  }
}
