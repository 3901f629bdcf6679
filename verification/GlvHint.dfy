/** The hints of the fake-GLV scalar multiplications. */
module GlvHint {
  import opened IntMath
  import opened Results
  import opened Divisibility
  import opened Eisenstein
  import opened HalfGcd
  import opened Lattice

  // ----- Z[w] maps onto the integers modulo n -----

  /** w goes to the eigenvalue. */
  function Image(x: EInt, lam: int): int {
    x.a0 + x.a1 * lam
  }

  ghost predicate Eigenvalue(lam: int, n: int) {
    lam > 0 && Divides(n, lam * lam + lam + 1)
  }

  ghost predicate Congruent(x: int, y: int, n: int) {
    Divides(n, x - y)
  }

  lemma ImageOfProduct(x: EInt, y: EInt, lam: int, n: int)
    requires Eigenvalue(lam, n)
    ensures Congruent(Image(x.Mul(y), lam), Image(x, lam) * Image(y, lam), n)
  {
    hide Divides;
    DividesCombination(n, lam * lam + lam + 1, lam * lam + lam + 1, -(x.a1 * y.a1), 0);
    ProductImageIdentity(x.a0, x.a1, y.a0, y.a1, lam);
  }

  lemma ProductImageIdentity(a: int, b: int, c: int, d: int, lam: int)
    ensures (a * c - b * d) + (a * d + b * c - b * d) * lam - (a + b * lam) * (c + d * lam)
      == -(b * d) * (lam * lam + lam + 1) + 0 * (lam * lam + lam + 1)
  {
  }

  lemma ImageOfSum(x: EInt, y: EInt, lam: int)
    ensures Image(x.Add(y), lam) == Image(x, lam) + Image(y, lam)
    ensures Image(x.Neg(), lam) == -Image(x, lam)
  {
  }

  /** An eigenvalue shares no factor with the modulus. */
  lemma EigenvalueIsCoprime(lam: int, n: int)
    requires n > 0 && Eigenvalue(lam, n)
    ensures Gcd(n, lam) == 1
  {
    hide IsGcd;
    var g := Gcd(n, lam);
    GcdDivides(n, lam);
    DividesTransitive(g, n, lam * lam + lam + 1);
    DividesCombination(g, lam * lam + lam + 1, lam, 1, -(lam + 1));
    assert 1 * (lam * lam + lam + 1) + -(lam + 1) * lam == 1;
    DivisorIsSmaller(g, 1);
  }

  lemma GcdDivides(a: int, b: int)
    requires a != 0 || b != 0
    ensures Divides(Gcd(a, b), a) && Divides(Gcd(a, b), b)
  {
  }

  lemma DividesTransitive(d: int, n: int, x: int)
    requires Divides(d, n) && Divides(n, x)
    ensures Divides(d, x)
  {
    var k := x / n;
    assert x == n * k + x % n;
    DividesCombination(d, n, n, k, 0);
    assert k * n + 0 * n == x;
  }

  // ----- the second vector -----

  /** Every lattice vector has a norm divisible by n. */
  lemma LatticeNorm(x: int, y: int, lam: int, n: int)
    requires Eigenvalue(lam, n) && Divides(n, ImageMod((x, y), lam))
    ensures Divides(n, EInt(x, y).Norm())
  {
    hide Divides;
    DividesCombination(n, x + y * lam, lam * lam + lam + 1, x - y - y * lam, y * y);
    LatticeNormIdentity(x, y, lam);
  }

  lemma LatticeNormIdentity(x: int, y: int, lam: int)
    ensures (x - y - y * lam) * (x + y * lam) + (y * y) * (lam * lam + lam + 1) == x * x + y * y - x * y
  {
  }

  /** A norm of at least n makes one of the coordinates at least sqrt(n / 3). */
  lemma LargeCoordinate(x: int, y: int, n: int)
    requires EInt(x, y).Norm() >= n
    ensures 3 * (x * x) >= n || 3 * (y * y) >= n
  {
    SquareOfSum(x, y);
    assert EInt(x, y).Norm() == x * x + y * y - x * y;
  }

  lemma SquareOfSum(x: int, y: int)
    ensures x * x + 2 * (x * y) + y * y >= 0
  {
    var s := x + y;
    assert s * s == x * x + 2 * (x * y) + y * y;
    assert s * s >= 0;
  }

  /** For an eigenvalue the second vector of the lattice has length at most 2 sqrt(n). */
  lemma SecondVectorIsShort(n: nat, lam: int)
    requires n > 0 && Eigenvalue(lam, n) && LatticeOf(n, lam).Some?
    ensures NormSquared(LatticeOf(n, lam).value.v2) <= 4 * n
    ensures IsBasisFor(LatticeOf(n, lam).value, n, lam) && HasRoundedInverse(LatticeOf(n, lam).value)
  {
    hide Isqrt, Divides, Bracket, NextRow, SecondVector, RoundHalfAway, Shift, Pow2, EInt.Norm;
    var p, c := LatticeRows(n, lam);
    RowsAreInLattice(p, c, n, lam);
    LatticeNorm(c.rem, -c.t, lam, n);
    NormIsPositive(c.rem, -c.t);
    DivisorIsSmaller(n, EInt(c.rem, -c.t).Norm());
    LargeCoordinate(c.rem, -c.t, n);
    SignedProduct(c.t, c.t);
    SecondIsShort(p, c, n, lam);
    BasisOfRows(p, c, n, lam);
  }

  lemma NormIsPositive(x: int, y: int)
    requires x != 0
    ensures EInt(x, y).Norm() > 0
  {
    NormNonNegative(EInt(x, y));
    ZeroIsExactly(EInt(x, y));
  }

  lemma BasisOfRows(p: Row, c: Row, n: nat, lam: int)
    requires Bracket(p, c, n, lam) && 0 < Abs(c.rem) < Isqrt(n)
    ensures IsBasisFor(BasisOf(p, c), n, lam) && HasRoundedInverse(BasisOf(p, c))
  {
    hide Isqrt, Bracket, NextRow, IsBasisFor, RoundHalfAway, Shift, Pow2;
    DeterminantIsModulus(p, c, SecondVector(p, c), n, lam);
    ModulusIsPositive(p, c, n, lam);
    FinishBasis(p, c, SecondVector(p, c), BasisOf(p, c), n, lam);
  }

  /** For an eigenvalue every scalar of at most the shift's bits splits into halves of about
      4.5 sqrt(n), for either sign of the determinant. */
  lemma SplitByEigenvalueIsShort(n: nat, lam: int, s: int)
    requires n > 0 && Eigenvalue(lam, n) && LatticeOf(n, lam).Some?
    requires Abs(s) <= Pow2(Shift(LatticeOf(n, lam).value.det))
    ensures var (u, v) := SplitScalar(s, LatticeOf(n, lam).value); 2 * Abs(u) <= 9 * Isqrt(n) && 2 * Abs(v) <= 9 * Isqrt(n) + 9
  {
    hide Isqrt, Divides, SplitScalar, HasRoundedInverse, Shift, Pow2, LatticeOf;
    SecondVectorIsShort(n, lam);
    var l, root := LatticeOf(n, lam).value, Isqrt(n);
    SplitIsShort(s, l);
    BelowRootPlusTwo(Abs(l.v1.1), root, n);
    CoordinateOfShort(l.v2.0, l.v2.1, n, root);
    CoordinateOfShort(l.v2.1, l.v2.0, n, root);
  }

  lemma CoordinateOfShort(x: int, y: int, n: nat, root: nat)
    requires x * x + y * y <= 4 * n && n < (root + 1) * (root + 1)
    ensures Abs(x) <= 2 * root + 1
  {
    SquareOfAbs(x);
    assert y * y >= 0;
    assert (2 * root + 2) * (2 * root + 2) == 4 * ((root + 1) * (root + 1));
    if Abs(x) >= 2 * root + 2 {
      SquareMonotone(2 * root + 2, Abs(x));
    }
  }

  // ----- sizes -----

  /** The first basis vector, read in Z[w], has norm at most 4n. */
  lemma FirstVectorNorm(l: Basis, n: nat, lam: int)
    requires n >= 4 && lam > 0 && IsBasisFor(l, n, lam)
    ensures 0 < NormOf(EInt(l.v1.0, l.v1.1)) <= 4 * n
  {
    var s, a, b := Isqrt(n), l.v1.0, l.v1.1;
    IsqrtGreatest(n, 2);
    NormNonNegative(EInt(a, b));
    SmallVector(a, Abs(b), s, n);
    CrossTerm(a, b);
  }

  lemma CrossTerm(a: int, b: int)
    requires a >= 0
    ensures a * a + b * b - a * b <= a * a + Abs(b) * Abs(b) + a * Abs(b)
  {
  }

  lemma SmallVector(a: int, b: int, s: int, n: int)
    requires 0 < a < s && b >= 0 && b * s <= n && s * s <= n < (s + 1) * (s + 1) && s >= 2
    ensures a * a + b * b + a * b <= 4 * n
  {
    SquareMonotone(a, s - 1);
    ProductMonotone(b, a, s - 1);
    BelowRootPlusTwo(b, s, n);
    SquareNearRoot(b, s, n);
    assert (s - 1) * (s - 1) == s * s - 2 * s + 1;
    assert b * (s - 1) == b * s - b && a * b == b * a;
    assert n >= s by { ProductMonotone(s, 1, s); }
    SumOfBounds(a * a, b * b, a * b, s * s, b * s, s, b, n);
  }

  lemma SumOfBounds(aa: int, bb: int, ab: int, ss: int, bs: int, s: int, b: int, n: int)
    requires aa <= ss - 2 * s + 1 && bb <= n + 2 * b && ab <= bs - b
    requires ss <= n && bs <= n && b <= s + 2 && 2 <= s <= n
    ensures aa + bb + ab <= 4 * n
  {
  }

  lemma BelowRootPlusTwo(b: int, s: int, n: int)
    requires b * s <= n < (s + 1) * (s + 1) && s >= 2
    ensures b <= s + 2
  {
    assert (s + 1) * (s + 1) == s * (s + 2) + 1;
    CancelScale(s, b, s + 2);
  }

  lemma SquareNearRoot(b: int, s: int, n: int)
    requires 0 <= b <= s + 2 && b * s <= n
    ensures b * b <= n + 2 * b
  {
    ProductMonotone(b, b - s, 2);
  }

  /** Four bits per bit of the root: a number whose fourth power is at most
      2^18 * n fits in bit_length(n) // 4 + 9 bits. */
  lemma FitsHintBits(x: int, n: nat)
    requires n > 0 && (3 * (x * x)) * (3 * (x * x)) <= Pow2(18) * n
    ensures Abs(x) < HintBound(n)
  {
    hide Pow2, BitLength;
    var k := BitLength(n) / 4 + 9;
    FourthPowerBelow(x * x, n, Pow2(18), Pow2(BitLength(n)));
    Pow2Adds(18, BitLength(n));
    Pow2Monotone(BitLength(n) + 18, 4 * k);
    Pow2Adds(k, k);
    Pow2Adds(2 * k, 2 * k);
    assert x * x == Abs(x) * Abs(x);
    FourthRoot(Abs(x), Pow2(k));
  }

  lemma FourthPowerBelow(y: int, n: int, c: int, p: int)
    requires (3 * y) * (3 * y) <= c * n && n < p && c > 0
    ensures y * y < c * p
  {
    assert (3 * y) * (3 * y) == 9 * (y * y);
    assert c * n < c * p;
  }

  lemma FourthRoot(x: nat, m: nat)
    requires (x * x) * (x * x) < (m * m) * (m * m)
    ensures x < m
  {
    if m <= x {
      SquareMonotone(m, x);
      SquareMonotone(m * m, x * x);
    }
  }

  function HintBound(n: nat): nat {
    Pow2(BitLength(n) / 4 + 9)
  }

  lemma ShortRemainderCoordinates(x: EInt, m: nat, n: nat)
    requires 0 < n && 0 <= x.Norm() < Isqrt(m) && m <= 4 * n
    ensures Abs(x.a0) < HintBound(n) && Abs(x.a1) < HintBound(n)
    ensures x.Norm() * x.Norm() < 4 * n
  {
    NormBoundsCoordinates(x);
    var w := x.Norm();
    var s := Isqrt(m);
    SquareStrict(w, s);
    assert Pow2(18) == 262144 by { Pow2Of18(); }
    QuarticBound(x.a0, w, n);
    QuarticBound(x.a1, w, n);
    FitsHintBits(x.a0, n);
    FitsHintBits(x.a1, n);
  }

  lemma SquareStrict(a: int, b: int)
    requires 0 <= a < b
    ensures a * a < b * b
  {
  }

  lemma Pow2Of18()
    ensures Pow2(18) == 262144
  {
    assert Pow2(9) == 512;
    Pow2Adds(9, 9);
  }

  /** 3x^2 <= 4w and w^2 <= 2^14 n bound the fourth power. */
  lemma QuarticBound(x: int, w: int, n: int)
    requires 3 * (x * x) <= 4 * w && w * w <= 16384 * n && n >= 0
    ensures (3 * (x * x)) * (3 * (x * x)) <= 262144 * n
  {
    assert x * x >= 0;
    SquareMonotone(3 * (x * x), 4 * w);
    assert (4 * w) * (4 * w) == 16 * (w * w);
  }

  lemma CofactorCoordinates(v: EInt, m: nat, n: nat)
    requires 0 < m <= 4 * n
    requires v.Norm() * Isqrt(m) <= 16 * m
    ensures Abs(v.a0) < HintBound(n) && Abs(v.a1) < HintBound(n)
  {
    NormNonNegative(v);
    NormBoundsCoordinates(v);
    IsqrtGreatest(m, 1);
    CofactorNorm(v.Norm(), Isqrt(m), m);
    Pow2Of18();
    QuarticBound(v.a0, v.Norm(), n);
    QuarticBound(v.a1, v.Norm(), n);
    FitsHintBits(v.a0, n);
    FitsHintBits(v.a1, n);
  }

  lemma CofactorNorm(w: int, t: int, m: int)
    requires w >= 0 && t >= 1 && t * t <= m < (t + 1) * (t + 1) && w * t <= 16 * m
    ensures w * w <= 4096 * m
  {
    assert m <= 4 * (t * t) by {
      assert (t + 1) * (t + 1) <= (2 * t) * (2 * t);
    }
    CancelScale(t, w, 64 * t);
    SquareMonotone(w, 64 * t);
    assert (64 * t) * (64 * t) == 4096 * (t * t);
  }

  // ----- the hint -----

  datatype Parts = Parts(u1: int, u2: int, v1: int, v2: int)

  /** The relation the verifier checks: scalar*(v1 + lam*v2) + u1 + lam*u2 = 0 modulo n. */
  ghost predicate Decomposes(h: Parts, scalar: int, lam: int, n: int) {
    Divides(n, scalar * (h.v1 + lam * h.v2) + h.u1 + lam * h.u2)
  }

  /** All four parts fit in bit_length(n) // 4 + 9 bits. */
  ghost predicate FitsHint(h: Parts, n: nat) {
    var bits := BitLength(n) / 4 + 9;
    Abs(h.u1) < Pow2(bits) && Abs(h.u2) < Pow2(bits) && Abs(h.v1) < Pow2(bits) && Abs(h.v2) < Pow2(bits)
  }

  lemma HintDecomposes(l: Basis, s: EInt, h: Hint, scalar: int, lam: int, n: int)
    requires Eigenvalue(lam, n) && IsBasisFor(l, n, lam)
    requires Congruent(Image(s, lam), -scalar, n)
    requires IsHalfGcd(h, EInt(l.v1.0, l.v1.1), s)
    ensures Decomposes(Parts(h.w.a0, h.w.a1, h.v.a0, h.v.a1), scalar, lam, n)
  {
    hide Divides, EInt.Mul, EInt.Norm, Isqrt, Coprime;
    var r := EInt(l.v1.0, l.v1.1);
    ImageOfProduct(r, h.u, lam, n);
    ImageOfProduct(s, h.v, lam, n);
    ImageOfSum(r.Mul(h.u), s.Mul(h.v), lam);
    CombineCongruences(n, Image(r.Mul(h.u), lam), Image(r, lam), Image(h.u, lam), Image(s.Mul(h.v), lam), Image(s, lam), Image(h.v, lam), scalar);
    Rearranged(scalar, h.v.a0, h.v.a1, h.w.a0, h.w.a1, lam);
  }

  lemma Rearranged(scalar: int, v0: int, v1: int, w0: int, w1: int, lam: int)
    ensures scalar * (v0 + lam * v1) + w0 + lam * w1 == scalar * (v0 + v1 * lam) + (w0 + w1 * lam)
  {
    assert lam * v1 == v1 * lam;
  }

  lemma CombineCongruences(n: int, ru: int, r: int, u: int, sv: int, s: int, v: int, scalar: int)
    requires Divides(n, ru - r * u) && Divides(n, r) && Divides(n, sv - s * v) && Divides(n, s + scalar)
    ensures Divides(n, scalar * v + (ru + sv))
  {
    hide Divides;
    DividesCombination(n, ru - r * u, r, 1, u);
    DividesCombination(n, sv - s * v, s + scalar, 1, v);
    DividesCombination(n, ru, sv + scalar * v, 1, 1);
    assert 1 * (ru - r * u) + u * r == ru;
    assert 1 * (sv - s * v) + v * (s + scalar) == sv + scalar * v;
  }

  lemma {:induction false} Pow4IsPow2(k: nat)
    ensures Pow(4, k) == Pow2(2 * k)
  {
    if k > 0 {
      Pow4IsPow2(k - 1);
      assert Pow2(2 * k) == 2 * Pow2(2 * k - 1);
    }
  }

  /** The step limit is out of reach for every modulus of at most 79,000 bits. */
  lemma ModulusConverges(n: nat, m: nat)
    requires m <= 4 * n && BitLength(n) <= 79_000
    ensures Converges(12 * m, MAX_STEPS - 3)
  {
    hide Pow, Converges, BitLength;
    var bits, k := BitLength(n), (BitLength(n) + 7) / 2;
    Pow2Adds(6, bits);
    assert Pow2(6) == 64;
    Pow2Monotone(6 + bits, 2 * k);
    Pow4IsPow2(k);
    SmallNormConverges(12 * m, k, MAX_STEPS - 3);
  }

  lemma RootAboveOne(n: nat)
    ensures n >= 4 <==> Isqrt(n) > 1
  {
    if n >= 4 {
      IsqrtGreatest(n, 2);
    } else if Isqrt(n) > 1 {
      SquareMonotone(2, Isqrt(n));
    }
  }

  /** half_gcd_eisenstein_hint: for every scalar the four parts satisfy the verifier's
      relation, for 1 in place of a scalar congruent to -1; they are short, and the relation
      is not trivial. */
  method HalfGcdEisensteinHint(n: nat, scalar: int, lam: int) returns (res: Result<Parts>)
    requires n > 0 && Eigenvalue(lam, n)
    ensures n < 4 <==> res == Err(ValueError)
    ensures n >= 4 && res.Err? ==> res.failure == RuntimeError && BitLength(n) > 79_000
    ensures res.Ok? && scalar % n == n - 1 ==> Decomposes(res.value, 1, lam, n)
    ensures res.Ok? && scalar % n != n - 1 ==> Decomposes(res.value, scalar, lam, n)
    ensures res.Ok? ==> EInt(res.value.u1, res.value.u2).Norm() * EInt(res.value.u1, res.value.u2).Norm() < 4 * n
    ensures res.Ok? ==> !(res.value.v1 == 0 && res.value.v2 == 0)
    ensures res.Ok? ==> FitsHint(res.value, n)
  {
    hide Isqrt, BitLength, EInt.Norm, EInt.Mul, Divides, IsGcd, Converges, IsBasisFor, IsHalfGcd, FitsHint, Decomposes, SplitScalar, HasRoundedInverse;
    EigenvalueIsCoprime(lam, n);
    RootAboveOne(n);
    var basis := PrecomputeLattice(n, lam);
    if basis.Err? {
      return Err(basis.failure);
    }
    var l := basis.value;
    var r := EInt(l.v1.0, l.v1.1);
    var effective := if scalar % n == n - 1 then 1 else scalar;
    var sp := SplitScalar(effective, l);
    var s := EInt(sp.0, sp.1).Neg();
    SplitGivesNegatedScalar(effective, l, n, lam);
    FirstVectorNorm(l, n, lam);
    var gcd := TruncatedGcd(r, s);
    if gcd.Err? {
      if BitLength(n) <= 79_000 {
        ModulusConverges(n, NormOf(r));
      }
      return Err(gcd.failure);
    }
    var h := gcd.value;
    HintDecomposes(l, s, h, effective, lam, n);
    HintIsShort(h, r, s, n);
    return Ok(Parts(h.w.a0, h.w.a1, h.v.a0, h.v.a1));
  }

  lemma SplitGivesNegatedScalar(scalar: int, l: Basis, n: int, lam: int)
    requires IsBasisFor(l, n, lam)
    ensures var sp := SplitScalar(scalar, l); Congruent(Image(EInt(sp.0, sp.1).Neg(), lam), -scalar, n)
  {
    hide Divides, SplitScalar, IsBasisFor;
    var sp := SplitScalar(scalar, l);
    SplitIsCongruent(scalar, l, n, lam);
    var x := ImageMod(sp, lam) - scalar;
    DividesCombination(n, x, x, -1, 0);
    ImageOfSum(EInt(sp.0, sp.1), ZERO, lam);
  }

  lemma HintIsShort(h: Hint, r: EInt, s: EInt, n: nat)
    requires n > 0 && 0 < NormOf(r) <= 4 * n && IsHalfGcd(h, r, s)
    ensures h.w.Norm() * h.w.Norm() < 4 * n
    ensures !(h.v.a0 == 0 && h.v.a1 == 0)
    ensures FitsHint(Parts(h.w.a0, h.w.a1, h.v.a0, h.v.a1), n)
  {
    hide Isqrt, EInt.Norm, EInt.Mul, BitLength, Pow2, Coprime;
    ZeroIsExactly(r);
    NormNonNegative(h.w);
    ShortRemainderCoordinates(h.w, NormOf(r), n);
    CofactorCoordinates(h.v, NormOf(r), n);
  }
}
