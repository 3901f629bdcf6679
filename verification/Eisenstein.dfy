/** The ring Z[w] of Eisenstein integers, w^2 + w + 1 = 0. */
module Eisenstein {
  import opened IntMath
  import opened Results

  datatype EInt = EInt(a0: int, a1: int) {
    predicate IsZero() {
      a0 == 0 && a1 == 0
    }

    function Neg(): EInt {
      EInt(-a0, -a1)
    }

    function Conjugate(): EInt {
      EInt(a0 - a1, -a1)
    }

    function Add(y: EInt): EInt {
      EInt(a0 + y.a0, a1 + y.a1)
    }

    function Sub(y: EInt): EInt {
      EInt(a0 - y.a0, a1 - y.a1)
    }

    function Mul(y: EInt): EInt {
      EInt(a0 * y.a0 - a1 * y.a1, a0 * y.a1 + a1 * y.a0 - a1 * y.a1)
    }

    function Norm(): int {
      a0 * a0 + a1 * a1 - a0 * a1
    }
  }

  const ZERO := EInt(0, 0)
  const ONE := EInt(1, 0)

  // ----- ring and norm laws -----

  lemma NormNonNegative(x: EInt)
    ensures x.Norm() >= 0
    ensures x.Norm() == 0 <==> x.IsZero()
  {
    var d := 2 * x.a0 - x.a1;
    assert 4 * x.Norm() == d * d + 3 * (x.a1 * x.a1);
    assert d * d >= 0 && x.a1 * x.a1 >= 0;
  }

  lemma NormMultiplicative(x: EInt, y: EInt)
    ensures x.Mul(y).Norm() == x.Norm() * y.Norm()
  {
    var a, b, c, d := x.a0, x.a1, y.a0, y.a1;
    var p, q := a * c - b * d, a * d + b * c - b * d;
    calc {
      p * p + q * q - p * q;
      (a * a + b * b - a * b) * (c * c + d * d - c * d);
    }
  }

  lemma MulAssociative(x: EInt, y: EInt, z: EInt)
    ensures x.Mul(y).Mul(z) == x.Mul(y.Mul(z))
  {
  }

  lemma MulCommutative(x: EInt, y: EInt)
    ensures x.Mul(y) == y.Mul(x)
  {
  }

  lemma MulDistributes(x: EInt, y: EInt, z: EInt)
    ensures x.Mul(y.Add(z)) == x.Mul(y).Add(x.Mul(z))
    ensures x.Mul(y.Sub(z)) == x.Mul(y).Sub(x.Mul(z))
    ensures y.Sub(z).Mul(x) == y.Mul(x).Sub(z.Mul(x))
  {
  }

  lemma MulConjugate(x: EInt)
    ensures x.Mul(x.Conjugate()) == EInt(x.Norm(), 0)
    ensures x.Conjugate().Mul(x) == EInt(x.Norm(), 0)
    ensures x.Conjugate().Norm() == x.Norm()
  {
  }

  lemma NormBoundsCoordinates(x: EInt)
    ensures 3 * (x.a0 * x.a0) <= 4 * x.Norm()
    ensures 3 * (x.a1 * x.a1) <= 4 * x.Norm()
  {
    var d, e := 2 * x.a0 - x.a1, 2 * x.a1 - x.a0;
    assert 4 * x.Norm() == d * d + 3 * (x.a1 * x.a1);
    assert 4 * x.Norm() == e * e + 3 * (x.a0 * x.a0);
  }

  /** The trace form: N(x + y) = N(x) + N(y) + Trace(x, y). */
  function Trace(x: EInt, y: EInt): int {
    2 * x.a0 * y.a0 + 2 * x.a1 * y.a1 - x.a0 * y.a1 - x.a1 * y.a0
  }

  lemma NormOfSum(x: EInt, y: EInt)
    ensures x.Add(y).Norm() == x.Norm() + y.Norm() + Trace(x, y)
  {
  }

  lemma NormOfTripleDifference(x: EInt, y: EInt)
    ensures EInt(3 * x.a0 - y.a0, 3 * x.a1 - y.a1).Norm() == 9 * x.Norm() + y.Norm() - 3 * Trace(x, y)
  {
  }

  /** The triangle inequality, squared, as the cofactor bound needs it:
      |y| <= 3|x| implies |x + y| <= 4|x|. */
  lemma NormTriangle(x: EInt, y: EInt)
    requires y.Norm() <= 9 * x.Norm()
    ensures x.Add(y).Norm() <= 16 * x.Norm()
  {
    NormOfSum(x, y);
    NormOfTripleDifference(x, y);
    NormNonNegative(EInt(3 * x.a0 - y.a0, 3 * x.a1 - y.a1));
  }

  // ----- Euclidean division -----

  function RoundNearest(z: int, d: int): (q: int)
    requires d > 0
  {
    var half := d / 2;
    if z >= 0 then (z + half) / d else -((-z + half) / d)
  }

  lemma RoundNearestIsNearest(z: int, d: int)
    requires d > 0
    ensures -d <= 2 * (z - d * RoundNearest(z, d)) <= d
  {
    var half := d / 2;
    var m := (if z >= 0 then z else -z) + half;
    assert m == d * (m / d) + m % d;
    if z < 0 {
      assert d * -(m / d) == -(d * (m / d));
    }
  }

  /** Halves go away from zero. */
  lemma RoundNearestOfHalf(z: int, d: int)
    requires d > 0
    ensures z >= 0 ==> 2 * (z - d * RoundNearest(z, d)) < d
    ensures z < 0 ==> 2 * (z - d * RoundNearest(z, d)) > -d
  {
    var half := d / 2;
    var m := (if z >= 0 then z else -z) + half;
    assert m == d * (m / d) + m % d;
    if z < 0 {
      assert d * -(m / d) == -(d * (m / d));
    }
  }

  function RoundedQuotient(x: EInt, y: EInt): EInt
    requires y.Norm() > 0
  {
    var num := x.Mul(y.Conjugate());
    EInt(RoundNearest(num.a0, y.Norm()), RoundNearest(num.a1, y.Norm()))
  }

  /** Rounding the two coordinates independently already shrinks the norm by 3/4. */
  lemma RoundedRemainderContracts(x: EInt, y: EInt)
    requires y.Norm() > 0
    ensures 4 * x.Sub(RoundedQuotient(x, y).Mul(y)).Norm() <= 3 * y.Norm()
  {
    var n, q := y.Norm(), RoundedQuotient(x, y);
    var r := x.Sub(q.Mul(y));
    var num := x.Mul(y.Conjugate());
    var e := r.Mul(y.Conjugate());
    assert e == EInt(num.a0 - n * q.a0, num.a1 - n * q.a1) by {
      MulDistributes(y.Conjugate(), x, q.Mul(y));
      MulAssociative(q, y, y.Conjugate());
      MulConjugate(y);
      MulCommutative(q, EInt(n, 0));
    }
    RoundNearestIsNearest(num.a0, n);
    RoundNearestIsNearest(num.a1, n);
    NormMultiplicative(r, y.Conjugate());
    MulConjugate(y);
    HexagonBound(e, n);
    assert 4 * (r.Norm() * n) <= 3 * (n * n);
    CancelScale(n, 4 * r.Norm(), 3 * n);
  }

  lemma HexagonBound(e: EInt, n: int)
    requires -n <= 2 * e.a0 <= n && -n <= 2 * e.a1 <= n
    ensures 4 * e.Norm() <= 3 * (n * n)
  {
    var s, t := 2 * e.a0, 2 * e.a1;
    assert 4 * e.Norm() == s * s + t * t - s * t;
    assert (n - s) * (n + s) >= 0 && (n - t) * (n + t) >= 0;
    assert (n - s) * (n + t) + (n + s) * (n - t) >= 0 by {
      assert (n - s) * (n + t) >= 0;
      assert (n + s) * (n - t) >= 0;
    }
    assert (n - s) * (n - t) + (n + s) * (n + t) >= 0 by {
      assert (n - s) * (n - t) >= 0;
      assert (n + s) * (n + t) >= 0;
    }
  }

  // ----- the correction loop -----

  /** The six directions the correction loop tries, in order. Two of them,
      (-1, 1) and (1, -1), have norm 3: they are not units of the ring. */
  function Neighbour(k: nat): EInt
    requires k < 6
  {
    match k
    case 0 => EInt(1, 0)
    case 1 => EInt(0, 1)
    case 2 => EInt(-1, 1)
    case 3 => EInt(-1, 0)
    case 4 => EInt(0, -1)
    case 5 => EInt(1, -1)
  }

  /** The unit the table misses. */
  const SIXTH_UNIT := EInt(1, 1)

  predicate NeighbourImproves(r: EInt, y: EInt, k: nat)
    requires k < 6
  {
    CandidateNorm(r, y, k) < r.Norm()
  }

  /** In coordinates e = r * conj(y) each comparison is linear in e. */
  lemma NeighbourTest(r: EInt, y: EInt, k: nat)
    requires k < 6
    ensures NeighbourImproves(r, y, k)
      <==> Trace(r.Mul(y.Conjugate()), Neighbour(k)) > Neighbour(k).Norm() * y.Norm()
  {
    StepNorm(r, y, Neighbour(k));
  }

  lemma StepNorm(r: EInt, y: EInt, u: EInt)
    ensures r.Sub(u.Mul(y)).Norm() == r.Norm() + u.Norm() * y.Norm() - Trace(r.Mul(y.Conjugate()), u)
  {
    var m := u.Mul(y).Neg();
    NormOfSum(r, m);
    NormMultiplicative(u, y);
    assert m.Norm() == u.Mul(y).Norm();
    assert r.Add(m) == r.Sub(u.Mul(y));
    assert Trace(r, m) == -Trace(r, u.Mul(y));
    assert Trace(r, u.Mul(y)) == Trace(r.Mul(y.Conjugate()), u);
  }

  /** The correction loop has no better neighbour to move to exactly when the
      remainder is plus or minus the missing unit times the divisor. */
  lemma SearchIsStuckExactly(r: EInt, y: EInt)
    requires r.Norm() >= y.Norm() > 0
    ensures (forall k :: 0 <= k < 6 ==> !NeighbourImproves(r, y, k))
      <==> (r == SIXTH_UNIT.Mul(y) || r == SIXTH_UNIT.Mul(y).Neg())
  {
    if forall k :: 0 <= k < 6 ==> !NeighbourImproves(r, y, k) {
      assert !NeighbourImproves(r, y, 0) && !NeighbourImproves(r, y, 3);
      assert !NeighbourImproves(r, y, 1) && !NeighbourImproves(r, y, 4);
      StuckRemainders(r, y);
    } else {
      var k :| 0 <= k < 6 && NeighbourImproves(r, y, k);
      if r == SIXTH_UNIT.Mul(y) || r == SIXTH_UNIT.Mul(y).Neg() {
        StuckAtSixthUnit(r, y, k);
      }
    }
  }

  lemma StuckAtSixthUnit(r: EInt, y: EInt, k: nat)
    requires k < 6
    requires r == SIXTH_UNIT.Mul(y) || r == SIXTH_UNIT.Mul(y).Neg()
    ensures !NeighbourImproves(r, y, k)
  {
    NormNonNegative(y);
    NeighbourTest(r, y, k);
    SixthUnitCoordinates(y);
    SixthUnitTraces(r.Mul(y.Conjugate()), y.Norm(), k);
  }

  lemma SixthUnitTraces(e: EInt, n: int, k: nat)
    requires k < 6 && n >= 0
    requires e == EInt(n, n) || e == EInt(-n, -n)
    ensures Trace(e, Neighbour(k)) <= Neighbour(k).Norm() * n
  {
  }

  lemma StuckRemainders(r: EInt, y: EInt)
    requires r.Norm() >= y.Norm() > 0
    requires !NeighbourImproves(r, y, 0) && !NeighbourImproves(r, y, 3)
    requires !NeighbourImproves(r, y, 1) && !NeighbourImproves(r, y, 4)
    ensures r == SIXTH_UNIT.Mul(y) || r == SIXTH_UNIT.Mul(y).Neg()
  {
    NotImproved(r, y, 0);
    NotImproved(r, y, 1);
    NotImproved(r, y, 3);
    NotImproved(r, y, 4);
    StuckCoordinates(r.Mul(y.Conjugate()), y.Norm());
    FarProduct(r, y);
    OnlyCornersAreFar(r.Mul(y.Conjugate()), y.Norm());
    DivideByConjugate(r, y);
  }

  lemma NotImproved(r: EInt, y: EInt, k: nat)
    requires k < 6 && !NeighbourImproves(r, y, k)
    ensures Trace(r.Mul(y.Conjugate()), Neighbour(k)) <= Neighbour(k).Norm() * y.Norm()
  {
    NeighbourTest(r, y, k);
  }

  lemma StuckCoordinates(e: EInt, n: int)
    requires Trace(e, Neighbour(0)) <= Neighbour(0).Norm() * n && Trace(e, Neighbour(3)) <= Neighbour(3).Norm() * n
    requires Trace(e, Neighbour(1)) <= Neighbour(1).Norm() * n && Trace(e, Neighbour(4)) <= Neighbour(4).Norm() * n
    ensures -n <= 2 * e.a0 - e.a1 <= n && -n <= 2 * e.a1 - e.a0 <= n
  {
  }

  lemma FarProduct(r: EInt, y: EInt)
    requires r.Norm() >= y.Norm() > 0
    ensures r.Mul(y.Conjugate()).Norm() >= y.Norm() * y.Norm()
  {
    NormMultiplicative(r, y.Conjugate());
    MulConjugate(y);
    ProductMonotone(y.Norm(), y.Norm(), r.Norm());
  }

  lemma SixthUnitCoordinates(y: EInt)
    ensures SIXTH_UNIT.Mul(y).Mul(y.Conjugate()) == EInt(y.Norm(), y.Norm())
    ensures SIXTH_UNIT.Mul(y).Neg().Mul(y.Conjugate()) == EInt(-y.Norm(), -y.Norm())
  {
  }

  lemma OnlyCornersAreFar(e: EInt, n: int)
    requires n > 0
    requires -n <= 2 * e.a0 - e.a1 <= n && -n <= 2 * e.a1 - e.a0 <= n
    requires e.Norm() >= n * n
    ensures e == EInt(n, n) || e == EInt(-n, -n)
  {
    var s, t := 2 * e.a0 - e.a1, 2 * e.a1 - e.a0;
    ThreeNorms(e);
    SquareWithin(s, n);
    SquareWithin(t, n);
    EqualWhenClose(s, t, n);
  }

  lemma ThreeNorms(e: EInt)
    ensures var s, t := 2 * e.a0 - e.a1, 2 * e.a1 - e.a0;
      3 * e.Norm() == s * s + t * t + s * t
  {
  }

  lemma SquareWithin(s: int, n: int)
    requires -n <= s <= n
    ensures s * s <= n * n
    ensures s * s == n * n ==> s == n || s == -n
  {
    assert (n - s) * (n + s) == n * n - s * s;
  }

  lemma EqualWhenClose(s: int, t: int, n: int)
    requires s * s <= n * n && t * t <= n * n && s * s + t * t + s * t >= 3 * (n * n)
    ensures s == t && s * s == n * n
  {
    assert (s - t) * (s - t) == s * s + t * t - 2 * (s * t);
    NonzeroSquare(s - t);
  }

  lemma NonzeroSquare(x: int)
    ensures x != 0 ==> x * x > 0
  {
  }

  lemma DivideByConjugate(r: EInt, y: EInt)
    requires y.Norm() > 0
    requires r.Mul(y.Conjugate()) == EInt(y.Norm(), y.Norm()) || r.Mul(y.Conjugate()) == EInt(-y.Norm(), -y.Norm())
    ensures r == SIXTH_UNIT.Mul(y) || r == SIXTH_UNIT.Mul(y).Neg()
  {
    var n, p := y.Norm(), r.Mul(y.Conjugate());
    MulAssociative(r, y.Conjugate(), y);
    MulConjugate(y);
    assert p.Mul(y) == EInt(r.a0 * n, r.a1 * n);
    var m := SIXTH_UNIT.Mul(y);
    if p == EInt(n, n) {
      assert p.Mul(y) == EInt(m.a0 * n, m.a1 * n);
      CancelEqual(r.a0, m.a0, n);
      CancelEqual(r.a1, m.a1, n);
    } else {
      assert p.Mul(y) == EInt(-m.a0 * n, -m.a1 * n);
      CancelEqual(r.a0, -m.a0, n);
      CancelEqual(r.a1, -m.a1, n);
    }
  }

  lemma CancelEqual(a: int, b: int, n: int)
    requires n > 0 && a * n == b * n
    ensures a == b
  {
  }

  function CandidateNorm(r: EInt, y: EInt, k: nat): int
    requires k < 6
  {
    r.Sub(Neighbour(k).Mul(y)).Norm()
  }

  lemma CandidateRemainder(x: EInt, q: EInt, r: EInt, y: EInt, k: nat)
    requires k < 6 && x == q.Mul(y).Add(r)
    ensures x == q.Add(Neighbour(k)).Mul(y).Add(x.Sub(q.Add(Neighbour(k)).Mul(y)))
    ensures x.Sub(q.Add(Neighbour(k)).Mul(y)).Norm() == CandidateNorm(r, y, k)
  {
    var u := Neighbour(k);
    assert x.Sub(q.Add(u).Mul(y)) == r.Sub(u.Mul(y));
  }

  method CandidateNormOf(x: EInt, q: EInt, ghost r: EInt, y: EInt, k: nat) returns (n: int)
    requires k < 6 && x == q.Mul(y).Add(r)
    ensures n == CandidateNorm(r, y, k)
  {
    CandidateRemainder(x, q, r, y, k);
    n := x.Sub(q.Add(Neighbour(k)).Mul(y)).Norm();
  }

  method FirstSmallest(norms: seq<int>, bound: int) returns (best: Option<nat>)
    ensures best.None? <==> forall j :: 0 <= j < |norms| ==> norms[j] >= bound
    ensures best.Some? ==> best.value < |norms| && norms[best.value] < bound
    ensures best.Some? ==> forall j :: 0 <= j < |norms| ==> norms[best.value] <= norms[j]
    ensures best.Some? ==> forall j :: 0 <= j < best.value ==> norms[best.value] < norms[j]
  {
    best := None;
    var bestNorm := bound;
    for k := 0 to |norms|
      invariant best.None? ==> bestNorm == bound
      invariant best.Some? ==> best.value < k && bestNorm == norms[best.value] < bound
      invariant forall j :: 0 <= j < k ==> bestNorm <= norms[j]
      invariant best.Some? ==> forall j :: 0 <= j < best.value ==> bestNorm < norms[j]
    {
      if norms[k] < bestNorm {
        best, bestNorm := Some(k), norms[k];
      }
    }
  }

  /** Step k of the table leaves the smallest norm, and no earlier one leaves the same. */
  ghost predicate IsFirstBest(r: EInt, y: EInt, table: seq<EInt>, k: nat)
    requires k < |table|
  {
    && (forall j :: 0 <= j < |table| ==> r.Sub(table[k].Mul(y)).Norm() <= r.Sub(table[j].Mul(y)).Norm())
    && (forall j :: 0 <= j < k ==> r.Sub(table[k].Mul(y)).Norm() < r.Sub(table[j].Mul(y)).Norm())
  }

  lemma TableIsLiteral(r: EInt, y: EInt, k: nat)
    requires k < 6 && forall j :: 0 <= j < 6 ==> CandidateNorm(r, y, k) <= CandidateNorm(r, y, j)
    requires forall j :: 0 <= j < k ==> CandidateNorm(r, y, k) < CandidateNorm(r, y, j)
    ensures IsFirstBest(r, y, [EInt(1, 0), EInt(0, 1), EInt(-1, 1), EInt(-1, 0), EInt(0, -1), EInt(1, -1)], k)
  {
    hide EInt.Norm, EInt.Mul, EInt.Sub;
    var table := [EInt(1, 0), EInt(0, 1), EInt(-1, 1), EInt(-1, 0), EInt(0, -1), EInt(1, -1)];
    forall j | 0 <= j < 6
      ensures table[j] == Neighbour(j) && CandidateNorm(r, y, j) == r.Sub(table[j].Mul(y)).Norm()
    {
    }
  }

  /** One lap of the correction loop: the best of the six neighbours, if any improves; the first
      of them where several are best. */
  method BestNeighbour(x: EInt, q: EInt, r: EInt, y: EInt) returns (best: Option<nat>)
    requires x == q.Mul(y).Add(r)
    ensures best.None? <==> forall k :: 0 <= k < 6 ==> !NeighbourImproves(r, y, k)
    ensures best.Some? ==> best.value < 6 && NeighbourImproves(r, y, best.value)
    ensures best.Some? ==> IsFirstBest(r, y, [EInt(1, 0), EInt(0, 1), EInt(-1, 1), EInt(-1, 0), EInt(0, -1), EInt(1, -1)], best.value)
  {
    hide EInt.Norm, EInt.Mul, EInt.Sub, CandidateNorm, IsFirstBest;
    var n0 := CandidateNormOf(x, q, r, y, 0);
    var n1 := CandidateNormOf(x, q, r, y, 1);
    var n2 := CandidateNormOf(x, q, r, y, 2);
    var n3 := CandidateNormOf(x, q, r, y, 3);
    var n4 := CandidateNormOf(x, q, r, y, 4);
    var n5 := CandidateNormOf(x, q, r, y, 5);
    var norms := [n0, n1, n2, n3, n4, n5];
    best := FirstSmallest(norms, r.Norm());
    assert forall k :: 0 <= k < 6 ==> (NeighbourImproves(r, y, k) <==> norms[k] < r.Norm());
    if best.Some? {
      assert forall k :: 0 <= k < 6 ==> norms[k] == CandidateNorm(r, y, k);
      TableIsLiteral(r, y, best.value);
    }
  }

  /** The while loop of quo_rem on its own, from any starting quotient. It fails
      (on a missing candidate) only at the one remainder the table cannot leave. */
  method CorrectQuotient(x: EInt, y: EInt, q0: EInt, r0: EInt) returns (res: Result<(EInt, EInt)>)
    requires !y.IsZero()
    requires x == q0.Mul(y).Add(r0)
    ensures r0.Norm() < y.Norm() ==> res == Ok((q0, r0))
    ensures res.Ok? ==> x == res.value.0.Mul(y).Add(res.value.1) && res.value.1.Norm() < y.Norm()
    ensures res.Err? ==> res.failure == AttributeError
    ensures res.Err? ==> exists q: EInt, r: EInt :: x == q.Mul(y).Add(r) && (r == SIXTH_UNIT.Mul(y) || r == SIXTH_UNIT.Mul(y).Neg())
  {
    NormNonNegative(y);
    var nrm := y.Norm();
    var q, r := q0, r0;
    while r.Norm() >= nrm
      invariant x == q.Mul(y).Add(r)
      invariant r0.Norm() < nrm ==> q == q0 && r == r0
      decreases r.Norm()
    {
      var best := BestNeighbour(x, q, r, y);
      if best.None? {
        SearchIsStuckExactly(r, y);
        return Err(AttributeError);
      }
      CandidateRemainder(x, q, r, y, best.value);
      q := q.Add(Neighbour(best.value));
      r := x.Sub(q.Mul(y));
    }
    return Ok((q, r));
  }

  /** Euclidean division: total for y != 0, with the quotient the rounding alone
      gives and a remainder of at most three quarters of the divisor's norm. */
  method QuoRem(x: EInt, y: EInt) returns (res: Result<(EInt, EInt)>)
    ensures y.IsZero() <==> res == Err(ZeroDivision)
    ensures !y.IsZero() ==> res.Ok?
    ensures res.Ok? ==> x == res.value.0.Mul(y).Add(res.value.1)
    ensures res.Ok? ==> 4 * res.value.1.Norm() <= 3 * y.Norm()
    ensures res.Ok? ==> y.Norm() > 0 && res.value.0 == RoundedQuotient(x, y)
  {
    if y.IsZero() {
      return Err(ZeroDivision);
    }
    NormNonNegative(y);
    var nrm := y.Norm();
    var num := x.Mul(y.Conjugate());
    var q := EInt(RoundNearest(num.a0, nrm), RoundNearest(num.a1, nrm));
    var r := x.Sub(q.Mul(y));
    RoundedRemainderContracts(x, y);
    res := CorrectQuotient(x, y, q, r);
  }
}
