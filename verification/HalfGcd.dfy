/** The truncated extended Euclidean algorithm over Z[w]. */
module HalfGcd {
  import opened IntMath
  import opened Results
  import opened Eisenstein

  /** The six variables of the loop: aRun = a*u + b*v and bRun = a*uNext + b*vNext. */
  datatype State = State(aRun: EInt, bRun: EInt, u: EInt, v: EInt, uNext: EInt, vNext: EInt)

  /** One division step, for a given quotient and remainder. */
  function Step(s: State, q: EInt, r: EInt): State {
    State(s.bRun, r, s.uNext, s.vNext, s.u.Sub(q.Mul(s.uNext)), s.v.Sub(q.Mul(s.vNext)))
  }

  ghost predicate Combines(s: State, a: EInt, b: EInt) {
    && s.aRun == a.Mul(s.u).Add(b.Mul(s.v))
    && s.bRun == a.Mul(s.uNext).Add(b.Mul(s.vNext))
  }

  function Det(s: State): EInt {
    s.u.Mul(s.vNext).Sub(s.uNext.Mul(s.v))
  }

  ghost predicate Unimodular(s: State) {
    Det(s) == ONE || Det(s) == ONE.Neg()
  }

  lemma StepCombines(s: State, a: EInt, b: EInt, q: EInt, r: EInt)
    requires Combines(s, a, b) && s.aRun == q.Mul(s.bRun).Add(r)
    ensures Combines(Step(s, q, r), a, b)
  {
    CombineStep(a, b, q, s.u, s.v, s.uNext, s.vNext);
    assert r == s.aRun.Sub(q.Mul(s.bRun));
  }

  lemma CombineStep(a: EInt, b: EInt, q: EInt, u: EInt, v: EInt, u': EInt, v': EInt)
    ensures a.Mul(u).Add(b.Mul(v)).Sub(q.Mul(a.Mul(u').Add(b.Mul(v'))))
         == a.Mul(u.Sub(q.Mul(u'))).Add(b.Mul(v.Sub(q.Mul(v'))))
  {
    MulDistributes(q, a.Mul(u'), b.Mul(v'));
    MulDistributes(a, u, q.Mul(u'));
    MulDistributes(b, v, q.Mul(v'));
    SwapFactors(q, a, u');
    SwapFactors(q, b, v');
  }

  lemma SwapFactors(x: EInt, y: EInt, z: EInt)
    ensures x.Mul(y.Mul(z)) == y.Mul(x.Mul(z))
  {
    MulAssociative(x, y, z);
    MulAssociative(y, x, z);
    MulCommutative(x, y);
  }

  lemma StepFlipsDet(s: State, q: EInt, r: EInt)
    ensures Det(Step(s, q, r)) == Det(s).Neg()
  {
    var p, w := q.Mul(s.uNext), q.Mul(s.vNext);
    MulDistributes(s.uNext, s.v, w);
    MulDistributes(s.vNext, s.u, p);
    assert s.uNext.Mul(w) == p.Mul(s.vNext) by {
      SwapFactors(s.uNext, q, s.vNext);
      MulAssociative(q, s.uNext, s.vNext);
    }
    MulCommutative(s.uNext, s.v);
  }

  // ----- the cofactor bound -----

  /** The state stays inside the region that keeps the cofactor of b short,
      however long b was. */
  ghost predicate CofactorSmall(s: State, a: EInt) {
    && s.vNext.Norm() * s.aRun.Norm() <= 16 * a.Norm()
    && (s.vNext.Norm() * s.bRun.Norm() <= 12 * a.Norm() || Starts(s, a))
  }

  ghost predicate Starts(s: State, a: EInt) {
    s.aRun == a && s.v == ZERO && s.vNext == ONE
  }

  /** a_run * v_next - b_run * v is plus or minus a. */
  lemma CrossProduct(s: State, a: EInt, b: EInt)
    requires Combines(s, a, b)
    ensures s.aRun.Mul(s.vNext).Sub(s.bRun.Mul(s.v)) == a.Mul(Det(s))
  {
    CrossExpand(a, b, s.u, s.v, s.uNext, s.vNext);
  }

  lemma CrossExpand(a: EInt, b: EInt, u: EInt, v: EInt, u': EInt, v': EInt)
    ensures a.Mul(u).Add(b.Mul(v)).Mul(v').Sub(a.Mul(u').Add(b.Mul(v')).Mul(v))
         == a.Mul(u.Mul(v').Sub(u'.Mul(v)))
  {
    DistributeRight(a.Mul(u), b.Mul(v), v');
    DistributeRight(a.Mul(u'), b.Mul(v'), v);
    MulAssociative(a, u, v');
    MulAssociative(a, u', v);
    MulAssociative(b, v, v');
    MulAssociative(b, v', v);
    MulCommutative(v, v');
    MulDistributes(a, u.Mul(v'), u'.Mul(v));
  }

  lemma DistributeRight(x: EInt, y: EInt, z: EInt)
    ensures x.Add(y).Mul(z) == x.Mul(z).Add(y.Mul(z))
  {
  }

  lemma UnitKeepsNorm(a: EInt, d: EInt)
    requires d == ONE || d == ONE.Neg()
    ensures a.Mul(d).Norm() == a.Norm()
  {
  }

  lemma ScaleBound(v: int, r: int, c: int, bound: int)
    requires v >= 0 && 4 * r <= 3 * c && v * c <= bound
    ensures 4 * (v * r) <= 3 * bound
  {
    assert v * (4 * r) <= v * (3 * c);
  }

  /** Once |v_next * b_run| is moderate, the next cofactor is short: this is where
      the contraction by 3/4 pays for the addition. */
  lemma OrdinaryStepBound(s: State, a: EInt, b: EInt, q: EInt, r: EInt)
    requires Combines(s, a, b) && Unimodular(s)
    requires s.aRun == q.Mul(s.bRun).Add(r) && 4 * r.Norm() <= 3 * s.bRun.Norm()
    requires s.vNext.Norm() * s.bRun.Norm() <= 12 * a.Norm()
    ensures Step(s, q, r).vNext.Norm() * s.bRun.Norm() <= 16 * a.Norm()
    ensures Step(s, q, r).vNext.Norm() * r.Norm() <= 12 * a.Norm()
  {
    var t := Step(s, q, r);
    StepCombines(s, a, b, q, r);
    StepFlipsDet(s, q, r);
    CrossProduct(t, a, b);
    UnitKeepsNorm(a, Det(t));
    NormNonNegative(s.vNext);
    NormNonNegative(t.vNext);
    ScaleBound(s.vNext.Norm(), r.Norm(), s.bRun.Norm(), 12 * a.Norm());
    NormMultiplicative(r, s.vNext);
    TriangleForProduct(a.Mul(Det(t)), r.Mul(s.vNext), t.aRun.Mul(t.vNext), a.Norm());
    NormMultiplicative(t.aRun, t.vNext);
    ScaleBound(t.vNext.Norm(), r.Norm(), s.bRun.Norm(), 16 * a.Norm());
  }

  lemma TriangleForProduct(x: EInt, y: EInt, z: EInt, n: int)
    requires z.Sub(y) == x && x.Norm() == n && y.Norm() <= 9 * n
    ensures z.Norm() <= 16 * n
  {
    NormTriangle(x, y);
    assert x.Add(y) == z;
  }

  /** A first divisor much longer than a only swaps the operands. */
  lemma LongDivisorGivesZeroQuotient(a: EInt, b: EInt)
    requires b.Norm() > 12 * a.Norm()
    ensures b.Norm() > 0 && RoundedQuotient(a, b) == ZERO
  {
    NormNonNegative(a);
    LongDivisorCoordinates(a, b);
    RoundsToZero(a.Mul(b.Conjugate()).a0, b.Norm());
    RoundsToZero(a.Mul(b.Conjugate()).a1, b.Norm());
  }

  lemma LongDivisorCoordinates(a: EInt, b: EInt)
    requires 0 <= 12 * a.Norm() < b.Norm()
    ensures var num, n := a.Mul(b.Conjugate()), b.Norm();
      9 * (num.a0 * num.a0) <= n * n && 9 * (num.a1 * num.a1) <= n * n
  {
    var num := a.Mul(b.Conjugate());
    NormMultiplicative(a, b.Conjugate());
    MulConjugate(b);
    NormBoundsCoordinates(num);
    ScaleByLongNorm(num.a0, a.Norm(), b.Norm());
    ScaleByLongNorm(num.a1, a.Norm(), b.Norm());
  }

  lemma ScaleByLongNorm(z: int, m: int, n: int)
    requires 0 <= 12 * m < n && 3 * (z * z) <= 4 * (m * n)
    ensures 9 * (z * z) <= n * n
  {
    assert 12 * (m * n) == (12 * m) * n <= n * n;
  }

  lemma RoundsToZero(z: int, n: int)
    requires n > 0 && 9 * (z * z) <= n * n
    ensures RoundNearest(z, n) == 0
  {
    var m := Abs(z);
    assert (3 * m) * (3 * m) == 9 * (z * z);
    if 3 * m >= n + 1 {
      SquareMonotone(n + 1, 3 * m);
    }
    SmallQuotient(m + n / 2, n);
  }

  lemma SmallQuotient(m: int, n: int)
    requires 0 <= m < n
    ensures m / n == 0
  {
  }

  lemma ZeroQuotientStep(v: EInt, v': EInt, q: EInt)
    requires q == ZERO && v == ZERO
    ensures v.Sub(q.Mul(v')) == ZERO
  {
  }

  lemma ZeroCofactorIsSmall(t: State, a: EInt)
    requires t.vNext == ZERO
    ensures CofactorSmall(t, a)
  {
    NormNonNegative(a);
    ZeroNormProduct(t.vNext, t.aRun.Norm(), a.Norm());
    ZeroNormProduct(t.vNext, t.bRun.Norm(), a.Norm());
  }

  lemma ZeroNormProduct(z: EInt, x: int, m: int)
    requires z == ZERO && m >= 0
    ensures z.Norm() * x <= 12 * m
  {
    NormNonNegative(z);
    ZeroProductBound(z.Norm(), x, m);
  }

  lemma ZeroProductBound(n: int, x: int, m: int)
    requires n == 0 && m >= 0
    ensures n * x <= 12 * m
  {
  }

  lemma StepKeepsCofactorSmall(s: State, a: EInt, b: EInt, q: EInt, r: EInt)
    requires Combines(s, a, b) && Unimodular(s) && CofactorSmall(s, a)
    requires s.aRun == q.Mul(s.bRun).Add(r) && 4 * r.Norm() <= 3 * s.bRun.Norm()
    requires s.bRun.Norm() > 0 && q == RoundedQuotient(s.aRun, s.bRun)
    ensures CofactorSmall(Step(s, q, r), a)
  {
    if s.vNext.Norm() * s.bRun.Norm() <= 12 * a.Norm() {
      OrdinaryStepBound(s, a, b, q, r);
    } else {
      StartsWithLongDivisor(s, a, q);
      ZeroQuotientStep(s.v, s.vNext, q);
      ZeroCofactorIsSmall(Step(s, q, r), a);
    }
  }

  lemma StartsWithLongDivisor(s: State, a: EInt, q: EInt)
    requires Starts(s, a) && s.vNext.Norm() * s.bRun.Norm() > 12 * a.Norm()
    requires s.bRun.Norm() > 0 && q == RoundedQuotient(s.aRun, s.bRun)
    ensures q == ZERO
  {
    assert ONE.Norm() == 1;
    LongDivisorGivesZeroQuotient(a, s.bRun);
  }

  // ----- termination -----

  /** A norm n, shrunk by 3/4 at each of `steps` divisions, is below 1. */
  ghost predicate Converges(n: int, steps: nat) {
    Pow(3, steps) * n < Pow(4, steps)
  }

  lemma ContractOnce(p4: nat, p3: nat, n: int, n': int, b: int)
    requires p4 * n <= p3 * b && 4 * n' <= 3 * n
    ensures (4 * p4) * n' <= (3 * p3) * b
  {
    assert p4 * (4 * n') <= p4 * (3 * n);
  }

  lemma NotYetConverged(p4: nat, p3: nat, n: int, b: int)
    requires p4 * n <= p3 * b && n >= 1
    ensures p3 * b >= p4
  {
    assert p4 * n >= p4;
  }

  lemma {:induction false} FifthPowers(k: nat)
    ensures Pow(3, 5 * k) * Pow(4, k) <= Pow(4, 5 * k)
  {
    if k > 0 {
      FifthPowers(k - 1);
      FivePowerSteps(3, 5 * (k - 1));
      FivePowerSteps(4, 5 * (k - 1));
      var a, b, c := Pow(3, 5 * (k - 1)), Pow(4, k - 1), Pow(4, 5 * (k - 1));
      assert (243 * a) * (4 * b) == 972 * (a * b);
    }
  }

  lemma FivePowerSteps(b: nat, e: nat)
    ensures Pow(b, e + 5) == b * (b * (b * (b * (b * Pow(b, e)))))
  {
    assert Pow(b, e + 5) == b * Pow(b, e + 4);
    assert Pow(b, e + 4) == b * Pow(b, e + 3);
    assert Pow(b, e + 3) == b * Pow(b, e + 2);
    assert Pow(b, e + 2) == b * Pow(b, e + 1);
  }

  lemma {:induction false} MoreStepsConverge(n: nat, i: nat, j: nat)
    requires i <= j && Converges(n, i)
    ensures Converges(n, j)
  {
    if i < j {
      MoreStepsConverge(n, i, j - 1);
      TripleBelowQuadruple(Pow(3, j - 1), Pow(4, j - 1), n);
    }
  }

  lemma TripleBelowQuadruple(p3: nat, p4: nat, n: int)
    requires n >= 0 && p3 * n < p4
    ensures (3 * p3) * n < 4 * p4
  {
    assert (3 * p3) * n == 3 * (p3 * n);
  }

  /** Five steps divide the norm by more than four: every norm below 4^k is
      exhausted within 5k steps. */
  lemma SmallNormConverges(n: nat, k: nat, steps: nat)
    requires n < Pow(4, k) && 5 * k <= steps
    ensures Converges(n, steps)
  {
    FifthPowers(k);
    PowPositive(3, 5 * k);
    ProductBelow(Pow(3, 5 * k), n, Pow(4, k));
    MoreStepsConverge(n, 5 * k, steps);
  }

  lemma ProductBelow(p: nat, n: int, m: int)
    requires p > 0 && n < m
    ensures p * n < p * m
  {
  }

  lemma {:induction false} PowPositive(b: nat, e: nat)
    requires b > 0
    ensures Pow(b, e) > 0
  {
    if e > 0 {
      PowPositive(b, e - 1);
    }
  }

  // ----- the algorithm -----

  const MAX_STEPS: nat := 200_000

  datatype Hint = Hint(w: EInt, v: EInt, u: EInt)

  ghost predicate Coprime(x: EInt, y: EInt) {
    exists s: EInt, t: EInt :: s.Mul(x).Sub(y.Mul(t)) == ONE
  }

  /** What the loop guarantees for an arbitrary exit threshold. */
  ghost predicate ExitsBelow(h: Hint, a: EInt, b: EInt, limit: nat) {
    && h.w == a.Mul(h.u).Add(b.Mul(h.v))
    && Coprime(h.v, h.u)
    && (h.w.Norm() < limit || h.w.IsZero())
    && h.v.Norm() * limit <= 16 * a.Norm()
    && (h.w.Norm() < a.Norm() ==> !h.v.IsZero())
  }

  ghost predicate IsHalfGcd(h: Hint, a: EInt, b: EInt) {
    && ExitsBelow(h, a, b, Isqrt(NormOf(a)))
    && (a.IsZero() ==> h.w.IsZero())
    && (!a.IsZero() ==> h.w.Norm() < Isqrt(NormOf(a)) && !h.v.IsZero())
  }

  function NormOf(a: EInt): (n: nat)
    ensures n == a.Norm()
  {
    NormNonNegative(a);
    a.Norm()
  }

  function Initial(a: EInt, b: EInt): State {
    State(a, b, ONE, ZERO, ZERO, ONE)
  }

  lemma InitialState(a: EInt, b: EInt)
    ensures Combines(Initial(a, b), a, b)
    ensures Unimodular(Initial(a, b))
  {
    IdentityCombinations(a, b);
    IdentityDet(ONE, ZERO, ZERO);
  }

  lemma IdentityCombinations(a: EInt, b: EInt)
    ensures a.Mul(ONE).Add(b.Mul(ZERO)) == a && a.Mul(ZERO).Add(b.Mul(ONE)) == b
  {
  }

  lemma IdentityDet(o: EInt, x: EInt, z: EInt)
    requires o == ONE && z == ZERO
    ensures o.Mul(o).Sub(x.Mul(z)) == ONE
  {
  }

  lemma InitialCofactor(a: EInt, b: EInt)
    ensures CofactorSmall(Initial(a, b), a)
  {
    NormNonNegative(a);
    UnitNorms(ONE);
    OneTimes(ONE.Norm(), a.Norm());
  }

  lemma OneTimes(x: int, n: int)
    requires x == 1 && n >= 0
    ensures x * n <= 16 * n
  {
  }

  lemma IsqrtIsSmaller(n: nat)
    ensures Isqrt(n) <= n
    ensures n > 0 ==> Isqrt(n) > 0
  {
    var s := Isqrt(n);
    assert s <= s * s;
  }

  lemma UnimodularIsCoprime(s: State)
    requires Unimodular(s)
    ensures Coprime(s.vNext, s.uNext)
  {
    if Det(s) == ONE {
      assert s.u.Mul(s.vNext).Sub(s.uNext.Mul(s.v)) == ONE;
    } else {
      NegatedDet(s.u, s.v, s.uNext, s.vNext);
      assert s.u.Neg().Mul(s.vNext).Sub(s.uNext.Mul(s.v.Neg())) == ONE;
    }
  }

  lemma NegatedDet(u: EInt, v: EInt, u': EInt, v': EInt)
    ensures u.Neg().Mul(v').Sub(u'.Mul(v.Neg())) == u.Mul(v').Sub(u'.Mul(v)).Neg()
  {
  }

  /** If the cofactor of b vanished, w would be a times a unit: not short. */
  lemma ZeroCofactorIsLong(s: State, a: EInt, b: EInt)
    requires Combines(s, a, b) && Unimodular(s)
    requires s.vNext.IsZero()
    ensures s.bRun.Norm() == a.Norm()
  {
    assert s.vNext == ZERO;
    ZeroFactor(b, s.u);
    assert s.bRun == a.Mul(s.uNext);
    NormMultiplicative(a, s.uNext);
    assert s.uNext.Mul(s.v).Norm() == 1 by {
      assert Det(s) == s.uNext.Mul(s.v).Neg();
      NegKeepsNorm(s.uNext.Mul(s.v));
      UnitNorms(Det(s));
    }
    NormMultiplicative(s.uNext, s.v);
    NormNonNegative(s.uNext);
    NormNonNegative(s.v);
    FactorOfOne(s.uNext.Norm(), s.v.Norm());
  }

  lemma ZeroFactor(b: EInt, u: EInt)
    ensures b.Mul(ZERO) == ZERO && u.Mul(ZERO) == ZERO
  {
  }

  lemma NegKeepsNorm(x: EInt)
    ensures x.Neg().Norm() == x.Norm()
  {
  }

  lemma UnitNorms(d: EInt)
    requires d == ONE || d == ONE.Neg()
    ensures d.Norm() == 1
  {
  }

  lemma FactorOfOne(x: int, y: int)
    requires x >= 0 && y >= 0 && x * y == 1
    ensures x == 1
  {
  }

  lemma ShortRemainderHasCofactor(s: State, a: EInt, b: EInt)
    requires Combines(s, a, b) && Unimodular(s)
    requires s.bRun.Norm() < a.Norm()
    ensures !s.vNext.IsZero()
  {
    if s.vNext.IsZero() {
      ZeroCofactorIsLong(s, a, b);
    }
  }

  lemma CofactorBound(s: State, a: EInt, limit: nat)
    requires CofactorSmall(s, a) && s.aRun.Norm() >= limit
    ensures s.vNext.Norm() * limit <= 16 * a.Norm()
  {
    NormNonNegative(s.vNext);
    ProductMonotone(s.vNext.Norm(), limit, s.aRun.Norm());
  }

  lemma FinalState(s: State, a: EInt, b: EInt, limit: nat)
    requires Combines(s, a, b) && Unimodular(s) && CofactorSmall(s, a)
    requires s.aRun.Norm() >= limit
    requires s.bRun.Norm() < limit || s.bRun.IsZero()
    ensures ExitsBelow(Hint(s.bRun, s.vNext, s.uNext), a, b, limit)
  {
    UnimodularIsCoprime(s);
    CofactorBound(s, a, limit);
    if s.bRun.Norm() < a.Norm() {
      ShortRemainderHasCofactor(s, a, b);
    }
  }

  /** n is what is left of m after k contractions by 3/4. */
  ghost predicate Contracted(n: int, m: int, k: nat) {
    Pow(4, k) * n <= Pow(3, k) * m
  }

  lemma ContractedForever(n: int, m: int, k: nat)
    requires n == 0 && m >= 0
    ensures Contracted(n, m, k)
  {
  }

  lemma ContractedStep(n: int, n': int, m: int, k: nat)
    requires Contracted(n, m, k) && 4 * n' <= 3 * n
    ensures Contracted(n', m, k + 1)
  {
    ContractOnce(Pow(4, k), Pow(3, k), n, n', m);
  }

  /** One lap of the loop. */
  function Next(s: State): State
    requires s.bRun.Norm() > 0
  {
    var q := RoundedQuotient(s.aRun, s.bRun);
    Step(s, q, s.aRun.Sub(q.Mul(s.bRun)))
  }

  lemma NextKeepsInvariants(s: State, a: EInt, b: EInt)
    requires Combines(s, a, b) && Unimodular(s) && CofactorSmall(s, a)
    requires s.bRun.Norm() > 0
    ensures Combines(Next(s), a, b) && Unimodular(Next(s)) && CofactorSmall(Next(s), a)
    ensures 4 * Next(s).bRun.Norm() <= 3 * s.bRun.Norm()
  {
    var q := RoundedQuotient(s.aRun, s.bRun);
    var r := s.aRun.Sub(q.Mul(s.bRun));
    RoundedRemainderContracts(s.aRun, s.bRun);
    StepCombines(s, a, b, q, r);
    StepFlipsDet(s, q, r);
    StepKeepsCofactorSmall(s, a, b, q, r);
  }

  /** The state after k laps without an exit. */
  ghost function StateAt(a: EInt, b: EInt, k: nat): State {
    if k == 0 then Initial(a, b) else
      var s := StateAt(a, b, k - 1);
      if s.bRun.Norm() > 0 then Next(s) else s
  }

  ghost predicate Sound(s: State, a: EInt, b: EInt) {
    Combines(s, a, b) && Unimodular(s) && CofactorSmall(s, a)
  }

  lemma InitialIsSound(a: EInt, b: EInt)
    ensures Sound(Initial(a, b), a, b)
  {
    InitialState(a, b);
    InitialCofactor(a, b);
  }

  /** Every state of every run keeps all the invariants. */
  lemma {:induction false} EveryStateIsSound(a: EInt, b: EInt, k: nat)
    ensures Sound(StateAt(a, b, k), a, b)
  {
    if k == 0 {
      InitialIsSound(a, b);
    } else {
      EveryStateIsSound(a, b, k - 1);
      if StateAt(a, b, k - 1).bRun.Norm() > 0 {
        NextKeepsInvariants(StateAt(a, b, k - 1), a, b);
      }
    }
  }

  lemma {:induction false} EveryStateIsContracted(a: EInt, b: EInt, k: nat)
    ensures Contracted(NormOf(StateAt(a, b, k).bRun), NormOf(b), k)
  {
    hide EInt.Norm, EInt.Mul, Pow, Step;
    if k == 0 {
      NothingContracted(NormOf(b));
    } else {
      EveryStateIsContracted(a, b, k - 1);
      EveryStateIsSound(a, b, k - 1);
      NextIsContracted(StateAt(a, b, k - 1), a, b, NormOf(b), k - 1);
    }
  }

  lemma NothingContracted(m: int)
    ensures Contracted(m, m, 0)
  {
  }

  lemma NextIsContracted(s: State, a: EInt, b: EInt, m: nat, k: nat)
    requires Sound(s, a, b) && Contracted(NormOf(s.bRun), m, k)
    ensures s.bRun.Norm() > 0 ==> Contracted(NormOf(Next(s).bRun), m, k + 1)
    ensures s.bRun.Norm() <= 0 ==> Contracted(NormOf(s.bRun), m, k + 1)
  {
    if s.bRun.Norm() > 0 {
      NextKeepsInvariants(s, a, b);
      ContractedStep(NormOf(s.bRun), NormOf(Next(s).bRun), m, k);
    } else {
      ContractedForever(NormOf(s.bRun), m, k + 1);
    }
  }

  /** However long b is, two laps bring the remainder down to the size of a. */
  lemma TwoLapsForgetB(a: EInt, b: EInt)
    ensures Contracted(NormOf(StateAt(a, b, 2).bRun), 12 * NormOf(a), 0)
  {
    hide EInt.Norm, EInt.Mul, Pow, Step, RoundedQuotient, Sound;
    NormsShrink(a, b, 0);
    NormsShrink(a, b, 1);
    assert StateAt(a, b, 0) == Initial(a, b);
    if NormOf(b) > 12 * NormOf(a) {
      SwapFirst(a, b);
    }
    NothingContractedBelow(NormOf(StateAt(a, b, 2).bRun), 12 * NormOf(a));
  }

  lemma NothingContractedBelow(n: nat, m: nat)
    requires n <= m
    ensures Contracted(n, m, 0)
  {
  }

  lemma NormsShrink(a: EInt, b: EInt, k: nat)
    ensures NormOf(StateAt(a, b, k + 1).bRun) <= NormOf(StateAt(a, b, k).bRun)
  {
    hide EInt.Mul;
    EveryStateIsSound(a, b, k);
    var s := StateAt(a, b, k);
    if s.bRun.Norm() > 0 {
      NextKeepsInvariants(s, a, b);
    }
  }

  lemma SwapFirst(a: EInt, b: EInt)
    requires NormOf(b) > 12 * NormOf(a)
    ensures StateAt(a, b, 1).bRun == a
  {
    LongDivisorGivesZeroQuotient(a, b);
    ZeroTimes(a, b);
    assert Next(Initial(a, b)).bRun == a;
  }

  lemma ZeroTimes(a: EInt, b: EInt)
    ensures a.Sub(ZERO.Mul(b)) == a
  {
  }

  lemma {:induction false} EveryStateIsContractedFromA(a: EInt, b: EInt, k: nat)
    ensures Contracted(NormOf(StateAt(a, b, k + 2).bRun), 12 * NormOf(a), k)
  {
    hide EInt.Norm, EInt.Mul, Pow, Step, Sound, Next;
    if k == 0 {
      TwoLapsForgetB(a, b);
    } else {
      EveryStateIsContractedFromA(a, b, k - 1);
      EveryStateIsSound(a, b, k + 1);
      NextIsContracted(StateAt(a, b, k + 1), a, b, 12 * NormOf(a), k - 1);
    }
  }

  method Divide(s: State) returns (t: State)
    requires s.bRun.Norm() > 0
    ensures t == Next(s)
    ensures t.aRun == s.bRun
  {
    ZeroIsExactly(s.bRun);
    var division := QuoRem(s.aRun, s.bRun);
    var q, r := division.value.0, division.value.1;
    RemainderIsDifference(s.aRun, q, s.bRun, r);
    t := Step(s, q, r);
  }

  lemma RemainderIsDifference(x: EInt, q: EInt, y: EInt, r: EInt)
    requires x == q.Mul(y).Add(r)
    ensures r == x.Sub(q.Mul(y))
  {
  }

  /** The exit test of the loop. */
  predicate IsShort(s: State, limit: nat) {
    s.bRun.Norm() < limit || s.bRun.IsZero()
  }

  lemma ExitState(a: EInt, b: EInt, k: nat, limit: nat)
    requires StateAt(a, b, k).aRun.Norm() >= limit && IsShort(StateAt(a, b, k), limit)
    ensures var s := StateAt(a, b, k); ExitsBelow(Hint(s.bRun, s.vNext, s.uNext), a, b, limit)
  {
    EveryStateIsSound(a, b, k);
    FinalState(StateAt(a, b, k), a, b, limit);
  }

  lemma StillLong(a: EInt, b: EInt, k: nat, limit: nat)
    requires !IsShort(StateAt(a, b, k), limit)
    ensures StateAt(a, b, k).bRun.Norm() > 0 && StateAt(a, b, k).bRun.Norm() >= limit
    ensures StateAt(a, b, k + 1) == Next(StateAt(a, b, k))
    ensures !Converges(NormOf(b), k)
    ensures k >= 2 ==> !Converges(12 * NormOf(a), k - 2)
  {
    hide EInt.Norm, EInt.Mul, Pow, Next;
    EveryStateIsContracted(a, b, k);
    var n := NormOf(StateAt(a, b, k).bRun);
    ZeroIsExactly(StateAt(a, b, k).bRun);
    NotYetConverged(Pow(4, k), Pow(3, k), n, NormOf(b));
    if k >= 2 {
      EveryStateIsContractedFromA(a, b, k - 2);
      NotYetConverged(Pow(4, k - 2), Pow(3, k - 2), n, 12 * NormOf(a));
    }
  }

  /** The hint is read off the first short state. */
  ghost predicate IsFirstShort(h: Hint, a: EInt, b: EInt, limit: nat, k: nat) {
    && IsShort(StateAt(a, b, k), limit) && (forall j: nat :: j < k ==> !IsShort(StateAt(a, b, j), limit))
    && h == Hint(StateAt(a, b, k).bRun, StateAt(a, b, k).vNext, StateAt(a, b, k).uNext)
  }

  lemma FirstShort(a: EInt, b: EInt, k: nat, limit: nat)
    requires IsShort(StateAt(a, b, k), limit) && forall j: nat :: j < k ==> !IsShort(StateAt(a, b, j), limit)
    ensures var s := StateAt(a, b, k); IsFirstShort(Hint(s.bRun, s.vNext, s.uNext), a, b, limit, k)
  {
  }

  lemma FirstState(a: EInt, b: EInt)
    ensures StateAt(a, b, 0) == Initial(a, b) && Initial(a, b).aRun == a
  {
  }

  /** The loop: at most `maxSteps` checks of the exit test. */
  method Run(a: EInt, b: EInt, limit: nat, maxSteps: nat) returns (res: Result<Hint>)
    requires maxSteps > 2 && limit <= a.Norm()
    ensures res.Err? <==> forall k: nat :: k < maxSteps ==> !IsShort(StateAt(a, b, k), limit)
    ensures res.Ok? ==> ExitsBelow(res.value, a, b, limit) && exists k: nat :: k < maxSteps && IsFirstShort(res.value, a, b, limit, k)
    ensures res.Err? ==> res.failure == RuntimeError
    ensures res.Err? ==> !Converges(NormOf(b), maxSteps - 1) && !Converges(12 * NormOf(a), maxSteps - 3)
  {
    hide *;
    var s := Initial(a, b);
    FirstState(a, b);
    for k := 0 to maxSteps
      invariant s == StateAt(a, b, k)
      invariant s.aRun.Norm() >= limit
      invariant k > 0 ==> !Converges(NormOf(b), k - 1)
      invariant k > 2 ==> !Converges(12 * NormOf(a), k - 3)
      invariant forall j: nat :: j < k ==> !IsShort(StateAt(a, b, j), limit)
    {
      if IsShort(s, limit) {
        ExitState(a, b, k, limit);
        FirstShort(a, b, k, limit);
        return Ok(Hint(s.bRun, s.vNext, s.uNext));
      }
      StillLong(a, b, k, limit);
      s := Divide(s);
    }
    return Err(RuntimeError);
  }

  lemma RootOfNorm(a: EInt, limit: nat)
    requires limit == Isqrt(NormOf(a))
    ensures limit <= a.Norm()
    ensures limit == 0 <==> a.IsZero()
  {
    IsqrtIsSmaller(NormOf(a));
    ZeroIsExactly(a);
  }

  lemma ShortIsBelowNorm(w: EInt, a: EInt, limit: nat)
    requires limit <= a.Norm() && (limit == 0 <==> a.IsZero())
    requires w.Norm() < limit || w.IsZero()
    ensures a.IsZero() ==> w.IsZero()
    ensures !a.IsZero() ==> w.Norm() < limit && w.Norm() < a.Norm()
  {
    hide *;
    NormNonNegative(w);
  }

  lemma ExitIsHalfGcd(h: Hint, a: EInt, b: EInt)
    requires ExitsBelow(h, a, b, Isqrt(NormOf(a)))
    ensures IsHalfGcd(h, a, b)
  {
    hide EInt.Norm, EInt.Mul, Isqrt, Coprime;
    RootOfNorm(a, Isqrt(NormOf(a)));
    ShortIsBelowNorm(h.w, a, Isqrt(NormOf(a)));
  }

  lemma ZeroIsExactly(x: EInt)
    ensures x.IsZero() <==> NormOf(x) == 0
  {
    NormNonNegative(x);
  }

  /** half_gcd(a, b). The guard against 200000 laps is unreachable for every b whose
      norm 199999 contractions by 3/4 bring below one and, whatever b is, for every
      a for which 199997 contractions do the same to twelve times its norm. */
  method TruncatedGcd(a: EInt, b: EInt) returns (res: Result<Hint>)
    ensures res.Err? <==> forall k: nat :: k < 200_000 ==> !IsShort(StateAt(a, b, k), Isqrt(NormOf(a)))
    ensures res.Ok? ==> exists k: nat :: k < 200_000 && IsFirstShort(res.value, a, b, Isqrt(NormOf(a)), k)
    ensures res.Ok? ==> IsHalfGcd(res.value, a, b)
    ensures res.Err? ==> res.failure == RuntimeError
    ensures res.Err? ==> !Converges(NormOf(b), MAX_STEPS - 1) && !Converges(12 * NormOf(a), MAX_STEPS - 3)
  {
    hide EInt.Norm, EInt.Mul, Isqrt, ExitsBelow, Converges, StateAt, IsShort, IsFirstShort, IsHalfGcd;
    var limit := Isqrt(NormOf(a));
    RootOfNorm(a, limit);
    res := Run(a, b, limit, MAX_STEPS);
    if res.Ok? {
      ExitIsHalfGcd(res.value, a, b);
    }
  }
}
