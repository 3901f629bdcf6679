/** Polynomials up to trailing zeros form a ring: canonical coefficient lists, on which equal
    polynomials are equal, with the ring laws, degrees of products, division and roots. */
module PolynomialRing {
  import opened Fields
  import Groups
  import opened PolynomialAlgorithms
  import opened Polynomials

  // ----- canonical lists -----

  /** The coefficients up to the leading one; [] for zero. */
  function Canon<F(==, !new)>(f: Field<F>, p: seq<F>): (c: seq<F>)
    ensures Same(f, c, p)
  {
    p[..Degree(f, p) + 1]
  }

  predicate IsCanon<F(==, !new)>(f: Field<F>, p: seq<F>) {
    Canon(f, p) == p
  }

  /** Same polynomials have the same canonical list, which is canonical. */
  lemma CanonIsUnique<F(!new)>(f: Field<F>, p: seq<F>, q: seq<F>)
    requires Same(f, p, q)
    ensures Canon(f, p) == Canon(f, q)
  {
    hide Degree;
    DegreeIsCongruent(f, p, q);
    var d := Degree(f, p);
    forall i | 0 <= i <= d
      ensures p[i] == q[i]
    {
      assert Coef(f, p, i) == Coef(f, q, i);
    }
    assert p[..d + 1] == q[..d + 1];
  }

  lemma CanonTwice<F(!new)>(f: Field<F>, p: seq<F>)
    ensures Canon(f, Canon(f, p)) == Canon(f, p)
  {
    hide Canon;
    CanonIsUnique(f, Canon(f, p), p);
  }

  lemma CanonOfNothing<F(!new)>(f: Field<F>)
    ensures Canon(f, []) == []
  {
  }

  // ----- the ring -----

  function PAdd<F(==, !new)>(f: Field<F>, p: seq<F>, q: seq<F>): seq<F> {
    Canon(f, Add(f, p, q))
  }

  function PMul<F(==, !new)>(f: Field<F>, p: seq<F>, q: seq<F>): seq<F> {
    Canon(f, Times(f, p, q))
  }

  /** Only the polynomials denoted matter. */
  lemma PAddOf<F(!new)>(f: Field<F>, p: seq<F>, q: seq<F>, p': seq<F>, q': seq<F>)
    requires f.IsField() && Same(f, p, p') && Same(f, q, q')
    ensures PAdd(f, p, q) == PAdd(f, p', q')
  {
    hide Field.IsField, Canon, Same, Add;
    AddIsCongruent(f, p, q, p', q');
    CanonIsUnique(f, Add(f, p, q), Add(f, p', q'));
  }

  lemma PMulOf<F(!new)>(f: Field<F>, p: seq<F>, q: seq<F>, p': seq<F>, q': seq<F>)
    requires f.IsField() && Same(f, p, p') && Same(f, q, q')
    ensures PMul(f, p, q) == PMul(f, p', q')
  {
    hide Field.IsField, Canon, Same, Times;
    TimesIsCongruent(f, p, q, p', q');
    CanonIsUnique(f, Times(f, p, q), Times(f, p', q'));
  }

  lemma SameItself<F(!new)>(f: Field<F>, p: seq<F>)
    ensures Same(f, p, p)
  {
  }

  lemma PAddComm<F(!new)>(f: Field<F>, p: seq<F>, q: seq<F>)
    requires f.IsField()
    ensures PAdd(f, p, q) == PAdd(f, q, p)
  {
    hide Field.IsField, Canon, Add, Coef;
    forall i
      ensures Coef(f, Add(f, p, q), i) == Coef(f, Add(f, q, p), i)
    {
      CoefAdd(f, p, q, i);
      CoefAdd(f, q, p, i);
      AddComm(f, Coef(f, p, i), Coef(f, q, i));
    }
    CanonIsUnique(f, Add(f, p, q), Add(f, q, p));
  }

  lemma PAddAssoc<F(!new)>(f: Field<F>, p: seq<F>, q: seq<F>, r: seq<F>)
    requires f.IsField()
    ensures PAdd(f, PAdd(f, p, q), r) == PAdd(f, p, PAdd(f, q, r))
  {
    hide Field.IsField, Canon, Add, Coef;
    var pq, qr := Add(f, p, q), Add(f, q, r);
    SameItself(f, p);
    SameItself(f, r);
    PAddOf(f, PAdd(f, p, q), r, pq, r);
    PAddOf(f, p, PAdd(f, q, r), p, qr);
    forall i
      ensures Coef(f, Add(f, pq, r), i) == Coef(f, Add(f, p, qr), i)
    {
      CoefAdd(f, p, q, i);
      CoefAdd(f, q, r, i);
      CoefAdd(f, pq, r, i);
      CoefAdd(f, p, qr, i);
      AddAssoc(f, Coef(f, p, i), Coef(f, q, i), Coef(f, r, i));
    }
    CanonIsUnique(f, Add(f, pq, r), Add(f, p, qr));
  }

  lemma PAddZero<F(!new)>(f: Field<F>, p: seq<F>, z: seq<F>)
    requires f.IsField() && Same(f, z, [])
    ensures PAdd(f, p, z) == Canon(f, p) == PAdd(f, z, p)
  {
    hide Field.IsField, Canon, Add, Coef;
    PAddComm(f, p, z);
    forall i
      ensures Coef(f, Add(f, p, z), i) == Coef(f, p, i)
    {
      CoefAdd(f, p, z, i);
      CoefOfEmpty(f, i);
      AddZero(f, Coef(f, p, i));
    }
    CanonIsUnique(f, Add(f, p, z), p);
  }

  /** Shifted products: x * (p q), on either side. */
  lemma {:induction false} ConvolutionByShifted<F(!new)>(f: Field<F>, p: seq<F>, q: seq<F>, k: int, n: nat)
    requires f.IsField()
    ensures Convolution(f, p, Shift(f, q), k, n) == Convolution(f, p, q, k - 1, n)
  {
    if n > 0 {
      ConvolutionByShifted(f, p, q, k, n - 1);
      ShiftedCoef(f, q, k - (n - 1));
    }
  }

  lemma TimesByShifted<F(!new)>(f: Field<F>, p: seq<F>, q: seq<F>)
    requires f.IsField()
    ensures Same(f, Times(f, p, Shift(f, q)), Shift(f, Times(f, p, q)))
  {
    hide Field.IsField, Times, Shift, Coef;
    forall k
      ensures Coef(f, Times(f, p, Shift(f, q)), k) == Coef(f, Shift(f, Times(f, p, q)), k)
    {
      CoefTimes(f, p, Shift(f, q), k);
      CoefTimes(f, p, q, k - 1);
      ShiftedCoef(f, Times(f, p, q), k);
      if k > 0 {
        LastShiftedTerm(f, p, q, k);
      } else if k == 0 {
        ConvolutionByShifted(f, p, q, 0, 1);
        FirstTermBelow(f, p, q);
      }
    }
  }

  lemma LastShiftedTerm<F(!new)>(f: Field<F>, p: seq<F>, q: seq<F>, k: nat)
    requires f.IsField() && k > 0
    ensures ProductCoef(f, p, Shift(f, q), k) == ProductCoef(f, p, q, k - 1)
  {
    ConvolutionByShifted(f, p, q, k, k + 1);
    MulZero(f, Coef(f, p, k));
    AddZero(f, Convolution(f, p, q, k - 1, k));
  }

  lemma FirstTermBelow<F(!new)>(f: Field<F>, p: seq<F>, q: seq<F>)
    requires f.IsField()
    ensures Convolution(f, p, q, -1, 1) == f.zero
  {
    MulZero(f, Coef(f, p, 0));
    AddZero(f, f.zero);
    assert Convolution(f, p, q, -1, 0) == f.zero;
  }

  lemma {:induction false} ConvolutionByConstant<F(!new)>(f: Field<F>, p: seq<F>, c: F, k: nat, n: nat)
    requires f.IsField() && n <= k + 1
    ensures Convolution(f, p, [c], k, n) == if n <= k then f.zero else f.mul(Coef(f, p, k), c)
  {
    if n > 0 {
      ConvolutionByConstant(f, p, c, k, n - 1);
      MulZero(f, Coef(f, p, n - 1));
      AddZero(f, f.zero);
      AddZero(f, f.mul(Coef(f, p, k), c));
    }
  }

  lemma TimesByConstant<F(!new)>(f: Field<F>, p: seq<F>, c: F)
    requires f.IsField()
    ensures Same(f, Times(f, p, [c]), Scale(f, p, c))
  {
    hide Field.IsField, Times, Scale;
    forall k
      ensures Coef(f, Times(f, p, [c]), k) == Coef(f, Scale(f, p, c), k)
    {
      CoefTimes(f, p, [c], k);
      CoefScale(f, p, c, k);
      if k >= 0 {
        ConvolutionByConstant(f, p, c, k, k + 1);
      } else {
        MulZero(f, c);
      }
    }
  }

  lemma {:induction false} TimesIsCommutative<F(!new)>(f: Field<F>, p: seq<F>, q: seq<F>)
    requires f.IsField()
    ensures Same(f, Times(f, p, q), Times(f, q, p))
    decreases |p|
  {
    hide Field.IsField, Times, Shift, Scale, Coef, Add;
    if p == [] {
      forall i
        ensures Coef(f, Times(f, p, q), i) == Coef(f, Times(f, q, p), i)
      {
        SameItself(f, p);
        ZeroTimes(f, p, q, i);
        TimesByZero(f, q, p, i);
      }
    } else {
      var c, t := p[0], p[1..];
      TimesIsCommutative(f, t, q);
      HeadAndTail(f, p);
      UnfoldTimes(f, p, q);
      SameItself(f, q);
      SameItself(f, Scale(f, q, c));
      TimesIsCongruent(f, q, p, q, Add(f, [c], Shift(f, t)));
      TimesOverSum(f, q, [c], Shift(f, t));
      TimesByConstant(f, q, c);
      TimesByShifted(f, q, t);
      ShiftIsCongruent(f, Times(f, t, q), Times(f, q, t));
      AddIsCongruent(f, Times(f, q, [c]), Times(f, q, Shift(f, t)), Scale(f, q, c), Shift(f, Times(f, t, q)));
    }
  }

  lemma PMulComm<F(!new)>(f: Field<F>, p: seq<F>, q: seq<F>)
    requires f.IsField()
    ensures PMul(f, p, q) == PMul(f, q, p)
  {
    hide Field.IsField, Canon, Times, Same;
    TimesIsCommutative(f, p, q);
    CanonIsUnique(f, Times(f, p, q), Times(f, q, p));
  }

  lemma PMulAssoc<F(!new)>(f: Field<F>, p: seq<F>, q: seq<F>, r: seq<F>)
    requires f.IsField()
    ensures PMul(f, PMul(f, p, q), r) == PMul(f, p, PMul(f, q, r))
  {
    hide Field.IsField, Canon, Times, Same;
    SameItself(f, p);
    SameItself(f, r);
    PMulOf(f, PMul(f, p, q), r, Times(f, p, q), r);
    PMulOf(f, p, PMul(f, q, r), p, Times(f, q, r));
    TimesIsAssociative(f, p, q, r);
    CanonIsUnique(f, Times(f, Times(f, p, q), r), Times(f, p, Times(f, q, r)));
  }

  lemma PDistrib<F(!new)>(f: Field<F>, p: seq<F>, q: seq<F>, r: seq<F>)
    requires f.IsField()
    ensures PMul(f, p, PAdd(f, q, r)) == PAdd(f, PMul(f, p, q), PMul(f, p, r))
    ensures PMul(f, PAdd(f, q, r), p) == PAdd(f, PMul(f, q, p), PMul(f, r, p))
  {
    hide Field.IsField, Canon, Times, Add, Same;
    SameItself(f, p);
    PMulOf(f, p, PAdd(f, q, r), p, Add(f, q, r));
    PAddOf(f, PMul(f, p, q), PMul(f, p, r), Times(f, p, q), Times(f, p, r));
    TimesOverSum(f, p, q, r);
    CanonIsUnique(f, Times(f, p, Add(f, q, r)), Add(f, Times(f, p, q), Times(f, p, r)));
    PMulComm(f, PAdd(f, q, r), p);
    PMulComm(f, q, p);
    PMulComm(f, r, p);
  }

  lemma PMulOne<F(!new)>(f: Field<F>, p: seq<F>)
    requires f.IsField()
    ensures PMul(f, [f.one], p) == Canon(f, p)
  {
    hide Field.IsField, Canon, Times, Coef;
    forall i
      ensures Coef(f, Times(f, [f.one], p), i) == Coef(f, p, i)
    {
      OneTimes(f, p, i);
    }
    CanonIsUnique(f, Times(f, [f.one], p), p);
  }

  lemma PMulZero<F(!new)>(f: Field<F>, p: seq<F>, z: seq<F>)
    requires f.IsField() && Same(f, z, [])
    ensures PMul(f, z, p) == [] == PMul(f, p, z)
  {
    hide Field.IsField, Canon, Times, Same;
    TimesOfZero(f, z, p);
    CanonIsUnique(f, Times(f, z, p), []);
    CanonOfNothing(f);
    PMulComm(f, z, p);
  }

  // ----- degrees -----

  lemma CanonDegree<F(!new)>(f: Field<F>, p: seq<F>)
    ensures Degree(f, Canon(f, p)) == Degree(f, p) == |Canon(f, p)| - 1
  {
    hide Same;
    DegreeIsCongruent(f, Canon(f, p), p);
  }

  /** Degrees add. */
  lemma DegreeOfProduct<F(!new)>(f: Field<F>, p: seq<F>, q: seq<F>)
    requires f.IsField() && Degree(f, p) >= 0 && Degree(f, q) >= 0
    ensures Degree(f, Times(f, p, q)) == Degree(f, p) + Degree(f, q)
  {
    hide Degree, Times;
    var a, b := Degree(f, p), Degree(f, q);
    var d := Degree(f, Times(f, p, q));
    CoefTimes(f, p, q, a + b);
    TopConvolution(f, p, q, a + b + 1);
    NoZeroDivisors(f, p[a], q[b]);
    assert Coef(f, Times(f, p, q), a + b) != f.zero;
    if d > a + b {
      CoefTimes(f, p, q, d);
      HighConvolution(f, p, q, d, d + 1);
    }
  }

  lemma {:induction false} HighConvolution<F(!new)>(f: Field<F>, p: seq<F>, q: seq<F>, k: int, n: nat)
    requires f.IsField() && k > Degree(f, p) + Degree(f, q) && Degree(f, p) >= 0 && Degree(f, q) >= 0
    ensures Convolution(f, p, q, k, n) == f.zero
  {
    hide Degree;
    if n > 0 {
      HighConvolution(f, p, q, k, n - 1);
      MulZero(f, Coef(f, p, n - 1));
      MulZero(f, Coef(f, q, k - (n - 1)));
      AddZero(f, f.zero);
      assert n - 1 > Degree(f, p) || k - (n - 1) > Degree(f, q);
    }
  }

  lemma ZeroDegree<F(!new)>(f: Field<F>, p: seq<F>)
    ensures Degree(f, p) == -1 <==> Canon(f, p) == []
    ensures Degree(f, p) == -1 <==> Same(f, p, [])
  {
    hide Same;
    CanonDegree(f, p);
    DegreeIsCongruent(f, p, p) by { SameItself(f, p); }
  }

  /** A product is zero only if a factor is. */
  lemma NoZeroPolynomials<F(!new)>(f: Field<F>, p: seq<F>, q: seq<F>)
    requires f.IsField()
    ensures PMul(f, p, q) == [] <==> Canon(f, p) == [] || Canon(f, q) == []
  {
    hide Field.IsField, Degree, Canon, Same, Times;
    ZeroDegree(f, p);
    ZeroDegree(f, q);
    ZeroDegree(f, Times(f, p, q));
    if Degree(f, p) >= 0 && Degree(f, q) >= 0 {
      DegreeOfProduct(f, p, q);
    } else if Degree(f, p) == -1 {
      PMulZero(f, q, p);
    } else {
      PMulZero(f, p, q);
    }
  }

  /** A sum with one polynomial of larger degree has that degree. */
  lemma DegreeOfSum<F(!new)>(f: Field<F>, p: seq<F>, q: seq<F>)
    requires f.IsField() && Degree(f, p) > Degree(f, q)
    ensures Degree(f, PAdd(f, p, q)) == Degree(f, p) == Degree(f, PAdd(f, q, p))
  {
    hide Field.IsField, Degree, Add, Coef;
    var d, s := Degree(f, p), Add(f, p, q);
    PAddComm(f, p, q);
    CanonDegree(f, s);
    var e := Degree(f, s);
    TopCoef(f, p);
    TopCoef(f, s);
    CoefAdd(f, p, q, d);
    CoefAdd(f, p, q, e);
    AddZero(f, Coef(f, p, d));
    AddZero(f, f.zero);
  }

  lemma TopCoef<F(!new)>(f: Field<F>, p: seq<F>)
    ensures Degree(f, p) >= 0 ==> Coef(f, p, Degree(f, p)) != f.zero
  {
  }

  // ----- exact division -----

  /** Dividing a multiple of den gives the cofactor: quotient and remainder are unique. */
  lemma ExactQuotient<F(!new)>(f: Field<F>, den: seq<F>, h: seq<F>, p: seq<F>, q: seq<F>, r: seq<F>)
    requires f.IsField() && Degree(f, den) >= 0
    requires Same(f, p, Times(f, h, den))
    requires IsDivision(f, p, den, q, r) && Degree(f, r) < Degree(f, den)
    ensures Same(f, q, h)
  {
    hide Field.IsField, Degree, Times, Coef, Sub;
    var d := Sub(f, h, q);
    TimesOfDifference(f, h, q, den);
    forall i
      ensures Coef(f, Times(f, d, den), i) == Coef(f, r, i)
    {
      CoefSub(f, Times(f, h, den), Times(f, q, den), i);
      CoefAdd(f, Times(f, q, den), r, i);
      RemainderIs(f, Coef(f, Times(f, q, den), i), Coef(f, r, i));
    }
    DegreeIsCongruent(f, Times(f, d, den), r);
    if Degree(f, d) >= 0 {
      DegreeOfProduct(f, d, den);
    }
    assert Degree(f, d) == -1;
    ZeroDegree(f, d);
    forall i
      ensures Coef(f, q, i) == Coef(f, h, i)
    {
      CoefSub(f, h, q, i);
      CoefOfEmpty(f, i);
      assert Coef(f, d, i) == Coef(f, [], i);
      SubThenAdd(f, Coef(f, h, i), Coef(f, q, i));
      AddZero(f, Coef(f, q, i));
    }
  }

  lemma RemainderIs<F(!new)>(f: Field<F>, a: F, r: F)
    requires f.IsField()
    ensures f.Sub(f.add(a, r), a) == r
  {
    AddComm(f, a, r);
    SumMinus(f, r, a);
  }

  // ----- roots -----

  /** Synthetic division by x - z. */
  function Deflated<F(!new)>(f: Field<F>, p: seq<F>, z: F): seq<F> {
    if p == [] then [] else [PolyValue(f, p[1..], z)] + Deflated(f, p[1..], z)
  }

  /** x - z */
  function Linear<F(!new)>(f: Field<F>, z: F): seq<F> {
    [f.neg(z), f.one]
  }

  lemma CoefLinearTimes<F(!new)>(f: Field<F>, z: F, q: seq<F>, i: int)
    requires f.IsField()
    ensures Coef(f, Times(f, Linear(f, z), q), i) == f.add(f.mul(f.neg(z), Coef(f, q, i)), Coef(f, q, i - 1))
  {
    hide Field.IsField, Times, Shift, Scale, Add, Same, Coef;
    var l := Linear(f, z);
    assert l[1..] == [f.one] && l[0] == f.neg(z);
    UnfoldTimes(f, l, q);
    SameAt(f, Times(f, l, q), Add(f, Scale(f, q, l[0]), Shift(f, Times(f, l[1..], q))), i);
    CoefAdd(f, Scale(f, q, l[0]), Shift(f, Times(f, l[1..], q)), i);
    CoefScale(f, q, l[0], i);
    MulComm(f, f.neg(z), Coef(f, q, i));
    ShiftedCoef(f, Times(f, [f.one], q), i);
    OneTimes(f, q, i - 1);
    if i <= 0 {
      BelowZero(f, q, i - 1);
    }
  }

  lemma SameAt<F(!new)>(f: Field<F>, p: seq<F>, q: seq<F>, i: int)
    requires Same(f, p, q)
    ensures Coef(f, p, i) == Coef(f, q, i)
  {
  }

  lemma BelowZero<F(!new)>(f: Field<F>, q: seq<F>, i: int)
    requires i < 0
    ensures Coef(f, q, i) == f.zero
  {
  }

  /** p == (x - z) * Deflated(p) + p(z) */
  lemma {:induction false} DeflationAt<F(!new)>(f: Field<F>, p: seq<F>, z: F, i: int)
    requires f.IsField()
    ensures Coef(f, p, i) == f.add(f.add(f.mul(f.neg(z), Coef(f, Deflated(f, p, z), i)), Coef(f, Deflated(f, p, z), i - 1)),
      if i == 0 then PolyValue(f, p, z) else f.zero)
  {
    hide Field.IsField;
    AddZero(f, f.zero);
    MulZero(f, f.neg(z));
    if p != [] {
      var t, v := p[1..], PolyValue(f, p[1..], z);
      var d, e := Deflated(f, p, z), Deflated(f, t, z);
      assert forall j :: j >= 1 ==> Coef(f, d, j) == Coef(f, e, j - 1) && Coef(f, p, j) == Coef(f, t, j - 1);
      DeflationAt(f, t, z, i - 1);
      if i == 0 {
        AddZero(f, f.mul(f.neg(z), v));
        HornerCancels(f, p[0], v, z);
      } else if i == 1 {
        AddZero(f, f.mul(f.neg(z), Coef(f, e, 0)));
        AddZero(f, f.add(f.mul(f.neg(z), Coef(f, e, 0)), v));
      }
    }
  }

  /** -z v + (c + v z) == c */
  lemma HornerCancels<F(!new)>(f: Field<F>, c: F, v: F, z: F)
    requires f.IsField()
    ensures f.add(f.mul(f.neg(z), v), f.add(c, f.mul(v, z))) == c
  {
    hide Field.IsField;
    var m := f.mul(v, z);
    MulComm(f, f.neg(z), v);
    MulNeg(f, v, z);
    AddComm(f, c, m);
    AddAssoc(f, f.neg(m), m, c);
    AddNeg(f, m);
    AddZero(f, c);
  }

  /** A polynomial with root z is a multiple of x - z. */
  lemma RootIsFactor<F(!new)>(f: Field<F>, p: seq<F>, z: F)
    requires f.IsField() && PolyValue(f, p, z) == f.zero
    ensures Canon(f, p) == PMul(f, Linear(f, z), Deflated(f, p, z))
  {
    hide Field.IsField, Canon, Times, Linear, Deflated, Coef;
    var q := Deflated(f, p, z);
    forall i
      ensures Coef(f, p, i) == Coef(f, Times(f, Linear(f, z), q), i)
    {
      CoefLinearTimes(f, z, q, i);
      DeflationAt(f, p, z, i);
      AddZero(f, f.add(f.mul(f.neg(z), Coef(f, q, i)), Coef(f, q, i - 1)));
    }
    CanonIsUnique(f, p, Times(f, Linear(f, z), q));
  }

  lemma LinearValue<F(!new)>(f: Field<F>, i: F, m: F, u: F)
    requires f.IsField()
    ensures PolyValue(f, [i, m], u) == f.add(i, f.mul(m, u))
  {
    hide Field.IsField;
    assert [i, m][1..] == [m] && [m][1..] == [];
    assert PolyValue(f, [m], u) == f.add(m, f.mul(f.zero, u));
    Fields.MulZero(f, u);
    AddZero(f, m);
  }

  lemma SameByCanon<F(!new)>(f: Field<F>, p: seq<F>, q: seq<F>)
    requires Canon(f, p) == Canon(f, q)
    ensures Same(f, p, q)
  {
    hide Degree;
    assert forall i :: Coef(f, p, i) == Coef(f, Canon(f, p), i) == Coef(f, Canon(f, q), i) == Coef(f, q, i);
  }

  lemma CanonIsSame<F(!new)>(f: Field<F>, p: seq<F>)
    ensures Same(f, p, Canon(f, p))
  {
  }

  /** A root of p other than z is a root of p / (x - z). */
  lemma OtherRoot<F(!new)>(f: Field<F>, p: seq<F>, z: F, z': F)
    requires f.IsField() && PolyValue(f, p, z) == f.zero && PolyValue(f, p, z') == f.zero && f.Sub(z, z') != f.zero
    ensures PolyValue(f, Deflated(f, p, z), z') == f.zero
  {
    hide Field.IsField, Times, Same, Canon, Deflated;
    var q := Deflated(f, p, z);
    RootIsFactor(f, p, z);
    SameByCanon(f, p, Times(f, Linear(f, z), q));
    ValueIsCongruent(f, p, Times(f, Linear(f, z), q), z');
    ValueOfProduct(f, Linear(f, z), q, z');
    LinearValue(f, f.neg(z), f.one, z');
    MulOne(f, z');
    if f.add(f.neg(z), z') == f.zero {
      SubThenAdd(f, z, z');
      AddComm(f, f.neg(z), z');
      NegUnique(f, f.neg(z), z');
      AdditiveGroup(f);
      Groups.NegOfNeg(f.Additive(), z);
      AddNeg(f, z);
    }
    NoZeroDivisors(f, f.add(f.neg(z), z'), PolyValue(f, q, z'));
  }

  /** A nonzero list of n coefficients has fewer than n roots. */
  lemma {:induction false} ManyRootsMeanZero<F(!new)>(f: Field<F>, p: seq<F>, roots: seq<F>)
    requires f.IsField() && |roots| >= |p| && (forall i, j :: 0 <= i < j < |roots| ==> roots[i] != roots[j])
    requires forall i :: 0 <= i < |roots| ==> PolyValue(f, p, roots[i]) == f.zero
    ensures Same(f, p, [])
    decreases |p|
  {
    hide Field.IsField, PolyValue, Deflated, Canon;
    if p != [] {
      var z, rest := roots[0], roots[1..];
      var q := Deflated(f, p, z);
      DeflatedEndsInZero(f, p, z);
      var init := q[..|q| - 1];
      forall i | 0 <= i < |rest|
        ensures PolyValue(f, init, rest[i]) == f.zero
      {
        if f.Sub(z, rest[i]) == f.zero {
          SubThenAdd(f, z, rest[i]);
          AddZero(f, rest[i]);
          assert false;
        }
        OtherRoot(f, p, z, rest[i]);
        ValueIsCongruent(f, q, init, rest[i]);
      }
      ManyRootsMeanZero(f, init, rest);
      RootIsFactor(f, p, z);
      PMulZero(f, q, q);
      PMulZero(f, Linear(f, z), q);
      CanonOfNothing(f);
      SameByCanon(f, p, []);
    }
  }

  lemma {:induction false} DeflatedEndsInZero<F(!new)>(f: Field<F>, p: seq<F>, z: F)
    requires p != []
    ensures |Deflated(f, p, z)| == |p| && Deflated(f, p, z)[|p| - 1] == f.zero
    ensures Same(f, Deflated(f, p, z), Deflated(f, p, z)[..|p| - 1])
  {
    DeflatedShape(f, p, z);
    var q := Deflated(f, p, z);
    assert forall i :: Coef(f, q, i) == Coef(f, q[..|p| - 1], i);
  }

  lemma {:induction false} DeflatedShape<F(!new)>(f: Field<F>, p: seq<F>, z: F)
    ensures |Deflated(f, p, z)| == |p| && (p != [] ==> Deflated(f, p, z)[|p| - 1] == f.zero)
  {
    if p != [] {
      DeflatedShape(f, p[1..], z);
    }
  }
}
