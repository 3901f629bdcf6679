/** What the combined check of the extension-field circuit rules out: a list in which some identity
    fails passes for fewer coefficients than it has identities, and an identity that is false as
    one of polynomials holds at fewer points than its length. */
module BatchSoundness {
  import opened ExtensionField
  import opened Fields
  import PolynomialAlgorithms
  import PolynomialRing
  import opened Polynomials

  ghost predicate AreDistinct<F(!new)>(xs: seq<F>) {
    forall i, j :: 0 <= i < j < |xs| ==> xs[i] != xs[j]
  }

  /** How far identity i is from holding at z. */
  ghost function Defect<F(!new)>(f: Field<F>, ts: seq<Identity<F>>, i: nat, irreducible: F, z: F): F
    requires i < |ts| && HaveShape(ts)
  {
    f.Sub(ProductAt(f, ts[i].Pis, z, |ts[i].Pis|),
      f.add(f.mul(PolyValue(f, ts[i].Q, z), irreducible), PolyValue(f, EffectiveR(f, ts, i), z)))
  }

  lemma NoDefect<F(!new)>(f: Field<F>, ts: seq<Identity<F>>, i: nat, irreducible: F, z: F)
    requires f.IsField() && i < |ts| && HaveShape(ts) && Defect(f, ts, i, irreducible, z) == f.zero
    ensures HoldsAt(f, ts, i, irreducible, z)
  {
    hide Field.IsField, ProductAt, PolyValue, EffectiveR;
    var left, right := ProductAt(f, ts[i].Pis, z, |ts[i].Pis|),
      f.add(f.mul(PolyValue(f, ts[i].Q, z), irreducible), PolyValue(f, EffectiveR(f, ts, i), z));
    SubThenAdd(f, left, right);
    AddZero(f, right);
  }

  ghost function Defects<F(!new)>(f: Field<F>, ts: seq<Identity<F>>, irreducible: F, z: F, n: nat): (ds: seq<F>)
    requires n <= |ts| && HaveShape(ts)
    ensures |ds| == n
  {
    seq(n, i requires 0 <= i < n => Defect(f, ts, i, irreducible, z))
  }

  lemma DefectsNext<F(!new)>(f: Field<F>, ts: seq<Identity<F>>, irreducible: F, z: F, n: nat)
    requires n < |ts| && HaveShape(ts)
    ensures Defects(f, ts, irreducible, z, n + 1) == Defects(f, ts, irreducible, z, n) + [Defect(f, ts, n, irreducible, z)]
  {
    hide Defect;
  }

  lemma SumsNext<F(!new)>(f: Field<F>, ts: seq<Identity<F>>, cs: seq<F>, z: F, n: nat)
    requires n < |ts| && n < |cs| && HaveShape(ts)
    ensures LeftSum(f, ts, cs, z, n + 1) == f.add(LeftSum(f, ts, cs, z, n), f.mul(cs[n], ProductAt(f, ts[n].Pis, z, |ts[n].Pis|)))
    ensures QuotientSum(f, ts, cs, z, n + 1) == f.add(QuotientSum(f, ts, cs, z, n), f.mul(cs[n], PolyValue(f, ts[n].Q, z)))
    ensures RightSum(f, ts, cs, z, n + 1) == f.add(RightSum(f, ts, cs, z, n), f.mul(cs[n], PolyValue(f, EffectiveR(f, ts, n), z)))
  {
    hide ProductAt, PolyValue, EffectiveR;
  }

  lemma CoefficientIs<F(!new)>(f: Field<F>, c0: F, n: nat, i: nat)
    requires i < n
    ensures |Combination(f, c0, n)| == n && Combination(f, c0, n)[i] == f.mul(Power(f, c0, i), c0)
  {
    hide Power;
    PowerNext(f, c0, i);
  }

  lemma NoDefectsYet<F(!new)>(f: Field<F>, ts: seq<Identity<F>>, cs: seq<F>, c0: F, irreducible: F, z: F)
    requires f.IsField() && HaveShape(ts)
    ensures LeftSum(f, ts, cs, z, 0) == f.add(
      f.add(f.mul(QuotientSum(f, ts, cs, z, 0), irreducible), RightSum(f, ts, cs, z, 0)),
      f.mul(PolyValue(f, Defects(f, ts, irreducible, z, 0), c0), c0))
  {
    hide Field.IsField;
    Fields.MulZero(f, irreducible);
    Fields.MulZero(f, c0);
    AddZero(f, f.zero);
  }

  /** The left side is the right side and the combined defects. */
  lemma {:induction false} CombinedDefects<F(!new)>(f: Field<F>, ts: seq<Identity<F>>, c0: F, irreducible: F, z: F, n: nat)
    requires f.IsField() && HaveShape(ts) && n <= |ts|
    ensures |Combination(f, c0, |ts|)| == |ts|
    ensures var cs := Combination(f, c0, |ts|);
      LeftSum(f, ts, cs, z, n) == f.add(
        f.add(f.mul(QuotientSum(f, ts, cs, z, n), irreducible), RightSum(f, ts, cs, z, n)),
        f.mul(PolyValue(f, Defects(f, ts, irreducible, z, n), c0), c0))
  {
    CombinationLength(f, c0, |ts|);
    var cs := Combination(f, c0, |ts|);
    hide Field.IsField, ProductAt, PolyValue, EffectiveR, Defect, Defects, Power, LeftSum, QuotientSum, RightSum, Combination;
    if n == 0 {
      NoDefectsYet(f, ts, cs, c0, irreducible, z);
    } else {
      var k := n - 1;
      CombinedDefects(f, ts, c0, irreducible, z, k);
      var ds, d := Defects(f, ts, irreducible, z, k), Defect(f, ts, k, irreducible, z);
      DefectsNext(f, ts, irreducible, z, k);
      SumsNext(f, ts, cs, z, k);
      PolySnoc(f, ds, d, c0);
      DefectSplits(f, ts, k, irreducible, z);
      CoefficientIs(f, c0, |ts|, k);
      CombineDefect(f, QuotientSum(f, ts, cs, z, k), RightSum(f, ts, cs, z, k), PolyValue(f, ds, c0), c0, Power(f, c0, k),
        PolyValue(f, ts[k].Q, z), irreducible, PolyValue(f, EffectiveR(f, ts, k), z), d);
    }
  }

  lemma PowerNext<F(!new)>(f: Field<F>, z: F, n: nat)
    ensures Power(f, z, n + 1) == f.mul(Power(f, z, n), z)
  {
  }

  lemma DefectSplits<F(!new)>(f: Field<F>, ts: seq<Identity<F>>, i: nat, irreducible: F, z: F)
    requires f.IsField() && i < |ts| && HaveShape(ts)
    ensures ProductAt(f, ts[i].Pis, z, |ts[i].Pis|)
      == f.add(f.add(f.mul(PolyValue(f, ts[i].Q, z), irreducible), PolyValue(f, EffectiveR(f, ts, i), z)), Defect(f, ts, i, irreducible, z))
  {
    hide Field.IsField, ProductAt, PolyValue, EffectiveR;
    SubThenAdd(f, ProductAt(f, ts[i].Pis, z, |ts[i].Pis|),
      f.add(f.mul(PolyValue(f, ts[i].Q, z), irreducible), PolyValue(f, EffectiveR(f, ts, i), z)));
  }

  /** One more identity, with c == w c0 for its coefficient. */
  lemma CombineDefect<F(!new)>(f: Field<F>, q: F, r: F, v: F, c0: F, w: F, qi: F, p: F, ri: F, d: F)
    requires f.IsField()
    ensures var c := f.mul(w, c0);
      f.add(f.add(f.add(f.mul(q, p), r), f.mul(v, c0)), f.mul(c, f.add(f.add(f.mul(qi, p), ri), d)))
        == f.add(f.add(f.mul(f.add(q, f.mul(c, qi)), p), f.add(r, f.mul(c, ri))), f.mul(f.add(v, f.mul(d, w)), c0))
  {
    hide Field.IsField;
    var c := f.mul(w, c0);
    Distrib(f, c, f.add(f.mul(qi, p), ri), d);
    AddInterchange(f, f.add(f.mul(q, p), r), f.mul(v, c0), f.mul(c, f.add(f.mul(qi, p), ri)), f.mul(c, d));
    CombineOne(f, q, r, c, qi, p, ri);
    MulComm(f, c, d);
    MulAssoc(f, d, w, c0);
    Distrib(f, c0, v, f.mul(d, w));
  }

  /** Where the combination balances, c0 is zero or a root of the defects. */
  lemma BalancedIsRoot<F(!new)>(f: Field<F>, ts: seq<Identity<F>>, c0: F, irreducible: seq<F>, z: F)
    requires f.IsField() && HaveShape(ts) && FactorsAreShaped(ts) && c0 != f.zero
    requires Balances(f, ts, Combination(f, c0, |ts|), irreducible, z)
    ensures PolyValue(f, Defects(f, ts, PolyValue(f, irreducible, z), z, |ts|), c0) == f.zero
  {
    hide Field.IsField, PolyValue, Defects, LeftSum, RightSum, QuotientSum;
    var p := PolyValue(f, irreducible, z);
    var cs, v := Combination(f, c0, |ts|), PolyValue(f, Defects(f, ts, p, z, |ts|), c0);
    CombinedDefects(f, ts, c0, p, z, |ts|);
    var right := f.add(f.mul(QuotientSum(f, ts, cs, z, |ts|), p), RightSum(f, ts, cs, z, |ts|));
    NothingAdded(f, right, f.mul(v, c0));
    NoZeroDivisors(f, v, c0);
  }

  lemma NothingAdded<F(!new)>(f: Field<F>, x: F, y: F)
    requires f.IsField() && f.add(x, y) == x
    ensures y == f.zero
  {
    hide Field.IsField;
    AddAssoc(f, f.neg(x), x, y);
    AddNeg(f, x);
    AddZero(f, y);
  }

  /** If the list passes for as many nonzero coefficients c0 as it has identities, every identity
      holds at z. */
  lemma BatchIsSound<F(!new)>(f: Field<F>, ts: seq<Identity<F>>, irreducible: seq<F>, z: F, coefficients: seq<F>)
    requires f.IsField() && HaveShape(ts) && FactorsAreShaped(ts) && |coefficients| >= |ts| && AreDistinct(coefficients)
    requires forall j :: 0 <= j < |coefficients| ==>
      coefficients[j] != f.zero && Balances(f, ts, Combination(f, coefficients[j], |ts|), irreducible, z)
    ensures forall i: nat :: i < |ts| ==> HoldsAt(f, ts, i, PolyValue(f, irreducible, z), z)
  {
    hide Field.IsField, PolyValue, Balances, Combination, HoldsAt, Defect;
    var p := PolyValue(f, irreducible, z);
    var ds := Defects(f, ts, p, z, |ts|);
    forall j | 0 <= j < |coefficients|
      ensures PolyValue(f, ds, coefficients[j]) == f.zero
    {
      BalancedIsRoot(f, ts, coefficients[j], irreducible, z);
    }
    PolynomialRing.ManyRootsMeanZero(f, ds, coefficients);
    forall i: nat | i < |ts|
      ensures HoldsAt(f, ts, i, p, z)
    {
      assert Coef(f, ds, i) == Coef(f, [], i);
      NoDefect(f, ts, i, p, z);
    }
  }

  /** The difference of the two sides of an identity, as a polynomial. */
  ghost function Difference<F(!new)>(f: Field<F>, ts: seq<Identity<F>>, i: nat, irreducible: seq<F>): seq<F>
    requires i < |ts| && HaveShape(ts)
  {
    Polynomials.Sub(f, ProductOf(f, AllValues(ts[i].Pis), |ts[i].Pis|),
      Polynomials.Add(f, Times(f, ts[i].Q, irreducible), EffectiveR(f, ts, i)))
  }

  /** If identity i holds at as many points as the difference of its sides has coefficients, it is an
      identity of polynomials. */
  lemma IdentityIsSound<F(!new)>(f: Field<F>, ts: seq<Identity<F>>, i: nat, irreducible: seq<F>, points: seq<F>)
    requires f.IsField() && i < |ts| && HaveShape(ts) && AreDistinct(points) && |points| >= |Difference(f, ts, i, irreducible)|
    requires forall j :: 0 <= j < |points| ==> HoldsAt(f, ts, i, PolyValue(f, irreducible, points[j]), points[j])
    ensures Same(f, ProductOf(f, AllValues(ts[i].Pis), |ts[i].Pis|),
      Polynomials.Add(f, Times(f, ts[i].Q, irreducible), EffectiveR(f, ts, i)))
  {
    hide Field.IsField, PolyValue, ProductOf, Times, Polynomials.Add, Polynomials.Sub, EffectiveR, ProductAt;
    var left, right := ProductOf(f, AllValues(ts[i].Pis), |ts[i].Pis|), Polynomials.Add(f, Times(f, ts[i].Q, irreducible), EffectiveR(f, ts, i));
    var d := Difference(f, ts, i, irreducible);
    forall j | 0 <= j < |points|
      ensures PolyValue(f, d, points[j]) == f.zero
    {
      var z := points[j];
      ValueOfFactors(f, ts[i].Pis, z, |ts[i].Pis|);
      ValueOfSum(f, Times(f, ts[i].Q, irreducible), EffectiveR(f, ts, i), z);
      ValueOfProduct(f, ts[i].Q, irreducible, z);
      ValueOfDifference(f, left, right, z);
    }
    PolynomialRing.ManyRootsMeanZero(f, d, points);
    ZeroDifference(f, left, right);
  }

  lemma ValueOfDifference<F(!new)>(f: Field<F>, p: seq<F>, q: seq<F>, z: F)
    requires f.IsField() && PolyValue(f, p, z) == PolyValue(f, q, z)
    ensures PolyValue(f, Polynomials.Sub(f, p, q), z) == f.zero
  {
    hide Field.IsField, PolyValue, Polynomials.Sub, Polynomials.Add;
    DifferencePlus(f, p, q);
    var d := Polynomials.Sub(f, p, q);
    ValueOfSum(f, d, q, z);
    ValueIsCongruent(f, Polynomials.Add(f, d, q), p, z);
    AddComm(f, PolyValue(f, d, z), PolyValue(f, q, z));
    NothingAdded(f, PolyValue(f, q, z), PolyValue(f, d, z));
  }

  lemma ZeroDifference<F(!new)>(f: Field<F>, p: seq<F>, q: seq<F>)
    requires f.IsField() && Same(f, Polynomials.Sub(f, p, q), [])
    ensures Same(f, p, q)
  {
    hide Field.IsField, Polynomials.Sub, Coef;
    forall i
      ensures Coef(f, p, i) == Coef(f, q, i)
    {
      CoefSub(f, p, q, i);
      assert Coef(f, Polynomials.Sub(f, p, q), i) == Coef(f, [], i) == f.zero by { EmptyCoef(f, i); }
      SubThenAdd(f, Coef(f, p, i), Coef(f, q, i));
      AddZero(f, Coef(f, q, i));
    }
  }

  lemma EmptyCoef<F(!new)>(f: Field<F>, i: int)
    ensures Coef(f, [], i) == f.zero
  {
  }
}
