/** Polynomial functions on a curve y^2 = w(x): lists of coefficients of the powers of y, as
    class FF keeps them, and the functions a(x) + b(x) y they denote on the curve. */
module FunctionField {
  import opened Fields
  import opened PolynomialRing
  import opened Polynomials
  import PolynomialAlgorithms
  import opened Results

  // ----- functions on the curve -----

  /** a(x) + b(x) y */
  datatype Fn<F> = Fn(a: seq<F>, b: seq<F>)

  predicate IsFn<F(==, !new)>(f: Field<F>, s: Fn<F>) {
    IsCanon(f, s.a) && IsCanon(f, s.b)
  }

  function FnAdd<F(==, !new)>(f: Field<F>, s: Fn<F>, t: Fn<F>): Fn<F> {
    Fn(PAdd(f, s.a, t.a), PAdd(f, s.b, t.b))
  }

  /** p(x) * s */
  function Scl<F(==, !new)>(f: Field<F>, p: seq<F>, s: Fn<F>): Fn<F> {
    Fn(PMul(f, p, s.a), PMul(f, p, s.b))
  }

  /** y * s */
  function TimesY<F(==, !new)>(f: Field<F>, w: seq<F>, s: Fn<F>): Fn<F> {
    Fn(PMul(f, w, s.b), s.a)
  }

  function FnMul<F(==, !new)>(f: Field<F>, w: seq<F>, s: Fn<F>, t: Fn<F>): Fn<F> {
    FnAdd(f, Scl(f, s.a, t), Scl(f, s.b, TimesY(f, w, t)))
  }

  lemma ResultsAreFns<F(!new)>(f: Field<F>, w: seq<F>, p: seq<F>, s: Fn<F>, t: Fn<F>)
    ensures IsFn(f, FnAdd(f, s, t)) && IsFn(f, Scl(f, p, s)) && IsFn(f, FnMul(f, w, s, t))
    ensures IsFn(f, s) ==> IsFn(f, TimesY(f, w, s))
    ensures IsFn(f, Fn(Canon(f, p), [])) && IsFn(f, Fn([], []))
  {
    hide Canon;
    CanonOfNothing(f);
    CanonTwice(f, p);
    CanonTwice(f, Add(f, s.a, t.a));
    CanonTwice(f, Add(f, s.b, t.b));
    CanonTwice(f, Times(f, p, s.a));
    CanonTwice(f, Times(f, p, s.b));
    CanonTwice(f, Times(f, w, s.b));
    var u, v := Scl(f, s.a, t), Scl(f, s.b, TimesY(f, w, t));
    CanonTwice(f, Add(f, u.a, v.a));
    CanonTwice(f, Add(f, u.b, v.b));
  }

  lemma FnAddComm<F(!new)>(f: Field<F>, s: Fn<F>, t: Fn<F>)
    requires f.IsField()
    ensures FnAdd(f, s, t) == FnAdd(f, t, s)
  {
    PAddComm(f, s.a, t.a);
    PAddComm(f, s.b, t.b);
  }

  lemma FnAddAssoc<F(!new)>(f: Field<F>, s: Fn<F>, t: Fn<F>, u: Fn<F>)
    requires f.IsField()
    ensures FnAdd(f, FnAdd(f, s, t), u) == FnAdd(f, s, FnAdd(f, t, u))
  {
    hide Field.IsField, PAdd;
    PAddAssoc(f, s.a, t.a, u.a);
    PAddAssoc(f, s.b, t.b, u.b);
  }

  lemma FnAddZero<F(!new)>(f: Field<F>, s: Fn<F>)
    requires f.IsField() && IsFn(f, s)
    ensures FnAdd(f, s, Fn([], [])) == s == FnAdd(f, Fn([], []), s)
  {
    hide Field.IsField, PAdd, Canon;
    SameItself(f, []);
    PAddZero(f, s.a, []);
    PAddZero(f, s.b, []);
  }

  lemma SclOverSum<F(!new)>(f: Field<F>, p: seq<F>, s: Fn<F>, t: Fn<F>)
    requires f.IsField()
    ensures Scl(f, p, FnAdd(f, s, t)) == FnAdd(f, Scl(f, p, s), Scl(f, p, t))
  {
    hide Field.IsField, PAdd, PMul;
    PDistrib(f, p, s.a, t.a);
    PDistrib(f, p, s.b, t.b);
  }

  lemma SclOfSum<F(!new)>(f: Field<F>, p: seq<F>, q: seq<F>, s: Fn<F>)
    requires f.IsField()
    ensures Scl(f, PAdd(f, p, q), s) == FnAdd(f, Scl(f, p, s), Scl(f, q, s))
  {
    hide Field.IsField, PAdd, PMul;
    PDistrib(f, s.a, p, q);
    PDistrib(f, s.b, p, q);
  }

  lemma SclOfScl<F(!new)>(f: Field<F>, p: seq<F>, q: seq<F>, s: Fn<F>)
    requires f.IsField()
    ensures Scl(f, p, Scl(f, q, s)) == Scl(f, PMul(f, p, q), s)
  {
    hide Field.IsField, PMul;
    PMulAssoc(f, p, q, s.a);
    PMulAssoc(f, p, q, s.b);
  }

  lemma SclOfSame<F(!new)>(f: Field<F>, p: seq<F>, q: seq<F>, s: Fn<F>)
    requires f.IsField() && Same(f, p, q)
    ensures Scl(f, p, s) == Scl(f, q, s)
  {
    hide Field.IsField, PMul, Same;
    SameItself(f, s.a);
    SameItself(f, s.b);
    PMulOf(f, p, s.a, q, s.a);
    PMulOf(f, p, s.b, q, s.b);
  }

  lemma SclOfZero<F(!new)>(f: Field<F>, p: seq<F>, s: Fn<F>)
    requires f.IsField()
    ensures Same(f, p, []) ==> Scl(f, p, s) == Fn([], [])
    ensures Scl(f, p, Fn([], [])) == Fn([], [])
  {
    hide Field.IsField, PMul, Same;
    SameItself(f, []);
    PMulZero(f, p, []);
    if Same(f, p, []) {
      PMulZero(f, s.a, p);
      PMulZero(f, s.b, p);
    }
  }

  lemma YOverSum<F(!new)>(f: Field<F>, w: seq<F>, s: Fn<F>, t: Fn<F>)
    requires f.IsField()
    ensures TimesY(f, w, FnAdd(f, s, t)) == FnAdd(f, TimesY(f, w, s), TimesY(f, w, t))
  {
    hide Field.IsField, PAdd, PMul;
    PDistrib(f, w, s.b, t.b);
  }

  lemma YOfScl<F(!new)>(f: Field<F>, w: seq<F>, p: seq<F>, s: Fn<F>)
    requires f.IsField()
    ensures TimesY(f, w, Scl(f, p, s)) == Scl(f, p, TimesY(f, w, s))
  {
    hide Field.IsField, PMul;
    PMulAssoc(f, w, p, s.b);
    PMulAssoc(f, p, w, s.b);
    PMulComm(f, w, p);
  }

  /** y * y * s == w * s */
  lemma YTwice<F(!new)>(f: Field<F>, w: seq<F>, s: Fn<F>)
    ensures TimesY(f, w, TimesY(f, w, s)) == Scl(f, w, s)
  {
  }

  lemma MulOfSum<F(!new)>(f: Field<F>, w: seq<F>, s: Fn<F>, s': Fn<F>, t: Fn<F>)
    requires f.IsField()
    ensures FnMul(f, w, FnAdd(f, s, s'), t) == FnAdd(f, FnMul(f, w, s, t), FnMul(f, w, s', t))
  {
    hide Field.IsField, Scl, TimesY;
    var yt := TimesY(f, w, t);
    SclOfSum(f, s.a, s'.a, t);
    SclOfSum(f, s.b, s'.b, yt);
    FnInterchange(f, Scl(f, s.a, t), Scl(f, s'.a, t), Scl(f, s.b, yt), Scl(f, s'.b, yt));
  }

  lemma FnInterchange<F(!new)>(f: Field<F>, s: Fn<F>, t: Fn<F>, u: Fn<F>, v: Fn<F>)
    requires f.IsField()
    ensures FnAdd(f, FnAdd(f, s, t), FnAdd(f, u, v)) == FnAdd(f, FnAdd(f, s, u), FnAdd(f, t, v))
  {
    hide Field.IsField, FnAdd;
    FnAddAssoc(f, s, t, FnAdd(f, u, v));
    FnAddAssoc(f, t, u, v);
    FnAddComm(f, t, u);
    FnAddAssoc(f, u, t, v);
    FnAddAssoc(f, s, u, FnAdd(f, t, v));
  }

  lemma MulOfY<F(!new)>(f: Field<F>, w: seq<F>, s: Fn<F>, t: Fn<F>)
    requires f.IsField()
    ensures FnMul(f, w, TimesY(f, w, s), t) == TimesY(f, w, FnMul(f, w, s, t))
  {
    hide Field.IsField, Scl, FnAdd, PMul;
    var yt := TimesY(f, w, t);
    YOverSum(f, w, Scl(f, s.a, t), Scl(f, s.b, yt));
    YOfScl(f, w, s.a, t);
    YOfScl(f, w, s.b, yt);
    YTwice(f, w, t);
    SclOfScl(f, s.b, w, t);
    PMulComm(f, s.b, w);
    FnAddComm(f, Scl(f, PMul(f, w, s.b), t), Scl(f, s.a, yt));
  }

  /** Multiplying by a polynomial in x. */
  lemma MulOfPolynomial<F(!new)>(f: Field<F>, w: seq<F>, p: seq<F>, t: Fn<F>)
    requires f.IsField()
    ensures FnMul(f, w, Fn(p, []), t) == Scl(f, p, t)
  {
    hide Field.IsField, Scl, TimesY, FnAdd;
    SameItself(f, []);
    SclOfZero(f, [], TimesY(f, w, t));
    ResultsAreFns(f, w, p, t, t);
    FnAddZero(f, Scl(f, p, t));
  }

  /** p(x) moves out of a product. */
  lemma MulOfScl<F(!new)>(f: Field<F>, w: seq<F>, p: seq<F>, s: Fn<F>, t: Fn<F>)
    requires f.IsField()
    ensures FnMul(f, w, Scl(f, p, s), t) == Scl(f, p, FnMul(f, w, s, t))
  {
    hide Field.IsField, FnAdd, PMul, TimesY;
    var yt := TimesY(f, w, t);
    SclOfScl(f, p, s.a, t);
    SclOfScl(f, p, s.b, yt);
    SclOverSum(f, p, Scl(f, s.a, t), Scl(f, s.b, yt));
  }

  lemma FnMulAssoc<F(!new)>(f: Field<F>, w: seq<F>, s: Fn<F>, t: Fn<F>, u: Fn<F>)
    requires f.IsField()
    ensures FnMul(f, w, FnMul(f, w, s, t), u) == FnMul(f, w, s, FnMul(f, w, t, u))
  {
    hide Field.IsField, FnAdd, Scl, TimesY;
    var yt := TimesY(f, w, t);
    MulOfSum(f, w, Scl(f, s.a, t), Scl(f, s.b, yt), u);
    MulOfScl(f, w, s.a, t, u);
    MulOfScl(f, w, s.b, yt, u);
    MulOfY(f, w, t, u);
  }

  lemma FnMulComm<F(!new)>(f: Field<F>, w: seq<F>, s: Fn<F>, t: Fn<F>)
    requires f.IsField()
    ensures FnMul(f, w, s, t) == FnMul(f, w, t, s)
  {
    hide Field.IsField, PAdd, PMul;
    PMulComm(f, s.a, t.a);
    PMulAssoc(f, s.b, w, t.b);
    PMulAssoc(f, t.b, w, s.b);
    PMulComm(f, s.b, w);
    PMulComm(f, t.b, w);
    PMulAssoc(f, w, s.b, t.b);
    PMulAssoc(f, w, t.b, s.b);
    PMulComm(f, s.b, t.b);
    PMulComm(f, s.a, t.b);
    PMulComm(f, s.b, t.a);
    PAddComm(f, PMul(f, s.a, t.b), PMul(f, s.b, t.a));
  }

  /** (s t) (u v) == (s u) (t v) */
  lemma FnMulInterchange<F(!new)>(f: Field<F>, w: seq<F>, s: Fn<F>, t: Fn<F>, u: Fn<F>, v: Fn<F>)
    requires f.IsField()
    ensures FnMul(f, w, FnMul(f, w, s, t), FnMul(f, w, u, v)) == FnMul(f, w, FnMul(f, w, s, u), FnMul(f, w, t, v))
  {
    hide Field.IsField, FnMul;
    FnMulAssoc(f, w, s, t, FnMul(f, w, u, v));
    FnMulAssoc(f, w, t, u, v);
    FnMulComm(f, w, t, u);
    FnMulAssoc(f, w, u, t, v);
    FnMulAssoc(f, w, s, u, FnMul(f, w, t, v));
  }

  // ----- pole orders -----

  /** The pole order at infinity, where x counts 2 and y counts 3; the even and the odd part never tie. */
  function PoleOfDegrees(d: int, e: int): int {
    var odd := if e == -1 then -2 else 2 * e + 3;
    if 2 * d >= odd then 2 * d else odd
  }

  function PoleOrder<F(==, !new)>(f: Field<F>, s: Fn<F>): int {
    PoleOfDegrees(Degree(f, s.a), Degree(f, s.b))
  }

  lemma PoleOfZero<F(!new)>(f: Field<F>, s: Fn<F>)
    requires IsFn(f, s)
    ensures PoleOrder(f, s) < 0 <==> s == Fn([], [])
    ensures PoleOrder(f, s) >= -2
  {
    ZeroDegree(f, s.a);
    ZeroDegree(f, s.b);
  }

  /** The degree of a product, zero factors included. */
  lemma DegreeOfPMul<F(!new)>(f: Field<F>, p: seq<F>, q: seq<F>)
    requires f.IsField()
    ensures Degree(f, PMul(f, p, q)) == if Degree(f, p) == -1 || Degree(f, q) == -1 then -1 else Degree(f, p) + Degree(f, q)
  {
    hide Field.IsField, PMul, Degree, Canon, Same;
    ZeroDegree(f, p);
    ZeroDegree(f, q);
    CanonOfNothing(f);
    ZeroDegree(f, []) by { SameItself(f, []); }
    if Degree(f, p) >= 0 && Degree(f, q) >= 0 {
      DegreeOfProductIs(f, p, q);
    } else {
      NoZeroPolynomials(f, p, q);
    }
  }

  lemma LargerSummand<F(!new)>(f: Field<F>, p: seq<F>, q: seq<F>)
    requires f.IsField()
    ensures Degree(f, p) > Degree(f, q) ==> Degree(f, PAdd(f, p, q)) == Degree(f, p)
    ensures Degree(f, p) < Degree(f, q) ==> Degree(f, PAdd(f, p, q)) == Degree(f, q)
    ensures Degree(f, PAdd(f, p, q)) <= if Degree(f, p) > Degree(f, q) then Degree(f, p) else Degree(f, q)
  {
    hide Field.IsField, PAdd, Degree;
    if Degree(f, p) > Degree(f, q) {
      DegreeOfSum(f, p, q);
    } else if Degree(f, p) < Degree(f, q) {
      DegreeOfSum(f, q, p);
    } else {
      DegreeOfEqualSum(f, p, q);
    }
  }

  lemma DegreeOfEqualSum<F(!new)>(f: Field<F>, p: seq<F>, q: seq<F>)
    requires f.IsField() && Degree(f, p) == Degree(f, q)
    ensures Degree(f, PAdd(f, p, q)) <= Degree(f, p)
  {
    hide Field.IsField, Degree, Add, Coef;
    var s := Add(f, p, q);
    CanonDegree(f, s);
    TopCoef(f, s);
    CoefAdd(f, p, q, Degree(f, s));
    AddZero(f, f.zero);
  }

  /** The degree of a product of polynomials of the given degrees. */
  function SumOrZero(d: int, e: int): int {
    if d == -1 || e == -1 then -1 else d + e
  }

  lemma PartsOfProduct<F(!new)>(f: Field<F>, w: seq<F>, s: Fn<F>, t: Fn<F>)
    requires f.IsField() && Degree(f, w) == 3
    ensures var p, q := SumOrZero(Degree(f, s.a), Degree(f, t.a)), SumOrZero(Degree(f, s.b), SumOrZero(3, Degree(f, t.b)));
      var d := Degree(f, FnMul(f, w, s, t).a);
      (p > q ==> d == p) && (p < q ==> d == q) && (p == q ==> d <= p)
    ensures var p, q := SumOrZero(Degree(f, s.a), Degree(f, t.b)), SumOrZero(Degree(f, s.b), Degree(f, t.a));
      var d := Degree(f, FnMul(f, w, s, t).b);
      (p > q ==> d == p) && (p < q ==> d == q) && (p == q ==> d <= p)
  {
    hide Field.IsField, PMul, PAdd, Degree;
    DegreeOfPMul(f, s.a, t.a);
    DegreeOfPMul(f, s.a, t.b);
    DegreeOfPMul(f, w, t.b);
    DegreeOfPMul(f, s.b, PMul(f, w, t.b));
    DegreeOfPMul(f, s.b, t.a);
    LargerSummand(f, PMul(f, s.a, t.a), PMul(f, s.b, PMul(f, w, t.b)));
    LargerSummand(f, PMul(f, s.a, t.b), PMul(f, s.b, t.a));
  }

  lemma PolesAdd(d: int, e: int, d': int, e': int, a: int, b: int)
    requires d >= -1 && e >= -1 && d' >= -1 && e' >= -1 && a >= -1 && b >= -1
    requires !(d == e == -1) && !(d' == e' == -1)
    requires var p, q := SumOrZero(d, d'), SumOrZero(e, SumOrZero(3, e')); (p > q ==> a == p) && (p < q ==> a == q) && (p == q ==> a <= p)
    requires var p, q := SumOrZero(d, e'), SumOrZero(e, d'); (p > q ==> b == p) && (p < q ==> b == q) && (p == q ==> b <= p)
    ensures PoleOfDegrees(a, b) == PoleOfDegrees(d, e) + PoleOfDegrees(d', e') >= 0
  {
  }

  lemma PoleIsOfDegrees<F(!new)>(f: Field<F>, s: Fn<F>)
    ensures PoleOrder(f, s) == PoleOfDegrees(Degree(f, s.a), Degree(f, s.b))
    ensures Degree(f, s.a) >= -1 && Degree(f, s.b) >= -1
    ensures Degree(f, s.a) == Degree(f, s.b) == -1 ==> PoleOrder(f, s) < 0
  {
    hide Degree;
  }

  /** Over a cubic, pole orders add; in particular a product is zero only if a factor is. */
  lemma PoleOfProduct<F(!new)>(f: Field<F>, w: seq<F>, s: Fn<F>, t: Fn<F>)
    requires f.IsField() && Degree(f, w) == 3 && IsFn(f, s) && IsFn(f, t) && s != Fn([], []) && t != Fn([], [])
    ensures PoleOrder(f, FnMul(f, w, s, t)) == PoleOrder(f, s) + PoleOrder(f, t)
    ensures IsFn(f, FnMul(f, w, s, t)) && FnMul(f, w, s, t) != Fn([], [])
  {
    hide Field.IsField, FnMul, Degree, IsFn, PoleOrder, SumOrZero, PoleOfDegrees;
    var u := FnMul(f, w, s, t);
    ResultsAreFns(f, w, [], s, t);
    PoleOfZero(f, s);
    PoleOfZero(f, t);
    PoleOfZero(f, u);
    PoleIsOfDegrees(f, s);
    PoleIsOfDegrees(f, t);
    PoleIsOfDegrees(f, u);
    PartsOfProduct(f, w, s, t);
    PolesAdd(Degree(f, s.a), Degree(f, s.b), Degree(f, t.a), Degree(f, t.b), Degree(f, u.a), Degree(f, u.b));
  }

  // ----- powers of y -----

  function YPow<F(==, !new)>(f: Field<F>, w: seq<F>, k: nat, s: Fn<F>): Fn<F> {
    if k == 0 then s else TimesY(f, w, YPow(f, w, k - 1, s))
  }

  lemma {:induction false} YPowOverSum<F(!new)>(f: Field<F>, w: seq<F>, k: nat, s: Fn<F>, t: Fn<F>)
    requires f.IsField()
    ensures YPow(f, w, k, FnAdd(f, s, t)) == FnAdd(f, YPow(f, w, k, s), YPow(f, w, k, t))
  {
    hide Field.IsField, TimesY, FnAdd;
    if k > 0 {
      YPowOverSum(f, w, k - 1, s, t);
      YOverSum(f, w, YPow(f, w, k - 1, s), YPow(f, w, k - 1, t));
    }
  }

  lemma {:induction false} YPowOfScl<F(!new)>(f: Field<F>, w: seq<F>, k: nat, p: seq<F>, s: Fn<F>)
    requires f.IsField()
    ensures YPow(f, w, k, Scl(f, p, s)) == Scl(f, p, YPow(f, w, k, s))
  {
    hide Field.IsField, TimesY, Scl;
    if k > 0 {
      YPowOfScl(f, w, k - 1, p, s);
      YOfScl(f, w, p, YPow(f, w, k - 1, s));
    }
  }

  lemma {:induction false} YPowAdds<F(!new)>(f: Field<F>, w: seq<F>, j: nat, k: nat, s: Fn<F>)
    ensures YPow(f, w, j, YPow(f, w, k, s)) == YPow(f, w, j + k, s)
  {
    hide TimesY;
    if j > 0 {
      YPowAdds(f, w, j - 1, k, s);
    }
  }

  lemma {:induction false} MulOfYPow<F(!new)>(f: Field<F>, w: seq<F>, k: nat, s: Fn<F>, t: Fn<F>)
    requires f.IsField()
    ensures FnMul(f, w, YPow(f, w, k, s), t) == YPow(f, w, k, FnMul(f, w, s, t))
  {
    hide Field.IsField, TimesY, FnMul;
    if k > 0 {
      MulOfYPow(f, w, k - 1, s, t);
      MulOfY(f, w, YPow(f, w, k - 1, s), t);
    }
  }

  // ----- coefficient lists -----

  /** The function sum of cs[k] * y^k. */
  function Red<F(==, !new)>(f: Field<F>, w: seq<F>, cs: seq<seq<F>>): Fn<F> {
    if cs == [] then Fn([], []) else FnAdd(f, Fn(Canon(f, cs[0]), []), TimesY(f, w, Red(f, w, cs[1..])))
  }

  /** p * y^k */
  function Term<F(==, !new)>(f: Field<F>, w: seq<F>, p: seq<F>, k: nat): Fn<F> {
    YPow(f, w, k, Fn(Canon(f, p), []))
  }

  lemma RedIsFn<F(!new)>(f: Field<F>, w: seq<F>, cs: seq<seq<F>>)
    ensures IsFn(f, Red(f, w, cs))
  {
    ResultsAreFns(f, w, [], Fn([], []), Fn([], []));
    if cs != [] {
      ResultsAreFns(f, w, [], Fn(Canon(f, cs[0]), []), TimesY(f, w, Red(f, w, cs[1..])));
    }
  }

  lemma {:induction false} RedNext<F(!new)>(f: Field<F>, w: seq<F>, cs: seq<seq<F>>, p: seq<F>)
    requires f.IsField()
    ensures Red(f, w, cs + [p]) == FnAdd(f, Red(f, w, cs), Term(f, w, p, |cs|))
  {
    hide Field.IsField, TimesY, FnAdd, Canon;
    if cs == [] {
      assert [p][1..] == [];
      assert cs + [p] == [p];
      ResultsAreFns(f, w, p, Fn([], []), Fn([], []));
      FnAddZero(f, Fn(Canon(f, p), []));
      YOfNothing(f, w);
    } else {
      RedNext(f, w, cs[1..], p);
      assert (cs + [p])[1..] == cs[1..] + [p];
      YOverSum(f, w, Red(f, w, cs[1..]), Term(f, w, p, |cs| - 1));
      FnAddAssoc(f, Fn(Canon(f, cs[0]), []), TimesY(f, w, Red(f, w, cs[1..])), Term(f, w, p, |cs|));
    }
  }

  lemma YOfNothing<F(!new)>(f: Field<F>, w: seq<F>)
    requires f.IsField()
    ensures TimesY(f, w, Fn([], [])) == Fn([], [])
  {
    hide Field.IsField, PMul;
    SameItself(f, []);
    PMulZero(f, w, []);
  }

  lemma {:induction false} RedUpdate<F(!new)>(f: Field<F>, w: seq<F>, cs: seq<seq<F>>, k: nat, p: seq<F>)
    requires f.IsField() && k < |cs|
    ensures Red(f, w, cs[k := Add(f, cs[k], p)]) == FnAdd(f, Red(f, w, cs), Term(f, w, p, k))
  {
    hide Field.IsField, TimesY, Canon;
    var new' := cs[k := Add(f, cs[k], p)];
    var rest := TimesY(f, w, Red(f, w, cs[1..]));
    if k == 0 {
      hide PAdd;
      assert new'[1..] == cs[1..];
      var c0, t := Fn(Canon(f, cs[0]), []), Fn(Canon(f, p), []);
      CanonOfSum(f, cs[0], p);
      hide FnAdd;
      FnAddAssoc(f, c0, t, rest);
      FnAddComm(f, t, rest);
      FnAddAssoc(f, c0, rest, t);
    } else {
      hide FnAdd;
      assert new'[1..] == cs[1..][k - 1 := Add(f, cs[1..][k - 1], p)] && new'[0] == cs[0];
      RedUpdate(f, w, cs[1..], k - 1, p);
      YOverSum(f, w, Red(f, w, cs[1..]), Term(f, w, p, k - 1));
      FnAddAssoc(f, Fn(Canon(f, cs[0]), []), rest, Term(f, w, p, k));
    }
  }

  lemma CanonOfSum<F(!new)>(f: Field<F>, p: seq<F>, q: seq<F>)
    requires f.IsField()
    ensures Fn(Canon(f, Add(f, p, q)), []) == FnAdd(f, Fn(Canon(f, p), []), Fn(Canon(f, q), []))
  {
    hide Field.IsField, Canon;
    PAddOf(f, Canon(f, p), Canon(f, q), p, q);
    SameItself(f, []);
    PAddZero(f, [], []);
    CanonOfNothing(f);
  }

  lemma {:induction false} RedOfZeros<F(!new)>(f: Field<F>, w: seq<F>, cs: seq<seq<F>>)
    requires f.IsField() && forall i :: 0 <= i < |cs| ==> Same(f, cs[i], [])
    ensures Red(f, w, cs) == Fn([], [])
  {
    hide Field.IsField, TimesY, FnAdd, Canon, Same;
    if cs != [] {
      RedOfZeros(f, w, cs[1..]);
      CanonIsUnique(f, cs[0], []);
      CanonOfNothing(f);
      YOfNothing(f, w);
      ResultsAreFns(f, w, [], Fn([], []), Fn([], []));
      FnAddZero(f, Fn([], []));
    }
  }

  lemma {:induction false} RedOfSame<F(!new)>(f: Field<F>, w: seq<F>, cs: seq<seq<F>>, ds: seq<seq<F>>)
    requires |cs| == |ds| && forall i :: 0 <= i < |cs| ==> Same(f, cs[i], ds[i])
    ensures Red(f, w, cs) == Red(f, w, ds)
  {
    hide TimesY, FnAdd, Canon, Same;
    if cs != [] {
      RedOfSame(f, w, cs[1..], ds[1..]);
      CanonIsUnique(f, cs[0], ds[0]);
    }
  }

  /** One coefficient, or two. */
  lemma RedOfFew<F(!new)>(f: Field<F>, w: seq<F>, p: seq<F>, q: seq<F>)
    requires f.IsField()
    ensures Red(f, w, [p]) == Fn(Canon(f, p), [])
    ensures Red(f, w, [p, q]) == Fn(Canon(f, p), Canon(f, q))
  {
    hide Field.IsField, Canon, PAdd, PMul;
    var z: Fn<F> := Fn([], []);
    SameItself(f, []);
    assert [p] == [] + [p] && [p, q] == [p] + [q];
    RedNext(f, w, [], p);
    RedNext(f, w, [p], q);
    ResultsAreFns(f, w, p, z, z);
    FnAddZero(f, Fn(Canon(f, p), []));
    CanonTwice(f, p);
    CanonTwice(f, q);
    PMulZero(f, w, []);
    PAddZero(f, Canon(f, p), []);
    PAddZero(f, Canon(f, q), []);
    assert Term(f, w, q, 1) == TimesY(f, w, Term(f, w, q, 0));
  }

  // ----- multiplication of lists -----

  /** FF.__mul__ for two functions. */
  method Multiply<F(==, !new)>(f: Field<F>, xs: seq<seq<F>>, ys: seq<seq<F>>, ghost w: seq<F>) returns (buf: seq<seq<F>>)
    requires f.IsField()
    ensures Red(f, w, buf) == FnMul(f, w, Red(f, w, xs), Red(f, w, ys))
    ensures |buf| == if xs == [] || ys == [] then 1 else |xs| + |ys| - 1
  {
    hide Field.IsField, Red, FnMul, FnAdd, Scl, Same, Degree;
    PolynomialAlgorithms.ZeroIsEmpty(f);
    if xs == [] || ys == [] {
      RedOfZeros(f, w, [[f.zero]]);
      NothingTimes(f, w, xs, ys);
      return [[f.zero]];
    }
    buf := seq(|xs| + |ys| - 1, _ => [f.zero]);
    RedOfZeros(f, w, buf);
    NothingTimes(f, w, [], ys);
    assert xs[..0] == [];
    for i := 0 to |xs|
      invariant |buf| == |xs| + |ys| - 1
      invariant Red(f, w, buf) == FnMul(f, w, Red(f, w, xs[..i]), Red(f, w, ys))
    {
      assert xs[..i + 1] == xs[..i] + [xs[i]];
      RowAdds(f, w, xs[..i], xs[i], ys);
      RedIsFn(f, w, buf);
      RowStart(f, w, Red(f, w, buf), i, xs[i], ys);
      if Degree(f, xs[i]) == -1 {
        EmptyRow(f, w, Red(f, w, buf), i, xs[i], ys);
      } else {
        ghost var start := Red(f, w, buf);
        for j := 0 to |ys|
          invariant |buf| == |xs| + |ys| - 1
          invariant Red(f, w, buf) == FnAdd(f, start, YPow(f, w, i, Scl(f, xs[i], Red(f, w, ys[..j]))))
        {
          var product := PolynomialAlgorithms.Mul(f, xs[i], ys[j]);
          RedUpdate(f, w, buf, i + j, product);
          assert ys[..j + 1] == ys[..j] + [ys[j]];
          RowStep(f, w, start, i, xs[i], ys[..j], ys[j], product);
          buf := buf[i + j := Add(f, buf[i + j], product)];
        }
        assert ys[..|ys|] == ys;
      }
    }
    assert xs[..|xs|] == xs;
  }

  lemma NothingTimes<F(!new)>(f: Field<F>, w: seq<F>, xs: seq<seq<F>>, ys: seq<seq<F>>)
    requires f.IsField() && (xs == [] || ys == [])
    ensures FnMul(f, w, Red(f, w, xs), Red(f, w, ys)) == Fn([], [])
  {
    hide Field.IsField, FnAdd, Scl, TimesY;
    SameItself(f, []);
    var z: Fn<F> := Fn([], []);
    YOfNothing(f, w);
    SclOfZero(f, [], Red(f, w, ys));
    SclOfZero(f, [], TimesY(f, w, Red(f, w, ys)));
    SclOfZero(f, Red(f, w, xs).a, z);
    SclOfZero(f, Red(f, w, xs).b, z);
    ResultsAreFns(f, w, [], z, z);
    FnAddZero(f, z);
  }

  lemma RowStart<F(!new)>(f: Field<F>, w: seq<F>, start: Fn<F>, i: nat, x: seq<F>, ys: seq<seq<F>>)
    requires f.IsField() && IsFn(f, start)
    ensures start == FnAdd(f, start, YPow(f, w, i, Scl(f, x, Red(f, w, ys[..0]))))
  {
    hide Field.IsField, FnAdd, Scl, TimesY;
    assert ys[..0] == [];
    SclOfZero(f, x, Fn([], []));
    YPowOfNothing(f, w, i);
    FnAddZero(f, start);
  }

  lemma {:induction false} YPowOfNothing<F(!new)>(f: Field<F>, w: seq<F>, k: nat)
    requires f.IsField()
    ensures YPow(f, w, k, Fn([], [])) == Fn([], [])
  {
    if k > 0 {
      YPowOfNothing(f, w, k - 1);
      YOfNothing(f, w);
    }
  }

  /** A zero coefficient adds nothing. */
  lemma EmptyRow<F(!new)>(f: Field<F>, w: seq<F>, start: Fn<F>, i: nat, x: seq<F>, ys: seq<seq<F>>)
    requires f.IsField() && Degree(f, x) == -1
    requires start == FnAdd(f, start, YPow(f, w, i, Scl(f, x, Red(f, w, ys[..0]))))
    ensures start == FnAdd(f, start, YPow(f, w, i, Scl(f, x, Red(f, w, ys))))
  {
    hide Field.IsField, FnAdd, Scl, Same;
    ZeroDegree(f, x);
    SclOfZero(f, x, Red(f, w, ys));
    SclOfZero(f, x, Red(f, w, ys[..0]));
  }

  lemma RowStep<F(!new)>(f: Field<F>, w: seq<F>, start: Fn<F>, i: nat, x: seq<F>, ys: seq<seq<F>>, y: seq<F>, product: seq<F>)
    requires f.IsField() && Same(f, product, Times(f, x, y))
    ensures FnAdd(f, FnAdd(f, start, YPow(f, w, i, Scl(f, x, Red(f, w, ys)))), Term(f, w, product, i + |ys|))
      == FnAdd(f, start, YPow(f, w, i, Scl(f, x, Red(f, w, ys + [y]))))
  {
    hide Field.IsField, FnAdd, Red, YPow, Times, Same, Canon;
    var t := Term(f, w, y, |ys|);
    RedNext(f, w, ys, y);
    assert Scl(f, x, Fn(Canon(f, y), [])) == Fn(Canon(f, product), []) by {
      SameItself(f, x);
      PMulOf(f, x, Canon(f, y), x, y);
      CanonIsUnique(f, product, Times(f, x, y));
      SameItself(f, []);
      PMulZero(f, x, []);
    }
    hide Scl;
    SclOverSum(f, x, Red(f, w, ys), t);
    YPowOverSum(f, w, i, Scl(f, x, Red(f, w, ys)), Scl(f, x, t));
    YPowOfScl(f, w, |ys|, x, Fn(Canon(f, y), []));
    YPowAdds(f, w, i, |ys|, Fn(Canon(f, product), []));
    FnAddAssoc(f, start, YPow(f, w, i, Scl(f, x, Red(f, w, ys))), Term(f, w, product, i + |ys|));
  }

  /** One more coefficient on the left multiplies the whole right side. */
  lemma RowAdds<F(!new)>(f: Field<F>, w: seq<F>, xs: seq<seq<F>>, x: seq<F>, ys: seq<seq<F>>)
    requires f.IsField()
    ensures FnMul(f, w, Red(f, w, xs + [x]), Red(f, w, ys))
      == FnAdd(f, FnMul(f, w, Red(f, w, xs), Red(f, w, ys)), YPow(f, w, |xs|, Scl(f, x, Red(f, w, ys))))
  {
    hide Field.IsField, FnAdd, FnMul, Red, YPow, Scl, Same, Canon;
    var z := Red(f, w, ys);
    RedNext(f, w, xs, x);
    MulOfSum(f, w, Red(f, w, xs), Term(f, w, x, |xs|), z);
    MulOfYPow(f, w, |xs|, Fn(Canon(f, x), []), z);
    MulOfPolynomial(f, w, Canon(f, x), z);
    SclOfSame(f, Canon(f, x), x, z);
  }

  // ----- reduce -----

  /** The loop of FF.reduce from place i: s holds the two sums, y2 the current power. */
  function ReduceFrom<F(==, !new)>(f: Field<F>, cs: seq<seq<F>>, i: nat, s: Fn<F>, y2: seq<F>): Fn<F>
    decreases |cs| - i
  {
    if i >= |cs| then s
    else if i % 2 == 0 then ReduceFrom(f, cs, i + 1, Fn(PAdd(f, s.a, PMul(f, cs[i], y2)), s.b), y2)
    else ReduceFrom(f, cs, i + 1, Fn(s.a, PAdd(f, s.b, PMul(f, cs[i], y2))), PMul(f, y2, y2))
  }

  /** What FF.reduce computes: the power of y^2 is squared at every odd place. */
  function CodeReduced<F(==, !new)>(f: Field<F>, w: seq<F>, cs: seq<seq<F>>): Fn<F> {
    if |cs| <= 2 then Red(f, w, cs)
    else ReduceFrom(f, cs, 2, Fn(Canon(f, cs[0]), Canon(f, cs[1])), Canon(f, w))
  }

  /** FF.reduce: always two coefficients. */
  method Reduce<F(==, !new)>(f: Field<F>, w: seq<F>, cs: seq<seq<F>>) returns (reduced: seq<seq<F>>)
    requires f.IsField() && cs != []
    ensures |reduced| == 2 && Red(f, w, reduced) == CodeReduced(f, w, cs)
  {
    hide Field.IsField, Red, Canon, PMul, PAdd, Same, Add;
    if |cs| == 1 {
      PolynomialAlgorithms.ZeroIsEmpty(f);
      PadWithZero(f, w, cs);
      return [cs[0], [f.zero]];
    }
    if |cs| == 2 {
      return cs;
    }
    var deg0, deg1, y2 := cs[0], cs[1], w;
    for i := 2 to |cs|
      invariant ReduceFrom(f, cs, i, Fn(Canon(f, deg0), Canon(f, deg1)), Canon(f, y2)) == CodeReduced(f, w, cs)
    {
      var product := PolynomialAlgorithms.Mul(f, cs[i], y2);
      if i % 2 == 0 {
        TermIsAdded(f, deg0, cs[i], y2, product);
        deg0 := Add(f, deg0, product);
      } else {
        TermIsAdded(f, deg1, cs[i], y2, product);
        deg1 := Add(f, deg1, product);
        var square := PolynomialAlgorithms.Mul(f, y2, y2);
        SquareIsCanon(f, y2, square);
        y2 := square;
      }
    }
    RedOfFew(f, w, deg0, deg1);
    return [deg0, deg1];
  }

  lemma PadWithZero<F(!new)>(f: Field<F>, w: seq<F>, cs: seq<seq<F>>)
    requires f.IsField() && |cs| == 1
    ensures Red(f, w, [cs[0], [f.zero]]) == Red(f, w, cs)
  {
    hide Field.IsField, Red, Canon, Same;
    assert cs == [cs[0]];
    PolynomialAlgorithms.ZeroIsEmpty(f);
    RedOfFew(f, w, cs[0], [f.zero]);
    CanonIsUnique(f, [f.zero], []);
    CanonOfNothing(f);
  }

  lemma TermIsAdded<F(!new)>(f: Field<F>, sum: seq<F>, c: seq<F>, y2: seq<F>, product: seq<F>)
    requires f.IsField() && Same(f, product, Times(f, c, y2))
    ensures Canon(f, Add(f, sum, product)) == PAdd(f, Canon(f, sum), PMul(f, c, Canon(f, y2)))
  {
    hide Field.IsField, Canon, Same, Times, Add;
    SameItself(f, c);
    PMulOf(f, c, Canon(f, y2), c, y2);
    CanonIsUnique(f, product, Times(f, c, y2));
    PAddOf(f, Canon(f, sum), PMul(f, c, Canon(f, y2)), sum, product);
  }

  lemma SquareIsCanon<F(!new)>(f: Field<F>, y2: seq<F>, square: seq<F>)
    requires f.IsField() && Same(f, square, Times(f, y2, y2))
    ensures Canon(f, square) == PMul(f, Canon(f, y2), Canon(f, y2))
  {
    hide Field.IsField, Canon, Same, Times;
    PMulOf(f, Canon(f, y2), Canon(f, y2), y2, y2);
    CanonIsUnique(f, square, Times(f, y2, y2));
  }

  /** p * w^k */
  function TimesPower<F(==, !new)>(f: Field<F>, w: seq<F>, k: nat, p: seq<F>): seq<F> {
    if k == 0 then Canon(f, p) else PMul(f, w, TimesPower(f, w, k - 1, p))
  }

  /** Even powers of y are powers of w; odd ones have one y left. */
  lemma {:induction false} TermIsPower<F(!new)>(f: Field<F>, w: seq<F>, p: seq<F>, k: nat)
    requires f.IsField()
    ensures Term(f, w, p, 2 * k) == Fn(TimesPower(f, w, k, p), [])
    ensures Term(f, w, p, 2 * k + 1) == Fn([], TimesPower(f, w, k, p))
  {
    hide Field.IsField, Canon, PMul;
    SameItself(f, []);
    PMulZero(f, w, []);
    if k > 0 {
      TermIsPower(f, w, p, k - 1);
      assert Term(f, w, p, 2 * k) == TimesY(f, w, Term(f, w, p, 2 * k - 1));
    }
    assert Term(f, w, p, 2 * k + 1) == TimesY(f, w, Term(f, w, p, 2 * k));
  }

  /** One correct step: the sum of the first i terms, with the matching power of w. */
  lemma ReduceStep<F(!new)>(f: Field<F>, w: seq<F>, cs: seq<seq<F>>, i: nat, y2: seq<F>)
    requires f.IsField() && i < |cs|
    requires PMul(f, cs[i], y2) == TimesPower(f, w, i / 2, cs[i])
    ensures var s := Red(f, w, cs[..i]);
      Red(f, w, cs[..i + 1]) == if i % 2 == 0 then Fn(PAdd(f, s.a, PMul(f, cs[i], y2)), s.b) else Fn(s.a, PAdd(f, s.b, PMul(f, cs[i], y2)))
  {
    hide Field.IsField, Canon, PMul, PAdd, Red;
    assert cs[..i + 1] == cs[..i] + [cs[i]];
    RedNext(f, w, cs[..i], cs[i]);
    TermIsPower(f, w, cs[i], i / 2);
    RedIsFn(f, w, cs[..i]);
    SameItself(f, []);
    PAddZero(f, Red(f, w, cs[..i]).a, []);
    PAddZero(f, Red(f, w, cs[..i]).b, []);
  }

  lemma SmallPowers<F(!new)>(f: Field<F>, w: seq<F>, p: seq<F>)
    requires f.IsField()
    ensures PMul(f, p, Canon(f, w)) == TimesPower(f, w, 1, p)
    ensures PMul(f, p, PMul(f, Canon(f, w), Canon(f, w))) == TimesPower(f, w, 2, p)
  {
    hide Field.IsField, Canon, PMul;
    SameItself(f, p);
    SameItself(f, w);
    PMulOf(f, p, Canon(f, w), Canon(f, p), w);
    PMulComm(f, Canon(f, p), w);
    PMulOf(f, Canon(f, w), Canon(f, w), w, w);
    PMulOf(f, p, PMul(f, w, w), Canon(f, p), PMul(f, w, w));
    PMulComm(f, Canon(f, p), PMul(f, w, w));
    PMulAssoc(f, w, w, Canon(f, p));
    assert TimesPower(f, w, 2, p) == PMul(f, w, TimesPower(f, w, 1, p));
  }

  /** Up to six coefficients the power of w is the right one. */
  lemma ReduceIsRight<F(!new)>(f: Field<F>, w: seq<F>, cs: seq<seq<F>>)
    requires f.IsField() && |cs| <= 6
    ensures CodeReduced(f, w, cs) == Red(f, w, cs)
  {
    hide Field.IsField, Canon, PMul, PAdd, Red, ReduceFrom;
    if |cs| > 2 {
      assert cs[..2] == [cs[0], cs[1]];
      RedOfFew(f, w, cs[0], cs[1]);
      ReducesFrom(f, w, cs, 2);
    }
  }

  lemma {:induction false} ReducesFrom<F(!new)>(f: Field<F>, w: seq<F>, cs: seq<seq<F>>, i: nat)
    requires f.IsField() && 2 <= i <= |cs| <= 6
    ensures ReduceFrom(f, cs, i, Red(f, w, cs[..i]), if i < 4 then Canon(f, w) else if i < 6 then PMul(f, Canon(f, w), Canon(f, w)) else
      PMul(f, PMul(f, Canon(f, w), Canon(f, w)), PMul(f, Canon(f, w), Canon(f, w)))) == Red(f, w, cs)
    decreases |cs| - i
  {
    hide Field.IsField, Canon, PMul, PAdd, Red, TimesPower;
    if i == |cs| {
      assert cs[..i] == cs;
    } else {
      SmallPowers(f, w, cs[i]);
      ReduceStep(f, w, cs, i, if i < 4 then Canon(f, w) else PMul(f, Canon(f, w), Canon(f, w)));
      ReducesFrom(f, w, cs, i + 1);
    }
  }

  /** y^6, written as a list of n coefficients. */
  function SixthPower<F>(one: F, n: nat): (cs: seq<seq<F>>)
    ensures |cs| == n
  {
    seq(n, i => if i == 6 then [one] else [])
  }

  lemma {:induction false} ReduceFromZeros<F(!new)>(f: Field<F>, cs: seq<seq<F>>, i: nat, s: Fn<F>, y2: seq<F>)
    requires f.IsField() && IsFn(f, s) && forall k :: i <= k < |cs| ==> cs[k] == []
    ensures ReduceFrom(f, cs, i, s, y2) == s
    decreases |cs| - i
  {
    hide Field.IsField, Canon, PMul, PAdd;
    if i < |cs| {
      SameItself(f, []);
      PMulZero(f, y2, []);
      PAddZero(f, s.a, []);
      PAddZero(f, s.b, []);
      ReduceFromZeros(f, cs, i + 1, s, if i % 2 == 0 then y2 else PMul(f, y2, y2));
    }
  }

  /** y^6 reduces to w^4 in the code and is w^3. */
  lemma SixthPowerIsWrong<F(!new)>(f: Field<F>, w: seq<F>, n: nat)
    requires f.IsField() && Degree(f, w) >= 1 && n > 6
    ensures CodeReduced(f, w, SixthPower(f.one, n)) != Red(f, w, SixthPower(f.one, n))
  {
    hide Field.IsField, Canon, PMul, PAdd, Red, Degree;
    var cs := SixthPower(f.one, n);
    var w1 := Canon(f, w);
    var w2 := PMul(f, w1, w1);
    var w4 := PMul(f, w2, w2);
    ResultsAreFns(f, w, w4, Fn([], []), Fn([], []));
    SixthPowerInCode(f, w, n);
    SixthPowerOnCurve(f, w, n);
    DegreeOfPower(f, w, 3);
    CanonDegree(f, w);
    DegreeOfProductIs(f, w1, w1);
    DegreeOfProductIs(f, w2, w2);
  }

  lemma DegreeOfProductIs<F(!new)>(f: Field<F>, p: seq<F>, q: seq<F>)
    requires f.IsField() && Degree(f, p) >= 0 && Degree(f, q) >= 0
    ensures Degree(f, PMul(f, p, q)) == Degree(f, p) + Degree(f, q)
  {
    DegreeOfProduct(f, p, q);
    CanonDegree(f, Times(f, p, q));
  }

  lemma DegreeOfOne<F(!new)>(f: Field<F>)
    requires f.IsField()
    ensures Degree(f, Canon(f, [f.one])) == 0
  {
    hide Field.IsField;
    PolynomialAlgorithms.OneIsNotZero(f);
    CanonDegree(f, [f.one]);
  }

  lemma {:induction false} DegreeOfPower<F(!new)>(f: Field<F>, w: seq<F>, k: nat)
    requires f.IsField() && Degree(f, w) >= 0
    ensures Degree(f, TimesPower(f, w, k, [f.one])) == k * Degree(f, w)
  {
    hide Field.IsField, PMul, Canon, Degree;
    var d := Degree(f, w);
    if k == 0 {
      DegreeOfOne(f);
    } else {
      DegreeOfPower(f, w, k - 1);
      assert k * d == (k - 1) * d + d && (k - 1) * d >= 0;
      DegreeOfProductIs(f, w, TimesPower(f, w, k - 1, [f.one]));
    }
  }

  lemma SixthPowerInCode<F(!new)>(f: Field<F>, w: seq<F>, n: nat)
    requires f.IsField() && n > 6
    ensures var w2 := PMul(f, Canon(f, w), Canon(f, w)); CodeReduced(f, w, SixthPower(f.one, n)) == Fn(PMul(f, w2, w2), [])
  {
    hide Field.IsField, Canon, PMul, PAdd, Red;
    var cs := SixthPower(f.one, n);
    var z: Fn<F> := Fn([], []);
    var w1 := Canon(f, w);
    var w2 := PMul(f, w1, w1);
    var w4 := PMul(f, w2, w2);
    SameItself(f, []);
    CanonOfNothing(f);
    forall y2
      ensures PMul(f, [], y2) == []
    {
      PMulZero(f, y2, []);
    }
    PAddZero(f, [], []);
    assert ReduceFrom(f, cs, 2, z, w1) == ReduceFrom(f, cs, 3, z, w1) == ReduceFrom(f, cs, 4, z, w2);
    assert ReduceFrom(f, cs, 4, z, w2) == ReduceFrom(f, cs, 5, z, w2) == ReduceFrom(f, cs, 6, z, w4);
    PMulOne(f, w4);
    CanonTwice(f, Times(f, w2, w2));
    assert PMul(f, w2, w2) == Canon(f, Times(f, w2, w2)) by { PMulIsCanon(f, w2, w2); }
    PAddZero(f, w4, []);
    assert ReduceFrom(f, cs, 6, z, w4) == ReduceFrom(f, cs, 7, Fn(w4, []), w4);
    ReduceFromZeros(f, cs, 7, Fn(w4, []), w4);
  }

  lemma PMulIsCanon<F(!new)>(f: Field<F>, p: seq<F>, q: seq<F>)
    ensures PMul(f, p, q) == Canon(f, Times(f, p, q))
  {
  }

  lemma SixthPowerOnCurve<F(!new)>(f: Field<F>, w: seq<F>, n: nat)
    requires f.IsField() && n > 6
    ensures Red(f, w, SixthPower(f.one, n)) == Fn(TimesPower(f, w, 3, [f.one]), [])
  {
    hide Field.IsField, Canon, PMul, FnAdd, Red, TimesPower;
    var zeros := SixthPower(f.one, n)[6 := []];
    SameItself(f, []);
    RedOfZeros(f, w, zeros);
    RedUpdate(f, w, zeros, 6, [f.one]);
    assert Add(f, [], [f.one]) == [f.one];
    assert zeros[6 := Add(f, zeros[6], [f.one])] == SixthPower(f.one, n);
    TermIsPower(f, w, [f.one], 3);
    RedIsFn(f, w, SixthPower(f.one, n));
    TermIsFn(f, w, [f.one], 6);
    FnAddZero(f, Term(f, w, [f.one], 6));
  }

  lemma {:induction false} TermIsFn<F(!new)>(f: Field<F>, w: seq<F>, p: seq<F>, k: nat)
    ensures IsFn(f, Term(f, w, p, k))
  {
    hide Canon, PMul;
    ResultsAreFns(f, w, p, Fn([], []), Fn([], []));
    if k > 0 {
      TermIsFn(f, w, p, k - 1);
      ResultsAreFns(f, w, p, Term(f, w, p, k - 1), Fn([], []));
    }
  }

  /** reduce() is right for all lists of n coefficients exactly when there are at most six. */
  lemma ReduceIsRightExactly<F(!new)>(f: Field<F>, w: seq<F>, n: nat)
    requires f.IsField() && Degree(f, w) >= 1
    ensures (forall cs: seq<seq<F>> :: |cs| == n ==> CodeReduced(f, w, cs) == Red(f, w, cs)) <==> n <= 6
  {
    if n <= 6 {
      forall cs: seq<seq<F>> | |cs| == n
        ensures CodeReduced(f, w, cs) == Red(f, w, cs)
      {
        ReduceIsRight(f, w, cs);
      }
    } else {
      SixthPowerIsWrong(f, w, n);
    }
  }

  // ----- division and normalization -----

  ghost predicate IsQuotient<F(!new)>(f: Field<F>, p: seq<F>, den: seq<F>, q: seq<F>) {
    exists r :: PolynomialAlgorithms.IsDivision(f, p, den, q, r) && Degree(f, r) < Degree(f, den)
  }

  /** FF.div_by_poly: the floor quotient of every coefficient. */
  method DivByPoly<F(==, !new)>(f: Field<F>, cs: seq<seq<F>>, den: seq<F>) returns (res: Result<seq<seq<F>>>)
    requires f.IsField() && cs != []
    ensures (res.Err? <==> Degree(f, den) == -1) && (res.Err? ==> res.failure == ValueError)
    ensures res.Ok? ==> |res.value| == |cs| && forall i :: 0 <= i < |cs| ==> IsQuotient(f, cs[i], den, res.value[i])
  {
    hide Field.IsField, Degree, IsQuotient;
    var quotients: seq<seq<F>> := [];
    for i := 0 to |cs|
      invariant |quotients| == i && (i > 0 ==> Degree(f, den) != -1)
      invariant forall k :: 0 <= k < i ==> IsQuotient(f, cs[k], den, quotients[k])
    {
      var division := PolynomialAlgorithms.DivMod(f, cs[i], den);
      if division.Err? {
        return Err(ValueError);
      }
      DivisionGivesQuotient(f, cs[i], den, division.value.0, division.value.1);
      quotients := quotients + [division.value.0];
    }
    return Ok(quotients);
  }

  lemma DivisionGivesQuotient<F(!new)>(f: Field<F>, p: seq<F>, den: seq<F>, q: seq<F>, r: seq<F>)
    requires PolynomialAlgorithms.IsDivision(f, p, den, q, r) && Degree(f, r) < Degree(f, den)
    ensures IsQuotient(f, p, den, q)
  {
  }

  /** If the function is a multiple of the divisor, floor division finds the cofactor. */
  lemma QuotientIsExact<F(!new)>(f: Field<F>, w: seq<F>, cs: seq<seq<F>>, den: seq<F>, qs: seq<seq<F>>, h: Fn<F>)
    requires f.IsField() && |cs| == |qs| == 2 && Degree(f, den) >= 0 && IsFn(f, h)
    requires IsQuotient(f, cs[0], den, qs[0]) && IsQuotient(f, cs[1], den, qs[1])
    requires Red(f, w, cs) == Scl(f, den, h)
    ensures Red(f, w, qs) == h
  {
    hide Field.IsField, Degree, Red, Canon, IsQuotient, PMul, Same;
    assert cs == [cs[0], cs[1]] && qs == [qs[0], qs[1]];
    RedOfFew(f, w, cs[0], cs[1]);
    RedOfFew(f, w, qs[0], qs[1]);
    PolynomialQuotient(f, cs[0], den, qs[0], h.a);
    PolynomialQuotient(f, cs[1], den, qs[1], h.b);
  }

  lemma PolynomialQuotient<F(!new)>(f: Field<F>, p: seq<F>, den: seq<F>, q: seq<F>, h: seq<F>)
    requires f.IsField() && Degree(f, den) >= 0 && IsQuotient(f, p, den, q) && Canon(f, p) == PMul(f, den, h) && IsCanon(f, h)
    ensures Canon(f, q) == h
  {
    hide Field.IsField, Degree, Canon, Times;
    var r :| PolynomialAlgorithms.IsDivision(f, p, den, q, r) && Degree(f, r) < Degree(f, den);
    PMulComm(f, den, h);
    assert Same(f, p, Times(f, h, den));
    ExactQuotient(f, den, h, p, q, r);
    CanonIsUnique(f, q, h);
  }

  function ScaledAll<F(!new)>(f: Field<F>, cs: seq<seq<F>>, k: F): (ds: seq<seq<F>>)
    ensures |ds| == |cs|
  {
    seq(|cs|, i requires 0 <= i < |cs| => Scale(f, cs[i], k))
  }

  /** FF.normalize: divides by the constant coefficient, which must not be zero. */
  function Normalize<F(==, !new)>(f: Field<F>, cs: seq<seq<F>>): Result<seq<seq<F>>>
    requires cs != []
  {
    var coeff := Coef(f, cs[0], 0);
    if coeff == f.zero then Err(ValueError) else Ok(ScaledAll(f, cs, f.inv(coeff)))
  }

  lemma {:induction false} RedOfScaled<F(!new)>(f: Field<F>, w: seq<F>, cs: seq<seq<F>>, k: F)
    requires f.IsField()
    ensures Red(f, w, ScaledAll(f, cs, k)) == Scl(f, [k], Red(f, w, cs))
  {
    hide Field.IsField, Canon, FnAdd, TimesY, Scale;
    if cs == [] {
      SclOfZero(f, [k], Fn([], []));
    } else {
      assert ScaledAll(f, cs, k)[1..] == ScaledAll(f, cs[1..], k);
      RedOfScaled(f, w, cs[1..], k);
      YOfScl(f, w, [k], Red(f, w, cs[1..]));
      SclOverSum(f, [k], Fn(Canon(f, cs[0]), []), TimesY(f, w, Red(f, w, cs[1..])));
      ScaledPolynomial(f, cs[0], k);
    }
  }

  lemma ScaledPolynomial<F(!new)>(f: Field<F>, p: seq<F>, k: F)
    requires f.IsField()
    ensures Fn(Canon(f, Scale(f, p, k)), []) == Scl(f, [k], Fn(Canon(f, p), []))
  {
    hide Field.IsField, Canon, Scale, Times, Same;
    SameItself(f, [k]);
    PMulOf(f, [k], Canon(f, p), [k], p);
    PMulComm(f, [k], p);
    TimesByConstant(f, p, k);
    CanonIsUnique(f, Times(f, p, [k]), Scale(f, p, k));
    SameItself(f, []);
    PMulZero(f, [k], []);
  }

  /** The constant coefficient of a(x) + b(x) y, which is that of the first list. */
  function Constant<F(!new)>(f: Field<F>, s: Fn<F>): F {
    Coef(f, s.a, 0)
  }

  lemma ConstantOfList<F(!new)>(f: Field<F>, w: seq<F>, cs: seq<seq<F>>)
    requires f.IsField() && 1 <= |cs| <= 2
    ensures Constant(f, Red(f, w, cs)) == Coef(f, cs[0], 0)
  {
    hide Field.IsField, Red, Canon, Coef;
    assert cs == if |cs| == 1 then [cs[0]] else [cs[0], cs[1]];
    RedOfFew(f, w, cs[0], if |cs| == 1 then [] else cs[1]);
    assert Same(f, Canon(f, cs[0]), cs[0]);
  }

  lemma ConstantOfScaled<F(!new)>(f: Field<F>, s: Fn<F>, k: F)
    requires f.IsField()
    ensures Constant(f, Scl(f, [k], s)) == f.mul(Constant(f, s), k)
  {
    hide Field.IsField, Canon, Coef, Times, Scale;
    TimesByConstant(f, s.a, k);
    PMulComm(f, [k], s.a);
    PMulIsCanon(f, s.a, [k]);
    SameAt(f, Canon(f, Times(f, s.a, [k])), Times(f, s.a, [k]), 0);
    SameAt(f, Times(f, s.a, [k]), Scale(f, s.a, k), 0);
    CoefScale(f, s.a, k, 0);
  }
}
