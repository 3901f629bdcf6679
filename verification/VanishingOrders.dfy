/** The orders of vanishing on a smooth curve are divisors: all the facts that the construction of
    functions takes as hypotheses hold for them. */
module VanishingOrders {
  import opened CurveDivisors
  import opened Fields
  import opened FunctionField
  import opened Groups
  import opened LocalOrders
  import opened PolynomialRing
  import opened Polynomials

  // ----- divisors -----

  /** An integer at every point. */
  type Divisor<!P(!new)> = d: imap<P, int> | forall A: P :: A in d ghost witness (imap A: P | Point(A) :: 0)

  ghost function Nothing<P(!new)>(): Divisor<P> {
    imap A: P | Point(A) :: 0
  }

  ghost function Sum<P(!new)>(d: Divisor<P>, e: Divisor<P>): Divisor<P> {
    imap A: P | true :: d[A] + e[A]
  }

  ghost function Opposite<P(!new)>(d: Divisor<P>): Divisor<P> {
    imap A: P | true :: -d[A]
  }

  /** (A) - (infinity) */
  ghost function AtPoint<P(!new)>(g: Group<P>, A: P): Divisor<P> {
    imap Q: P | true :: Once(A, Q) - Once(g.zero, Q)
  }

  /** The orders at the finite points, and minus the pole order at infinity. */
  ghost function DivOf<P(!new), F(!new), V(!new)>(c: Curve<P, F, V>, s: Fn<F>): Divisor<P> {
    imap Q: P | true :: if Q == c.points.zero then -PoleOrder(c.field, s) else Ord(c, s, Q)
  }

  ghost predicate HasNoPoles<P(!new)>(g: Group<P>, d: Divisor<P>) {
    forall Q :: Q != g.zero ==> d[Q] >= 0
  }

  /** The curve whose divisors are the orders of vanishing. */
  ghost predicate MeasuresOrders<P(!new), F(!new)>(c: Curve<P, F, Divisor<P>>) {
    && c.divisors.zero == Nothing() && (forall d, e :: c.divisors.add(d, e) == Sum(d, e)) && (forall d :: c.divisors.neg(d) == Opposite(d))
    && (forall A :: c.at(A) == AtPoint(c.points, A)) && (forall s :: c.div(s) == DivOf(c, s))
    && (forall d :: c.effective(d) <==> HasNoPoles(c.points, d))
  }

  lemma SumLaws<P(!new)>(d: Divisor<P>, e: Divisor<P>, h: Divisor<P>)
    ensures Sum(Sum(d, e), h) == Sum(d, Sum(e, h))
    ensures Sum(d, e) == Sum(e, d) && Sum(d, Nothing()) == d && Sum(d, Opposite(d)) == Nothing()
  {
  }

  lemma NothingAtInfinityPoint<P(!new)>(g: Group<P>)
    ensures AtPoint(g, g.zero) == Nothing()
  {
  }

  lemma SumsAreGroup<P(!new)>(g: Group<Divisor<P>>)
    requires g.zero == Nothing() && (forall d, e :: g.add(d, e) == Sum(d, e)) && (forall d :: g.neg(d) == Opposite(d))
    ensures g.IsGroup()
  {
    hide Sum, Opposite, Nothing;
    forall d, e, h
      ensures g.add(g.add(d, e), h) == g.add(d, g.add(e, h))
    {
      SumLaws(d, e, h);
    }
    forall d, e
      ensures g.add(d, e) == g.add(e, d)
    {
      SumLaws(d, e, e);
    }
    forall d
      ensures g.add(d, g.zero) == d
    {
      SumLaws(d, d, d);
    }
    forall d
      ensures g.add(d, g.neg(d)) == g.zero
    {
      SumLaws(d, d, d);
    }
  }

  lemma DivisorsAreGroup<P(!new), F(!new)>(c: Curve<P, F, Divisor<P>>)
    requires MeasuresOrders(c)
    ensures c.divisors.IsGroup() && c.at(c.points.zero) == c.divisors.zero
  {
    hide Sum, Opposite, Nothing, AtPoint, DivOf, HasNoPoles, Group.IsGroup;
    SumsAreGroup(c.divisors);
    NothingAtInfinityPoint(c.points);
  }

  lemma PairAt<P(!new)>(g: Group<P>, A: P, B: P, Q: P)
    ensures Sum(AtPoint(g, A), AtPoint(g, B))[Q] == Once(A, Q) + Once(B, Q) - 2 * Once(g.zero, Q)
  {
  }

  lemma DivAt<P(!new), F(!new), V(!new)>(c: Curve<P, F, V>, s: Fn<F>, Q: P)
    ensures DivOf(c, s)[Q] == if Q == c.points.zero then -PoleOrder(c.field, s) else Ord(c, s, Q)
  {
  }

  lemma TripleAt<P(!new)>(g: Group<P>, A: P, B: P, C: P, Q: P)
    ensures Sum(Sum(AtPoint(g, A), AtPoint(g, B)), AtPoint(g, C))[Q] == Times3(A, B, C, Q) - 3 * Once(g.zero, Q)
  {
  }

  /** Divisors that agree at every point are the same. */
  lemma SameEverywhere<P(!new)>(d: Divisor<P>, e: Divisor<P>)
    requires forall Q :: d[Q] == e[Q]
    ensures d == e
  {
  }

  lemma PoleOfVertical<P(!new), F(!new), V(!new)>(c: Curve<P, F, V>, A: P)
    requires c.field.IsField()
    ensures PoleOrder(c.field, Fn(Linear(c.field, c.x(A)), [])) == 2
  {
    hide Field.IsField;
    LinearIsNonzero(c.field, c.x(A));
  }

  lemma PoleOfSloped<P(!new), F(!new), V(!new)>(c: Curve<P, F, V>, m: F, i: F)
    requires c.field.IsField()
    ensures PoleOrder(c.field, c.Of(Sloped(c.field, m, i))) == 3
  {
    hide Field.IsField, Curve.Of, Canon, Degree;
    SlopedIs(c, m, i);
    CanonDegree(c.field, [c.field.neg(i), c.field.neg(m)]);
    OneIsNonzero(c.field);
    CanonDegree(c.field, [c.field.one]);
  }

  lemma LineAt<P(!new), F(!new), V(!new)>(c: Curve<P, F, V>, m: F, i: F, A: P, B: P, C: P, Q: P)
    requires c.HasCoordinates() && IsSmooth(c) && c.Meets(m, i, A, B, C)
    ensures DivOf(c, c.Of(Sloped(c.field, m, i)))[Q] == Sum(Sum(AtPoint(c.points, A), AtPoint(c.points, B)), AtPoint(c.points, C))[Q]
  {
    assert A != c.points.zero && B != c.points.zero && C != c.points.zero;
    hide Field.IsField, Group.IsGroup, Curve.HasCoordinates, IsSmooth, Ord, Curve.Of, Sloped, Curve.Meets, PoleOrder, AtPoint, Sum, DivOf;
    CoordinatesAreFields(c);
    TripleAt(c.points, A, B, C, Q);
    DivAt(c, c.Of(Sloped(c.field, m, i)), Q);
    if Q == c.points.zero {
      PoleOfSloped(c, m, i);
    } else {
      OrdOfLine(c, m, i, A, B, C, Q);
    }
  }

  lemma LineLaw<P(!new), F(!new)>(c: Curve<P, F, Divisor<P>>, m: F, i: F, A: P, B: P, C: P)
    requires c.HasCoordinates() && IsSmooth(c) && MeasuresOrders(c) && c.Meets(m, i, A, B, C)
    ensures c.div(c.Of(Sloped(c.field, m, i))) == c.divisors.add(c.divisors.add(c.at(A), c.at(B)), c.at(C))
  {
    hide Field.IsField, Curve.HasCoordinates, IsSmooth, Sloped, Curve.Of, Curve.Meets, DivOf, AtPoint, Sum, HasNoPoles;
    var l := c.Of(Sloped(c.field, m, i));
    var d := Sum(Sum(AtPoint(c.points, A), AtPoint(c.points, B)), AtPoint(c.points, C));
    forall Q
      ensures DivOf(c, l)[Q] == d[Q]
    {
      LineAt(c, m, i, A, B, C, Q);
    }
    SameEverywhere(DivOf(c, l), d);
  }

  lemma VerticalAt<P(!new), F(!new), V(!new)>(c: Curve<P, F, V>, A: P, Q: P)
    requires c.HasCoordinates() && IsSmooth(c) && A != c.points.zero
    ensures DivOf(c, Fn(Linear(c.field, c.x(A)), []))[Q] == Sum(AtPoint(c.points, A), AtPoint(c.points, c.points.neg(A)))[Q]
  {
    hide Field.IsField, Group.IsGroup, Curve.HasCoordinates, IsSmooth, Ord, Linear, PoleOrder, AtPoint, Sum, DivOf, Curve.Nonzero;
    Coordinates(c, A);
    CoordinatesAreFields(c);
    PairAt(c.points, A, c.points.neg(A), Q);
    DivAt(c, Fn(Linear(c.field, c.x(A)), []), Q);
    if Q == c.points.zero {
      PoleOfVertical(c, A);
    } else {
      OrdOfVertical(c, A, Q);
      NegOfNeg(c.points, A);
      NegOfNeg(c.points, Q);
    }
  }

  lemma VerticalIs<P(!new), F(!new), V(!new)>(c: Curve<P, F, V>, A: P)
    requires c.field.IsField()
    ensures c.Of([Linear(c.field, c.x(A))]) == Fn(Linear(c.field, c.x(A)), [])
  {
    hide Field.IsField, Red, Canon;
    RedOfFew(c.field, c.W(), Linear(c.field, c.x(A)), []);
    LinearIsNonzero(c.field, c.x(A));
  }

  lemma VerticalLaw<P(!new), F(!new)>(c: Curve<P, F, Divisor<P>>, A: P)
    requires c.HasCoordinates() && IsSmooth(c) && MeasuresOrders(c) && A != c.points.zero
    ensures c.div(c.Of([Linear(c.field, c.x(A))])) == c.divisors.add(c.at(A), c.at(c.points.neg(A)))
  {
    hide Field.IsField, Curve.HasCoordinates, IsSmooth, Linear, Curve.Of, DivOf, AtPoint, Sum, HasNoPoles;
    CoordinatesAreFields(c);
    var v, d := Fn(Linear(c.field, c.x(A)), []), Sum(AtPoint(c.points, A), AtPoint(c.points, c.points.neg(A)));
    VerticalIs(c, A);
    forall Q
      ensures DivOf(c, v)[Q] == d[Q]
    {
      VerticalAt(c, A, Q);
    }
    SameEverywhere(DivOf(c, v), d);
  }

  lemma SumAt<P(!new)>(d: Divisor<P>, e: Divisor<P>, Q: P)
    ensures Sum(d, e)[Q] == d[Q] + e[Q]
  {
  }

  lemma ProductAt<P(!new), F(!new), V(!new)>(c: Curve<P, F, V>, s: Fn<F>, t: Fn<F>, Q: P)
    requires c.HasCoordinates() && IsSmooth(c) && c.Nonzero(s) && c.Nonzero(t)
    ensures DivOf(c, c.Product(s, t))[Q] == Sum(DivOf(c, s), DivOf(c, t))[Q]
  {
    hide Field.IsField, Curve.HasCoordinates, IsSmooth, Ord, FnMul, PoleOrder, IsFn, Curve.W, Degree, DivOf, Sum;
    CoordinatesAreFields(c);
    SumAt(DivOf(c, s), DivOf(c, t), Q);
    DivAt(c, s, Q);
    DivAt(c, t, Q);
    DivAt(c, c.Product(s, t), Q);
    if Q == c.points.zero {
      CurveIsCubic(c);
      PoleOfProduct(c.field, c.W(), s, t);
    } else {
      OrdOfProduct(c, s, t, Q);
    }
  }

  lemma ProductLaw<P(!new), F(!new)>(c: Curve<P, F, Divisor<P>>, s: Fn<F>, t: Fn<F>)
    requires c.HasCoordinates() && IsSmooth(c) && MeasuresOrders(c) && c.Nonzero(s) && c.Nonzero(t)
    ensures c.div(c.Product(s, t)) == c.divisors.add(c.div(s), c.div(t))
  {
    hide Field.IsField, Curve.HasCoordinates, IsSmooth, Curve.Product, DivOf, Sum, HasNoPoles, AtPoint, Curve.Nonzero;
    forall Q
      ensures DivOf(c, c.Product(s, t))[Q] == Sum(DivOf(c, s), DivOf(c, t))[Q]
    {
      ProductAt(c, s, t, Q);
    }
    SameEverywhere(DivOf(c, c.Product(s, t)), Sum(DivOf(c, s), DivOf(c, t)));
  }

  lemma PoleOfScaled<F(!new)>(f: Field<F>, s: Fn<F>, k: F)
    requires f.IsField() && k != f.zero
    ensures PoleOrder(f, Scl(f, [k], s)) == PoleOrder(f, s) == PoleOrder(f, Conj(f, s))
  {
    hide Field.IsField, PMul;
    MinusOne(f);
    DegreeOfPMul(f, [k], s.a);
    DegreeOfPMul(f, [k], s.b);
    DegreeOfPMul(f, [f.neg(f.one)], s.b);
  }

  lemma ScalarLaw<P(!new), F(!new)>(c: Curve<P, F, Divisor<P>>, s: Fn<F>, k: F)
    requires c.HasCoordinates() && IsSmooth(c) && MeasuresOrders(c) && c.Nonzero(s) && k != c.field.zero
    ensures c.div(Scl(c.field, [k], s)) == c.div(s)
  {
    forall Q
      ensures DivOf(c, Scl(c.field, [k], s))[Q] == DivOf(c, s)[Q]
    {
      hide Field.IsField, Curve.HasCoordinates, IsSmooth, Ord, PoleOrder, Scl, MeasuresOrders, DivOf;
      CoordinatesAreFields(c);
      DivAt(c, s, Q);
      DivAt(c, Scl(c.field, [k], s), Q);
      if Q == c.points.zero {
        PoleOfScaled(c.field, s, k);
      } else {
        OrdOfScaled(c, s, k, Q);
      }
    }
    hide Field.IsField, Curve.HasCoordinates, IsSmooth, Scl, DivOf, HasNoPoles;
    SameEverywhere(DivOf(c, Scl(c.field, [k], s)), DivOf(c, s));
  }

  /** What no poles means at A after A is taken away. */
  lemma StillZero<P(!new), F(!new), V(!new)>(c: Curve<P, F, V>, s: Fn<F>, A: P)
    requires A != c.points.zero && HasNoPoles(c.points, Sum(DivOf(c, s), Opposite(AtPoint(c.points, A))))
    ensures Ord(c, s, A) >= 1
  {
    hide Ord, PoleOrder;
    assert Sum(DivOf(c, s), Opposite(AtPoint(c.points, A)))[A] == Ord(c, s, A) - 1;
  }

  lemma ZeroLaw<P(!new), F(!new)>(c: Curve<P, F, Divisor<P>>, s: Fn<F>, A: P)
    requires c.HasCoordinates() && IsSmooth(c) && MeasuresOrders(c) && c.Nonzero(s) && A != c.points.zero
    requires c.effective(c.divisors.add(c.div(s), c.divisors.neg(c.at(A))))
    ensures c.Value(s, A) == c.field.zero
  {
    hide Field.IsField, Curve.HasCoordinates, IsSmooth, Ord, Curve.Nonzero, Curve.Value, Sum, Opposite, DivOf, AtPoint, HasNoPoles;
    StillZero(c, s, A);
    OrdIsOrder(c, s, A);
  }

  // ----- zeros determine a function -----

  /** The orders of f at Q are those of d at Q and -Q together, and so is its pole order. */
  ghost predicate IsDoubled<P(!new), F(!new), V(!new)>(c: Curve<P, F, V>, s: Fn<F>, d: Divisor<P>) {
    && c.Nonzero(s) && PoleOrder(c.field, s) == -2 * d[c.points.zero]
    && forall Q :: Q != c.points.zero ==> Ord(c, s, Q) == d[Q] + d[c.points.neg(Q)]
  }

  /** Twice at a point of order two: both parts vanish. */
  lemma PartsVanishTwice<P(!new), F(!new), V(!new)>(c: Curve<P, F, V>, s: Fn<F>, A: P)
    requires c.HasCoordinates() && IsSmooth(c) && A != c.points.zero && c.y(A) == c.field.zero && c.Nonzero(s) && Ord(c, s, A) >= 2
    ensures PolyValue(c.field, s.a, c.x(A)) == c.field.zero == PolyValue(c.field, s.b, c.x(A))
  {
    hide Field.IsField, Curve.HasCoordinates, IsSmooth, Ord, PolyValue, IsOrder, Curve.Product;
    CoordinatesAreFields(c);
    OrdIsOrder(c, s, A);
    Fields.MulZero(c.field, PolyValue(c.field, s.b, c.x(A)));
    AddZero(c.field, PolyValue(c.field, s.a, c.x(A)));
    var u, r := DividesAtTorsion(c, s, A);
    NonzeroByValue(c, u, A);
    OrdIsOrder(c, u, A);
    LocalVanishes(c, A);
    LocalOrder(c, A);
    OrdIs(c, Local(c, A), A, 1);
    OrdOfProduct(c, u, s, A);
    if r == Fn([], []) {
      SclOfNothing(c, Local(c, A));
      assert false;
    }
    OrdOfProduct(c, Local(c, A), r, A);
    OrdIsOrder(c, r, A);
  }

  lemma SclOfNothing<P(!new), F(!new), V(!new)>(c: Curve<P, F, V>, s: Fn<F>)
    requires c.field.IsField()
    ensures c.Product(s, Fn([], [])) == Fn([], [])
  {
    hide Field.IsField, FnMul, Scl, Curve.W;
    FnMulComm(c.field, c.W(), s, Fn([], []));
    MulOfPolynomial(c.field, c.W(), [], s);
    SameItself(c.field, []);
    SclOfZero(c.field, [], s);
  }

  /** Taking one zero and its negative away. */
  lemma TakeZeroAway<P(!new), F(!new), V(!new)>(c: Curve<P, F, V>, s: Fn<F>, d: Divisor<P>, A: P) returns (h: Fn<F>)
    requires c.HasCoordinates() && IsSmooth(c) && A != c.points.zero && HasNoPoles(c.points, d)
    requires IsDoubled(c, s, Sum(d, AtPoint(c.points, A)))
    ensures s == Scl(c.field, Linear(c.field, c.x(A)), h) && IsDoubled(c, h, d)
  {
    var e, B := Sum(d, AtPoint(c.points, A)), c.points.neg(A);
    assert B != c.points.zero && c.points.neg(B) == A by { Coordinates(c, A); }
    assert Ord(c, s, A) == e[A] + e[B] == Ord(c, s, B);
    assert e[A] >= 1 && (B == A ==> e[B] >= 1);
    h := DividesByZero(c, s, A);
    QuotientIsDoubled(c, s, d, A, h);
  }

  lemma DividesByZero<P(!new), F(!new), V(!new)>(c: Curve<P, F, V>, s: Fn<F>, A: P) returns (h: Fn<F>)
    requires c.HasCoordinates() && IsSmooth(c) && A != c.points.zero && c.Nonzero(s)
    requires Ord(c, s, A) >= 1 && Ord(c, s, c.points.neg(A)) >= 1 && (c.points.neg(A) == A ==> Ord(c, s, A) >= 2)
    ensures c.Nonzero(h) && s == c.Product(Fn(Linear(c.field, c.x(A)), []), h) == Scl(c.field, Linear(c.field, c.x(A)), h)
  {
    hide Field.IsField, Group.IsGroup, Curve.HasCoordinates, IsSmooth, Ord, PolyValue, IsOrder, Linear, Curve.Value, Curve.Product;
    CoordinatesAreFields(c);
    Coordinates(c, A);
    TorsionIsZeroY(c, A);
    if c.y(A) == c.field.zero {
      PartsVanishTwice(c, s, A);
    } else {
      OrdIsOrder(c, s, A);
      OrdIsOrder(c, s, c.points.neg(A));
      PartsVanish(c, s, A);
    }
    h := VanishesAtBoth(c, s, A);
    if h == Fn([], []) {
      SclOfNothing(c, Fn(Linear(c.field, c.x(A)), []));
      assert false;
    }
  }

  lemma QuotientIsDoubled<P(!new), F(!new), V(!new)>(c: Curve<P, F, V>, s: Fn<F>, d: Divisor<P>, A: P, h: Fn<F>)
    requires c.HasCoordinates() && IsSmooth(c) && A != c.points.zero && c.Nonzero(h)
    requires IsDoubled(c, s, Sum(d, AtPoint(c.points, A))) && s == c.Product(Fn(Linear(c.field, c.x(A)), []), h)
    ensures IsDoubled(c, h, d)
  {
    var e, v := Sum(d, AtPoint(c.points, A)), Fn(Linear(c.field, c.x(A)), []);
    forall Q | Q != c.points.zero
      ensures Ord(c, h, Q) == d[Q] + d[c.points.neg(Q)]
    {
      assert c.points.neg(Q) != c.points.zero by { Coordinates(c, Q); }
      assert Ord(c, s, Q) == e[Q] + e[c.points.neg(Q)];
      hide Field.IsField, Curve.HasCoordinates, IsSmooth, Ord, Linear, Curve.Product, IsFn;
      OrdOfVertical(c, A, Q);
      OrdOfProduct(c, v, h, Q);
    }
    hide Field.IsField, Curve.HasCoordinates, IsSmooth, Ord, Linear, FnMul, IsFn, PoleOrder, Curve.W, Degree;
    CoordinatesAreFields(c);
    CurveIsCubic(c);
    VerticalIsFn(c, A);
    PoleOfVertical(c, A);
    PoleOfProduct(c.field, c.W(), v, h);
    assert e[c.points.zero] == d[c.points.zero] - 1;
  }

  lemma {:induction false} ZerosHaveNoPoles<P(!new), F(!new)>(c: Curve<P, F, Divisor<P>>, Ps: seq<P>)
    requires MeasuresOrders(c)
    ensures HasNoPoles(c.points, ZerosAt(c, Ps))
  {
    hide DivOf, ZerosAt;
    if Ps == [] {
      AtNothing(c);
    } else {
      var init, A := Ps[..|Ps| - 1], Ps[|Ps| - 1];
      assert Ps == init + [A];
      ZerosHaveNoPoles(c, init);
      AtNext(c, init, A);
    }
  }

  lemma ConstantFunction<P(!new), F(!new), V(!new)>(c: Curve<P, F, V>, s: Fn<F>) returns (k: F)
    requires c.Nonzero(s) && PoleOrder(c.field, s) == 0
    ensures s == Fn([k], []) && k != c.field.zero
  {
    CanonDegree(c.field, s.a);
    CanonDegree(c.field, s.b);
    k := s.a[0];
  }

  /** Functions with the same doubled zeros are constant multiples of each other. */
  lemma {:induction false} DoubledZerosDetermine<P(!new), F(!new)>(c: Curve<P, F, Divisor<P>>, s: Fn<F>, t: Fn<F>, Ps: seq<P>)
    returns (k: F)
    requires c.HasCoordinates() && IsSmooth(c) && MeasuresOrders(c)
    requires IsDoubled(c, s, ZerosAt(c, Ps)) && IsDoubled(c, t, ZerosAt(c, Ps))
    ensures k != c.field.zero && t == Scl(c.field, [k], s)
    decreases |Ps|
  {
    if Ps == [] {
      AtNothing(c);
      var u := ConstantFunction(c, s);
      var v := ConstantFunction(c, t);
      k := ConstantRatio(c, u, v);
    } else {
      var init, A := Ps[..|Ps| - 1], Ps[|Ps| - 1];
      assert Ps == init + [A];
      AtNext(c, init, A);
      var d := ZerosAt(c, init);
      assert ZerosAt(c, Ps) == Sum(d, AtPoint(c.points, A));
      if A == c.points.zero {
        assert Sum(d, AtPoint(c.points, A)) == d;
        k := DoubledZerosDetermine(c, s, t, init);
      } else {
        hide Field.IsField, Curve.HasCoordinates, IsSmooth, IsDoubled, MeasuresOrders, Scl;
        CoordinatesAreFields(c);
        ZerosHaveNoPoles(c, init);
        var g := TakeZeroAway(c, s, d, A);
        var h := TakeZeroAway(c, t, d, A);
        k := DoubledZerosDetermine(c, g, h, init);
        ScalarsMove(c.field, [k], Linear(c.field, c.x(A)), g);
      }
    }
  }

  lemma ScalarsMove<F(!new)>(f: Field<F>, p: seq<F>, q: seq<F>, s: Fn<F>)
    requires f.IsField()
    ensures Scl(f, p, Scl(f, q, s)) == Scl(f, q, Scl(f, p, s))
  {
    hide Field.IsField, Scl, PMul;
    SclOfScl(f, p, q, s);
    SclOfScl(f, q, p, s);
    PMulComm(f, p, q);
  }

  lemma ConstantRatio<P(!new), F(!new), V(!new)>(c: Curve<P, F, V>, u: F, v: F) returns (k: F)
    requires c.field.IsField() && u != c.field.zero && v != c.field.zero
    ensures k != c.field.zero && Fn([v], []) == Scl(c.field, [k], Fn([u], []))
  {
    hide Field.IsField, Canon, Same, Times;
    var f := c.field;
    k := f.mul(v, f.inv(u));
    QuotientTimes(f, v, u);
    Fields.MulZero(f, u);
    MulComm(f, k, u);
    SameItself(f, []);
    PMulZero(f, [k], []);
    TimesByConstant(f, [u], k);
    PMulComm(f, [k], [u]);
    ScaledConstant(f, u, k);
    CanonIsUnique(f, Times(f, [u], [k]), [v]);
    ConstantIsCanon(f, v);
  }

  lemma UniquenessLaw<P(!new), F(!new)>(c: Curve<P, F, Divisor<P>>, s: Fn<F>, t: Fn<F>, Ps: seq<P>) returns (k: F)
    requires c.HasCoordinates() && IsSmooth(c) && MeasuresOrders(c) && c.Nonzero(s) && c.Nonzero(t)
    requires c.div(s) == ZerosAt(c, Ps) == c.div(t)
    ensures k != c.field.zero && t == Scl(c.field, [k], s)
  {
    var d := ZerosAt(c, Ps);
    NormIsDoubled(c, s, s, d);
    NormIsDoubled(c, t, s, d);
    hide Field.IsField, Curve.HasCoordinates, IsSmooth, IsDoubled, Scl, FnMul, Conj, IsFn, MeasuresOrders, Curve.W, ZerosAt;
    CoordinatesAreFields(c);
    var bar := Conj(c.field, s);
    k := DoubledZerosDetermine(c, c.Product(s, bar), c.Product(t, bar), Ps);
    NormIsPolynomial(c, s);
    MulOfScl(c.field, c.W(), [k], s, bar);
    FnMulComm(c.field, c.W(), t, bar);
    FnMulComm(c.field, c.W(), Scl(c.field, [k], s), bar);
    ResultsAreFns(c.field, c.W(), [k], s, s);
    CancelFactor(c, bar, t, Scl(c.field, [k], s));
  }

  lemma MeasuredAt<P(!new), F(!new)>(c: Curve<P, F, Divisor<P>>, s: Fn<F>, Q: P)
    requires MeasuresOrders(c)
    ensures c.div(s)[Q] == if Q == c.points.zero then -PoleOrder(c.field, s) else Ord(c, s, Q)
  {
    hide Ord, PoleOrder;
  }

  lemma NormAt<P(!new), F(!new), V(!new)>(c: Curve<P, F, V>, t: Fn<F>, s: Fn<F>, Q: P)
    requires c.HasCoordinates() && IsSmooth(c) && c.Nonzero(s) && c.Nonzero(t) && Q != c.points.zero
    ensures c.points.neg(Q) != c.points.zero
    ensures Ord(c, c.Product(t, Conj(c.field, s)), Q) == Ord(c, t, Q) + Ord(c, s, c.points.neg(Q))
  {
    hide Field.IsField, Group.IsGroup, Curve.HasCoordinates, IsSmooth, Ord, Curve.Product, Conj, Curve.Nonzero;
    Coordinates(c, Q);
    OrdOfConj(c, s, Q);
    OrdOfProduct(c, t, Conj(c.field, s), Q);
  }

  lemma NormPole<P(!new), F(!new), V(!new)>(c: Curve<P, F, V>, t: Fn<F>, s: Fn<F>)
    requires c.field.IsField() && c.Nonzero(s) && c.Nonzero(t)
    ensures c.Nonzero(c.Product(t, Conj(c.field, s)))
    ensures PoleOrder(c.field, c.Product(t, Conj(c.field, s))) == PoleOrder(c.field, t) + PoleOrder(c.field, s)
  {
    hide Field.IsField, FnMul, Conj, IsFn, PoleOrder, Curve.W, Degree;
    NormIsPolynomial(c, s);
    CurveIsCubic(c);
    PoleOfProduct(c.field, c.W(), t, Conj(c.field, s));
    PoleOfScaled(c.field, s, c.field.one) by { OneIsFieldOne(c.field); }
  }

  lemma NormIsDoubled<P(!new), F(!new)>(c: Curve<P, F, Divisor<P>>, t: Fn<F>, s: Fn<F>, d: Divisor<P>)
    requires c.HasCoordinates() && IsSmooth(c) && MeasuresOrders(c) && c.Nonzero(s) && c.Nonzero(t) && c.div(s) == d == c.div(t)
    ensures IsDoubled(c, c.Product(t, Conj(c.field, s)), d)
  {
    hide Field.IsField, Curve.HasCoordinates, IsSmooth, Ord, Curve.Product, Conj, Curve.Nonzero, MeasuresOrders, PoleOrder;
    CoordinatesAreFields(c);
    forall Q | Q != c.points.zero
      ensures Ord(c, c.Product(t, Conj(c.field, s)), Q) == d[Q] + d[c.points.neg(Q)]
    {
      NormAt(c, t, s, Q);
      MeasuredAt(c, t, Q);
      MeasuredAt(c, s, c.points.neg(Q));
    }
    MeasuredAt(c, s, c.points.zero);
    MeasuredAt(c, t, c.points.zero);
    NormPole(c, t, s);
  }

  // ----- the theorem -----

  /** The orders of vanishing on a smooth curve have all the properties of divisors. */
  lemma OrdersAreDivisors<P(!new), F(!new)>(c: Curve<P, F, Divisor<P>>)
    requires c.HasCoordinates() && c.AddsCollinear() && IsSmooth(c) && MeasuresOrders(c)
    ensures c.HasDivisors()
  {
    EffectiveLaws(c);
    hide Field.IsField, Group.IsGroup, Curve.HasCoordinates, Curve.AddsCollinear, Curve.Meets, IsSmooth, MeasuresOrders, Curve.Nonzero,
      Curve.Value, Curve.Product, Curve.Of, Scl, Linear, ZerosAt;
    CoordinatesAreFields(c);
    DivisorsAreGroup(c);
    forall s, t | c.Nonzero(s) && c.Nonzero(t)
      ensures c.div(c.Product(s, t)) == c.divisors.add(c.div(s), c.div(t))
    {
      ProductLaw(c, s, t);
    }
    forall m, i, A, B, C | c.Meets(m, i, A, B, C)
      ensures c.div(c.Of(Sloped(c.field, m, i))) == c.divisors.add(c.divisors.add(c.at(A), c.at(B)), c.at(C))
    {
      LineLaw(c, m, i, A, B, C);
    }
    forall A | A != c.points.zero
      ensures c.div(c.Of([Linear(c.field, c.x(A))])) == c.divisors.add(c.at(A), c.at(c.points.neg(A)))
    {
      VerticalLaw(c, A);
    }
    forall s, A | c.Nonzero(s) && A != c.points.zero && c.effective(c.divisors.add(c.div(s), c.divisors.neg(c.at(A))))
      ensures c.Value(s, A) == c.field.zero
    {
      ZeroLaw(c, s, A);
    }
    forall s, k | c.Nonzero(s) && k != c.field.zero
      ensures c.div(Scl(c.field, [k], s)) == c.div(s)
    {
      ScalarLaw(c, s, k);
    }
    forall s, t, Ps | c.Nonzero(s) && c.Nonzero(t) && c.div(s) == ZerosAt(c, Ps) == c.div(t)
      ensures exists k :: k != c.field.zero && t == Scl(c.field, [k], s)
    {
      var k := UniquenessLaw(c, s, t, Ps);
    }
  }

  lemma EffectiveLaws<P(!new), F(!new)>(c: Curve<P, F, Divisor<P>>)
    requires MeasuresOrders(c)
    ensures forall A :: c.effective(c.at(A))
    ensures forall d, e :: c.effective(d) && c.effective(e) ==> c.effective(c.divisors.add(d, e))
  {
  }

  /** The orders as the divisors of a given curve. */
  ghost function WithOrders<P(!new), F(!new), V(!new)>(c: Curve<P, F, V>): Curve<P, F, Divisor<P>> {
    Curve(c.field, c.a, c.b, c.points, c.x, c.y,
      Group(Nothing(), (d: Divisor<P>, e: Divisor<P>) => Sum(d, e), (d: Divisor<P>) => Opposite(d)),
      (A: P) => AtPoint(c.points, A), (s: Fn<F>) => DivOf(c, s), (d: Divisor<P>) => HasNoPoles(c.points, d))
  }

  lemma SameCurve<P(!new), F(!new), V(!new)>(c: Curve<P, F, V>, s: Fn<F>, t: Fn<F>, A: P)
    ensures WithOrders(c).Product(s, t) == c.Product(s, t) && WithOrders(c).Value(s, A) == c.Value(s, A)
    ensures Local(WithOrders(c), A) == Local(c, A)
  {
  }

  lemma {:induction false} SamePower<P(!new), F(!new), V(!new)>(c: Curve<P, F, V>, s: Fn<F>, n: nat)
    ensures FnPower(WithOrders(c), s, n) == FnPower(c, s, n)
  {
    hide WithOrders, Curve.Product, Curve.Value, Local;
    if n == 0 {
      SameField(c);
    } else {
      SamePower(c, s, n - 1);
      SameCurve(c, s, FnPower(c, s, n - 1), c.points.zero);
    }
  }

  lemma SameField<P(!new), F(!new), V(!new)>(c: Curve<P, F, V>)
    ensures WithOrders(c).field == c.field && WithOrders(c).points == c.points
  {
  }

  lemma SameWitness<P(!new), F(!new), V(!new)>(c: Curve<P, F, V>, s: Fn<F>, A: P, n: nat, u: Fn<F>, h: Fn<F>)
    ensures IsOrderBy(WithOrders(c), s, A, n, u, h) <==> IsOrderBy(c, s, A, n, u, h)
  {
    hide WithOrders, Curve.Product, Curve.Value, Local, IsFn, FnPower;
    SameField(c);
    SameCurve(c, u, s, A);
    SameCurve(c, FnPower(c, Local(c, A), n), h, A);
    SameCurve(c, h, h, A);
    SamePower(c, Local(c, A), n);
  }

  lemma SameOrder<P(!new), F(!new), V(!new)>(c: Curve<P, F, V>, s: Fn<F>, A: P, n: nat)
    ensures IsOrder(WithOrders(c), s, A, n) <==> IsOrder(c, s, A, n)
  {
    hide WithOrders, IsOrderBy;
    if IsOrder(c, s, A, n) {
      var u, h :| IsOrderBy(c, s, A, n, u, h);
      SameWitness(c, s, A, n, u, h);
    }
    if IsOrder(WithOrders(c), s, A, n) {
      var u, h :| IsOrderBy(WithOrders(c), s, A, n, u, h);
      SameWitness(c, s, A, n, u, h);
    }
  }

  lemma SameOrd<P(!new), F(!new), V(!new)>(c: Curve<P, F, V>, s: Fn<F>, A: P)
    requires c.HasCoordinates() && A != c.points.zero
    ensures Ord(WithOrders(c), s, A) == Ord(c, s, A)
  {
    hide WithOrders, IsOrder, Curve.HasCoordinates;
    SameOrder(c, s, A, Ord(c, s, A));
    SameOrder(c, s, A, Ord(WithOrders(c), s, A));
    if IsOrder(c, s, A, Ord(WithOrders(c), s, A)) {
      OrdIs(c, s, A, Ord(WithOrders(c), s, A));
    }
    if IsOrder(c, s, A, Ord(c, s, A)) {
      OrdIs(c, s, A, Ord(c, s, A));
    }
  }

  lemma OrdersAreMeasured<P(!new), F(!new), V(!new)>(c: Curve<P, F, V>)
    requires c.HasCoordinates()
    ensures MeasuresOrders(WithOrders(c))
  {
    var o := WithOrders(c);
    forall s
      ensures DivOf(o, s) == DivOf(c, s)
    {
      forall Q
        ensures DivOf(o, s)[Q] == DivOf(c, s)[Q]
      {
        hide Curve.HasCoordinates, Ord, PoleOrder;
        if Q != c.points.zero {
          SameOrd(c, s, Q);
        }
      }
    }
  }

  /** On every smooth curve the hypotheses of the construction of functions hold, with the orders of
      vanishing as divisors. */
  lemma SmoothCurveHasDivisors<P(!new), F(!new), V(!new)>(c: Curve<P, F, V>)
    requires c.HasCoordinates() && c.AddsCollinear() && IsSmooth(c)
    ensures WithOrders(c).HasDivisors()
  {
    OrdersAreMeasured(c);
    SameLaws(c);
    hide Curve.HasCoordinates, Curve.AddsCollinear, Curve.HasDivisors, IsSmooth, MeasuresOrders, WithOrders;
    OrdersAreDivisors(WithOrders(c));
  }

  lemma SameLaws<P(!new), F(!new), V(!new)>(c: Curve<P, F, V>)
    requires c.HasCoordinates() && c.AddsCollinear() && IsSmooth(c)
    ensures WithOrders(c).HasCoordinates() && WithOrders(c).AddsCollinear() && IsSmooth(WithOrders(c))
  {
    var o := WithOrders(c);
    assert o.HasCoordinates() by {
      hide Field.IsField, Group.IsGroup;
    }
    forall m, i, A, B, C | o.Meets(m, i, A, B, C)
      ensures c.Meets(m, i, A, B, C)
    {
      hide Field.IsField, Group.IsGroup, Same, Times, Linear;
    }
  }
}
