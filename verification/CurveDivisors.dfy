/** Divisors of functions on a short Weierstrass curve: lines through two points, and the
    functions that vertical lines divide. */
module CurveDivisors {
  import opened Fields
  import opened FunctionField
  import opened Groups
  import opened PolynomialRing
  import PolynomialAlgorithms
  import opened Polynomials
  import opened Results

  /** Points with coordinates, and divisors of polynomial functions. Divisors leave infinity out:
      `at` of a finite point is that point once, `div` of a function its finite zeros. */
  datatype Curve<!P(!new), !F(!new), !V(!new)> = Curve(
    field: Field<F>, a: F, b: F, points: Group<P>, x: P -> F, y: P -> F,
    divisors: Group<V>, at: P -> V, div: Fn<F> -> V, effective: V -> bool)
  {
    /** x^3 + a x + b */
    function W(): seq<F> {
      [b, a, field.zero, field.one]
    }

    function RightSide(u: F): F {
      field.add(field.mul(field.add(field.mul(u, u), a), u), b)
    }

    /** Finite points are the pairs of coordinates on the curve, negation changes the sign of y, and
        the characteristic is not two. */
    ghost predicate HasCoordinates() {
      && field.IsField() && field.add(field.one, field.one) != field.zero && points.IsGroup()
      && (forall A :: A != points.zero ==> field.mul(y(A), y(A)) == RightSide(x(A)))
      && (forall A :: A != points.zero ==> x(points.neg(A)) == x(A) && y(points.neg(A)) == field.neg(y(A)))
      && (forall A, B :: A != points.zero && B != points.zero && x(A) == x(B) && y(A) == y(B) ==> A == B)
      && (forall u, v {:trigger Both(u, v)} :: Both(u, v) && field.mul(v, v) == RightSide(u) ==>
           exists A :: A != points.zero && x(A) == u && y(A) == v)
    }

    /** x^3 + a x + b - (m x + i)^2 */
    function Intersection(m: F, i: F): seq<F> {
      Add(field, W(), Times(field, [field.neg(i), field.neg(m)], [i, m]))
    }

    ghost predicate OnLine(m: F, i: F, A: P) {
      y(A) == field.add(i, field.mul(m, x(A)))
    }

    /** The line y == m x + i meets the curve in A, B and C, counted with multiplicity. */
    ghost predicate Meets(m: F, i: F, A: P, B: P, C: P) {
      && A != points.zero && B != points.zero && C != points.zero
      && OnLine(m, i, A) && OnLine(m, i, B) && OnLine(m, i, C)
      && Same(field, Intersection(m, i), Times(field, Times(field, Linear(field, x(A)), Linear(field, x(B))), Linear(field, x(C))))
    }

    /** The group law: three points in which a line meets the curve sum to infinity. */
    ghost predicate AddsCollinear() {
      forall m, i, A, B, C {:trigger Meets(m, i, A, B, C)} :: Meets(m, i, A, B, C) ==> points.add(points.add(A, B), C) == points.zero
    }

    /** The function a coefficient list denotes. */
    ghost function Of(cs: seq<seq<F>>): Fn<F> {
      Red(field, W(), cs)
    }

    ghost function Product(s: Fn<F>, t: Fn<F>): Fn<F> {
      FnMul(field, W(), s, t)
    }

    ghost predicate Nonzero(s: Fn<F>) {
      IsFn(field, s) && s != Fn([], [])
    }

    /** The value at a finite point. */
    function Value(s: Fn<F>, A: P): F {
      field.add(PolyValue(field, s.a, x(A)), field.mul(PolyValue(field, s.b, x(A)), y(A)))
    }

    ghost predicate HasGroups() {
      points.IsGroup() && divisors.IsGroup() && at(points.zero) == divisors.zero
    }

    /** The classical facts about divisors of functions on the curve: products add divisors, a line
        vanishes where it meets the curve, a function vanishes at the points of its divisor, and zeros
        at given points determine a function up to a constant. */
    ghost predicate HasDivisors() {
      && HasCoordinates() && AddsCollinear() && HasGroups()
      && (forall A {:trigger Point(A)} :: Point(A) ==> effective(at(A)))
      && (forall u, v {:trigger Both(u, v)} :: Both(u, v) && effective(u) && effective(v) ==> effective(divisors.add(u, v)))
      && (forall s, t {:trigger Both(s, t)} :: Both(s, t) && Nonzero(s) && Nonzero(t) ==>
           div(Product(s, t)) == divisors.add(div(s), div(t)))
      && (forall m, i, A, B, C {:trigger Meets(m, i, A, B, C)} :: Meets(m, i, A, B, C) ==>
           div(Of(Sloped(field, m, i))) == divisors.add(divisors.add(at(A), at(B)), at(C)))
      && (forall A {:trigger Point(A)} :: Point(A) && A != points.zero ==>
           div(Of([Linear(field, x(A))])) == divisors.add(at(A), at(points.neg(A))))
      && (forall s, A {:trigger Both(s, A)} :: Both(s, A) && Nonzero(s) && A != points.zero ==>
           effective(divisors.add(div(s), divisors.neg(at(A)))) ==> Value(s, A) == field.zero)
      && (forall s, k {:trigger Both(s, k)} :: Both(s, k) && Nonzero(s) && k != field.zero ==> div(Scl(field, [k], s)) == div(s))
      && (forall s, t, Ps {:trigger Both(s, t), ZerosAt(this, Ps)} :: Both(s, t) && Nonzero(s) && Nonzero(t) ==>
           div(s) == ZerosAt(this, Ps) == div(t) ==> exists k :: k != field.zero && t == Scl(field, [k], s))
    }
  }

  /** Markers: the laws are used one instance at a time. */
  ghost predicate Point<P>(A: P) {
    true
  }

  ghost predicate Both<S, T>(s: S, t: T) {
    true
  }

  /** The sum of the points of a list, as a divisor. */
  function ZerosAt<P(!new), F(!new), V(!new)>(c: Curve<P, F, V>, Ps: seq<P>): V {
    Total(c.divisors, seq(|Ps|, i requires 0 <= i < |Ps| => c.at(Ps[i])))
  }

  lemma AtNext<P(!new), F(!new), V(!new)>(c: Curve<P, F, V>, Ps: seq<P>, A: P)
    ensures ZerosAt(c, Ps + [A]) == c.divisors.add(ZerosAt(c, Ps), c.at(A))
  {
    var s := seq(|Ps|, i requires 0 <= i < |Ps| => c.at(Ps[i]));
    TotalNext(c.divisors, s, c.at(A));
    assert seq(|Ps + [A]|, i requires 0 <= i < |Ps + [A]| => c.at((Ps + [A])[i])) == s + [c.at(A)];
  }

  lemma AtNothing<P(!new), F(!new), V(!new)>(c: Curve<P, F, V>)
    ensures ZerosAt(c, []) == c.divisors.zero
  {
  }

  // ----- lines -----

  /** A finite point that is its own negative. */
  predicate TwoTorsion<P(==, !new)>(g: Group<P>, A: P) {
    A != g.zero && g.neg(A) == A
  }

  /** y - (m x + i) */
  function Sloped<F(!new)>(f: Field<F>, m: F, i: F): seq<seq<F>> {
    [[f.neg(i), f.neg(m)], [f.one]]
  }

  /** line(): the tangent, the chord or the vertical through two points, 1 for two infinities.
      Division by zero raises. */
  function Line<P(==, !new), F(==, !new), V(!new)>(c: Curve<P, F, V>, A: P, B: P): Result<seq<seq<F>>> {
    var f := c.field;
    if A == c.points.zero then
      if B == c.points.zero then Ok([[f.one]]) else Ok([Linear(f, c.x(B))])
    else if B == c.points.zero then Ok([Linear(f, c.x(A))])
    else if A == B then
      var den := f.add(c.y(A), c.y(A));
      var square := f.mul(c.x(A), c.x(A));
      var m := f.mul(f.add(f.add(f.add(square, square), square), c.a), f.inv(den));
      if den == f.zero then Err(ValueError) else Ok(Sloped(f, m, f.Sub(c.y(A), f.mul(m, c.x(A)))))
    else if A == c.points.neg(B) then Ok([Linear(f, c.x(A))])
    else
      var den := f.Sub(c.x(A), c.x(B));
      var m := f.mul(f.Sub(c.y(A), c.y(B)), f.inv(den));
      if den == f.zero then Err(ValueError) else Ok(Sloped(f, m, f.Sub(c.y(B), f.mul(m, c.x(B)))))
  }

  lemma CurveFacts<P(!new), F(!new), V(!new)>(c: Curve<P, F, V>)
    requires c.HasDivisors()
    ensures c.HasCoordinates() && c.AddsCollinear() && c.HasGroups() && c.field.IsField() && c.points.IsGroup() && c.divisors.IsGroup()
    ensures c.at(c.points.zero) == c.divisors.zero
  {
  }

  lemma Coordinates<P(!new), F(!new), V(!new)>(c: Curve<P, F, V>, A: P)
    requires c.HasCoordinates() && A != c.points.zero
    ensures c.field.mul(c.y(A), c.y(A)) == c.RightSide(c.x(A))
    ensures c.points.neg(A) != c.points.zero && c.points.neg(c.points.neg(A)) == A
    ensures c.x(c.points.neg(A)) == c.x(A) && c.y(c.points.neg(A)) == c.field.neg(c.y(A))
  {
    NegOfNeg(c.points, A);
  }

  lemma SameCoordinates<P(!new), F(!new), V(!new)>(c: Curve<P, F, V>, A: P, B: P)
    requires c.HasCoordinates() && A != c.points.zero && B != c.points.zero && c.x(A) == c.x(B) && c.y(A) == c.y(B)
    ensures A == B
  {
  }

  /** u^2 == v^2 only for u == v and u == -v. */
  lemma SquaresEqual<F(!new)>(f: Field<F>, u: F, v: F)
    requires f.IsField() && f.mul(u, u) == f.mul(v, v)
    ensures u == v || u == f.neg(v)
  {
    hide Field.IsField;
    var d := f.Sub(u, v);
    Distrib(f, d, u, v);
    Distrib(f, u, u, f.neg(v));
    Distrib(f, v, u, f.neg(v));
    Fields.MulNeg(f, u, v);
    Fields.MulNeg(f, v, v);
    MulComm(f, u, v);
    MulComm(f, d, u);
    MulComm(f, d, v);
    var s, m := f.mul(u, u), f.mul(u, v);
    // (s - m) + (m - s) == 0
    AddAssoc(f, s, f.neg(m), f.add(m, f.neg(s)));
    AddAssoc(f, f.neg(m), m, f.neg(s));
    AddNeg(f, m);
    AddZero(f, f.neg(s));
    AddNeg(f, s);
    NoZeroDivisors(f, d, f.add(u, v));
    if d == f.zero {
      SubThenAdd(f, u, v);
      AddZero(f, v);
    } else {
      AddComm(f, u, v);
      NegUnique(f, v, u);
    }
  }

  /** Where the characteristic is not two, u + u == 0 only for u == 0. */
  lemma Doubling<F(!new)>(f: Field<F>, u: F)
    requires f.IsField() && f.add(f.one, f.one) != f.zero
    ensures f.add(u, u) == f.zero <==> u == f.zero
    ensures u == f.neg(u) <==> u == f.zero
  {
    hide Field.IsField;
    Distrib(f, u, f.one, f.one);
    MulOne(f, u);
    NoZeroDivisors(f, u, f.add(f.one, f.one));
    AddNeg(f, u);
    AddZero(f, f.zero);
    if u == f.zero {
      NegUnique(f, u, u);
    }
  }

  /** A finite point is its own negative exactly when y == 0. */
  lemma TorsionIsZeroY<P(!new), F(!new), V(!new)>(c: Curve<P, F, V>, A: P)
    requires c.HasCoordinates() && A != c.points.zero
    ensures TwoTorsion(c.points, A) <==> c.y(A) == c.field.zero
    ensures TwoTorsion(c.points, A) <==> c.field.add(c.y(A), c.y(A)) == c.field.zero
  {
    hide Field.IsField, Group.IsGroup;
    Coordinates(c, A);
    Doubling(c.field, c.y(A));
    if c.y(A) == c.field.zero {
      SameCoordinates(c, A, c.points.neg(A));
    }
  }

  /** Two finite points over the same x are equal or opposite. */
  lemma SameX<P(!new), F(!new), V(!new)>(c: Curve<P, F, V>, A: P, B: P)
    requires c.HasCoordinates() && A != c.points.zero && B != c.points.zero && c.x(A) == c.x(B)
    ensures A == B || A == c.points.neg(B)
  {
    hide Field.IsField, Group.IsGroup;
    Coordinates(c, A);
    Coordinates(c, B);
    SquaresEqual(c.field, c.y(A), c.y(B));
    if c.y(A) == c.y(B) {
      SameCoordinates(c, A, B);
    } else {
      SameCoordinates(c, A, c.points.neg(B));
    }
  }

  /** line() raises exactly for the tangent at a point that is its own negative. */
  lemma LineFails<P(!new), F(!new), V(!new)>(c: Curve<P, F, V>, A: P, B: P)
    requires c.HasCoordinates()
    ensures Line(c, A, B).Err? <==> A == B && TwoTorsion(c.points, A)
    ensures Line(c, A, B).Err? ==> Line(c, A, B).failure == ValueError
  {
    hide Field.IsField, Group.IsGroup, Curve.HasCoordinates;
    if A != c.points.zero && B != c.points.zero {
      if A == B {
        TorsionIsZeroY(c, A);
      } else if A != c.points.neg(B) {
        DifferentX(c, A, B);
      }
    }
  }

  lemma DifferentX<P(!new), F(!new), V(!new)>(c: Curve<P, F, V>, A: P, B: P)
    requires c.HasCoordinates() && A != c.points.zero && B != c.points.zero && A != B && A != c.points.neg(B)
    ensures c.field.Sub(c.x(A), c.x(B)) != c.field.zero
  {
    hide Field.IsField, Group.IsGroup;
    if c.field.Sub(c.x(A), c.x(B)) == c.field.zero {
      SubThenAdd(c.field, c.x(A), c.x(B));
      AddZero(c.field, c.x(B));
      SameX(c, A, B);
    }
  }

  /** x - x(A), or 1 at infinity */
  function Vertical<P(==, !new), F(!new), V(!new)>(c: Curve<P, F, V>, A: P): seq<F> {
    if A == c.points.zero then [c.field.one] else Linear(c.field, c.x(A))
  }

  /** The line through a point and its negative is one coefficient, the vertical. */
  lemma LineIsVertical<P(!new), F(!new), V(!new)>(c: Curve<P, F, V>, A: P)
    requires c.HasCoordinates()
    ensures !TwoTorsion(c.points, A) ==> Line(c, A, c.points.neg(A)) == Ok([Vertical(c, A)])
    ensures TwoTorsion(c.points, A) ==> Line(c, A, c.points.neg(A)) == Err(ValueError)
  {
    hide Field.IsField, Group.IsGroup;
    NegOfNeg(c.points, A);
    LineFails(c, A, c.points.neg(A));
  }

  /** Lines have one or two coefficients and are not zero. */
  lemma LineShape<P(!new), F(!new), V(!new)>(c: Curve<P, F, V>, A: P, B: P)
    requires c.HasCoordinates() && Line(c, A, B).Ok?
    ensures 1 <= |Line(c, A, B).value| <= 2 && c.Nonzero(c.Of(Line(c, A, B).value))
  {
    hide Field.IsField, Group.IsGroup, Red, Canon;
    var f, cs := c.field, Line(c, A, B).value;
    RedIsFn(f, c.W(), cs);
    RedOfFew(f, c.W(), cs[0], [f.one]);
    OneIsNonzero(f);
    if |cs| == 1 {
      assert cs == [cs[0]];
      LinearIsNonzero(f, c.x(A));
      LinearIsNonzero(f, c.x(B));
    } else {
      assert cs == [cs[0], [f.one]];
    }
  }

  lemma OneIsNonzero<F(!new)>(f: Field<F>)
    requires f.IsField()
    ensures Canon(f, [f.one]) == [f.one]
  {
    hide Field.IsField;
    PolynomialAlgorithms.OneIsNotZero(f);
  }

  lemma LinearIsNonzero<F(!new)>(f: Field<F>, z: F)
    requires f.IsField()
    ensures Canon(f, Linear(f, z)) == Linear(f, z) && Degree(f, Linear(f, z)) == 1
  {
    hide Field.IsField;
    PolynomialAlgorithms.OneIsNotZero(f);
  }

  // ----- the laws, one instance at a time -----

  lemma DivOfProduct<P(!new), F(!new), V(!new)>(c: Curve<P, F, V>, s: Fn<F>, t: Fn<F>)
    requires c.HasDivisors() && c.Nonzero(s) && c.Nonzero(t)
    ensures c.Nonzero(c.Product(s, t)) && c.div(c.Product(s, t)) == c.divisors.add(c.div(s), c.div(t))
  {
    assert Both(s, t);
    CurveIsCubic(c);
    ProductIsNonzero(c, s, t);
  }

  lemma CurveIsCubic<P(!new), F(!new), V(!new)>(c: Curve<P, F, V>)
    requires c.field.IsField()
    ensures Degree(c.field, c.W()) == 3
  {
    hide Field.IsField;
    PolynomialAlgorithms.OneIsNotZero(c.field);
  }

  lemma ProductIsNonzero<P(!new), F(!new), V(!new)>(c: Curve<P, F, V>, s: Fn<F>, t: Fn<F>)
    requires c.field.IsField() && c.Nonzero(s) && c.Nonzero(t)
    ensures c.Nonzero(c.Product(s, t))
  {
    hide Field.IsField, FnMul, IsFn, Curve.W, Degree;
    CurveIsCubic(c);
    PoleOfProduct(c.field, c.W(), s, t);
  }

  lemma DivOfSloped<P(!new), F(!new), V(!new)>(c: Curve<P, F, V>, m: F, i: F, A: P, B: P, C: P)
    requires c.HasDivisors() && c.Meets(m, i, A, B, C)
    ensures c.div(c.Of(Sloped(c.field, m, i))) == c.divisors.add(c.divisors.add(c.at(A), c.at(B)), c.at(C))
  {
  }

  lemma DivOfLinear<P(!new), F(!new), V(!new)>(c: Curve<P, F, V>, A: P)
    requires c.HasDivisors() && A != c.points.zero
    ensures c.div(c.Of([Linear(c.field, c.x(A))])) == c.divisors.add(c.at(A), c.at(c.points.neg(A)))
  {
    assert Point(A);
  }

  lemma PointIsEffective<P(!new), F(!new), V(!new)>(c: Curve<P, F, V>, A: P)
    requires c.HasDivisors()
    ensures c.effective(c.at(A))
  {
    assert Point(A);
  }

  lemma SumIsEffective<P(!new), F(!new), V(!new)>(c: Curve<P, F, V>, u: V, v: V)
    requires c.HasDivisors() && c.effective(u) && c.effective(v)
    ensures c.effective(c.divisors.add(u, v))
  {
    assert Both(u, v);
  }

  lemma VanishesAtZero<P(!new), F(!new), V(!new)>(c: Curve<P, F, V>, s: Fn<F>, A: P)
    requires c.HasDivisors() && c.Nonzero(s) && A != c.points.zero
    requires c.effective(c.divisors.add(c.div(s), c.divisors.neg(c.at(A))))
    ensures c.Value(s, A) == c.field.zero
  {
    assert Both(s, A);
  }

  lemma DivOfOne<P(!new), F(!new), V(!new)>(c: Curve<P, F, V>)
    requires c.HasDivisors()
    ensures c.Nonzero(c.Of([[c.field.one]])) && c.div(c.Of([[c.field.one]])) == c.divisors.zero
    ensures c.Of([[c.field.one]]) == Fn([c.field.one], [])
  {
    hide Curve.HasDivisors, Curve.HasCoordinates, Group.IsGroup, Field.IsField, Red, FnMul, Scl, PMul;
    CurveFacts(c);
    var f, g := c.field, c.divisors;
    var s := c.Of([[f.one]]);
    RedOfFew(f, c.W(), [f.one], []);
    OneIsNonzero(f);
    CanonOfNothing(f);
    MulOfPolynomial(f, c.W(), [f.one], s);
    OneTimesFn(f, s);
    DivOfProduct(c, s, s);
    Assoc(g, c.div(s), c.div(s), g.neg(c.div(s)));
    Inverse(g, c.div(s));
    Identity(g, c.div(s));
  }

  lemma OneTimesFn<F(!new)>(f: Field<F>, s: Fn<F>)
    requires f.IsField() && IsFn(f, s)
    ensures Scl(f, [f.one], s) == s
  {
    hide Field.IsField, PMul;
    PMulOne(f, s.a);
    PMulOne(f, s.b);
  }

  // ----- the lines of line() meet the curve where they should -----

  /** The value of x^3 + a x + b - (m x + i)^2. */
  lemma IntersectionValue<P(!new), F(!new), V(!new)>(c: Curve<P, F, V>, m: F, i: F, u: F)
    requires c.field.IsField()
    ensures var l := c.field.add(i, c.field.mul(m, u));
      PolyValue(c.field, c.Intersection(m, i), u) == c.field.Sub(c.RightSide(u), c.field.mul(l, l))
  {
    var f := c.field;
    hide Field.IsField, Times, Add;
    var p, q := [f.neg(i), f.neg(m)], [i, m];
    ValueOfSum(f, c.W(), Times(f, p, q), u);
    ValueOfProduct(f, p, q, u);
    var l := f.add(i, f.mul(m, u));
    LinearValue(f, i, m, u);
    LinearValue(f, f.neg(i), f.neg(m), u);
    MulComm(f, f.neg(m), u);
    MulComm(f, m, u);
    Fields.MulNeg(f, u, m);
    NegOfFieldSum(f, i, f.mul(m, u));
    MulComm(f, f.neg(l), l);
    Fields.MulNeg(f, l, l);
    CubicValue(c, u);
  }

  lemma CubicValue<P(!new), F(!new), V(!new)>(c: Curve<P, F, V>, u: F)
    requires c.field.IsField()
    ensures PolyValue(c.field, c.W(), u) == c.RightSide(u)
  {
    hide Field.IsField;
    var f, w := c.field, c.W();
    assert w[1..] == [c.a, f.zero, f.one] && [c.a, f.zero, f.one][1..] == [f.zero, f.one];
    LinearValue(f, f.zero, f.one, u);
    MulOne(f, u);
    AddZero(f, u);
    AddComm(f, c.a, f.mul(u, u));
    AddComm(f, c.b, f.mul(f.add(f.mul(u, u), c.a), u));
  }

  lemma NegOfFieldSum<F(!new)>(f: Field<F>, x: F, y: F)
    requires f.IsField()
    ensures f.neg(f.add(x, y)) == f.add(f.neg(x), f.neg(y))
  {
    AdditiveGroup(f);
    NegOfSum(f.Additive(), x, y);
  }

  /** A point of the curve over u lies on the line exactly up to sign; in particular every point on
      the line is a root. */
  lemma PointOnLineIsRoot<P(!new), F(!new), V(!new)>(c: Curve<P, F, V>, m: F, i: F, A: P)
    requires c.HasCoordinates() && A != c.points.zero && c.OnLine(m, i, A)
    ensures PolyValue(c.field, c.Intersection(m, i), c.x(A)) == c.field.zero
  {
    hide Field.IsField, Group.IsGroup, Curve.Intersection;
    IntersectionValue(c, m, i, c.x(A));
    Coordinates(c, A);
    AddNeg(c.field, c.RightSide(c.x(A)));
  }

  /** Over every root there is a point on the line. */
  lemma RootIsPointOnLine<P(!new), F(!new), V(!new)>(c: Curve<P, F, V>, m: F, i: F, u: F) returns (C: P)
    requires c.HasCoordinates() && PolyValue(c.field, c.Intersection(m, i), u) == c.field.zero
    ensures C != c.points.zero && c.x(C) == u && c.OnLine(m, i, C)
  {
    var f, v := c.field, c.field.add(i, c.field.mul(m, u));
    assert c.RightSide(u) == f.mul(v, v) by {
      hide Field.IsField, Group.IsGroup, Curve.Intersection;
      IntersectionValue(c, m, i, u);
      SubThenAdd(f, c.RightSide(u), f.mul(v, v));
      AddZero(f, f.mul(v, v));
    }
    assert Both(u, v);
    C :| C != c.points.zero && c.x(C) == u && c.y(C) == v;
  }

  /** The last root: a cubic with leading coefficient 1 and two roots has a third. */
  lemma ThirdRoot<F(!new)>(f: Field<F>, p: seq<F>, z: F, z': F) returns (u: F)
    requires f.IsField() && |p| == 4 && p[3] == f.one
    requires PolyValue(f, p, z) == f.zero && PolyValue(f, Deflated(f, p, z), z') == f.zero
    ensures Same(f, p, Times(f, Times(f, Linear(f, z), Linear(f, z')), Linear(f, u)))
  {
    hide Field.IsField, Canon, Same, Times, PMul;
    var q := Deflated(f, p, z);
    var r := Deflated(f, q, z');
    u := f.neg(r[0]);
    RootIsFactor(f, p, z);
    RootIsFactor(f, q, z');
    MonicDeflated(f, p, z, z');
    PMulOf(f, Linear(f, z'), r, Linear(f, z'), Linear(f, u)) by { SameItself(f, Linear(f, z')); }
    FactorsOfCubic(f, p, q, z, z', u);
  }

  lemma FactorsOfCubic<F(!new)>(f: Field<F>, p: seq<F>, q: seq<F>, z: F, z': F, u: F)
    requires f.IsField() && Canon(f, p) == PMul(f, Linear(f, z), q) && Canon(f, q) == PMul(f, Linear(f, z'), Linear(f, u))
    ensures Same(f, p, Times(f, Times(f, Linear(f, z), Linear(f, z')), Linear(f, u)))
  {
    hide Field.IsField, Canon, Same, Times;
    var a, b, d := Linear(f, z), Linear(f, z'), Linear(f, u);
    SameItself(f, a);
    SameItself(f, d);
    PMulOf(f, a, q, a, Canon(f, q)) by { CanonIsSame(f, q); }
    PMulAssoc(f, a, b, d);
    PMulOf(f, PMul(f, a, b), d, Times(f, a, b), d);
    SameByCanon(f, p, Times(f, Times(f, a, b), d));
  }

  /** Dividing a monic cubic by two linear factors leaves x - u. */
  lemma MonicDeflated<F(!new)>(f: Field<F>, p: seq<F>, z: F, z': F)
    requires f.IsField() && |p| == 4 && p[3] == f.one
    ensures var r := Deflated(f, Deflated(f, p, z), z'); |r| == 4 && Same(f, r, Linear(f, f.neg(r[0])))
  {
    var q := Deflated(f, p, z);
    CubicQuotient(f, p, z);
    CubicQuotient(f, q, z');
    var r := Deflated(f, q, z');
    assert r[1] == f.one && r[2] == r[3] == f.zero by {
      hide Field.IsField;
      Fields.MulZero(f, z');
      AddZero(f, f.one);
    }
    assert f.neg(f.neg(r[0])) == r[0] by {
      AdditiveGroup(f);
      NegOfNeg(f.Additive(), r[0]);
    }
  }

  /** Synthetic division of four coefficients. */
  lemma CubicQuotient<F(!new)>(f: Field<F>, p: seq<F>, z: F)
    requires f.IsField() && |p| == 4
    ensures var v := f.add(p[2], f.mul(p[3], z));
      Deflated(f, p, z) == [f.add(p[1], f.mul(v, z)), v, p[3], f.zero]
  {
    hide Field.IsField;
    var p1, p2, p3 := p[1..], p[2..], p[3..];
    assert p1 == [p[1], p[2], p[3]] && p1[1..] == p2 == [p[2], p[3]] && p2[1..] == p3 == [p[3]] && p3[1..] == [];
    LinearValue(f, p[2], p[3], z);
    Fields.MulZero(f, z);
    AddZero(f, p[3]);
    assert PolyValue(f, p3, z) == p[3];
    assert PolyValue(f, p1, z) == f.add(p[1], f.mul(f.add(p[2], f.mul(p[3], z)), z));
    assert Deflated(f, p3, z) == [f.zero];
    assert Deflated(f, p2, z) == [p[3], f.zero];
    assert Deflated(f, p1, z) == [PolyValue(f, p2, z), p[3], f.zero];
  }

  /** -(m x + i) (m x + i) by coefficients. */
  lemma MinusSquare<F(!new)>(f: Field<F>, m: F, i: F)
    requires f.IsField()
    ensures var t := Times(f, [f.neg(i), f.neg(m)], [i, m]);
      && |t| == 4 && t[1] == f.neg(f.add(f.mul(m, i), f.mul(m, i))) && t[2] == f.neg(f.mul(m, m)) && t[3] == f.zero
  {
    hide Field.IsField;
    var p, q := [f.neg(i), f.neg(m)], [i, m];
    var c0, c1, c2 := f.mul(f.neg(i), m), f.mul(f.neg(m), i), f.mul(f.neg(m), m);
    Fields.MulZero(f, f.neg(i));
    Fields.MulZero(f, f.neg(m));
    Fields.MulZero(f, i);
    Fields.MulZero(f, m);
    AddZero(f, f.zero);
    AddZero(f, c0);
    AddZero(f, c2);
    assert ProductCoef(f, p, q, 1) == f.add(c0, c1) by {
      assert Convolution(f, p, q, 1, 1) == c0;
    }
    assert ProductCoef(f, p, q, 2) == c2 by {
      assert Convolution(f, p, q, 2, 1) == f.zero;
      assert Convolution(f, p, q, 2, 2) == c2;
    }
    assert ProductCoef(f, p, q, 3) == f.zero by {
      assert Convolution(f, p, q, 3, 1) == f.zero;
      assert Convolution(f, p, q, 3, 2) == f.zero;
      assert Convolution(f, p, q, 3, 3) == f.zero;
    }
    NegTimes(f, i, m);
    NegTimes(f, m, i);
    NegTimes(f, m, m);
    MulComm(f, i, m);
    NegOfFieldSum(f, f.mul(m, i), f.mul(m, i));
  }

  lemma NegTimes<F(!new)>(f: Field<F>, x: F, y: F)
    requires f.IsField()
    ensures f.mul(f.neg(x), y) == f.neg(f.mul(x, y))
  {
    hide Field.IsField;
    MulComm(f, f.neg(x), y);
    Fields.MulNeg(f, y, x);
    MulComm(f, y, x);
  }

  lemma IntersectionCoefficients<P(!new), F(!new), V(!new)>(c: Curve<P, F, V>, m: F, i: F)
    requires c.field.IsField()
    ensures var f, p := c.field, c.Intersection(m, i);
      && |p| == 4 && p[3] == f.one && p[2] == f.neg(f.mul(m, m)) && p[1] == f.Sub(c.a, f.add(f.mul(m, i), f.mul(m, i)))
  {
    var f := c.field;
    hide Field.IsField, Times;
    MinusSquare(f, m, i);
    AddZero(f, f.one);
    AddZero(f, f.neg(f.mul(m, m)));
  }

  /** (p / (x - z))(z) is the derivative of p at z. */
  lemma DeflatedAtRoot<F(!new)>(f: Field<F>, p: seq<F>, z: F)
    requires f.IsField() && |p| == 4
    ensures PolyValue(f, Deflated(f, p, z), z)
      == f.add(p[1], f.mul(f.add(f.add(p[2], p[2]), f.mul(f.add(f.add(p[3], p[3]), p[3]), z)), z))
  {
    hide Field.IsField, PolyValue;
    var v, t := f.add(p[2], f.mul(p[3], z)), f.mul(p[3], z);
    var q := [f.add(p[1], f.mul(v, z)), v, p[3], f.zero];
    CubicQuotient(f, p, z);
    assert PolyValue(f, q, z) == f.add(q[0], f.mul(f.add(v, t), z)) by { QuotientValue(f, q, z); }
    AddAssoc(f, p[1], f.mul(v, z), f.mul(f.add(v, t), z));
    Distrib(f, z, v, f.add(v, t));
    // v + (v + t) == (p2 + p2) + ((t + t) + t)
    AddAssoc(f, v, v, t);
    AddInterchange(f, p[2], t, p[2], t);
    AddAssoc(f, f.add(p[2], p[2]), f.add(t, t), t);
    Distrib(f, z, p[3], p[3]);
    Distrib(f, z, f.add(p[3], p[3]), p[3]);
  }

  lemma QuotientValue<F(!new)>(f: Field<F>, q: seq<F>, z: F)
    requires f.IsField() && |q| == 4 && q[3] == f.zero
    ensures PolyValue(f, q, z) == f.add(q[0], f.mul(f.add(q[1], f.mul(q[2], z)), z))
  {
    hide Field.IsField;
    var r := [q[0], q[1], q[2]];
    assert q == r + [f.zero];
    PolySnoc(f, r, f.zero, z);
    Fields.MulZero(f, Power(f, z, 3));
    AddZero(f, PolyValue(f, r, z));
    assert r[1..] == [q[1], q[2]];
    LinearValue(f, q[1], q[2], z);
  }

  /** The tangent meets the curve twice: with m (y + y) == x^2 + x^2 + x^2 + a the root x(A) is double. */
  lemma TangentIsDouble<P(!new), F(!new), V(!new)>(c: Curve<P, F, V>, m: F, i: F, A: P)
    requires c.field.IsField() && c.OnLine(m, i, A)
    requires var f, z := c.field, c.x(A);
      f.mul(m, f.add(c.y(A), c.y(A))) == f.add(f.add(f.add(f.mul(z, z), f.mul(z, z)), f.mul(z, z)), c.a)
    ensures PolyValue(c.field, Deflated(c.field, c.Intersection(m, i), c.x(A)), c.x(A)) == c.field.zero
  {
    hide Field.IsField, PolyValue, Curve.Intersection, Deflated;
    var f, z, y := c.field, c.x(A), c.y(A);
    IntersectionCoefficients(c, m, i);
    DeflatedAtRoot(f, c.Intersection(m, i), z);
    var k, square, mi, mm := f.add(f.add(f.one, f.one), f.one), f.mul(z, z), f.mul(m, i), f.mul(m, m);
    var cubed, linear := f.add(f.add(square, square), square), f.mul(m, f.add(y, y));
    // (k z) z == cubed
    MulAssoc(f, k, z, z);
    MulOne(f, square);
    Distrib(f, square, f.add(f.one, f.one), f.one);
    Distrib(f, square, f.one, f.one);
    // ((-mm - mm) + k z) z == (-(mm + mm)) z + cubed
    Distrib(f, z, f.add(f.neg(mm), f.neg(mm)), f.mul(k, z));
    NegOfFieldSum(f, mm, mm);
    NegTimes(f, f.add(mm, mm), z);
    // (mi + mi) + (mm + mm) z == linear
    SlopeTimesTwice(f, m, i, z, y);
    TangentCancels(f, c.a, f.add(mi, mi), f.mul(f.add(mm, mm), z), cubed);
  }

  /** (m i + m i) + (m m + m m) z == m (y + y) for y == i + m z */
  lemma SlopeTimesTwice<F(!new)>(f: Field<F>, m: F, i: F, z: F, y: F)
    requires f.IsField() && y == f.add(i, f.mul(m, z))
    ensures f.add(f.add(f.mul(m, i), f.mul(m, i)), f.mul(f.add(f.mul(m, m), f.mul(m, m)), z)) == f.mul(m, f.add(y, y))
  {
    hide Field.IsField;
    var mi, mmz := f.mul(m, i), f.mul(m, f.mul(m, z));
    Distrib(f, m, y, y);
    Distrib(f, m, i, f.mul(m, z));
    MulAssoc(f, m, m, z);
    Distrib(f, z, f.mul(m, m), f.mul(m, m));
    AddInterchange(f, mi, mi, mmz, mmz);
  }

  /** (a - u) + (-v + w) == 0 for u + v == w + a */
  lemma TangentCancels<F(!new)>(f: Field<F>, a: F, u: F, v: F, w: F)
    requires f.IsField() && f.add(u, v) == f.add(w, a)
    ensures f.add(f.Sub(a, u), f.add(f.neg(v), w)) == f.zero
  {
    hide Field.IsField;
    AddComm(f, f.neg(v), w);
    AddInterchange(f, a, f.neg(u), w, f.neg(v));
    NegOfFieldSum(f, u, v);
    AddComm(f, a, w);
    AddNeg(f, f.add(w, a));
  }

  /** Two points on a line, with distinct x or with the slope of the tangent: the line meets the
      curve in them and in -(A + B). */
  lemma MeetsThirdPoint<P(!new), F(!new), V(!new)>(c: Curve<P, F, V>, m: F, i: F, A: P, B: P)
    requires c.HasCoordinates() && c.AddsCollinear() && A != c.points.zero && B != c.points.zero
    requires c.OnLine(m, i, A) && c.OnLine(m, i, B)
    requires PolyValue(c.field, Deflated(c.field, c.Intersection(m, i), c.x(A)), c.x(B)) == c.field.zero
    ensures c.Meets(m, i, A, B, c.points.neg(c.points.add(A, B)))
  {
    hide Field.IsField, Group.IsGroup, PolyValue, Curve.Intersection, Deflated, Times, Same, Curve.OnLine, Curve.HasCoordinates;
    CoordinatesAreFields(c);
    var f, p := c.field, c.Intersection(m, i);
    IntersectionCoefficients(c, m, i);
    PointOnLineIsRoot(c, m, i, A);
    var u := ThirdRoot(f, p, c.x(A), c.x(B));
    ThirdFactorIsRoot(f, p, Times(f, Linear(f, c.x(A)), Linear(f, c.x(B))), u);
    var C := RootIsPointOnLine(c, m, i, u);
    assert c.Meets(m, i, A, B, C);
    InverseIsUnique(c.points, c.points.add(A, B), C);
  }

  lemma CoordinatesAreFields<P(!new), F(!new), V(!new)>(c: Curve<P, F, V>)
    requires c.HasCoordinates()
    ensures c.field.IsField() && c.points.IsGroup() && c.field.add(c.field.one, c.field.one) != c.field.zero
  {
  }

  lemma ThirdFactorIsRoot<F(!new)>(f: Field<F>, p: seq<F>, q: seq<F>, u: F)
    requires f.IsField() && Same(f, p, Times(f, q, Linear(f, u)))
    ensures PolyValue(f, p, u) == f.zero
  {
    hide Field.IsField, Times, Same;
    ValueIsCongruent(f, p, Times(f, q, Linear(f, u)), u);
    ValueOfProduct(f, q, Linear(f, u), u);
    LinearVanishes(f, u);
    Fields.MulZero(f, PolyValue(f, q, u));
  }

  lemma LinearVanishes<F(!new)>(f: Field<F>, u: F)
    requires f.IsField()
    ensures PolyValue(f, Linear(f, u), u) == f.zero
  {
    hide Field.IsField;
    LinearValue(f, f.neg(u), f.one, u);
    MulOne(f, u);
    AddNeg(f, u);
  }

  /** i == y - m x puts the point on the line. */
  lemma InterceptIsOnLine<P(!new), F(!new), V(!new)>(c: Curve<P, F, V>, m: F, A: P)
    requires c.field.IsField()
    ensures c.OnLine(m, c.field.Sub(c.y(A), c.field.mul(m, c.x(A))), A)
  {
    hide Field.IsField;
    SubThenAdd(c.field, c.y(A), c.field.mul(m, c.x(A)));
  }

  /** The chord also passes through the other point. */
  lemma ChordIsOnLine<P(!new), F(!new), V(!new)>(c: Curve<P, F, V>, m: F, A: P, B: P)
    requires c.field.IsField()
    requires c.field.mul(m, c.field.Sub(c.x(A), c.x(B))) == c.field.Sub(c.y(A), c.y(B))
    ensures c.OnLine(m, c.field.Sub(c.y(B), c.field.mul(m, c.x(B))), A)
  {
    hide Field.IsField;
    var f := c.field;
    var u, v := f.mul(m, c.x(A)), f.mul(m, c.x(B));
    Distrib(f, m, c.x(A), f.neg(c.x(B)));
    Fields.MulNeg(f, m, c.x(B));
    // yB - v + u == yB + (yA - yB)
    AddAssoc(f, c.y(B), f.neg(v), u);
    AddComm(f, f.neg(v), u);
    SubThenAdd(f, c.y(A), c.y(B));
  }

  /** line() through two finite points that are not opposite: the tangent or the chord meets the
      curve in A, B and -(A + B). */
  lemma SlopedLineMeets<P(!new), F(!new), V(!new)>(c: Curve<P, F, V>, A: P, B: P) returns (m: F, i: F)
    requires c.HasCoordinates() && c.AddsCollinear() && A != c.points.zero && B != c.points.zero && A != c.points.neg(B)
    ensures Line(c, A, B) == Ok(Sloped(c.field, m, i)) && c.Meets(m, i, A, B, c.points.neg(c.points.add(A, B)))
  {
    hide Field.IsField, Group.IsGroup, PolyValue, Curve.Intersection, Deflated, Curve.HasCoordinates, Curve.AddsCollinear, Curve.Meets;
    CoordinatesAreFields(c);
    var f := c.field;
    LineFails(c, A, B);
    if A == B {
      TorsionIsZeroY(c, A);
      var den, square := f.add(c.y(A), c.y(A)), f.mul(c.x(A), c.x(A));
      var num := f.add(f.add(f.add(square, square), square), c.a);
      m := f.mul(num, f.inv(den));
      i := f.Sub(c.y(A), f.mul(m, c.x(A)));
      InterceptIsOnLine(c, m, A);
      QuotientTimes(f, num, den);
      TangentIsDouble(c, m, i, A);
    } else {
      DifferentX(c, A, B);
      var den := f.Sub(c.x(A), c.x(B));
      m := f.mul(f.Sub(c.y(A), c.y(B)), f.inv(den));
      i := f.Sub(c.y(B), f.mul(m, c.x(B)));
      InterceptIsOnLine(c, m, B);
      QuotientTimes(f, f.Sub(c.y(A), c.y(B)), den);
      ChordIsOnLine(c, m, A, B);
      PointOnLineIsRoot(c, m, i, A);
      PointOnLineIsRoot(c, m, i, B);
      OtherRoot(f, c.Intersection(m, i), c.x(A), c.x(B));
    }
    MeetsThirdPoint(c, m, i, A, B);
  }

  lemma QuotientTimes<F(!new)>(f: Field<F>, num: F, den: F)
    requires f.IsField() && den != f.zero
    ensures f.mul(f.mul(num, f.inv(den)), den) == num
  {
    hide Field.IsField;
    MulAssoc(f, num, f.inv(den), den);
    MulInv(f, den);
    MulOne(f, num);
  }

  /** The divisor of the line through A and B is A, B and -(A + B). */
  lemma DivOfLine<P(!new), F(!new), V(!new)>(c: Curve<P, F, V>, A: P, B: P)
    requires c.HasDivisors() && Line(c, A, B).Ok?
    ensures c.div(c.Of(Line(c, A, B).value)) == c.divisors.add(c.divisors.add(c.at(A), c.at(B)), c.at(c.points.neg(c.points.add(A, B))))
  {
    hide Curve.HasDivisors, Curve.HasCoordinates, Curve.AddsCollinear, Curve.Meets, Group.IsGroup, Field.IsField, Curve.Of;
    CurveFacts(c);
    var g, v := c.points, c.divisors;
    LineFails(c, A, B);
    if A == g.zero || B == g.zero || A == g.neg(B) {
      Identity(g, A);
      Identity(g, B);
      Identity(v, c.at(A));
      Identity(v, c.at(B));
      NegOfNeg(g, g.zero);
      NegOfNeg(g, B);
      Inverse(g, B);
      Comm(v, c.at(A), c.at(B));
      Identity(v, v.add(c.at(A), c.at(B)));
      DivOfOne(c);
      if A != g.zero {
        DivOfLinear(c, A);
      }
      if B != g.zero {
        DivOfLinear(c, B);
      }
    } else {
      var m, i := SlopedLineMeets(c, A, B);
      DivOfSloped(c, m, i, A, B, g.neg(g.add(A, B)));
    }
  }

  lemma SameZeros<P(!new), F(!new), V(!new)>(c: Curve<P, F, V>, s: Fn<F>, t: Fn<F>, Ps: seq<P>) returns (k: F)
    requires c.HasDivisors() && c.Nonzero(s) && c.Nonzero(t) && c.div(s) == ZerosAt(c, Ps) == c.div(t)
    ensures k != c.field.zero && t == Scl(c.field, [k], s)
  {
    assert Both(s, t);
    k :| k != c.field.zero && t == Scl(c.field, [k], s);
  }

  lemma ScaledDivisor<P(!new), F(!new), V(!new)>(c: Curve<P, F, V>, s: Fn<F>, k: F)
    requires c.HasDivisors() && c.Nonzero(s) && k != c.field.zero
    ensures c.div(Scl(c.field, [k], s)) == c.div(s)
  {
    assert Both(s, k);
  }

  // ----- divisibility by vertical lines -----

  /** A and -A */
  function Pair<P(!new), F(!new), V(!new)>(c: Curve<P, F, V>, A: P): V {
    c.divisors.add(c.at(A), c.at(c.points.neg(A)))
  }

  lemma DivOfVertical<P(!new), F(!new), V(!new)>(c: Curve<P, F, V>, A: P)
    requires c.HasDivisors() && !TwoTorsion(c.points, A)
    ensures c.Nonzero(c.Of([Vertical(c, A)])) && c.div(c.Of([Vertical(c, A)])) == Pair(c, A)
    ensures c.effective(Pair(c, A))
  {
    hide Curve.HasDivisors, Curve.HasCoordinates, Group.IsGroup, Field.IsField, Line, Vertical, Curve.Of;
    CurveFacts(c);
    LineIsVertical(c, A);
    LineShape(c, A, c.points.neg(A));
    DivOfLine(c, A, c.points.neg(A));
    Inverse(c.points, A);
    NegOfNeg(c.points, A);
    Identity(c.divisors, Pair(c, A));
    PointIsEffective(c, A);
    PointIsEffective(c, c.points.neg(A));
    SumIsEffective(c, c.at(A), c.at(c.points.neg(A)));
  }

  /** a0 + b0 y == 0 == a0 - b0 y only for a0 == b0 == 0, unless y == 0. */
  lemma BothVanish<F(!new)>(f: Field<F>, a0: F, b0: F, y: F)
    requires f.IsField() && f.add(f.one, f.one) != f.zero && y != f.zero
    requires f.add(a0, f.mul(b0, y)) == f.zero && f.add(a0, f.mul(b0, f.neg(y))) == f.zero
    ensures a0 == f.zero && b0 == f.zero
  {
    hide Field.IsField;
    var m := f.mul(b0, y);
    Fields.MulNeg(f, b0, y);
    AddComm(f, a0, m);
    AddComm(f, a0, f.neg(m));
    NegUnique(f, m, a0);
    NegUnique(f, f.neg(m), a0);
    NegUnique(f, f.neg(m), m) by { AddNeg(f, m); }
    Doubling(f, m);
    AddNeg(f, f.zero);
    Doubling(f, f.zero);
    NoZeroDivisors(f, b0, y);
  }

  /** A function both of whose parts vanish at x(A) is a multiple of x - x(A). */
  lemma VanishesAtBoth<P(!new), F(!new), V(!new)>(c: Curve<P, F, V>, s: Fn<F>, A: P) returns (h: Fn<F>)
    requires c.HasCoordinates() && A != c.points.zero && IsFn(c.field, s)
    requires PolyValue(c.field, s.a, c.x(A)) == c.field.zero == PolyValue(c.field, s.b, c.x(A))
    ensures IsFn(c.field, h) && s == c.Product(Fn(Linear(c.field, c.x(A)), []), h) == Scl(c.field, Linear(c.field, c.x(A)), h)
  {
    hide Curve.HasCoordinates, Field.IsField, Canon, PMul, Deflated, FnMul, Curve.W;
    CoordinatesAreFields(c);
    var f, l := c.field, Linear(c.field, c.x(A));
    var p, q := Deflated(f, s.a, c.x(A)), Deflated(f, s.b, c.x(A));
    RootIsFactor(f, s.a, c.x(A));
    RootIsFactor(f, s.b, c.x(A));
    h := Fn(Canon(f, p), Canon(f, q));
    CanonTwice(f, p);
    CanonTwice(f, q);
    SameItself(f, l);
    PMulOf(f, l, Canon(f, p), l, p);
    PMulOf(f, l, Canon(f, q), l, q);
    MulOfPolynomial(f, c.W(), l, h);
  }

  /** Both parts vanish where the values at A and -A do. */
  lemma PartsVanish<P(!new), F(!new), V(!new)>(c: Curve<P, F, V>, s: Fn<F>, A: P)
    requires c.HasCoordinates() && A != c.points.zero && c.y(A) != c.field.zero
    requires c.Value(s, A) == c.field.zero == c.Value(s, c.points.neg(A))
    ensures PolyValue(c.field, s.a, c.x(A)) == c.field.zero == PolyValue(c.field, s.b, c.x(A))
  {
    hide Field.IsField, Curve.HasCoordinates;
    CoordinatesAreFields(c);
    Coordinates(c, A);
    BothVanish(c.field, PolyValue(c.field, s.a, c.x(A)), PolyValue(c.field, s.b, c.x(A)), c.y(A));
  }

  /** A function whose divisor contains A and -A is a multiple of x - x(A). */
  lemma VerticalDivides<P(!new), F(!new), V(!new)>(c: Curve<P, F, V>, s: Fn<F>, A: P) returns (h: Fn<F>)
    requires c.HasDivisors() && c.Nonzero(s) && !TwoTorsion(c.points, A)
    requires c.effective(c.divisors.add(c.div(s), c.divisors.neg(Pair(c, A))))
    ensures c.Nonzero(h) && s == Scl(c.field, Vertical(c, A), h)
    ensures c.div(h) == c.divisors.add(c.div(s), c.divisors.neg(Pair(c, A)))
  {
    hide Curve.HasDivisors, Curve.HasCoordinates, Group.IsGroup, Field.IsField, Curve.Value, Canon, PMul, Pair, Deflated, Red;
    CurveFacts(c);
    var f := c.field;
    if A == c.points.zero {
      h := s;
      PMulOne(f, s.a);
      PMulOne(f, s.b);
      NegOfNeg(c.points, A);
      NothingAtInfinity(c, c.div(s));
    } else {
      RootsOfBoth(c, s, A);
      h := VanishesAtBoth(c, s, A);
      CofactorDivisor(c, s, A, h);
    }
  }

  lemma NothingAtInfinity<P(!new), F(!new), V(!new)>(c: Curve<P, F, V>, v: V)
    requires c.HasDivisors()
    ensures c.divisors.add(v, c.divisors.neg(Pair(c, c.points.zero))) == v
  {
    hide Curve.HasDivisors, Group.IsGroup;
    CurveFacts(c);
    NegOfNeg(c.points, c.points.zero);
    Identity(c.divisors, c.divisors.zero);
    NegOfNeg(c.divisors, c.divisors.zero);
    Identity(c.divisors, v);
  }

  lemma RootsOfBoth<P(!new), F(!new), V(!new)>(c: Curve<P, F, V>, s: Fn<F>, A: P)
    requires c.HasDivisors() && c.Nonzero(s) && A != c.points.zero && !TwoTorsion(c.points, A)
    requires c.effective(c.divisors.add(c.div(s), c.divisors.neg(Pair(c, A))))
    ensures PolyValue(c.field, s.a, c.x(A)) == c.field.zero && PolyValue(c.field, s.b, c.x(A)) == c.field.zero
  {
    hide Curve.HasDivisors, Group.IsGroup, Field.IsField;
    CurveFacts(c);
    var n, u, v := c.points.neg(A), c.at(A), c.at(c.points.neg(A));
    Coordinates(c, A);
    PointIsEffective(c, A);
    PointIsEffective(c, n);
    SumIsEffective(c, c.divisors.add(c.div(s), c.divisors.neg(c.divisors.add(u, v))), v);
    SumIsEffective(c, c.divisors.add(c.div(s), c.divisors.neg(c.divisors.add(u, v))), u);
    PutBack(c.divisors, c.div(s), u, v);
    PutBack(c.divisors, c.div(s), v, u);
    Comm(c.divisors, u, v);
    VanishesAtZero(c, s, A);
    VanishesAtZero(c, s, n);
    TorsionIsZeroY(c, A);
    PartsVanish(c, s, A);
  }

  /** (d - (u + v)) + v == d - u */
  lemma PutBack<V(!new)>(g: Group<V>, d: V, u: V, v: V)
    requires g.IsGroup()
    ensures g.add(g.add(d, g.neg(g.add(u, v))), v) == g.add(d, g.neg(u))
  {
    hide Group.IsGroup;
    NegOfSum(g, u, v);
    Assoc(g, d, g.add(g.neg(u), g.neg(v)), v);
    Assoc(g, g.neg(u), g.neg(v), v);
    Inverse(g, v);
    Identity(g, g.neg(u));
  }

  lemma CofactorDivisor<P(!new), F(!new), V(!new)>(c: Curve<P, F, V>, s: Fn<F>, A: P, h: Fn<F>)
    requires c.HasDivisors() && c.Nonzero(s) && !TwoTorsion(c.points, A) && IsFn(c.field, h)
    requires s == Scl(c.field, Vertical(c, A), h)
    ensures c.Nonzero(h) && c.div(h) == c.divisors.add(c.div(s), c.divisors.neg(Pair(c, A)))
  {
    hide Curve.HasDivisors, Curve.HasCoordinates, Group.IsGroup, Field.IsField, Canon, Pair, Red, Vertical, Scl, FnMul;
    CurveFacts(c);
    var f, p := c.field, Vertical(c, A);
    SclOfZero(f, p, h);
    DivOfVertical(c, A);
    RedOfFew(f, c.W(), p, []);
    MulOfPolynomial(f, c.W(), Canon(f, p), h);
    SclOfSame(f, Canon(f, p), p, h);
    DivOfProduct(c, c.Of([p]), h);
    TakeAway(c.divisors, Pair(c, A), c.div(h));
  }

  /** (u + d) - u == d */
  lemma TakeAway<V(!new)>(g: Group<V>, u: V, d: V)
    requires g.IsGroup()
    ensures g.add(g.add(u, d), g.neg(u)) == d
  {
    hide Group.IsGroup;
    Comm(g, u, d);
    Assoc(g, d, u, g.neg(u));
    Inverse(g, u);
    Identity(g, d);
  }

  /** A function whose divisor contains A, -A, B and -B is a multiple of the product of both verticals. */
  lemma TwoVerticalsDivide<P(!new), F(!new), V(!new)>(c: Curve<P, F, V>, s: Fn<F>, A: P, B: P) returns (h: Fn<F>)
    requires c.HasDivisors() && c.Nonzero(s) && !TwoTorsion(c.points, A) && !TwoTorsion(c.points, B)
    requires c.effective(c.divisors.add(c.div(s), c.divisors.neg(c.divisors.add(Pair(c, A), Pair(c, B)))))
    ensures c.Nonzero(h) && s == Scl(c.field, PMul(c.field, Vertical(c, A), Vertical(c, B)), h)
    ensures c.div(h) == c.divisors.add(c.div(s), c.divisors.neg(c.divisors.add(Pair(c, A), Pair(c, B))))
  {
    hide Curve.HasDivisors, Curve.HasCoordinates, Group.IsGroup, Field.IsField, Pair, Vertical, Scl, PMul;
    CurveFacts(c);
    DivOfVertical(c, B);
    var g, u, v := c.divisors, Pair(c, A), Pair(c, B);
    SumIsEffective(c, g.add(c.div(s), g.neg(g.add(u, v))), v);
    PutBack(g, c.div(s), u, v);
    var h1 := VerticalDivides(c, s, A);
    NegOfSum(g, u, v);
    Assoc(g, c.div(s), g.neg(u), g.neg(v));
    h := VerticalDivides(c, h1, B);
    SclOfScl(c.field, Vertical(c, A), Vertical(c, B), h);
  }
}
