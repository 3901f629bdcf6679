/** construct_function: the pairwise construction of the function with given zeros. */
module Interpolation {
  import opened CurveDivisors
  import opened Fields
  import opened FunctionField
  import opened Groups
  import PolynomialAlgorithms
  import opened PolynomialRing
  import opened Polynomials
  import opened Results

  /** A function as class FF keeps it: the coefficients of the powers of y. */
  type FF<F> = seq<seq<F>>

  // ----- functions with a given divisor -----

  ghost predicate Interpolates<P(!new), F(!new), V(!new)>(c: Curve<P, F, V>, s: Fn<F>, Ps: seq<P>) {
    c.Nonzero(s) && c.div(s) == ZerosAt(c, Ps)
  }

  /** The constant coefficient of the functions with divisor Ps is not zero. */
  ghost predicate ConstantIsNonzero<P(!new), F(!new), V(!new)>(c: Curve<P, F, V>, Ps: seq<P>) {
    forall s :: Interpolates(c, s, Ps) ==> Constant(c.field, s) != c.field.zero
  }

  /** They all have it, or none has. */
  lemma ConstantsAgree<P(!new), F(!new), V(!new)>(c: Curve<P, F, V>, Ps: seq<P>, s: Fn<F>)
    requires c.HasDivisors() && Interpolates(c, s, Ps)
    ensures ConstantIsNonzero(c, Ps) <==> Constant(c.field, s) != c.field.zero
  {
    hide Curve.HasDivisors, Curve.HasCoordinates, Group.IsGroup, Field.IsField, ZerosAt, Constant, Scl, Curve.Nonzero;
    CurveFacts(c);
    forall t | Interpolates(c, t, Ps) && Constant(c.field, s) != c.field.zero
      ensures Constant(c.field, t) != c.field.zero
    {
      var k := SameZeros(c, s, t, Ps);
      ConstantOfScaled(c.field, s, k);
      NoZeroDivisors(c.field, Constant(c.field, s), k);
    }
  }

  /** Of the functions with divisor Ps exactly one has constant coefficient 1. */
  lemma NormalizedIsUnique<P(!new), F(!new), V(!new)>(c: Curve<P, F, V>, Ps: seq<P>, s: Fn<F>, t: Fn<F>)
    requires c.HasDivisors() && Interpolates(c, s, Ps) && Interpolates(c, t, Ps)
    requires Constant(c.field, s) == c.field.one == Constant(c.field, t)
    ensures s == t
  {
    hide Curve.HasDivisors, Curve.HasCoordinates, Group.IsGroup, Field.IsField, ZerosAt, Constant, Scl;
    CurveFacts(c);
    var k := SameZeros(c, s, t, Ps);
    ConstantOfScaled(c.field, s, k);
    MulOne(c.field, k);
    OneTimesFn(c.field, s);
  }

  // ----- construct_function -----

  /** A partial result: a point and a function. */
  type Part<P, F> = (P, FF<F>)

  function PointsOf<P, F>(xs: seq<Part<P, F>>): (ps: seq<P>)
    ensures |ps| == |xs|
  {
    seq(|xs|, i requires 0 <= i < |xs| => xs[i].0)
  }

  /** What a partial result still owes: the divisor of its function without the point that
      closes it. */
  ghost function Debt<P(!new), F(!new), V(!new)>(c: Curve<P, F, V>, x: Part<P, F>): V {
    c.divisors.add(c.div(c.Of(x.1)), c.divisors.neg(c.at(c.points.neg(x.0))))
  }

  /** One or two coefficients, and a debt without poles: it is this that makes every later
      division exact. */
  ghost predicate IsPart<P(!new), F(!new), V(!new)>(c: Curve<P, F, V>, x: Part<P, F>) {
    1 <= |x.1| <= 2 && c.Nonzero(c.Of(x.1)) && c.effective(Debt(c, x))
  }

  ghost predicate AreParts<P(!new), F(!new), V(!new)>(c: Curve<P, F, V>, xs: seq<Part<P, F>>) {
    forall i :: 0 <= i < |xs| ==> IsPart(c, xs[i])
  }

  ghost function Debts<P(!new), F(!new), V(!new)>(c: Curve<P, F, V>, xs: seq<Part<P, F>>): V {
    Total(c.divisors, seq(|xs|, i requires 0 <= i < |xs| => Debt(c, xs[i])))
  }

  lemma DebtsNext<P(!new), F(!new), V(!new)>(c: Curve<P, F, V>, xs: seq<Part<P, F>>, x: Part<P, F>)
    ensures Debts(c, xs + [x]) == c.divisors.add(Debts(c, xs), Debt(c, x))
  {
    hide Debt;
    var s := seq(|xs|, i requires 0 <= i < |xs| => Debt(c, xs[i]));
    TotalNext(c.divisors, s, Debt(c, x));
    assert seq(|xs + [x]|, i requires 0 <= i < |xs + [x]| => Debt(c, (xs + [x])[i])) == s + [Debt(c, x)];
  }

  lemma DebtsOfConcat<P(!new), F(!new), V(!new)>(c: Curve<P, F, V>, xs: seq<Part<P, F>>, ys: seq<Part<P, F>>)
    requires c.divisors.IsGroup()
    ensures Debts(c, xs + ys) == c.divisors.add(Debts(c, xs), Debts(c, ys))
  {
    hide Debt, Group.IsGroup;
    var s, t := seq(|xs|, i requires 0 <= i < |xs| => Debt(c, xs[i])), seq(|ys|, i requires 0 <= i < |ys| => Debt(c, ys[i]));
    TotalOfConcat(c.divisors, s, t);
    assert seq(|xs + ys|, i requires 0 <= i < |xs + ys| => Debt(c, (xs + ys)[i])) == s + t;
  }

  lemma DebtsOfOne<P(!new), F(!new), V(!new)>(c: Curve<P, F, V>, x: Part<P, F>)
    requires c.divisors.IsGroup()
    ensures Debts(c, [x]) == Debt(c, x)
  {
    hide Debt, Group.IsGroup;
    TotalOfOne(c.divisors, Debt(c, x));
    assert seq(|[x]|, i requires 0 <= i < |[x]| => Debt(c, [x][i])) == [Debt(c, x)];
  }

  /** The first partial result of a point owes exactly that point. */
  lemma StartPart<P(!new), F(!new), V(!new)>(c: Curve<P, F, V>, A: P)
    requires c.HasDivisors() && !TwoTorsion(c.points, A)
    ensures Line(c, A, c.points.neg(A)) == Ok([Vertical(c, A)])
    ensures IsPart(c, (A, [Vertical(c, A)])) && Debt(c, (A, [Vertical(c, A)])) == c.at(A)
  {
    hide Curve.HasDivisors, Curve.HasCoordinates, Group.IsGroup, Curve.Of, Vertical, Line;
    CurveFacts(c);
    LineIsVertical(c, A);
    DivOfVertical(c, A);
    PointIsEffective(c, A);
    var n := c.at(c.points.neg(A));
    Assoc(c.divisors, c.at(A), n, c.divisors.neg(n));
    Inverse(c.divisors, n);
    Identity(c.divisors, c.at(A));
  }

  /** (a + b + (A + B + C)) - ((A + A') + (B + B')) - C == (a - A') + (b - B') */
  lemma Cancellation<V(!new)>(v: Group<V>, a: V, b: V, A: V, B: V, A': V, B': V, C: V)
    requires v.IsGroup()
    ensures
      v.add(v.add(v.add(v.add(a, b), v.add(v.add(A, B), C)), v.neg(v.add(v.add(A, A'), v.add(B, B')))), v.neg(C))
        == v.add(v.add(a, v.neg(A')), v.add(b, v.neg(B')))
  {
    hide Group.IsGroup;
    var ab, AB, n := v.add(a, b), v.add(A, B), v.add(A', B');
    Interchange(v, A, A', B, B');
    NegOfSum(v, AB, n);
    // (ab + (AB + C)) - (AB + n) == (ab - n) + C
    Interchange(v, ab, v.add(AB, C), v.neg(n), v.neg(AB));
    Comm(v, v.neg(AB), v.neg(n));
    Comm(v, AB, C);
    Assoc(v, C, AB, v.neg(AB));
    Inverse(v, AB);
    Identity(v, C);
    // ((ab - n) + C) - C == ab - n
    Assoc(v, v.add(ab, v.neg(n)), C, v.neg(C));
    Inverse(v, C);
    Identity(v, v.add(ab, v.neg(n)));
    NegOfSum(v, A', B');
    Interchange(v, a, b, v.neg(A'), v.neg(B'));
  }

  /** Before the division: the divisor of the numerator without the two verticals is the two debts
      and the closing point, so it has no poles. */
  lemma NumeratorDivisor<P(!new), F(!new), V(!new)>(c: Curve<P, F, V>, x: Part<P, F>, y: Part<P, F>, num: Fn<F>)
    requires c.HasDivisors() && IsPart(c, x) && IsPart(c, y) && Line(c, x.0, y.0).Ok?
    requires num == c.Product(c.Product(c.Of(x.1), c.Of(y.1)), c.Of(Line(c, x.0, y.0).value))
    ensures c.Nonzero(num)
    ensures var rest := c.divisors.add(c.div(num), c.divisors.neg(c.divisors.add(Pair(c, x.0), Pair(c, y.0))));
      && c.effective(rest)
      && c.divisors.add(rest, c.divisors.neg(c.at(c.points.neg(c.points.add(x.0, y.0))))) == c.divisors.add(Debt(c, x), Debt(c, y))
  {
    hide Curve.HasDivisors, Curve.HasCoordinates, Group.IsGroup, Curve.Of, Curve.Product, Curve.Nonzero, Line;
    CurveFacts(c);
    var v, l := c.divisors, Line(c, x.0, y.0).value;
    var s, t, close := c.Of(x.1), c.Of(y.1), c.at(c.points.neg(c.points.add(x.0, y.0)));
    LineShape(c, x.0, y.0);
    DivOfLine(c, x.0, y.0);
    DivOfProduct(c, s, t);
    DivOfProduct(c, c.Product(s, t), c.Of(l));
    Cancellation(v, c.div(s), c.div(t), c.at(x.0), c.at(y.0), c.at(c.points.neg(x.0)), c.at(c.points.neg(y.0)), close);
    var rest := v.add(c.div(num), v.neg(v.add(Pair(c, x.0), Pair(c, y.0))));
    SumIsEffective(c, Debt(c, x), Debt(c, y));
    PointIsEffective(c, c.points.neg(c.points.add(x.0, y.0)));
    SumIsEffective(c, v.add(Debt(c, x), Debt(c, y)), close);
    AddBack(v, rest, close);
  }

  /** (u - w) + w == u */
  lemma AddBack<V(!new)>(g: Group<V>, u: V, w: V)
    requires g.IsGroup()
    ensures g.add(g.add(u, g.neg(w)), w) == u
  {
    hide Group.IsGroup;
    Assoc(g, u, g.neg(w), w);
    Inverse(g, w);
    Identity(g, u);
  }

  /** The product of both functions and the line, reduced: at most four coefficients, so that reduce
      is right. */
  method Numerator<P(!new), F(==, !new), V(!new)>(c: Curve<P, F, V>, a: FF<F>, b: FF<F>, line: FF<F>) returns (num: FF<F>)
    requires c.field.IsField() && 1 <= |a| <= 2 && 1 <= |b| <= 2 && 1 <= |line| <= 2
    ensures |num| == 2 && c.Of(num) == c.Product(c.Product(c.Of(a), c.Of(b)), c.Of(line))
  {
    hide Field.IsField, Red, FnMul, CodeReduced, Curve.W;
    var product := Multiply(c.field, a, b, c.W());
    product := Multiply(c.field, product, line, c.W());
    ReduceIsRight(c.field, c.W(), product);
    num := Reduce(c.field, c.W(), product);
  }

  /** The product of the verticals through two points, as a polynomial. */
  method Denominator<P(==, !new), F(==, !new), V(!new)>(c: Curve<P, F, V>, A: P, B: P) returns (res: Result<seq<F>>)
    requires c.HasDivisors()
    ensures (res.Err? <==> TwoTorsion(c.points, A) || TwoTorsion(c.points, B)) && (res.Err? ==> res.failure == ValueError)
    ensures res.Ok? ==> Same(c.field, res.value, PMul(c.field, Vertical(c, A), Vertical(c, B))) && Degree(c.field, res.value) >= 0
  {
    hide Curve.HasDivisors, Curve.HasCoordinates, Curve.HasGroups, Field.IsField, Red, FnMul, Line, Vertical, Degree, PMul, Same, Curve.W;
    CurveFacts(c);
    var la, lb := Line(c, A, c.points.neg(A)), Line(c, B, c.points.neg(B));
    LineIsVertical(c, A);
    LineIsVertical(c, B);
    if la.Err? || lb.Err? {
      return Err(ValueError);
    }
    var den := Multiply(c.field, la.value, lb.value, c.W());
    assert |den| == 1; // to_poly
    DenominatorIs(c, A, B, den);
    return Ok(den[0]);
  }

  /** The numerator is a multiple of the denominator, so that floor division is exact. */
  lemma DivisionIsExact<P(!new), F(!new), V(!new)>(c: Curve<P, F, V>, x: Part<P, F>, y: Part<P, F>, num: FF<F>, den: seq<F>, D: FF<F>)
    requires c.HasDivisors() && IsPart(c, x) && IsPart(c, y) && Line(c, x.0, y.0).Ok?
    requires !TwoTorsion(c.points, x.0) && !TwoTorsion(c.points, y.0)
    requires |num| == 2 && c.Of(num) == c.Product(c.Product(c.Of(x.1), c.Of(y.1)), c.Of(Line(c, x.0, y.0).value))
    requires Same(c.field, den, PMul(c.field, Vertical(c, x.0), Vertical(c, y.0))) && Degree(c.field, den) >= 0
    requires |D| == 2 && IsQuotient(c.field, num[0], den, D[0]) && IsQuotient(c.field, num[1], den, D[1])
    ensures IsPart(c, (c.points.add(x.0, y.0), D))
    ensures Debt(c, (c.points.add(x.0, y.0), D)) == c.divisors.add(Debt(c, x), Debt(c, y))
  {
    hide Curve.HasDivisors, Curve.HasCoordinates, Curve.HasGroups, Group.IsGroup, Field.IsField, Red, FnMul, Line, Vertical, Degree,
      Scl, PMul, IsQuotient, IsFn, Same, Curve.W, Pair, Curve.Product;
    CurveFacts(c);
    NumeratorDivisor(c, x, y, c.Of(num));
    var h := TwoVerticalsDivide(c, c.Of(num), x.0, y.0);
    SclOfSame(c.field, den, PMul(c.field, Vertical(c, x.0), Vertical(c, y.0)), h);
    QuotientIsExact(c.field, c.W(), num, den, D, h);
    SumIsEffective(c, Debt(c, x), Debt(c, y));
  }

  /** Merging two partial results: the points add, and so do the debts. Raises exactly where one of
      the points is its own negative: the denominator always is a polynomial in x, and always
      divides the numerator. */
  method Merge<P(==, !new), F(==, !new), V(!new)>(c: Curve<P, F, V>, x: Part<P, F>, y: Part<P, F>) returns (res: Result<Part<P, F>>)
    requires c.HasDivisors() && IsPart(c, x) && IsPart(c, y)
    ensures res.Err? <==> TwoTorsion(c.points, x.0) || TwoTorsion(c.points, y.0)
    ensures res.Err? ==> res.failure == ValueError
    ensures res.Ok? ==> res.value.0 == c.points.add(x.0, y.0) && IsPart(c, res.value)
    ensures res.Ok? ==> Debt(c, res.value) == c.divisors.add(Debt(c, x), Debt(c, y))
  {
    hide Curve.HasDivisors, Curve.HasCoordinates, Curve.HasGroups, Group.IsGroup, Field.IsField, Line, Vertical, Degree, PMul, IsQuotient,
      Same, Debt, Curve.Of, Curve.Nonzero, Curve.Product, TwoTorsion;
    CurveFacts(c);
    var line := Line(c, x.0, y.0);
    LineFails(c, x.0, y.0);
    if line.Err? {
      return Err(line.failure);
    }
    LineShape(c, x.0, y.0);
    var num := Numerator(c, x.1, y.1, line.value);
    var den := Denominator(c, x.0, y.0);
    if den.Err? {
      return Err(den.failure);
    }
    var D := DivByPoly(c.field, num, den.value);
    DivisionIsExact(c, x, y, num, den.value, D.value);
    return Ok((c.points.add(x.0, y.0), D.value));
  }

  lemma DenominatorIs<P(!new), F(!new), V(!new)>(c: Curve<P, F, V>, A: P, B: P, den: FF<F>)
    requires c.HasDivisors() && |den| == 1 && !TwoTorsion(c.points, A) && !TwoTorsion(c.points, B)
    requires c.Of(den) == c.Product(c.Of([Vertical(c, A)]), c.Of([Vertical(c, B)]))
    ensures Same(c.field, den[0], PMul(c.field, Vertical(c, A), Vertical(c, B))) && Degree(c.field, den[0]) >= 0
  {
    hide Curve.HasDivisors, Curve.HasCoordinates, Group.IsGroup, Field.IsField, Red, FnMul, Vertical, Degree, PMul, Canon, Same, PAdd;
    CurveFacts(c);
    var f, p, q := c.field, Vertical(c, A), Vertical(c, B);
    assert den == [den[0]];
    RedOfFew(f, c.W(), den[0], []);
    RedOfFew(f, c.W(), p, []);
    RedOfFew(f, c.W(), q, []);
    MulOfPolynomial(f, c.W(), Canon(f, p), Fn(Canon(f, q), []));
    PMulOf(f, Canon(f, p), Canon(f, q), p, q);
    VerticalIsNonzero(c, A);
    VerticalIsNonzero(c, B);
    NoZeroPolynomials(f, p, q);
    ZeroDegree(f, den[0]);
    CanonIsSame(f, den[0]);
  }

  lemma VerticalIsNonzero<P(!new), F(!new), V(!new)>(c: Curve<P, F, V>, A: P)
    requires c.field.IsField()
    ensures Canon(c.field, Vertical(c, A)) != []
  {
    hide Field.IsField, Canon, Degree;
    OneIsNonzero(c.field);
    LinearIsNonzero(c.field, c.x(A));
  }

  // ----- rounds -----

  /** The points after one round: neighbours add, an odd first point goes to the end. */
  function NextRound<P(!new)>(g: Group<P>, Ps: seq<P>): (next: seq<P>)
    ensures |next| == (|Ps| + 1) / 2
  {
    var odd := |Ps| % 2;
    seq(|Ps| / 2, n requires 0 <= n < |Ps| / 2 => g.add(Ps[odd + 2 * n], Ps[odd + 2 * n + 1])) + Ps[..odd]
  }

  /** No point merged in this round is its own negative. */
  predicate RoundIsClear<P(==, !new)>(g: Group<P>, Ps: seq<P>) {
    forall i :: |Ps| % 2 <= i < |Ps| ==> !TwoTorsion(g, Ps[i])
  }

  predicate IsClear<P(==, !new)>(g: Group<P>, Ps: seq<P>)
    decreases |Ps|
  {
    |Ps| > 1 ==> RoundIsClear(g, Ps) && IsClear(g, NextRound(g, Ps))
  }

  /** Neither a given point nor a partial sum that is merged is its own negative. */
  predicate AvoidsTorsion<P(==, !new)>(g: Group<P>, Ps: seq<P>) {
    (forall i :: 0 <= i < |Ps| ==> !TwoTorsion(g, Ps[i])) && IsClear(g, Ps)
  }

  /** In a group without elements of order two, as on a curve of odd order, this is no condition. */
  lemma {:induction false} NoTorsionToAvoid<P(!new)>(g: Group<P>, Ps: seq<P>)
    requires forall A :: !TwoTorsion(g, A)
    ensures AvoidsTorsion(g, Ps)
    decreases |Ps|
  {
    if |Ps| > 1 {
      NoTorsionToAvoid(g, NextRound(g, Ps));
    }
  }

  /** Neighbours merge. */
  method MergePairs<P(==, !new), F(==, !new), V(!new)>(c: Curve<P, F, V>, xs: seq<Part<P, F>>) returns (res: Result<seq<Part<P, F>>>)
    requires c.HasDivisors() && |xs| % 2 == 0 && AreParts(c, xs)
    ensures res.Ok? <==> forall i :: 0 <= i < |xs| ==> !TwoTorsion(c.points, xs[i].0)
    ensures res.Err? ==> res.failure == ValueError
    ensures res.Ok? ==> AreParts(c, res.value) && Debts(c, res.value) == Debts(c, xs) && |res.value| == |xs| / 2
    ensures res.Ok? ==> forall k :: 0 <= k < |xs| / 2 ==> res.value[k].0 == c.points.add(xs[2 * k].0, xs[2 * k + 1].0)
  {
    hide Curve.HasDivisors, Curve.HasCoordinates, Group.IsGroup, Debts, IsPart, Debt, TwoTorsion;
    CurveFacts(c);
    var xs2: seq<Part<P, F>> := [];
    assert xs[..0] == [];
    for n := 0 to |xs| / 2
      invariant |xs2| == n && AreParts(c, xs2) && Debts(c, xs2) == Debts(c, xs[..2 * n])
      invariant forall k :: 0 <= k < n ==> xs2[k].0 == c.points.add(xs[2 * k].0, xs[2 * k + 1].0)
      invariant forall i :: 0 <= i < 2 * n ==> !TwoTorsion(c.points, xs[i].0)
    {
      assert IsPart(c, xs[2 * n]) && IsPart(c, xs[2 * n + 1]);
      var merged := Merge(c, xs[2 * n], xs[2 * n + 1]);
      if merged.Err? {
        return Err(ValueError);
      }
      DebtsOfPair(c, xs2, xs, 2 * n, merged.value);
      xs2 := xs2 + [merged.value];
    }
    assert xs[..|xs|] == xs;
    return Ok(xs2);
  }

  /** One round over the partial results. */
  method MergeRound<P(==, !new), F(==, !new), V(!new)>(c: Curve<P, F, V>, parts: seq<Part<P, F>>) returns (res: Result<seq<Part<P, F>>>)
    requires c.HasDivisors() && |parts| > 1 && AreParts(c, parts)
    ensures (res.Ok? <==> RoundIsClear(c.points, PointsOf(parts))) && (res.Err? ==> res.failure == ValueError)
    ensures res.Ok? ==> AreParts(c, res.value) && PointsOf(res.value) == NextRound(c.points, PointsOf(parts))
    ensures res.Ok? ==> Debts(c, res.value) == Debts(c, parts)
    ensures res.Ok? ==>
      var half, odd := |parts| / 2, |parts| % 2;
      && |res.value| == half + odd && (odd == 1 ==> res.value[half] == parts[0])
      && forall k :: 0 <= k < half ==> res.value[k].0 == c.points.add(parts[2 * k + odd].0, parts[2 * k + odd + 1].0)
  {
    hide Curve.HasDivisors, Curve.HasCoordinates, Group.IsGroup, Debts, AreParts, Debt, TwoTorsion, NextRound, PointsOf, RoundIsClear;
    CurveFacts(c);
    var xs, x0 := parts, None;
    if |parts| % 2 == 1 {
      x0 := Some(parts[0]);
      xs := parts[1..];
    }
    PartsOfRound(c, parts, xs);
    var merged := MergePairs(c, xs);
    if merged.Err? {
      return merged;
    }
    var xs2 := merged.value;
    if x0.Some? {
      FirstToLast(c, x0.value, xs, xs2);
      xs2 := xs2 + [x0.value];
    }
    PointsOfRound(c.points, parts, merged.value, xs2);
    PartsAfterRound(c, parts, merged.value, xs2);
    return Ok(xs2);
  }

  lemma PartsOfRound<P(!new), F(!new), V(!new)>(c: Curve<P, F, V>, parts: seq<Part<P, F>>, xs: seq<Part<P, F>>)
    requires AreParts(c, parts) && xs == parts[|parts| % 2..]
    ensures AreParts(c, xs) && |xs| % 2 == 0 && (|parts| % 2 == 1 ==> parts == [parts[0]] + xs)
    ensures RoundIsClear(c.points, PointsOf(parts)) <==> forall i :: 0 <= i < |xs| ==> !TwoTorsion(c.points, xs[i].0)
  {
    hide IsPart, TwoTorsion;
    var odd := |parts| % 2;
    assert forall i :: 0 <= i < |xs| ==> xs[i] == parts[odd + i];
    if forall i :: 0 <= i < |xs| ==> !TwoTorsion(c.points, xs[i].0) {
      forall i | odd <= i < |parts|
        ensures !TwoTorsion(c.points, PointsOf(parts)[i])
      {
        assert parts[i] == xs[i - odd];
      }
    }
    if RoundIsClear(c.points, PointsOf(parts)) {
      forall i | 0 <= i < |xs|
        ensures !TwoTorsion(c.points, xs[i].0)
      {
        assert PointsOf(parts)[odd + i] == xs[i].0;
      }
    }
  }

  lemma PartsAfterRound<P(!new), F(!new), V(!new)>(c: Curve<P, F, V>, parts: seq<Part<P, F>>, merged: seq<Part<P, F>>, xs2: seq<Part<P, F>>)
    requires AreParts(c, parts) && AreParts(c, merged) && xs2 == merged + parts[..|parts| % 2]
    ensures AreParts(c, xs2)
  {
    hide IsPart;
  }

  lemma PointsOfRound<P(!new), F(!new)>(g: Group<P>, parts: seq<Part<P, F>>, merged: seq<Part<P, F>>, xs2: seq<Part<P, F>>)
    requires |merged| == |parts| / 2 && xs2 == merged + parts[..|parts| % 2]
    requires var odd := |parts| % 2;
      forall k :: 0 <= k < |merged| ==> merged[k].0 == g.add(parts[odd..][2 * k].0, parts[odd..][2 * k + 1].0)
    ensures PointsOf(xs2) == NextRound(g, PointsOf(parts))
  {
    var odd, next := |parts| % 2, NextRound(g, PointsOf(parts));
    forall k | 0 <= k < |xs2|
      ensures PointsOf(xs2)[k] == next[k]
    {
      if k < |merged| {
        assert parts[odd..][2 * k] == parts[odd + 2 * k] && parts[odd..][2 * k + 1] == parts[odd + 2 * k + 1];
      }
    }
  }

  lemma DebtsOfPair<P(!new), F(!new), V(!new)>(c: Curve<P, F, V>, done: seq<Part<P, F>>, xs: seq<Part<P, F>>, i: nat, merged: Part<P, F>)
    requires c.divisors.IsGroup() && i + 1 < |xs| && Debts(c, done) == Debts(c, xs[..i])
    requires Debt(c, merged) == c.divisors.add(Debt(c, xs[i]), Debt(c, xs[i + 1]))
    ensures Debts(c, done + [merged]) == Debts(c, xs[..i + 2])
  {
    hide Group.IsGroup, Debts, Debt;
    DebtsNext(c, done, merged);
    DebtsNext(c, xs[..i], xs[i]);
    DebtsNext(c, xs[..i] + [xs[i]], xs[i + 1]);
    assert xs[..i + 2] == xs[..i] + [xs[i]] + [xs[i + 1]];
    Assoc(c.divisors, Debts(c, done), Debt(c, xs[i]), Debt(c, xs[i + 1]));
  }

  lemma FirstToLast<P(!new), F(!new), V(!new)>(c: Curve<P, F, V>, x: Part<P, F>, xs: seq<Part<P, F>>, ys: seq<Part<P, F>>)
    requires c.divisors.IsGroup() && Debts(c, ys) == Debts(c, xs)
    ensures Debts(c, ys + [x]) == Debts(c, [x] + xs)
  {
    hide Group.IsGroup, Debts, Debt;
    DebtsNext(c, ys, x);
    DebtsOfConcat(c, [x], xs);
    DebtsOfOne(c, x);
    Comm(c.divisors, Debt(c, x), Debts(c, xs));
  }

  /** A round keeps the sum of the points. */
  lemma RoundKeepsTotal<P(!new)>(g: Group<P>, Ps: seq<P>)
    requires g.IsGroup()
    ensures Total(g, NextRound(g, Ps)) == Total(g, Ps)
  {
    hide Group.IsGroup;
    var odd := |Ps| % 2;
    var next := NextRound(g, Ps);
    PairsKeepTotal(g, Ps[odd..], next[..|Ps| / 2]);
    assert next == next[..|Ps| / 2] + Ps[..odd] && Ps == Ps[..odd] + Ps[odd..];
    TotalOfConcat(g, next[..|Ps| / 2], Ps[..odd]);
    TotalOfConcat(g, Ps[..odd], Ps[odd..]);
    Comm(g, Total(g, Ps[..odd]), Total(g, Ps[odd..]));
  }

  lemma {:induction false} PairsKeepTotal<P(!new)>(g: Group<P>, xs: seq<P>, sums: seq<P>)
    requires g.IsGroup() && |xs| == 2 * |sums| && forall n :: 0 <= n < |sums| ==> sums[n] == g.add(xs[2 * n], xs[2 * n + 1])
    ensures Total(g, sums) == Total(g, xs)
    decreases |sums|
  {
    hide Group.IsGroup;
    if sums != [] {
      var k := |sums| - 1;
      PairsKeepTotal(g, xs[..2 * k], sums[..k]);
      assert xs == xs[..2 * k] + [xs[2 * k]] + [xs[2 * k + 1]] && sums == sums[..k] + [sums[k]];
      TotalNext(g, xs[..2 * k], xs[2 * k]);
      TotalNext(g, xs[..2 * k] + [xs[2 * k]], xs[2 * k + 1]);
      TotalNext(g, sums[..k], sums[k]);
      Assoc(g, Total(g, xs[..2 * k]), xs[2 * k], xs[2 * k + 1]);
    } else {
      assert xs == [];
    }
  }

  /** The exception, where one is raised. */
  function ConstructionFailure<P(==, !new)>(g: Group<P>, Ps: seq<P>): Failure {
    if Ps == [] then EmptyListOfPoints
    else if AvoidsTorsion(g, Ps) && Total(g, Ps) != g.zero then AssertionError
    else ValueError
  }

  /** construct_function. Raises for no points, where a tangent is vertical, where the points do not
      sum to infinity, and - because of the final normalization - where the constant coefficient
      vanishes; otherwise it returns the one function with exactly the given points as its divisor
      and constant coefficient 1. */
  method ConstructFunction<P(==, !new), F(==, !new), V(!new)>(c: Curve<P, F, V>, Ps: seq<P>) returns (res: Result<FF<F>>)
    requires c.HasDivisors()
    ensures res.Ok? <==> Ps != [] && AvoidsTorsion(c.points, Ps) && Total(c.points, Ps) == c.points.zero && ConstantIsNonzero(c, Ps)
    ensures res.Err? ==> res.failure == ConstructionFailure(c.points, Ps)
    ensures Ps == [] ==> res == Err(EmptyListOfPoints)
    ensures Ps != [] && AvoidsTorsion(c.points, Ps) && Total(c.points, Ps) != c.points.zero ==> res == Err(AssertionError)
    ensures Ps != [] && !AvoidsTorsion(c.points, Ps) ==> res == Err(ValueError)
    ensures AvoidsTorsion(c.points, Ps) && Total(c.points, Ps) == c.points.zero && !ConstantIsNonzero(c, Ps) && Ps != [] ==> res == Err(ValueError)
    ensures res.Ok? ==> 1 <= |res.value| <= 2 && Interpolates(c, c.Of(res.value), Ps)
    ensures res.Ok? ==> Constant(c.field, c.Of(res.value)) == c.field.one
  {
    hide Curve.HasDivisors, Group.IsGroup, Field.IsField, ZerosAt, Total, Debts, IsPart, ConstantIsNonzero, NextRound, RoundIsClear, Line, Interpolates, Constant, Curve.Of;
    CurveFacts(c);
    if |Ps| == 0 {
      return Err(EmptyListOfPoints);
    }
    var xs: seq<Part<P, F>> := [];
    for i := 0 to |Ps|
      invariant |xs| == i && AreParts(c, xs)
      invariant forall k :: 0 <= k < i ==> xs[k].0 == Ps[k] && !TwoTorsion(c.points, Ps[k]) && Debt(c, xs[k]) == c.at(Ps[k])
    {
      var line := Line(c, Ps[i], c.points.neg(Ps[i]));
      if line.Err? {
        LineIsVertical(c, Ps[i]);
        return Err(ValueError);
      }
      LineIsVertical(c, Ps[i]);
      StartPart(c, Ps[i]);
      xs := xs + [(Ps[i], line.value)];
    }
    StartDebts(c, Ps, xs);
    assert PointsOf(xs) == Ps;
    while |xs| != 1
      invariant |xs| > 0 && AreParts(c, xs)
      invariant Debts(c, xs) == ZerosAt(c, Ps) && Total(c.points, PointsOf(xs)) == Total(c.points, Ps)
      invariant IsClear(c.points, PointsOf(xs)) == IsClear(c.points, Ps)
      decreases |xs|
    {
      RoundKeepsTotal(c.points, PointsOf(xs));
      var next := MergeRound(c, xs);
      if next.Err? {
        return Err(ValueError);
      }
      assert |next.value| == |PointsOf(next.value)| == (|xs| + 1) / 2;
      xs := next.value;
    }
    assert xs == [xs[0]] && PointsOf(xs) == [xs[0].0];
    TotalOfOne(c.points, xs[0].0);
    DebtsOfOne(c, xs[0]);
    if xs[0].0 != c.points.zero {
      return Err(AssertionError);
    }
    assert IsPart(c, xs[0]);
    res := Normalized(c, Ps, xs[0].1);
  }

  lemma StartDebts<P(!new), F(!new), V(!new)>(c: Curve<P, F, V>, Ps: seq<P>, xs: seq<Part<P, F>>)
    requires |xs| == |Ps| && forall k :: 0 <= k < |Ps| ==> Debt(c, xs[k]) == c.at(Ps[k])
    ensures Debts(c, xs) == ZerosAt(c, Ps)
  {
    hide Debt;
    assert seq(|xs|, i requires 0 <= i < |xs| => Debt(c, xs[i])) == seq(|Ps|, i requires 0 <= i < |Ps| => c.at(Ps[i]));
  }

  /** The last step, where the remaining point is infinity. */
  method Normalized<P(==, !new), F(==, !new), V(!new)>(c: Curve<P, F, V>, ghost Ps: seq<P>, D: FF<F>) returns (res: Result<FF<F>>)
    requires c.HasDivisors() && IsPart(c, (c.points.zero, D)) && Debt(c, (c.points.zero, D)) == ZerosAt(c, Ps)
    ensures (res.Ok? <==> ConstantIsNonzero(c, Ps)) && (res.Err? ==> res.failure == ValueError)
    ensures res.Ok? ==> 1 <= |res.value| <= 2 && Interpolates(c, c.Of(res.value), Ps)
    ensures res.Ok? ==> Constant(c.field, c.Of(res.value)) == c.field.one
  {
    hide Curve.HasDivisors, Curve.HasCoordinates, Group.IsGroup, Field.IsField, ZerosAt, Constant, Red, Scl, ConstantIsNonzero, ScaledAll;
    CurveFacts(c);
    var f := c.field;
    NoDebtAtInfinity(c, D);
    ConstantOfList(f, c.W(), D);
    ConstantsAgree(c, Ps, c.Of(D));
    res := Normalize(f, D);
    if res.Ok? {
      var coeff := Coef(f, D[0], 0);
      ghost var k := f.inv(coeff);
      RedOfScaled(f, c.W(), D, k);
      ScaledInterpolates(c, Ps, c.Of(D), k, coeff);
    }
  }

  lemma NoDebtAtInfinity<P(!new), F(!new), V(!new)>(c: Curve<P, F, V>, D: FF<F>)
    requires c.HasDivisors()
    ensures Debt(c, (c.points.zero, D)) == c.div(c.Of(D))
  {
    hide Curve.HasDivisors, Group.IsGroup, Curve.Of;
    CurveFacts(c);
    NegOfNeg(c.points, c.points.zero);
    NegOfNeg(c.divisors, c.divisors.zero);
    Identity(c.divisors, c.div(c.Of(D)));
  }

  lemma ScaledInterpolates<P(!new), F(!new), V(!new)>(c: Curve<P, F, V>, Ps: seq<P>, s: Fn<F>, k: F, coeff: F)
    requires c.HasDivisors() && Interpolates(c, s, Ps) && coeff == Constant(c.field, s) && coeff != c.field.zero && k == c.field.inv(coeff)
    ensures Interpolates(c, Scl(c.field, [k], s), Ps) && Constant(c.field, Scl(c.field, [k], s)) == c.field.one
  {
    hide Curve.HasDivisors, Curve.HasCoordinates, Group.IsGroup, Field.IsField, ZerosAt, Constant, Scl, IsFn;
    CurveFacts(c);
    var f := c.field;
    var t := Scl(f, [k], s);
    MulInv(f, coeff);
    ConstantOfScaled(f, s, k);
    PolynomialAlgorithms.OneIsNotZero(f);
    InverseIsNonzero(f, coeff);
    ResultsAreFns(f, [], [k], s, s);
    if t == Fn([], []) {
      ConstantOfZero(f);
    }
    ScaledDivisor(c, s, k);
  }

  lemma InverseIsNonzero<F(!new)>(f: Field<F>, x: F)
    requires f.IsField() && x != f.zero
    ensures f.inv(x) != f.zero
  {
    hide Field.IsField;
    MulInv(f, x);
    Fields.MulZero(f, x);
    PolynomialAlgorithms.OneIsNotZero(f);
  }

  lemma ConstantOfZero<F(!new)>(f: Field<F>)
    ensures Constant(f, Fn([], [])) == f.zero
  {
  }
}
