/** Structures that meet the hypotheses of the other modules: a field, a curve whose endomorphism
    acts as an eigenvalue, and an elliptic curve with finite points whose divisors are the orders of
    vanishing. */
module Instances {
  import opened Divisibility
  import opened CurveDivisors
  import opened Fields
  import opened FunctionField
  import opened Groups
  import FakeGlv
  import GlvHint
  import GlvMul
  import opened LocalOrders
  import opened PolynomialRing
  import opened Polynomials
  import opened Results
  import opened VanishingOrders

  // ----- the field of two elements -----

  const BIT_FIELD := Field(false, true, (x: bool, y: bool) => x != y, (x: bool) => x, (x: bool, y: bool) => x && y, (x: bool) => x)

  lemma BitsAreField()
    ensures BIT_FIELD.IsField()
  {
  }

  // ----- seven points on which w acts as doubling -----

  newtype Residue = x: int | 0 <= x < 7

  function Reduced(x: int): Residue {
    (x % 7) as Residue
  }

  function Plus(x: Residue, y: Residue): Residue {
    var sum := x as int + y as int;
    (if sum < 7 then sum else sum - 7) as Residue
  }

  function Minus(x: Residue): Residue {
    if x == 0 then 0 else (7 - x as int) as Residue
  }

  function Product(x: Residue, y: Residue): Residue {
    Reduced(x as int * y as int)
  }

  function Double(x: Residue): Residue {
    Reduced(2 * x as int)
  }

  /** 1 on the orbit of 1 under doubling, -1 on its negatives. */
  function YOf(p: Residue): Residue {
    if p == 3 || p == 5 || p == 6 then 6 else 1
  }

  function XOf(p: Residue): Residue {
    Product(p, YOf(p))
  }

  const RESIDUES: Group<Residue> := Group(0, Plus, Minus)

  const DOUBLING_CURVE: GlvMul.Curve<Residue, Residue> := GlvMul.Curve(RESIDUES, XOf, YOf, Product, Minus, Double)

  lemma ResiduesAreGroup()
    ensures RESIDUES.IsGroup()
  {
  }

  /** Every residue is one of seven. */
  lemma CurveAt(p: Residue)
    ensures Product(XOf(p), YOf(p)) == p
    ensures XOf(Minus(p)) == XOf(p)
    ensures Product(Double(XOf(p)), YOf(p)) == Double(p)
    ensures Product(Double(XOf(p)), Minus(YOf(p))) == Minus(Double(p))
  {
    if {
      case p == 0 =>
      case p == 1 =>
      case p == 2 =>
      case p == 3 =>
      case p == 4 =>
      case p == 5 =>
      case p == 6 =>
    }
  }

  lemma TwiceIsDouble(p: Residue)
    ensures RESIDUES.Mul(2, p) == Double(p)
  {
    assert RESIDUES.Times(1, p) == p;
    assert RESIDUES.Times(2, p) == Plus(p, p);
  }

  /** An endomorphism with eigenvalue 2 modulo 7. */
  lemma DoublingIsEndomorphism()
    ensures DOUBLING_CURVE.IsCurve() && DOUBLING_CURVE.ActsAs(2) && GlvHint.Eigenvalue(2, 7)
  {
    hide Reduced, Plus, Minus, Product, Double, YOf, XOf, Group.Mul, Group.IsGroup;
    ResiduesAreGroup();
    forall p: Residue
      ensures DOUBLING_CURVE.point(DOUBLING_CURVE.x(p), DOUBLING_CURVE.y(p)) == p
      ensures DOUBLING_CURVE.x(RESIDUES.neg(p)) == DOUBLING_CURVE.x(p)
      ensures DOUBLING_CURVE.NegPhi(p) == RESIDUES.neg(DOUBLING_CURVE.Phi(p))
      ensures DOUBLING_CURVE.Phi(p) == RESIDUES.Mul(2, p)
    {
      CurveAt(p);
      TwiceIsDouble(p);
    }
  }

  lemma NextResidue(k: nat)
    ensures Reduced(0) == 0
    ensures Plus(Reduced(k), 1) == Reduced(k + 1)
  {
  }

  lemma {:induction false} MultiplesOfOne(k: nat)
    ensures RESIDUES.Times(k, 1) == Reduced(k)
  {
    hide Plus, Reduced, Minus;
    if k == 0 {
      NextResidue(0);
    } else {
      MultiplesOfOne(k - 1);
      NextResidue(k - 1);
    }
  }

  /** and a point of order 7. */
  lemma OneHasOrderSeven()
    ensures FakeGlv.HasOrder(RESIDUES, 1, 7)
  {
    forall k: nat
      ensures RESIDUES.Times(k, 1) == Reduced(k)
    {
      MultiplesOfOne(k);
    }
  }

  // ----- the field of five elements -----

  newtype Five = x: int | 0 <= x < 5

  function FivePlus(x: Five, y: Five): Five {
    var sum := x as int + y as int;
    (if sum < 5 then sum else sum - 5) as Five
  }

  function FiveMinus(x: Five): Five {
    if x == 0 then 0 else (5 - x as int) as Five
  }

  function FiveTimes(x: Five, y: Five): Five {
    if x == 0 then 0 else if x == 1 then y else if x == 2 then FivePlus(y, y)
    else if x == 3 then FiveMinus(FivePlus(y, y)) else FiveMinus(y)
  }

  /** 1, 3, 2 and 4 invert 1, 2, 3 and 4. */
  function FiveInverse(x: Five): Five {
    if x == 2 then 3 else if x == 3 then 2 else x
  }

  const FIVE: Field<Five> := Field(0, 1, FivePlus, FiveMinus, FiveTimes, FiveInverse)

  lemma FiveAdds(x: Five, y: Five, z: Five)
    ensures FivePlus(FivePlus(x, y), z) == FivePlus(x, FivePlus(y, z)) && FivePlus(x, y) == FivePlus(y, x)
    ensures FiveMinus(FivePlus(x, y)) == FivePlus(FiveMinus(x), FiveMinus(y)) && FiveMinus(FiveMinus(x)) == x
  {
  }

  lemma FiveDistributes(x: Five, y: Five, z: Five)
    ensures FiveTimes(x, FivePlus(y, z)) == FivePlus(FiveTimes(x, y), FiveTimes(x, z))
  {
    if {
      case x == 0 =>
      case x == 1 =>
      case x == 2 =>
      case x == 3 =>
      case x == 4 =>
    }
  }

  lemma FiveCommutes(x: Five, y: Five)
    ensures FiveTimes(x, y) == FiveTimes(y, x)
  {
    if {
      case x == 0 =>
      case x == 1 =>
      case x == 2 =>
      case x == 3 =>
      case x == 4 =>
    }
  }

  lemma FiveAssociates(x: Five, y: Five, z: Five)
    ensures FiveTimes(FiveTimes(x, y), z) == FiveTimes(x, FiveTimes(y, z))
  {
    FiveCommutes(x, y);
    if {
      case z == 0 =>
      case z == 1 =>
      case z == 2 =>
      case z == 3 =>
      case z == 4 =>
    }
  }

  lemma FiveInverts(x: Five)
    ensures FivePlus(x, 0) == x && FivePlus(x, FiveMinus(x)) == 0 && FiveTimes(x, 1) == x
    ensures x != 0 ==> FiveTimes(x, FiveInverse(x)) == 1
  {
    if {
      case x == 0 =>
      case x == 1 =>
      case x == 2 =>
      case x == 3 =>
      case x == 4 =>
    }
  }

  lemma FiveIsField()
    ensures FIVE.IsField()
  {
    hide FivePlus, FiveMinus, FiveTimes, FiveInverse;
    forall x: Five, y: Five, z: Five | At(x, y, z)
      ensures FivePlus(FivePlus(x, y), z) == FivePlus(x, FivePlus(y, z)) && FiveTimes(FiveTimes(x, y), z) == FiveTimes(x, FiveTimes(y, z))
      ensures FivePlus(x, y) == FivePlus(y, x) && FiveTimes(x, y) == FiveTimes(y, x)
      ensures FiveTimes(x, FivePlus(y, z)) == FivePlus(FiveTimes(x, y), FiveTimes(x, z))
      ensures FivePlus(x, 0) == x && FiveTimes(x, 1) == x
      ensures FivePlus(x, FiveMinus(x)) == 0 && (x != 0 ==> FiveTimes(x, FiveInverse(x)) == 1)
    {
      FiveAdds(x, y, z);
      FiveDistributes(x, y, z);
      FiveCommutes(x, y);
      FiveAssociates(x, y, z);
      FiveInverts(x);
    }
  }

  // ----- y^2 = x^3 + 4 x + 2 over it: infinity, (3, 1) and (3, 4) -----

  newtype Third = x: int | 0 <= x < 3

  function ThirdPlus(x: Third, y: Third): Third {
    var sum := x as int + y as int;
    (if sum < 3 then sum else sum - 3) as Third
  }

  function ThirdMinus(x: Third): Third {
    if x == 0 then 0 else (3 - x as int) as Third
  }

  const THIRDS: Group<Third> := Group(0, ThirdPlus, ThirdMinus)
  const NOTHING: Group<()> := Group((), (x: (), y: ()) => (), (x: ()) => ())

  /** Its two finite points are points of inflection: each tangent meets the curve there three times. */
  const THREE_POINTS: Curve<Third, Five, ()> := Curve(FIVE, 4, 2, THIRDS, (A: Third) => 3, (A: Third) => if A == 2 then 4 else 1,
    NOTHING, (A: Third) => (), (s: Fn<Five>) => (), (d: ()) => true)

  lemma ThirdLaws(x: Third, y: Third, z: Third)
    ensures ThirdPlus(ThirdPlus(x, y), z) == ThirdPlus(x, ThirdPlus(y, z)) && ThirdPlus(x, y) == ThirdPlus(y, x)
    ensures ThirdPlus(x, 0) == x && ThirdPlus(x, ThirdMinus(x)) == 0
    ensures ThirdPlus(ThirdPlus(x, x), x) == 0
  {
    if {
      case x == 0 =>
      case x == 1 =>
      case x == 2 =>
    }
  }

  lemma ThirdsAreGroup()
    ensures THIRDS.IsGroup()
  {
    hide ThirdPlus, ThirdMinus;
    forall x: Third, y: Third, z: Third
      ensures THIRDS.add(THIRDS.add(x, y), z) == THIRDS.add(x, THIRDS.add(y, z))
    {
      ThirdLaws(x, y, z);
    }
    forall x: Third, y: Third
      ensures THIRDS.add(x, y) == THIRDS.add(y, x)
    {
      ThirdLaws(x, y, y);
    }
    forall x: Third
      ensures THIRDS.add(x, THIRDS.zero) == x && THIRDS.add(x, THIRDS.neg(x)) == THIRDS.zero
    {
      ThirdLaws(x, x, x);
    }
  }

  lemma SquaresOfFive(v: Five)
    ensures FiveTimes(v, v) == if v == 0 then 0 else if v == 1 || v == 4 then 1 else 4
  {
    if {
      case v == 0 =>
      case v == 1 =>
      case v == 2 =>
      case v == 3 =>
      case v == 4 =>
    }
  }

  /** x^3 + 4 x + 2 */
  lemma RightSideOfFive(u: Five)
    ensures THREE_POINTS.RightSide(u) == if u == 3 then 1 else if u == 0 || u == 1 then 2 else if u == 2 then 3 else 2
  {
    if {
      case u == 0 =>
      case u == 1 =>
      case u == 2 =>
      case u == 3 =>
      case u == 4 =>
    }
  }

  lemma FinitePoint(A: Third)
    requires A != 0
    ensures var c := THREE_POINTS;
      && c.field.mul(c.y(A), c.y(A)) == c.RightSide(c.x(A))
      && c.x(c.points.neg(A)) == c.x(A) && c.y(c.points.neg(A)) == c.field.neg(c.y(A))
  {
    RightSideOfFive(3);
    SquaresOfFive(1);
    SquaresOfFive(4);
    ThirdLaws(A, A, A);
    assert A == 1 || A == 2;
  }

  /** No other pair of coordinates is on the curve. */
  lemma OnlyFinitePoints(u: Five, v: Five) returns (A: Third)
    requires FiveTimes(v, v) == THREE_POINTS.RightSide(u)
    ensures A != 0 && THREE_POINTS.x(A) == u && THREE_POINTS.y(A) == v
  {
    RightSideOfFive(u);
    SquaresOfFive(v);
    A := if v == 1 then 1 else 2;
  }

  lemma ThreePointsHaveCoordinates()
    ensures THREE_POINTS.HasCoordinates()
  {
    FiveIsField();
    ThirdsAreGroup();
    var c := THREE_POINTS;
    assert FivePlus(1, 1) == 2;
    hide Field.IsField, Group.IsGroup, FivePlus, FiveTimes, FiveMinus, FiveInverse, ThirdPlus, ThirdMinus, Curve.RightSide;
    forall A | A != c.points.zero
      ensures c.field.mul(c.y(A), c.y(A)) == c.RightSide(c.x(A))
      ensures c.x(c.points.neg(A)) == c.x(A) && c.y(c.points.neg(A)) == c.field.neg(c.y(A))
    {
      FinitePoint(A);
    }
    forall u, v | c.field.mul(v, v) == c.RightSide(u)
      ensures exists A :: A != c.points.zero && c.x(A) == u && c.y(A) == v
    {
      var A := OnlyFinitePoints(u, v);
    }
  }

  /** All finite points lie over x == 3, so a line contains one of them only. */
  lemma ThreePointsAddCollinear()
    ensures THREE_POINTS.AddsCollinear() && IsSmooth(THREE_POINTS)
  {
    var c := THREE_POINTS;
    hide Same, Times, Curve.Intersection, FivePlus, FiveTimes, ThirdPlus;
    forall m, i, A, B, C | c.Meets(m, i, A, B, C)
      ensures c.points.add(c.points.add(A, B), C) == c.points.zero
    {
      assert A != 0 && B != 0 && C != 0;
      assert c.y(A) == c.y(B) == c.y(C);
      ThirdLaws(A, A, A);
    }
  }

  /** The tangent at (3, 1) is y == 3 x + 2. */
  lemma TangentOfThreePoints()
    ensures Line(THREE_POINTS, 1, 1) == Ok(Sloped(FIVE, 3, 2))
  {
    assert FivePlus(1, 1) == 2 && FiveInverse(2) == 3;
    assert FiveTimes(3, 3) == 4 && FivePlus(4, 4) == 3 && FivePlus(3, 4) == 2 && FivePlus(2, 4) == 1 && FiveTimes(1, 3) == 3;
    assert FIVE.Sub(1, 4) == 2;
  }

  /** An elliptic curve with finite points meets all hypotheses. */
  lemma ThreePointsHaveDivisors()
    ensures WithOrders(THREE_POINTS).HasDivisors()
  {
    ThreePointsHaveCoordinates();
    ThreePointsAddCollinear();
    hide *;
    SmoothCurveHasDivisors(THREE_POINTS);
  }
}
