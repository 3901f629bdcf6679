/** The function-field certificates of a multi-scalar product: one interpolating function for
    every row of base -3 digits. */
module Ecip {
  import opened CurveDivisors
  import opened Fields
  import opened FunctionField
  import opened Groups
  import opened IntMath
  import opened Interpolation
  import opened Neg3
  import opened Polynomials
  import opened Results

  // ----- one row of digits -----

  /** P, -P or infinity, as the digit is 1, -1 or anything else. */
  function Signed<P(!new)>(g: Group<P>, d: int, A: P): P {
    if d == 1 then A else if d == -1 then g.neg(A) else g.zero
  }

  function SignedPoints<P(!new)>(g: Group<P>, ds: seq<int>, Ps: seq<P>): (s: seq<P>)
    ensures |s| == if |ds| < |Ps| then |ds| else |Ps|
  {
    var n := if |ds| < |Ps| then |ds| else |Ps|;
    seq(n, i requires 0 <= i < n => Signed(g, ds[i], Ps[i]))
  }

  function WithoutInfinity<P(==, !new)>(g: Group<P>, Ps: seq<P>): seq<P> {
    if Ps == [] then [] else
      WithoutInfinity(g, Ps[..|Ps| - 1]) + if Ps[|Ps| - 1] == g.zero then [] else [Ps[|Ps| - 1]]
  }

  /** Infinity contributes nothing to either sum. */
  lemma {:induction false} InfinityIsNothing<P(!new), F(!new), V(!new)>(c: Curve<P, F, V>, Ps: seq<P>)
    requires c.HasGroups()
    ensures Total(c.points, WithoutInfinity(c.points, Ps)) == Total(c.points, Ps)
    ensures ZerosAt(c, WithoutInfinity(c.points, Ps)) == ZerosAt(c, Ps)
  {
    hide Group.IsGroup, ZerosAt, Total, WithoutInfinity;
    if Ps == [] {
      NothingToDrop(c.points);
    } else {
      var init, last := Ps[..|Ps| - 1], Ps[|Ps| - 1];
      var kept := WithoutInfinity(c.points, init);
      InfinityIsNothing(c, init);
      assert Ps == init + [last];
      DropNext(c.points, init, last);
      TotalNext(c.points, init, last);
      AtNext(c, init, last);
      TotalNext(c.points, kept, last);
      AtNext(c, kept, last);
      Identity(c.points, Total(c.points, init));
      Identity(c.divisors, ZerosAt(c, init));
    }
  }

  lemma NothingToDrop<P(!new)>(g: Group<P>)
    ensures WithoutInfinity(g, []) == []
  {
  }

  lemma DropNext<P(!new)>(g: Group<P>, init: seq<P>, last: P)
    ensures WithoutInfinity(g, init + [last]) == if last == g.zero then WithoutInfinity(g, init) else WithoutInfinity(g, init) + [last]
  {
    assert (init + [last])[..|init|] == init;
  }

  /** functools.reduce over point addition */
  method ReducePoints<P(!new)>(g: Group<P>, Ps: seq<P>) returns (res: Result<P>)
    requires g.IsGroup()
    ensures (res.Err? <==> Ps == []) && (res.Err? ==> res.failure == TypeError)
    ensures res.Ok? ==> res.value == Total(g, Ps)
  {
    hide Group.IsGroup;
    if |Ps| == 0 {
      return Err(TypeError);
    }
    var sum := Ps[0];
    TotalOfOne(g, sum);
    assert Ps[..1] == [sum];
    for i := 1 to |Ps|
      invariant sum == Total(g, Ps[..i])
    {
      TotalNext(g, Ps[..i], Ps[i]);
      assert Ps[..i + 1] == Ps[..i] + [Ps[i]];
      sum := g.add(sum, Ps[i]);
    }
    assert Ps[..|Ps|] == Ps;
    return Ok(sum);
  }

  /** The points of a row: three times -Q, the new -Q2 and the signed points. */
  function RowPoints<P(!new)>(g: Group<P>, Q: P, Q2: P, digitsPoints: seq<P>): seq<P> {
    [g.neg(Q), g.neg(Q), g.neg(Q), g.neg(Q2)] + digitsPoints
  }

  lemma RowSumsToInfinity<P(!new)>(g: Group<P>, Q: P, digitsPoints: seq<P>)
    requires g.IsGroup()
    ensures var Q2 := g.add(g.Mul(-3, Q), Total(g, digitsPoints));
      Total(g, RowPoints(g, Q, Q2, digitsPoints)) == g.zero
  {
    hide Group.IsGroup, Group.Mul;
    var n, S := g.neg(Q), Total(g, digitsPoints);
    var Q2 := g.add(g.Mul(-3, Q), S);
    FourPoints(g, n, g.neg(Q2));
    TotalOfConcat(g, [n, n, n, g.neg(Q2)], digitsPoints);
    TripleNegated(g, Q);
    NegOfSum(g, g.Mul(-3, Q), S);
    var t := g.Mul(-3, Q);
    // (t + (-t - S)) + S == 0
    Assoc(g, t, g.neg(t), g.neg(S));
    Inverse(g, t);
    Identity(g, g.neg(S));
    Inverse(g, S);
  }

  lemma FourPoints<P(!new)>(g: Group<P>, n: P, m: P)
    requires g.IsGroup()
    ensures Total(g, [n, n, n, m]) == g.add(g.add(g.add(n, n), n), m)
  {
    hide Group.IsGroup;
    TotalOfOne(g, n);
    TotalNext(g, [n], n);
    TotalNext(g, [n, n], n);
    TotalNext(g, [n, n, n], m);
    assert [n] + [n] == [n, n] && [n, n] + [n] == [n, n, n] && [n, n, n] + [m] == [n, n, n, m];
  }

  lemma TripleNegated<P(!new)>(g: Group<P>, Q: P)
    requires g.IsGroup()
    ensures g.add(g.add(g.neg(Q), g.neg(Q)), g.neg(Q)) == g.Mul(-3, Q)
  {
    hide Group.IsGroup, Group.Mul;
    Groups.MulZero(g, Q);
    MulAdds(g, -1, -1, Q);
    MulAdds(g, -2, -1, Q);
  }

  /** The next point of the recursion. */
  function NextPoint<P(!new)>(g: Group<P>, ds: seq<int>, Bs: seq<P>, Q: P): P {
    g.add(g.Mul(-3, Q), Total(g, SignedPoints(g, ds, Bs)))
  }

  /** The points handed to construct_function. */
  function RowList<P(==, !new)>(g: Group<P>, ds: seq<int>, Bs: seq<P>, Q: P): seq<P> {
    WithoutInfinity(g, RowPoints(g, Q, NextPoint(g, ds, Bs, Q), SignedPoints(g, ds, Bs)))
  }

  lemma ListOfRow<P(!new)>(g: Group<P>, ds: seq<int>, Bs: seq<P>, Q: P)
    ensures var n := g.neg(Q);
      RowList(g, ds, Bs, Q) == WithoutInfinity(g, [n, n, n, g.neg(NextPoint(g, ds, Bs, Q))] + SignedPoints(g, ds, Bs))
  {
  }

  /** Why row_function raises: nothing to add up, a vertical tangent on the way, or a function whose
      constant coefficient vanishes. */
  ghost function RowFailure<P(!new), F(!new), V(!new)>(c: Curve<P, F, V>, ds: seq<int>, Bs: seq<P>, Q: P): Option<Failure> {
    var g, n := c.points, c.points.neg(Q);
    var row := WithoutInfinity(g, [n, n, n, g.neg(NextPoint(g, ds, Bs, Q))] + SignedPoints(g, ds, Bs));
    if ds == [] || Bs == [] then Some(TypeError)
    else if row == [] || (AvoidsTorsion(c.points, row) && ConstantIsNonzero(c, row)) then None
    else Some(ValueError)
  }

  /** row_function: the next point is -3Q plus the signed points. The points of the row always sum to
      infinity, so the assertion in construct_function never fails, and the function's divisor is
      exactly the row. */
  method RowFunction<P(==, !new), F(==, !new), V(!new)>(c: Curve<P, F, V>, ds: seq<int>, Bs: seq<P>, Q: P) returns (res: Result<(FF<F>, P)>)
    requires c.HasDivisors()
    ensures res.Err? <==> RowFailure(c, ds, Bs, Q).Some?
    ensures res.Err? ==> RowFailure(c, ds, Bs, Q) == Some(res.failure)
    ensures res.Ok? ==> res.value.1 == NextPoint(c.points, ds, Bs, Q)
    ensures res.Ok? ==> Interpolates(c, c.Of(res.value.0), RowPoints(c.points, Q, res.value.1, SignedPoints(c.points, ds, Bs)))
    ensures res.Ok? ==> Constant(c.field, c.Of(res.value.0)) == c.field.one
  {
    hide Curve.HasDivisors, Group.IsGroup, Group.Mul, ZerosAt, Total, WithoutInfinity, AvoidsTorsion, ConstantIsNonzero, Curve.Of, Curve.Nonzero, RowPoints;
    CurveFacts(c);
    ListOfRow(c.points, ds, Bs, Q);
    var digitsPoints := SignedPoints(c.points, ds, Bs);
    var sum := ReducePoints(c.points, digitsPoints);
    if sum.Err? {
      return Err(TypeError);
    }
    var Q2 := c.points.add(c.points.Mul(-3, Q), sum.value);
    ghost var all := RowPoints(c.points, Q, Q2, digitsPoints);
    var row := WithoutInfinity(c.points, RowPoints(c.points, Q, Q2, digitsPoints));
    RowSumsToInfinity(c.points, Q, digitsPoints);
    InfinityIsNothing(c, all);
    var f := ConstructFunction(c, row);
    if f.Err? && f.failure == EmptyListOfPoints {
      AtNothing(c);
      DivOfOne(c);
      ConstantOfOne(c.field);
      return Ok(([[c.field.one]], Q2));
    }
    if f.Err? {
      return Err(f.failure);
    }
    return Ok((f.value, Q2));
  }

  lemma ConstantOfOne<F(!new)>(f: Field<F>)
    ensures Constant(f, Fn([f.one], [])) == f.one
  {
  }

  // ----- all rows -----

  /** The multi-scalar sum of a digit matrix by Horner's rule in base -3, row 0 least significant. */
  function HornerPoint<P(!new)>(g: Group<P>, rows: seq<seq<int>>, Bs: seq<P>): P {
    if rows == [] then g.zero
    else g.add(g.Mul(-3, HornerPoint(g, rows[1..], Bs)), Total(g, SignedPoints(g, rows[0], Bs)))
  }

  /** The same sum of the rows' signed points as divisors. */
  function HornerDivisor<P(!new), F(!new), V(!new)>(c: Curve<P, F, V>, rows: seq<seq<int>>, Bs: seq<P>): V {
    if rows == [] then c.divisors.zero
    else c.divisors.add(c.divisors.Mul(-3, HornerDivisor(c, rows[1..], Bs)), ZerosAt(c, SignedPoints(c.points, rows[0], Bs)))
  }

  /** The combination of the functions' divisors with coefficients 1, -3, 9, ... */
  ghost function Combined<P(!new), F(!new), V(!new)>(c: Curve<P, F, V>, Ds: seq<FF<F>>): V {
    if Ds == [] then c.divisors.zero
    else c.divisors.add(c.divisors.Mul(-3, Combined(c, Ds[1..])), c.div(c.Of(Ds[0])))
  }

  lemma AtRow<P(!new), F(!new), V(!new)>(c: Curve<P, F, V>, Q: P, Q2: P, s: seq<P>)
    requires c.HasGroups()
    ensures ZerosAt(c, RowPoints(c.points, Q, Q2, s)) == c.divisors.add(
      c.divisors.add(c.divisors.Mul(3, c.at(c.points.neg(Q))), c.at(c.points.neg(Q2))), ZerosAt(c, s))
  {
    hide Group.IsGroup, Group.Mul, Total;
    var v, n, m := c.divisors, c.at(c.points.neg(Q)), c.at(c.points.neg(Q2));
    var row := RowPoints(c.points, Q, Q2, s);
    var rest := seq(|s|, i requires 0 <= i < |s| => c.at(s[i]));
    assert seq(|row|, i requires 0 <= i < |row| => c.at(row[i])) == [n, n, n, m] + rest;
    TotalOfConcat(v, [n, n, n, m], rest);
    FourPoints(v, n, m);
    Groups.MulZero(v, n);
    MulAdds(v, 1, 1, n);
    MulAdds(v, 2, 1, n);
  }

  /** The telescoping step: -3 (-Q) cancels the three copies of -Q in the next row. */
  lemma Telescope<V(!new)>(v: Group<V>, nQ: V, nQ2: V, rest: V, s: V)
    requires v.IsGroup()
    ensures v.add(v.Mul(-3, v.add(nQ, rest)), v.add(v.add(v.Mul(3, nQ), nQ2), s)) == v.add(nQ2, v.add(v.Mul(-3, rest), s))
  {
    hide Group.IsGroup, Group.Mul;
    var a, r := v.Mul(3, nQ), v.Mul(-3, rest);
    Groups.MulOfSum(v, -3, nQ, rest);
    Groups.MulNeg(v, 3, nQ);
    // (-a + r) + ((a + nQ2) + s) == nQ2 + (r + s)
    Interchange(v, v.neg(a), r, v.add(a, nQ2), s);
    Assoc(v, v.neg(a), a, nQ2);
    Inverse(v, a);
    Identity(v, nQ2);
  }

  /** After the rows from place k up, in the order of processing. */
  ghost predicate RowsDone<P(!new), F(!new), V(!new)>(c: Curve<P, F, V>, rows: seq<seq<int>>, Bs: seq<P>, k: nat, Q: P, Ds: seq<FF<F>>) {
    && k <= |rows| && |Ds| == |rows| - k && Q == HornerPoint(c.points, rows[k..], Bs)
    && Combined(c, Ds) == c.divisors.add(c.at(c.points.neg(Q)), HornerDivisor(c, rows[k..], Bs))
  }

  lemma RowsStart<P(!new), F(!new), V(!new)>(c: Curve<P, F, V>, rows: seq<seq<int>>, Bs: seq<P>)
    requires c.HasGroups()
    ensures RowsDone(c, rows, Bs, |rows|, c.points.zero, [])
  {
    hide Group.IsGroup;
    assert rows[|rows|..] == [];
    NegOfNeg(c.points, c.points.zero);
    Identity(c.divisors, c.divisors.zero);
  }

  lemma RowsStep<P(!new), F(!new), V(!new)>(
      c: Curve<P, F, V>, rows: seq<seq<int>>, Bs: seq<P>, k: nat, Q: P, Ds: seq<FF<F>>, D0: FF<F>, Q2: P)
    requires c.HasGroups() && RowsDone(c, rows, Bs, k + 1, Q, Ds)
    requires Q2 == NextPoint(c.points, rows[k], Bs, Q)
    requires Interpolates(c, c.Of(D0), RowPoints(c.points, Q, Q2, SignedPoints(c.points, rows[k], Bs)))
    ensures RowsDone(c, rows, Bs, k, Q2, [D0] + Ds)
  {
    hide Group.IsGroup, Group.Mul, Total, ZerosAt;
    var s := SignedPoints(c.points, rows[k], Bs);
    assert rows[k..][1..] == rows[k + 1..] && rows[k..][0] == rows[k];
    assert ([D0] + Ds)[1..] == Ds;
    AtRow(c, Q, Q2, s);
    Telescope(c.divisors, c.at(c.points.neg(Q)), c.at(c.points.neg(Q2)), HornerDivisor(c, rows[k + 1..], Bs), ZerosAt(c, s));
  }

  function Backwards<T>(s: seq<T>): (r: seq<T>)
    ensures |r| == |s| && forall i :: 0 <= i < |s| ==> r[i] == s[|s| - 1 - i]
  {
    seq(|s|, i requires 0 <= i < |s| => s[|s| - 1 - i])
  }

  lemma BackwardsNext<T>(s: seq<T>, x: T)
    ensures Backwards(s + [x]) == [x] + Backwards(s)
  {
  }

  lemma BackwardsTwice<T>(s: seq<T>)
    ensures Backwards(Backwards(s)) == s
  {
  }

  /** list.reverse(), in place */
  method ReverseList<T>(a: array<T>)
    modifies a
    ensures a[..] == Backwards(old(a[..]))
  {
    var i, n := 0, a.Length;
    while i < n - 1 - i
      invariant 0 <= i && 2 * i <= n + 1
      invariant forall k :: 0 <= k < n && (k < i || n - i <= k) ==> a[k] == old(a[n - 1 - k])
      invariant forall k :: i <= k < n - i ==> a[k] == old(a[k])
    {
      a[i], a[n - 1 - i] := a[n - 1 - i], a[i];
      i := i + 1;
    }
    SameBackwards(old(a[..]), a[..]);
  }

  lemma SameBackwards<T>(before: seq<T>, after: seq<T>)
    requires |after| == |before| && forall k :: 0 <= k < |before| ==> after[k] == before[|before| - 1 - k]
    ensures after == Backwards(before)
  {
  }

  /** Why ecip_functions raises on a list of rows: the first failure from the most significant row. */
  ghost function RowsFailure<P(!new), F(!new), V(!new)>(c: Curve<P, F, V>, rows: seq<seq<int>>, Bs: seq<P>): Option<Failure> {
    if rows == [] then None
    else
      var later := RowsFailure(c, rows[1..], Bs);
      if later.Some? then later else RowFailure(c, rows[0], Bs, HornerPoint(c.points, rows[1..], Bs))
  }

  lemma {:induction false} FailureStays<P(!new), F(!new), V(!new)>(c: Curve<P, F, V>, rows: seq<seq<int>>, Bs: seq<P>, k: nat)
    requires k <= |rows| && RowsFailure(c, rows[k..], Bs).Some?
    ensures RowsFailure(c, rows, Bs) == RowsFailure(c, rows[k..], Bs)
    decreases k
  {
    hide RowFailure, HornerPoint;
    if k > 0 {
      assert rows[1..][k - 1..] == rows[k..];
      FailureStays(c, rows[1..], Bs, k - 1);
    } else {
      assert rows[0..] == rows;
    }
  }

  /** The loop of ecip_functions, over rows that are already reversed. */
  method ProcessRows<P(==, !new), F(==, !new), V(!new)>(c: Curve<P, F, V>, Bs: seq<P>, reversed: seq<seq<int>>) returns (res: Result<(P, seq<FF<F>>)>)
    requires c.HasDivisors() && Bs != []
    ensures res.Err? <==> RowsFailure(c, Backwards(reversed), Bs).Some?
    ensures res.Err? ==> RowsFailure(c, Backwards(reversed), Bs) == Some(res.failure)
    ensures res.Ok? ==> RowsDone(c, Backwards(reversed), Bs, 0, res.value.0, Backwards(res.value.1))
  {
    hide Curve.HasDivisors, RowsDone, Total, ZerosAt, SignedPoints, RowPoints, Group.Mul, RowFailure, Interpolates, HornerPoint, NextPoint, Constant, Curve.Of, RowsFailure;
    ghost var rows := Backwards(reversed);
    var Q := c.points.zero;
    var Ds: seq<FF<F>> := [];
    CurveFacts(c);
    RowsStart(c, rows, Bs);
    assert Backwards(Ds) == [];
    NoRowsNoFailure(c, rows, Bs);
    for i := 0 to |reversed|
      invariant |Ds| == i && RowsDone(c, rows, Bs, |rows| - i, Q, Backwards(Ds))
      invariant RowsFailure(c, rows[|rows| - i..], Bs) == None
    {
      ghost var k := |rows| - 1 - i;
      assert rows[k] == reversed[i];
      var row := RowFunction(c, reversed[i], Bs, Q);
      RowDecides(c, rows, Bs, k, Q, Backwards(Ds));
      if row.Err? {
        FailureStays(c, rows, Bs, k);
        return Err(row.failure);
      }
      RowsStep(c, rows, Bs, k, Q, Backwards(Ds), row.value.0, row.value.1);
      BackwardsNext(Ds, row.value.0);
      Ds, Q := Ds + [row.value.0], row.value.1;
    }
    assert rows[0..] == rows;
    return Ok((Q, Ds));
  }

  lemma NoRowsNoFailure<P(!new), F(!new), V(!new)>(c: Curve<P, F, V>, rows: seq<seq<int>>, Bs: seq<P>)
    ensures RowsFailure(c, rows[|rows|..], Bs) == None
  {
  }

  lemma RowDecides<P(!new), F(!new), V(!new)>(c: Curve<P, F, V>, rows: seq<seq<int>>, Bs: seq<P>, k: nat, Q: P, Ds: seq<FF<F>>)
    requires k < |rows| && RowsDone(c, rows, Bs, k + 1, Q, Ds) && RowsFailure(c, rows[k + 1..], Bs) == None
    ensures RowsFailure(c, rows[k..], Bs) == RowFailure(c, rows[k], Bs, Q)
  {
    hide RowFailure, HornerPoint, HornerDivisor, Combined;
    assert rows[k..][1..] == rows[k + 1..] && rows[k..][0] == rows[k];
  }

  /** ecip_functions: the digit rows are reversed in place and processed from the most significant
      one; Q is their sum by Horner's rule, and the combined divisor of the functions telescopes to
      -Q and the combined rows. */
  method EcipFunctions<P(==, !new), F(==, !new), V(!new)>(c: Curve<P, F, V>, Bs: seq<P>, dss: array<seq<int>>) returns (res: Result<(P, seq<FF<F>>)>)
    requires c.HasDivisors()
    modifies dss
    ensures dss[..] == Backwards(old(dss[..]))
    ensures res.Err? <==> Bs == [] || RowsFailure(c, old(dss[..]), Bs).Some?
    ensures res.Err? ==> Some(res.failure) == if Bs == [] then Some(IndexError) else RowsFailure(c, old(dss[..]), Bs)
    ensures res.Ok? ==> RowsDone(c, old(dss[..]), Bs, 0, res.value.0, res.value.1)
  {
    hide Curve.HasDivisors, RowsDone, RowsFailure;
    ghost var rows := dss[..];
    ReverseList(dss);
    if |Bs| == 0 {
      return Err(IndexError);
    }
    res := ProcessRows(c, Bs, dss[..]);
    BackwardsTwice(rows);
    if res.Ok? {
      return Ok((res.value.0, Backwards(res.value.1)));
    }
  }

  // ----- the multi-scalar product -----

  lemma {:induction false} CombNext<P(!new)>(g: Group<P>, a: seq<int>, pts: seq<P>, k: int, A: P)
    requires g.IsGroup() && |a| == |pts|
    ensures Comb(g, a + [k], pts + [A]) == g.add(Comb(g, a, pts), g.Mul(k, A))
    decreases |a|
  {
    hide Group.IsGroup, Group.Mul;
    if a == [] {
      assert ([k])[1..] == [] && ([A])[1..] == [];
      assert a + [k] == [k] && pts + [A] == [A];
      Identity(g, g.Mul(k, A));
    } else {
      CombNext(g, a[1..], pts[1..], k, A);
      assert (a + [k])[1..] == a[1..] + [k] && (pts + [A])[1..] == pts[1..] + [A];
      Assoc(g, g.Mul(a[0], pts[0]), Comb(g, a[1..], pts[1..]), g.Mul(k, A));
    }
  }

  lemma {:induction false} MulOfComb<P(!new)>(g: Group<P>, k: int, a: seq<int>, b: seq<int>, pts: seq<P>)
    requires g.IsGroup() && |a| == |b| == |pts| && forall i :: 0 <= i < |a| ==> b[i] == k * a[i]
    ensures g.Mul(k, Comb(g, a, pts)) == Comb(g, b, pts)
    decreases |a|
  {
    hide Group.IsGroup, Group.Mul;
    if a == [] {
      Groups.MulZero(g, g.zero);
      MulOfZero(g, k);
    } else {
      Groups.MulOfSum(g, k, g.Mul(a[0], pts[0]), Comb(g, a[1..], pts[1..]));
      MulOfMul(g, k, a[0], pts[0]);
      MulOfComb(g, k, a[1..], b[1..], pts[1..]);
    }
  }

  /** c == a - 3 b, place by place. */
  ghost predicate IsNextSum(c: seq<int>, a: seq<int>, b: seq<int>) {
    |a| == |b| == |c| && forall i :: 0 <= i < |c| ==> c[i] == a[i] - 3 * b[i]
  }

  lemma CombHorner<P(!new)>(g: Group<P>, a: seq<int>, b: seq<int>, s: seq<int>, pts: seq<P>)
    requires g.IsGroup() && |s| == |pts| && IsNextSum(s, a, b)
    ensures g.add(g.Mul(-3, Comb(g, b, pts)), Comb(g, a, pts)) == Comb(g, s, pts)
  {
    hide Group.IsGroup, Group.Mul, Comb;
    var triple := seq(|b|, i requires 0 <= i < |b| => -3 * b[i]);
    MulOfComb(g, -3, b, triple, pts);
    AddCombs(g, triple, a, s, pts);
  }

  /** A row's signed points sum to the combination with the row's digits. */
  lemma {:induction false} RowIsComb<P(!new)>(g: Group<P>, row: seq<int>, Bs: seq<P>)
    requires g.IsGroup() && |row| == |Bs| && AreDigits(row)
    ensures Total(g, SignedPoints(g, row, Bs)) == Comb(g, row, Bs)
    decreases |row|
  {
    hide Group.IsGroup, Group.Mul, Total, Comb;
    if row == [] {
      NothingAdds(g, Bs);
    } else {
      var n := |row| - 1;
      RowIsComb(g, row[..n], Bs[..n]);
      assert row == row[..n] + [row[n]] && Bs == Bs[..n] + [Bs[n]];
      assert SignedPoints(g, row, Bs) == SignedPoints(g, row[..n], Bs[..n]) + [Signed(g, row[n], Bs[n])];
      TotalNext(g, SignedPoints(g, row[..n], Bs[..n]), Signed(g, row[n], Bs[n]));
      CombNext(g, row[..n], Bs[..n], row[n], Bs[n]);
      Groups.MulZero(g, Bs[n]);
    }
  }

  lemma NothingAdds<P(!new)>(g: Group<P>, Bs: seq<P>)
    requires Bs == []
    ensures Total(g, SignedPoints(g, [], Bs)) == g.zero && Comb(g, [], Bs) == g.zero
  {
  }

  /** What each scalar's digits sum to. */
  function ColumnSums(rows: seq<seq<int>>, width: nat): (s: seq<int>)
    requires forall j :: 0 <= j < |rows| ==> |rows[j]| == width
  {
    seq(width, i requires 0 <= i < width => DigitSum(Column(rows, i)))
  }

  lemma ColumnSumsNext(rows: seq<seq<int>>, width: nat)
    requires rows != [] && IsMatrix(rows, width)
    ensures IsMatrix(rows[1..], width) && IsNextSum(ColumnSums(rows, width), rows[0], ColumnSums(rows[1..], width))
  {
    forall i | 0 <= i < width
      ensures ColumnSums(rows, width)[i] == rows[0][i] - 3 * ColumnSums(rows[1..], width)[i]
    {
      assert Column(rows, i)[1..] == Column(rows[1..], i);
      DigitSumHorner(Column(rows, i));
    }
  }

  /** Horner's rule over the rows is the multi-scalar product. */
  lemma {:induction false} HornerIsMultiScalar<P(!new)>(g: Group<P>, rows: seq<seq<int>>, Bs: seq<P>)
    requires g.IsGroup() && IsMatrix(rows, |Bs|)
    ensures HornerPoint(g, rows, Bs) == Comb(g, ColumnSums(rows, |Bs|), Bs)
  {
    hide Group.IsGroup, Group.Mul, Comb, Total, ColumnSums;
    if rows == [] {
      EmptyColumnSums(|Bs|);
      CombOfZeros(g, ColumnSums(rows, |Bs|), Bs);
    } else {
      ColumnSumsNext(rows, |Bs|);
      HornerIsMultiScalar(g, rows[1..], Bs);
      RowIsComb(g, rows[0], Bs);
      CombHorner(g, rows[0], ColumnSums(rows[1..], |Bs|), ColumnSums(rows, |Bs|), Bs);
    }
  }

  lemma EmptyColumnSums(width: nat)
    ensures |ColumnSums([], width)| == width && forall i :: 0 <= i < width ==> ColumnSums([], width)[i] == 0
  {
    forall i | 0 <= i < width
      ensures ColumnSums([], width)[i] == 0
    {
      assert Column([], i) == [];
    }
  }

  // ----- the combined divisor -----

  /** The points as divisors. */
  function Ats<P(!new), F(!new), V(!new)>(c: Curve<P, F, V>, Ps: seq<P>): (vs: seq<V>)
    ensures |vs| == |Ps|
  {
    seq(|Ps|, i requires 0 <= i < |Ps| => c.at(Ps[i]))
  }

  function Negatives<P(!new)>(g: Group<P>, Ps: seq<P>): (ns: seq<P>)
    ensures |ns| == |Ps|
  {
    seq(|Ps|, i requires 0 <= i < |Ps| => g.neg(Ps[i]))
  }

  /** The multiplicity of the digit d for every scalar. */
  function Multiplicities(rows: seq<seq<int>>, width: nat, d: int): (ms: seq<int>)
    requires forall j :: 0 <= j < |rows| ==> |rows[j]| == width
  {
    seq(width, i requires 0 <= i < width => Multiplicity(Column(rows, i), d))
  }

  lemma MultiplicitiesNext(rows: seq<seq<int>>, width: nat, d: int)
    requires rows != [] && IsMatrix(rows, width)
    ensures IsMatrix(rows[1..], width)
    ensures IsNextSum(Multiplicities(rows, width, d), Occurrences(rows[0], d), Multiplicities(rows[1..], width, d))
  {
    forall i | 0 <= i < width
      ensures Multiplicities(rows, width, d)[i] == Occurrences(rows[0], d)[i] - 3 * Multiplicities(rows[1..], width, d)[i]
    {
      var column := Column(rows, i);
      MultiplicityIsSum(column, d);
      MultiplicityIsSum(Column(rows[1..], i), d);
      DigitSumHorner(Occurrences(column, d));
      assert Occurrences(column, d)[1..] == Occurrences(Column(rows[1..], i), d);
    }
  }

  /** A row's signed points as a divisor: positive digits at the points, negative ones at their negatives. */
  lemma {:induction false} RowDivisor<P(!new), F(!new), V(!new)>(c: Curve<P, F, V>, row: seq<int>, Bs: seq<P>)
    requires c.HasGroups() && |row| == |Bs| && AreDigits(row)
    ensures ZerosAt(c, SignedPoints(c.points, row, Bs)) == c.divisors.add(
      Comb(c.divisors, Occurrences(row, 1), Ats(c, Bs)), Comb(c.divisors, Occurrences(row, -1), Ats(c, Negatives(c.points, Bs))))
    decreases |row|
  {
    hide Group.IsGroup, Group.Mul, ZerosAt, Comb;
    var v := c.divisors;
    if row == [] {
      NoRowDivisor(c, Bs);
      Identity(v, v.zero);
    } else {
      var n := |row| - 1;
      var r, B := row[..n], Bs[..n];
      var p, m := c.at(Bs[n]), c.at(c.points.neg(Bs[n]));
      RowDivisor(c, r, B);
      RowSplits(c, row, Bs);
      AtNext(c, SignedPoints(c.points, r, B), Signed(c.points, row[n], Bs[n]));
      CombNext(v, Occurrences(r, 1), Ats(c, B), if row[n] == 1 then 1 else 0, p);
      CombNext(v, Occurrences(r, -1), Ats(c, Negatives(c.points, B)), if row[n] == -1 then 1 else 0, m);
      Groups.MulZero(v, p);
      Groups.MulZero(v, m);
      Identity(v, p);
      Identity(v, m);
      Identity(v, v.zero);
      Interchange(v, Comb(v, Occurrences(r, 1), Ats(c, B)), Comb(v, Occurrences(r, -1), Ats(c, Negatives(c.points, B))),
        if row[n] == 1 then p else v.zero, if row[n] == -1 then m else v.zero);
    }
  }

  lemma NoRowDivisor<P(!new), F(!new), V(!new)>(c: Curve<P, F, V>, Bs: seq<P>)
    requires Bs == []
    ensures ZerosAt(c, SignedPoints(c.points, [], Bs)) == c.divisors.zero
    ensures Comb(c.divisors, Occurrences([], 1), Ats(c, Bs)) == c.divisors.zero
    ensures Comb(c.divisors, Occurrences([], -1), Ats(c, Negatives(c.points, Bs))) == c.divisors.zero
  {
  }

  lemma RowSplits<P(!new), F(!new), V(!new)>(c: Curve<P, F, V>, row: seq<int>, Bs: seq<P>)
    requires |row| == |Bs| > 0
    ensures var n := |row| - 1;
      && SignedPoints(c.points, row, Bs) == SignedPoints(c.points, row[..n], Bs[..n]) + [Signed(c.points, row[n], Bs[n])]
      && Occurrences(row, 1) == Occurrences(row[..n], 1) + [if row[n] == 1 then 1 else 0]
      && Occurrences(row, -1) == Occurrences(row[..n], -1) + [if row[n] == -1 then 1 else 0]
      && Ats(c, Bs) == Ats(c, Bs[..n]) + [c.at(Bs[n])]
      && Ats(c, Negatives(c.points, Bs)) == Ats(c, Negatives(c.points, Bs[..n])) + [c.at(c.points.neg(Bs[n]))]
  {
  }

  /** Over all rows: every scalar contributes its positive multiplicity at its point and its
      negative multiplicity at the negative of its point. */
  lemma {:induction false} HornerDivisorIsMultiplicities<P(!new), F(!new), V(!new)>(c: Curve<P, F, V>, rows: seq<seq<int>>, Bs: seq<P>)
    requires c.HasGroups() && IsMatrix(rows, |Bs|)
    ensures HornerDivisor(c, rows, Bs) == c.divisors.add(
      Comb(c.divisors, Multiplicities(rows, |Bs|, 1), Ats(c, Bs)),
      Comb(c.divisors, Multiplicities(rows, |Bs|, -1), Ats(c, Negatives(c.points, Bs))))
  {
    hide Group.IsGroup, Group.Mul, ZerosAt, Comb, Multiplicities;
    var v, w, Bs' := c.divisors, |Bs|, Negatives(c.points, Bs);
    if rows == [] {
      NoMultiplicities(w);
      CombOfZeros(v, Multiplicities(rows, w, 1), Ats(c, Bs));
      CombOfZeros(v, Multiplicities(rows, w, -1), Ats(c, Bs'));
      Identity(v, v.zero);
    } else {
      MultiplicitiesNext(rows, w, 1);
      MultiplicitiesNext(rows, w, -1);
      HornerDivisorIsMultiplicities(c, rows[1..], Bs);
      RowDivisor(c, rows[0], Bs);
      var a, b := Comb(v, Multiplicities(rows[1..], w, 1), Ats(c, Bs)), Comb(v, Multiplicities(rows[1..], w, -1), Ats(c, Bs'));
      Groups.MulOfSum(v, -3, a, b);
      Interchange(v, v.Mul(-3, a), v.Mul(-3, b),
        Comb(v, Occurrences(rows[0], 1), Ats(c, Bs)), Comb(v, Occurrences(rows[0], -1), Ats(c, Bs')));
      CombHorner(v, Occurrences(rows[0], 1), Multiplicities(rows[1..], w, 1), Multiplicities(rows, w, 1), Ats(c, Bs));
      CombHorner(v, Occurrences(rows[0], -1), Multiplicities(rows[1..], w, -1), Multiplicities(rows, w, -1), Ats(c, Bs'));
    }
  }

  lemma NoMultiplicities(width: nat)
    ensures forall d :: |Multiplicities([], width, d)| == width && forall i :: 0 <= i < width ==> Multiplicities([], width, d)[i] == 0
  {
    forall d, i | 0 <= i < width
      ensures Multiplicities([], width, d)[i] == 0
    {
      assert Column([], i) == [];
    }
  }

  /** The combined divisor of the functions is -Q together with every point and its negative at
      multiplicities that differ by the point's scalar. */
  ghost predicate IsCertificate<P(!new), F(!new), V(!new)>(
      c: Curve<P, F, V>, Bs: seq<P>, scalars: seq<int>, Q: P, Ds: seq<FF<F>>, eps: seq<int>, ens: seq<int>)
  {
    && |eps| == |ens| == |scalars| == |Bs| && (forall i :: 0 <= i < |scalars| ==> eps[i] - ens[i] == scalars[i])
    && Combined(c, Ds) == c.divisors.add(c.at(c.points.neg(Q)),
        c.divisors.add(Comb(c.divisors, eps, Ats(c, Bs)), Comb(c.divisors, ens, Ats(c, Negatives(c.points, Bs)))))
  }

  /** zk_ecip_hint, computed in Python: digits of the scalars, then the functions. Q is the
      multi-scalar product and the functions certify it. */
  method ZkEcipHint<P(==, !new), F(==, !new), V(!new)>(c: Curve<P, F, V>, Bs: seq<P>, scalars: seq<int>)
    returns (res: Result<(P, seq<FF<F>>)>, ghost eps: seq<int>, ghost ens: seq<int>)
    requires c.HasDivisors()
    ensures res.Ok? <==> |Bs| == |scalars| > 0 && RowsFailure(c, DigitRows(scalars), Bs) == None
    ensures res.Err? ==> res.failure == if |Bs| != |scalars| then AssertionError else if Bs == [] then IndexError else ValueError
    ensures res.Ok? ==> res.value.0 == Comb(c.points, scalars, Bs)
    ensures res.Ok? ==> IsCertificate(c, Bs, scalars, res.value.0, res.value.1, eps, ens)
  {
    eps, ens := [], [];
    hide Curve.HasDivisors, Group.IsGroup, Comb, HornerPoint, HornerDivisor, Combined, ColumnSums, Multiplicities, Ats, Negatives, RowsFailure, DigitRows;
    if |Bs| != |scalars| {
      return Err(AssertionError), [], [];
    }
    if |Bs| == 0 {
      return Err(IndexError), [], [];
    }
    var digits := ConstructDigitVectors(scalars);
    var rows := digits.value;
    var dss := new seq<int>[|rows|](j requires 0 <= j < |rows| => rows[j]);
    assert dss[..] == rows;
    res := EcipFunctions(c, Bs, dss);
    FailureKind(c, rows, Bs);
    assert rows[0..] == rows;
    CurveFacts(c);
    HornerIsMultiScalar(c.points, rows, Bs);
    HornerDivisorIsMultiplicities(c, rows, Bs);
    SumsAreScalars(rows, scalars);
    eps, ens := Multiplicities(rows, |Bs|, 1), Multiplicities(rows, |Bs|, -1);
  }

  /** Rows with digits can only raise ValueError. */
  lemma {:induction false} FailureKind<P(!new), F(!new), V(!new)>(c: Curve<P, F, V>, rows: seq<seq<int>>, Bs: seq<P>)
    requires Bs != [] && forall j :: 0 <= j < |rows| ==> rows[j] != []
    ensures RowsFailure(c, rows, Bs).Some? ==> RowsFailure(c, rows, Bs) == Some(ValueError)
  {
    hide AvoidsTorsion, ConstantIsNonzero, RowList, HornerPoint;
    if rows != [] {
      FailureKind(c, rows[1..], Bs);
    }
  }

  // ----- a failing input -----

  /** [-P, P] has the divisor of the vertical line, whose constant coefficient is -x(P). */
  lemma VerticalConstant<P(!new), F(!new), V(!new)>(c: Curve<P, F, V>, A: P)
    requires c.HasDivisors() && A != c.points.zero && !TwoTorsion(c.points, A)
    ensures ConstantIsNonzero(c, [c.points.neg(A), A]) <==> c.x(A) != c.field.zero
  {
    hide Curve.HasDivisors, Curve.HasCoordinates, Group.IsGroup, Field.IsField, Red, Total, ConstantIsNonzero;
    CurveFacts(c);
    var f, n := c.field, c.points.neg(A);
    DivOfVertical(c, A);
    assert [] + [n] == [n] && [n] + [A] == [n, A];
    AtNext(c, [], n);
    AtNext(c, [n], A);
    AtNothing(c);
    Identity(c.divisors, c.at(n));
    Comm(c.divisors, c.at(n), c.at(A));
    ConstantsAgree(c, [n, A], c.Of([Vertical(c, A)]));
    ConstantOfList(f, c.W(), [Vertical(c, A)]);
    NegIsZero(f, c.x(A));
  }

  lemma NegIsZero<F(!new)>(f: Field<F>, u: F)
    requires f.IsField()
    ensures f.neg(u) == f.zero <==> u == f.zero
  {
    hide Field.IsField;
    AddNeg(f, u);
    AddZero(f, u);
    AddZero(f, f.zero);
    if u == f.zero {
      NegUnique(f, u, u);
    }
  }

  /** One point with scalar 1: the hint exists exactly where x(P) is not zero. On a curve whose b is
      a square, P = (0, y) makes normalize invert zero. */
  lemma SinglePointFails<P(!new), F(!new), V(!new)>(c: Curve<P, F, V>, A: P)
    requires c.HasDivisors() && A != c.points.zero && !TwoTorsion(c.points, A)
    ensures RowsFailure(c, DigitRows([1]), [A]) == if c.x(A) == c.field.zero then Some(ValueError) else None
  {
    hide Curve.HasDivisors, Curve.HasCoordinates, Group.IsGroup, Field.IsField, RowFailure, DigitRows;
    DigitsOfOne();
    OneRow(c, [1], [A]);
    SingleRowFails(c, A);
  }

  lemma OneRow<P(!new), F(!new), V(!new)>(c: Curve<P, F, V>, row: seq<int>, Bs: seq<P>)
    ensures RowsFailure(c, [row], Bs) == RowFailure(c, row, Bs, c.points.zero)
  {
    hide RowFailure;
    assert [row][1..] == [];
  }

  lemma SingleRowFails<P(!new), F(!new), V(!new)>(c: Curve<P, F, V>, A: P)
    requires c.HasDivisors() && A != c.points.zero && !TwoTorsion(c.points, A)
    ensures RowFailure(c, [1], [A], c.points.zero) == if c.x(A) == c.field.zero then Some(ValueError) else None
  {
    hide Curve.HasDivisors, Curve.HasCoordinates, Group.IsGroup, Field.IsField, ConstantIsNonzero, RowList, AvoidsTorsion, WithoutInfinity,
      NextPoint, SignedPoints;
    CurveFacts(c);
    var g, n := c.points, c.points.neg(A);
    ListOfRow(g, [1], [A], g.zero);
    SingleRow(g, A);
    NegOfNeg(g, A);
    NegOfNeg(g, n);
    TwoPointsAvoidTorsion(g, A);
    VerticalConstant(c, A);
  }

  lemma DigitsOfOne()
    ensures DigitRows([1]) == [[1]]
  {
    assert DigitsFrom(0) == [];
    assert Balanced(1) == 1 && -((1 - Balanced(1)) / 3) == 0;
    assert DigitsFrom(1) == [1];
    assert [1][..0] == [];
    assert MaxLength([]) == 0;
    assert MaxLength([1]) == 1;
    assert DigitRows([1])[0] == [1];
  }

  lemma SingleRow<P(!new)>(g: Group<P>, A: P)
    requires g.IsGroup() && A != g.zero
    ensures RowList(g, [1], [A], g.zero) == [g.neg(A), A]
  {
    hide Group.IsGroup, Group.Mul, Total, WithoutInfinity;
    var o, n := g.zero, g.neg(A);
    NegOfNeg(g, o);
    NegOfNeg(g, A);
    assert SignedPoints(g, [1], [A]) == [A];
    TotalOfOne(g, A);
    MulOfZero(g, -3);
    Identity(g, A);
    assert RowPoints(g, o, A, [A]) == [o, o, o, n, A];
    NothingToDrop(g);
    assert [] + [o] == [o] && [o] + [o] == [o, o] && [o, o] + [o] == [o, o, o] && [o, o, o] + [n] == [o, o, o, n] && [o, o, o, n] + [A] == [o, o, o, n, A];
    DropNext(g, [], o);
    DropNext(g, [o], o);
    DropNext(g, [o, o], o);
    DropNext(g, [o, o, o], n);
    DropNext(g, [o, o, o, n], A);
  }

  lemma TwoPointsAvoidTorsion<P(!new)>(g: Group<P>, A: P)
    requires g.neg(g.neg(A)) == A && !TwoTorsion(g, A)
    ensures A != g.zero && g.neg(A) != g.zero ==> AvoidsTorsion(g, [g.neg(A), A])
  {
    var Ps := [g.neg(A), A];
    assert |NextRound(g, Ps)| == 1;
    assert A != g.zero && g.neg(A) != g.zero ==> !TwoTorsion(g, Ps[0]) && !TwoTorsion(g, Ps[1]);
  }

  lemma SumsAreScalars(rows: seq<seq<int>>, scalars: seq<int>)
    requires IsMatrix(rows, |scalars|) && forall i :: 0 <= i < |scalars| ==> DigitSum(Column(rows, i)) == scalars[i]
    ensures ColumnSums(rows, |scalars|) == scalars
    ensures |Multiplicities(rows, |scalars|, 1)| == |Multiplicities(rows, |scalars|, -1)| == |scalars|
    ensures forall i :: 0 <= i < |scalars| ==>
      Multiplicities(rows, |scalars|, 1)[i] - Multiplicities(rows, |scalars|, -1)[i] == scalars[i]
  {
    forall i | 0 <= i < |scalars|
      ensures Multiplicity(Column(rows, i), 1) - Multiplicity(Column(rows, i), -1) == scalars[i]
    {
      MultiplicitiesDiffer(Column(rows, i));
    }
  }
}
