/** Commutative groups, integer multiples, and linear combinations of points. */
module Groups {
  import opened IntMath

  datatype Group<!T(!new)> = Group(zero: T, add: (T, T) -> T, neg: T -> T) {
    ghost predicate IsGroup() {
      && (forall x, y, z :: add(add(x, y), z) == add(x, add(y, z)))
      && (forall x, y :: add(x, y) == add(y, x))
      && (forall x :: add(x, zero) == x)
      && (forall x :: add(x, neg(x)) == zero)
    }

    function Times(k: nat, x: T): T {
      if k == 0 then zero else add(Times(k - 1, x), x)
    }

    /** k*x for every integer k. */
    function Mul(k: int, x: T): T {
      if k >= 0 then Times(k, x) else neg(Times(-k, x))
    }
  }

  // ----- laws, one instance at a time -----

  lemma Assoc<T(!new)>(g: Group<T>, x: T, y: T, z: T)
    requires g.IsGroup()
    ensures g.add(g.add(x, y), z) == g.add(x, g.add(y, z))
  {
  }

  lemma Comm<T(!new)>(g: Group<T>, x: T, y: T)
    requires g.IsGroup()
    ensures g.add(x, y) == g.add(y, x)
  {
  }

  lemma Identity<T(!new)>(g: Group<T>, x: T)
    requires g.IsGroup()
    ensures g.add(x, g.zero) == x && g.add(g.zero, x) == x
  {
    Comm(g, x, g.zero);
  }

  lemma Inverse<T(!new)>(g: Group<T>, x: T)
    requires g.IsGroup()
    ensures g.add(x, g.neg(x)) == g.zero && g.add(g.neg(x), x) == g.zero
  {
    Comm(g, x, g.neg(x));
  }

  lemma Cancel<T(!new)>(g: Group<T>, x: T, y: T, z: T)
    requires g.IsGroup() && g.add(x, z) == g.add(y, z)
    ensures x == y
  {
    hide Group.IsGroup;
    Assoc(g, x, z, g.neg(z));
    Assoc(g, y, z, g.neg(z));
    Inverse(g, z);
    Identity(g, x);
    Identity(g, y);
  }

  lemma Interchange<T(!new)>(g: Group<T>, a: T, b: T, c: T, d: T)
    requires g.IsGroup()
    ensures g.add(g.add(a, b), g.add(c, d)) == g.add(g.add(a, c), g.add(b, d))
  {
    hide Group.IsGroup;
    calc {
      g.add(g.add(a, b), g.add(c, d));
      { Assoc(g, a, b, g.add(c, d)); }
      g.add(a, g.add(b, g.add(c, d)));
      { Assoc(g, b, c, d); Comm(g, b, c); Assoc(g, c, b, d); }
      g.add(a, g.add(c, g.add(b, d)));
      { Assoc(g, a, c, g.add(b, d)); }
      g.add(g.add(a, c), g.add(b, d));
    }
  }

  lemma InverseIsUnique<T(!new)>(g: Group<T>, x: T, y: T)
    requires g.IsGroup() && g.add(x, y) == g.zero
    ensures y == g.neg(x)
  {
    hide Group.IsGroup;
    Inverse(g, x);
    Comm(g, x, y);
    Comm(g, x, g.neg(x));
    Cancel(g, y, g.neg(x), x);
  }

  lemma NegOfSum<T(!new)>(g: Group<T>, x: T, y: T)
    requires g.IsGroup()
    ensures g.neg(g.add(x, y)) == g.add(g.neg(x), g.neg(y))
  {
    hide Group.IsGroup;
    Interchange(g, x, y, g.neg(x), g.neg(y));
    Inverse(g, x);
    Inverse(g, y);
    Identity(g, g.zero);
    InverseIsUnique(g, g.add(x, y), g.add(g.neg(x), g.neg(y)));
  }

  lemma NegOfNeg<T(!new)>(g: Group<T>, x: T)
    requires g.IsGroup()
    ensures g.neg(g.neg(x)) == x && g.neg(g.zero) == g.zero
  {
    hide Group.IsGroup;
    Inverse(g, x);
    InverseIsUnique(g, g.neg(x), x);
    Identity(g, g.zero);
    InverseIsUnique(g, g.zero, g.zero);
  }

  // ----- integer multiples -----

  lemma MulSucc<T(!new)>(g: Group<T>, k: int, x: T)
    requires g.IsGroup()
    ensures g.Mul(k + 1, x) == g.add(g.Mul(k, x), x)
  {
    hide Group.IsGroup;
    if k < 0 {
      var t := g.Times(-k - 1, x);
      assert g.Times(-k, x) == g.add(t, x);
      NegOfSum(g, t, x);
      Assoc(g, g.neg(t), g.neg(x), x);
      Inverse(g, x);
      Identity(g, g.neg(t));
      NegOfNeg(g, x);
    }
  }

  lemma {:induction false} MulAdds<T(!new)>(g: Group<T>, j: int, k: int, x: T)
    requires g.IsGroup()
    ensures g.Mul(j + k, x) == g.add(g.Mul(j, x), g.Mul(k, x))
    decreases Abs(k)
  {
    hide Group.IsGroup, Group.Mul;
    if k == 0 {
      MulZero(g, x);
      Identity(g, g.Mul(j, x));
    } else if k > 0 {
      MulAdds(g, j, k - 1, x);
      MulSucc(g, k - 1, x);
      MulSucc(g, j + k - 1, x);
      Assoc(g, g.Mul(j, x), g.Mul(k - 1, x), x);
    } else {
      MulAdds(g, j, k + 1, x);
      MulSucc(g, k, x);
      MulSucc(g, j + k, x);
      Assoc(g, g.Mul(j, x), g.Mul(k, x), x);
      Cancel(g, g.Mul(j + k, x), g.add(g.Mul(j, x), g.Mul(k, x)), x);
    }
  }

  lemma MulZero<T(!new)>(g: Group<T>, x: T)
    requires g.IsGroup()
    ensures g.Mul(0, x) == g.zero
    ensures g.Mul(1, x) == x
    ensures g.Mul(-1, x) == g.neg(x)
  {
    assert g.Times(0, x) == g.zero;
    assert g.Times(1, x) == g.add(g.zero, x);
    Identity(g, x);
  }

  lemma MulNeg<T(!new)>(g: Group<T>, k: int, x: T)
    requires g.IsGroup()
    ensures g.Mul(-k, x) == g.neg(g.Mul(k, x))
  {
    hide Group.IsGroup;
    NegOfNeg(g, g.Times(Abs(k), x));
    if k == 0 {
      NegOfNeg(g, x);
    }
  }

  lemma {:induction false} MulOfSum<T(!new)>(g: Group<T>, k: int, x: T, y: T)
    requires g.IsGroup()
    ensures g.Mul(k, g.add(x, y)) == g.add(g.Mul(k, x), g.Mul(k, y))
    decreases Abs(k), k < 0
  {
    hide Group.IsGroup, Group.Mul;
    if k == 0 {
      MulZero(g, x);
      MulZero(g, y);
      MulZero(g, g.add(x, y));
      Identity(g, g.zero);
    } else if k > 0 {
      MulOfSum(g, k - 1, x, y);
      MulSucc(g, k - 1, x);
      MulSucc(g, k - 1, y);
      MulSucc(g, k - 1, g.add(x, y));
      Interchange(g, g.Mul(k - 1, x), g.Mul(k - 1, y), x, y);
    } else {
      MulOfSum(g, -k, x, y);
      MulNeg(g, -k, x);
      MulNeg(g, -k, y);
      MulNeg(g, -k, g.add(x, y));
      NegOfSum(g, g.Mul(-k, x), g.Mul(-k, y));
    }
  }

  lemma {:induction false} MulOfMul<T(!new)>(g: Group<T>, j: int, k: int, x: T)
    requires g.IsGroup()
    ensures g.Mul(j, g.Mul(k, x)) == g.Mul(j * k, x)
    decreases Abs(j), j < 0
  {
    hide Group.IsGroup, Group.Mul;
    if j == 0 {
      MulZero(g, x);
      MulZero(g, g.Mul(k, x));
    } else if j > 0 {
      MulOfMul(g, j - 1, k, x);
      MulSucc(g, j - 1, g.Mul(k, x));
      MulAdds(g, (j - 1) * k, k, x);
      assert (j - 1) * k + k == j * k;
    } else {
      MulOfMul(g, -j, k, x);
      MulNeg(g, -j, g.Mul(k, x));
      MulNeg(g, -j * k, x);
      assert -(-j * k) == j * k;
    }
  }

  lemma MulOfZero<T(!new)>(g: Group<T>, k: int)
    requires g.IsGroup()
    ensures g.Mul(k, g.zero) == g.zero
  {
    hide Group.IsGroup, Group.Mul;
    MulZero(g, g.zero);
    MulOfMul(g, k, 0, g.zero);
  }

  // ----- linear combinations -----

  function Comb<T(!new)>(g: Group<T>, coeffs: seq<int>, pts: seq<T>): T
    requires |coeffs| == |pts|
  {
    if coeffs == [] then g.zero
    else g.add(g.Mul(coeffs[0], pts[0]), Comb(g, coeffs[1..], pts[1..]))
  }

  function Plus(a: seq<int>, b: seq<int>): (c: seq<int>)
    requires |a| == |b|
    ensures |c| == |a|
    ensures forall i :: 0 <= i < |a| ==> c[i] == a[i] + b[i]
  {
    if a == [] then [] else [a[0] + b[0]] + Plus(a[1..], b[1..])
  }

  function Negated(a: seq<int>): (c: seq<int>)
    ensures |c| == |a|
    ensures forall i :: 0 <= i < |a| ==> c[i] == -a[i]
  {
    if a == [] then [] else [-a[0]] + Negated(a[1..])
  }

  lemma {:induction false} CombAdds<T(!new)>(g: Group<T>, a: seq<int>, b: seq<int>, pts: seq<T>)
    requires g.IsGroup() && |a| == |b| == |pts|
    ensures g.add(Comb(g, a, pts), Comb(g, b, pts)) == Comb(g, Plus(a, b), pts)
  {
    hide Group.IsGroup, Group.Mul;
    if a == [] {
      Identity(g, g.zero);
    } else {
      CombAdds(g, a[1..], b[1..], pts[1..]);
      MulAdds(g, a[0], b[0], pts[0]);
      Interchange(g, g.Mul(a[0], pts[0]), Comb(g, a[1..], pts[1..]), g.Mul(b[0], pts[0]), Comb(g, b[1..], pts[1..]));
      assert Plus(a, b)[1..] == Plus(a[1..], b[1..]);
    }
  }

  lemma {:induction false} CombNegates<T(!new)>(g: Group<T>, a: seq<int>, pts: seq<T>)
    requires g.IsGroup() && |a| == |pts|
    ensures g.neg(Comb(g, a, pts)) == Comb(g, Negated(a), pts)
  {
    hide Group.IsGroup, Group.Mul;
    if a == [] {
      NegOfNeg(g, g.zero);
    } else {
      CombNegates(g, a[1..], pts[1..]);
      MulNeg(g, a[0], pts[0]);
      NegOfSum(g, g.Mul(a[0], pts[0]), Comb(g, a[1..], pts[1..]));
      assert Negated(a)[1..] == Negated(a[1..]);
    }
  }

  ghost predicate IsSum(c: seq<int>, a: seq<int>, b: seq<int>) {
    |c| == |a| == |b| && forall i :: 0 <= i < |a| ==> c[i] == a[i] + b[i]
  }

  lemma AddCombs<T(!new)>(g: Group<T>, a: seq<int>, b: seq<int>, c: seq<int>, pts: seq<T>)
    requires g.IsGroup() && |pts| == |a| && IsSum(c, a, b)
    ensures g.add(Comb(g, a, pts), Comb(g, b, pts)) == Comb(g, c, pts)
  {
    hide Group.IsGroup, Comb, Plus;
    CombAdds(g, a, b, pts);
    assert c == Plus(a, b);
  }

  lemma NegComb<T(!new)>(g: Group<T>, a: seq<int>, c: seq<int>, pts: seq<T>)
    requires g.IsGroup() && |pts| == |a| == |c| && forall i :: 0 <= i < |a| ==> c[i] == -a[i]
    ensures g.neg(Comb(g, a, pts)) == Comb(g, c, pts)
  {
    hide Group.IsGroup, Comb, Negated;
    CombNegates(g, a, pts);
    assert c == Negated(a);
  }

  function Unit(n: nat, i: nat): (u: seq<int>)
    requires i < n
    ensures |u| == n && u[i] == 1 && forall j :: 0 <= j < n && j != i ==> u[j] == 0
  {
    seq(n, j => if i == j then 1 else 0)
  }

  lemma {:induction false} CombOfZeros<T(!new)>(g: Group<T>, a: seq<int>, pts: seq<T>)
    requires g.IsGroup() && |pts| == |a| && forall i :: 0 <= i < |a| ==> a[i] == 0
    ensures Comb(g, a, pts) == g.zero
  {
    hide Group.IsGroup, Group.Mul;
    if a != [] {
      MulZero(g, pts[0]);
      CombOfZeros(g, a[1..], pts[1..]);
      Identity(g, g.zero);
    }
  }

  lemma {:induction false} CombOfUnit<T(!new)>(g: Group<T>, i: nat, pts: seq<T>)
    requires g.IsGroup() && i < |pts|
    ensures Comb(g, Unit(|pts|, i), pts) == pts[i]
  {
    hide Group.IsGroup, Group.Mul;
    var u := Unit(|pts|, i);
    MulZero(g, pts[0]);
    if i == 0 {
      CombOfZeros(g, u[1..], pts[1..]);
      Identity(g, pts[0]);
    } else {
      CombOfUnit(g, i - 1, pts[1..]);
      assert u[1..] == Unit(|pts| - 1, i - 1);
      Identity(g, pts[i]);
    }
  }

  lemma UnitComb<T(!new)>(g: Group<T>, i: nat, u: seq<int>, pts: seq<T>)
    requires g.IsGroup() && i < |pts| == |u|
    requires u[i] == 1 && forall j :: 0 <= j < |u| && j != i ==> u[j] == 0
    ensures Comb(g, u, pts) == pts[i]
  {
    hide Group.IsGroup, Comb, Unit;
    CombOfUnit(g, i, pts);
    assert u == Unit(|pts|, i);
  }

  lemma DoubleAdd<T(!new)>(g: Group<T>, acc: T, t: T, a: seq<int>, b: seq<int>, c: seq<int>, pts: seq<T>)
    requires g.IsGroup() && |a| == |b| == |c| == |pts|
    requires acc == Comb(g, a, pts) && t == Comb(g, b, pts)
    requires forall i :: 0 <= i < |a| ==> c[i] == 2 * a[i] + b[i]
    ensures g.add(g.add(acc, acc), t) == Comb(g, c, pts)
  {
    hide Group.IsGroup, Comb;
    var d := seq(|a|, i requires 0 <= i < |a| => 2 * a[i]);
    AddCombs(g, a, a, d, pts);
    AddCombs(g, d, b, c, pts);
  }

  // ----- sums -----

  function Total<T(!new)>(g: Group<T>, s: seq<T>): T {
    if s == [] then g.zero else g.add(Total(g, s[..|s| - 1]), s[|s| - 1])
  }

  lemma TotalNext<T(!new)>(g: Group<T>, s: seq<T>, x: T)
    ensures Total(g, s + [x]) == g.add(Total(g, s), x)
  {
    assert (s + [x])[..|s|] == s;
  }

  lemma {:induction false} TotalOfConcat<T(!new)>(g: Group<T>, a: seq<T>, b: seq<T>)
    requires g.IsGroup()
    ensures Total(g, a + b) == g.add(Total(g, a), Total(g, b))
    decreases |b|
  {
    hide Group.IsGroup;
    if b == [] {
      assert a + b == a;
      Identity(g, Total(g, a));
    } else {
      var init, last := b[..|b| - 1], b[|b| - 1];
      assert a + b == (a + init) + [last];
      TotalNext(g, a + init, last);
      TotalOfConcat(g, a, init);
      Assoc(g, Total(g, a), Total(g, init), last);
    }
  }

  lemma TotalOfOne<T(!new)>(g: Group<T>, x: T)
    requires g.IsGroup()
    ensures Total(g, [x]) == x
  {
    assert [x][..0] == [];
    Identity(g, x);
  }
}
