/** Abstract fields: the arithmetic the circuits and polynomials are written over. */
module Fields {
  import opened Groups

  datatype Field<!F(!new)> = Field(zero: F, one: F, add: (F, F) -> F, neg: F -> F, mul: (F, F) -> F, inv: F -> F) {
    function Sub(x: F, y: F): F {
      add(x, neg(y))
    }

    function Additive(): Group<F> {
      Group(zero, add, neg)
    }

    /** The field laws. They are stated under a marker, so that they are used one instance at a time. */
    ghost predicate IsField() {
      && (forall x, y, z {:trigger At(x, y, z)} :: At(x, y, z) ==>
          && add(add(x, y), z) == add(x, add(y, z)) && mul(mul(x, y), z) == mul(x, mul(y, z))
          && add(x, y) == add(y, x) && mul(x, y) == mul(y, x)
          && mul(x, add(y, z)) == add(mul(x, y), mul(x, z))
          && add(x, zero) == x && mul(x, one) == x
          && add(x, neg(x)) == zero && (x != zero ==> mul(x, inv(x)) == one))
      && one != zero
    }
  }

  ghost predicate At<F>(x: F, y: F, z: F) {
    true
  }

  lemma AdditiveGroup<F(!new)>(f: Field<F>)
    requires f.IsField()
    ensures f.Additive().IsGroup()
  {
    forall x, y, z
      ensures f.add(f.add(x, y), z) == f.add(x, f.add(y, z))
    {
      assert At(x, y, z);
    }
    forall x, y
      ensures f.add(x, y) == f.add(y, x)
    {
      assert At(x, y, x);
    }
    forall x
      ensures f.add(x, f.zero) == x && f.add(x, f.neg(x)) == f.zero
    {
      assert At(x, x, x);
    }
  }

  // ----- laws, one instance at a time -----

  lemma AddAssoc<F(!new)>(f: Field<F>, x: F, y: F, z: F)
    requires f.IsField()
    ensures f.add(f.add(x, y), z) == f.add(x, f.add(y, z))
  {
    assert At(x, y, z);
  }

  lemma AddComm<F(!new)>(f: Field<F>, x: F, y: F)
    requires f.IsField()
    ensures f.add(x, y) == f.add(y, x)
  {
    assert At(x, y, y);
  }

  lemma AddZero<F(!new)>(f: Field<F>, x: F)
    requires f.IsField()
    ensures f.add(x, f.zero) == x && f.add(f.zero, x) == x
  {
    assert At(x, f.zero, x);
  }

  lemma AddNeg<F(!new)>(f: Field<F>, x: F)
    requires f.IsField()
    ensures f.add(x, f.neg(x)) == f.zero && f.add(f.neg(x), x) == f.zero
  {
    assert At(x, f.neg(x), x);
  }

  lemma AddInterchange<F(!new)>(f: Field<F>, a: F, b: F, c: F, d: F)
    requires f.IsField()
    ensures f.add(f.add(a, b), f.add(c, d)) == f.add(f.add(a, c), f.add(b, d))
  {
    AdditiveGroup(f);
    Interchange(f.Additive(), a, b, c, d);
  }

  lemma SubThenAdd<F(!new)>(f: Field<F>, x: F, y: F)
    requires f.IsField()
    ensures f.add(y, f.Sub(x, y)) == x && f.add(f.Sub(x, y), y) == x
  {
    hide Field.IsField;
    AddAssoc(f, x, f.neg(y), y);
    AddNeg(f, y);
    AddZero(f, x);
    AddComm(f, y, f.Sub(x, y));
  }

  lemma MulAssoc<F(!new)>(f: Field<F>, x: F, y: F, z: F)
    requires f.IsField()
    ensures f.mul(f.mul(x, y), z) == f.mul(x, f.mul(y, z))
  {
    assert At(x, y, z);
  }

  lemma MulComm<F(!new)>(f: Field<F>, x: F, y: F)
    requires f.IsField()
    ensures f.mul(x, y) == f.mul(y, x)
  {
    assert At(x, y, x);
  }

  lemma MulOne<F(!new)>(f: Field<F>, x: F)
    requires f.IsField()
    ensures f.mul(x, f.one) == x && f.mul(f.one, x) == x
  {
    assert At(x, f.one, x);
  }

  lemma Distrib<F(!new)>(f: Field<F>, x: F, y: F, z: F)
    requires f.IsField()
    ensures f.mul(x, f.add(y, z)) == f.add(f.mul(x, y), f.mul(x, z))
    ensures f.mul(f.add(y, z), x) == f.add(f.mul(y, x), f.mul(z, x))
  {
    assert At(x, y, z);
    MulComm(f, x, f.add(y, z));
    MulComm(f, x, y);
    MulComm(f, x, z);
  }

  lemma MulInv<F(!new)>(f: Field<F>, x: F)
    requires f.IsField() && x != f.zero
    ensures f.mul(x, f.inv(x)) == f.one && f.mul(f.inv(x), x) == f.one
  {
    assert At(x, f.inv(x), x);
  }

  lemma MulZero<F(!new)>(f: Field<F>, x: F)
    requires f.IsField()
    ensures f.mul(x, f.zero) == f.zero && f.mul(f.zero, x) == f.zero
  {
    hide Field.IsField;
    var z := f.mul(x, f.zero);
    AddZero(f, f.zero);
    Distrib(f, x, f.zero, f.zero);
    AddAssoc(f, z, z, f.neg(z));
    AddNeg(f, z);
    AddZero(f, z);
    MulComm(f, x, f.zero);
  }

  lemma MulNeg<F(!new)>(f: Field<F>, x: F, y: F)
    requires f.IsField()
    ensures f.mul(x, f.neg(y)) == f.neg(f.mul(x, y))
  {
    hide Field.IsField;
    Distrib(f, x, y, f.neg(y));
    AddNeg(f, y);
    MulZero(f, x);
    NegUnique(f, f.mul(x, y), f.mul(x, f.neg(y)));
  }

  lemma NegUnique<F(!new)>(f: Field<F>, x: F, y: F)
    requires f.IsField() && f.add(x, y) == f.zero
    ensures y == f.neg(x)
  {
    AdditiveGroup(f);
    InverseIsUnique(f.Additive(), x, y);
  }

  lemma NoZeroDivisors<F(!new)>(f: Field<F>, x: F, y: F)
    requires f.IsField()
    ensures f.mul(x, y) == f.zero <==> x == f.zero || y == f.zero
  {
    hide Field.IsField;
    MulZero(f, x);
    MulZero(f, y);
    if x != f.zero && f.mul(x, y) == f.zero {
      MulInv(f, x);
      MulAssoc(f, f.inv(x), x, y);
      MulOne(f, y);
      MulZero(f, f.inv(x));
    }
  }
}
