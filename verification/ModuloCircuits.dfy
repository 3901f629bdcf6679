/** Recording arithmetic as builtin instructions over a value segment. */
module ModuloCircuits {
  import opened Fields
  import opened Polynomials
  import opened Results
  import opened ValueSegments

  datatype Mode = CairoZero | CairoOne

  /** What a slot was written for: a value supplied from outside or one operation,
      with the offsets it was called on. */
  datatype Call =
    | Supplied
    | AddOf(a: int, b: int)
    | SubOf(a: int, b: int)
    | MulOf(a: int, b: int)
    | InvOf(a: int)
    | DivOf(a: int, b: int)

  function Operands(call: Call): seq<int> {
    match call
    case Supplied => []
    case AddOf(a, b) => [a, b]
    case SubOf(a, b) => [a, b]
    case MulOf(a, b) => [a, b]
    case InvOf(a) => [a]
    case DivOf(a, b) => [a, b]
  }

  /** The builtin instruction an operation leaves in slot `own`. A difference and a quotient
      are checked backwards: b + own == a and b * own == a. */
  function Encode(call: Call, own: int): Option<Instruction> {
    match call
    case Supplied => None
    case AddOf(a, b) => Some(Instruction(ADD, Some(a), Some(b), Some(own)))
    case SubOf(a, b) => Some(Instruction(ADD, Some(b), Some(own), Some(a)))
    case MulOf(a, b) => Some(Instruction(MUL, Some(a), Some(b), Some(own)))
    case InvOf(a) => Some(Instruction(MUL, Some(a), None, None))
    case DivOf(a, b) => Some(Instruction(MUL, Some(b), Some(own), Some(a)))
  }

  /** The operation's result for given operand values; an inverse of zero has none. */
  function Outcome<F(==, !new)>(f: Field<F>, call: Call, env: map<int, F>): Option<F>
    requires forall o :: o in Operands(call) ==> o in env
  {
    match call
    case Supplied => None
    case AddOf(a, b) => assert a == Operands(call)[0] && b == Operands(call)[1]; Some(f.add(env[a], env[b]))
    case SubOf(a, b) => assert a == Operands(call)[0] && b == Operands(call)[1]; Some(f.Sub(env[a], env[b]))
    case MulOf(a, b) => assert a == Operands(call)[0] && b == Operands(call)[1]; Some(f.mul(env[a], env[b]))
    case InvOf(a) => assert a == Operands(call)[0]; if env[a] == f.zero then None else Some(f.inv(env[a]))
    case DivOf(a, b) =>
      assert a == Operands(call)[0] && b == Operands(call)[1];
      if env[b] == f.zero then None else Some(f.mul(env[a], f.inv(env[b])))
  }

  predicate InMode(call: Call, mode: Mode) {
    match mode
    case CairoZero => !call.InvOf?
    case CairoOne => !call.DivOf?
  }

  function ValuesOf<F>(segment: map<int, Item<F>>): map<int, F> {
    map o | o in segment :: segment[o].value
  }

  /** Slot `own` was written by `call`: right source, right instruction, earlier operands, right value. */
  ghost predicate IsJustified<F(!new)>(f: Field<F>, mode: Mode, segment: map<int, Item<F>>, own: int, call: Call) {
    && own in segment && InMode(call, mode)
    && (call.Supplied? <==> segment[own].source != BUILTIN)
    && segment[own].instruction == Encode(call, own)
    && (forall o :: o in Operands(call) ==> o in segment && o < own)
    && (!call.Supplied? ==> Outcome(f, call, ValuesOf(segment)) == Some(segment[own].value))
  }

  ghost predicate IsCircuit<F(!new)>(f: Field<F>, mode: Mode, segment: map<int, Item<F>>, calls: map<int, Call>) {
    && calls.Keys == segment.Keys
    && forall o :: o in calls ==> IsJustified(f, mode, segment, o, calls[o])
  }

  ghost predicate Grows<F(!new)>(before: map<int, Item<F>>, after: map<int, Item<F>>) {
    forall o :: o in before ==> o in after && after[o] == before[o]
  }

  predicate IsElement<F(==)>(segment: map<int, Item<F>>, e: Element<F>) {
    e.offset in segment && segment[e.offset].value == e.value
  }

  lemma JustificationStays<F(!new)>(
      f: Field<F>, mode: Mode, before: map<int, Item<F>>, after: map<int, Item<F>>, own: int, call: Call)
    requires Grows(before, after) && IsJustified(f, mode, before, own, call)
    ensures IsJustified(f, mode, after, own, call)
  {
    OutcomeStays(f, call, ValuesOf(before), ValuesOf(after));
  }

  lemma CircuitGrows<F(!new)>(
      f: Field<F>, mode: Mode, before: map<int, Item<F>>, calls: map<int, Call>, own: int, item: Item<F>, call: Call)
    requires IsCircuit(f, mode, before, calls) && own !in before
    requires IsJustified(f, mode, before[own := item], own, call)
    ensures IsCircuit(f, mode, before[own := item], calls[own := call])
  {
    hide IsJustified;
    forall o | o in calls
      ensures IsJustified(f, mode, before[own := item], o, calls[o])
    {
      JustificationStays(f, mode, before, before[own := item], o, calls[o]);
    }
  }

  /** A fresh slot written for an operation on existing slots extends the circuit. */
  lemma NewSlot<F(!new)>(
      f: Field<F>, mode: Mode, before: map<int, Item<F>>, calls: map<int, Call>, own: int, item: Item<F>, call: Call)
    requires IsCircuit(f, mode, before, calls) && forall o :: o in before ==> o < own
    requires item.instruction == Encode(call, own) && InMode(call, mode) && (call.Supplied? <==> item.source != BUILTIN)
    requires forall o :: o in Operands(call) ==> o in before
    requires !call.Supplied? ==> Outcome(f, call, ValuesOf(before)) == Some(item.value)
    ensures IsCircuit(f, mode, before[own := item], calls[own := call])
    ensures Grows(before, before[own := item])
  {
    hide IsCircuit;
    OutcomeStays(f, call, ValuesOf(before), ValuesOf(before[own := item]));
    CircuitGrows(f, mode, before, calls, own, item, call);
  }

  lemma OutcomeStays<F(!new)>(f: Field<F>, call: Call, before: map<int, F>, after: map<int, F>)
    requires forall o :: o in Operands(call) ==> o in before && o in after && before[o] == after[o]
    ensures Outcome(f, call, before) == Outcome(f, call, after)
  {
    match call
    case Supplied =>
    case InvOf(a) => assert a == Operands(call)[0];
    case AddOf(a, b) => assert a == Operands(call)[0] && b == Operands(call)[1];
    case SubOf(a, b) => assert a == Operands(call)[0] && b == Operands(call)[1];
    case MulOf(a, b) => assert a == Operands(call)[0] && b == Operands(call)[1];
    case DivOf(a, b) => assert a == Operands(call)[0] && b == Operands(call)[1];
  }

  // ----- polynomials with circuit elements as coefficients -----

  /** An absent element stands for zero. */
  function ValueOr0<F(!new)>(f: Field<F>, e: Option<Element<F>>): F {
    if e.None? then f.zero else e.value.value
  }

  function Coefficients<F(!new)>(f: Field<F>, poly: seq<Option<Element<F>>>): seq<F> {
    seq(|poly|, i requires 0 <= i < |poly| => ValueOr0(f, poly[i]))
  }

  function Values<F>(es: seq<Element<F>>): seq<F> {
    seq(|es|, i requires 0 <= i < |es| => es[i].value)
  }

  ghost predicate AreElements<F(!new)>(segment: map<int, Item<F>>, es: seq<Element<F>>) {
    forall i :: 0 <= i < |es| ==> IsElement(segment, es[i])
  }

  ghost predicate AreOptional<F(!new)>(segment: map<int, Item<F>>, es: seq<Option<Element<F>>>) {
    forall i :: 0 <= i < |es| ==> es[i].Some? ==> IsElement(segment, es[i].value)
  }

  /** powers[i] is z^(i+1). */
  ghost predicate ArePowers<F(!new)>(f: Field<F>, z: F, powers: seq<Element<F>>) {
    forall i :: 0 <= i < |powers| ==> powers[i].value == Power(f, z, i + 1)
  }

  ghost predicate AreConstants<F(!new)>(segment: map<int, Item<F>>, constants: map<F, Element<F>>) {
    forall v :: v in constants ==> constants[v].value == v && IsElement(segment, constants[v])
  }

  lemma ConstantsStay<F(!new)>(before: map<int, Item<F>>, after: map<int, Item<F>>, constants: map<F, Element<F>>)
    requires Grows(before, after) && AreConstants(before, constants)
    ensures AreConstants(after, constants)
  {
  }

  lemma KeysAreBelowEnd<F>(log: seq<Entry<F>>)
    requires Tiled(log)
    ensures forall o :: o in MapOf(log) ==> o < EndOf(log)
  {
    forall o | o in MapOf(log)
      ensures o < EndOf(log)
    {
      KeysBelowEnd(log, o);
    }
  }

  // ----- the recorder -----

  class ModuloCircuit<F(==, !new)> {
    const field: Field<F>
    const compilationMode: Mode
    var valuesSegment: ValueSegment<F>
    var constants: map<F, Element<F>>

    ghost var calls: map<int, Call>  // what each slot was written for

    ghost predicate Valid()
      reads this, valuesSegment
    {
      && field.IsField() && valuesSegment.Valid() && valuesSegment.IsLinked()
      && IsCircuit(field, compilationMode, valuesSegment.segment, calls)
      && AreConstants(valuesSegment.segment, constants)
    }

    constructor (field: Field<F>, compilationMode: Mode)
      requires field.IsField()
      ensures Valid() && fresh(valuesSegment) && valuesSegment.log == [] && calls == map[] && constants == map[]
      ensures this.field == field && this.compilationMode == compilationMode
    {
      this.field, this.compilationMode := field, compilationMode;
      valuesSegment := new ValueSegment<F>();
      constants, calls := map[], map[];
    }

    /** write_element: a new slot, recorded as written for `call`. */
    method WriteElement(value: F, source: WriteSource, instruction: Option<Instruction>, ghost call: Call)
      returns (e: Element<F>)
      requires Valid()
      requires instruction == Encode(call, EndOf(valuesSegment.log)) && InMode(call, compilationMode)
      requires call.Supplied? <==> source != BUILTIN
      requires forall o :: o in Operands(call) ==> o in valuesSegment.segment
      requires !call.Supplied? ==> Outcome(field, call, ValuesOf(valuesSegment.segment)) == Some(value)
      modifies this`calls, valuesSegment`segment, valuesSegment`stacks, valuesSegment`offset, valuesSegment`log
      ensures Valid()
      ensures valuesSegment.log == old(valuesSegment.log) + [Entry(e.offset, Item(value, source, instruction))]
      ensures calls == old(calls)[e.offset := call]
      ensures Grows(old(valuesSegment.segment), valuesSegment.segment)
      ensures e == Element(value, old(EndOf(valuesSegment.log))) && IsElement(valuesSegment.segment, e)
    {
      hide IsCircuit, Outcome, Encode, Tiled, MapOf, Stack, EndOf, Grows, InMode, AreLinked, AreConstants;
      ghost var before := valuesSegment.segment;
      KeysAreBelowEnd(valuesSegment.log);
      var at := valuesSegment.WriteToSegment(Item(value, source, instruction));
      Append(old(valuesSegment.log), Entry(at, Item(value, source, instruction)));
      NewSlot(field, compilationMode, before, calls, at, Item(value, source, instruction), call);
      calls := calls[at := call];
      LinksStay(old(valuesSegment.log), Entry(at, Item(value, source, instruction)), valuesSegment.assertEqInstructions, valuesSegment.output);
      ConstantsStay(before, valuesSegment.segment, constants);
      return Element(value, at);
    }
 
    function Segment(): map<int, Item<F>>
      reads this, valuesSegment
    {
      valuesSegment.segment
    }

    /** Exactly one slot was added, by `call`, and it is `e`. */
    twostate predicate Wrote(call: Call, source: WriteSource, e: Element<F>)
      reads this, valuesSegment
    {
      && valuesSegment == old(valuesSegment) && e.offset == old(EndOf(valuesSegment.log))
      && valuesSegment.log == old(valuesSegment.log) + [Entry(e.offset, Item(e.value, source, Encode(call, e.offset)))]
      && calls == old(calls)[e.offset := call]
      && Grows(old(valuesSegment.segment), valuesSegment.segment) && IsElement(valuesSegment.segment, e)
    }

    /** set_or_get_constant: each constant is written at most once. */
    method SetOrGetConstant(value: F) returns (e: Element<F>)
      requires Valid()
      modifies this`calls, this`constants, valuesSegment`segment, valuesSegment`stacks, valuesSegment`offset, valuesSegment`log
      ensures Valid() && e.value == value && IsElement(Segment(), e) && Grows(old(Segment()), Segment())
      ensures constants == old(constants)[value := e]
      ensures value in old(constants) ==> e == old(constants)[value] && valuesSegment.log == old(valuesSegment.log) && calls == old(calls)
      ensures value !in old(constants) ==> Wrote(Supplied, CONSTANT, e)
    {
      hide Field.IsField, IsCircuit, MapOf, Tiled, Stack, EndOf, AreLinked, ValueSegment.Valid;
      if value in constants {
        assert constants == constants[value := constants[value]];
        return constants[value];
      }
      e := WriteElement(value, CONSTANT, None, Supplied);
      constants := constants[value := e];
    }

    method AddElements(a: Element<F>, b: Element<F>) returns (r: Element<F>)
      requires Valid() && IsElement(Segment(), a) && IsElement(Segment(), b)
      modifies this`calls, valuesSegment`segment, valuesSegment`stacks, valuesSegment`offset, valuesSegment`log
      ensures Valid() && r.value == field.add(a.value, b.value) && Wrote(AddOf(a.offset, b.offset), BUILTIN, r)
    {
      hide IsCircuit, MapOf, Tiled, Stack, EndOf, AreConstants, AreLinked;
      var instruction := Instruction(ADD, Some(a.offset), Some(b.offset), Some(valuesSegment.offset));
      r := WriteElement(field.add(a.value, b.value), BUILTIN, Some(instruction), AddOf(a.offset, b.offset));
    }

    /** add: an absent summand is skipped, two absent ones are an error. */
    method Add(a: Option<Element<F>>, b: Option<Element<F>>) returns (res: Result<Element<F>>)
      requires Valid()
      requires a.Some? ==> IsElement(Segment(), a.value)
      requires b.Some? ==> IsElement(Segment(), b.value)
      modifies this`calls, valuesSegment`segment, valuesSegment`stacks, valuesSegment`offset, valuesSegment`log
      ensures Valid() && (res.Err? <==> a.None? && b.None?) && (res.Err? ==> res.failure == AssertionError)
      ensures res.Ok? ==> IsElement(Segment(), res.value) && Grows(old(Segment()), Segment())
      ensures res.Ok? ==> res.value.value == field.add(ValueOr0(field, a), ValueOr0(field, b))
      ensures a.Some? && b.Some? ==> Wrote(AddOf(a.value.offset, b.value.offset), BUILTIN, res.value)
      ensures a.None? || b.None? ==> valuesSegment.log == old(valuesSegment.log) && calls == old(calls)
    {
      hide IsCircuit, MapOf, Tiled, Stack, EndOf, AreConstants, AreLinked;
      if a.None? && b.Some? {
        AddZero(field, b.value.value);
        return Ok(b.value);
      } else if b.None? && a.Some? {
        AddZero(field, a.value.value);
        return Ok(a.value);
      } else if a.None? {
        return Err(AssertionError);
      }
      var r := AddElements(a.value, b.value);
      return Ok(r);
    }

    method MulElements(a: Element<F>, b: Element<F>) returns (r: Element<F>)
      requires Valid() && IsElement(Segment(), a) && IsElement(Segment(), b)
      modifies this`calls, valuesSegment`segment, valuesSegment`stacks, valuesSegment`offset, valuesSegment`log
      ensures Valid() && r.value == field.mul(a.value, b.value) && Wrote(MulOf(a.offset, b.offset), BUILTIN, r)
    {
      hide IsCircuit, MapOf, Tiled, Stack, EndOf, AreConstants, AreLinked;
      var instruction := Instruction(MUL, Some(a.offset), Some(b.offset), Some(valuesSegment.offset));
      r := WriteElement(field.mul(a.value, b.value), BUILTIN, Some(instruction), MulOf(a.offset, b.offset));
    }

    /** mul: an absent factor makes the constant zero, two absent ones are an error. */
    method Mul(a: Option<Element<F>>, b: Option<Element<F>>) returns (res: Result<Element<F>>)
      requires Valid()
      requires a.Some? ==> IsElement(Segment(), a.value)
      requires b.Some? ==> IsElement(Segment(), b.value)
      modifies this`calls, this`constants, valuesSegment`segment, valuesSegment`stacks, valuesSegment`offset, valuesSegment`log
      ensures Valid() && (res.Err? <==> a.None? && b.None?) && (res.Err? ==> res.failure == AssertionError)
      ensures res.Ok? ==> IsElement(Segment(), res.value) && Grows(old(Segment()), Segment())
      ensures res.Ok? ==> res.value.value == field.mul(ValueOr0(field, a), ValueOr0(field, b))
      ensures a.Some? && b.Some? ==> Wrote(MulOf(a.value.offset, b.value.offset), BUILTIN, res.value) && constants == old(constants)
      ensures a.None? != b.None? ==> constants == old(constants)[field.zero := res.value]
    {
      hide IsCircuit, MapOf, Tiled, Stack, EndOf, AreConstants, AreLinked;
      if a.None? && b.None? {
        return Err(AssertionError);
      } else if a.None? || b.None? {
        var zero := SetOrGetConstant(field.zero);
        MulZero(field, if a.None? then b.value.value else a.value.value);
        return Ok(zero);
      }
      var r := MulElements(a.value, b.value);
      return Ok(r);
    }

    /** sub: the recorded check is b + r == a. */
    method Sub(a: Element<F>, b: Element<F>) returns (r: Element<F>)
      requires Valid() && IsElement(Segment(), a) && IsElement(Segment(), b)
      modifies this`calls, valuesSegment`segment, valuesSegment`stacks, valuesSegment`offset, valuesSegment`log
      ensures Valid() && field.add(r.value, b.value) == a.value && Wrote(SubOf(a.offset, b.offset), BUILTIN, r)
    {
      hide IsCircuit, MapOf, Tiled, Stack, EndOf, AreConstants, AreLinked;
      var instruction := Instruction(ADD, Some(b.offset), Some(valuesSegment.offset), Some(a.offset));
      r := WriteElement(field.Sub(a.value, b.value), BUILTIN, Some(instruction), SubOf(a.offset, b.offset));
      SubThenAdd(field, a.value, b.value);
    }

    /** neg: zero minus the element. */
    method Neg(a: Element<F>) returns (r: Element<F>)
      requires Valid() && IsElement(Segment(), a)
      modifies this`calls, this`constants, valuesSegment`segment, valuesSegment`stacks, valuesSegment`offset, valuesSegment`log
      ensures Valid() && r.value == field.neg(a.value) && IsElement(Segment(), r) && Grows(old(Segment()), Segment())
      ensures field.zero in constants && calls[r.offset] == SubOf(constants[field.zero].offset, a.offset)
    {
      hide IsCircuit, MapOf, Tiled, Stack, EndOf, AreConstants, AreLinked;
      var zero := SetOrGetConstant(field.zero);
      r := Sub(zero, a);
      AddComm(field, r.value, a.value);
      NegUnique(field, a.value, r.value);
    }

    /** inv: in the older mode checked as a * r == 1, in the newer one left open for relocation. */
    method Inv(a: Element<F>) returns (res: Result<Element<F>>)
      requires Valid() && IsElement(Segment(), a)
      modifies this`calls, this`constants, valuesSegment`segment, valuesSegment`stacks, valuesSegment`offset, valuesSegment`log
      ensures Valid() && Grows(old(Segment()), Segment())
      ensures (res.Err? <==> a.value == field.zero) && (res.Err? ==> res.failure == ValueError)
      ensures res.Ok? ==> field.mul(a.value, res.value.value) == field.one && IsElement(Segment(), res.value)
      ensures res.Ok? && compilationMode == CairoOne ==> Wrote(InvOf(a.offset), BUILTIN, res.value)
      ensures res.Ok? && compilationMode == CairoZero ==>
        field.one in constants && calls[res.value.offset] == DivOf(constants[field.one].offset, a.offset)
    {
      hide IsCircuit, MapOf, Tiled, Stack, EndOf, AreConstants, AreLinked;
      var instruction, r;
      if compilationMode == CairoZero {
        var one := SetOrGetConstant(field.one);
        instruction := Instruction(MUL, Some(a.offset), Some(valuesSegment.offset), Some(one.offset));
        if a.value == field.zero {
          return Err(ValueError);
        }
        MulOne(field, field.inv(a.value));
        r := WriteElement(field.inv(a.value), BUILTIN, Some(instruction), DivOf(one.offset, a.offset));
      } else {
        instruction := Instruction(MUL, Some(a.offset), None, None);
        if a.value == field.zero {
          return Err(ValueError);
        }
        r := WriteElement(field.inv(a.value), BUILTIN, Some(instruction), InvOf(a.offset));
      }
      MulInv(field, a.value);
      return Ok(r);
    }

    /** div: one checked quotient in the older mode, an inverse and a product in the newer one. */
    method Div(a: Element<F>, b: Element<F>) returns (res: Result<Element<F>>)
      requires Valid() && IsElement(Segment(), a) && IsElement(Segment(), b)
      modifies this`calls, this`constants, valuesSegment`segment, valuesSegment`stacks, valuesSegment`offset, valuesSegment`log
      ensures Valid() && Grows(old(Segment()), Segment())
      ensures (res.Err? <==> b.value == field.zero) && (res.Err? ==> res.failure == ValueError)
      ensures res.Ok? ==> field.mul(b.value, res.value.value) == a.value && IsElement(Segment(), res.value)
      ensures res.Ok? && compilationMode == CairoZero ==> Wrote(DivOf(a.offset, b.offset), BUILTIN, res.value)
      ensures res.Ok? && compilationMode == CairoOne ==>
        calls[res.value.offset].MulOf? && calls[res.value.offset].a == a.offset
        && calls[res.value.offset].b in calls && calls[calls[res.value.offset].b] == InvOf(b.offset)
    {
      hide IsCircuit, MapOf, Tiled, Stack, EndOf, AreConstants, AreLinked;
      if compilationMode == CairoZero {
        if b.value == field.zero {
          return Err(ValueError);
        }
        var instruction := Instruction(MUL, Some(b.offset), Some(valuesSegment.offset), Some(a.offset));
        var r := WriteElement(field.mul(a.value, field.inv(b.value)), BUILTIN, Some(instruction), DivOf(a.offset, b.offset));
        QuotientTimesDivisor(field, a.value, b.value);
        return Ok(r);
      }
      var inverse := Inv(b);
      if inverse.Err? {
        return Err(inverse.failure);
      }
      KeysBelowEnd(valuesSegment.log, inverse.value.offset);
      var r := MulElements(a, inverse.value);
      ProductWithInverse(field, a.value, b.value, inverse.value.value);
      return Ok(r);
    }

    /** In the older mode the instruction joins the assertions and the result is c; in the newer one
        nothing happens but the exception. */
    method AssertInstruction(instruction: Instruction, c: Element<F>) returns (res: Result<Element<F>>)
      requires Valid() && IsClosed(valuesSegment.log, instruction)
      modifies valuesSegment`assertEqInstructions
      ensures Valid()
      ensures compilationMode == CairoZero ==>
        res == Ok(c) && valuesSegment.assertEqInstructions == old(valuesSegment.assertEqInstructions) + [instruction]
      ensures compilationMode != CairoZero ==>
        res == Err(AssertionError) && valuesSegment.assertEqInstructions == old(valuesSegment.assertEqInstructions)
    {
      if compilationMode != CairoZero {
        return Err(AssertionError);
      }
      valuesSegment.assertEqInstructions := valuesSegment.assertEqInstructions + [instruction];
      return Ok(c);
    }

    /** sub_and_assert: checks c + b == a. */
    method SubAndAssert(a: Element<F>, b: Element<F>, c: Element<F>) returns (res: Result<Element<F>>)
      requires Valid() && IsElement(Segment(), a) && IsElement(Segment(), b) && IsElement(Segment(), c)
      modifies valuesSegment`assertEqInstructions
      ensures Valid()
      ensures compilationMode == CairoZero ==>
        res == Ok(c) && valuesSegment.assertEqInstructions == old(valuesSegment.assertEqInstructions) + [Instruction(ADD, Some(c.offset), Some(b.offset), Some(a.offset))]
      ensures compilationMode != CairoZero ==>
        res == Err(AssertionError) && valuesSegment.assertEqInstructions == old(valuesSegment.assertEqInstructions)
      ensures Holds(valuesSegment.log, Apply(field), Instruction(ADD, Some(c.offset), Some(b.offset), Some(a.offset))) <==> field.add(c.value, b.value) == a.value
    {
      res := AssertInstruction(Instruction(ADD, Some(c.offset), Some(b.offset), Some(a.offset)), c);
    }

    /** add_and_assert: checks a + b == c. */
    method AddAndAssert(a: Element<F>, b: Element<F>, c: Element<F>) returns (res: Result<Element<F>>)
      requires Valid() && IsElement(Segment(), a) && IsElement(Segment(), b) && IsElement(Segment(), c)
      modifies valuesSegment`assertEqInstructions
      ensures Valid()
      ensures compilationMode == CairoZero ==>
        res == Ok(c) && valuesSegment.assertEqInstructions == old(valuesSegment.assertEqInstructions) + [Instruction(ADD, Some(a.offset), Some(b.offset), Some(c.offset))]
      ensures compilationMode != CairoZero ==>
        res == Err(AssertionError) && valuesSegment.assertEqInstructions == old(valuesSegment.assertEqInstructions)
      ensures Holds(valuesSegment.log, Apply(field), Instruction(ADD, Some(a.offset), Some(b.offset), Some(c.offset))) <==> field.add(a.value, b.value) == c.value
    {
      res := AssertInstruction(Instruction(ADD, Some(a.offset), Some(b.offset), Some(c.offset)), c);
    }

    /** mul_and_assert: checks a * b == c. */
    method MulAndAssert(a: Element<F>, b: Element<F>, c: Element<F>) returns (res: Result<Element<F>>)
      requires Valid() && IsElement(Segment(), a) && IsElement(Segment(), b) && IsElement(Segment(), c)
      modifies valuesSegment`assertEqInstructions
      ensures Valid()
      ensures compilationMode == CairoZero ==>
        res == Ok(c) && valuesSegment.assertEqInstructions == old(valuesSegment.assertEqInstructions) + [Instruction(MUL, Some(a.offset), Some(b.offset), Some(c.offset))]
      ensures compilationMode != CairoZero ==>
        res == Err(AssertionError) && valuesSegment.assertEqInstructions == old(valuesSegment.assertEqInstructions)
      ensures Holds(valuesSegment.log, Apply(field), Instruction(MUL, Some(a.offset), Some(b.offset), Some(c.offset))) <==> field.mul(a.value, b.value) == c.value
    {
      res := AssertInstruction(Instruction(MUL, Some(a.offset), Some(b.offset), Some(c.offset)), c);
    }

    /** eval_horner: the value of the polynomial at z, constant coefficient first. */
    method EvalHorner(poly: seq<Element<F>>, z: Element<F>) returns (res: Result<Element<F>>)
      requires Valid() && AreElements(Segment(), poly) && IsElement(Segment(), z)
      modifies this`calls, valuesSegment`segment, valuesSegment`stacks, valuesSegment`offset, valuesSegment`log
      ensures Valid() && Grows(old(Segment()), Segment())
      ensures (res.Err? <==> poly == []) && (res.Err? ==> res.failure == IndexError)
      ensures res.Ok? ==> IsElement(Segment(), res.value) && res.value.value == PolyValue(field, Values(poly), z.value)
    {
      hide IsCircuit, MapOf, Tiled, Stack, EndOf, AreConstants, AreLinked, Power, PolyValue;
      if |poly| == 0 {
        return Err(IndexError);
      }
      var acc, i := poly[|poly| - 1], |poly| - 1;
      LastCoefficient(field, Values(poly), z.value);
      while i > 0
        invariant 0 <= i < |poly| && Valid() && Grows(old(Segment()), Segment()) && IsElement(Segment(), acc)
        invariant valuesSegment == old(valuesSegment)
        invariant acc.value == PolyValue(field, Values(poly)[i..], z.value)
      {
        i := i - 1;
        var product := MulElements(acc, z);
        acc := AddElements(poly[i], product);
        PolyStep(field, Values(poly), i, z.value);
      }
      assert Values(poly)[0..] == Values(poly);
      return Ok(acc);
    }

    /** eval_poly: the value of a polynomial with possibly absent coefficients, from the
        powers of z; absent only when its single coefficient is. */
    method EvalPoly(poly: seq<Option<Element<F>>>, powers: seq<Element<F>>, ghost z: F) returns (res: Result<Option<Element<F>>>)
      requires Valid() && AreOptional(Segment(), poly) && AreElements(Segment(), powers) && ArePowers(field, z, powers)
      modifies this`calls, this`constants, valuesSegment`segment, valuesSegment`stacks, valuesSegment`offset, valuesSegment`log
      ensures Valid() && Grows(old(Segment()), Segment())
      ensures res.Ok? <==> 1 <= |poly| <= |powers| + 1
      ensures res.Err? ==> res.failure == if poly == [] then IndexError else AssertionError
      ensures res.Ok? ==> (res.value.None? <==> poly == [None])
      ensures res.Ok? ==> ValueOr0(field, res.value) == PolyValue(field, Coefficients(field, poly), z)
      ensures res.Ok? && res.value.Some? ==> IsElement(Segment(), res.value.value)
    {
      hide IsCircuit, MapOf, Tiled, Stack, EndOf, AreConstants, AreLinked, Power, PolyValue;
      if |poly| - 1 > |powers| {
        return Err(AssertionError);
      }
      if poly == [] {
        return Err(IndexError);
      }
      var acc := poly[0];
      ghost var coeffs := Coefficients(field, poly);
      LastCoefficient(field, coeffs[..1], z);
      for i := 1 to |poly|
        invariant Valid() && Grows(old(Segment()), Segment()) && valuesSegment == old(valuesSegment)
        invariant acc.Some? ==> IsElement(Segment(), acc.value)
        invariant acc.None? <==> i == 1 && poly[0].None?
        invariant ValueOr0(field, acc) == PolyValue(field, coeffs[..i], z)
      {
        assert IsElement(Segment(), powers[i - 1]);
        var product := Mul(poly[i], Some(powers[i - 1]));
        PolySnoc(field, coeffs[..i], coeffs[i], z);
        assert coeffs[..i] + [coeffs[i]] == coeffs[..i + 1];
        var sum := Add(acc, Some(product.value));
        acc := Some(sum.value);
      }
      assert coeffs[..|poly|] == coeffs;
      return Ok(acc);
    }
  }

  lemma ProductWithInverse<F(!new)>(f: Field<F>, a: F, b: F, c: F)
    requires f.IsField() && f.mul(b, c) == f.one
    ensures f.mul(b, f.mul(a, c)) == a
  {
    hide Field.IsField;
    MulComm(f, a, c);
    MulAssoc(f, b, c, a);
    MulOne(f, a);
  }

  lemma QuotientTimesDivisor<F(!new)>(f: Field<F>, a: F, b: F)
    requires f.IsField() && b != f.zero
    ensures f.mul(b, f.mul(a, f.inv(b))) == a
  {
    hide Field.IsField;
    MulInv(f, b);
    ProductWithInverse(f, a, b, f.inv(b));
  }

  // ----- what a recorded circuit is -----

  ghost predicate IsRecording<F(!new)>(f: Field<F>, mode: Mode, log: seq<Entry<F>>, calls: map<int, Call>) {
    Tiled(log) && IsCircuit(f, mode, MapOf(log), calls)
  }

  lemma EntryIsJustified<F(!new)>(f: Field<F>, mode: Mode, log: seq<Entry<F>>, calls: map<int, Call>, e: Entry<F>)
    requires IsRecording(f, mode, log, calls) && e in log
    ensures e.offset in calls && e.offset in MapOf(log) && MapOf(log)[e.offset] == e.item
    ensures IsJustified(f, mode, MapOf(log), e.offset, calls[e.offset])
  {
    TiledIsAscending(log);
    MapHasEntry(log, e);
  }

  lemma RecordingIsWellFormed<F(!new)>(f: Field<F>, mode: Mode, log: seq<Entry<F>>, calls: map<int, Call>)
    requires IsRecording(f, mode, log, calls)
    ensures WellFormed(log)
  {
    forall e | e in log
      ensures IsRecorded(log, e)
    {
      EntryIsJustified(f, mode, log, calls, e);
      match calls[e.offset]
      case Supplied =>
      case InvOf(a) => assert a == Operands(calls[e.offset])[0];
      case AddOf(a, b) => assert a == Operands(calls[e.offset])[0] && b == Operands(calls[e.offset])[1];
      case SubOf(a, b) => assert a == Operands(calls[e.offset])[0] && b == Operands(calls[e.offset])[1];
      case MulOf(a, b) => assert a == Operands(calls[e.offset])[0] && b == Operands(calls[e.offset])[1];
      case DivOf(a, b) => assert a == Operands(calls[e.offset])[0] && b == Operands(calls[e.offset])[1];
    }
  }

  // ----- the older mode: every instruction is a check the builtin makes -----

  function Apply<F(!new)>(f: Field<F>): (Operation, F, F) -> F {
    (op: Operation, x: F, y: F) => if op == ADD then f.add(x, y) else f.mul(x, y)
  }

  /** Every instruction the recorder leaves refers to three slots and holds of their values. */
  lemma RecordedChecksHold<F(!new)>(f: Field<F>, log: seq<Entry<F>>, calls: map<int, Call>, e: Entry<F>)
    requires f.IsField() && IsRecording(f, CairoZero, log, calls) && e in log && e.item.source == BUILTIN
    ensures e.item.instruction.Some? && IsClosed(log, e.item.instruction.value)
    ensures Holds(log, Apply(f), e.item.instruction.value)
  {
    hide Tiled, MapOf, IsCircuit, Field.IsField;
    EntryIsJustified(f, CairoZero, log, calls, e);
    var call, env := calls[e.offset], ValuesOf(MapOf(log));
    match call
    case AddOf(a, b) => assert a == Operands(call)[0] && b == Operands(call)[1];
    case MulOf(a, b) => assert a == Operands(call)[0] && b == Operands(call)[1];
    case SubOf(a, b) =>
      assert a == Operands(call)[0] && b == Operands(call)[1];
      SubThenAdd(f, env[a], env[b]);
    case DivOf(a, b) =>
      assert a == Operands(call)[0] && b == Operands(call)[1];
      QuotientTimesDivisor(f, env[a], env[b]);
  }

  /** After relocation every instruction still refers to three slots of the new segment and holds there. */
  lemma RelocatedChecksHold<F(!new)>(f: Field<F>, log: seq<Entry<F>>, calls: map<int, Call>, i: nat)
    requires f.IsField() && IsRecording(f, CairoZero, log, calls)
    requires i < |Ordered(log)| && Ordered(log)[i].item.source == BUILTIN
    ensures |Relocate(Ordered(log)).log| == |Ordered(log)|
    ensures var moved := Relocate(Ordered(log)).log;
      moved[i].item.instruction.Some? && IsClosed(moved, moved[i].item.instruction.value)
      && Holds(moved, Apply(f), moved[i].item.instruction.value)
  {
    hide Tiled, MapOf, IsCircuit, Ordered, Relocate, Holds, IsClosed, Field.IsField, WellFormed, MovedInstruction, Apply;
    var e := Ordered(log)[i];
    OrderedHasEntry(log, e);
    RecordedChecksHold(f, log, calls, e);
    RecordingIsWellFormed(f, CairoZero, log, calls);
    InstructionMoves(log, i);
    HoldingIsPreserved(log, Apply(f), e.item.instruction.value, Relocate(Ordered(log)).log[i].offset);
  }
}
