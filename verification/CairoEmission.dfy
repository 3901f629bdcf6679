/** Emitting a relocated circuit as a straight-line program over named inputs and
    temporaries. The kind of each operation is read back from its offsets. */
module CairoEmission {
  import opened Fields
  import opened ModuloCircuits
  import opened Results
  import opened ValueSegments

  datatype Ref = In(index: nat) | T(index: nat)

  datatype Gate =
    | CircuitAdd(left: Ref, right: Ref)
    | CircuitSub(left: Ref, right: Ref)
    | CircuitMul(left: Ref, right: Ref)
    | CircuitInverse(operand: Ref)

  datatype Emitted = Emitted(gates: seq<Gate>, refs: map<int, Ref>)

  // ----- the program's own meaning -----

  function RefValue<F>(inputs: seq<F>, temps: seq<F>, r: Ref): Option<F> {
    match r
    case In(i) => if i < |inputs| then Some(inputs[i]) else None
    case T(i) => if i < |temps| then Some(temps[i]) else None
  }

  /** A gate is undefined on an undefined name and on the inverse of zero. */
  function GateValue<F(==, !new)>(f: Field<F>, inputs: seq<F>, temps: seq<F>, gate: Gate): Option<F> {
    match gate
    case CircuitAdd(l, r) =>
      var x, y := RefValue(inputs, temps, l), RefValue(inputs, temps, r);
      if x.Some? && y.Some? then Some(f.add(x.value, y.value)) else None
    case CircuitSub(l, r) =>
      var x, y := RefValue(inputs, temps, l), RefValue(inputs, temps, r);
      if x.Some? && y.Some? then Some(f.Sub(x.value, y.value)) else None
    case CircuitMul(l, r) =>
      var x, y := RefValue(inputs, temps, l), RefValue(inputs, temps, r);
      if x.Some? && y.Some? then Some(f.mul(x.value, y.value)) else None
    case CircuitInverse(l) =>
      var x := RefValue(inputs, temps, l);
      if x.Some? && x.value != f.zero then Some(f.inv(x.value)) else None
  }

  /** Run the gates in order; gate i defines temporary i. */
  function RunGates<F(==, !new)>(f: Field<F>, inputs: seq<F>, gates: seq<Gate>): Option<seq<F>> {
    if gates == [] then Some([]) else
      var temps := RunGates(f, inputs, gates[..|gates| - 1]);
      if temps.None? then None else
        var v := GateValue(f, inputs, temps.value, gates[|gates| - 1]);
        if v.None? then None else Some(temps.value + [v.value])
  }

  // ----- emission -----

  function Lookup(refs: map<int, Ref>, o: Option<int>): Option<Ref> {
    if o.Some? && o.value in refs then Some(refs[o.value]) else None
  }

  /** One case of write_cairo1_circuit: which operation left this instruction in this slot? */
  function DecodeGate(offset: int, instruction: Instruction, refs: map<int, Ref>): Result<Gate> {
    var l, r, z := Lookup(refs, instruction.left), Lookup(refs, instruction.right), Lookup(refs, instruction.result);
    match instruction.operation
    case ADD =>
      if instruction.right.None? || instruction.result.None? then Err(TypeError)
      else if instruction.right.value > instruction.result.value then
        if z.None? || l.None? then Err(KeyError)
        else if offset != instruction.right.value then Err(AssertionError)
        else Ok(CircuitSub(z.value, l.value))
      else
        if l.None? || r.None? then Err(KeyError)
        else if offset != instruction.result.value then Err(AssertionError)
        else Ok(CircuitAdd(l.value, r.value))
    case MUL =>
      if instruction.right == instruction.result == Some(offset) then
        if l.None? then Err(KeyError) else Ok(CircuitInverse(l.value))
      else
        if l.None? || r.None? then Err(KeyError)
        else if instruction.result != Some(offset) then Err(AssertionError)
        else Ok(CircuitMul(l.value, r.value))
  }

  /** Emission of the builtin entries: slot by slot, each slot named by the next temporary. */
  function EmitGates<F>(entries: seq<Entry<F>>, refs: map<int, Ref>): Result<Emitted> {
    if entries == [] then Ok(Emitted([], refs)) else
      var before, last := EmitGates(entries[..|entries| - 1], refs), entries[|entries| - 1];
      if before.Err? then before
      else if last.item.instruction.None? then Err(AttributeError)
      else
        var gate := DecodeGate(last.offset, last.item.instruction.value, before.value.refs);
        if gate.Err? then Err(gate.failure)
        else Ok(Emitted(before.value.gates + [gate.value], before.value.refs[last.offset := T(|before.value.gates|)]))
  }

  /** Inputs are named in order. */
  function NameInputs<F>(refs: map<int, Ref>, entries: seq<Entry<F>>, start: nat): map<int, Ref> {
    if entries == [] then refs else
      var i := |entries| - 1;
      NameInputs(refs, entries[..i], start)[entries[i].offset := In(start + i)]
  }

  lemma NameNext<F>(refs: map<int, Ref>, entries: seq<Entry<F>>, e: Entry<F>, start: nat)
    ensures NameInputs(refs, entries + [e], start) == NameInputs(refs, entries, start)[e.offset := In(start + |entries|)]
  {
    assert (entries + [e])[..|entries|] == entries;
  }

  lemma {:induction false} NameConcat<F>(refs: map<int, Ref>, a: seq<Entry<F>>, b: seq<Entry<F>>, start: nat)
    ensures NameInputs(NameInputs(refs, a, start), b, start + |a|) == NameInputs(refs, a + b, start)
    decreases |b|
  {
    if b == [] {
      assert a + b == a;
    } else {
      var init, last := b[..|b| - 1], b[|b| - 1];
      NameConcat(refs, a, init, start);
      NameNext(refs, a + init, last, start);
      assert a + b == a + init + [last];
    }
  }

  function Flatten(lets: seq<seq<nat>>): seq<nat> {
    if lets == [] then [] else Flatten(lets[..|lets| - 1]) + lets[|lets| - 1]
  }

  function Range(start: nat, count: nat): seq<nat> {
    seq(count, i requires 0 <= i < count => start + i)
  }

  lemma FlattenNext(lets: seq<seq<nat>>, group: seq<nat>)
    ensures Flatten(lets + [group]) == Flatten(lets) + group
  {
    assert (lets + [group])[..|lets|] == lets;
  }

  /** write_cairo1_input_stack: constants are declared one by one, other inputs three at a
      time; either way each name is declared once, in order, and bound to its slot. */
  method WriteInputStack<F>(segment: ValueSegment<F>, source: WriteSource, refs: map<int, Ref>, startIndex: nat)
    returns (lets: seq<seq<nat>>, newRefs: map<int, Ref>, endIndex: nat)
    requires segment.Valid()
    ensures endIndex == startIndex + |Stack(segment.log, source)|
    ensures newRefs == NameInputs(refs, Stack(segment.log, source), startIndex)
    ensures Flatten(lets) == Range(startIndex, |Stack(segment.log, source)|)
    ensures AreGrouped(source, lets, |Stack(segment.log, source)|, |Stack(segment.log, source)|)
  {
    var stack := segment.StackAt(source);
    hide *;
    lets, newRefs := [], refs;
    NothingNamed(refs, stack, startIndex);
    NothingGrouped(source, |stack|);
    var i := 0;
    while i < |stack|
      invariant Declared(refs, stack, startIndex, i, lets, newRefs) && i <= |stack|
      invariant AreGrouped(source, lets, i, |stack|)
    {
      if source == CONSTANT || i + 1 >= |stack| {
        DeclareOne(refs, stack, startIndex, i, lets, newRefs);
        GroupNext(source, lets, i, |stack|, [startIndex + i]);
        lets := lets + [[startIndex + i]];
        newRefs := newRefs[stack[i].offset := In(startIndex + i)];
        i := i + 1;
      } else if i + 2 < |stack| {
        DeclareThree(refs, stack, startIndex, i, lets, newRefs);
        GroupNext(source, lets, i, |stack|, [startIndex + i, startIndex + i + 1, startIndex + i + 2]);
        lets := lets + [[startIndex + i, startIndex + i + 1, startIndex + i + 2]];
        newRefs :=
          newRefs[stack[i].offset := In(startIndex + i)][stack[i + 1].offset := In(startIndex + i + 1)][stack[i + 2].offset := In(startIndex + i + 2)];
        i := i + 3;
      } else {
        DeclareTwo(refs, stack, startIndex, i, lets, newRefs);
        GroupNext(source, lets, i, |stack|, [startIndex + i, startIndex + i + 1]);
        lets := lets + [[startIndex + i, startIndex + i + 1]];
        newRefs := newRefs[stack[i].offset := In(startIndex + i)][stack[i + 1].offset := In(startIndex + i + 1)];
        i := i + 2;
      }
    }
    AllDeclared(refs, stack, startIndex, lets, newRefs);
    return lets, newRefs, startIndex + |stack|;
  }

  /** After i of n slots: constants stand alone, other inputs in threes, with one or two left over. */
  predicate AreGrouped(source: WriteSource, lets: seq<seq<nat>>, i: nat, n: nat) {
    if source == CONSTANT then forall k :: 0 <= k < |lets| ==> |lets[k]| == 1
    else
      && (i < n ==> i % 3 == 0 && forall k :: 0 <= k < |lets| ==> |lets[k]| == 3)
      && forall k :: 0 <= k < |lets| ==> |lets[k]| == if k < |lets| - 1 || i % 3 == 0 then 3 else i % 3
  }

  lemma NothingGrouped(source: WriteSource, n: nat)
    ensures AreGrouped(source, [], 0, n)
  {
  }

  lemma GroupNext(source: WriteSource, lets: seq<seq<nat>>, i: nat, n: nat, group: seq<nat>)
    requires i < n && AreGrouped(source, lets, i, n)
    requires source == CONSTANT ==> |group| == 1
    requires source != CONSTANT ==> |group| == if i + 2 < n then 3 else n - i
    ensures AreGrouped(source, lets + [group], i + |group|, n)
  {
  }

  /** The state of the loop above: the first i slots are declared and bound. */
  ghost predicate Declared<F>(refs: map<int, Ref>, stack: seq<Entry<F>>, start: nat, i: nat, lets: seq<seq<nat>>, names: map<int, Ref>) {
    i <= |stack| && names == NameInputs(refs, stack[..i], start) && Flatten(lets) == Range(start, i)
  }

  lemma DeclareOne<F>(refs: map<int, Ref>, stack: seq<Entry<F>>, start: nat, i: nat, lets: seq<seq<nat>>, names: map<int, Ref>)
    requires Declared(refs, stack, start, i, lets, names) && i + 1 <= |stack|
    ensures Declared(refs, stack, start, i + 1, lets + [[start + i]], names[stack[i].offset := In(start + i)])
  {
    FlattenNext(lets, [start + i]);
    NameOne(refs, stack, i, start);
  }

  lemma DeclareTwo<F>(refs: map<int, Ref>, stack: seq<Entry<F>>, start: nat, i: nat, lets: seq<seq<nat>>, names: map<int, Ref>)
    requires Declared(refs, stack, start, i, lets, names) && i + 2 <= |stack|
    ensures Declared(refs, stack, start, i + 2, lets + [[start + i, start + i + 1]],
      names[stack[i].offset := In(start + i)][stack[i + 1].offset := In(start + i + 1)])
  {
    FlattenNext(lets, [start + i, start + i + 1]);
    NameOne(refs, stack, i, start);
    NameOne(refs, stack, i + 1, start);
  }

  lemma DeclareThree<F>(refs: map<int, Ref>, stack: seq<Entry<F>>, start: nat, i: nat, lets: seq<seq<nat>>, names: map<int, Ref>)
    requires Declared(refs, stack, start, i, lets, names) && i + 3 <= |stack|
    ensures Declared(refs, stack, start, i + 3, lets + [[start + i, start + i + 1, start + i + 2]],
      names[stack[i].offset := In(start + i)][stack[i + 1].offset := In(start + i + 1)][stack[i + 2].offset := In(start + i + 2)])
  {
    FlattenNext(lets, [start + i, start + i + 1, start + i + 2]);
    NameOne(refs, stack, i, start);
    NameOne(refs, stack, i + 1, start);
    NameOne(refs, stack, i + 2, start);
  }

  lemma NothingNamed<F>(refs: map<int, Ref>, stack: seq<Entry<F>>, start: nat)
    ensures Declared(refs, stack, start, 0, [], refs)
  {
  }

  lemma AllDeclared<F>(refs: map<int, Ref>, stack: seq<Entry<F>>, start: nat, lets: seq<seq<nat>>, names: map<int, Ref>)
    requires Declared(refs, stack, start, |stack|, lets, names)
    ensures names == NameInputs(refs, stack, start) && Flatten(lets) == Range(start, |stack|)
  {
    assert stack[..|stack|] == stack;
  }

  lemma NameOne<F>(refs: map<int, Ref>, stack: seq<Entry<F>>, i: nat, start: nat)
    requires i < |stack|
    ensures NameInputs(refs, stack[..i + 1], start) == NameInputs(refs, stack[..i], start)[stack[i].offset := In(start + i)]
  {
    assert stack[..i + 1] == stack[..i] + [stack[i]];
    NameNext(refs, stack[..i], stack[i], start);
  }

  /** write_cairo1_circuit */
  method WriteCircuit<F>(segment: ValueSegment<F>, refs: map<int, Ref>) returns (res: Result<Emitted>)
    requires segment.Valid()
    ensures res == EmitGates(Stack(segment.log, BUILTIN), refs)
  {
    var stack := segment.StackAt(BUILTIN);
    hide Stack, DecodeGate, MapOf, Tiled;
    var gates, names: map<int, Ref> := [], refs;
    for i := 0 to |stack|
      invariant EmitGates(stack[..i], refs) == Ok(Emitted(gates, names))
    {
      assert stack[..i + 1][..i] == stack[..i];
      OneNamePerGate(stack[..i], refs);
      if stack[i].item.instruction.None? {
        FailureStays(stack, i + 1, refs);
        return Err(AttributeError);
      }
      var gate := DecodeGate(stack[i].offset, stack[i].item.instruction.value, names);
      if gate.Err? {
        FailureStays(stack, i + 1, refs);
        return Err(gate.failure);
      }
      names := names[stack[i].offset := T(i)];
      gates := gates + [gate.value];
    }
    assert stack[..|stack|] == stack;
    return Ok(Emitted(gates, names));
  }

  lemma {:induction false} FailureStays<F>(entries: seq<Entry<F>>, i: nat, refs: map<int, Ref>)
    requires i <= |entries| && EmitGates(entries[..i], refs).Err?
    ensures EmitGates(entries, refs) == EmitGates(entries[..i], refs)
    decreases |entries|
  {
    if i == |entries| {
      assert entries[..i] == entries;
    } else {
      assert entries[..|entries| - 1][..i] == entries[..i];
      FailureStays(entries[..|entries| - 1], i, refs);
    }
  }

  lemma {:induction false} OneNamePerGate<F>(entries: seq<Entry<F>>, refs: map<int, Ref>)
    ensures EmitGates(entries, refs).Ok? ==> |EmitGates(entries, refs).value.gates| == |entries|
  {
    if entries != [] {
      OneNamePerGate(entries[..|entries| - 1], refs);
    }
  }

  // ----- names of slots -----

  /** The place of a slot in a list of entries with distinct offsets. */
  function Position<F>(entries: seq<Entry<F>>, o: int): nat {
    if entries == [] then 0
    else if entries[|entries| - 1].offset == o then |entries| - 1
    else Position(entries[..|entries| - 1], o)
  }

  lemma {:induction false} PositionIs<F>(entries: seq<Entry<F>>, i: nat)
    requires DistinctOffsets(entries) && i < |entries|
    ensures Position(entries, entries[i].offset) == i
    decreases |entries|
  {
    if i < |entries| - 1 {
      PositionIs(entries[..|entries| - 1], i);
    }
  }

  /** Place i among m inputs and then temporaries. */
  function RefAt(m: nat, i: nat): Ref {
    if i < m then In(i) else T(i - m)
  }

  function Moved<F>(log: seq<Entry<F>>): seq<Entry<F>> {
    Relocate(Ordered(log)).log
  }

  function InputCount<F>(log: seq<Entry<F>>): nat {
    |Stacks(log, 5)|
  }

  /** The name a slot of the original log gets in the program. */
  function NameOf<F>(log: seq<Entry<F>>, o: int): Ref {
    RefAt(InputCount(log), Position(Ordered(log), o))
  }

  /** The gate that performs a call. */
  function GateOf<F>(log: seq<Entry<F>>, call: Call): Option<Gate> {
    match call
    case AddOf(a, b) => Some(CircuitAdd(NameOf(log, a), NameOf(log, b)))
    case SubOf(a, b) => Some(CircuitSub(NameOf(log, a), NameOf(log, b)))
    case MulOf(a, b) => Some(CircuitMul(NameOf(log, a), NameOf(log, b)))
    case InvOf(a) => Some(CircuitInverse(NameOf(log, a)))
    case Supplied => None
    case DivOf(_, _) => None
  }

  ghost predicate NamesSlots<F>(t: seq<Entry<F>>, m: nat, n: nat, refs: map<int, Ref>)
    requires n <= |t|
  {
    forall i: nat :: i < n ==> t[i].offset in refs && refs[t[i].offset] == RefAt(m, i)
  }

  lemma NamesNext<F>(t: seq<Entry<F>>, m: nat, n: nat, refs: map<int, Ref>)
    requires Ascending(t) && n < |t| && NamesSlots(t, m, n, refs)
    ensures NamesSlots(t, m, n + 1, refs[t[n].offset := RefAt(m, n)])
  {
  }

  lemma {:induction false} InputsAreNamed<F>(t: seq<Entry<F>>, m: nat, n: nat)
    requires Ascending(t) && n <= m <= |t|
    ensures NamesSlots(t, m, n, NameInputs(map[], t[..n], 0))
  {
    hide *;
    var names := NameInputs(map[], t[..n], 0);
    if n == 0 {
      NoSlotsNamed(t, m, names);
    } else {
      var before := NameInputs(map[], t[..n - 1], 0);
      InputsAreNamed(t, m, n - 1);
      NameOne(map[], t, n - 1, 0);
      InputRef(m, n - 1);
      NamesNext(t, m, n - 1, before);
    }
  }

  lemma NoSlotsNamed<F>(t: seq<Entry<F>>, m: nat, refs: map<int, Ref>)
    ensures NamesSlots(t, m, 0, refs)
  {
  }

  lemma InputRef(m: nat, i: nat)
    requires i < m
    ensures RefAt(m, i) == In(i)
  {
  }

  lemma BuiltinsFollowInputs<F>(log: seq<Entry<F>>, i: nat)
    requires i < |Ordered(log)|
    ensures InputCount(log) <= |Ordered(log)|
    ensures Ordered(log)[i].item.source == BUILTIN <==> i >= InputCount(log)
  {
    var inputs, builtins := Stacks(log, 5), Stack(log, BUILTIN);
    assert Rank(BUILTIN) == 5;
    assert Ordered(log) == inputs + builtins;
    if i < |inputs| {
      StacksHaveEntry(log, 5, inputs[i]);
    } else {
      StackHasEntry(log, BUILTIN, builtins[i - |inputs|]);
    }
  }

  /** An operand sits below the slot that uses it, before and after relocation, and is named. */
  lemma OperandIsNamed<F>(log: seq<Entry<F>>, i: nat, o: int, refs: map<int, Ref>) returns (j: nat)
    requires Tiled(log) && InputCount(log) <= i < |Ordered(log)|
    requires |Moved(log)| == |Ordered(log)| && NamesSlots(Moved(log), InputCount(log), i, refs)
    requires o in MapOf(log) && o < Ordered(log)[i].offset
    ensures j < i && Ordered(log)[j].offset == o && Position(Ordered(log), o) == j
    ensures NewOffset(log, o) < Moved(log)[i].offset
    ensures NewOffset(log, o) in refs && refs[NewOffset(log, o)] == NameOf(log, o)
  {
    BuiltinsFollowInputs(log, i);
    j := EarlierComesFirst(log, i, o);
    OrderedIsDistinct(log);
    PositionIs(Ordered(log), j);
    SlotMoves(log, j);
    SlotsInOrder(Moved(log), j, i);
  }

  /** The emitter recovers the original operation of a slot from the relocated offsets. */
  lemma DecodesOriginalCall<F(!new)>(f: Field<F>, log: seq<Entry<F>>, calls: map<int, Call>, i: nat, refs: map<int, Ref>)
    requires IsRecording(f, CairoOne, log, calls) && InputCount(log) <= i < |Ordered(log)|
    requires |Moved(log)| == |Ordered(log)| && NamesSlots(Moved(log), InputCount(log), i, refs)
    ensures Ordered(log)[i].offset in calls && Moved(log)[i].item.instruction.Some?
    ensures GateOf(log, calls[Ordered(log)[i].offset]).Some?
    ensures DecodeGate(Moved(log)[i].offset, Moved(log)[i].item.instruction.value, refs)
      == Ok(GateOf(log, calls[Ordered(log)[i].offset]).value)
  {
    hide IsCircuit, Tiled, MapOf, Ordered, Stacks, Relocate, Position, NamesSlots, WellFormed;
    var e := Ordered(log)[i];
    OrderedHasEntry(log, e);
    EntryIsJustified(f, CairoOne, log, calls, e);
    RecordingIsWellFormed(f, CairoOne, log, calls);
    InstructionMoves(log, i);
    SlotMoves(log, i);
    BuiltinsFollowInputs(log, i);
    var call := calls[e.offset];
    forall o | o in Operands(call)
      ensures NewOffset(log, o) < Moved(log)[i].offset
      ensures NewOffset(log, o) in refs && refs[NewOffset(log, o)] == NameOf(log, o)
    {
      var _ := OperandIsNamed(log, i, o, refs);
    }
    match call
    case InvOf(a) => assert a == Operands(call)[0];
    case AddOf(a, b) => assert a == Operands(call)[0] && b == Operands(call)[1];
    case SubOf(a, b) => assert a == Operands(call)[0] && b == Operands(call)[1];
    case MulOf(a, b) => assert a == Operands(call)[0] && b == Operands(call)[1];
  }

  /** The whole emission of a relocated circuit. */
  function EmittedOf<F>(t: seq<Entry<F>>, m: nat, n: nat): Result<Emitted>
    requires m + n <= |t|
  {
    EmitGates(t[m..m + n], NameInputs(map[], t[..m], 0))
  }

  /** The gate at place i performs the call recorded for that slot. */
  ghost predicate IsOriginalGate<F>(log: seq<Entry<F>>, calls: map<int, Call>, gates: seq<Gate>, i: nat)
    requires InputCount(log) <= i < InputCount(log) + |gates| <= |Ordered(log)|
  {
    && Ordered(log)[i].offset in calls
    && GateOf(log, calls[Ordered(log)[i].offset]) == Some(gates[i - InputCount(log)])
  }

  lemma EmitNext<F>(t: seq<Entry<F>>, m: nat, n: nat)
    requires n > 0 && m + n <= |t|
    ensures EmittedOf(t, m, n - 1).Ok? && t[m + n - 1].item.instruction.Some? ==>
      var before, last := EmittedOf(t, m, n - 1).value, t[m + n - 1];
      var gate := DecodeGate(last.offset, last.item.instruction.value, before.refs);
      gate.Ok? ==>
        EmittedOf(t, m, n) == Ok(Emitted(before.gates + [gate.value], before.refs[last.offset := T(|before.gates|)]))
  {
    hide DecodeGate;
    assert t[m..m + n][..n - 1] == t[m..m + n - 1];
  }

  lemma EmitNothing<F>(t: seq<Entry<F>>, m: nat)
    requires Ascending(t) && m <= |t|
    ensures EmittedOf(t, m, 0).Ok? && EmittedOf(t, m, 0).value.gates == [] && NamesSlots(t, m, m, EmittedOf(t, m, 0).value.refs)
  {
    assert t[m..m] == [];
    InputsAreNamed(t, m, m);
  }

  /** Emission never fails and yields, in order, the original operation of every builtin slot. */
  lemma {:induction false} EmitsOriginalCalls<F(!new)>(f: Field<F>, log: seq<Entry<F>>, calls: map<int, Call>, n: nat)
    requires IsRecording(f, CairoOne, log, calls) && InputCount(log) + n <= |Ordered(log)|
    ensures |Moved(log)| == |Ordered(log)|
    ensures var res, m := EmittedOf(Moved(log), InputCount(log), n), InputCount(log);
      && res.Ok? && |res.value.gates| == n && NamesSlots(Moved(log), m, m + n, res.value.refs)
      && forall i: nat :: m <= i < m + n ==> IsOriginalGate(log, calls, res.value.gates, i)
  {
    hide Tiled, Ordered, Stacks, IsCircuit, MapOf, Relocate, EmittedOf, GateOf, NamesSlots, DecodeGate, InputCount;
    var t, m := Moved(log), InputCount(log);
    RelocationIsTiled(Ordered(log));
    TiledIsAscending(t);
    if n == 0 {
      EmitNothing(t, m);
    } else {
      EmitsOriginalCalls(f, log, calls, n - 1);
      var before := EmittedOf(t, m, n - 1).value;
      DecodesOriginalCall(f, log, calls, m + n - 1, before.refs);
      EmitNext(t, m, n);
      NamesNext(t, m, m + n - 1, before.refs);
      var after := EmittedOf(t, m, n).value;
      forall i: nat | m <= i < m + n
        ensures IsOriginalGate(log, calls, after.gates, i)
      {
        assert i < m + n - 1 ==> IsOriginalGate(log, calls, before.gates, i);
      }
    }
  }

  // ----- meaning -----

  /** The slot values listed in relocated order (inputs, then temporaries), as an assignment. */
  function EnvOf<F>(log: seq<Entry<F>>, values: seq<F>): map<int, F> {
    map o | o in MapOf(log) && Position(Ordered(log), o) < |values| :: values[Position(Ordered(log), o)]
  }

  /** Every recorded operation is defined on the assignment and gives its slot's value. */
  ghost predicate Satisfies<F(!new)>(f: Field<F>, calls: map<int, Call>, env: map<int, F>) {
    forall o :: o in calls && !calls[o].Supplied? ==> SatisfiesAt(f, calls[o], o, env)
  }

  ghost predicate SatisfiesAt<F(!new)>(f: Field<F>, call: Call, own: int, env: map<int, F>) {
    (forall p :: p in Operands(call) ==> p in env) && own in env && Outcome(f, call, env) == Some(env[own])
  }

  /** A name evaluates to its slot's value once the slot has been computed. */
  lemma NameMeansSlot<F>(values: seq<F>, m: nat, i: nat, j: nat)
    requires m <= i <= |values| && j < i
    ensures RefValue(values[..m], values[m..i], RefAt(m, j)) == Some(values[j])
  {
  }

  lemma OperandValue<F>(log: seq<Entry<F>>, values: seq<F>, i: nat, o: int)
    requires Tiled(log) && InputCount(log) <= i < |Ordered(log)| == |values|
    requires o in MapOf(log) && o < Ordered(log)[i].offset
    ensures o in EnvOf(log, values)
    ensures RefValue(values[..InputCount(log)], values[InputCount(log)..i], NameOf(log, o)) == Some(EnvOf(log, values)[o])
  {
    hide Tiled, MapOf, Ordered, Position, RefValue;
    BuiltinsFollowInputs(log, i);
    var j := EarlierComesFirst(log, i, o);
    OrderedIsDistinct(log);
    PositionIs(Ordered(log), j);
    NameMeansSlot(values, InputCount(log), i, j);
  }

  lemma OwnValue<F>(log: seq<Entry<F>>, values: seq<F>, i: nat)
    requires Tiled(log) && i < |Ordered(log)| == |values|
    ensures Ordered(log)[i].offset in EnvOf(log, values) && EnvOf(log, values)[Ordered(log)[i].offset] == values[i]
  {
    TiledIsAscending(log);
    OrderedIsDistinct(log);
    OrderedHasEntry(log, Ordered(log)[i]);
    MapHasEntry(log, Ordered(log)[i]);
    PositionIs(Ordered(log), i);
  }

  /** A gate computes what its call computes. */
  lemma GateMeansCall<F(!new)>(f: Field<F>, log: seq<Entry<F>>, calls: map<int, Call>, values: seq<F>, i: nat)
    requires IsRecording(f, CairoOne, log, calls) && InputCount(log) <= i < |Ordered(log)| == |values|
    ensures Ordered(log)[i].offset in calls
    ensures var call := calls[Ordered(log)[i].offset];
      && (forall o :: o in Operands(call) ==> o in EnvOf(log, values)) && GateOf(log, call).Some?
      && GateValue(f, values[..InputCount(log)], values[InputCount(log)..i], GateOf(log, call).value)
        == Outcome(f, call, EnvOf(log, values))
  {
    hide IsCircuit, Tiled, MapOf, Ordered, Stacks, NameOf, EnvOf, RefValue;
    var e := Ordered(log)[i];
    OrderedHasEntry(log, e);
    EntryIsJustified(f, CairoOne, log, calls, e);
    BuiltinsFollowInputs(log, i);
    var call := calls[e.offset];
    forall o | o in Operands(call)
      ensures o in EnvOf(log, values)
      ensures RefValue(values[..InputCount(log)], values[InputCount(log)..i], NameOf(log, o)) == Some(EnvOf(log, values)[o])
    {
      OperandValue(log, values, i, o);
    }
    match call
    case InvOf(a) => assert a == Operands(call)[0];
    case AddOf(a, b) => assert a == Operands(call)[0] && b == Operands(call)[1];
    case SubOf(a, b) => assert a == Operands(call)[0] && b == Operands(call)[1];
    case MulOf(a, b) => assert a == Operands(call)[0] && b == Operands(call)[1];
  }

  ghost predicate GateAgrees<F(!new)>(f: Field<F>, values: seq<F>, m: nat, gates: seq<Gate>, i: nat)
    requires m <= i < m + |gates| <= |values|
  {
    GateValue(f, values[..m], values[m..i], gates[i - m]) == Some(values[i])
  }

  ghost predicate GatesAgree<F(!new)>(f: Field<F>, values: seq<F>, m: nat, gates: seq<Gate>)
    requires m + |gates| <= |values|
  {
    forall i: nat :: m <= i < m + |gates| ==> GateAgrees(f, values, m, gates, i)
  }

  lemma GatesAgreeNext<F(!new)>(f: Field<F>, values: seq<F>, m: nat, init: seq<Gate>, gate: Gate)
    requires m + |init| + 1 <= |values|
    ensures GatesAgree(f, values, m, init + [gate]) <==>
      GatesAgree(f, values, m, init) && GateValue(f, values[..m], values[m..m + |init|], gate) == Some(values[m + |init|])
  {
    hide GateValue;
    var gates, n := init + [gate], m + |init|;
    forall i: nat | m <= i < n
      ensures GateAgrees(f, values, m, gates, i) <==> GateAgrees(f, values, m, init, i)
    {
    }
    if GatesAgree(f, values, m, gates) {
      forall i: nat | m <= i < n
        ensures GateAgrees(f, values, m, init, i)
      {
        assert GateAgrees(f, values, m, gates, i);
      }
      assert GateAgrees(f, values, m, gates, n);
    } else if GatesAgree(f, values, m, init) && GateValue(f, values[..m], values[m..n], gate) == Some(values[n]) {
      forall i: nat | m <= i < n + 1
        ensures GateAgrees(f, values, m, gates, i)
      {
        assert i < n ==> GateAgrees(f, values, m, init, i);
      }
    }
  }

  lemma RunNext<F(!new)>(f: Field<F>, values: seq<F>, m: nat, init: seq<Gate>, gate: Gate)
    requires m + |init| + 1 <= |values|
    ensures RunGates(f, values[..m], init + [gate]) == Some(values[m..m + |init| + 1]) <==>
      RunGates(f, values[..m], init) == Some(values[m..m + |init|])
      && GateValue(f, values[..m], values[m..m + |init|], gate) == Some(values[m + |init|])
  {
    hide GateValue;
    var inputs, n := values[..m], m + |init|;
    var before, after := RunGates(f, inputs, init), RunGates(f, inputs, init + [gate]);
    assert (init + [gate])[..|init|] == init;
    assert values[m..n + 1] == values[m..n] + [values[n]];
    if before.Some? {
      var v := GateValue(f, inputs, before.value, gate);
      if v.Some? && before.value + [v.value] == values[m..n] + [values[n]] {
        assert before.value == (before.value + [v.value])[..|init|] == values[m..n];
        assert v.value == (before.value + [v.value])[|init|] == values[n];
      }
    }
  }

  /** Running gates to given values is the same as each gate giving its own value. */
  lemma {:induction false} RunsGateByGate<F(!new)>(f: Field<F>, values: seq<F>, m: nat, gates: seq<Gate>)
    requires m + |gates| <= |values|
    ensures RunGates(f, values[..m], gates) == Some(values[m..m + |gates|]) <==> GatesAgree(f, values, m, gates)
  {
    if gates == [] {
      assert values[m..m] == [];
    } else {
      hide GateValue, RunGates, GatesAgree;
      var init, last := gates[..|gates| - 1], gates[|gates| - 1];
      assert gates == init + [last];
      RunsGateByGate(f, values, m, init);
      GatesAgreeNext(f, values, m, init, last);
      RunNext(f, values, m, init, last);
    }
  }

  /** The emitted program means the recorded circuit: for every assignment of values to the
      slots, the program run on the input slots yields exactly the values of the builtin slots
      if and only if the assignment satisfies every recorded operation. */
  lemma ProgramMeansCircuit<F(!new)>(f: Field<F>, log: seq<Entry<F>>, calls: map<int, Call>, values: seq<F>)
    requires IsRecording(f, CairoOne, log, calls) && |values| == |Ordered(log)|
    ensures InputCount(log) <= |Ordered(log)| == |Moved(log)|
    ensures var m := InputCount(log); var res := EmittedOf(Moved(log), m, |values| - m);
      && res.Ok?
      && (RunGates(f, values[..m], res.value.gates) == Some(values[m..]) <==> Satisfies(f, calls, EnvOf(log, values)))
  {
    hide Tiled, MapOf, Ordered, Stacks, NameOf, EnvOf, RefValue, GateValue, RunGates, EmittedOf, Relocate, GateOf, IsRecording, SatisfiesAt, NamesSlots, InputCount, Satisfies;
    var m := InputCount(log);
    InputsComeFirst(log);
    var n := |values| - m;
    EmitsOriginalCalls(f, log, calls, n);
    var gates := EmittedOf(Moved(log), m, n).value.gates;
    RunsGateByGate(f, values, m, gates);
    assert values[m..m + n] == values[m..];
    var env := EnvOf(log, values);
    forall i: nat | m <= i < m + n
      ensures Ordered(log)[i].offset in calls
      ensures GateAgrees(f, values, m, gates, i) <==> SatisfiesAt(f, calls[Ordered(log)[i].offset], Ordered(log)[i].offset, env)
    {
      GateIsSatisfied(f, log, calls, values, i);
      assert IsOriginalGate(log, calls, gates, i);
    }
    SatisfiesEverySlot(f, log, calls, env);
  }

  lemma InputsComeFirst<F>(log: seq<Entry<F>>)
    ensures InputCount(log) <= |Ordered(log)|
  {
  }

  lemma GateIsSatisfied<F(!new)>(f: Field<F>, log: seq<Entry<F>>, calls: map<int, Call>, values: seq<F>, i: nat)
    requires IsRecording(f, CairoOne, log, calls) && InputCount(log) <= i < |Ordered(log)| == |values|
    ensures var o := Ordered(log)[i].offset;
      && o in calls && GateOf(log, calls[o]).Some?
      && (GateValue(f, values[..InputCount(log)], values[InputCount(log)..i], GateOf(log, calls[o]).value) == Some(values[i])
          <==> SatisfiesAt(f, calls[o], o, EnvOf(log, values)))
  {
    hide GateValue, GateOf, Tiled, Ordered, Stacks, MapOf, EnvOf, IsCircuit;
    GateMeansCall(f, log, calls, values, i);
    OwnValue(log, values, i);
  }

  /** The operations of a circuit are those of its builtin places. */
  lemma SatisfiesEverySlot<F(!new)>(f: Field<F>, log: seq<Entry<F>>, calls: map<int, Call>, env: map<int, F>)
    requires IsRecording(f, CairoOne, log, calls)
    requires forall i: nat :: InputCount(log) <= i < |Ordered(log)| ==> Ordered(log)[i].offset in calls
    ensures Satisfies(f, calls, env) <==>
      forall i: nat :: InputCount(log) <= i < |Ordered(log)| ==>
        SatisfiesAt(f, calls[Ordered(log)[i].offset], Ordered(log)[i].offset, env)
  {
    hide Tiled, Ordered, Stacks, MapOf, SatisfiesAt;
    TiledIsAscending(log);
    forall i: nat | InputCount(log) <= i < |Ordered(log)|
      ensures !calls[Ordered(log)[i].offset].Supplied?
    {
      OrderedHasEntry(log, Ordered(log)[i]);
      EntryIsJustified(f, CairoOne, log, calls, Ordered(log)[i]);
      BuiltinsFollowInputs(log, i);
    }
    forall o | o in calls && !calls[o].Supplied?
      ensures exists i: nat :: InputCount(log) <= i < |Ordered(log)| && Ordered(log)[i].offset == o
    {
      var e := Entry(o, MapOf(log)[o]);
      MapHasEntry(log, e);
      OrderedHasEntry(log, e);
      EntryIsJustified(f, CairoOne, log, calls, e);
      var i: nat :| i < |Ordered(log)| && Ordered(log)[i] == e;
      BuiltinsFollowInputs(log, i);
    }
  }

  /** The values of some entries, in order. */
  function EntryValues<F>(entries: seq<Entry<F>>): seq<F> {
    seq(|entries|, i requires 0 <= i < |entries| => entries[i].item.value)
  }

  function RecordedValues<F>(log: seq<Entry<F>>): seq<F> {
    EntryValues(Ordered(log))
  }

  /** The values recorded while the circuit was built are what the program computes. */
  lemma ProgramComputesRecordedValues<F(!new)>(f: Field<F>, log: seq<Entry<F>>, calls: map<int, Call>)
    requires IsRecording(f, CairoOne, log, calls)
    ensures InputCount(log) <= |Ordered(log)| == |Moved(log)|
    ensures var m, values := InputCount(log), RecordedValues(log);
      var res := EmittedOf(Moved(log), m, |Ordered(log)| - m);
      res.Ok? && RunGates(f, values[..m], res.value.gates) == Some(values[m..])
  {
    hide *;
    var values := RecordedValues(log);
    RecordedLength(log);
    ProgramMeansCircuit(f, log, calls, values);
    RecordedSatisfies(f, log, calls);
  }

  lemma RecordedLength<F>(log: seq<Entry<F>>)
    ensures |RecordedValues(log)| == |Ordered(log)|
  {
  }

  lemma RecordedAssignment<F>(log: seq<Entry<F>>)
    requires Tiled(log)
    ensures EnvOf(log, RecordedValues(log)) == ValuesOf(MapOf(log))
  {
    hide Ordered, Tiled, MapOf, EnvOf;
    var values, env := RecordedValues(log), EnvOf(log, RecordedValues(log));
    TiledIsAscending(log);
    forall o | o in MapOf(log)
      ensures o in env && env[o] == MapOf(log)[o].value
    {
      var e := Entry(o, MapOf(log)[o]);
      MapHasEntry(log, e);
      OrderedHasEntry(log, e);
      var i: nat :| i < |Ordered(log)| && Ordered(log)[i] == e;
      OwnValue(log, values, i);
    }
    EnvIsPartial(log, values);
  }

  lemma EnvIsPartial<F>(log: seq<Entry<F>>, values: seq<F>)
    ensures EnvOf(log, values).Keys <= MapOf(log).Keys
  {
  }

  lemma RecordedSatisfies<F(!new)>(f: Field<F>, log: seq<Entry<F>>, calls: map<int, Call>)
    requires IsRecording(f, CairoOne, log, calls)
    ensures Satisfies(f, calls, EnvOf(log, RecordedValues(log)))
  {
    hide EnvOf, MapOf, RecordedValues, Tiled;
    RecordedAssignment(log);
  }

  // ----- compiling a circuit -----

  /** The input names declared, the constants the prologue supplies for the first of them, the
      gates, and the names put out. */
  datatype Program<F> = Program(inputs: seq<nat>, constants: seq<F>, gates: seq<Gate>, outputs: seq<Ref>)

  lemma {:induction false} SameValuesInStack<F>(t: seq<Entry<F>>, entries: seq<Entry<F>>, s: WriteSource)
    requires CarriesOver(t, entries)
    ensures EntryValues(Stack(t, s)) == EntryValues(Stack(entries, s))
  {
    if t != [] {
      SameValuesInStack(t[..|t| - 1], entries[..|t| - 1], s);
      ValuesNext(Stack(t[..|t| - 1], s), t[|t| - 1]);
      ValuesNext(Stack(entries[..|t| - 1], s), entries[|t| - 1]);
    }
  }

  lemma ValuesNext<F>(entries: seq<Entry<F>>, e: Entry<F>)
    ensures EntryValues(entries + [e]) == EntryValues(entries) + [e.item.value]
    ensures EntryValues(entries + []) == EntryValues(entries)
  {
    assert entries + [] == entries;
  }

  lemma StackIsOneSource<F>(log: seq<Entry<F>>, s: WriteSource)
    ensures AllFrom(Stack(log, s), s)
  {
    forall i | 0 <= i < |Stack(log, s)|
      ensures Stack(log, s)[i].item.source == s
    {
      StackHasEntry(log, s, Stack(log, s)[i]);
    }
  }

  /** Reordering leaves the constants in their order. */
  lemma ConstantsOfOrdered<F>(log: seq<Entry<F>>)
    ensures Stack(Ordered(log), CONSTANT) == Stack(log, CONSTANT)
  {
    hide *;
    OrderOfStacks(log);
    var c, i, m, w, l, b :=
      Stack(log, CONSTANT), Stack(log, INPUT), Stack(log, COMMIT), Stack(log, WITNESS), Stack(log, FELT), Stack(log, BUILTIN);
    StackIsOneSource(log, CONSTANT);
    StackIsOneSource(log, INPUT);
    StackIsOneSource(log, COMMIT);
    StackIsOneSource(log, WITNESS);
    StackIsOneSource(log, FELT);
    StackIsOneSource(log, BUILTIN);
    StackOfOneSource(c, CONSTANT, CONSTANT);
    StackBeforeBlock(c, i, INPUT, CONSTANT);
    StackBeforeBlock(c + i, m, COMMIT, CONSTANT);
    StackBeforeBlock(c + i + m, w, WITNESS, CONSTANT);
    StackBeforeBlock(c + i + m + w, l, FELT, CONSTANT);
    StackBeforeBlock(c + i + m + w + l, b, BUILTIN, CONSTANT);
  }

  lemma ConstantsOfMoved<F>(log: seq<Entry<F>>)
    requires Tiled(log)
    ensures EntryValues(Stack(Moved(log), CONSTANT)) == EntryValues(Stack(log, CONSTANT))
  {
    hide Tiled, Relocate, Ordered, Stack, EntryValues, CarriesOver;
    RelocationCarriesOver(log);
    OrderOfStacks(log);
    SameValuesInStack(Moved(log), Ordered(log), CONSTANT);
    ConstantsOfOrdered(log);
  }

  /** fill_cairo_1_constants: the values of the constant stack, in order. */
  method FillConstants<F>(segment: ValueSegment<F>) returns (constants: seq<F>)
    requires segment.Valid()
    ensures constants == EntryValues(Stack(segment.log, CONSTANT))
  {
    hide Tiled, MapOf, Stack;
    var stack := segment.StackAt(CONSTANT);
    constants := [];
    for i := 0 to |stack|
      invariant constants == EntryValues(stack[..i])
    {
      SlotHoldsEntry(segment.log, CONSTANT, i);
      constants := constants + [segment.segment[stack[i].offset].value];
    }
    assert stack[..|stack|] == stack;
  }

  lemma SlotHoldsEntry<F>(log: seq<Entry<F>>, s: WriteSource, i: nat)
    requires Tiled(log) && i < |Stack(log, s)|
    ensures Stack(log, s)[i].offset in MapOf(log) && MapOf(log)[Stack(log, s)[i].offset] == Stack(log, s)[i].item
  {
    hide Tiled, MapOf, Stack;
    TiledIsAscending(log);
    StackHasEntry(log, s, Stack(log, s)[i]);
    MapHasEntry(log, Stack(log, s)[i]);
  }

  lemma SameInputCount<F>(t: seq<Entry<F>>, log: seq<Entry<F>>)
    requires SameSources(Ordered(t), Ordered(log))
    ensures InputCount(t) == InputCount(log)
  {
    hide Stacks;
    InputsComeFirst(t);
    InputsComeFirst(log);
    if InputCount(t) < InputCount(log) {
      BuiltinsFollowInputs(t, InputCount(t));
      BuiltinsFollowInputs(log, InputCount(t));
    } else if InputCount(log) < InputCount(t) {
      BuiltinsFollowInputs(t, InputCount(log));
      BuiltinsFollowInputs(log, InputCount(log));
    }
  }

  /** In the relocated segment the input stacks come first and the builtin stack last. */
  lemma RelocatedStacks<F>(log: seq<Entry<F>>)
    requires Tiled(log)
    ensures InputCount(log) <= |Ordered(log)| == |Moved(log)|
    ensures Stacks(Moved(log), 5) == Moved(log)[..InputCount(log)]
    ensures Stack(Moved(log), BUILTIN) == Moved(log)[InputCount(log)..]
  {
    hide Tiled, Ordered, Relocate, Stack, Stacks;
    var t := Moved(log);
    RelocatedIsGrouped(log);
    RelocationIsTiled(Ordered(log));
    InputsComeFirst(log);
    forall i | 0 <= i < |t|
      ensures t[i].item.source == Ordered(log)[i].item.source
    {
      SlotMoves(log, i);
    }
    SameInputCount(t, log);
    assert Ordered(t) == Stacks(t, 5) + Stack(t, BUILTIN) by {
      OrderedIsStacks(t);
      StacksNext(t, 5);
    }
  }

  /** All input stacks of a segment, one after the other. */
  method WriteInputs<F>(segment: ValueSegment<F>) returns (names: seq<nat>, refs: map<int, Ref>)
    requires segment.Valid()
    ensures refs == NameInputs(map[], Stacks(segment.log, 5), 0)
    ensures names == Range(0, |Stacks(segment.log, 5)|)
  {
    hide NameInputs, Stacks, Stack, Tiled, MapOf, Range, Flatten;
    names, refs := [], map[];
    NothingWritten(segment.log);
    var startIndex := 0;
    for k := 0 to 5
      invariant refs == NameInputs(map[], Stacks(segment.log, k), 0)
      invariant names == Range(0, startIndex) && startIndex == |Stacks(segment.log, k)|
    {
      var lets, newRefs, endIndex := WriteInputStack(segment, SourceAt(k), refs, startIndex);
      StacksNext(segment.log, k);
      NameConcat(map[], Stacks(segment.log, k), Stack(segment.log, SourceAt(k)), 0);
      RangeConcat(startIndex, endIndex - startIndex);
      names, refs, startIndex := names + Flatten(lets), newRefs, endIndex;
    }
  }

  lemma NothingWritten<F>(log: seq<Entry<F>>)
    ensures NameInputs(map[], Stacks(log, 0), 0) == map[] && Range(0, 0) == [] && Stacks(log, 0) == []
  {
  }

  lemma RangeConcat(a: nat, b: nat)
    ensures Range(0, a) + Range(a, b) == Range(0, a + b)
  {
  }

  /** The output names: only outputs computed by a builtin are listed. */
  method WriteOutputs<F>(segment: ValueSegment<F>, refs: map<int, Ref>) returns (outputs: seq<Ref>)
    requires segment.Valid() && segment.IsLinked()
    requires forall o :: o in MapOf(segment.log) ==> o in refs
    ensures outputs == OutputRefs(segment.log, segment.output, refs)
  {
    outputs := [];
    for i := 0 to |segment.output|
      invariant outputs == OutputRefs(segment.log, segment.output[..i], refs)
    {
      assert segment.output[..i + 1][..i] == segment.output[..i];
      var out := segment.output[i];
      assert out in segment.output;
      if segment.segment[out.offset].source == BUILTIN {
        outputs := outputs + [refs[out.offset]];
      }
    }
    assert segment.output[..|segment.output|] == segment.output;
  }

  function OutputRefs<F>(log: seq<Entry<F>>, output: seq<Element<F>>, refs: map<int, Ref>): seq<Ref> {
    if output == [] then [] else
      var last := output[|output| - 1].offset;
      OutputRefs(log, output[..|output| - 1], refs)
        + if last in MapOf(log) && MapOf(log)[last].source == BUILTIN && last in refs then [refs[last]] else []
  }

  /** The outputs of a circuit that are computed by a builtin, in order. */
  function BuiltinOutputs<F>(log: seq<Entry<F>>, output: seq<Element<F>>): seq<Element<F>> {
    if output == [] then [] else
      var last := output[|output| - 1];
      BuiltinOutputs(log, output[..|output| - 1])
        + if last.offset in MapOf(log) && MapOf(log)[last.offset].source == BUILTIN then [last] else []
  }

  ghost predicate AreBuiltin<F>(log: seq<Entry<F>>, output: seq<Element<F>>) {
    forall i :: 0 <= i < |output| ==> output[i].offset in MapOf(log) && MapOf(log)[output[i].offset].source == BUILTIN
  }

  /** No output is dropped exactly when a builtin instruction wrote them all. */
  lemma {:induction false} OutputsAreCompleteExactly<F>(log: seq<Entry<F>>, output: seq<Element<F>>)
    ensures |BuiltinOutputs(log, output)| <= |output|
    ensures |BuiltinOutputs(log, output)| == |output| <==> AreBuiltin(log, output)
    ensures AreBuiltin(log, output) ==> BuiltinOutputs(log, output) == output
  {
    hide MapOf;
    if output != [] {
      var n := |output| - 1;
      OutputsAreCompleteExactly(log, output[..n]);
      assert output == output[..n] + [output[n]];
      if AreBuiltin(log, output[..n]) && output[n].offset in MapOf(log) && MapOf(log)[output[n].offset].source == BUILTIN {
        forall i | 0 <= i < |output|
          ensures output[i].offset in MapOf(log) && MapOf(log)[output[i].offset].source == BUILTIN
        {
          assert i < n ==> output[..n][i] == output[i];
        }
      }
    }
  }

  /** The constant c, the sum c + c, and c as the only output: nothing is put out. */
  lemma ConstantOutputIsDropped<F(!new)>(f: Field<F>, c: F)
    ensures var add := Instruction(ADD, Some(0), Some(0), None);
      var log := [Entry(0, Item(c, CONSTANT, None)), Entry(4, Item(f.add(c, c), BUILTIN, Some(add)))];
      Tiled(log) && Stack(log, BUILTIN) == [log[1]] && BuiltinOutputs(log, [Element(c, 0)]) == []
  {
    var add := Instruction(ADD, Some(0), Some(0), None);
    var first, second := Entry(0, Item(c, CONSTANT, None)), Entry(4, Item(f.add(c, c), BUILTIN, Some(add)));
    Append([], first);
    Append([first], second);
    assert [] + [first] == [first] && [first] + [second] == [first, second];
    assert [Element(c, 0)][..0] == [];
  }

  /** Each listed output is the name of its original slot. */
  lemma {:induction false} OutputsAreNamed<F>(log: seq<Entry<F>>, output: seq<Element<F>>, moved: seq<Element<F>>, refs: map<int, Ref>)
    requires Tiled(log) && |Moved(log)| == |Ordered(log)|
    requires forall e :: e in output ==> e.offset in MapOf(log)
    requires |moved| == |output| && forall i :: 0 <= i < |output| ==> moved[i] == Element(output[i].value, NewOffset(log, output[i].offset))
    requires NamesSlots(Moved(log), InputCount(log), |Moved(log)|, refs)
    ensures |OutputRefs(Moved(log), moved, refs)| == |BuiltinOutputs(log, output)|
    ensures forall i :: 0 <= i < |BuiltinOutputs(log, output)| ==>
      OutputRefs(Moved(log), moved, refs)[i] == NameOf(log, BuiltinOutputs(log, output)[i].offset)
  {
    hide Tiled, Ordered, Relocate, Stacks, MapOf, NameOf, NewOffset;
    if output != [] {
      var n := |output| - 1;
      OutputsAreNamed(log, output[..n], moved[..n], refs);
      assert output[n] in output;
      ValuesMove(log, output[n].offset);
      SlotIsNamed(log, output[n].offset, refs);
    }
  }

  lemma SlotIsNamed<F>(log: seq<Entry<F>>, o: int, refs: map<int, Ref>)
    requires Tiled(log) && |Moved(log)| == |Ordered(log)| && o in MapOf(log)
    requires NamesSlots(Moved(log), InputCount(log), |Moved(log)|, refs)
    ensures NewOffset(log, o) in refs && refs[NewOffset(log, o)] == NameOf(log, o)
  {
    TiledIsAscending(log);
    var e := Entry(o, MapOf(log)[o]);
    MapHasEntry(log, e);
    OrderedHasEntry(log, e);
    var j: nat :| j < |Ordered(log)| && Ordered(log)[j] == e;
    OrderedIsDistinct(log);
    PositionIs(Ordered(log), j);
    SlotMoves(log, j);
  }

  /** What a compiled program must be. The prologue supplies the constants; the caller supplies
      the inputs, the commitments, the witnesses and the felts, in this order. */
  ghost predicate IsProgramOf<F(!new)>(
      f: Field<F>, log: seq<Entry<F>>, calls: map<int, Call>, output: seq<Element<F>>, program: Program<F>)
  {
    var m := InputCount(log);
    var given := Stack(log, INPUT) + Stack(log, COMMIT) + Stack(log, WITNESS) + Stack(log, FELT);
    && program.constants == EntryValues(Stack(log, CONSTANT))
    && program.inputs == Range(0, m) && m == |program.constants| + |given| && m + |program.gates| == |Ordered(log)|
    && (forall i: nat :: m <= i < |Ordered(log)| ==> IsOriginalGate(log, calls, program.gates, i))
    && (forall values :: |values| == |Ordered(log)| ==>
         (RunGates(f, values[..m], program.gates) == Some(values[m..]) <==> Satisfies(f, calls, EnvOf(log, values))))
    && RunGates(f, program.constants + EntryValues(given), program.gates) == Some(EntryValues(Stack(log, BUILTIN)))
    && |program.outputs| == |BuiltinOutputs(log, output)|
    && forall i :: 0 <= i < |program.outputs| ==> program.outputs[i] == NameOf(log, BuiltinOutputs(log, output)[i].offset)
  }

  lemma ValuesOfConcat<F>(a: seq<Entry<F>>, b: seq<Entry<F>>)
    ensures EntryValues(a + b) == EntryValues(a) + EntryValues(b)
  {
  }

  /** The recorded values in relocated order: constants, given inputs, builtin slots. */
  lemma RecordedInParts<F>(log: seq<Entry<F>>)
    ensures var given := Stack(log, INPUT) + Stack(log, COMMIT) + Stack(log, WITNESS) + Stack(log, FELT);
      && InputCount(log) == |Stack(log, CONSTANT)| + |given| <= |RecordedValues(log)| == |Ordered(log)|
      && RecordedValues(log)[..InputCount(log)] == EntryValues(Stack(log, CONSTANT)) + EntryValues(given)
      && RecordedValues(log)[InputCount(log)..] == EntryValues(Stack(log, BUILTIN))
  {
    hide Stack, Ordered, Stacks;
    OrderOfStacks(log);
    var given := Stack(log, INPUT) + Stack(log, COMMIT) + Stack(log, WITNESS) + Stack(log, FELT);
    assert Stacks(log, 5) == Stack(log, CONSTANT) + given;
    assert Ordered(log) == Stack(log, CONSTANT) + given + Stack(log, BUILTIN);
    ValuesOfConcat(Stack(log, CONSTANT), given);
    ValuesOfConcat(Stack(log, CONSTANT) + given, Stack(log, BUILTIN));
  }

  lemma NameInBlock<F>(log: seq<Entry<F>>, before: seq<Entry<F>>, block: seq<Entry<F>>, after: seq<Entry<F>>, k: nat)
    requires Tiled(log) && Ordered(log) == before + block + after && k < |block|
    ensures NameOf(log, block[k].offset) == RefAt(InputCount(log), |before| + k)
  {
    hide Ordered, Stacks, Tiled, Position;
    OrderedIsDistinct(log);
    assert Ordered(log)[|before| + k] == block[k];
    PositionIs(Ordered(log), |before| + k);
  }

  lemma InputName(m: nat, i: nat)
    ensures i < m ==> RefAt(m, i) == In(i)
    ensures i >= m ==> RefAt(m, i) == T(i - m)
  {
  }

  lemma NamesInBlocks<F>(log: seq<Entry<F>>, c: seq<Entry<F>>, i: seq<Entry<F>>, m: seq<Entry<F>>, w: seq<Entry<F>>, l: seq<Entry<F>>,
      b: seq<Entry<F>>, k: nat)
    requires Tiled(log) && Ordered(log) == c + i + m + w + l + b && InputCount(log) == |c| + |i| + |m| + |w| + |l|
    ensures k < |c| ==> NameOf(log, c[k].offset) == In(k)
    ensures k < |i| ==> NameOf(log, i[k].offset) == In(|c| + k)
    ensures k < |m| ==> NameOf(log, m[k].offset) == In(|c| + |i| + k)
    ensures k < |w| ==> NameOf(log, w[k].offset) == In(|c| + |i| + |m| + k)
    ensures k < |l| ==> NameOf(log, l[k].offset) == In(|c| + |i| + |m| + |w| + k)
    ensures k < |b| ==> NameOf(log, b[k].offset) == T(k)
  {
    hide *;
    var n := InputCount(log);
    if k < |c| {
      NameInBlock(log, [], c, i + m + w + l + b, k);
      InputName(n, k);
    }
    if k < |i| {
      NameInBlock(log, c, i, m + w + l + b, k);
      InputName(n, |c| + k);
    }
    if k < |m| {
      NameInBlock(log, c + i, m, w + l + b, k);
      InputName(n, |c| + |i| + k);
    }
    if k < |w| {
      NameInBlock(log, c + i + m, w, l + b, k);
      InputName(n, |c| + |i| + |m| + k);
    }
    if k < |l| {
      NameInBlock(log, c + i + m + w, l, b, k);
      InputName(n, |c| + |i| + |m| + |w| + k);
    }
    if k < |b| {
      NameInBlock(log, c + i + m + w + l, b, [], k);
      InputName(n, n + k);
    }
  }

  /** The first names are those of the constants, the next those of the inputs, and so on; the
      temporaries are those of the builtin slots. */
  lemma NamesFollowStacks<F>(log: seq<Entry<F>>, k: nat)
    requires Tiled(log)
    ensures var c, i, m, w, l, b :=
        Stack(log, CONSTANT), Stack(log, INPUT), Stack(log, COMMIT), Stack(log, WITNESS), Stack(log, FELT), Stack(log, BUILTIN);
      && (k < |c| ==> NameOf(log, c[k].offset) == In(k))
      && (k < |i| ==> NameOf(log, i[k].offset) == In(|c| + k))
      && (k < |m| ==> NameOf(log, m[k].offset) == In(|c| + |i| + k))
      && (k < |w| ==> NameOf(log, w[k].offset) == In(|c| + |i| + |m| + k))
      && (k < |l| ==> NameOf(log, l[k].offset) == In(|c| + |i| + |m| + |w| + k))
      && (k < |b| ==> NameOf(log, b[k].offset) == T(k))
  {
    hide Stack, Ordered, Stacks, Tiled, NameOf;
    OrderOfStacks(log);
    NamesInBlocks(log, Stack(log, CONSTANT), Stack(log, INPUT), Stack(log, COMMIT), Stack(log, WITNESS), Stack(log, FELT), Stack(log, BUILTIN), k);
  }

  /** Emission from the stacks of the relocated segment succeeds and names every slot. */
  lemma EmissionSucceeds<F(!new)>(f: Field<F>, log: seq<Entry<F>>, calls: map<int, Call>)
    requires IsRecording(f, CairoOne, log, calls)
    ensures InputCount(log) <= |Ordered(log)| == |Moved(log)|
    ensures EmitGates(Stack(Moved(log), BUILTIN), NameInputs(map[], Stacks(Moved(log), 5), 0))
      == EmittedOf(Moved(log), InputCount(log), |Ordered(log)| - InputCount(log))
    ensures var res := EmittedOf(Moved(log), InputCount(log), |Ordered(log)| - InputCount(log));
      res.Ok? && forall o :: o in MapOf(Moved(log)) ==> o in res.value.refs
  {
    hide Tiled, Ordered, Stacks, Stack, IsCircuit, MapOf, Relocate, GateOf, DecodeGate, NameInputs, EmitGates, NameOf;
    var t, m := Moved(log), InputCount(log);
    RelocatedStacks(log);
    EmitsOriginalCalls(f, log, calls, |t| - m);
    assert t[m..m + (|t| - m)] == t[m..];
    RelocationIsTiled(Ordered(log));
    TiledIsAscending(t);
    var refs := EmittedOf(t, m, |t| - m).value.refs;
    forall o | o in MapOf(t)
      ensures o in refs
    {
      MapHasEntry(t, Entry(o, MapOf(t)[o]));
      var i: nat :| i < |t| && t[i] == Entry(o, MapOf(t)[o]);
    }
  }

  /** The parts written out one after the other make a program of the circuit. */
  lemma PartsMakeProgram<F(!new)>(
      f: Field<F>, log: seq<Entry<F>>, calls: map<int, Call>, output: seq<Element<F>>, moved: seq<Element<F>>, program: Program<F>)
    requires IsRecording(f, CairoOne, log, calls)
    requires forall e :: e in output ==> e.offset in MapOf(log)
    requires |moved| == |output| && forall i :: 0 <= i < |output| ==> moved[i] == Element(output[i].value, NewOffset(log, output[i].offset))
    requires InputCount(log) <= |Ordered(log)| == |Moved(log)|
    requires var res := EmittedOf(Moved(log), InputCount(log), |Ordered(log)| - InputCount(log));
      res.Ok? && program.gates == res.value.gates && program.outputs == OutputRefs(Moved(log), moved, res.value.refs)
    requires program.inputs == Range(0, InputCount(log)) && program.constants == EntryValues(Stack(log, CONSTANT))
    ensures IsProgramOf(f, log, calls, output, program)
  {
    hide Tiled, Ordered, Stacks, Stack, IsCircuit, MapOf, Relocate, GateOf, EmittedOf, NameOf, NewOffset, RunGates, Satisfies, EnvOf,
      RecordedValues, OutputRefs, BuiltinOutputs, NamesSlots, IsOriginalGate, Range, InputCount;
    var m := InputCount(log);
    var n := |Ordered(log)| - m;
    EmitsOriginalCalls(f, log, calls, n);
    ProgramComputesRecordedValues(f, log, calls);
    forall values: seq<F> | |values| == |Ordered(log)|
      ensures RunGates(f, values[..m], program.gates) == Some(values[m..]) <==> Satisfies(f, calls, EnvOf(log, values))
    {
      ProgramMeansCircuit(f, log, calls, values);
    }
    OutputsAreNamed(log, output, moved, EmittedOf(Moved(log), m, n).value.refs);
    RecordedInParts(log);
  }

  /** compile_circuit_cairo_1 on a relocated segment: inputs, gates, outputs. */
  method EmitProgram<F(!new)>(segment: ValueSegment<F>, ghost f: Field<F>, ghost log: seq<Entry<F>>, ghost calls: map<int, Call>)
    returns (program: Program<F>)
    requires segment.Valid() && segment.IsLinked() && segment.log == Moved(log)
    requires IsRecording(f, CairoOne, log, calls)
    ensures InputCount(log) <= |Ordered(log)| == |Moved(log)| && program.inputs == Range(0, InputCount(log))
    ensures program.constants == EntryValues(Stack(log, CONSTANT))
    ensures var res := EmittedOf(Moved(log), InputCount(log), |Ordered(log)| - InputCount(log));
      res.Ok? && program.gates == res.value.gates && program.outputs == OutputRefs(Moved(log), segment.output, res.value.refs)
  {
    hide *;
    EmissionSucceeds(f, log, calls);
    var names, refs := WriteInputs(segment);
    var emitted := WriteCircuit(segment, refs);
    var outputs := WriteOutputs(segment, emitted.value.refs);
    var constants := FillConstants(segment);
    RelocatedInputs(f, log, calls);
    return Program(names, constants, emitted.value.gates, outputs);
  }

  lemma RelocatedInputs<F(!new)>(f: Field<F>, log: seq<Entry<F>>, calls: map<int, Call>)
    requires IsRecording(f, CairoOne, log, calls)
    ensures |Stacks(Moved(log), 5)| == InputCount(log)
    ensures EntryValues(Stack(Moved(log), CONSTANT)) == EntryValues(Stack(log, CONSTANT))
  {
    hide Stack, EntryValues, Moved;
    RelocatedStacks(log);
    ConstantsOfMoved(log);
  }

  /** compile_circuit in the newer mode. An empty circuit gives no program. Otherwise the
      program declares every input once, means exactly the recorded operations, computes the
      recorded values, and lists the builtin outputs. */
  method CompileCircuit<F(!new)>(circuit: ModuloCircuit<F>) returns (program: Option<Program<F>>)
    requires circuit.Valid() && circuit.compilationMode == CairoOne
    modifies circuit`valuesSegment
    ensures program.None? <==> Stack(old(circuit.valuesSegment.log), BUILTIN) == []
    ensures program.Some? ==>
      IsProgramOf(circuit.field, old(circuit.valuesSegment.log), circuit.calls, old(circuit.valuesSegment.output), program.value)
  {
    hide MapOf, Tiled, IsCircuit, Ordered, Relocate, Stack, Stacks, IsClosed, NewOffset, IsProgramOf, Range, Moved,
      OutputRefs, EmittedOf, AreConstants, InputCount, MovedInstruction, AreLinked;
    ghost var log, output := circuit.valuesSegment.log, circuit.valuesSegment.output;
    assert IsRecording(circuit.field, CairoOne, log, circuit.calls);
    var builtins := circuit.valuesSegment.StackAt(BUILTIN);
    if |builtins| == 0 {
      return None;
    }
    var t := TransformLinked(circuit.valuesSegment);
    circuit.valuesSegment := t;
    var p := EmitProgram(t, circuit.field, log, circuit.calls);
    PartsMakeProgram(circuit.field, log, circuit.calls, output, t.output, p);
    return Some(p);
  }

  /** Relocation of a linked segment succeeds, and the result is linked. */
  method TransformLinked<F>(segment: ValueSegment<F>) returns (t: ValueSegment<F>)
    requires segment.Valid() && segment.IsLinked()
    ensures fresh(t) && t.Valid() && t.IsLinked() && t.log == Moved(segment.log)
    ensures |t.output| == |segment.output|
    ensures forall i :: 0 <= i < |segment.output| ==>
      t.output[i] == Element(segment.output[i].value, NewOffset(segment.log, segment.output[i].offset))
    ensures forall e :: e in segment.output ==> e.offset in MapOf(segment.log)
  {
    hide MapOf, Tiled, Ordered, Relocate, Stack, IsClosed, NewOffset, MovedInstruction;
    var res := segment.NonInteractiveTransform();
    t := res.value;
    RelocatedIsLinked(segment.log, segment.assertEqInstructions, segment.output, t.assertEqInstructions, t.output);
  }

  lemma RelocatedIsLinked<F>(
      log: seq<Entry<F>>, assertions: seq<Instruction>, output: seq<Element<F>>, movedAssertions: seq<Instruction>, movedOutput: seq<Element<F>>)
    requires Tiled(log) && AreLinked(log, assertions, output)
    requires |movedOutput| == |output| && |movedAssertions| == |assertions|
    requires forall i :: 0 <= i < |output| ==> movedOutput[i] == Element(output[i].value, NewOffset(log, output[i].offset))
    requires forall i :: 0 <= i < |assertions| ==> movedAssertions[i] == MovedInstruction(log, assertions[i], 0)
    ensures AreLinked(Moved(log), movedAssertions, movedOutput)
  {
    hide Tiled, MapOf, Ordered, Relocate, NewOffset, MovedInstruction, IsClosed;
    forall a | a in movedAssertions
      ensures IsClosed(Moved(log), a)
    {
      var i :| 0 <= i < |movedAssertions| && movedAssertions[i] == a;
      assert assertions[i] in assertions;
      HoldingIsPreserved(log, (op, x: F, y: F) => x, assertions[i], 0);
    }
    forall e | e in movedOutput
      ensures e.offset in MapOf(Moved(log))
    {
      var i :| 0 <= i < |movedOutput| && movedOutput[i] == e;
      assert output[i] in output;
      ValuesMove(log, output[i].offset);
    }
  }
}
