/** Emitting an addition chain as straight-line code over a monoid. */
module AddChainEmitter {
  import opened AddChainSyntax
  import opened IntMath
  import opened Results

  /** One line of an emitted block. */
  datatype Line =
    | LetProduct(temp: string, left: string, right: string)
    | LetSquares(temp: string, value: string, amount: nat)

  /** let name = source.clone();  or  let name = { lines; result }; */
  datatype Assignment =
    | Clone(name: string, source: string)
    | Block(name: string, lines: seq<Line>, result: string)

  function TempName(k: nat): string {
    "t" + Decimal(k)
  }

  lemma TempNamesDiffer(j: nat, k: nat)
    requires TempName(j) == TempName(k)
    ensures j == k
  {
    DecimalIsNumeral(j);
    DecimalIsNumeral(k);
    assert TempName(j)[1..] == Decimal(j) && TempName(k)[1..] == Decimal(k);
  }

  /** s is one of the temporaries numbered from k to n - 1. */
  ghost predicate IsTempIn(s: string, k: nat, n: nat) {
    exists j: nat :: k <= j < n && s == TempName(j)
  }

  lemma BaseIsNoTemp(k: nat, n: nat)
    ensures !IsTempIn("base", k, n)
  {
    forall j: nat
      ensures "base" != TempName(j)
    {
      assert TempName(j)[0] == 't';
    }
  }

  lemma TempIsIn(t: nat, k: nat, n: nat)
    ensures IsTempIn(TempName(t), k, n) <==> k <= t < n
  {
    if IsTempIn(TempName(t), k, n) {
      var j: nat :| k <= j < n && TempName(t) == TempName(j);
      TempNamesDiffer(t, j);
    }
  }

  // ----- the emitter -----

  datatype Emission = Emission(name: string, lines: seq<Line>, next: nat)

  /** The code of an expression, with temporaries numbered from k. */
  function Emit(e: Expr, k: nat): Emission {
    match e
    case Var(name) => Emission(if name == "1" then "base" else name, [], k)
    case Add(l, r) =>
      var left := Emit(l, k);
      var right := Emit(r, left.next);
      Emission(TempName(right.next), left.lines + right.lines + [LetProduct(TempName(right.next), left.name, right.name)], right.next + 1)
    case Shift(v, n) =>
      var value := Emit(v, k);
      Emission(TempName(value.next), value.lines + [LetSquares(TempName(value.next), value.name, n)], value.next + 1)
  }

  /** The left operand is emitted before the right one. */
  lemma EmitsLeftFirst(x: string, y: string)
    requires x != "1" && y != "1"
    ensures Emit(Add(Shift(Var(x), 1), Shift(Var(y), 2)), 0)
      == Emission("t2", [LetSquares("t0", x, 1), LetSquares("t1", y, 2), LetProduct("t2", "t0", "t1")], 3)
  {
    assert TempName(0) == "t0" && TempName(1) == "t1" && TempName(2) == "t2";
    assert Emit(Shift(Var(x), 1), 0) == Emission("t0", [LetSquares("t0", x, 1)], 1);
    assert Emit(Shift(Var(y), 2), 1) == Emission("t1", [LetSquares("t1", y, 2)], 2);
  }

  function AssignmentOf(name: string, e: Expr): Assignment {
    var m := Emit(e, 0);
    if m.lines == [] then Clone(name, m.name) else Block(name, m.lines, m.name)
  }

  class Emitter {
    var tempCounter: nat

    constructor ()
      ensures tempCounter == 0
    {
      tempCounter := 0;
    }

    /** _temp */
    method Temp() returns (name: string)
      modifies this
      ensures name == TempName(old(tempCounter)) && tempCounter == old(tempCounter) + 1
    {
      name := TempName(tempCounter);
      tempCounter := tempCounter + 1;
    }

    /** emit_expr: appends to the lines and returns the name that holds the value. */
    method EmitExpr(e: Expr, lines: seq<Line>) returns (name: string, newLines: seq<Line>)
      modifies this
      ensures var m := Emit(e, old(tempCounter)); name == m.name && newLines == lines + m.lines && tempCounter == m.next
      decreases e
    {
      hide TempName;
      match e {
        case Var(v) =>
          return if v == "1" then "base" else v, lines;
        case Add(l, r) =>
          var left, afterLeft := EmitExpr(l, lines);
          var right, afterRight := EmitExpr(r, afterLeft);
          var temp := Temp();
          ghost var a, b := Emit(l, old(tempCounter)), Emit(r, Emit(l, old(tempCounter)).next);
          assert lines + a.lines + b.lines + [LetProduct(temp, left, right)]
            == lines + (a.lines + b.lines + [LetProduct(temp, left, right)]);
          return temp, afterRight + [LetProduct(temp, left, right)];
        case Shift(v, n) =>
          var value, afterValue := EmitExpr(v, lines);
          var temp := Temp();
          return temp, afterValue + [LetSquares(temp, value, n)];
      }
    }

    /** emit_assignment: temporaries restart with every assignment. */
    method EmitAssignment(name: string, e: Expr) returns (a: Assignment)
      modifies this
      ensures a == AssignmentOf(name, e)
    {
      tempCounter := 0;
      var result, lines := EmitExpr(e, []);
      if |lines| == 0 {
        return Clone(name, result);
      }
      return Block(name, lines, result);
    }
  }

  function AssignmentsOf(defs: seq<(string, Expr)>): seq<Assignment> {
    if defs == [] then [] else
      AssignmentsOf(defs[..|defs| - 1]) + [AssignmentOf(defs[|defs| - 1].0, defs[|defs| - 1].1)]
  }

  /** emit_chain_function: after "let base", one assignment per definition and one for the result. */
  method EmitChainFunction(defs: seq<(string, Expr)>, ret: Expr) returns (body: seq<Assignment>)
    ensures body == AssignmentsOf(defs) + [AssignmentOf("result", ret)]
  {
    var emitter := new Emitter();
    body := [];
    for i := 0 to |defs|
      invariant body == AssignmentsOf(defs[..i])
    {
      var a := emitter.EmitAssignment(defs[i].0, defs[i].1);
      assert defs[..i + 1][..i] == defs[..i];
      body := body + [a];
    }
    assert defs[..|defs|] == defs;
    var last := emitter.EmitAssignment("result", ret);
    body := body + [last];
  }

  // ----- what a chain denotes -----

  /** The integer an expression denotes; none when it uses an undefined variable. */
  function Value(e: Expr, env: map<string, nat>): Option<nat> {
    match e
    case Var(name) => if name == "1" then Some(1) else if name in env then Some(env[name]) else None
    case Add(l, r) =>
      var x, y := Value(l, env), Value(r, env);
      if x.Some? && y.Some? then Some(x.value + y.value) else None
    case Shift(v, n) =>
      var x := Value(v, env);
      if x.Some? then Some(x.value * Pow2(n)) else None
  }

  /** The integers of the definitions, in order. */
  function Definitions(defs: seq<(string, Expr)>): Option<map<string, nat>> {
    if defs == [] then Some(map[]) else
      var before, last := Definitions(defs[..|defs| - 1]), defs[|defs| - 1];
      if before.None? then None else
        var v := Value(last.1, before.value);
        if v.None? then None else Some(before.value[last.0 := v.value])
  }

  function ChainValue(defs: seq<(string, Expr)>, ret: Expr): Option<nat> {
    var env := Definitions(defs);
    if env.None? then None else Value(ret, env.value)
  }

  // ----- what emitted code computes -----

  /** x^n by repeated multiplication; every exponent of a chain is positive. */
  function PowerOf<M>(mul: (M, M) -> M, x: M, n: nat): M
    requires n > 0
  {
    if n == 1 then x else mul(PowerOf(mul, x, n - 1), x)
  }

  /** square_n */
  function Squares<M>(mul: (M, M) -> M, x: M, n: nat): M {
    if n == 0 then x else
      var y := Squares(mul, x, n - 1);
      mul(y, y)
  }

  function RunLine<M>(mul: (M, M) -> M, line: Line, env: map<string, M>): Option<map<string, M>> {
    match line
    case LetProduct(t, l, r) => if l in env && r in env then Some(env[t := mul(env[l], env[r])]) else None
    case LetSquares(t, v, n) => if v in env then Some(env[t := Squares(mul, env[v], n)]) else None
  }

  function RunLines<M>(mul: (M, M) -> M, lines: seq<Line>, env: map<string, M>): Option<map<string, M>> {
    if lines == [] then Some(env) else
      var before := RunLines(mul, lines[..|lines| - 1], env);
      if before.None? then None else RunLine(mul, lines[|lines| - 1], before.value)
  }

  /** A block's temporaries are local: only the assigned name is visible afterwards. */
  function RunAssignment<M>(mul: (M, M) -> M, a: Assignment, env: map<string, M>): Option<map<string, M>> {
    match a
    case Clone(name, source) => if source in env then Some(env[name := env[source]]) else None
    case Block(name, lines, result) =>
      var inner := RunLines(mul, lines, env);
      if inner.Some? && result in inner.value then Some(env[name := inner.value[result]]) else None
  }

  function RunAssignments<M>(mul: (M, M) -> M, body: seq<Assignment>, env: map<string, M>): Option<map<string, M>> {
    if body == [] then Some(env) else
      var before := RunAssignments(mul, body[..|body| - 1], env);
      if before.None? then None else RunAssignment(mul, body[|body| - 1], before.value)
  }

  /** The value of the emitted function at `base`. */
  function RunBody<M>(mul: (M, M) -> M, body: seq<Assignment>, base: M): Option<M> {
    var env := RunAssignments(mul, body, map["base" := base]);
    if env.Some? && "result" in env.value then Some(env.value["result"]) else None
  }

  ghost predicate IsAssociative<M(!new)>(mul: (M, M) -> M) {
    forall x, y, z :: mul(mul(x, y), z) == mul(x, mul(y, z))
  }

  lemma {:induction false} PowersMultiply<M(!new)>(mul: (M, M) -> M, x: M, m: nat, n: nat)
    requires IsAssociative(mul) && m > 0 && n > 0
    ensures mul(PowerOf(mul, x, m), PowerOf(mul, x, n)) == PowerOf(mul, x, m + n)
    decreases n
  {
    if n > 1 {
      PowersMultiply(mul, x, m, n - 1);
      assert PowerOf(mul, x, n) == mul(PowerOf(mul, x, n - 1), x);
      assert PowerOf(mul, x, m + n) == mul(PowerOf(mul, x, m + n - 1), x);
    }
  }

  lemma {:induction false} SquaresArePowers<M(!new)>(mul: (M, M) -> M, x: M, v: nat, n: nat)
    requires IsAssociative(mul) && v > 0
    ensures v * Pow2(n) > 0 && Squares(mul, PowerOf(mul, x, v), n) == PowerOf(mul, x, v * Pow2(n))
  {
    if n == 0 {
      assert Pow2(0) == 1;
    } else {
      hide IsAssociative, PowerOf, Pow2;
      var w := v * Pow2(n - 1);
      SquaresArePowers(mul, x, v, n - 1);
      Doubled(v, n);
      PowersMultiply(mul, x, w, w);
    }
  }

  lemma Doubled(v: nat, n: nat)
    requires n > 0
    ensures v * Pow2(n) == v * Pow2(n - 1) + v * Pow2(n - 1)
  {
    assert Pow2(n) == 2 * Pow2(n - 1);
  }

  // ----- any code computes the power it computes over the integers -----

  function Plus(x: nat, y: nat): nat {
    x + y
  }

  /** The variables of one run are the powers of base that the other run has as integers. */
  ghost predicate ArePowers<M(!new)>(mul: (M, M) -> M, base: M, ints: map<string, nat>, env: map<string, M>) {
    ints.Keys == env.Keys && forall s :: s in ints ==> ints[s] > 0 && env[s] == PowerOf(mul, base, ints[s])
  }

  /** Both runs stop, or both go on with matching variables. */
  ghost predicate Match<M(!new)>(mul: (M, M) -> M, base: M, ints: Option<map<string, nat>>, env: Option<map<string, M>>) {
    (ints.Some? <==> env.Some?) && (ints.Some? ==> ArePowers(mul, base, ints.value, env.value))
  }

  lemma {:induction false} SquaresOfInteger(x: nat, n: nat)
    ensures Squares(Plus, x, n) == x * Pow2(n)
  {
    if n > 0 {
      SquaresOfInteger(x, n - 1);
      Doubled(x, n);
    }
  }

  lemma LinesMatch<M(!new)>(mul: (M, M) -> M, base: M, line: Line, ints: map<string, nat>, env: map<string, M>)
    requires IsAssociative(mul) && ArePowers(mul, base, ints, env)
    ensures Match(mul, base, RunLine(Plus, line, ints), RunLine(mul, line, env))
  {
    hide IsAssociative, PowerOf, Squares, Pow2;
    match line {
      case LetProduct(t, l, r) =>
        if l in ints && r in ints {
          PowersMultiply(mul, base, ints[l], ints[r]);
        }
      case LetSquares(t, v, n) =>
        if v in ints {
          SquaresOfInteger(ints[v], n);
          SquaresArePowers(mul, base, ints[v], n);
        }
    }
  }

  lemma {:induction false} BlocksMatch<M(!new)>(mul: (M, M) -> M, base: M, lines: seq<Line>, ints: map<string, nat>, env: map<string, M>)
    requires IsAssociative(mul) && ArePowers(mul, base, ints, env)
    ensures Match(mul, base, RunLines(Plus, lines, ints), RunLines(mul, lines, env))
  {
    hide IsAssociative, ArePowers, RunLine;
    if lines != [] {
      var init := lines[..|lines| - 1];
      BlocksMatch(mul, base, init, ints, env);
      var i, e := RunLines(Plus, init, ints), RunLines(mul, init, env);
      if i.Some? {
        LinesMatch(mul, base, lines[|lines| - 1], i.value, e.value);
      }
    }
  }

  lemma {:induction false} AssignmentsMatch<M(!new)>(mul: (M, M) -> M, base: M, body: seq<Assignment>, ints: map<string, nat>, env: map<string, M>)
    requires IsAssociative(mul) && ArePowers(mul, base, ints, env)
    ensures Match(mul, base, RunAssignments(Plus, body, ints), RunAssignments(mul, body, env))
  {
    hide IsAssociative, PowerOf, RunLines;
    if body != [] {
      var init, last := body[..|body| - 1], body[|body| - 1];
      AssignmentsMatch(mul, base, init, ints, env);
      var i, e := RunAssignments(Plus, init, ints), RunAssignments(mul, init, env);
      if i.Some? && last.Block? {
        BlocksMatch(mul, base, last.lines, i.value, e.value);
      }
    }
  }

  /** Over every monoid the emitted code computes base to the integer it computes over the integers,
      whatever its names are. */
  lemma BodyIsPower<M(!new)>(mul: (M, M) -> M, base: M, body: seq<Assignment>)
    requires IsAssociative(mul)
    ensures var n, out := RunBody(Plus, body, 1), RunBody(mul, body, base);
      (out.Some? <==> n.Some?) && (n.Some? ==> n.value > 0 && out.value == PowerOf(mul, base, n.value))
  {
    hide IsAssociative, RunAssignments;
    assert PowerOf(mul, base, 1) == base;
    AssignmentsMatch(mul, base, body, map["base" := 1], map["base" := base]);
  }

  // ----- names -----

  /** Reading a chain variable where k temporaries have been assigned gives that variable: it is not
      one of them, and "base" still is the base where 1 is read. D holds the defined names. */
  ghost predicate Free(name: string, k: nat, D: set<string>) {
    if name == "1" then "base" !in D
    else if name == "base" then "base" in D
    else !IsTempIn(name, 0, k)
  }

  /** No read of the emitted code is captured. A variable on the left of a sum is read only after
      the right side has used its temporaries. */
  ghost predicate CaptureFree(e: Expr, k: nat, D: set<string>) {
    match e
    case Var(name) => Free(name, k, D)
    case Add(l, r) =>
      var left := Emit(l, k);
      && CaptureFree(l, k, D) && CaptureFree(r, left.next, D)
      && (l.Var? ==> Free(l.name, Emit(r, left.next).next, D))
    case Shift(v, _) => CaptureFree(v, k, D)
  }

  /** The variables the code starts with: those of the chain, and base. */
  function Start(ints: map<string, nat>): map<string, nat> {
    if "base" in ints then ints else ints["base" := 1]
  }

  predicate ArePositive(ints: map<string, nat>) {
    forall s :: s in ints ==> ints[s] > 0
  }

  /** Only temporaries numbered from k to n - 1 were assigned. */
  ghost predicate OnlyTemps(before: map<string, nat>, after: map<string, nat>, k: nat, n: nat) {
    forall s :: !IsTempIn(s, k, n) ==> (s in after <==> s in before) && (s in before ==> after[s] == before[s])
  }

  lemma WiderTemps(before: map<string, nat>, after: map<string, nat>, k: nat, n: nat, k': nat, n': nat)
    requires OnlyTemps(before, after, k, n) && k' <= k && n <= n'
    ensures OnlyTemps(before, after, k', n')
  {
    forall s | IsTempIn(s, k, n)
      ensures IsTempIn(s, k', n')
    {
      var j: nat :| k <= j < n && s == TempName(j);
    }
  }

  lemma TempsCompose(a: map<string, nat>, b: map<string, nat>, c: map<string, nat>, k: nat, n: nat)
    requires OnlyTemps(a, b, k, n) && OnlyTemps(b, c, k, n)
    ensures OnlyTemps(a, c, k, n)
  {
  }

  lemma {:induction false} RunsInSequence<M>(mul: (M, M) -> M, a: seq<Line>, b: seq<Line>, env: map<string, M>)
    ensures RunLines(mul, a + b, env) ==
      var middle := RunLines(mul, a, env);
      if middle.None? then None else RunLines(mul, b, middle.value)
    decreases |b|
  {
    if b == [] {
      assert a + b == a;
    } else {
      assert (a + b)[..|a + b| - 1] == a + b[..|b| - 1];
      RunsInSequence(mul, a, b[..|b| - 1], env);
    }
  }

  lemma RunsOneMore<M>(mul: (M, M) -> M, lines: seq<Line>, line: Line, env: map<string, M>)
    ensures RunLines(mul, lines + [line], env) ==
      var middle := RunLines(mul, lines, env);
      if middle.None? then None else RunLine(mul, line, middle.value)
  {
    assert (lines + [line])[..|lines|] == lines;
  }

  lemma {:induction false} EmitIsMonotone(e: Expr, k: nat)
    ensures k <= Emit(e, k).next
    ensures !e.Var? ==> k < Emit(e, k).next && Emit(e, k).name == TempName(Emit(e, k).next - 1)
  {
    hide TempName;
    match e
    case Var(_) =>
    case Add(l, r) =>
      EmitIsMonotone(l, k);
      EmitIsMonotone(r, Emit(l, k).next);
    case Shift(v, _) => EmitIsMonotone(v, k);
  }

  // ----- correctness of one expression -----

  /** The outcome of the emitted code of an expression with value v: read where n temporaries have
      been assigned, its name holds v. */
  ghost predicate IsOutcome(env: map<string, nat>, k: nat, m: Emission, out: Option<map<string, nat>>, v: Option<nat>) {
    && k <= m.next
    && (out.Some? ==> OnlyTemps(env, out.value, k, m.next))
    && (v.Some? ==> v.value > 0 && out.Some? && m.name in out.value && out.value[m.name] == v.value)
    && (v.None? ==> out.None? || m.name !in out.value)
  }

  /** A value computed or free to read keeps its name while later temporaries are assigned. */
  lemma NameSurvives(e: Expr, k: nat, D: set<string>, before: map<string, nat>, after: map<string, nat>, n: nat)
    requires var m := Emit(e, k); OnlyTemps(before, after, m.next, n) && m.next <= n && (e.Var? ==> Free(e.name, n, D))
    ensures var s := Emit(e, k).name; (s in after <==> s in before) && (s in before ==> after[s] == before[s])
  {
    hide TempName;
    var m := Emit(e, k);
    if e.Var? {
      BaseIsNoTemp(m.next, n);
      WiderIn(m.name, m.next, n, 0, n);
    } else {
      EmitIsMonotone(e, k);
      TempIsIn(m.next - 1, m.next, n);
    }
  }

  lemma WiderIn(s: string, k: nat, n: nat, k': nat, n': nat)
    requires k' <= k && n <= n'
    ensures IsTempIn(s, k, n) ==> IsTempIn(s, k', n')
  {
  }

  /** The code of an expression that captures nothing computes its value, and fails exactly when
      it uses an undefined variable. */
  lemma {:induction false} EmitIsCorrect(ints: map<string, nat>, env: map<string, nat>, e: Expr, k: nat)
    requires ArePositive(ints) && CaptureFree(e, k, ints.Keys) && OnlyTemps(Start(ints), env, 0, k)
    ensures IsOutcome(env, k, Emit(e, k), RunLines(Plus, Emit(e, k).lines, env), Value(e, ints))
    decreases e
  {
    hide TempName;
    match e
    case Var(name) => BaseIsNoTemp(0, k);
    case Add(l, r) => SumIsCorrect(ints, env, l, r, k);
    case Shift(v, n) => ShiftIsCorrect(ints, env, v, n, k);
  }

  lemma {:induction false} SumIsCorrect(ints: map<string, nat>, env: map<string, nat>, l: Expr, r: Expr, k: nat)
    requires ArePositive(ints) && CaptureFree(Add(l, r), k, ints.Keys) && OnlyTemps(Start(ints), env, 0, k)
    ensures IsOutcome(env, k, Emit(Add(l, r), k), RunLines(Plus, Emit(Add(l, r), k).lines, env), Value(Add(l, r), ints))
    decreases Add(l, r), 0
  {
    hide OnlyTemps, TempName, RunLines, IsTempIn, Start, Free, ArePositive;
    var left := Emit(l, k);
    var right := Emit(r, left.next);
    var t := right.next;
    var line := LetProduct(TempName(t), left.name, right.name);
    RunsOneMore(Plus, left.lines + right.lines, line, env);
    RunsInSequence(Plus, left.lines, right.lines, env);
    EmitIsMonotone(r, left.next);
    EmitIsCorrect(ints, env, l, k);
    var middle := RunLines(Plus, left.lines, env);
    if middle.Some? {
      Continued(Start(ints), env, middle.value, k, left.next);
      EmitIsCorrect(ints, middle.value, r, left.next);
      var last := RunLines(Plus, right.lines, middle.value);
      if last.Some? {
        NameSurvives(l, k, ints.Keys, middle.value, last.value, t);
        WiderTemps(env, middle.value, k, left.next, k, t);
        WiderTemps(middle.value, last.value, left.next, t, k, t);
        TempsCompose(env, middle.value, last.value, k, t);
        FinishWithTemp(env, last.value, k, t, line);
      }
    }
  }

  lemma Continued(start: map<string, nat>, env: map<string, nat>, middle: map<string, nat>, k: nat, n: nat)
    requires OnlyTemps(start, env, 0, k) && OnlyTemps(env, middle, k, n) && k <= n
    ensures OnlyTemps(start, middle, 0, n)
  {
    WiderTemps(start, env, 0, k, 0, n);
    WiderTemps(env, middle, k, n, 0, n);
    TempsCompose(start, env, middle, 0, n);
  }

  /** Running one more line that assigns temporary t. */
  lemma FinishWithTemp(env: map<string, nat>, last: map<string, nat>, k: nat, t: nat, line: Line)
    requires k <= t && line.temp == TempName(t) && OnlyTemps(env, last, k, t)
    ensures RunLine(Plus, line, last).Some? ==> OnlyTemps(env, RunLine(Plus, line, last).value, k, t + 1)
  {
    hide TempName;
    WiderTemps(env, last, k, t, k, t + 1);
    TempIsIn(t, k, t + 1);
  }

  lemma {:induction false} ShiftIsCorrect(ints: map<string, nat>, env: map<string, nat>, v: Expr, n: nat, k: nat)
    requires ArePositive(ints) && CaptureFree(Shift(v, n), k, ints.Keys) && OnlyTemps(Start(ints), env, 0, k)
    ensures IsOutcome(env, k, Emit(Shift(v, n), k), RunLines(Plus, Emit(Shift(v, n), k).lines, env), Value(Shift(v, n), ints))
    decreases Shift(v, n), 0
  {
    hide OnlyTemps, TempName, RunLines, IsTempIn, Start, Free, ArePositive, Pow2;
    var value := Emit(v, k);
    var t := value.next;
    var line := LetSquares(TempName(t), value.name, n);
    RunsOneMore(Plus, value.lines, line, env);
    EmitIsCorrect(ints, env, v, k);
    var last := RunLines(Plus, value.lines, env);
    if last.Some? {
      FinishWithTemp(env, last.value, k, t, line);
      if Value(v, ints).Some? {
        SquaresOfInteger(Value(v, ints).value, n);
        ProductIsPositive(Value(v, ints).value, Pow2(n));
      }
    }
  }

  lemma ProductIsPositive(x: nat, y: nat)
    requires x > 0 && y > 0
    ensures x * y > 0
  {
  }

  /** What the code of one assignment computes over the integers. */
  function CodeValue(e: Expr, ints: map<string, nat>): Option<nat> {
    var m := Emit(e, 0);
    var out := RunLines(Plus, m.lines, Start(ints));
    if out.Some? && m.name in out.value then Some(out.value[m.name]) else None
  }

  lemma CodeValueIsRight(ints: map<string, nat>, e: Expr)
    requires ArePositive(ints) && CaptureFree(e, 0, ints.Keys)
    ensures CodeValue(e, ints) == Value(e, ints)
  {
    EmitIsCorrect(ints, Start(ints), e, 0);
  }

  // ----- a captured read is wrong -----

  /** Every variable read is defined. */
  predicate IsScoped(e: Expr, D: set<string>) {
    match e
    case Var(name) => name == "1" || name in D
    case Add(l, r) => IsScoped(l, D) && IsScoped(r, D)
    case Shift(v, _) => IsScoped(v, D)
  }

  predicate HasPositiveShifts(e: Expr) {
    match e
    case Var(_) => true
    case Add(l, r) => HasPositiveShifts(l) && HasPositiveShifts(r)
    case Shift(v, n) => n > 0 && HasPositiveShifts(v)
  }

  /** Every variable 1, but base 2. */
  function Ones(D: set<string>): (ints: map<string, nat>)
    ensures ints.Keys == D && ArePositive(ints)
  {
    map s | s in D :: if s == "base" then 2 else 1
  }

  /** All variables are defined; temporaries assigned so far are at least 2, whatever they hide. */
  ghost predicate IsInflated(D: set<string>, env: map<string, nat>, k: nat) {
    && (forall s :: s in Start(Ones(D)) ==> s in env && env[s] >= Start(Ones(D))[s])
    && (forall s :: IsTempIn(s, 0, k) ==> s in env && env[s] >= 2)
  }

  /** Reading a variable gives at least its value, and more if it is captured. */
  lemma ReadIsInflated(D: set<string>, env: map<string, nat>, k: nat, name: string)
    requires IsInflated(D, env, k) && IsScoped(Var(name), D)
    ensures var s := Emit(Var(name), 0).name;
      s in env && env[s] >= Value(Var(name), Ones(D)).value && (!Free(name, k, D) ==> env[s] > Value(Var(name), Ones(D)).value)
  {
  }

  /** What the code of a compound expression leaves under its name. */
  ghost predicate IsLarger(e: Expr, k: nat, D: set<string>, out: Option<map<string, nat>>) {
    var m := Emit(e, k);
    && Value(e, Ones(D)).Some?
    && out.Some? && IsInflated(D, out.value, m.next)
    && (!e.Var? ==>
         && m.name in out.value && out.value[m.name] >= Value(e, Ones(D)).value
         && (!CaptureFree(e, k, D) ==> out.value[m.name] > Value(e, Ones(D)).value))
  }

  lemma {:induction false} CodeIsLarger(D: set<string>, env: map<string, nat>, e: Expr, k: nat)
    requires IsScoped(e, D) && HasPositiveShifts(e) && IsInflated(D, env, k)
    ensures IsLarger(e, k, D, RunLines(Plus, Emit(e, k).lines, env))
    ensures OnlyTemps(env, RunLines(Plus, Emit(e, k).lines, env).value, k, Emit(e, k).next)
    decreases e
  {
    hide TempName, IsInflated;
    match e
    case Var(name) =>
    case Add(l, r) => SumIsLarger(D, env, l, r, k);
    case Shift(v, n) => ShiftIsLarger(D, env, v, n, k);
  }

  lemma VariableIsLarger(D: set<string>, name: string, k: nat, env: map<string, nat>, n: nat)
    requires IsScoped(Var(name), D) && IsInflated(D, env, n) && k <= n
    ensures var e := Var(name); var s := Emit(e, k).name;
      && s in env && env[s] >= Value(e, Ones(D)).value >= 1
      && (!CaptureFree(e, k, D) || !Free(name, n, D) ==> env[s] > Value(e, Ones(D)).value)
  {
    hide TempName, IsInflated;
    ReadIsInflated(D, env, n, name);
    WiderIn(name, 0, k, 0, n);
  }

  lemma TempIsLarger(D: set<string>, e: Expr, k: nat, middle: map<string, nat>, env: map<string, nat>, n: nat)
    requires !e.Var? && IsLarger(e, k, D, Some(middle)) && Value(e, Ones(D)).value >= 1
    requires Emit(e, k).next <= n && OnlyTemps(middle, env, Emit(e, k).next, n)
    ensures var s := Emit(e, k).name;
      && s in env && env[s] >= Value(e, Ones(D)).value >= 1
      && (!CaptureFree(e, k, D) ==> env[s] > Value(e, Ones(D)).value)
  {
    hide TempName, CaptureFree, Emit, Value, IsInflated;
    EmitIsMonotone(e, k);
    TempIsIn(Emit(e, k).next - 1, Emit(e, k).next, n);
  }

  /** The value of an operand where its line runs. */
  lemma OperandIsLarger(D: set<string>, e: Expr, k: nat, middle: map<string, nat>, env: map<string, nat>, n: nat)
    requires IsScoped(e, D) && IsLarger(e, k, D, Some(middle)) && IsInflated(D, env, n)
    requires Emit(e, k).next <= n && OnlyTemps(middle, env, Emit(e, k).next, n)
    ensures var s := Emit(e, k).name;
      && s in env && env[s] >= Value(e, Ones(D)).value >= 1
      && (!CaptureFree(e, k, D) || (e.Var? && !Free(e.name, n, D)) ==> env[s] > Value(e, Ones(D)).value)
  {
    ValueIsPositive(e, D);
    if e.Var? {
      assert Emit(e, k).next == k;
      hide *;
      VariableIsLarger(D, e.name, k, env, n);
    } else {
      hide *;
      TempIsLarger(D, e, k, middle, env, n);
    }
  }

  lemma {:induction false} ValueIsPositive(e: Expr, D: set<string>)
    requires IsScoped(e, D)
    ensures Value(e, Ones(D)).Some? && Value(e, Ones(D)).value >= 1
  {
    match e
    case Var(_) =>
    case Add(l, r) =>
      ValueIsPositive(l, D);
      ValueIsPositive(r, D);
    case Shift(v, n) =>
      ValueIsPositive(v, D);
      ProductIsPositive(Value(v, Ones(D)).value, Pow2(n));
  }

  lemma InflatedTemp(D: set<string>, env: map<string, nat>, t: nat, x: nat)
    requires IsInflated(D, env, t) && x >= 2
    ensures IsInflated(D, env[TempName(t) := x], t + 1)
  {
    hide TempName;
    forall s | IsTempIn(s, 0, t + 1)
      ensures s == TempName(t) || IsTempIn(s, 0, t)
    {
    }
  }

  lemma {:induction false} SumIsLarger(D: set<string>, env: map<string, nat>, l: Expr, r: Expr, k: nat)
    requires IsScoped(Add(l, r), D) && HasPositiveShifts(Add(l, r)) && IsInflated(D, env, k)
    ensures IsLarger(Add(l, r), k, D, RunLines(Plus, Emit(Add(l, r), k).lines, env))
    ensures OnlyTemps(env, RunLines(Plus, Emit(Add(l, r), k).lines, env).value, k, Emit(Add(l, r), k).next)
    decreases Add(l, r), 0
  {
    hide TempName, IsInflated, OnlyTemps, RunLines, IsTempIn, Free, IsLarger;
    var left := Emit(l, k);
    var right := Emit(r, left.next);
    var t := right.next;
    var line := LetProduct(TempName(t), left.name, right.name);
    RunsOneMore(Plus, left.lines + right.lines, line, env);
    RunsInSequence(Plus, left.lines, right.lines, env);
    EmitIsMonotone(l, k);
    EmitIsMonotone(r, left.next);
    CodeIsLarger(D, env, l, k);
    var middle := RunLines(Plus, left.lines, env);
    LargerRuns(l, k, D, middle);
    CodeIsLarger(D, middle.value, r, left.next);
    var last := RunLines(Plus, right.lines, middle.value);
    LargerRuns(r, left.next, D, last);
    OperandIsLarger(D, l, k, middle.value, last.value, t);
    NothingAssigned(last.value, t);
    OperandIsLarger(D, r, left.next, last.value, last.value, t);
    WiderTemps(env, middle.value, k, left.next, k, t);
    WiderTemps(middle.value, last.value, left.next, t, k, t);
    TempsCompose(env, middle.value, last.value, k, t);
    FinishWithTemp(env, last.value, k, t, line);
    InflatedTemp(D, last.value, t, last.value[left.name] + last.value[right.name]);
    ResultIsLarger(Add(l, r), k, D, RunLine(Plus, line, last.value));
  }

  lemma LargerRuns(e: Expr, k: nat, D: set<string>, out: Option<map<string, nat>>)
    requires IsLarger(e, k, D, out)
    ensures out.Some? && IsInflated(D, out.value, Emit(e, k).next) && IsLarger(e, k, D, Some(out.value))
  {
  }

  lemma ResultIsLarger(e: Expr, k: nat, D: set<string>, out: Option<map<string, nat>>)
    requires !e.Var? && Value(e, Ones(D)).Some? && out.Some? && IsInflated(D, out.value, Emit(e, k).next)
    requires var m := Emit(e, k); m.name in out.value && out.value[m.name] >= Value(e, Ones(D)).value
    requires !CaptureFree(e, k, D) ==> out.value[Emit(e, k).name] > Value(e, Ones(D)).value
    ensures IsLarger(e, k, D, out)
  {
  }

  lemma NothingAssigned(env: map<string, nat>, n: nat)
    ensures OnlyTemps(env, env, n, n)
  {
  }

  lemma {:induction false} ShiftIsLarger(D: set<string>, env: map<string, nat>, v: Expr, n: nat, k: nat)
    requires IsScoped(Shift(v, n), D) && HasPositiveShifts(Shift(v, n)) && IsInflated(D, env, k)
    ensures IsLarger(Shift(v, n), k, D, RunLines(Plus, Emit(Shift(v, n), k).lines, env))
    ensures OnlyTemps(env, RunLines(Plus, Emit(Shift(v, n), k).lines, env).value, k, Emit(Shift(v, n), k).next)
    decreases Shift(v, n), 0
  {
    hide TempName, IsInflated, OnlyTemps, RunLines, IsTempIn, Free, IsLarger, Pow2;
    var value := Emit(v, k);
    var t := value.next;
    var line := LetSquares(TempName(t), value.name, n);
    RunsOneMore(Plus, value.lines, line, env);
    EmitIsMonotone(v, k);
    CodeIsLarger(D, env, v, k);
    var last := RunLines(Plus, value.lines, env);
    LargerRuns(v, k, D, last);
    NothingAssigned(last.value, t);
    OperandIsLarger(D, v, k, last.value, last.value, t);
    var x, y := Value(v, Ones(D)).value, last.value[value.name];
    SquaresOfInteger(y, n);
    ShiftGrows(x, y, n);
    FinishWithTemp(env, last.value, k, t, line);
    InflatedTemp(D, last.value, t, y * Pow2(n));
    ResultIsLarger(Shift(v, n), k, D, RunLine(Plus, line, last.value));
  }

  lemma ShiftGrows(x: nat, y: nat, n: nat)
    requires n > 0 && 1 <= x <= y
    ensures y * Pow2(n) >= 2 && y * Pow2(n) >= x * Pow2(n) && (y > x ==> y * Pow2(n) > x * Pow2(n))
  {
    assert Pow2(n) == 2 * Pow2(n - 1);
    FactorGrows(x, y, Pow2(n));
  }

  lemma FactorGrows(x: nat, y: nat, p: nat)
    requires 1 <= x <= y && p >= 2
    ensures y * p >= 2 && y * p >= x * p && (y > x ==> y * p > x * p)
  {
  }

  /** The code of an expression is right for all values of its variables exactly when it captures
      nothing. A shift by 0 copies, so a copy may capture the variable it copies and do no harm. */
  lemma CaptureFreeExactly(e: Expr, D: set<string>)
    requires IsScoped(e, D) && HasPositiveShifts(e)
    ensures CaptureFree(e, 0, D)
      <==> forall ints: map<string, nat> :: ints.Keys == D && ArePositive(ints) ==> CodeValue(e, ints) == Value(e, ints)
  {
    hide CaptureFree, CodeValue, Value, ArePositive;
    if CaptureFree(e, 0, D) {
      forall ints: map<string, nat> | ints.Keys == D && ArePositive(ints)
        ensures CodeValue(e, ints) == Value(e, ints)
      {
        CodeValueIsRight(ints, e);
      }
    } else {
      CapturedIsWrong(e, D);
    }
  }

  /** With every variable 1, and base 2 if it is defined, a captured read makes the result too large. */
  lemma CapturedIsWrong(e: Expr, D: set<string>)
    requires IsScoped(e, D) && HasPositiveShifts(e) && !CaptureFree(e, 0, D)
    ensures CodeValue(e, Ones(D)).Some? && Value(e, Ones(D)).Some? && CodeValue(e, Ones(D)).value > Value(e, Ones(D)).value
  {
    var env := Start(Ones(D));
    assert IsInflated(D, env, 0);
    if e.Var? {
      ReadIsInflated(D, env, 0, e.name);
    } else {
      CodeIsLarger(D, env, e, 0);
    }
  }

  // (t0 << 0) + t0
  const COPYING: Expr := Add(Shift(Var("t0"), 0), Var("t0"))

  /** Why shifts by 0 are set apart: here the captured temporary is a copy of the variable it hides. */
  lemma CopyMayCapture(ints: map<string, nat>)
    requires ints.Keys == {"t0"} && ArePositive(ints)
    ensures !CaptureFree(COPYING, 0, ints.Keys) && CodeValue(COPYING, ints) == Value(COPYING, ints) == Some(2 * ints["t0"])
  {
    assert TempName(0) == "t0" && TempName(1) == "t1";
    var copy, sum, env := LetSquares("t0", "t0", 0), LetProduct("t1", "t0", "t0"), Start(ints);
    assert Emit(Shift(Var("t0"), 0), 0) == Emission("t0", [copy], 1) by { assert [] + [copy] == [copy]; }
    assert Emit(Var("t0"), 1) == Emission("t0", [], 1);
    assert Emit(COPYING, 0) == Emission("t1", [copy, sum], 2) by { assert [copy] + [] + [sum] == [copy, sum]; }
    TempIsIn(0, 0, 1);
    RunsOneMore(Plus, [], copy, env);
    RunsOneMore(Plus, [copy], sum, env["t0" := env["t0"]]);
    assert [] + [copy] == [copy] && [copy] + [sum] == [copy, sum];
    assert env["t0" := env["t0"]] == env;
    RunsOneMore(Plus, [copy], sum, env);
    assert Pow2(0) == 1;
    assert Value(Var("t0"), ints) == Some(ints["t0"]) == Value(Shift(Var("t0"), 0), ints);
  }

  // ----- correctness of a whole chain -----

  function Names(defs: seq<(string, Expr)>): set<string> {
    set i | 0 <= i < |defs| :: defs[i].0
  }

  /** No definition captures, given the names defined before it. */
  ghost predicate ChainIsCaptureFree(defs: seq<(string, Expr)>) {
    forall i :: 0 <= i < |defs| ==> CaptureFree(defs[i].1, 0, Names(defs[..i]))
  }

  lemma AssignmentIsCorrect(ints: map<string, nat>, name: string, e: Expr)
    requires ArePositive(ints) && CaptureFree(e, 0, ints.Keys)
    ensures var out, v := RunAssignment(Plus, AssignmentOf(name, e), Start(ints)), Value(e, ints);
      (out.Some? <==> v.Some?) && (v.Some? ==> v.value > 0 && out.value == Start(ints)[name := v.value])
  {
    EmitIsCorrect(ints, Start(ints), e, 0);
    var m := Emit(e, 0);
    if m.lines == [] {
      assert RunLines(Plus, m.lines, Start(ints)) == Some(Start(ints));
    }
  }

  /** After the definitions the variables hold what they denote. */
  lemma {:induction false} DefinitionsAreCorrect(defs: seq<(string, Expr)>)
    requires ChainIsCaptureFree(defs)
    ensures var out, ints := RunAssignments(Plus, AssignmentsOf(defs), map["base" := 1]), Definitions(defs);
      && (out.Some? <==> ints.Some?)
      && (ints.Some? ==> ints.value.Keys == Names(defs) && ArePositive(ints.value) && out.value == Start(ints.value))
  {
    if defs == [] {
      NothingDefined();
    } else {
      hide AssignmentOf, CaptureFree, Names, ArePositive, Start, RunAssignment, Value, AssignmentsOf, Definitions;
      var init, last := defs[..|defs| - 1], defs[|defs| - 1];
      assert defs == init + [last];
      FirstDefinitions(defs);
      DefinitionsAreCorrect(init);
      RunsLast(Plus, AssignmentsOf(init), AssignmentOf(last.0, last.1), map["base" := 1]);
      LastDefinition(init, last);
      NamesNext(init, last);
      var ints := Definitions(init);
      if ints.Some? {
        AssignmentIsCorrect(ints.value, last.0, last.1);
        var v := Value(last.1, ints.value);
        if v.Some? {
          StartNext(ints.value, last.0, v.value);
        }
      }
    }
  }

  lemma NothingDefined()
    ensures AssignmentsOf([]) == [] && Definitions([]) == Some(map[]) && Names([]) == {}
    ensures RunAssignments(Plus, [], map["base" := 1]) == Some(Start(map[]))
  {
  }

  lemma FirstDefinitions(defs: seq<(string, Expr)>)
    requires ChainIsCaptureFree(defs) && defs != []
    ensures ChainIsCaptureFree(defs[..|defs| - 1]) && CaptureFree(defs[|defs| - 1].1, 0, Names(defs[..|defs| - 1]))
  {
    hide CaptureFree, Names;
    var init := defs[..|defs| - 1];
    assert forall i :: 0 <= i < |init| ==> init[..i] == defs[..i] && init[i] == defs[i];
  }

  lemma LastDefinition(defs: seq<(string, Expr)>, last: (string, Expr))
    ensures AssignmentsOf(defs + [last]) == AssignmentsOf(defs) + [AssignmentOf(last.0, last.1)]
    ensures Definitions(defs + [last]) ==
      var before := Definitions(defs);
      if before.None? then None else
        var v := Value(last.1, before.value);
        if v.None? then None else Some(before.value[last.0 := v.value])
  {
    hide AssignmentOf, Value;
    assert (defs + [last])[..|defs|] == defs;
  }

  lemma StartNext(ints: map<string, nat>, name: string, v: nat)
    requires ArePositive(ints) && v > 0
    ensures Start(ints)[name := v] == Start(ints[name := v]) && ArePositive(ints[name := v]) && ints[name := v].Keys == ints.Keys + {name}
  {
  }

  lemma NamesNext(defs: seq<(string, Expr)>, last: (string, Expr))
    ensures Names(defs + [last]) == Names(defs) + {last.0}
  {
    forall s | s in Names(defs) + {last.0}
      ensures s in Names(defs + [last])
    {
      if s == last.0 {
        assert (defs + [last])[|defs|].0 == s;
      } else {
        var i :| 0 <= i < |defs| && defs[i].0 == s;
        assert (defs + [last])[i].0 == s;
      }
    }
  }

  lemma RunsLast<M>(mul: (M, M) -> M, body: seq<Assignment>, last: Assignment, env: map<string, M>)
    ensures RunAssignments(mul, body + [last], env) ==
      var before := RunAssignments(mul, body, env);
      if before.None? then None else RunAssignment(mul, last, before.value)
  {
    assert (body + [last])[..|body|] == body;
  }

  /** The code of a whole chain, over the integers, has the value the chain denotes. */
  lemma ChainValueIsRight(defs: seq<(string, Expr)>, ret: Expr)
    requires ChainIsCaptureFree(defs) && CaptureFree(ret, 0, Names(defs))
    ensures RunBody(Plus, AssignmentsOf(defs) + [AssignmentOf("result", ret)], 1) == ChainValue(defs, ret)
  {
    hide AssignmentOf, RunAssignment, Value, Definitions, AssignmentsOf, ChainIsCaptureFree, CaptureFree, Names, ArePositive;
    DefinitionsAreCorrect(defs);
    RunsLast(Plus, AssignmentsOf(defs), AssignmentOf("result", ret), map["base" := 1]);
    var ints := Definitions(defs);
    if ints.Some? {
      AssignmentIsCorrect(ints.value, "result", ret);
    }
  }

  /** The emitted function computes base^N over every monoid, where N is the integer the chain's
      return expression denotes, if no read is captured; it refers to an undefined variable exactly
      when the chain does. */
  lemma ChainIsCorrect<M(!new)>(mul: (M, M) -> M, base: M, defs: seq<(string, Expr)>, ret: Expr)
    requires IsAssociative(mul) && ChainIsCaptureFree(defs) && CaptureFree(ret, 0, Names(defs))
    ensures var out, n := RunBody(mul, AssignmentsOf(defs) + [AssignmentOf("result", ret)], base), ChainValue(defs, ret);
      && (out.Some? <==> n.Some?)
      && (n.Some? ==> n.value > 0 && out.value == PowerOf(mul, base, n.value))
  {
    hide RunBody, ChainValue, ChainIsCaptureFree, CaptureFree;
    ChainValueIsRight(defs, ret);
    BodyIsPower(mul, base, AssignmentsOf(defs) + [AssignmentOf("result", ret)]);
  }

  // t0 = 1 << 2; return (1 + 1) + t0
  const COLLIDING_DEFS: seq<(string, Expr)> := [("t0", Shift(Var("1"), 2))]
  const COLLIDING_RETURN: Expr := Add(Add(Var("1"), Var("1")), Var("t0"))
  const COLLIDING_LINES: seq<Line> := [LetProduct("t0", "base", "base"), LetProduct("t1", "t0", "t0")]

  lemma CollidingCode()
    ensures AssignmentsOf(COLLIDING_DEFS) == [Block("t0", [LetSquares("t0", "base", 2)], "t0")]
    ensures AssignmentOf("result", COLLIDING_RETURN) == Block("result", COLLIDING_LINES, "t1")
  {
    assert TempName(0) == "t0" && TempName(1) == "t1";
    var one := Var("1");
    assert Emit(one, 0) == Emission("base", [], 0);
    assert Emit(Add(one, one), 0) == Emission("t0", [COLLIDING_LINES[0]], 1);
    assert Emit(Var("t0"), 1) == Emission("t0", [], 1);
    assert Emit(COLLIDING_RETURN, 0) == Emission("t1", COLLIDING_LINES, 2) by {
      assert [COLLIDING_LINES[0]] + [] + [COLLIDING_LINES[1]] == COLLIDING_LINES;
    }
    var squares := [LetSquares("t0", "base", 2)];
    assert Emit(Shift(one, 2), 0) == Emission("t0", squares, 1) by { assert [] + squares == squares; }
    assert COLLIDING_DEFS[..0] == [] && AssignmentsOf([]) == [];
  }

  lemma CollidingRun(env: map<string, nat>)
    requires env == map["base" := 1, "t0" := 4]
    ensures RunLines(Plus, COLLIDING_LINES, env) == Some(env["t0" := 2]["t1" := 4])
  {
    var l0, l1 := COLLIDING_LINES[0], COLLIDING_LINES[1];
    RunsOneMore(Plus, [], l0, env);
    RunsOneMore(Plus, [l0], l1, env);
    assert [] + [l0] == [l0] && [l0] + [l1] == COLLIDING_LINES;
  }

  /** The names matter: with a chain variable called t0, the temporary of the next definition
      shadows it and the code computes another power (here over the integers under addition,
      where base^N is N). */
  lemma TempNamesCollide()
    ensures ChainValue(COLLIDING_DEFS, COLLIDING_RETURN) == Some(6)
    ensures RunBody(Plus, AssignmentsOf(COLLIDING_DEFS) + [AssignmentOf("result", COLLIDING_RETURN)], 1) == Some(4)
  {
    CollidingValue();
    CollidingCode();
    hide AssignmentsOf, AssignmentOf, ChainValue;
    var first := Block("t0", [LetSquares("t0", "base", 2)], "t0");
    var start := map["base" := 1];
    RunsLast(Plus, [first], Block("result", COLLIDING_LINES, "t1"), start);
    RunsOneAssignment(Plus, first, start);
    RunsOneMore(Plus, [], LetSquares("t0", "base", 2), start);
    assert [] + [LetSquares("t0", "base", 2)] == [LetSquares("t0", "base", 2)];
    assert Squares(Plus, 1, 1) == 2 && Squares(Plus, 1, 2) == 4;
    CollidingRun(start["t0" := 4]);
  }

  lemma CollidingValue()
    ensures ChainValue(COLLIDING_DEFS, COLLIDING_RETURN) == Some(6)
  {
    assert Pow2(2) == 4;
    assert COLLIDING_DEFS[..0] == [];
    var env := map["t0" := 4];
    assert Definitions(COLLIDING_DEFS) == Some(env);
    assert Value(Add(Var("1"), Var("1")), env) == Some(2) && Value(Var("t0"), env) == Some(4);
  }

  lemma RunsOneAssignment<M>(mul: (M, M) -> M, a: Assignment, env: map<string, M>)
    ensures RunAssignments(mul, [a], env) == RunAssignment(mul, a, env)
  {
    assert [a][..0] == [];
  }

  // base = 1 << 1; return 1 + 1
  const REBOUND_DEFS: seq<(string, Expr)> := [("base", Shift(Var("1"), 1))]
  const REBOUND_RETURN: Expr := Add(Var("1"), Var("1"))

  lemma ReboundCode()
    ensures AssignmentsOf(REBOUND_DEFS) == [Block("base", [LetSquares("t0", "base", 1)], "t0")]
    ensures AssignmentOf("result", REBOUND_RETURN) == Block("result", [LetProduct("t0", "base", "base")], "t0")
  {
    assert TempName(0) == "t0";
    var one, squares, product := Var("1"), [LetSquares("t0", "base", 1)], [LetProduct("t0", "base", "base")];
    assert Emit(one, 0) == Emission("base", [], 0);
    assert Emit(Shift(one, 1), 0) == Emission("t0", squares, 1) by { assert [] + squares == squares; }
    assert Emit(REBOUND_RETURN, 0) == Emission("t0", product, 1) by { assert [] + [] + product == product; }
    assert REBOUND_DEFS[..0] == [] && AssignmentsOf([]) == [];
  }

  lemma ReboundRun()
    ensures RunAssignments(Plus, [Block("base", [LetSquares("t0", "base", 1)], "t0")], map["base" := 1]) == Some(map["base" := 2])
    ensures RunAssignment(Plus, Block("result", [LetProduct("t0", "base", "base")], "t0"), map["base" := 2])
      == Some(map["base" := 2, "result" := 4])
  {
    var first, start := Block("base", [LetSquares("t0", "base", 1)], "t0"), map["base" := 1];
    RunsOneAssignment(Plus, first, start);
    RunsOneMore(Plus, [], LetSquares("t0", "base", 1), start);
    assert [] + [LetSquares("t0", "base", 1)] == [LetSquares("t0", "base", 1)];
    assert Squares(Plus, 1, 1) == 2;
    assert start["base" := 2] == map["base" := 2];
    RunsOneMore(Plus, [], LetProduct("t0", "base", "base"), map["base" := 2]);
    assert [] + [LetProduct("t0", "base", "base")] == [LetProduct("t0", "base", "base")];
    assert map["base" := 2]["result" := 4] == map["base" := 2, "result" := 4];
  }

  lemma ReboundValue()
    ensures ChainValue(REBOUND_DEFS, REBOUND_RETURN) == Some(2)
  {
    assert Pow2(1) == 2 && REBOUND_DEFS[..0] == [];
    assert Value(Shift(Var("1"), 1), map[]) == Some(2);
    assert Definitions(REBOUND_DEFS) == Some(map["base" := 2]);
  }

  /** A chain variable called base replaces the base that 1 stands for. */
  lemma BaseIsRebound()
    ensures ChainValue(REBOUND_DEFS, REBOUND_RETURN) == Some(2)
    ensures RunBody(Plus, AssignmentsOf(REBOUND_DEFS) + [AssignmentOf("result", REBOUND_RETURN)], 1) == Some(4)
  {
    hide AssignmentsOf, AssignmentOf, ChainValue, RunAssignment, RunAssignments;
    ReboundValue();
    ReboundCode();
    ReboundRun();
    RunsLast(Plus, [Block("base", [LetSquares("t0", "base", 1)], "t0")], Block("result", [LetProduct("t0", "base", "base")], "t0"), map["base" := 1]);
  }
}
