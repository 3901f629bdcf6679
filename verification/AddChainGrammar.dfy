/** The grammar of addition-chain expressions as trees: the token lists the parser accepts, the
    expression it makes of each, and the integer that expression denotes.

      sum   = chain { "+" chain }
      chain = term { "<<" number [ "+" term ] }
      term  = [ "2" "*" ] atom
      atom  = "(" sum ")" | name | "1" */
module AddChainGrammar {
  import opened AddChainEmitter
  import opened AddChainSyntax
  import opened AddChainTokens
  import opened IntMath
  import opened Results

  datatype AtomTree = Name(name: string) | One | Group(inner: SumTree)

  datatype TermTree = Plain(atom: AtomTree) | Twice(atom: AtomTree)

  datatype ChainTree =
    | FirstTerm(term: TermTree)
    | Shifted(before: ChainTree, amount: nat)
    | ShiftedPlus(before: ChainTree, amount: nat, term: TermTree)

  datatype SumTree = FirstChain(chain: ChainTree) | PlusChain(before: SumTree, chain: ChainTree)

  // ----- the tokens of a tree -----

  function AtomTokens(a: AtomTree): seq<Token> {
    match a
    case Name(name) => [NAME(name)]
    case One => [NUMBER(1)]
    case Group(s) => [SYMBOL("(")] + SumTokens(s) + [SYMBOL(")")]
  }

  function TermTokens(t: TermTree): seq<Token> {
    match t
    case Plain(a) => AtomTokens(a)
    case Twice(a) => [NUMBER(2), SYMBOL("*")] + AtomTokens(a)
  }

  function ChainTokens(c: ChainTree): seq<Token> {
    match c
    case FirstTerm(t) => TermTokens(t)
    case Shifted(b, n) => ChainTokens(b) + [SYMBOL("<<"), NUMBER(n)]
    case ShiftedPlus(b, n, t) => ChainTokens(b) + [SYMBOL("<<"), NUMBER(n), SYMBOL("+")] + TermTokens(t)
  }

  function SumTokens(s: SumTree): seq<Token> {
    match s
    case FirstChain(c) => ChainTokens(c)
    case PlusChain(b, c) => SumTokens(b) + [SYMBOL("+")] + ChainTokens(c)
  }

  // A "+" after a shift belongs to the chain, so a chain that ends in a bare shift is the last
  // of its sum.

  predicate IsProperAtom(a: AtomTree) {
    a.Group? ==> IsProper(a.inner)
  }

  predicate IsProperChain(c: ChainTree) {
    match c
    case FirstTerm(t) => IsProperAtom(t.atom)
    case Shifted(b, _) => IsProperChain(b)
    case ShiftedPlus(b, _, t) => IsProperChain(b) && IsProperAtom(t.atom)
  }

  predicate IsProper(s: SumTree) {
    IsProperChain(s.chain) && (s.PlusChain? ==> IsProper(s.before) && !s.before.chain.Shifted?)
  }

  // ----- the expression of a tree -----

  function AtomExpr(a: AtomTree): Expr {
    match a
    case Name(name) => Var(name)
    case One => Var("1")
    case Group(s) => SumExpr(s)
  }

  function TermExpr(t: TermTree): Expr {
    match t
    case Plain(a) => AtomExpr(a)
    case Twice(a) => Shift(AtomExpr(a), 1)
  }

  function ChainExpr(c: ChainTree): Expr {
    match c
    case FirstTerm(t) => TermExpr(t)
    case Shifted(b, n) => Shift(ChainExpr(b), n)
    case ShiftedPlus(b, n, t) => Add(Shift(ChainExpr(b), n), TermExpr(t))
  }

  function SumExpr(s: SumTree): Expr {
    match s
    case FirstChain(c) => ChainExpr(c)
    case PlusChain(b, c) => Add(SumExpr(b), ChainExpr(c))
  }

  // ----- the integer of a tree -----

  function AtomMeaning(a: AtomTree, env: map<string, nat>): Option<nat> {
    match a
    case Name(name) => if name == "1" then Some(1) else if name in env then Some(env[name]) else None
    case One => Some(1)
    case Group(s) => SumMeaning(s, env)
  }

  function TermMeaning(t: TermTree, env: map<string, nat>): Option<nat> {
    var x := AtomMeaning(t.atom, env);
    if x.None? then None else Some(if t.Twice? then x.value + x.value else x.value)
  }

  function ChainMeaning(c: ChainTree, env: map<string, nat>): Option<nat> {
    match c
    case FirstTerm(t) => TermMeaning(t, env)
    case Shifted(b, n) =>
      var x := ChainMeaning(b, env);
      if x.None? then None else Some(x.value * Pow2(n))
    case ShiftedPlus(b, n, t) =>
      var x, y := ChainMeaning(b, env), TermMeaning(t, env);
      if x.None? || y.None? then None else Some(x.value * Pow2(n) + y.value)
  }

  /** The sum of the chains; none when some variable is undefined. */
  function SumMeaning(s: SumTree, env: map<string, nat>): Option<nat> {
    match s
    case FirstChain(c) => ChainMeaning(c, env)
    case PlusChain(b, c) =>
      var x, y := SumMeaning(b, env), ChainMeaning(c, env);
      if x.None? || y.None? then None else Some(x.value + y.value)
  }

  lemma {:induction false} AtomDenotes(a: AtomTree, env: map<string, nat>)
    ensures Value(AtomExpr(a), env) == AtomMeaning(a, env)
  {
    if a.Group? {
      SumDenotes(a.inner, env);
    }
  }

  lemma {:induction false} TermDenotes(t: TermTree, env: map<string, nat>)
    ensures Value(TermExpr(t), env) == TermMeaning(t, env)
  {
    AtomDenotes(t.atom, env);
    assert Pow2(1) == 2 * Pow2(0) == 2;
  }

  lemma {:induction false} ChainDenotes(c: ChainTree, env: map<string, nat>)
    ensures Value(ChainExpr(c), env) == ChainMeaning(c, env)
  {
    if !c.Shifted? {
      TermDenotes(c.term, env);
    }
    if !c.FirstTerm? {
      ChainDenotes(c.before, env);
    }
  }

  lemma {:induction false} SumDenotes(s: SumTree, env: map<string, nat>)
    ensures Value(SumExpr(s), env) == SumMeaning(s, env)
  {
    ChainDenotes(s.chain, env);
    if s.PlusChain? {
      SumDenotes(s.before, env);
    }
  }

  // ----- every proper tree is parsed -----

  /** The tokens w stand in ts from pos on. */
  predicate Reads(ts: seq<Token>, pos: nat, w: seq<Token>) {
    pos + |w| <= |ts| && ts[pos..pos + |w|] == w
  }

  lemma ReadsInParts(ts: seq<Token>, pos: nat, v: seq<Token>, w: seq<Token>)
    ensures Reads(ts, pos, v + w) <==> Reads(ts, pos, v) && Reads(ts, pos + |v|, w)
  {
    if Reads(ts, pos, v) && Reads(ts, pos + |v|, w) {
      assert ts[pos..pos + |v + w|] == ts[pos..pos + |v|] + ts[pos + |v|..pos + |v + w|];
    }
    if Reads(ts, pos, v + w) {
      assert ts[pos..pos + |v|] == (v + w)[..|v|] == v;
      assert ts[pos + |v|..pos + |v| + |w|] == (v + w)[|v|..] == w;
    }
  }

  lemma ReadsTokens(ts: seq<Token>, pos: nat, w: seq<Token>, k: nat)
    requires Reads(ts, pos, w) && k < |w|
    ensures IsAt(ts, pos + k, w[k])
  {
    assert ts[pos..pos + |w|][k] == w[k];
  }

  lemma {:induction false} ParsesAtom(ts: seq<Token>, pos: nat, a: AtomTree)
    requires IsProperAtom(a) && Reads(ts, pos, AtomTokens(a))
    ensures ParseAtom(ts, pos) == Ok(Parsed(AtomExpr(a), pos + |AtomTokens(a)|))
    decreases a
  {
    ReadsTokens(ts, pos, AtomTokens(a), 0);
    if a.Group? {
      hide SumTokens, SumExpr, Reads, ParseExpr;
      var w := SumTokens(a.inner);
      ReadsInParts(ts, pos, [SYMBOL("(")] + w, [SYMBOL(")")]);
      ReadsInParts(ts, pos, [SYMBOL("(")], w);
      ReadsTokens(ts, pos + 1 + |w|, [SYMBOL(")")], 0);
      ParsesSum(ts, pos + 1, a.inner);
    }
  }

  lemma {:induction false} ParsesTerm(ts: seq<Token>, pos: nat, t: TermTree)
    requires IsProperAtom(t.atom) && Reads(ts, pos, TermTokens(t))
    ensures ParseTerm(ts, pos) == Ok(Parsed(TermExpr(t), pos + |TermTokens(t)|))
    decreases t
  {
    hide Reads, ParseAtom, AtomExpr;
    ReadsTokens(ts, pos, TermTokens(t), 0);
    if t.Twice? {
      ReadsTokens(ts, pos, TermTokens(t), 1);
      ReadsInParts(ts, pos, [NUMBER(2), SYMBOL("*")], AtomTokens(t.atom));
      ParsesAtom(ts, pos + 2, t.atom);
    } else {
      ParsesAtom(ts, pos, t.atom);
    }
  }

  /** What the parser does once it has read the tokens of a chain. */
  lemma {:induction false} ParsesChain(ts: seq<Token>, pos: nat, c: ChainTree)
    requires IsProperChain(c) && Reads(ts, pos, ChainTokens(c))
    requires c.Shifted? ==> !IsAt(ts, pos + |ChainTokens(c)|, SYMBOL("+"))
    ensures ParseChain(ts, pos) == MoreShifts(ts, pos + |ChainTokens(c)|, ChainExpr(c))
    decreases c
  {
    hide Reads, ParseTerm, TermTokens, TermExpr;
    match c
    case FirstTerm(t) => ParsesTerm(ts, pos, t);
    case Shifted(b, n) =>
      var w, shift := ChainTokens(b), [SYMBOL("<<"), NUMBER(n)];
      ReadsInParts(ts, pos, w, shift);
      ReadsTokens(ts, pos + |w|, shift, 0);
      ReadsTokens(ts, pos + |w|, shift, 1);
      ParsesChain(ts, pos, b);
    case ShiftedPlus(b, n, t) =>
      var w, shift := ChainTokens(b), [SYMBOL("<<"), NUMBER(n), SYMBOL("+")];
      ReadsInParts(ts, pos, w + shift, TermTokens(t));
      ReadsInParts(ts, pos, w, shift);
      ReadsTokens(ts, pos + |w|, shift, 0);
      ReadsTokens(ts, pos + |w|, shift, 1);
      ReadsTokens(ts, pos + |w|, shift, 2);
      ParsesChain(ts, pos, b);
      ParsesTerm(ts, pos + |w| + 3, t);
  }

  /** What the parser does once it has read the tokens of a sum. */
  lemma {:induction false} ParsesSummands(ts: seq<Token>, pos: nat, s: SumTree)
    requires IsProper(s) && Reads(ts, pos, SumTokens(s))
    requires s.chain.Shifted? ==> !IsAt(ts, pos + |SumTokens(s)|, SYMBOL("+"))
    requires !IsAt(ts, pos + |SumTokens(s)|, SYMBOL("<<"))
    ensures ParseExpr(ts, pos) == MoreSummands(ts, pos + |SumTokens(s)|, SumExpr(s))
    decreases s, 0
  {
    hide Reads, ParseChain, ChainTokens, ChainExpr;
    match s
    case FirstChain(c) =>
      ParsesChain(ts, pos, c);
    case PlusChain(b, c) =>
      var w := SumTokens(b);
      ReadsInParts(ts, pos, w + [SYMBOL("+")], ChainTokens(c));
      ReadsInParts(ts, pos, w, [SYMBOL("+")]);
      ReadsTokens(ts, pos + |w|, [SYMBOL("+")], 0);
      ParsesSummands(ts, pos, b);
      ParsesChain(ts, pos + |w| + 1, c);
  }

  lemma {:induction false} ParsesSum(ts: seq<Token>, pos: nat, s: SumTree)
    requires IsProper(s) && Reads(ts, pos, SumTokens(s))
    requires pos + |SumTokens(s)| == |ts| || IsAt(ts, pos + |SumTokens(s)|, SYMBOL(")"))
    ensures ParseExpr(ts, pos) == Ok(Parsed(SumExpr(s), pos + |SumTokens(s)|))
    decreases s, 1
  {
    hide ParseExpr, SumTokens, SumExpr;
    ParsesSummands(ts, pos, s);
  }

  /** The tokens of a proper tree are parsed to the expression of the tree. */
  lemma ParsesTree(s: SumTree)
    requires IsProper(s)
    ensures Parse(SumTokens(s)) == Ok(SumExpr(s))
  {
    hide IsProper, SumTokens, SumExpr, ParseExpr;
    assert SumTokens(s)[0..|SumTokens(s)|] == SumTokens(s);
    ParsesSum(SumTokens(s), 0, s);
  }

  // ----- whatever is parsed has a tree -----

  lemma {:induction false} TreeOfAtom(ts: seq<Token>, pos: nat) returns (a: AtomTree)
    requires ParseAtom(ts, pos).Ok?
    ensures IsProperAtom(a) && Reads(ts, pos, AtomTokens(a))
    ensures ParseAtom(ts, pos) == Ok(Parsed(AtomExpr(a), pos + |AtomTokens(a)|))
    decreases |ts| - pos, 0
  {
    if ts[pos] == SYMBOL("(") {
      hide ParseExpr, SumTokens, SumExpr;
      var s := TreeOfSum(ts, pos + 1);
      a := Group(s);
      var w := SumTokens(s);
      ReadsInParts(ts, pos, [SYMBOL("(")] + w, [SYMBOL(")")]);
      ReadsInParts(ts, pos, [SYMBOL("(")], w);
    } else {
      a := if ts[pos].NAME? then Name(ts[pos].name) else One;
    }
  }

  lemma {:induction false} TreeOfTerm(ts: seq<Token>, pos: nat) returns (t: TermTree)
    requires ParseTerm(ts, pos).Ok?
    ensures IsProperAtom(t.atom) && Reads(ts, pos, TermTokens(t))
    ensures ParseTerm(ts, pos) == Ok(Parsed(TermExpr(t), pos + |TermTokens(t)|))
    decreases |ts| - pos, 1
  {
    hide ParseAtom, AtomTokens, AtomExpr;
    if IsAt(ts, pos, NUMBER(2)) && IsAt(ts, pos + 1, SYMBOL("*")) {
      var a := TreeOfAtom(ts, pos + 2);
      t := Twice(a);
      assert Reads(ts, pos, [NUMBER(2), SYMBOL("*")]);
      ReadsInParts(ts, pos, [NUMBER(2), SYMBOL("*")], AtomTokens(a));
    } else {
      var a := TreeOfAtom(ts, pos);
      t := Plain(a);
    }
  }

  /** The tokens from start to pos are those of a chain, and the parser can stop there. */
  predicate HasRead(ts: seq<Token>, start: nat, pos: nat, c: ChainTree) {
    && IsProperChain(c) && Reads(ts, start, ChainTokens(c)) && pos == start + |ChainTokens(c)| > start
    && (c.Shifted? ==> !IsAt(ts, pos, SYMBOL("+")))
  }

  lemma {:induction false} TreeOfShifts(ts: seq<Token>, start: nat, pos: nat, c: ChainTree) returns (d: ChainTree)
    requires HasRead(ts, start, pos, c) && MoreShifts(ts, pos, ChainExpr(c)).Ok?
    ensures var r := MoreShifts(ts, pos, ChainExpr(c)).value; HasRead(ts, start, r.pos, d) && r.expr == ChainExpr(d)
    decreases |ts| - pos, 1
  {
    hide TermTokens, TermExpr, ParseTerm, Reads;
    if !IsAt(ts, pos, SYMBOL("<<")) {
      return c;
    }
    var n := ts[pos + 1].number;
    if !IsAt(ts, pos + 2, SYMBOL("+")) {
      var next := Shifted(c, n);
      ReadsShift(ts, pos, n);
      ReadsInParts(ts, start, ChainTokens(c), [SYMBOL("<<"), NUMBER(n)]);
      d := TreeOfShifts(ts, start, pos + 2, next);
    } else {
      var t := TreeOfTerm(ts, pos + 3);
      var next := ShiftedPlus(c, n, t);
      var w, shift := ChainTokens(c), [SYMBOL("<<"), NUMBER(n), SYMBOL("+")];
      ReadsShift(ts, pos, n);
      ReadsInParts(ts, start, w, shift);
      ReadsInParts(ts, start, w + shift, TermTokens(t));
      d := TreeOfShifts(ts, start, pos + 3 + |TermTokens(t)|, next);
    }
  }

  lemma ReadsShift(ts: seq<Token>, pos: nat, n: nat)
    requires IsAt(ts, pos, SYMBOL("<<")) && IsAt(ts, pos + 1, NUMBER(n))
    ensures Reads(ts, pos, [SYMBOL("<<"), NUMBER(n)])
    ensures IsAt(ts, pos + 2, SYMBOL("+")) ==> Reads(ts, pos, [SYMBOL("<<"), NUMBER(n), SYMBOL("+")])
  {
  }

  lemma {:induction false} TreeOfChain(ts: seq<Token>, pos: nat) returns (c: ChainTree)
    requires ParseChain(ts, pos).Ok?
    ensures var r := ParseChain(ts, pos).value; HasRead(ts, pos, r.pos, c) && r.expr == ChainExpr(c)
    decreases |ts| - pos, 2
  {
    hide TermTokens, TermExpr, ParseTerm, MoreShifts;
    var t := TreeOfTerm(ts, pos);
    c := TreeOfShifts(ts, pos, pos + |TermTokens(t)|, FirstTerm(t));
  }

  lemma {:induction false} TreeOfSummands(ts: seq<Token>, start: nat, pos: nat, s: SumTree) returns (d: SumTree)
    requires IsProper(s) && Reads(ts, start, SumTokens(s)) && pos == start + |SumTokens(s)| > start
    requires s.chain.Shifted? ==> !IsAt(ts, pos, SYMBOL("+"))
    requires MoreSummands(ts, pos, SumExpr(s)).Ok?
    ensures IsProper(d) && Reads(ts, start, SumTokens(d))
    ensures MoreSummands(ts, pos, SumExpr(s)) == Ok(Parsed(SumExpr(d), start + |SumTokens(d)|))
    decreases |ts| - pos, 3
  {
    hide Reads, ChainTokens, ChainExpr, ParseChain;
    if !IsAt(ts, pos, SYMBOL("+")) {
      return s;
    }
    var c := TreeOfChain(ts, pos + 1);
    var next := PlusChain(s, c);
    assert Reads(ts, pos, [SYMBOL("+")]) by { ReadsPlus(ts, pos); }
    ReadsInParts(ts, start, SumTokens(s), [SYMBOL("+")]);
    ReadsInParts(ts, start, SumTokens(s) + [SYMBOL("+")], ChainTokens(c));
    d := TreeOfSummands(ts, start, pos + 1 + |ChainTokens(c)|, next);
  }

  lemma ReadsPlus(ts: seq<Token>, pos: nat)
    requires IsAt(ts, pos, SYMBOL("+"))
    ensures Reads(ts, pos, [SYMBOL("+")])
  {
  }

  lemma {:induction false} TreeOfSum(ts: seq<Token>, pos: nat) returns (s: SumTree)
    requires ParseExpr(ts, pos).Ok?
    ensures IsProper(s) && Reads(ts, pos, SumTokens(s))
    ensures ParseExpr(ts, pos) == Ok(Parsed(SumExpr(s), pos + |SumTokens(s)|))
    decreases |ts| - pos, 4
  {
    hide ChainTokens, ChainExpr, ParseChain, MoreSummands;
    var c := TreeOfChain(ts, pos);
    s := TreeOfSummands(ts, pos, pos + |ChainTokens(c)|, FirstChain(c));
  }

  /** The parser accepts exactly the token lists of proper trees. */
  lemma AcceptsExactly(ts: seq<Token>)
    ensures Parse(ts).Ok? <==> exists s :: IsProper(s) && SumTokens(s) == ts
  {
    hide IsProper, SumTokens, ParseExpr;
    if Parse(ts).Ok? {
      var s := TreeOfSum(ts, 0);
      assert ts[0..|SumTokens(s)|] == ts;
    } else if exists s :: IsProper(s) && SumTokens(s) == ts {
      var s :| IsProper(s) && SumTokens(s) == ts;
      ParsesTree(s);
    }
  }

  /** The integer of the parsed expression is that of the tree: a "2 *" doubles its atom, and a
      shift applies to the whole chain before it. */
  lemma ParsedMeaning(s: SumTree, env: map<string, nat>)
    requires IsProper(s)
    ensures Parse(SumTokens(s)).Ok? && Value(Parse(SumTokens(s)).value, env) == SumMeaning(s, env)
  {
    hide IsProper, SumTokens, SumExpr, SumMeaning, Value, Parse;
    ParsesTree(s);
    SumDenotes(s, env);
  }

  /** parse_expr: a text that spells the tokens of a tree is read as that tree. */
  lemma TextMeaning(lead: string, ps: seq<Piece>, s: SumTree, env: map<string, nat>)
    requires IsProper(s) && IsGap(lead) && Spells(ps, SumTokens(s))
    ensures var tokens := Lex(lead + Text(ps), 0);
      && tokens.Ok? && Parse(tokens.value) == Ok(SumExpr(s))
      && Value(Parse(tokens.value).value, env) == SumMeaning(s, env)
  {
    hide IsProper, SumTokens, SumExpr, SumMeaning, Value, Parse, Lex, Text, Spells, IsGap;
    LexExactly(lead + Text(ps), SumTokens(s));
    ParsesTree(s);
    ParsedMeaning(s, env);
  }

  lemma OneChain(c: ChainTree)
    ensures IsProper(FirstChain(c)) <==> IsProperChain(c)
    ensures SumTokens(FirstChain(c)) == ChainTokens(c) && SumExpr(FirstChain(c)) == ChainExpr(c)
  {
  }

  lemma OneTerm(t: TermTree)
    ensures IsProperChain(FirstTerm(t)) <==> IsProperAtom(t.atom)
    ensures ChainTokens(FirstTerm(t)) == TermTokens(t) && ChainExpr(FirstTerm(t)) == TermExpr(t)
  {
  }

  /** 2 * x, and t << k + u << l without parentheses. */
  lemma UnparenthesizedForms(x: string, y: string, k: nat, l: nat)
    ensures Parse([NUMBER(2), SYMBOL("*"), NAME(x)]) == Ok(Shift(Var(x), 1))
    ensures Parse([NAME(x), SYMBOL("<<"), NUMBER(k), SYMBOL("+"), NAME(y), SYMBOL("<<"), NUMBER(l)])
      == Ok(Shift(Add(Shift(Var(x), k), Var(y)), l))
  {
    var first, second, twice := Plain(Name(x)), Plain(Name(y)), Twice(Name(x));
    OneTerm(twice);
    OneChain(FirstTerm(twice));
    assert TermTokens(twice) == [NUMBER(2), SYMBOL("*"), NAME(x)] && TermExpr(twice) == Shift(Var(x), 1);
    ParsesTree(FirstChain(FirstTerm(twice)));
    OneTerm(first);
    var c := ShiftedPlus(FirstTerm(first), k, second);
    var s := FirstChain(Shifted(c, l));
    assert TermTokens(second) == [NAME(y)] && TermExpr(second) == Var(y);
    assert ChainTokens(c) == [NAME(x), SYMBOL("<<"), NUMBER(k), SYMBOL("+"), NAME(y)];
    OneChain(s.chain);
    assert IsProperChain(c) && IsProperChain(s.chain);
    assert ChainExpr(c) == Add(Shift(Var(x), k), Var(y)) && ChainExpr(s.chain) == Shift(ChainExpr(c), l);
    assert ChainTokens(s.chain) == [NAME(x), SYMBOL("<<"), NUMBER(k), SYMBOL("+"), NAME(y), SYMBOL("<<"), NUMBER(l)];
    ParsesTree(s);
  }

  // ----- printing an expression and parsing it back -----

  /** Every compound operand in parentheses. */
  function Printed(e: Expr): seq<Token> {
    match e
    case Var(name) => if name == "1" then [NUMBER(1)] else [NAME(name)]
    case Add(l, r) => InParentheses(Printed(l)) + [SYMBOL("+")] + InParentheses(Printed(r))
    case Shift(v, n) => InParentheses(Printed(v)) + [SYMBOL("<<"), NUMBER(n)]
  }

  function InParentheses(ts: seq<Token>): seq<Token> {
    [SYMBOL("(")] + ts + [SYMBOL(")")]
  }

  function Grouped(s: SumTree): ChainTree {
    FirstTerm(Plain(Group(s)))
  }

  /** The tree of the printed form. */
  function TreeOf(e: Expr): SumTree {
    match e
    case Var(name) => FirstChain(FirstTerm(Plain(if name == "1" then One else Name(name))))
    case Add(l, r) => PlusChain(FirstChain(Grouped(TreeOf(l))), Grouped(TreeOf(r)))
    case Shift(v, n) => FirstChain(Shifted(Grouped(TreeOf(v)), n))
  }

  lemma {:induction false} PrintsTree(e: Expr)
    ensures IsProper(TreeOf(e)) && SumTokens(TreeOf(e)) == Printed(e) && SumExpr(TreeOf(e)) == e
  {
    match e
    case Var(name) =>
      var t := Plain(if name == "1" then One else Name(name));
      OneTerm(t);
      OneChain(FirstTerm(t));
    case Add(l, r) =>
      PrintsTree(l);
      PrintsTree(r);
      GroupedForm(TreeOf(l));
      GroupedForm(TreeOf(r));
      OneChain(Grouped(TreeOf(l)));
    case Shift(v, _) =>
      PrintsTree(v);
      GroupedForm(TreeOf(v));
      OneChain(TreeOf(e).chain);
  }

  lemma GroupedForm(s: SumTree)
    requires IsProper(s)
    ensures IsProperChain(Grouped(s)) && ChainTokens(Grouped(s)) == InParentheses(SumTokens(s)) && ChainExpr(Grouped(s)) == SumExpr(s)
  {
    OneTerm(Plain(Group(s)));
    assert TermTokens(Plain(Group(s))) == AtomTokens(Group(s)) == InParentheses(SumTokens(s));
    assert TermExpr(Plain(Group(s))) == AtomExpr(Group(s)) == SumExpr(s);
  }

  /** Parsing undoes printing, for every expression. */
  lemma ParsingUndoesPrinting(e: Expr)
    ensures Parse(Printed(e)) == Ok(e)
  {
    PrintsTree(e);
    ParsesTree(TreeOf(e));
  }

  /** Every variable is "1" or an identifier. */
  predicate HasPlainNames(e: Expr) {
    match e
    case Var(name) => name == "1" || IsWritable(NAME(name))
    case Add(l, r) => HasPlainNames(l) && HasPlainNames(r)
    case Shift(v, _) => HasPlainNames(v)
  }

  lemma {:induction false} PrintedIsWritable(e: Expr)
    requires HasPlainNames(e)
    ensures forall i :: 0 <= i < |Printed(e)| ==> IsWritable(Printed(e)[i])
  {
    match e
    case Var(name) =>
    case Add(l, r) =>
      PrintedIsWritable(l);
      PrintedIsWritable(r);
    case Shift(v, _) =>
      PrintedIsWritable(v);
  }

  /** From an expression to text and back. */
  lemma ReadingUndoesWriting(e: Expr)
    requires HasPlainNames(e)
    ensures var tokens := Lex(Written(Printed(e)), 0); tokens.Ok? && Parse(tokens.value) == Ok(e)
  {
    PrintedIsWritable(e);
    TokenizingUndoesWriting(Printed(e));
    ParsingUndoesPrinting(e);
  }
}
