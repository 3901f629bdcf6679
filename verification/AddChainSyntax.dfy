/** Addition-chain expressions: tokens and the recursive-descent parser. */
module AddChainSyntax {
  import opened Results

  datatype Expr =
    | Var(name: string)
    | Add(left: Expr, right: Expr)
    | Shift(value: Expr, amount: nat)

  datatype Token = NUMBER(number: nat) | NAME(name: string) | SYMBOL(symbol: string)

  // ----- decimal numerals -----

  function Digit(d: nat): char
    requires d < 10
  {
    "0123456789"[d]
  }

  predicate IsDigit(c: char) {
    '0' <= c <= '9'
  }

  function DigitValue(c: char): nat
    requires IsDigit(c)
  {
    c as int - '0' as int
  }

  function Decimal(n: nat): string {
    if n < 10 then [Digit(n)] else Decimal(n / 10) + [Digit(n % 10)]
  }

  predicate IsNumeral(s: string) {
    forall i :: 0 <= i < |s| ==> IsDigit(s[i])
  }

  /** int(s) on a run of digits */
  function NumeralValue(s: string): nat
    requires IsNumeral(s)
  {
    if s == "" then 0 else 10 * NumeralValue(s[..|s| - 1]) + DigitValue(s[|s| - 1])
  }

  lemma {:induction false} DecimalIsNumeral(n: nat)
    ensures IsNumeral(Decimal(n)) && Decimal(n) != "" && NumeralValue(Decimal(n)) == n
  {
    if n >= 10 {
      DecimalIsNumeral(n / 10);
      var s := Decimal(n);
      assert s[..|s| - 1] == Decimal(n / 10);
    } else {
      assert Decimal(n)[..0] == "";
    }
  }

  // ----- tokens -----

  /** The ASCII characters for which isspace() holds. */
  predicate IsSpace(c: char) {
    c == ' ' || '\t' <= c <= '\r' || '\U{1c}' <= c <= '\U{1f}'
  }

  predicate IsNameStart(c: char) {
    'a' <= c <= 'z' || 'A' <= c <= 'Z' || c == '_'
  }

  predicate IsNameChar(c: char) {
    IsNameStart(c) || IsDigit(c)
  }

  predicate IsSingle(c: char) {
    c == '+' || c == '*' || c == '(' || c == ')'
  }

  /** The end of the run of characters satisfying `p` that starts at `from`. */
  function RunEnd(s: string, from: nat, p: char -> bool): (end: nat)
    requires from <= |s|
    ensures from <= end <= |s|
    ensures forall i :: from <= i < end ==> p(s[i])
    ensures end < |s| ==> !p(s[end])
    decreases |s| - from
  {
    if from < |s| && p(s[from]) then RunEnd(s, from + 1, p) else from
  }

  /** The tokens of s from position i on. */
  function Lex(s: string, i: nat): Result<seq<Token>>
    requires i <= |s|
    decreases |s| - i
  {
    if i == |s| then Ok([])
    else if IsSpace(s[i]) then Lex(s, i + 1)
    else if s[i] == '<' && i + 1 < |s| && s[i + 1] == '<' then Prepend(SYMBOL("<<"), Lex(s, i + 2))
    else if IsDigit(s[i]) then
      var j := RunEnd(s, i + 1, IsDigit);
      Prepend(NUMBER(NumeralValue(s[i..j])), Lex(s, j))
    else if IsNameStart(s[i]) then
      var j := RunEnd(s, i + 1, IsNameChar);
      Prepend(NAME(s[i..j]), Lex(s, j))
    else if IsSingle(s[i]) then Prepend(SYMBOL([s[i]]), Lex(s, i + 1))
    else Err(ValueError)
  }

  function Prepend(t: Token, rest: Result<seq<Token>>): Result<seq<Token>> {
    match rest
    case Ok(ts) => Ok([t] + ts)
    case Err(e) => Err(e)
  }

  function Join(before: seq<Token>, rest: Result<seq<Token>>): Result<seq<Token>> {
    match rest
    case Ok(ts) => Ok(before + ts)
    case Err(e) => Err(e)
  }

  lemma JoinPrepend(before: seq<Token>, t: Token, rest: Result<seq<Token>>)
    ensures Join(before, Prepend(t, rest)) == Join(before + [t], rest)
  {
    if rest.Ok? {
      assert before + ([t] + rest.value) == before + [t] + rest.value;
    }
  }

  lemma JoinNothing(rest: Result<seq<Token>>)
    ensures Join([], rest) == rest
  {
    if rest.Ok? {
      assert [] + rest.value == rest.value;
    }
  }

  /** The inner loops of tokenize: advance to the end of a run. */
  method ScanRun(s: string, from: nat, p: char -> bool) returns (end: nat)
    requires from <= |s|
    ensures end == RunEnd(s, from, p)
  {
    end := from;
    while end < |s| && p(s[end])
      invariant from <= end <= |s| && RunEnd(s, from, p) == RunEnd(s, end, p)
    {
      end := end + 1;
    }
  }

  /** tokenize: one pass with an index. */
  method Tokenize(expr: string) returns (res: Result<seq<Token>>)
    ensures res == Lex(expr, 0)
    ensures res.Err? ==> res.failure == ValueError
  {
    hide Join, Prepend, NumeralValue;
    var tokens: seq<Token> := [];
    var i := 0;
    JoinNothing(Lex(expr, 0));
    while i < |expr|
      invariant i <= |expr| && Lex(expr, 0) == Join(tokens, Lex(expr, i))
    {
      if IsSpace(expr[i]) {
        i := i + 1;
      } else if expr[i] == '<' && i + 1 < |expr| && expr[i + 1] == '<' {
        JoinPrepend(tokens, SYMBOL("<<"), Lex(expr, i + 2));
        tokens := tokens + [SYMBOL("<<")];
        i := i + 2;
      } else if IsDigit(expr[i]) {
        var j := ScanRun(expr, i + 1, IsDigit);
        JoinPrepend(tokens, NUMBER(NumeralValue(expr[i..j])), Lex(expr, j));
        tokens := tokens + [NUMBER(NumeralValue(expr[i..j]))];
        i := j;
      } else if IsNameStart(expr[i]) {
        var j := ScanRun(expr, i + 1, IsNameChar);
        JoinPrepend(tokens, NAME(expr[i..j]), Lex(expr, j));
        tokens := tokens + [NAME(expr[i..j])];
        i := j;
      } else if IsSingle(expr[i]) {
        JoinPrepend(tokens, SYMBOL([expr[i]]), Lex(expr, i + 1));
        tokens := tokens + [SYMBOL([expr[i]])];
        i := i + 1;
      } else {
        JoinFailure(tokens);
        return Err(ValueError);
      }
    }
    JoinAll(tokens);
    return Ok(tokens);
  }

  lemma JoinAll(tokens: seq<Token>)
    ensures Join(tokens, Ok([])) == Ok(tokens)
  {
    assert tokens + [] == tokens;
  }

  lemma JoinFailure(tokens: seq<Token>)
    ensures Join(tokens, Err(ValueError)) == Err(ValueError)
  {
  }

  // ----- the grammar -----

  datatype Parsed = Parsed(expr: Expr, pos: nat)

  predicate IsAt(ts: seq<Token>, pos: nat, t: Token) {
    pos < |ts| && ts[pos] == t
  }

  function ParseExpr(ts: seq<Token>, pos: nat): (r: Result<Parsed>)
    ensures r.Ok? ==> pos < r.value.pos <= |ts|
    ensures r.Err? ==> r.failure == ValueError
    decreases |ts| - pos, 4
  {
    var first := ParseChain(ts, pos);
    if first.Err? then first else MoreSummands(ts, first.value.pos, first.value.expr)
  }

  function MoreSummands(ts: seq<Token>, pos: nat, expr: Expr): (r: Result<Parsed>)
    requires pos <= |ts|
    ensures r.Ok? ==> pos <= r.value.pos <= |ts|
    ensures r.Err? ==> r.failure == ValueError
    decreases |ts| - pos, 3
  {
    if !IsAt(ts, pos, SYMBOL("+")) then Ok(Parsed(expr, pos)) else
      var rhs := ParseChain(ts, pos + 1);
      if rhs.Err? then rhs else MoreSummands(ts, rhs.value.pos, Add(expr, rhs.value.expr))
  }

  function ParseChain(ts: seq<Token>, pos: nat): (r: Result<Parsed>)
    ensures r.Ok? ==> pos < r.value.pos <= |ts|
    ensures r.Err? ==> r.failure == ValueError
    decreases |ts| - pos, 2
  {
    var first := ParseTerm(ts, pos);
    if first.Err? then first else MoreShifts(ts, first.value.pos, first.value.expr)
  }

  /** A shift may be followed by "+ term" and further shifts, which then apply to the whole. */
  function MoreShifts(ts: seq<Token>, pos: nat, expr: Expr): (r: Result<Parsed>)
    requires pos <= |ts|
    ensures r.Ok? ==> pos <= r.value.pos <= |ts|
    ensures r.Err? ==> r.failure == ValueError
    decreases |ts| - pos, 1
  {
    if !IsAt(ts, pos, SYMBOL("<<")) then Ok(Parsed(expr, pos))
    else if pos + 1 >= |ts| || !ts[pos + 1].NUMBER? then Err(ValueError)
    else
      var shifted := Shift(expr, ts[pos + 1].number);
      if !IsAt(ts, pos + 2, SYMBOL("+")) then MoreShifts(ts, pos + 2, shifted) else
        var rhs := ParseTerm(ts, pos + 3);
        if rhs.Err? then rhs else MoreShifts(ts, rhs.value.pos, Add(shifted, rhs.value.expr))
  }

  function ParseTerm(ts: seq<Token>, pos: nat): (r: Result<Parsed>)
    ensures r.Ok? ==> pos < r.value.pos <= |ts|
    ensures r.Err? ==> r.failure == ValueError
    decreases |ts| - pos, 1
  {
    if IsAt(ts, pos, NUMBER(2)) && IsAt(ts, pos + 1, SYMBOL("*")) then
      var atom := ParseAtom(ts, pos + 2);
      if atom.Err? then atom else Ok(Parsed(Shift(atom.value.expr, 1), atom.value.pos))
    else ParseAtom(ts, pos)
  }

  function ParseAtom(ts: seq<Token>, pos: nat): (r: Result<Parsed>)
    ensures r.Ok? ==> pos < r.value.pos <= |ts|
    ensures r.Err? ==> r.failure == ValueError
    decreases |ts| - pos, 0
  {
    if pos >= |ts| then Err(ValueError)
    else if ts[pos] == SYMBOL("(") then
      var inner := ParseExpr(ts, pos + 1);
      if inner.Err? then inner
      else if !IsAt(ts, inner.value.pos, SYMBOL(")")) then Err(ValueError)
      else Ok(Parsed(inner.value.expr, inner.value.pos + 1))
    else
      match ts[pos]
      case NAME(s) => Ok(Parsed(Var(s), pos + 1))
      case NUMBER(n) => if n == 1 then Ok(Parsed(Var("1"), pos + 1)) else Err(ValueError)
      case SYMBOL(_) => Err(ValueError)
  }

  /** The expression a whole token list denotes. */
  function Parse(ts: seq<Token>): Result<Expr> {
    var r := ParseExpr(ts, 0);
    if r.Err? then Err(r.failure)
    else if r.value.pos < |ts| then Err(ValueError)
    else Ok(r.value.expr)
  }

  // ----- the parser object -----

  class Parser {
    const tokens: seq<Token>
    var pos: nat

    constructor (tokens: seq<Token>)
      ensures this.tokens == tokens && pos == 0
    {
      this.tokens, pos := tokens, 0;
    }

    /** _match on an exact token */
    method Match(t: Token) returns (matched: bool)
      modifies this`pos
      ensures matched == IsAt(tokens, old(pos), t) && pos == old(pos) + if matched then 1 else 0
    {
      matched := pos < |tokens| && tokens[pos] == t;
      if matched {
        pos := pos + 1;
      }
    }

    /** parse: the whole list must be one expression. Terminates on every token list. */
    method ParseAll() returns (res: Result<Expr>)
      requires pos == 0
      modifies this`pos
      ensures res == Parse(tokens)
      ensures res.Err? ==> res.failure == ValueError
    {
      var expr := Expression();
      if expr.Err? {
        return expr;
      }
      if pos < |tokens| {
        return Err(ValueError);
      }
      return expr;
    }

    /** _parse_expr */
    method Expression() returns (res: Result<Expr>)
      modifies this`pos
      ensures Agrees(res, ParseExpr(tokens, old(pos)))
      decreases |tokens| - pos, 4
    {
      ghost var start := pos;
      var expr := Chain();
      if expr.Err? {
        return expr;
      }
      res := expr;
      var plus := Match(SYMBOL("+"));
      while plus
        invariant start < pos <= |tokens| && res.Ok?
        invariant plus ==> pos > start + 1 && MoreSummands(tokens, pos - 1, res.value) == ParseExpr(tokens, start) && IsAt(tokens, pos - 1, SYMBOL("+"))
        invariant !plus ==> ParseExpr(tokens, start) == Ok(Parsed(res.value, pos))
        decreases |tokens| - pos, plus
      {
        var rhs := Chain();
        if rhs.Err? {
          return rhs;
        }
        res := Ok(Add(res.value, rhs.value));
        plus := Match(SYMBOL("+"));
      }
    }

    /** _parse_chain */
    method Chain() returns (res: Result<Expr>)
      modifies this`pos
      ensures Agrees(res, ParseChain(tokens, old(pos)))
      decreases |tokens| - pos, 2
    {
      ghost var start := pos;
      var expr := Term();
      if expr.Err? {
        return expr;
      }
      res := expr;
      var shift := Match(SYMBOL("<<"));
      while shift
        invariant start < pos <= |tokens| && res.Ok?
        invariant shift ==> pos > start + 1 && MoreShifts(tokens, pos - 1, res.value) == ParseChain(tokens, start) && IsAt(tokens, pos - 1, SYMBOL("<<"))
        invariant !shift ==> ParseChain(tokens, start) == Ok(Parsed(res.value, pos))
        decreases |tokens| - pos, shift
      {
        if pos >= |tokens| || !tokens[pos].NUMBER? {
          return Err(ValueError);
        }
        res := Ok(Shift(res.value, tokens[pos].number));
        pos := pos + 1;
        var plus := Match(SYMBOL("+"));
        if plus {
          var rhs := Term();
          if rhs.Err? {
            return rhs;
          }
          res := Ok(Add(res.value, rhs.value));
        }
        shift := Match(SYMBOL("<<"));
      }
    }

    /** _parse_term */
    method Term() returns (res: Result<Expr>)
      modifies this`pos
      ensures Agrees(res, ParseTerm(tokens, old(pos)))
      decreases |tokens| - pos, 1
    {
      if pos + 1 < |tokens| && tokens[pos] == NUMBER(2) && tokens[pos + 1] == SYMBOL("*") {
        pos := pos + 2;
        var atom := Atom();
        if atom.Ok? {
          return Ok(Shift(atom.value, 1));
        }
        return atom;
      }
      res := Atom();
    }

    /** _parse_atom */
    method Atom() returns (res: Result<Expr>)
      modifies this`pos
      ensures Agrees(res, ParseAtom(tokens, old(pos)))
      decreases |tokens| - pos, 0
    {
      var open := Match(SYMBOL("("));
      if open {
        var inner := Expression();
        if inner.Err? {
          return inner;
        }
        var close := Match(SYMBOL(")"));
        return if close then inner else Err(ValueError);
      }
      if pos >= |tokens| {
        return Err(ValueError);
      }
      match tokens[pos] {
        case NAME(s) =>
          pos := pos + 1;
          return Ok(Var(s));
        case NUMBER(n) =>
          pos := pos + 1;
          return if n == 1 then Ok(Var("1")) else Err(ValueError);
        case SYMBOL(_) =>
          return Err(ValueError);
      }
    }

    /** The outcome and the new position are those of the grammar. */
    ghost predicate Agrees(res: Result<Expr>, spec: Result<Parsed>)
      reads this
    {
      match spec
      case Ok(p) => res == Ok(p.expr) && pos == p.pos
      case Err(e) => res == Err(e)
    }
  }
}
