/** The texts the tokenizer accepts, and the tokens it makes of them: words with gaps between them. */
module AddChainTokens {
  import opened AddChainSyntax
  import opened IntMath
  import opened Results

  /** A word and the gap that follows it. */
  datatype Piece = Piece(word: string, gap: string)

  function Text(ps: seq<Piece>): string {
    if ps == [] then "" else ps[0].word + ps[0].gap + Text(ps[1..])
  }

  /** Any number of blanks, of the controls 9 to 13, and of the separators 28 to 31. */
  predicate IsGap(gap: string) {
    forall i :: 0 <= i < |gap| ==> gap[i] as int == 32 || 9 <= gap[i] as int <= 13 || 28 <= gap[i] as int <= 31
  }

  predicate IsLetter(c: char) {
    'a' <= c <= 'z' || 'A' <= c <= 'Z' || c == '_'
  }

  /** A letter or an underscore, followed by letters, underscores and digits. */
  predicate IsName(s: string) {
    s != "" && IsLetter(s[0]) && forall i :: 0 <= i < |s| ==> IsLetter(s[i]) || '0' <= s[i] <= '9'
  }

  predicate IsSymbol(s: string) {
    s == "<<" || s == "+" || s == "*" || s == "(" || s == ")"
  }

  /** The spellings of a token; a number may have leading zeros. */
  predicate IsWordOf(word: string, t: Token) {
    match t
    case NUMBER(n) => word != "" && IsNumeral(word) && NumeralValue(word) == n
    case NAME(s) => word == s && IsName(s)
    case SYMBOL(s) => word == s && IsSymbol(s)
  }

  /** Tokens that need no gap between them: two words would run together, except a number and a
      name after it. */
  predicate MayTouch(a: Token, b: Token) {
    a.SYMBOL? || b.SYMBOL? || (a.NUMBER? && b.NAME?)
  }

  predicate Spells(ps: seq<Piece>, ts: seq<Token>) {
    && |ps| == |ts|
    && (forall i :: 0 <= i < |ps| ==> IsWordOf(ps[i].word, ts[i]) && IsGap(ps[i].gap))
    && (forall i :: 0 <= i < |ps| - 1 ==> ps[i].gap != "" || MayTouch(ts[i], ts[i + 1]))
  }

  // ----- numerals -----

  /** Numerals are decimal: appending a numeral of k digits multiplies by 10^k. */
  lemma {:induction false} NumeralOfConcat(s: string, t: string)
    requires IsNumeral(s) && IsNumeral(t)
    ensures IsNumeral(s + t) && NumeralValue(s + t) == NumeralValue(s) * Pow(10, |t|) + NumeralValue(t)
    decreases |t|
  {
    if t == "" {
      assert s + t == s;
    } else {
      var init, last := t[..|t| - 1], t[|t| - 1];
      NumeralOfConcat(s, init);
      assert (s + t)[..|s + t| - 1] == s + init;
      assert Pow(10, |t|) == 10 * Pow(10, |t| - 1);
      assert NumeralValue(s) * Pow(10, |t|) == 10 * (NumeralValue(s) * Pow(10, |init|));
    }
  }

  lemma NumeralOfDigit(d: nat)
    requires d < 10
    ensures Decimal(d) == ["0123456789"[d]] && NumeralValue(["0123456789"[d]]) == d
  {
    DecimalIsNumeral(d);
  }

  // ----- every spelling is read -----

  lemma {:induction false} RunEndIs(s: string, from: nat, p: char -> bool, end: nat)
    requires from <= end <= |s| && (forall i :: from <= i < end ==> p(s[i])) && (end < |s| ==> !p(s[end]))
    ensures RunEnd(s, from, p) == end
    decreases end - from
  {
    if from < end {
      RunEndIs(s, from + 1, p, end);
    }
  }

  /** What may follow a word: not a character that would go on with it. */
  predicate Stops(t: Token, s: string, m: nat) {
    m < |s| ==> (t.NAME? ==> !IsNameChar(s[m])) && (t.NUMBER? ==> !IsDigit(s[m]))
  }

  /** A word is read as its token. */
  lemma LexOfWord(s: string, n: nat, word: string, t: Token)
    requires n + |word| <= |s| && s[n..n + |word|] == word && IsWordOf(word, t) && Stops(t, s, n + |word|)
    ensures word != "" && Lex(s, n) == Prepend(t, Lex(s, n + |word|))
  {
    var m := n + |word|;
    forall i | n <= i < m
      ensures s[i] == word[i - n]
    {
      assert s[n..m][i - n] == word[i - n];
    }
    match t
    case NUMBER(v) => RunEndIs(s, n + 1, IsDigit, m);
    case NAME(name) => RunEndIs(s, n + 1, IsNameChar, m);
    case SYMBOL(symbol) =>
      if symbol != "<<" {
        assert symbol == [s[n]];
      }
  }

  lemma {:induction false} LexSkipsGap(s: string, n: nat, gap: string)
    requires n + |gap| <= |s| && s[n..n + |gap|] == gap && IsGap(gap)
    ensures Lex(s, n) == Lex(s, n + |gap|)
    decreases |gap|
  {
    if gap != "" {
      assert s[n] == s[n..n + |gap|][0] == gap[0];
      assert s[n + 1..n + 1 + |gap[1..]|] == s[n..n + |gap|][1..];
      LexSkipsGap(s, n + 1, gap[1..]);
    }
  }

  lemma TextLayout(s: string, n: nat, ps: seq<Piece>)
    requires ps != [] && n <= |s| && s[n..] == Text(ps)
    ensures var m := n + |ps[0].word|;
      && m + |ps[0].gap| <= |s| && s[n..m] == ps[0].word && s[m..m + |ps[0].gap|] == ps[0].gap
      && s[m + |ps[0].gap|..] == Text(ps[1..])
  {
    var word, gap, rest := ps[0].word, ps[0].gap, Text(ps[1..]);
    var m := n + |word|;
    assert s[n..] == word + gap + rest && |s| - n == |word| + |gap| + |rest|;
    assert s[n..m] == s[n..][..|word|] == word;
    assert s[m..m + |gap|] == s[n..][|word|..|word| + |gap|] == gap;
    assert s[m + |gap|..] == s[n..][|word| + |gap|..] == rest;
  }

  lemma FirstOfText(s: string, n: nat, ps: seq<Piece>, t: Token)
    requires ps != [] && n <= |s| && s[n..] == Text(ps) && IsWordOf(ps[0].word, t)
    ensures n < |s| && s[n] == ps[0].word[0]
  {
    assert ps[0].word != "";
    assert s[n..] == ps[0].word + (ps[0].gap + Text(ps[1..]));
    assert s[n..][0] == ps[0].word[0];
  }

  /** After a word comes its gap, the end, or a word that may touch it. */
  lemma WordStops(s: string, n: nat, ps: seq<Piece>, ts: seq<Token>)
    requires ps != [] && n <= |s| && s[n..] == Text(ps) && Spells(ps, ts)
    ensures Stops(ts[0], s, n + |ps[0].word|)
  {
    hide Text, NumeralValue;
    TextLayout(s, n, ps);
    var m := n + |ps[0].word|;
    if ps[0].gap != "" {
      assert s[m] == s[m..m + |ps[0].gap|][0] == ps[0].gap[0];
    } else if |ps| > 1 {
      assert ps[1..][0] == ps[1];
      FirstOfText(s, m, ps[1..], ts[1]);
      assert MayTouch(ts[0], ts[1]);
    } else {
      assert s[m..] == Text([]) == "" by { NoText(); }
    }
  }

  lemma NoText()
    ensures Text([]) == ""
  {
  }

  lemma {:induction false} LexOfText(s: string, n: nat, ps: seq<Piece>, ts: seq<Token>)
    requires n <= |s| && s[n..] == Text(ps) && Spells(ps, ts)
    ensures Lex(s, n) == Ok(ts)
    decreases |ps|
  {
    hide *;
    SpellsRest(ps, ts);
    if ps == [] {
      NoText();
      NothingLeft(s, n);
    } else {
      var m := n + |ps[0].word|;
      TextLayout(s, n, ps);
      WordStops(s, n, ps, ts);
      LexOfWord(s, n, ps[0].word, ts[0]);
      LexSkipsGap(s, m, ps[0].gap);
      LexOfText(s, m + |ps[0].gap|, ps[1..], ts[1..]);
      PrependRest(ts);
    }
  }

  lemma SpellsRest(ps: seq<Piece>, ts: seq<Token>)
    requires Spells(ps, ts)
    ensures |ps| == |ts|
    ensures ps != [] ==> IsWordOf(ps[0].word, ts[0]) && IsGap(ps[0].gap) && Spells(ps[1..], ts[1..])
  {
    hide IsWordOf, IsGap;
  }

  lemma NothingLeft(s: string, n: nat)
    requires n <= |s| && s[n..] == ""
    ensures Lex(s, n) == Ok([])
  {
  }

  lemma PrependRest(ts: seq<Token>)
    requires ts != []
    ensures Prepend(ts[0], Ok(ts[1..])) == Ok(ts)
  {
    assert [ts[0]] + ts[1..] == ts;
  }

  // ----- whatever is read is a spelling -----

  /** One more word in front. */
  lemma OneMoreWord(s: string, n: nat, j: nat, t: Token, lead: string, ps: seq<Piece>, ts: seq<Token>)
    requires n < j <= |s| && IsWordOf(s[n..j], t) && Stops(t, s, j)
    requires s[j..] == lead + Text(ps) && IsGap(lead) && Spells(ps, ts)
    ensures s[n..] == "" + Text([Piece(s[n..j], lead)] + ps) && Spells([Piece(s[n..j], lead)] + ps, [t] + ts)
  {
    hide Text, NumeralValue;
    var all := [Piece(s[n..j], lead)] + ps;
    MoreText(s[n..j], lead, ps);
    assert s[n..] == s[n..j] + s[j..];
    forall i | 0 <= i < |all| - 1
      ensures all[i].gap != "" || MayTouch(([t] + ts)[i], ([t] + ts)[i + 1])
    {
      if i > 0 {
        assert ps[i - 1].gap != "" || MayTouch(ts[i - 1], ts[i]);
      } else if lead == "" {
        assert s[j..] == Text(ps);
        FirstOfText(s, j, ps, ts[0]);
        assert IsWordOf(ps[0].word, ts[0]);
      }
    }
  }

  lemma MoreText(word: string, gap: string, ps: seq<Piece>)
    ensures Text([Piece(word, gap)] + ps) == word + gap + Text(ps)
  {
    assert ([Piece(word, gap)] + ps)[1..] == ps;
  }

  lemma {:induction false} SpellingOf(s: string, n: nat) returns (lead: string, ps: seq<Piece>)
    requires n <= |s| && Lex(s, n).Ok?
    ensures s[n..] == lead + Text(ps) && IsGap(lead) && Spells(ps, Lex(s, n).value)
    decreases |s| - n
  {
    if n == |s| {
      lead, ps := "", [];
    } else if IsSpace(s[n]) {
      var rest;
      rest, ps := SpellingOf(s, n + 1);
      lead := [s[n]] + rest;
      assert s[n..] == [s[n]] + s[n + 1..];
    } else {
      hide Text;
      var t, j := FirstWord(s, n);
      var gap, rest := SpellingOf(s, j);
      lead, ps := "", [Piece(s[n..j], gap)] + rest;
      OneMoreWord(s, n, j, t, gap, rest, Lex(s, j).value);
    }
  }

  /** The word at a position that is not blank. */
  lemma FirstWord(s: string, n: nat) returns (t: Token, j: nat)
    requires n < |s| && !IsSpace(s[n]) && Lex(s, n).Ok?
    ensures n < j <= |s| && IsWordOf(s[n..j], t) && Stops(t, s, j)
    ensures Lex(s, j).Ok? && Lex(s, n) == Ok([t] + Lex(s, j).value)
  {
    if s[n] == '<' && n + 1 < |s| && s[n + 1] == '<' {
      t, j := SYMBOL("<<"), n + 2;
    } else if IsDigit(s[n]) {
      j := RunEnd(s, n + 1, IsDigit);
      t := NUMBER(NumeralValue(s[n..j]));
    } else if IsNameStart(s[n]) {
      j := RunEnd(s, n + 1, IsNameChar);
      t := NAME(s[n..j]);
    } else {
      t, j := SYMBOL([s[n]]), n + 1;
      assert s[n..j] == [s[n]];
    }
  }

  /** The tokenizer reads ts from a text exactly when the text spells ts, blanks in front allowed. */
  lemma LexExactly(s: string, ts: seq<Token>)
    ensures Lex(s, 0) == Ok(ts) <==> exists lead, ps :: s == lead + Text(ps) && IsGap(lead) && Spells(ps, ts)
  {
    hide Lex, Text, IsGap, Spells;
    assert s[0..] == s;
    if Lex(s, 0) == Ok(ts) {
      var lead, ps := SpellingOf(s, 0);
    }
    if exists lead, ps :: s == lead + Text(ps) && IsGap(lead) && Spells(ps, ts) {
      var lead, ps :| s == lead + Text(ps) && IsGap(lead) && Spells(ps, ts);
      assert s[0..|lead|] == lead && s[|lead|..] == Text(ps);
      LexSkipsGap(s, 0, lead);
      LexOfText(s, |lead|, ps, ts);
    }
  }

  // ----- writing tokens -----

  predicate IsWritable(t: Token) {
    match t
    case NUMBER(_) => true
    case NAME(s) => IsName(s)
    case SYMBOL(s) => IsSymbol(s)
  }

  function Spelling(t: Token): string {
    match t
    case NUMBER(n) => Decimal(n)
    case NAME(s) => s
    case SYMBOL(s) => s
  }

  /** Tokens written one after the other, each followed by a space. */
  function Written(ts: seq<Token>): string {
    if ts == [] then "" else Spelling(ts[0]) + " " + Written(ts[1..])
  }

  lemma {:induction false} WrittenSpells(ts: seq<Token>) returns (ps: seq<Piece>)
    requires forall i :: 0 <= i < |ts| ==> IsWritable(ts[i])
    ensures Text(ps) == Written(ts) && Spells(ps, ts) && forall i :: 0 <= i < |ps| ==> ps[i].gap == " "
  {
    if ts == [] {
      ps := [];
    } else {
      var rest := WrittenSpells(ts[1..]);
      if ts[0].NUMBER? {
        DecimalIsNumeral(ts[0].number);
      }
      ps := [Piece(Spelling(ts[0]), " ")] + rest;
      MoreText(Spelling(ts[0]), " ", rest);
      assert forall i :: 0 < i < |ts| ==> ts[i] == ts[1..][i - 1];
    }
  }

  lemma TokenizingUndoesWriting(ts: seq<Token>)
    requires forall i :: 0 <= i < |ts| ==> IsWritable(ts[i])
    ensures Lex(Written(ts), 0) == Ok(ts)
  {
    hide Lex, Text, Spells, Written;
    var ps := WrittenSpells(ts);
    assert Written(ts)[0..] == Written(ts);
    LexOfText(Written(ts), 0, ps, ts);
  }
}
