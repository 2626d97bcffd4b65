/** Licence expressions as texts, character by character: which tokens a text has, and what the shortest texts mean. */
module SpdxTexts {
  import opened Casing
  import opened Outcomes
  import opened SpdxGrammar
  import opened SpdxPolicy
  import opened Trimming

  /** ASCII letters, digits, the dot, the plus and the hyphen. */
  predicate Spelled(text: string) {
    text != "" && forall i :: 0 <= i < |text| ==>
      || 'A' <= text[i] <= 'Z' || 'a' <= text[i] <= 'z' || '0' <= text[i] <= '9'
      || text[i] == '.' || text[i] == '+' || text[i] == '-'
  }

  /** Such a text is one token, dots and all. */
  lemma SpelledIsOneToken(text: string)
    requires Spelled(text)
    ensures FindAll(text) == [text]
  {
    RunStopsAt(text, "");
    assert text + "" == text && text[|text|..] == "";
  }

  lemma FindAllUnfolds(text: string)
    requires text != ""
    ensures (text[0] == '(' || text[0] == ')') ==> FindAll(text) == [text[..1]] + FindAll(text[1..])
    ensures text[0] != '(' && text[0] != ')' && !Spelled(text[..1]) ==> FindAll(text) == FindAll(text[1..])
  {
    assert Spelled(text[..1]) <==> IdstringChar(text[..1][0]);
  }

  /** A run of such characters that is followed by another character is a token of its own. */
  lemma WordThenMore(word: string, rest: string)
    requires Spelled(word) && (rest == "" || !Spelled(rest[..1]))
    ensures FindAll(word + rest) == [word] + FindAll(rest)
  {
    assert rest != "" ==> (Spelled(rest[..1]) <==> IdstringChar(rest[..1][0]));
    RunStopsAt(word, rest);
    assert (word + rest)[..|word|] == word && (word + rest)[|word|..] == rest;
  }

  /** The longest such run at the head of a text. */
  function Run(text: string): (n: nat)
    ensures n <= |text| && (n > 0 ==> Spelled(text[..n])) && (n < |text| ==> !Spelled(text[n..n + 1]))
  {
    if text == "" || !Spelled(text[..1]) then 0
    else
      var n := 1 + Run(text[1..]);
      assert forall i :: 1 <= i < n ==> text[..n][i] == text[1..][..n - 1][i - 1];
      assert text[..1][0] == text[..n][0];
      assert n < |text| ==> text[n..n + 1] == [text[n]] == [text[1..][n - 1]] == text[1..][n - 1..n];
      n
  }

  /**
   * Any other character separates tokens, and a parenthesis is one itself: with the texts that are one token
   * this says what every text is split into.
   */
  lemma {:induction false} OtherCharactersSeparate(u: string, c: char, v: string)
    requires !Spelled([c])
    ensures FindAll(u + [c] + v) == FindAll(u) + (if c == '(' || c == ')' then [[c]] else []) + FindAll(v)
    decreases |u|
  {
    hide FindAll, Spelled;
    var text, own := u + [c] + v, if c == '(' || c == ')' then [[c]] else [];
    if u == "" {
      NoTokens();
      assert text == [c] + v && text[1..] == v && text[..1] == [c];
      FindAllUnfolds(text);
      assert [] + own == own;
    } else {
      var n := Run(u);
      if n > 0 {
        OtherCharactersSeparate(u[n..], c, v);
        SeparatesAfterWord(u, n, c, v, own);
      } else {
        OtherCharactersSeparate(u[1..], c, v);
        SeparatesAfterOther(u, c, v, own);
      }
    }
  }

  lemma SeparatesAfterWord(u: string, n: nat, c: char, v: string, own: seq<string>)
    requires 0 < n <= |u| && Spelled(u[..n]) && (n < |u| ==> !Spelled(u[n..n + 1])) && !Spelled([c])
    requires FindAll(u[n..] + [c] + v) == FindAll(u[n..]) + own + FindAll(v)
    ensures FindAll(u + [c] + v) == FindAll(u) + own + FindAll(v)
  {
    hide *;
    var word, rest := u[..n], u[n..];
    assert u == word + rest && u + [c] + v == word + (rest + [c] + v);
    assert (rest + [c] + v)[..1] == if rest == "" then [c] else u[n..n + 1];
    assert rest != "" ==> rest[..1] == u[n..n + 1];
    WordThenMore(word, rest);
    WordThenMore(word, rest + [c] + v);
    Associate([word], FindAll(rest), own);
    Associate([word], FindAll(rest) + own, FindAll(v));
  }

  lemma SeparatesAfterOther(u: string, c: char, v: string, own: seq<string>)
    requires u != "" && !Spelled(u[..1])
    requires FindAll(u[1..] + [c] + v) == FindAll(u[1..]) + own + FindAll(v)
    ensures FindAll(u + [c] + v) == FindAll(u) + own + FindAll(v)
  {
    hide *;
    var text := u + [c] + v;
    assert text[..1] == u[..1] && text[1..] == u[1..] + [c] + v && text[0] == u[0];
    FindAllUnfolds(u);
    FindAllUnfolds(text);
    Associate([u[..1]], FindAll(u[1..]), own);
    Associate([u[..1]], FindAll(u[1..]) + own, FindAll(v));
  }

  lemma NoTokens()
    ensures FindAll("") == []
  {
  }

  // ----- what short texts mean -------------------------------------------------------------------------------

  /** The three operators, in any mixture of cases. */
  predicate SpellsAnd(op: string) {
    |op| == 3 && (op[0] == 'A' || op[0] == 'a') && (op[1] == 'N' || op[1] == 'n') && (op[2] == 'D' || op[2] == 'd')
  }

  predicate SpellsOr(op: string) {
    |op| == 2 && (op[0] == 'O' || op[0] == 'o') && (op[1] == 'R' || op[1] == 'r')
  }

  predicate SpellsWith(op: string) {
    && |op| == 4 && (op[0] == 'W' || op[0] == 'w') && (op[1] == 'I' || op[1] == 'i')
    && (op[2] == 'T' || op[2] == 't') && (op[3] == 'H' || op[3] == 'h')
  }

  predicate Identifier(id: string) {
    Spelled(id) && !SpellsAnd(id) && !SpellsOr(id) && !SpellsWith(id)
  }

  lemma OperatorsInAnyCase(op: string)
    ensures SpellsAnd(op) <==> KindOf(op) == AndOp
    ensures SpellsOr(op) <==> KindOf(op) == OrOp
    ensures SpellsWith(op) <==> KindOf(op) == WithOp
    ensures Spelled(op) ==> KindOf(op) != Open && KindOf(op) != Close
  {
    var u := Upper(op);
    assert u == "AND" <==> |u| == 3 && u[0] == 'A' && u[1] == 'N' && u[2] == 'D';
    assert u == "OR" <==> |u| == 2 && u[0] == 'O' && u[1] == 'R';
    assert u == "WITH" <==> |u| == 4 && u[0] == 'W' && u[1] == 'I' && u[2] == 'T' && u[3] == 'H';
    assert op == "(" ==> op[0] == '(';
    assert op == ")" ==> op[0] == ')';
  }

  lemma IdentifierIsAWord(id: string)
    requires Identifier(id)
    ensures KindOf(id) == Word && Lexeme(id)
  {
    OperatorsInAnyCase(id);
    hide KindOf;
  }

  lemma OperatorIsSpelled(op: string)
    requires SpellsAnd(op) || SpellsOr(op) || SpellsWith(op)
    ensures Spelled(op)
  {
  }

  /** A text is judged as any whole expression with its tokens means. */
  lemma TextReads(text: string, d: Disj, allowed: set<string>)
    requires WfDisj(d) && DisjTokens(d) == FindAll(text)
    ensures Judgement(text, allowed) == Ok(DisjHolds(d, allowed))
  {
    AcceptsExactlyExpressions(FindAll(text));
  }

  lemma WordThenBlank(word: string, rest: string)
    requires Spelled(word)
    ensures FindAll(word + " " + rest) == [word] + FindAll(rest)
  {
    assert word + " " + rest == word + (" " + rest);
    var more := " " + rest;
    assert more[..1] == [' '] && more[1..] == rest && [' '][0] == ' ';
    assert !Spelled([' ']);
    WordThenMore(word, more);
    FindAllUnfolds(more);
  }

  lemma ThreeTokens(a: string, b: string, c: string)
    requires Spelled(a) && Spelled(b) && Spelled(c)
    ensures FindAll(a + " " + b + " " + c) == [a, b, c]
  {
    hide Spelled, FindAll;
    SpelledIsOneToken(c);
    WordThenBlank(b, c);
    WordThenBlank(a, b + " " + c);
    assert a + " " + (b + " " + c) == a + " " + b + " " + c;
  }

  lemma FiveTokens(a: string, b: string, c: string, d: string, e: string)
    requires Spelled(a) && Spelled(b) && Spelled(c) && Spelled(d) && Spelled(e)
    ensures FindAll(a + " " + b + " " + c + " " + d + " " + e) == [a, b, c, d, e]
  {
    hide Spelled, FindAll;
    ThreeTokens(c, d, e);
    WordThenBlank(b, c + " " + d + " " + e);
    WordThenBlank(a, b + " " + (c + " " + d + " " + e));
    assert a + " " + (b + " " + (c + " " + d + " " + e)) == a + " " + b + " " + c + " " + d + " " + e;
  }

  lemma OneLicence(id: string, allowed: set<string>)
    requires Identifier(id)
    ensures ConjHolds(Single(License(id)), allowed) == DisjHolds(Lone(Single(License(id))), allowed) == (id in allowed)
    ensures WfConj(Single(License(id))) && ConjTokens(Single(License(id))) == [id]
    ensures WfDisj(Lone(Single(License(id)))) && DisjTokens(Lone(Single(License(id)))) == [id]
  {
    IdentifierIsAWord(id);
  }

  lemma TwoLicences(a: string, op: string, b: string, allowed: set<string>)
    requires Identifier(a) && Identifier(b) && SpellsAnd(op)
    ensures var c := AndAlso(License(a), op, Single(License(b)));
            ConjHolds(c, allowed) == DisjHolds(Lone(c), allowed) == (a in allowed && b in allowed)
    ensures var c := AndAlso(License(a), op, Single(License(b)));
            && WfConj(c) && ConjTokens(c) == [a, op, b] && WfDisj(Lone(c)) && DisjTokens(Lone(c)) == [a, op, b]
  {
    IdentifierIsAWord(a);
    OneLicence(b, allowed);
    OperatorsInAnyCase(op);
    hide KindOf;
  }

  /** One identifier is judged by itself. */
  lemma IdentifierIsJudged(id: string, allowed: set<string>)
    requires Identifier(id)
    ensures Judgement(id, allowed) == Ok(id in allowed)
  {
    SpelledIsOneToken(id);
    OneLicence(id, allowed);
    TextReads(id, Lone(Single(License(id))), allowed);
  }

  /** Two of them, and the operator in any case: a sum of obligations. */
  lemma SumIsJudged(a: string, op: string, b: string, allowed: set<string>)
    requires Identifier(a) && Identifier(b) && SpellsAnd(op)
    ensures Judgement(a + " " + op + " " + b, allowed) == Ok(a in allowed && b in allowed)
  {
    OperatorIsSpelled(op);
    ThreeTokens(a, op, b);
    TwoLicences(a, op, b, allowed);
    hide FindAll, Judgement, Identifier, SpellsAnd;
    TextReads(a + " " + op + " " + b, Lone(AndAlso(License(a), op, Single(License(b)))), allowed);
  }

  /** A choice. */
  lemma ChoiceIsJudged(a: string, op: string, b: string, allowed: set<string>)
    requires Identifier(a) && Identifier(b) && SpellsOr(op)
    ensures Judgement(a + " " + op + " " + b, allowed) == Ok(a in allowed || b in allowed)
  {
    OperatorIsSpelled(op);
    ThreeTokens(a, op, b);
    OneLicence(a, allowed);
    OneLicence(b, allowed);
    OperatorsInAnyCase(op);
    hide FindAll, Judgement, Identifier, SpellsOr, KindOf;
    TextReads(a + " " + op + " " + b, OrElse(Single(License(a)), op, Lone(Single(License(b)))), allowed);
  }

  /** An exception, which does not count, whatever it is called. */
  lemma ExceptionIsJudged(a: string, op: string, x: string, allowed: set<string>)
    requires Identifier(a) && Spelled(x) && SpellsWith(op)
    ensures Judgement(a + " " + op + " " + x, allowed) == Ok(a in allowed)
  {
    OperatorIsSpelled(op);
    ThreeTokens(a, op, x);
    IdentifierIsAWord(a);
    OperatorsInAnyCase(op);
    hide FindAll, Judgement, Identifier, SpellsWith, KindOf;
    var c := Single(Excepted(a, op, x));
    assert AtomTokens(Excepted(a, op, x)) == [a, op, x] && AtomHolds(Excepted(a, op, x), allowed) == (a in allowed);
    assert ConjTokens(c) == [a, op, x] && WfConj(c) && ConjHolds(c, allowed) == (a in allowed);
    TextReads(a + " " + op + " " + x, Lone(c), allowed);
  }

  lemma AndOnTheRight(a: string, or: string, b: string, and: string, c: string, allowed: set<string>)
    requires Identifier(a) && Identifier(b) && Identifier(c) && SpellsOr(or) && SpellsAnd(and)
    ensures Judgement(a + " " + or + " " + b + " " + and + " " + c, allowed)
            == Ok(a in allowed || (b in allowed && c in allowed))
  {
    OperatorIsSpelled(or);
    OperatorIsSpelled(and);
    FiveTokens(a, or, b, and, c);
    OneLicence(a, allowed);
    TwoLicences(b, and, c, allowed);
    OperatorsInAnyCase(or);
    hide FindAll, Judgement, Identifier, SpellsOr, SpellsAnd, KindOf, ConjTokens, ConjHolds, WfConj;
    var last := AndAlso(License(b), and, Single(License(c)));
    assert [a] + [or] + [b, and, c] == [a, or, b, and, c];
    TextReads(a + " " + or + " " + b + " " + and + " " + c, OrElse(Single(License(a)), or, Lone(last)), allowed);
  }

  lemma AndOnTheLeft(a: string, and: string, b: string, or: string, c: string, allowed: set<string>)
    requires Identifier(a) && Identifier(b) && Identifier(c) && SpellsOr(or) && SpellsAnd(and)
    ensures Judgement(a + " " + and + " " + b + " " + or + " " + c, allowed)
            == Ok((a in allowed && b in allowed) || c in allowed)
  {
    OperatorIsSpelled(or);
    OperatorIsSpelled(and);
    FiveTokens(a, and, b, or, c);
    OneLicence(c, allowed);
    TwoLicences(a, and, b, allowed);
    OperatorsInAnyCase(or);
    hide FindAll, Judgement, Identifier, SpellsOr, SpellsAnd, KindOf, ConjTokens, ConjHolds, WfConj;
    var first := AndAlso(License(a), and, Single(License(b)));
    assert [a, and, b] + [or] + [c] == [a, and, b, or, c];
    TextReads(a + " " + and + " " + b + " " + or + " " + c, OrElse(first, or, Lone(Single(License(c)))), allowed);
  }

  /** AND binds tighter than OR, on either side. */
  lemma AndBindsTighter(a: string, or: string, b: string, and: string, c: string, allowed: set<string>)
    requires Identifier(a) && Identifier(b) && Identifier(c) && SpellsOr(or) && SpellsAnd(and)
    ensures Judgement(a + " " + or + " " + b + " " + and + " " + c, allowed)
            == Ok(a in allowed || (b in allowed && c in allowed))
    ensures Judgement(a + " " + and + " " + b + " " + or + " " + c, allowed)
            == Ok((a in allowed && b in allowed) || c in allowed)
  {
    AndOnTheRight(a, or, b, and, c, allowed);
    AndOnTheLeft(a, and, b, or, c, allowed);
  }

  lemma ScanUnfolds(token: string, rest: seq<string>, skip: bool)
    requires Spelled(token)
    ensures Scan([token] + rest, skip)
            == if SpellsWith(token) then Scan(rest, true)
               else if SpellsAnd(token) || SpellsOr(token) then Scan(rest, skip)
               else (if skip then [] else [token]) + Scan(rest, false)
  {
    OperatorsInAnyCase(token);
    assert ([token] + rest)[1..] == rest;
    hide KindOf;
  }

  /** What the scanner keeps of such texts: the identifiers, and not what an exception is called. */
  lemma ScannerKeepsIdentifiers(a: string, op: string, b: string)
    requires Identifier(a) && Identifier(b) && (SpellsAnd(op) || SpellsOr(op) || SpellsWith(op))
    ensures Scan(FindAll(a + " " + op + " " + b), false) == if SpellsWith(op) then [a] else [a, b]
  {
    OperatorIsSpelled(op);
    ThreeTokens(a, op, b);
    hide Spelled, FindAll, KindOf;
    assert Scan([], false) == [];
    hide Scan;
    ScanUnfolds(b, [], false);
    ScanUnfolds(b, [], true);
    ScanUnfolds(op, [b], false);
    ScanUnfolds(a, [op, b], false);
    assert [b] + [] == [b] && [op] + [b] == [op, b] && [a] + [op, b] == [a, op, b] && [a] + [b] == [a, b] && [a] + [] == [a];
  }

  lemma NothingIsTruncated()
    ensures ParseAtom([]) == Err(Truncated) && ParseConj([]) == Err(Truncated) && ParseDisj([]) == Err(Truncated)
  {
  }

  lemma WordAlone(a: string, rest: seq<string>)
    requires KindOf(a) == Word && (rest == [] || KindOf(rest[0]) != WithOp)
    ensures ParseAtom([a] + rest) == Ok((License(a), rest))
  {
    hide KindOf;
    assert ([a] + rest)[1..] == rest;
  }

  lemma WordStopped(a: string, rest: seq<string>)
    requires KindOf(a) == Word && (rest == [] || KindOf(rest[0]) == Word || KindOf(rest[0]) == Close)
    ensures ParseDisj([a] + rest) == Ok((Lone(Single(License(a))), rest))
  {
    hide KindOf, ParseAtom;
    WordAlone(a, rest);
  }

  lemma WordBeforeOperator(a: string, op: string)
    requires KindOf(a) == Word && (KindOf(op) == AndOp || KindOf(op) == OrOp)
    ensures ParseDisj([a] + [op]) == Err(Truncated)
  {
    hide KindOf, ParseAtom;
    WordAlone(a, [op]);
    NothingIsTruncated();
    assert [op][1..] == [];
  }

  lemma AtomRefused(ts: seq<string>)
    requires ts != [] && ParseAtom(ts).Err?
    ensures Parse(ts) == Err(ParseAtom(ts).error)
  {
    hide ParseAtom, KindOf;
    assert ParseConj(ts) == Err(ParseAtom(ts).error);
    assert ParseDisj(ts) == Err(ParseAtom(ts).error);
  }

  lemma GroupNeverClosed(a: string)
    requires KindOf(a) == Word
    ensures ParseAtom(["("] + [a]) == Err(Unbalanced)
  {
    assert KindOf("(") == Open;
    hide KindOf;
    WordStopped(a, []);
    assert (["("] + [a])[1..] == [a] + [];
    hide ParseDisj;
  }

  lemma WithAtTheEnd(a: string, with: string)
    requires KindOf(a) == Word && KindOf(with) == WithOp
    ensures ParseAtom([a, with]) == Err(DanglingWith)
  {
    hide KindOf;
  }

  lemma OperatorFirst(op: string)
    requires KindOf(op) == AndOp || KindOf(op) == OrOp
    ensures ParseAtom([op]) == Err(Misplaced)
  {
    hide KindOf;
  }

  /** What an unreadable expression is told: each of the six complaints, on the shortest tokens that draw it. */
  lemma BrokenExpressionsAreTold(a: string, b: string, op: string, with: string)
    requires Identifier(a) && Identifier(b) && (SpellsAnd(op) || SpellsOr(op)) && SpellsWith(with)
    ensures Parse([]) == Err(Empty) && Parse([op]) == Err(Misplaced) && Parse([a, with]) == Err(DanglingWith)
    ensures Parse([a, op]) == Err(Truncated) && Parse(["(", a]) == Err(Unbalanced) && Parse([a, b]) == Err(Trailing)
  {
    OperatorsInAnyCase(a);
    OperatorsInAnyCase(b);
    OperatorsInAnyCase(op);
    OperatorsInAnyCase(with);
    WordKinds(a);
    WordKinds(b);
    hide KindOf, Spelled, SpellsAnd, SpellsOr, SpellsWith, ParseAtom, ParseDisj;
    OperatorFirst(op);
    AtomRefused([op]);
    WithAtTheEnd(a, with);
    AtomRefused([a, with]);
    WordBeforeOperator(a, op);
    GroupNeverClosed(a);
    AtomRefused(["("] + [a]);
    WordStopped(a, [b]);
    assert [a] + [op] == [a, op] && ["("] + [a] == ["(", a] && [a] + [b] == [a, b];
  }

  lemma WordKinds(a: string)
    requires Identifier(a)
    ensures KindOf(a) == Word
  {
    OperatorsInAnyCase(a);
    hide KindOf, Spelled, SpellsAnd, SpellsOr, SpellsWith;
  }
}
