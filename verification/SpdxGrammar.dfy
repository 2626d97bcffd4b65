/**
 * Composite licence expressions (SPDX 2.3, Annex D.4) as token streams: the concrete
 * syntax `evaluate` accepts, what an expression means, and how a licence tree is written.
 */
module SpdxGrammar {
  import opened Casing
  import Ordering
  import opened Outcomes
  import opened Trimming

  // ----- tokens ---------------------------------------------------------------------

  predicate IdstringChar(c: char) {
    'A' <= c <= 'Z' || 'a' <= c <= 'z' || '0' <= c <= '9' || c == '.' || c == '+' || c == '-'
  }

  datatype Kind = Open | Close | AndOp | OrOp | WithOp | Word

  /** How the evaluator classifies a token: parentheses as they are, operators in any case. */
  function KindOf(token: string): Kind {
    if token == "(" then Open
    else if token == ")" then Close
    else if Upper(token) == "AND" then AndOp
    else if Upper(token) == "OR" then OrOp
    else if Upper(token) == "WITH" then WithOp
    else Word
  }

  function WordLength(text: string): (n: nat)
    ensures n <= |text|
    ensures forall i :: 0 <= i < n ==> IdstringChar(text[i])
    ensures n < |text| ==> !IdstringChar(text[n])
  {
    if text == "" || !IdstringChar(text[0]) then 0 else 1 + WordLength(text[1..])
  }

  /** `findall` of the token pattern: parentheses and maximal word runs, all else skipped. */
  function FindAll(text: string): seq<string>
    decreases |text|
  {
    if text == "" then []
    else if text[0] == '(' || text[0] == ')' then [text[..1]] + FindAll(text[1..])
    else if IdstringChar(text[0]) then
      var n := WordLength(text);
      [text[..n]] + FindAll(text[n..])
    else FindAll(text[1..])
  }

  predicate Lexeme(token: string) {
    token == "(" || token == ")" || (token != "" && forall i :: 0 <= i < |token| ==> IdstringChar(token[i]))
  }

  function Spaced(tokens: seq<string>): string {
    if tokens == [] then ""
    else if |tokens| == 1 then tokens[0]
    else tokens[0] + " " + Spaced(tokens[1..])
  }

  lemma {:induction false} RunStopsAt(token: string, rest: string)
    requires forall i :: 0 <= i < |token| ==> IdstringChar(token[i])
    requires rest == "" || !IdstringChar(rest[0])
    ensures WordLength(token + rest) == |token|
  {
    if token == "" {
      assert token + rest == rest;
    } else {
      assert (token + rest)[1..] == token[1..] + rest;
      RunStopsAt(token[1..], rest);
    }
  }

  lemma LexemeFirst(token: string, rest: string)
    requires Lexeme(token)
    requires rest == "" || rest[0] == ' '
    ensures FindAll(token + rest) == [token] + FindAll(rest)
  {
    if token == "(" || token == ")" {
      assert (token + rest)[..1] == token && (token + rest)[1..] == rest;
    } else {
      RunStopsAt(token, rest);
      assert (token + rest)[..|token|] == token && (token + rest)[|token|..] == rest;
    }
  }

  /** Tokens written with blanks between them are read back one for one. */
  lemma {:induction false} SpacedTokensReadBack(tokens: seq<string>)
    requires forall t :: t in tokens ==> Lexeme(t)
    ensures FindAll(Spaced(tokens)) == tokens
  {
    if tokens != [] {
      var rest := if |tokens| == 1 then "" else " " + Spaced(tokens[1..]);
      assert Spaced(tokens) == tokens[0] + rest;
      LexemeFirst(tokens[0], rest);
      SpacedTokensReadBack(tokens[1..]);
      if |tokens| > 1 {
        assert rest[1..] == Spaced(tokens[1..]);
      } else {
        assert tokens[1..] == [];
      }
      assert tokens == [tokens[0]] + tokens[1..];
    }
  }

  // ----- concrete syntax --------------------------------------------------------------

  /** Operands joined by OR; each is a chain of atoms joined by AND. */
  datatype Disj = Lone(conj: Conj) | OrElse(conj: Conj, op: string, rest: Disj)
  datatype Conj = Single(atom: Atom) | AndAlso(atom: Atom, op: string, rest: Conj)
  datatype Atom =
    | License(id: string)
    | Excepted(id: string, op: string, exception: string)
    | Group(inner: Disj)

  /** Operators are operators and identifiers are words; the operand of WITH is any token. */
  predicate WfDisj(d: Disj) {
    match d
    case Lone(c) => WfConj(c)
    case OrElse(c, op, rest) => WfConj(c) && KindOf(op) == OrOp && WfDisj(rest)
  }

  predicate WfConj(c: Conj) {
    match c
    case Single(a) => WfAtom(a)
    case AndAlso(a, op, rest) => WfAtom(a) && KindOf(op) == AndOp && WfConj(rest)
  }

  predicate WfAtom(a: Atom) {
    match a
    case License(id) => KindOf(id) == Word
    case Excepted(id, op, _) => KindOf(id) == Word && KindOf(op) == WithOp
    case Group(d) => WfDisj(d)
  }

  function DisjTokens(d: Disj): (ts: seq<string>)
    ensures ts != []
  {
    match d
    case Lone(c) => ConjTokens(c)
    case OrElse(c, op, rest) => ConjTokens(c) + [op] + DisjTokens(rest)
  }

  function ConjTokens(c: Conj): (ts: seq<string>)
    ensures ts != []
  {
    match c
    case Single(a) => AtomTokens(a)
    case AndAlso(a, op, rest) => AtomTokens(a) + [op] + ConjTokens(rest)
  }

  function AtomTokens(a: Atom): (ts: seq<string>)
    ensures ts != []
  {
    match a
    case License(id) => [id]
    case Excepted(id, op, x) => [id, op, x]
    case Group(d) => ["("] + DisjTokens(d) + [")"]
  }

  /** OR needs one operand, AND needs all, an exception does not change its identifier's verdict. */
  predicate DisjHolds(d: Disj, allowed: set<string>) {
    match d
    case Lone(c) => ConjHolds(c, allowed)
    case OrElse(c, _, rest) => ConjHolds(c, allowed) || DisjHolds(rest, allowed)
  }

  predicate ConjHolds(c: Conj, allowed: set<string>) {
    match c
    case Single(a) => AtomHolds(a, allowed)
    case AndAlso(a, _, rest) => AtomHolds(a, allowed) && ConjHolds(rest, allowed)
  }

  predicate AtomHolds(a: Atom, allowed: set<string>) {
    match a
    case License(id) => id in allowed
    case Excepted(id, _, _) => id in allowed
    case Group(d) => DisjHolds(d, allowed)
  }

  // ----- reading a token stream ---------------------------------------------------------

  datatype ExpressionError = Empty | Truncated | Unbalanced | Misplaced | DanglingWith | Trailing

  type Parsed<T> = Result<(T, seq<string>), ExpressionError>

  function ParseDisj(ts: seq<string>): (r: Parsed<Disj>)
    ensures r.Ok? ==> |r.value.1| < |ts|
    decreases |ts|, 2
  {
    var (c, rest) :- ParseConj(ts);
    if rest != [] && KindOf(rest[0]) == OrOp then
      var (d, rest') :- ParseDisj(rest[1..]);
      Ok((OrElse(c, rest[0], d), rest'))
    else Ok((Lone(c), rest))
  }

  function ParseConj(ts: seq<string>): (r: Parsed<Conj>)
    ensures r.Ok? ==> |r.value.1| < |ts|
    decreases |ts|, 1
  {
    var (a, rest) :- ParseAtom(ts);
    if rest != [] && KindOf(rest[0]) == AndOp then
      var (c, rest') :- ParseConj(rest[1..]);
      Ok((AndAlso(a, rest[0], c), rest'))
    else Ok((Single(a), rest))
  }

  function ParseAtom(ts: seq<string>): (r: Parsed<Atom>)
    ensures r.Ok? ==> |r.value.1| < |ts|
    decreases |ts|, 0
  {
    if ts == [] then Err(Truncated)
    else match KindOf(ts[0])
      case Open =>
        var (d, rest) :- ParseDisj(ts[1..]);
        if rest == [] || KindOf(rest[0]) != Close then Err(Unbalanced) else Ok((Group(d), rest[1..]))
      case Word =>
        if |ts| > 1 && KindOf(ts[1]) == WithOp then
          if |ts| == 2 then Err(DanglingWith) else Ok((Excepted(ts[0], ts[1], ts[2]), ts[3..]))
        else Ok((License(ts[0]), ts[1..]))
      case _ => Err(Misplaced)
  }

  function Parse(ts: seq<string>): Result<Disj, ExpressionError> {
    if ts == [] then Err(Empty)
    else
      var (d, rest) :- ParseDisj(ts);
      if rest != [] then Err(Trailing) else Ok(d)
  }

  /** What the first operand leaves decides whether the chain goes on. */
  lemma DisjStep(ts: seq<string>, c: Conj, rest: seq<string>)
    requires ParseConj(ts) == Ok((c, rest))
    ensures if rest != [] && KindOf(rest[0]) == OrOp
            then match ParseDisj(rest[1..])
                 case Err(e) => ParseDisj(ts) == Err(e)
                 case Ok((d, after)) => ParseDisj(ts) == Ok((OrElse(c, rest[0], d), after))
            else ParseDisj(ts) == Ok((Lone(c), rest))
  {
    hide ParseConj, KindOf;
  }

  lemma ConjStep(ts: seq<string>, a: Atom, rest: seq<string>)
    requires ParseAtom(ts) == Ok((a, rest))
    ensures if rest != [] && KindOf(rest[0]) == AndOp
            then match ParseConj(rest[1..])
                 case Err(e) => ParseConj(ts) == Err(e)
                 case Ok((c, after)) => ParseConj(ts) == Ok((AndAlso(a, rest[0], c), after))
            else ParseConj(ts) == Ok((Single(a), rest))
  {
    hide ParseAtom, KindOf;
  }

  lemma DisjStarts(ts: seq<string>)
    requires ParseDisj(ts).Ok?
    ensures ParseConj(ts).Ok?
  {
    hide ParseConj, KindOf;
  }

  lemma ConjStarts(ts: seq<string>)
    requires ParseConj(ts).Ok?
    ensures ParseAtom(ts).Ok?
  {
    hide ParseAtom, KindOf;
  }

  /** An operand, its operator and the chain after it. */
  lemma ChainOf(first: seq<string>, op: string, more: seq<string>, rest: seq<string>)
    ensures first + [op] + more + rest == first + ([op] + more + rest)
    ensures ([op] + more + rest)[0] == op && ([op] + more + rest)[1..] == more + rest
  {
  }

  lemma {:induction false} DisjSound(ts: seq<string>)
    requires ParseDisj(ts).Ok?
    ensures var (d, rest) := ParseDisj(ts).value; WfDisj(d) && ts == DisjTokens(d) + rest
    decreases |ts|, 2
  {
    DisjStarts(ts);
    ConjSound(ts);
    var (c, rest) := ParseConj(ts).value;
    DisjStep(ts, c, rest);
    hide ParseDisj, ParseConj, KindOf, ConjTokens, WfConj;
    if rest != [] && KindOf(rest[0]) == OrOp {
      DisjSound(rest[1..]);
      var (d, after) := ParseDisj(rest[1..]).value;
      ChainOf(ConjTokens(c), rest[0], DisjTokens(d), after);
      assert rest == [rest[0]] + rest[1..];
      Associate([rest[0]], DisjTokens(d), after);
    }
  }

  lemma {:induction false} ConjSound(ts: seq<string>)
    requires ParseConj(ts).Ok?
    ensures var (c, rest) := ParseConj(ts).value; WfConj(c) && ts == ConjTokens(c) + rest
    decreases |ts|, 1
  {
    ConjStarts(ts);
    AtomSound(ts);
    var (a, rest) := ParseAtom(ts).value;
    ConjStep(ts, a, rest);
    hide ParseConj, ParseAtom, KindOf, AtomTokens, WfAtom;
    if rest != [] && KindOf(rest[0]) == AndOp {
      ConjSound(rest[1..]);
      var (c, after) := ParseConj(rest[1..]).value;
      ChainOf(AtomTokens(a), rest[0], ConjTokens(c), after);
      assert rest == [rest[0]] + rest[1..];
      Associate([rest[0]], ConjTokens(c), after);
    }
  }

  lemma {:induction false} AtomSound(ts: seq<string>)
    requires ParseAtom(ts).Ok?
    ensures var (a, rest) := ParseAtom(ts).value; WfAtom(a) && ts == AtomTokens(a) + rest
    decreases |ts|, 0
  {
    if KindOf(ts[0]) == Open {
      DisjSound(ts[1..]);
      var (d, rest) := ParseDisj(ts[1..]).value;
      assert ts == [ts[0]] + ts[1..] && rest == [rest[0]] + rest[1..];
    } else if |ts| > 1 && KindOf(ts[1]) == WithOp {
      assert ts == [ts[0], ts[1], ts[2]] + ts[3..];
    } else {
      assert ts == [ts[0]] + ts[1..];
    }
  }

  /** The first token after an expression must not be one that would have continued it. */
  predicate Stops(rest: seq<string>, kinds: set<Kind>) {
    rest == [] || KindOf(rest[0]) !in kinds
  }

  lemma {:induction false} DisjComplete(d: Disj, rest: seq<string>)
    requires WfDisj(d) && Stops(rest, {OrOp, AndOp, WithOp})
    ensures ParseDisj(DisjTokens(d) + rest) == Ok((d, rest))
    decreases d
  {
    hide ParseDisj, ParseConj, KindOf, ConjTokens, WfConj;
    match d {
      case Lone(c) =>
        ConjComplete(c, rest);
        DisjStep(ConjTokens(c) + rest, c, rest);
      case OrElse(c, op, more) =>
        ChainOf(ConjTokens(c), op, DisjTokens(more), rest);
        var tail := [op] + DisjTokens(more) + rest;
        ConjComplete(c, tail);
        DisjComplete(more, rest);
        DisjStep(ConjTokens(c) + tail, c, tail);
    }
  }

  lemma {:induction false} ConjComplete(c: Conj, rest: seq<string>)
    requires WfConj(c) && Stops(rest, {AndOp, WithOp})
    ensures ParseConj(ConjTokens(c) + rest) == Ok((c, rest))
    decreases c
  {
    hide ParseConj, ParseAtom, KindOf, AtomTokens, WfAtom;
    match c {
      case Single(a) =>
        AtomComplete(a, rest);
        ConjStep(AtomTokens(a) + rest, a, rest);
      case AndAlso(a, op, more) =>
        ChainOf(AtomTokens(a), op, ConjTokens(more), rest);
        var tail := [op] + ConjTokens(more) + rest;
        AtomComplete(a, tail);
        ConjComplete(more, rest);
        ConjStep(AtomTokens(a) + tail, a, tail);
    }
  }

  lemma {:induction false} AtomComplete(a: Atom, rest: seq<string>)
    requires WfAtom(a) && Stops(rest, {WithOp})
    ensures ParseAtom(AtomTokens(a) + rest) == Ok((a, rest))
    decreases a
  {
    var ts := AtomTokens(a) + rest;
    match a {
      case License(id) => assert ts[1..] == rest;
      case Excepted(id, op, x) => assert ts[3..] == rest;
      case Group(d) =>
        assert ts[1..] == DisjTokens(d) + ([")"] + rest);
        DisjComplete(d, [")"] + rest);
        assert ([")"] + rest)[1..] == rest;
    }
  }

  /** A stream is accepted exactly when it is one whole expression, and then its reading is unique. */
  lemma AcceptsExactlyExpressions(ts: seq<string>)
    ensures Parse(ts).Ok? <==> exists d :: WfDisj(d) && DisjTokens(d) == ts
    ensures forall d :: WfDisj(d) && DisjTokens(d) == ts ==> Parse(ts) == Ok(d)
  {
    if Parse(ts).Ok? {
      DisjSound(ts);
      var d := Parse(ts).value;
      assert DisjTokens(d) + [] == DisjTokens(d);
      assert WfDisj(d) && DisjTokens(d) == ts;
    }
    forall d | WfDisj(d) && DisjTokens(d) == ts
      ensures Parse(ts) == Ok(d)
    {
      DisjComplete(d, []);
      assert DisjTokens(d) + [] == ts;
    }
  }

  // ----- licence trees and their printed form ---------------------------------------------

  /** Annex D.4 abstract syntax, in any nesting. */
  datatype Tree =
    | Simple(id: string)
    | With(id: string, exception: string)
    | Both(left: Tree, right: Tree)
    | Either(left: Tree, right: Tree)

  predicate WordToken(token: string) {
    Lexeme(token) && KindOf(token) == Word
  }

  predicate WfTree(t: Tree) {
    match t
    case Simple(id) => WordToken(id)
    case With(id, x) => WordToken(id) && WordToken(x)
    case Both(l, r) => WfTree(l) && WfTree(r)
    case Either(l, r) => WfTree(l) && WfTree(r)
  }

  predicate TreeHolds(t: Tree, allowed: set<string>) {
    match t
    case Simple(id) => id in allowed
    case With(id, _) => id in allowed
    case Both(l, r) => TreeHolds(l, allowed) && TreeHolds(r, allowed)
    case Either(l, r) => TreeHolds(l, allowed) || TreeHolds(r, allowed)
  }

  function JoinOr(a: Disj, b: Disj): Disj {
    match a
    case Lone(c) => OrElse(c, "OR", b)
    case OrElse(c, op, rest) => OrElse(c, op, JoinOr(rest, b))
  }

  function JoinAnd(a: Conj, b: Conj): Conj {
    match a
    case Single(x) => AndAlso(x, "AND", b)
    case AndAlso(x, op, rest) => AndAlso(x, op, JoinAnd(rest, b))
  }

  /** The printed form: an OR is parenthesised under an AND and nowhere else. */
  function PrintOr(t: Tree): Disj
    decreases t, 1
  {
    if t.Either? then JoinOr(PrintOr(t.left), PrintOr(t.right)) else Lone(PrintAnd(t))
  }

  function PrintAnd(t: Tree): Conj
    decreases t, 0
  {
    match t
    case Simple(id) => Single(License(id))
    case With(id, x) => Single(Excepted(id, "WITH", x))
    case Both(l, r) => JoinAnd(PrintAnd(l), PrintAnd(r))
    case Either(l, r) => Single(Group(JoinOr(PrintOr(l), PrintOr(r))))
  }

  lemma {:induction false} JoinOrMeans(a: Disj, b: Disj, allowed: set<string>)
    ensures DisjHolds(JoinOr(a, b), allowed) <==> DisjHolds(a, allowed) || DisjHolds(b, allowed)
    ensures WfDisj(a) && WfDisj(b) ==> WfDisj(JoinOr(a, b))
  {
    assert KindOf("OR") == OrOp;
    if a.OrElse? {
      JoinOrMeans(a.rest, b, allowed);
    }
  }

  lemma {:induction false} JoinAndMeans(a: Conj, b: Conj, allowed: set<string>)
    ensures ConjHolds(JoinAnd(a, b), allowed) <==> ConjHolds(a, allowed) && ConjHolds(b, allowed)
    ensures WfConj(a) && WfConj(b) ==> WfConj(JoinAnd(a, b))
  {
    assert KindOf("AND") == AndOp;
    if a.AndAlso? {
      JoinAndMeans(a.rest, b, allowed);
    }
  }

  lemma {:induction false} PrintingKeepsMeaning(t: Tree, allowed: set<string>)
    requires WfTree(t)
    ensures WfDisj(PrintOr(t)) && WfConj(PrintAnd(t))
    ensures DisjHolds(PrintOr(t), allowed) <==> TreeHolds(t, allowed)
    ensures ConjHolds(PrintAnd(t), allowed) <==> TreeHolds(t, allowed)
  {
    assert !t.Either? ==> DisjHolds(PrintOr(t), allowed) == ConjHolds(PrintAnd(t), allowed);
    match t {
      case Simple(_) =>
      case With(id, x) =>
        assert KindOf("WITH") == WithOp;
      case Both(l, r) =>
        PrintingKeepsMeaning(l, allowed);
        PrintingKeepsMeaning(r, allowed);
        JoinAndMeans(PrintAnd(l), PrintAnd(r), allowed);
      case Either(l, r) =>
        PrintingKeepsMeaning(l, allowed);
        PrintingKeepsMeaning(r, allowed);
        JoinOrMeans(PrintOr(l), PrintOr(r), allowed);
    }
  }

  predicate Lexemes(ts: seq<string>) {
    forall t :: t in ts ==> Lexeme(t)
  }

  lemma JoinOrLexemes(a: Disj, b: Disj)
    requires Lexemes(DisjTokens(a)) && Lexemes(DisjTokens(b))
    ensures Lexemes(DisjTokens(JoinOr(a, b)))
  {
    match a {
      case Lone(c) => assert DisjTokens(JoinOr(a, b)) == ConjTokens(c) + ["OR"] + DisjTokens(b);
      case OrElse(c, op, rest) =>
        assert forall t :: t in DisjTokens(rest) ==> t in DisjTokens(a);
        JoinOrLexemes(rest, b);
        assert forall t :: t in ConjTokens(c) + [op] ==> t in DisjTokens(a);
    }
  }

  lemma JoinAndLexemes(a: Conj, b: Conj)
    requires Lexemes(ConjTokens(a)) && Lexemes(ConjTokens(b))
    ensures Lexemes(ConjTokens(JoinAnd(a, b)))
  {
    match a {
      case Single(x) => assert ConjTokens(JoinAnd(a, b)) == AtomTokens(x) + ["AND"] + ConjTokens(b);
      case AndAlso(x, op, rest) =>
        assert forall t :: t in ConjTokens(rest) ==> t in ConjTokens(a);
        JoinAndLexemes(rest, b);
        assert forall t :: t in AtomTokens(x) + [op] ==> t in ConjTokens(a);
    }
  }

  lemma {:induction false} PrintedTokensAreLexemes(t: Tree)
    requires WfTree(t)
    ensures Lexemes(DisjTokens(PrintOr(t))) && Lexemes(ConjTokens(PrintAnd(t)))
  {
    assert !t.Either? ==> PrintOr(t) == Lone(PrintAnd(t));
    match t {
      case Simple(_) =>
      case With(id, x) =>
        assert ConjTokens(PrintAnd(t)) == [id, "WITH", x];
      case Both(l, r) =>
        PrintedTokensAreLexemes(l);
        PrintedTokensAreLexemes(r);
        JoinAndLexemes(PrintAnd(l), PrintAnd(r));
      case Either(l, r) =>
        PrintedTokensAreLexemes(l);
        PrintedTokensAreLexemes(r);
        JoinOrLexemes(PrintOr(l), PrintOr(r));
    }
  }

  /** The text of a licence tree. */
  function Written(t: Tree): string {
    Spaced(DisjTokens(PrintOr(t)))
  }

  // ----- what an expression depends on ------------------------------------------------------

  function DisjIds(d: Disj): seq<string> {
    match d
    case Lone(c) => ConjIds(c)
    case OrElse(c, _, rest) => ConjIds(c) + DisjIds(rest)
  }

  function ConjIds(c: Conj): seq<string> {
    match c
    case Single(a) => AtomIds(a)
    case AndAlso(a, _, rest) => AtomIds(a) + ConjIds(rest)
  }

  function AtomIds(a: Atom): seq<string> {
    match a
    case License(id) => [id]
    case Excepted(id, _, _) => [id]
    case Group(d) => DisjIds(d)
  }

  /** Allowing more never turns a satisfied expression into an unsatisfied one. */
  lemma {:induction false} DisjMonotone(d: Disj, less: set<string>, more: set<string>)
    requires forall x :: x in Ordering.Members(DisjIds(d)) * less ==> x in more
    ensures DisjHolds(d, less) ==> DisjHolds(d, more)
    decreases d
  {
    match d {
      case Lone(c) => ConjMonotone(c, less, more);
      case OrElse(c, _, rest) =>
        ConjMonotone(c, less, more);
        DisjMonotone(rest, less, more);
    }
  }

  lemma {:induction false} ConjMonotone(c: Conj, less: set<string>, more: set<string>)
    requires forall x :: x in Ordering.Members(ConjIds(c)) * less ==> x in more
    ensures ConjHolds(c, less) ==> ConjHolds(c, more)
    decreases c
  {
    match c {
      case Single(a) => AtomMonotone(a, less, more);
      case AndAlso(a, _, rest) =>
        AtomMonotone(a, less, more);
        ConjMonotone(rest, less, more);
    }
  }

  lemma {:induction false} AtomMonotone(a: Atom, less: set<string>, more: set<string>)
    requires forall x :: x in Ordering.Members(AtomIds(a)) * less ==> x in more
    ensures AtomHolds(a, less) ==> AtomHolds(a, more)
    decreases a
  {
    if a.Group? {
      DisjMonotone(a.inner, less, more);
    } else {
      assert a.id in AtomIds(a);
    }
  }

  lemma {:induction false} DisjHoldsWhenAllAllowed(d: Disj, allowed: set<string>)
    requires Ordering.Members(DisjIds(d)) <= allowed
    ensures DisjHolds(d, allowed)
    decreases d
  {
    ConjHoldsWhenAllAllowed(d.conj, allowed) by {
      assert forall x :: x in ConjIds(d.conj) ==> x in DisjIds(d);
    }
  }

  lemma {:induction false} ConjHoldsWhenAllAllowed(c: Conj, allowed: set<string>)
    requires Ordering.Members(ConjIds(c)) <= allowed
    ensures ConjHolds(c, allowed)
    decreases c
  {
    var a := c.atom;
    assert forall x :: x in AtomIds(a) ==> x in ConjIds(c);
    if a.Group? {
      DisjHoldsWhenAllAllowed(a.inner, allowed);
    } else {
      assert a.id in AtomIds(a);
    }
    if c.AndAlso? {
      assert forall x :: x in ConjIds(c.rest) ==> x in ConjIds(c);
      ConjHoldsWhenAllAllowed(c.rest, allowed);
    }
  }
}
