/**
 * The licence gate: the cursor-driven evaluator, the one-pass identifier scanner that
 * must agree with it, and the decision about one locked distribution.
 */
module SpdxPolicy {
  import opened Casing
  import opened Outcomes
  import opened SpdxGrammar
  import Ordering

  // ----- evaluate ------------------------------------------------------------------------

  type Verdict = Result<bool, ExpressionError>

  /** What the stream means, with what follows it: the reading decides, then the reading's meaning. */
  function DisjVerdict(ts: seq<string>, allowed: set<string>): Result<(bool, seq<string>), ExpressionError> {
    var (d, rest) :- ParseDisj(ts);
    Ok((DisjHolds(d, allowed), rest))
  }

  function ConjVerdict(ts: seq<string>, allowed: set<string>): Result<(bool, seq<string>), ExpressionError> {
    var (c, rest) :- ParseConj(ts);
    Ok((ConjHolds(c, allowed), rest))
  }

  function AtomVerdict(ts: seq<string>, allowed: set<string>): Result<(bool, seq<string>), ExpressionError> {
    var (a, rest) :- ParseAtom(ts);
    Ok((AtomHolds(a, allowed), rest))
  }

  /** What remains to be read when a loop of the evaluator looks at the next token. */
  ghost function OrTail(value: bool, ts: seq<string>, allowed: set<string>)
    : Result<(bool, seq<string>), ExpressionError>
  {
    if ts != [] && KindOf(ts[0]) == OrOp then
      var (v, rest) :- DisjVerdict(ts[1..], allowed);
      Ok((value || v, rest))
    else Ok((value, ts))
  }

  ghost function AndTail(value: bool, ts: seq<string>, allowed: set<string>)
    : Result<(bool, seq<string>), ExpressionError>
  {
    if ts != [] && KindOf(ts[0]) == AndOp then
      var (v, rest) :- ConjVerdict(ts[1..], allowed);
      Ok((value && v, rest))
    else Ok((value, ts))
  }

  /** A chain continues from its first operand's verdict with whatever follows it. */
  ghost function Continued(
    first: Result<(bool, seq<string>), ExpressionError>,
    next: (bool, seq<string>) -> Result<(bool, seq<string>), ExpressionError>)
    : Result<(bool, seq<string>), ExpressionError>
  {
    var (v, rest) :- first;
    next(v, rest)
  }

  lemma DisjUnfolds(ts: seq<string>, allowed: set<string>)
    ensures DisjVerdict(ts, allowed)
         == Continued(ConjVerdict(ts, allowed), (v, rest) => OrTail(v, rest, allowed))
  {
  }

  lemma ConjUnfolds(ts: seq<string>, allowed: set<string>)
    ensures ConjVerdict(ts, allowed)
         == Continued(AtomVerdict(ts, allowed), (v, rest) => AndTail(v, rest, allowed))
  {
  }

  lemma OrTailUnfolds(value: bool, ts: seq<string>, allowed: set<string>)
    requires ts != [] && KindOf(ts[0]) == OrOp
    ensures OrTail(value, ts, allowed)
         == Continued(ConjVerdict(ts[1..], allowed), (v, rest) => OrTail(v || value, rest, allowed))
  {
    DisjUnfolds(ts[1..], allowed);
  }

  lemma AndTailUnfolds(value: bool, ts: seq<string>, allowed: set<string>)
    requires ts != [] && KindOf(ts[0]) == AndOp
    ensures AndTail(value, ts, allowed)
         == Continued(AtomVerdict(ts[1..], allowed), (v, rest) => AndTail(v && value, rest, allowed))
  {
    ConjUnfolds(ts[1..], allowed);
  }

  /** The evaluator's closure state: the tokens and the position its nested functions share. */
  class Evaluator {
    const tokens: seq<string>
    const allowed: set<string>
    var position: nat

    constructor (tokens: seq<string>, allowed: set<string>)
      ensures this.tokens == tokens && this.allowed == allowed && position == 0
    {
      this.tokens := tokens;
      this.allowed := allowed;
      position := 0;
    }

    /** A method's result agrees with what the tokens from `start` mean. */
    ghost predicate Matches(r: Verdict, expected: Result<(bool, seq<string>), ExpressionError>)
      reads this
    {
      && position <= |tokens|
      && match expected
         case Err(e) => r == Err(e)
         case Ok((v, rest)) => r == Ok(v) && tokens[position..] == rest
    }

    method ParseOr() returns (r: Verdict)
      requires position <= |tokens|
      modifies this`position
      ensures old(position) <= position <= |tokens|
      ensures Matches(r, DisjVerdict(tokens[old(position)..], allowed))
      decreases |tokens| - position, 2
    {
      hide DisjVerdict, ConjVerdict, KindOf;
      DisjUnfolds(tokens[position..], allowed);
      var value :- ParseAnd();
      while position < |tokens| && KindOf(tokens[position]) == OrOp
        invariant old(position) < position <= |tokens|
        invariant DisjVerdict(tokens[old(position)..], allowed) == OrTail(value, tokens[position..], allowed)
        decreases |tokens| - position
      {
        OrTailUnfolds(value, tokens[position..], allowed);
        assert tokens[position..][1..] == tokens[position + 1..];
        position := position + 1;
        var operand :- ParseAnd();
        value := operand || value;
      }
      return Ok(value);
    }

    method ParseAnd() returns (r: Verdict)
      requires position <= |tokens|
      modifies this`position
      ensures old(position) <= position <= |tokens|
      ensures r.Ok? ==> old(position) < position
      ensures Matches(r, ConjVerdict(tokens[old(position)..], allowed))
      decreases |tokens| - position, 1
    {
      hide ConjVerdict, AtomVerdict, KindOf;
      ConjUnfolds(tokens[position..], allowed);
      var value :- ParseAtom();
      while position < |tokens| && KindOf(tokens[position]) == AndOp
        invariant old(position) < position <= |tokens|
        invariant ConjVerdict(tokens[old(position)..], allowed) == AndTail(value, tokens[position..], allowed)
        decreases |tokens| - position
      {
        AndTailUnfolds(value, tokens[position..], allowed);
        assert tokens[position..][1..] == tokens[position + 1..];
        position := position + 1;
        var operand :- ParseAtom();
        value := operand && value;
      }
      return Ok(value);
    }

    method ParseAtom() returns (r: Verdict)
      requires position <= |tokens|
      modifies this`position
      ensures old(position) <= position <= |tokens|
      ensures r.Ok? ==> old(position) < position
      ensures Matches(r, AtomVerdict(tokens[old(position)..], allowed))
      decreases |tokens| - position, 0
    {
      if position == |tokens| {
        return Err(Truncated);
      }
      ghost var ts := tokens[position..];
      if KindOf(tokens[position]) == Open {
        position := position + 1;
        assert ts[1..] == tokens[position..];
        var value :- ParseOr();
        if position == |tokens| || KindOf(tokens[position]) != Close {
          return Err(Unbalanced);
        }
        position := position + 1;
        return Ok(value);
      }
      var identifier := tokens[position];
      position := position + 1;
      if KindOf(identifier) != Word {
        return Err(Misplaced);
      }
      var value := identifier in allowed;
      if position < |tokens| && KindOf(tokens[position]) == WithOp {
        position := position + 1;
        if position == |tokens| {
          return Err(DanglingWith);
        }
        position := position + 1;
      }
      return Ok(value);
    }
  }

  /** The verdict on a text: the error of its reading, or what its reading means. */
  function Judgement(text: string, allowed: set<string>): Verdict {
    var d :- Parse(FindAll(text));
    Ok(DisjHolds(d, allowed))
  }

  method Evaluate(text: string, allowed: set<string>) returns (r: Verdict)
    ensures r == Judgement(text, allowed)
  {
    var tokens := FindAll(text);
    if tokens == [] {
      return Err(Empty);
    }
    var evaluator := new Evaluator(tokens, allowed);
    assert tokens[0..] == tokens;
    var result :- evaluator.ParseOr();
    if evaluator.position != |tokens| {
      return Err(Trailing);
    }
    return Ok(result);
  }

  /** Every printed licence tree evaluates to its Annex D.4 meaning. */
  lemma PrintedTreeEvaluates(t: Tree, allowed: set<string>)
    requires WfTree(t)
    ensures Judgement(Written(t), allowed) == Ok(TreeHolds(t, allowed))
  {
    PrintedTokensAreLexemes(t);
    SpacedTokensReadBack(DisjTokens(PrintOr(t)));
    PrintingKeepsMeaning(t, allowed);
    AcceptsExactlyExpressions(DisjTokens(PrintOr(t)));
  }

  /** Text is refused exactly when its tokens are not one whole expression, whatever is allowed. */
  lemma RefusalIgnoresPolicy(text: string, allowed: set<string>, other: set<string>)
    ensures Judgement(text, allowed).Err? <==> !exists d :: WfDisj(d) && DisjTokens(d) == FindAll(text)
    ensures Judgement(text, allowed).Err? ==> Judgement(text, other) == Judgement(text, allowed)
  {
    AcceptsExactlyExpressions(FindAll(text));
  }

  // ----- license_ids ---------------------------------------------------------------------------

  /** The words the scanner keeps before it drops repeats; `skip` is its pending WITH. */
  function Scan(ts: seq<string>, skip: bool): seq<string> {
    if ts == [] then []
    else match KindOf(ts[0])
      case WithOp => Scan(ts[1..], true)
      case Word => (if skip then [] else [ts[0]]) + Scan(ts[1..], false)
      case _ => Scan(ts[1..], skip)
  }

  /** `s` appended to `kept` without repeats, each member where it first occurs. */
  function Fresh(kept: seq<string>, s: seq<string>): seq<string>
    decreases |s|
  {
    if s == [] then kept
    else Fresh(if s[0] in kept then kept else kept + [s[0]], s[1..])
  }

  lemma {:induction false} FreshMembers(kept: seq<string>, s: seq<string>)
    requires Ordering.Distinct(kept)
    ensures Ordering.Distinct(Fresh(kept, s))
    ensures Ordering.Members(Fresh(kept, s)) == Ordering.Members(kept) + Ordering.Members(s)
    decreases |s|
  {
    if s != [] {
      var kept' := if s[0] in kept then kept else kept + [s[0]];
      FreshMembers(kept', s[1..]);
      assert s == [s[0]] + s[1..];
      assert Ordering.Members(kept') + Ordering.Members(s[1..]) == Ordering.Members(kept) + Ordering.Members(s);
    }
  }

  method LicenseIds(text: string) returns (r: Result<seq<string>, ExpressionError>)
    ensures r == if FindAll(text) == [] then Err(Empty) else Ok(Fresh([], Scan(FindAll(text), false)))
  {
    var tokens := FindAll(text);
    if tokens == [] {
      return Err(Empty);
    }
    var out: seq<string> := [];
    var skip := false;
    for i := 0 to |tokens|
      invariant Fresh(out, Scan(tokens[i..], skip)) == Fresh([], Scan(tokens, false))
    {
      var token := tokens[i];
      assert tokens[i..][1..] == tokens[i + 1..];
      ghost var after := Scan(tokens[i + 1..], false);
      assert [] + after == after;
      match KindOf(token) {
        case WithOp => skip := true;
        case Word =>
          if skip {
            skip := false;
          } else {
            assert Scan(tokens[i..], false) == [token] + after && ([token] + after)[1..] == after;
            if token !in out {
              out := out + [token];
            }
          }
        case _ =>
      }
    }
    return Ok(out);
  }

  /** What the scanner keeps of an expression, and whether it leaves with a WITH pending. */
  function DisjSeen(d: Disj, skip: bool): (seq<string>, bool) {
    match d
    case Lone(c) => ConjSeen(c, skip)
    case OrElse(c, _, rest) =>
      var (a, s) := ConjSeen(c, skip);
      var (b, s') := DisjSeen(rest, s);
      (a + b, s')
  }

  function ConjSeen(c: Conj, skip: bool): (seq<string>, bool) {
    match c
    case Single(a) => AtomSeen(a, skip)
    case AndAlso(a, _, rest) =>
      var (x, s) := AtomSeen(a, skip);
      var (y, s') := ConjSeen(rest, s);
      (x + y, s')
  }

  function AtomSeen(a: Atom, skip: bool): (seq<string>, bool) {
    match a
    case License(id) => (if skip then [] else [id], false)
    case Excepted(id, _, x) => (if skip then [] else [id], KindOf(x) != Word)
    case Group(d) => DisjSeen(d, skip)
  }

  lemma OperatorIsSkipped(ts: seq<string>, skip: bool)
    requires ts != [] && KindOf(ts[0]) in {AndOp, OrOp, Open, Close}
    ensures Scan(ts, skip) == Scan(ts[1..], skip)
  {
  }

  /** Two scanned parts with an operator between them scan as their concatenation. */
  lemma ScanChain(head: seq<string>, op: string, more: seq<string>, rest: seq<string>, skip: bool,
                  first: (seq<string>, bool), second: (seq<string>, bool))
    requires KindOf(op) in {AndOp, OrOp}
    requires Scan(head + ([op] + (more + rest)), skip) == first.0 + Scan([op] + (more + rest), first.1)
    requires Scan(more + rest, first.1) == second.0 + Scan(rest, second.1)
    ensures Scan(head + [op] + more + rest, skip) == first.0 + second.0 + Scan(rest, second.1)
  {
    var tail := [op] + (more + rest);
    OperatorIsSkipped(tail, first.1);
    assert tail[1..] == more + rest;
    assert head + [op] + more + rest == head + tail;
  }

  lemma {:induction false} ScanOfDisj(d: Disj, rest: seq<string>, skip: bool)
    requires WfDisj(d)
    ensures var (seen, pending) := DisjSeen(d, skip);
            Scan(DisjTokens(d) + rest, skip) == seen + Scan(rest, pending)
    decreases d
  {
    match d {
      case Lone(c) => ConjScan(c, rest, skip);
      case OrElse(c, op, more) =>
        ConjScan(c, [op] + (DisjTokens(more) + rest), skip);
        ScanOfDisj(more, rest, ConjSeen(c, skip).1);
        ScanChain(ConjTokens(c), op, DisjTokens(more), rest, skip, ConjSeen(c, skip), DisjSeen(more, ConjSeen(c, skip).1));
    }
  }

  lemma {:induction false} ConjScan(c: Conj, rest: seq<string>, skip: bool)
    requires WfConj(c)
    ensures var (seen, pending) := ConjSeen(c, skip);
            Scan(ConjTokens(c) + rest, skip) == seen + Scan(rest, pending)
    decreases c
  {
    match c {
      case Single(a) => AtomScan(a, rest, skip);
      case AndAlso(a, op, more) =>
        AtomScan(a, [op] + (ConjTokens(more) + rest), skip);
        ConjScan(more, rest, AtomSeen(a, skip).1);
        ScanChain(AtomTokens(a), op, ConjTokens(more), rest, skip, AtomSeen(a, skip), ConjSeen(more, AtomSeen(a, skip).1));
    }
  }

  lemma {:induction false} AtomScan(a: Atom, rest: seq<string>, skip: bool)
    requires WfAtom(a)
    ensures var (seen, pending) := AtomSeen(a, skip);
            Scan(AtomTokens(a) + rest, skip) == seen + Scan(rest, pending)
    decreases a
  {
    var ts := AtomTokens(a) + rest;
    match a {
      case License(id) => assert ts[1..] == rest;
      case Excepted(id, op, x) =>
        var operand := [x] + rest;
        assert ts[1..] == [op] + operand && ([op] + operand)[1..] == operand && operand[1..] == rest;
        assert Scan(ts[1..], false) == Scan(operand, true);
        assert [] + Scan(rest, false) == Scan(rest, false);
        assert Scan(operand, true) == Scan(rest, KindOf(x) != Word);
      case Group(d) =>
        assert ts[1..] == DisjTokens(d) + ([")"] + rest);
        OperatorIsSkipped(ts, skip);
        ScanOfDisj(d, [")"] + rest, skip);
        OperatorIsSkipped([")"] + rest, DisjSeen(d, skip).1);
        assert ([")"] + rest)[1..] == rest;
    }
  }

  /** Every WITH is followed by a plain identifier, except possibly the very last one. */
  predicate DisjReadable(d: Disj, last: bool) {
    match d
    case Lone(c) => ConjReadable(c, last)
    case OrElse(c, _, rest) => ConjReadable(c, false) && DisjReadable(rest, last)
  }

  predicate ConjReadable(c: Conj, last: bool) {
    match c
    case Single(a) => AtomReadable(a, last)
    case AndAlso(a, _, rest) => AtomReadable(a, false) && ConjReadable(rest, last)
  }

  predicate AtomReadable(a: Atom, last: bool) {
    match a
    case License(_) => true
    case Excepted(_, _, x) => KindOf(x) == Word || last
    case Group(d) => DisjReadable(d, last)
  }

  /** How a part of an expression, its scan and its readability stand to each other. */
  ghost predicate ScanFacts(ids: seq<string>, seen: (seq<string>, bool), skip: bool, strict: bool, loose: bool) {
    && |seen.0| <= |ids|
    && (skip ==> |seen.0| < |ids|)
    && (|seen.0| == |ids| ==> seen.0 == ids)
    && (!skip ==> (strict <==> |seen.0| == |ids| && !seen.1))
    && (!skip ==> (loose <==> |seen.0| == |ids|))
  }

  lemma {:induction false} DisjScanFacts(d: Disj, skip: bool)
    ensures ScanFacts(DisjIds(d), DisjSeen(d, skip), skip, DisjReadable(d, false), DisjReadable(d, true))
    decreases d
  {
    ConjScanFacts(d.conj, skip);
    if d.OrElse? {
      DisjScanFacts(d.rest, ConjSeen(d.conj, skip).1);
    }
  }

  lemma {:induction false} ConjScanFacts(c: Conj, skip: bool)
    ensures ScanFacts(ConjIds(c), ConjSeen(c, skip), skip, ConjReadable(c, false), ConjReadable(c, true))
    decreases c
  {
    if c.atom.Group? {
      DisjScanFacts(c.atom.inner, skip);
    }
    assert ScanFacts(AtomIds(c.atom), AtomSeen(c.atom, skip), skip,
                     AtomReadable(c.atom, false), AtomReadable(c.atom, true));
    if c.AndAlso? {
      ConjScanFacts(c.rest, AtomSeen(c.atom, skip).1);
    }
  }

  /**
   * The scanner reports every licence of an expression, in order, exactly when each WITH but
   * the last licence's is followed by a plain identifier.
   */
  lemma ScannerAgreesExactlyWhenReadable(text: string, d: Disj)
    requires Parse(FindAll(text)) == Ok(d)
    ensures Scan(FindAll(text), false) == DisjIds(d) <==> DisjReadable(d, true)
    ensures Scan(FindAll(text), false) == DisjSeen(d, false).0
  {
    DisjSound(FindAll(text));
    ScanOfDisj(d, [], false);
    assert DisjTokens(d) + [] == FindAll(text);
    DisjScanFacts(d, false);
  }

  /** For readable expressions the verdict is monotone and depends on the scanned identifiers only. */
  lemma VerdictDependsOnScannedIds(text: string, d: Disj, allowed: set<string>, other: set<string>)
    requires Parse(FindAll(text)) == Ok(d) && DisjReadable(d, true)
    ensures var ids := Ordering.Members(Scan(FindAll(text), false));
            && (ids * allowed <= other ==> DisjHolds(d, allowed) ==> DisjHolds(d, other))
            && (ids * allowed == ids * other ==> DisjHolds(d, allowed) == DisjHolds(d, other))
            && (ids <= allowed ==> DisjHolds(d, allowed))
  {
    ScannerAgreesExactlyWhenReadable(text, d);
    var ids := Ordering.Members(DisjIds(d));
    if ids * allowed <= other {
      DisjMonotone(d, allowed, other);
    }
    if ids * allowed == ids * other {
      assert forall x :: x in ids * other ==> x in ids * allowed;
      assert forall x :: x in ids * allowed ==> x in ids * other;
      DisjMonotone(d, allowed, other);
      DisjMonotone(d, other, allowed);
    }
    if ids <= allowed {
      DisjHoldsWhenAllAllowed(d, allowed);
    }
  }

  // ----- resolve_one ------------------------------------------------------------------------------

  datatype Locked = Locked(name: string, version: string, locks: seq<string>)

  /** An installed distribution: its version and what `declared_license` reads from its metadata. */
  datatype Installed = Installed(version: string, expression: Option<string>, source: string)

  datatype Status = AllowedBy | ByException | Disallowed | Unknown | NotInstalled | VersionMismatch

  datatype Detail =
    | NoDetail
    | Explained
    | Unreadable(error: ExpressionError)
    | Reasons(texts: seq<string>)
    | Outside(ids: seq<string>)

  datatype Resolution = Resolution(
    locked: Locked, expression: Option<string>, source: string, status: Status, detail: Detail)

  type Exceptions = map<(string, string), string>

  function Recorded(name: string, exceptions: Exceptions): set<string> {
    set key | key in exceptions && key.0 == name :: key.1
  }

  function Filtered(ids: seq<string>, keep: string -> bool): (r: seq<string>)
    ensures forall x :: x in r <==> x in ids && keep(x)
  {
    if ids == [] then []
    else (if keep(ids[0]) then [ids[0]] else []) + Filtered(ids[1..], keep)
  }

  /** The recorded exceptions a widened verdict rests on, and the identifiers nothing covers. */
  function Used(text: string, name: string, allowed: set<string>, exceptions: Exceptions): seq<string> {
    Ordering.Sort(
      Filtered(Fresh([], Scan(FindAll(text), false)), x => (name, x) in exceptions && x !in allowed), Ordering.TextLeq)
  }

  function Uncovered(text: string, widened: set<string>): seq<string> {
    Ordering.Sort(Filtered(Fresh([], Scan(FindAll(text), false)), x => x !in widened), Ordering.TextLeq)
  }

  lemma UsedMembers(text: string, name: string, allowed: set<string>, exceptions: Exceptions)
    ensures forall x :: x in Used(text, name, allowed, exceptions) <==>
                        x in Scan(FindAll(text), false) && (name, x) in exceptions && x !in allowed
  {
    var ids := Fresh([], Scan(FindAll(text), false));
    FreshMembers([], Scan(FindAll(text), false));
    assert forall x :: x in ids <==> x in Ordering.Members(ids);
    Ordering.SameMembers(Filtered(ids, x => (name, x) in exceptions && x !in allowed), Ordering.TextLeq);
  }

  lemma UncoveredMembers(text: string, widened: set<string>)
    ensures forall x :: x in Uncovered(text, widened) <==> x in Scan(FindAll(text), false) && x !in widened
  {
    var ids := Fresh([], Scan(FindAll(text), false));
    FreshMembers([], Scan(FindAll(text), false));
    assert forall x :: x in ids <==> x in Ordering.Members(ids);
    Ordering.SameMembers(Filtered(ids, x => x !in widened), Ordering.TextLeq);
  }

  /** What the gate must conclude about an installed distribution that declares `text`. */
  ghost predicate Concludes(res: Resolution, text: string, allowed: set<string>, exceptions: Exceptions) {
    var name := res.locked.name;
    var widened := allowed + Recorded(name, exceptions);
    match Parse(FindAll(text))
    case Err(e) => res.status == Unknown && res.detail == Unreadable(e)
    case Ok(d) =>
      if DisjHolds(d, allowed) then
        res.status == AllowedBy && res.detail == NoDetail
      else if DisjHolds(d, widened) then
        && res.status == ByException
        && res.detail.Reasons?
        && |res.detail.texts| == |Used(text, name, allowed, exceptions)|
        && forall i :: 0 <= i < |res.detail.texts| ==>
             var key := (name, Used(text, name, allowed, exceptions)[i]);
             key in exceptions && res.detail.texts[i] == exceptions[key]
      else
        res.status == Disallowed && res.detail == Outside(Uncovered(text, widened))
  }

  /**
   * Always returns a resolution: the second evaluation, which nothing guards, reads the same
   * tokens as the first and so cannot fail.
   */
  method ResolveOne(locked: Locked, installed: map<string, Installed>, allowed: set<string>, exceptions: Exceptions)
    returns (res: Resolution)
    ensures res.locked == locked
    ensures locked.name !in installed ==> res.status == NotInstalled && res.expression == None
    ensures locked.name in installed && installed[locked.name].version != locked.version ==>
              res.status == VersionMismatch && res.expression == None
    ensures locked.name in installed && installed[locked.name].version == locked.version ==>
              var dist := installed[locked.name];
              && res.expression == dist.expression && res.source == dist.source
              && match dist.expression
                 case None => res.status == Unknown
                 case Some(text) => Concludes(res, text, allowed, exceptions)
  {
    if locked.name !in installed {
      return Resolution(locked, None, "none", NotInstalled, Explained);
    }
    var dist := installed[locked.name];
    if dist.version != locked.version {
      return Resolution(locked, None, "none", VersionMismatch, Explained);
    }
    if dist.expression == None {
      return Resolution(locked, None, dist.source, Unknown, Explained);
    }
    var text := dist.expression.value;
    var first := Evaluate(text, allowed);
    if first.Err? {
      return Resolution(locked, dist.expression, dist.source, Unknown, Unreadable(first.error));
    }
    if first.value {
      return Resolution(locked, dist.expression, dist.source, AllowedBy, NoDetail);
    }
    var widened := allowed + Recorded(locked.name, exceptions);
    var ids := LicenseIds(text);
    if widened != allowed {
      var second := Evaluate(text, widened);
      if second.value {
        var used := Ordering.Sort(
          Filtered(ids.value, x => (locked.name, x) in exceptions && x !in allowed), Ordering.TextLeq);
        UsedMembers(text, locked.name, allowed, exceptions);
        assert used == Used(text, locked.name, allowed, exceptions);
        assert forall i :: 0 <= i < |used| ==> used[i] in used;
        var reasons := seq(|used|, i requires 0 <= i < |used| => exceptions[(locked.name, used[i])]);
        return Resolution(locked, dist.expression, dist.source, ByException, Reasons(reasons));
      }
    }
    var outside := Ordering.Sort(Filtered(ids.value, x => x !in widened), Ordering.TextLeq);
    return Resolution(locked, dist.expression, dist.source, Disallowed, Outside(outside));
  }

  lemma NothingLeftOver(left: seq<string>, ids: seq<string>, widened: set<string>)
    requires forall x :: x in left <==> x in ids && x !in widened
    ensures left == [] <==> Ordering.Members(ids) <= widened
  {
    if left == [] {
      assert forall x :: x in ids ==> x in left || x in widened;
    } else {
      assert left[0] in left;
    }
  }

  lemma NothingUncoveredIffAllAllowed(text: string, widened: set<string>)
    ensures Uncovered(text, widened) == [] <==> Ordering.Members(Scan(FindAll(text), false)) <= widened
  {
    UncoveredMembers(text, widened);
    NothingLeftOver(Uncovered(text, widened), Scan(FindAll(text), false), widened);
  }

  /**
   * When does every refusal name an identifier nothing covers? Exactly when the expression
   * would be satisfied by allowing the identifiers the scanner reports.
   */
  lemma RefusalsNameACulpritExactlyWhen(text: string, d: Disj)
    requires Parse(FindAll(text)) == Ok(d)
    ensures (forall widened :: !DisjHolds(d, widened) ==> Uncovered(text, widened) != []) <==>
            DisjHolds(d, Ordering.Members(Scan(FindAll(text), false)))
    ensures DisjReadable(d, true) ==> DisjHolds(d, Ordering.Members(Scan(FindAll(text), false)))
  {
    var ids := Ordering.Members(Scan(FindAll(text), false));
    NothingUncoveredIffAllAllowed(text, ids);
    forall widened
      ensures DisjHolds(d, ids) && !DisjHolds(d, widened) ==> Uncovered(text, widened) != []
    {
      NothingUncoveredIffAllAllowed(text, widened);
      if ids <= widened {
        DisjMonotone(d, ids, widened);
      }
    }
    if DisjReadable(d, true) {
      VerdictDependsOnScannedIds(text, d, ids, ids);
    }
  }

  /** The expression's verdict turns on nothing but the identifiers the scanner reports. */
  ghost predicate TurnsOn(d: Disj, ids: set<string>) {
    forall allowed: set<string> :: DisjHolds(d, allowed) == DisjHolds(d, allowed * ids)
  }

  ghost predicate PassesByException(d: Disj, name: string, allowed: set<string>, exceptions: Exceptions) {
    !DisjHolds(d, allowed) && DisjHolds(d, allowed + Recorded(name, exceptions))
  }

  function Keyed(name: string, ids: set<string>): (keys: set<(string, string)>)
    ensures forall key :: key in keys <==> key.0 == name && key.1 in ids
  {
    set x | x in ids :: (name, x)
  }

  /** Exceptions recorded for one distribution, for a set of identifiers. */
  function RecordedFor(name: string, ids: set<string>): (exceptions: Exceptions)
    ensures forall key :: key in exceptions <==> key.0 == name && key.1 in ids
  {
    map key | key in Keyed(name, ids) :: "recorded"
  }

  lemma RecordedForIs(name: string, ids: set<string>)
    ensures Recorded(name, RecordedFor(name, ids)) == ids
  {
    forall x
      ensures x in Recorded(name, RecordedFor(name, ids)) <==> x in ids
    {
      if x in ids {
        assert (name, x) in RecordedFor(name, ids);
      }
    }
  }

  lemma NothingUsed(text: string, name: string, allowed: set<string>, exceptions: Exceptions)
    ensures Used(text, name, allowed, exceptions) == [] <==>
              Ordering.Members(Scan(FindAll(text), false)) * Recorded(name, exceptions) <= allowed
  {
    UsedMembers(text, name, allowed, exceptions);
    hide Used, Scan, FindAll;
    var used := Used(text, name, allowed, exceptions);
    if used != [] {
      assert used[0] in used;
      assert used[0] in Recorded(name, exceptions);
    }
  }

  /**
   * When does every pass by exception cite one of its exceptions? Exactly when the verdict turns on
   * nothing but the identifiers the scanner reports, as it does for every readable expression.
   */
  lemma ExceptionsAreCitedExactlyWhen(text: string, d: Disj)
    requires Parse(FindAll(text)) == Ok(d)
    ensures (forall name, allowed, exceptions ::
               PassesByException(d, name, allowed, exceptions) ==> Used(text, name, allowed, exceptions) != [])
            <==> TurnsOn(d, Ordering.Members(Scan(FindAll(text), false)))
    ensures DisjReadable(d, true) ==> TurnsOn(d, Ordering.Members(Scan(FindAll(text), false)))
  {
    hide Used, DisjHolds;
    var ids := Ordering.Members(Scan(FindAll(text), false));
    if TurnsOn(d, ids) {
      forall name, allowed, exceptions | PassesByException(d, name, allowed, exceptions)
        ensures Used(text, name, allowed, exceptions) != []
      {
        PassCites(text, d, name, allowed, exceptions);
      }
    } else {
      var allowed: set<string> :| DisjHolds(d, allowed) != DisjHolds(d, allowed * ids);
      var exceptions := RecordedFor("d", allowed);
      RecordedForIs("d", allowed);
      DisjMonotone(d, allowed * ids, allowed);
      assert allowed * ids + allowed == allowed;
      assert PassesByException(d, "d", allowed * ids, exceptions);
      NothingUsed(text, "d", allowed * ids, exceptions);
    }
    if DisjReadable(d, true) {
      ReadableTurnsOn(text, d);
    }
  }

  lemma PassCites(text: string, d: Disj, name: string, allowed: set<string>, exceptions: Exceptions)
    requires TurnsOn(d, Ordering.Members(Scan(FindAll(text), false))) && PassesByException(d, name, allowed, exceptions)
    ensures Used(text, name, allowed, exceptions) != []
  {
    hide Used, DisjHolds, Scan, FindAll;
    var ids := Ordering.Members(Scan(FindAll(text), false));
    var widened := allowed + Recorded(name, exceptions);
    NothingUsed(text, name, allowed, exceptions);
    if ids * Recorded(name, exceptions) <= allowed {
      assert widened * ids <= allowed;
      DisjMonotone(d, widened * ids, allowed);
    }
  }

  lemma ReadableTurnsOn(text: string, d: Disj)
    requires Parse(FindAll(text)) == Ok(d) && DisjReadable(d, true)
    ensures TurnsOn(d, Ordering.Members(Scan(FindAll(text), false)))
  {
    hide DisjHolds, DisjReadable;
    var ids := Ordering.Members(Scan(FindAll(text), false));
    forall allowed: set<string>
      ensures DisjHolds(d, allowed) == DisjHolds(d, allowed * ids)
    {
      assert ids * allowed == ids * (allowed * ids);
      VerdictDependsOnScannedIds(text, d, allowed, allowed * ids);
    }
  }

  /** A readable expression passed by exception cites at least one exception of this distribution. */
  lemma ExceptionsAreCited(text: string, d: Disj, name: string, allowed: set<string>, exceptions: Exceptions)
    requires Parse(FindAll(text)) == Ok(d) && DisjReadable(d, true)
    requires PassesByException(d, name, allowed, exceptions)
    ensures Used(text, name, allowed, exceptions) != []
  {
    ReadableTurnsOn(text, d);
    PassCites(text, d, name, allowed, exceptions);
  }

  lemma ExampleTokens()
    ensures FindAll("MIT WITH ) AND X") == ["MIT", "WITH", ")", "AND", "X"]
  {
    var ts := ["MIT", "WITH", ")", "AND", "X"];
    assert Spaced(ts[4..]) == "X";
    assert Spaced(ts[3..]) == "AND X" by { assert ts[3..][1..] == ts[4..]; }
    assert Spaced(ts[2..]) == ") AND X" by { assert ts[2..][1..] == ts[3..]; }
    assert Spaced(ts[1..]) == "WITH ) AND X" by { assert ts[1..][1..] == ts[2..]; }
    assert Spaced(ts) == "MIT WITH ) AND X";
    SpacedTokensReadBack(ts);
  }

  lemma ExampleKinds()
    ensures KindOf("MIT") == Word && KindOf("WITH") == WithOp && KindOf("AND") == AndOp && KindOf("X") == Word
  {
    assert Upper("MIT") == "MIT" && Upper("WITH") == "WITH" && Upper("AND") == "AND" && Upper("X") == "X";
  }

  const EXAMPLE: Disj := Disj.Lone(AndAlso(Excepted("MIT", "WITH", ")"), "AND", Single(License("X"))))

  lemma ExampleParses()
    ensures Parse(["MIT", "WITH", ")", "AND", "X"]) == Ok(EXAMPLE)
  {
    ExampleKinds();
    assert DisjTokens(EXAMPLE) == ["MIT", "WITH", ")", "AND", "X"];
    AcceptsExactlyExpressions(["MIT", "WITH", ")", "AND", "X"]);
  }

  /**
   * Outside that condition both promises fail: after WITH the evaluator takes a parenthesis,
   * the scanner goes on to swallow the next licence, and the report cites nothing.
   */
  lemma UnreadableOperandCitesNothing()
    ensures var text := "MIT WITH ) AND X";
            && Parse(FindAll(text)) == Ok(EXAMPLE)
            && !DisjHolds(EXAMPLE, {"MIT"}) && DisjHolds(EXAMPLE, {"MIT", "X"})
            && Uncovered(text, {"MIT"}) == []
            && Used(text, "d", {"MIT"}, map[("d", "X") := "why"]) == []
  {
    var text := "MIT WITH ) AND X";
    ExampleTokens();
    ExampleParses();
    ExampleMeans();
    ExampleScans();
    hide EXAMPLE, KindOf, FindAll, Scan, Parse, Used, Uncovered, DisjHolds;
    NothingUncoveredIffAllAllowed(text, {"MIT"});
    NothingUsed(text, "d", {"MIT"}, map[("d", "X") := "why"]);
    assert Ordering.Members(["MIT"]) == {"MIT"};
  }

  lemma ExampleMeans()
    ensures !DisjHolds(EXAMPLE, {"MIT"}) && DisjHolds(EXAMPLE, {"MIT", "X"})
  {
    hide KindOf, FindAll;
  }

  lemma ExampleScans()
    ensures Scan(FindAll("MIT WITH ) AND X"), false) == ["MIT"]
  {
    ExampleTokens();
    ExampleKinds();
    ExampleParses();
    ScannerAgreesExactlyWhenReadable("MIT WITH ) AND X", EXAMPLE);
    hide FindAll, Scan, Parse;
  }
}
