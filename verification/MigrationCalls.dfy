/**
 * What the gate makes of SQL wrapped in a call, or chosen by a conditional: every part is read, a wrapped text is
 * reported as the text itself is, and the one exception is the rename of an index.
 */
module MigrationCalls {
  import opened Casing
  import opened MigrationLayout
  import opened MigrationPatterns
  import opened MigrationReports
  import opened MigrationSql
  import opened Outcomes
  import opened Trimming
  import MigrationTemplates
  import T = MigrationText

  // ----- the unknown in front of a text -----------------------------------------------------------------------------

  const LEAD := " __X__  "

  lemma LeadHasNoMarks()
    ensures !MigrationLayout.Holds(LEAD, '-', '-') && LEAD[|LEAD| - 1] == ' ' && '/' !in LEAD
  {
  }

  lemma LeadStaysBare(t: string)
    ensures Bare(LEAD + t) == LEAD + Bare(t)
  {
    hide StripLines, StripBlocks, MigrationLayout.Holds;
    LeadHasNoMarks();
    NoDashes(LEAD, t);
    NoSlashes(LEAD, StripLines(t));
  }

  lemma TrimmedBehindBlank(a: string)
    ensures DropLastBlanks(Collapse(" " + a))
            == (if Strip(Collapse(a)) == "" then "" else " ") + Strip(Collapse(a))
  {
    hide Collapse, DropBlanks, DropLastBlanks;
    var right := DropBlanks(Collapse(a));
    BlankThenText(a);
    StripEitherOrder(Collapse(a));
    if right == "" {
      CollapseOfBlank();
      assert " " + right == " ";
    } else {
      DropLastKeepsHead(" ", right);
      assert [right[0]] + right[1..] == right;
      DropLastKeepsSolid([right[0]], right[1..]);
    }
  }

  lemma BlankThenText(a: string)
    ensures Collapse(" " + a) == " " + DropBlanks(Collapse(a))
  {
    CollapsedHead(a);
    assert (" " + a)[1..] == a;
  }

  lemma TwoBlanksTrimAsNone(b: string)
    ensures Strip(Collapse(" " + b)) == Strip(Collapse(b))
  {
    hide Collapse, DropLastBlanks;
    BlankThenText(b);
    var right := DropBlanks(Collapse(b));
    assert (" " + right)[0] == ' ' && (" " + right)[1..] == right;
    assert DropBlanks(" " + right) == DropBlanks(right) == right;
  }

  lemma LeadCollapses()
    ensures Collapse(" __X_") == " __X_" && DropBlanks(" __X_") == "__X_"
  {
    var w := "__X_";
    assert " __X_"[1..] == w && DropBlanks(w) == w;
    assert w[1..] == "_X_" && w[1..][1..] == "X_" && w[1..][1..][1..] == "_" && "_"[1..] == "";
    assert Collapse("_") == "_";
    assert Collapse("X_") == "X_" by { assert "X_"[1..] == "_"; }
    assert Collapse("_X_") == "_X_" by { assert "_X_"[1..] == "X_"; }
    assert Collapse(w) == w;
    assert " " + w == " __X_";
  }

  lemma LeadSplits(b: string)
    ensures LEAD + b == " __X_" + "_" + (" " + (" " + b))
  {
  }

  /** Behind the unknown a text keeps its normal form. */
  lemma LeadNormalForm(t: string)
    ensures Normalized(LEAD + t) == "__X__" + if Normalized(t) == "" then "" else " " + Normalized(t)
  {
    hide Bare, Collapse, DropBlanks, DropLastBlanks, Strip, Upper;
    var b := Bare(t);
    var n := Strip(Collapse(b));
    LeadStaysBare(t);
    LeadSplits(b);
    CollapseAroundMark(" __X_", "_", " " + (" " + b));
    LeadCollapses();
    StripAroundMark(" __X_", "_", Collapse(" " + (" " + b)));
    TrimmedBehindBlank(" " + b);
    TwoBlanksTrimAsNone(b);
    UpperBehindLead(n);
  }

  lemma UpperBehindLead(n: string)
    ensures Upper("__X_" + "_" + ((if n == "" then "" else " ") + n))
            == "__X__" + if Upper(n) == "" then "" else " " + Upper(n)
  {
    var blank := if n == "" then "" else " ";
    UpperJoin("__X_" + "_", blank + n);
    UpperJoin(blank, n);
    assert Upper("__X_" + "_") == "__X__" && Upper(blank) == blank;
    assert |Upper(n)| == |n|;
  }

  // ----- statements behind the unknown ---------------------------------------------------------------------------------

  lemma HeadOf(first: string, rest: seq<string>)
    ensures ([first] + rest)[0] == first && ([first] + rest)[1..] == rest
  {
  }

  lemma {:induction false} SplitBehind(p: string, s: string)
    requires ';' !in p
    ensures Split(p + s) == [p + Split(s)[0]] + Split(s)[1..]
  {
    hide Split;
    if p == "" {
      assert p + s == s && "" + Split(s)[0] == Split(s)[0];
      assert [Split(s)[0]] + Split(s)[1..] == Split(s);
    } else {
      assert p[0] != ';';
      SplitBehind(p[1..], s);
      assert p + s == [p[0]] + (p[1..] + s);
      SplitHead(p[0], p[1..] + s);
      HeadOf(p[1..] + Split(s)[0], Split(s)[1..]);
      assert [p[0]] + (p[1..] + Split(s)[0]) == p + Split(s)[0];
    }
  }

  const MARK := "__X__ "

  /** A pattern that starts with a letter of its own is found behind the unknown where it was found without it. */
  lemma CutBehind(s: string, at: (string, string) -> bool)
    requires forall u, v :: at(u, v) ==> v != "" && v[0] in "ADR"
    requires forall u, v :: at(MARK + u, v) <==> at(u, v)
    ensures Cut(MARK + s, at) <==> Cut(s, at)
  {
    if Cut(s, at) {
      var u, v :| s == u + v && at(u, v);
      assert MARK + s == (MARK + u) + v && at(MARK + u, v);
    }
    if Cut(MARK + s, at) {
      var u, v :| MARK + s == u + v && at(u, v);
      assert (MARK + s)[|u|] == v[0];
      assert |u| >= |MARK|;
      var w := u[|MARK|..];
      assert u == MARK + w by { assert u[..|MARK|] == (u + v)[..|MARK|] == MARK; }
      assert s == w + v by { assert (u + v)[|MARK|..] == w + v; }
    }
  }

  lemma BeforeBehind(u: string)
    ensures Before(MARK + u) <==> Before(u)
  {
    assert u != "" ==> (MARK + u)[|MARK + u| - 1] == u[|u| - 1];
    assert u == "" ==> (MARK + u)[|MARK + u| - 1] == ' ';
  }

  lemma ObjectDropBehind(s: string)
    ensures Cut(MARK + s, DropsObjectAt) <==> Cut(s, DropsObjectAt)
  {
    forall u, v
      ensures DropsObjectAt(u, v) ==> v != "" && v[0] in "ADR"
      ensures DropsObjectAt(MARK + u, v) <==> DropsObjectAt(u, v)
    {
      hide Before, StartsWithA;
      BeforeBehind(u);
    }
    CutBehind(s, DropsObjectAt);
  }

  lemma AlterBehind(s: string)
    ensures Cut(MARK + s, AltersTableAt) <==> Cut(s, AltersTableAt)
  {
    forall u, v
      ensures AltersTableAt(u, v) ==> v != "" && v[0] in "ADR"
      ensures AltersTableAt(MARK + u, v) <==> AltersTableAt(u, v)
    {
      hide Before, After;
      BeforeBehind(u);
    }
    CutBehind(s, AltersTableAt);
  }

  lemma ColumnDropBehind(s: string)
    ensures Cut(MARK + s, DropsColumnAt) <==> Cut(s, DropsColumnAt)
  {
    forall u, v
      ensures DropsColumnAt(u, v) ==> v != "" && v[0] in "ADR"
      ensures DropsColumnAt(MARK + u, v) <==> DropsColumnAt(u, v)
    {
      hide Before, StartsWithA, Blank;
      BeforeBehind(u);
    }
    CutBehind(s, DropsColumnAt);
  }

  lemma RenameBehind(s: string)
    ensures Cut(MARK + s, RenamesAt) <==> Cut(s, RenamesAt)
  {
    forall u, v
      ensures RenamesAt(u, v) ==> v != "" && v[0] in "ADR"
      ensures RenamesAt(MARK + u, v) <==> RenamesAt(u, v)
    {
      hide Before, StartsWithA, Blank;
      BeforeBehind(u);
    }
    CutBehind(s, RenamesAt);
  }

  lemma NoIndexBehind(s: string)
    ensures !StartsWithA(DropBlanks(MARK + s), "ALTER INDEX")
  {
    assert DropBlanks(MARK + s) == MARK + s && (MARK + s)[0] == '_';
  }

  /** Behind the unknown a statement is as destructive as before, but the rename of an index no longer counts as one. */
  lemma DestructiveBehind(kind: Kind, s: string)
    ensures Destructive(kind, MARK + s) <==> Destructive(kind, s) || (kind == ExecuteRename && RenamesIndex(s))
  {
    hide Cut, StartsWithA;
    if kind == ExecuteDrop {
      DropsExactly(MARK + s);
      DropsExactly(s);
      ObjectDropBehind(s);
      AlterBehind(s);
      ColumnDropBehind(s);
    } else {
      RenamesExactly(MARK + s);
      RenamesExactly(s);
      RenameBehind(s);
      NoIndexBehind(s);
    }
  }

  // ----- a wrapping call -----------------------------------------------------------------------------------------------

  /** The first statement of a text alters an index, and renames. */
  ghost predicate StartsWithIndexRename(sql: string) {
    RenamesIndex(Split(Normalized(sql))[0])
  }

  lemma BareMarkIsHarmless(kind: Kind)
    ensures !Destructive(kind, "__X__") && !Destructive(kind, "") && !RenamesIndex("") && !Contains(kind, [])
  {
    hide StartsWithA;
    DropsExactly("__X__");
    RenamesExactly("__X__");
    DropsExactly("");
    RenamesExactly("");
    forall u, v | "__X__" == u + v && v != ""
      ensures v[0] !in "ADR"
    {
      assert v[0] == "__X__"[|u|];
    }
    forall u, v | "" == u + v
      ensures v == ""
    {
      assert |u + v| == 0;
    }
  }

  lemma ContainsFirst(kind: Kind, first: string, rest: seq<string>)
    ensures Contains(kind, [first] + rest) <==> Destructive(kind, first) || Contains(kind, rest)
  {
    hide Destructive;
    ContainsInEither(kind, [first], rest);
    assert [first][0] == first;
  }

  lemma LeadReports(kind: Kind, t: string)
    ensures Reports(kind, LEAD + t) <==> Reports(kind, t) || (kind == ExecuteRename && StartsWithIndexRename(t))
  {
    hide Normalized, Destructive, RenamesIndex, Contains;
    var n := Normalized(t);
    var parts := Split(n);
    LeadNormalForm(t);
    BareMarkIsHarmless(kind);
    assert parts == [parts[0]] + parts[1..];
    ContainsFirst(kind, parts[0], parts[1..]);
    if n == "" {
      assert Split("__X__") == ["__X__"] by {
        MigrationPatterns.OneStatement("__X__");
      }
      assert parts == [""] && parts[1..] == [] && "__X__" + "" == "__X__";
      ContainsFirst(kind, "__X__", []);
      assert ["__X__"] + [] == ["__X__"];
    } else {
      assert "__X__" + (" " + n) == MARK + n;
      SplitBehind(MARK, n);
      ContainsFirst(kind, MARK + parts[0], parts[1..]);
      DestructiveBehind(kind, parts[0]);
    }
  }

  lemma CallText(func: T.Expr, args: seq<T.Expr>, names: seq<Option<string>>, keywords: seq<T.Expr>,
                 bindings: T.Bindings)
    requires !(func.Attribute? && func.attr == "format")
    ensures ExecutedSql([T.Call(func, args, names, keywords)], bindings)
            == T.Join(" ", (if func.Attribute? then [T.TextOf(func.value, bindings, {})] else [])
                           + T.TextsOf(args, bindings, {}) + T.TextsOf(keywords, bindings, {}))
  {
    hide ExecutedSql, T.Join, T.TextsOf;
    OneArgument(T.Call(func, args, names, keywords), bindings);
  }

  /** What stands for nothing but itself: an unbound name, an attribute, a number. */
  predicate Unread(e: T.Expr, bindings: T.Bindings) {
    match e
    case Name(id) => id !in bindings
    case Attribute(_, _) => true
    case OtherConstant => true
    case OtherExpr => true
    case _ => false
  }

  lemma UnreadIsUnknown(e: T.Expr, bindings: T.Bindings)
    requires Unread(e, bindings)
    ensures T.TextOf(e, bindings, {}) == " __X__ "
  {
  }

  lemma JoinTwo(a: string, b: string)
    ensures T.Join(" ", [a, b]) == a + " " + b
  {
    assert [a, b][1..] == [b];
  }

  /**
   * `execute(m.f(e))`, as in `execute(sa.text(e))`, is reported as `execute(e)` is, whether `e` is passed by position
   * or by keyword, but for one thing: behind the unknown receiver the rename of an index is no longer told apart.
   */
  lemma WrappedTextIsReportedExactly(
    kind: Kind, receiver: T.Expr, f: string, e: T.Expr, keyword: Option<string>, bindings: T.Bindings)
    requires Unread(receiver, bindings) && f != "format"
    ensures var plain := ExecutedSql([e], bindings);
            var wrapped := ExecutedSql([T.Call(T.Attribute(receiver, f), [e], [], [])], bindings);
            var named := ExecutedSql([T.Call(T.Attribute(receiver, f), [], [keyword], [e])], bindings);
            && wrapped == named
            && (Reports(kind, wrapped) <==>
                  Reports(kind, plain) || (kind == ExecuteRename && StartsWithIndexRename(plain)))
  {
    hide Reports, StartsWithIndexRename;
    var text := T.TextOf(e, bindings, {});
    OneArgument(e, bindings);
    UnreadIsUnknown(receiver, bindings);
    CallText(T.Attribute(receiver, f), [e], [], [], bindings);
    CallText(T.Attribute(receiver, f), [], [keyword], [e], bindings);
    T.OneText(e, bindings, {});
    assert T.TextsOf([], bindings, {}) == [];
    assert [" __X__ "] + [text] + [] == [" __X__ ", text] == [" __X__ "] + [] + [text];
    JoinTwo(" __X__ ", text);
    assert " __X__ " + " " + text == LEAD + text;
    LeadReports(kind, text);
  }

  /** `execute(f(e))` and `execute(e.f())` are `execute(e)`. */
  lemma BareCallIsTransparent(f: string, e: T.Expr, keyword: Option<string>, bindings: T.Bindings)
    requires f != "format"
    ensures ExecutedSql([T.Call(T.Name(f), [e], [], [])], bindings) == ExecutedSql([e], bindings)
    ensures ExecutedSql([T.Call(T.Name(f), [], [keyword], [e])], bindings) == ExecutedSql([e], bindings)
    ensures ExecutedSql([T.Call(T.Attribute(e, f), [], [], [])], bindings) == ExecutedSql([e], bindings)
  {
    var text := T.TextOf(e, bindings, {});
    OneArgument(e, bindings);
    CallText(T.Name(f), [e], [], [], bindings);
    CallText(T.Name(f), [], [keyword], [e], bindings);
    CallText(T.Attribute(e, f), [], [], [], bindings);
    T.OneText(e, bindings, {});
    assert T.TextsOf([], bindings, {}) == [];
    assert [] + [text] + [] == [text] == [] + [] + [text] == [text] + [] + [];
    assert T.Join(" ", [text]) == text;
  }

  /** Both branches of a conditional are read, whatever the test. */
  lemma EitherBranchIsReported(kind: Kind, test: T.Expr, body: T.Expr, orelse: T.Expr, bindings: T.Bindings)
    requires CommentsClosed(ExecutedSql([body], bindings))
    ensures Reports(kind, ExecutedSql([T.Conditional(test, body, orelse)], bindings)) <==>
            Reports(kind, ExecutedSql([body], bindings)) || Reports(kind, ExecutedSql([orelse], bindings))
  {
    hide Reports, CommentsClosed;
    var p, q := T.TextOf(body, bindings, {}), T.TextOf(orelse, bindings, {});
    OneArgument(T.Conditional(test, body, orelse), bindings);
    OneArgument(body, bindings);
    OneArgument(orelse, bindings);
    assert [p, q][1..] == [q];
    assert T.Join(" ; ", [p, q]) == p + JOINT + q;
    JoinReportsEither(kind, p, q);
  }

  /** An index may be renamed, as the gate promises, in a plain text; the same text in a wrapping call is reported. */
  lemma WrappedIndexRenameIsReported(
    bits: seq<Bit>, name: string, rest: seq<string>, receiver: T.Expr, f: string, bindings: T.Bindings)
    requires LaidOut(bits) && NoSemicolons(Capitals(WordsOf(bits)))
    requires Capitals(WordsOf(bits)) == ["ALTER", "INDEX", name, "RENAME"] + rest && rest != []
    requires !StartsWithA(T.Join(" ", rest), "CONSTRAINT")
    requires Unread(receiver, bindings) && f != "format"
    ensures var text := T.Text(MigrationLayout.TextOf(bits));
            && !Reports(ExecuteRename, ExecutedSql([text], bindings))
            && Reports(ExecuteRename, ExecutedSql([T.Call(T.Attribute(receiver, f), [text], [], [])], bindings))
  {
    assert StartsWithA("INDEX", "INDEX");
    var text := MigrationLayout.TextOf(bits);
    OneArgument(T.Text(text), bindings);
    assert T.TextOf(T.Text(text), bindings, {}) == text;
    hide *;
    RenameIsReportedExactly(bits, "INDEX", name, rest);
    OneStatementOnly(bits);
    WrappedTextIsReportedExactly(ExecuteRename, receiver, f, T.Text(text), None, bindings);
  }

  lemma OneStatementOnly(bits: seq<Bit>)
    requires LaidOut(bits) && NoSemicolons(Capitals(WordsOf(bits)))
    ensures StartsWithIndexRename(MigrationLayout.TextOf(bits)) <==>
            RenamesIndex(T.Join(" ", Capitals(WordsOf(bits))))
  {
    hide RenamesIndex, Normalized, Split, LaidOut, NoSemicolons, T.Join;
    LayoutDoesNotMatter(bits);
    JoinHasNoSemicolon(Capitals(WordsOf(bits)));
    MigrationPatterns.OneStatement(T.Join(" ", Capitals(WordsOf(bits))));
  }

  // ----- every part of an expression is read -----------------------------------------------------------------------------

  /** One text stands somewhere inside another. */
  ghost predicate Within(part: string, whole: string) {
    exists u, v :: whole == u + part + v
  }

  /** The expressions directly inside one that is read by its parts; the test of a conditional is not one. */
  function Parts(e: T.Expr): seq<T.Expr> {
    match e
    case Joined(parts) => parts
    case Formatted(value) => [value]
    case Binary(op, left, right) => if op == T.Mod then [] else [left, right]
    case Tuple(elements) => elements
    case ListOrSet(elements) => elements
    case Dict(_, entries) => entries
    case Starred(value) => [value]
    case Conditional(_, body, orelse) => [body, orelse]
    case Call(func, args, _, keywords) =>
      if func.Attribute? && func.attr == "format" then []
      else (if func.Attribute? then [func.value] else []) + args + keywords
    case _ => []
  }

  lemma WithinSum(before: string, part: string, after: string)
    ensures Within(part, before + part + after)
  {
  }

  lemma WithinMore(part: string, whole: string, before: string)
    requires Within(part, whole)
    ensures Within(part, before + whole)
  {
    var u, v :| whole == u + part + v;
    assert before + whole == (before + u) + part + v;
  }

  lemma {:induction false} JoinHoldsEach(separator: string, texts: seq<string>, i: nat)
    requires i < |texts|
    ensures Within(texts[i], T.Join(separator, texts))
  {
    hide Within;
    if |texts| == 1 {
      WithinSum("", texts[0], "");
      assert "" + texts[0] + "" == texts[0];
    } else if i == 0 {
      WithinSum("", texts[0], separator + T.Join(separator, texts[1..]));
      assert "" + texts[0] + (separator + T.Join(separator, texts[1..]))
             == texts[0] + separator + T.Join(separator, texts[1..]);
    } else {
      JoinHoldsEach(separator, texts[1..], i - 1);
      WithinMore(texts[i], T.Join(separator, texts[1..]), texts[0] + separator);
    }
  }

  lemma {:induction false} JoinHoldsBoth(separator: string, texts: seq<string>, i: nat, j: nat)
    requires i < j < |texts|
    ensures InOrder(texts[i], texts[j], T.Join(separator, texts))
  {
    hide Within, InOrder;
    var rest := texts[1..];
    if i == 0 {
      JoinHoldsEach(separator, rest, j - 1);
      OneThenOther(texts[0], separator, texts[j], T.Join(separator, rest));
    } else {
      JoinHoldsBoth(separator, rest, i - 1, j - 1);
      InOrderMore(texts[i], texts[j], T.Join(separator, rest), texts[0] + separator);
    }
  }

  /** One text stands inside, and another behind it. */
  ghost predicate InOrder(one: string, other: string, whole: string) {
    exists u, v :: whole == u + one + v && Within(other, v)
  }

  lemma OneThenOther(one: string, between: string, other: string, rest: string)
    requires Within(other, rest)
    ensures InOrder(one, other, one + between + rest)
  {
    WithinMore(other, rest, between);
    assert one + between + rest == "" + one + (between + rest);
  }

  lemma InOrderMore(one: string, other: string, whole: string, before: string)
    requires InOrder(one, other, whole)
    ensures InOrder(one, other, before + whole)
  {
    hide Within;
    var u, v :| whole == u + one + v && Within(other, v);
    assert before + whole == (before + u) + one + v;
  }

  lemma SumIsJoin(a: string, b: string)
    ensures a + b == T.Join("", [a, b])
  {
    assert [a, b][1..] == [b];
  }

  lemma {:induction false} TextsOfSum(a: seq<T.Expr>, b: seq<T.Expr>, bindings: T.Bindings, active: set<string>)
    ensures T.TextsOf(a + b, bindings, active) == T.TextsOf(a, bindings, active) + T.TextsOf(b, bindings, active)
  {
    hide T.TextOf, T.TextsOf;
  }

  lemma TwoTexts(a: T.Expr, b: T.Expr, bindings: T.Bindings, active: set<string>)
    ensures T.TextsOf([a, b], bindings, active) == [T.TextOf(a, bindings, active), T.TextOf(b, bindings, active)]
  {
    hide T.TextOf, T.TextsOf;
  }

  lemma CallParts(e: T.Expr, bindings: T.Bindings, active: set<string>)
    requires e.Call? && Parts(e) != []
    ensures T.TextOf(e, bindings, active) == T.Join(" ", T.TextsOf(Parts(e), bindings, active))
  {
    hide T.Join, T.TextsOf;
    var receiver := if e.func.Attribute? then [e.func.value] else [];
    TextsOfSum(receiver + e.args, e.keywords, bindings, active);
    TextsOfSum(receiver, e.args, bindings, active);
    if e.func.Attribute? {
      T.OneText(e.func.value, bindings, active);
    }
  }

  /** The text of such an expression is the texts of its parts, put together. */
  lemma ReadByParts(e: T.Expr, bindings: T.Bindings, active: set<string>) returns (separator: string)
    requires Parts(e) != []
    ensures T.TextOf(e, bindings, active) == T.Join(separator, T.TextsOf(Parts(e), bindings, active))
  {
    hide MigrationTemplates.Filled, T.Join, T.TextsOf, T.ByKey, T.ByName;
    separator := if e.Joined? || e.Binary? then "" else " ; ";
    if e.Call? {
      CallParts(e, bindings, active);
      separator := " ";
    } else if e.Binary? {
      TwoTexts(e.left, e.right, bindings, active);
      SumIsJoin(T.TextOf(e.left, bindings, active), T.TextOf(e.right, bindings, active));
    } else if e.Conditional? {
      TwoTexts(e.body, e.orelse, bindings, active);
    } else if e.Formatted? || e.Starred? {
      T.OneText(e.value, bindings, active);
      T.JoinOfOne(T.TextOf(e.value, bindings, active));
    }
  }

  /** The text of every part stands in the text of the whole. */
  lemma EveryPartIsRead(e: T.Expr, i: nat, bindings: T.Bindings, active: set<string>)
    requires i < |Parts(e)|
    ensures Within(T.TextOf(Parts(e)[i], bindings, active), T.TextOf(e, bindings, active))
  {
    hide T.TextOf, T.Join, Within, Parts;
    var separator := ReadByParts(e, bindings, active);
    JoinHoldsEach(separator, T.TextsOf(Parts(e), bindings, active), i);
  }

  /** And the parts stand there in their order. */
  lemma PartsAreReadInOrder(e: T.Expr, i: nat, j: nat, bindings: T.Bindings, active: set<string>)
    requires i < j < |Parts(e)|
    ensures InOrder(T.TextOf(Parts(e)[i], bindings, active), T.TextOf(Parts(e)[j], bindings, active),
                    T.TextOf(e, bindings, active))
  {
    hide T.TextOf, T.Join, InOrder, Parts;
    var separator := ReadByParts(e, bindings, active);
    JoinHoldsBoth(separator, T.TextsOf(Parts(e), bindings, active), i, j);
  }

  /** Every binding of a name is read, on whichever branch it was made. */
  lemma EveryBindingIsRead(id: string, i: nat, bindings: T.Bindings, active: set<string>)
    requires id in bindings && id !in active && i < |bindings[id]|
    ensures Within(T.TextOf(bindings[id][i], bindings, active + {id}), T.TextOf(T.Name(id), bindings, active))
  {
    hide T.Join, Within;
    JoinHoldsEach(" ; ", T.TextsOf(bindings[id], bindings, active + {id}), i);
  }

  /** Arguments are read apart from each other, so that a verb and its object may be passed separately. */
  lemma ArgumentsAreReadApart(f: string, a: T.Expr, b: T.Expr, keyword: Option<string>, bindings: T.Bindings)
    ensures ExecutedSql([T.Call(T.Name(f), [a, b], [], [])], bindings)
            == ExecutedSql([T.Call(T.Name(f), [a], [keyword], [b])], bindings)
            == ExecutedSql([a], bindings) + " " + ExecutedSql([b], bindings)
  {
    var x, y := T.TextOf(a, bindings, {}), T.TextOf(b, bindings, {});
    OneArgument(a, bindings);
    OneArgument(b, bindings);
    CallText(T.Name(f), [a, b], [], [], bindings);
    CallText(T.Name(f), [a], [keyword], [b], bindings);
    T.OneText(a, bindings, {});
    T.OneText(b, bindings, {});
    hide ExecutedSql, T.TextOf, T.Join;
    assert T.TextsOf([], bindings, {}) == [];
    assert T.TextsOf([a, b], bindings, {}) == [x, y];
    assert [] + [x, y] + [] == [x, y] == [] + [x] + [y];
    JoinTwo(x, y);
  }
}
