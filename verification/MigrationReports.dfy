/**
 * What `execute` is reported for: a name stands for all of its bindings at once, and that reads every
 * one of them exactly as long as no binding leaves a comment open before the next.
 */
module MigrationReports {
  import opened Casing
  import opened MigrationSql
  import opened Outcomes
  import opened Trimming
  import T = MigrationText

  // ----- execute(name) ---------------------------------------------------------------------------------

  /** The SQL of an `execute` call: the texts of its arguments, joined. */
  function ExecutedSql(arguments: seq<T.Expr>, bindings: T.Bindings): string {
    T.Join(JOINT, T.TextsOf(arguments, bindings, {}))
  }

  lemma OneArgument(e: T.Expr, bindings: T.Bindings)
    ensures ExecutedSql([e], bindings) == T.TextOf(e, bindings, {})
  {
    assert T.TextsOf([e], bindings, {}) == [T.TextOf(e, bindings, {})];
  }

  /** A name reads as its bindings, each of them read with the name itself unknown. */
  lemma NameReadsItsBindings(name: string, bindings: T.Bindings)
    requires name in bindings
    ensures ExecutedSql([T.Name(name)], bindings) == T.Join(JOINT, T.TextsOf(bindings[name], bindings, {name}))
  {
    OneArgument(T.Name(name), bindings);
    assert {} + {name} == {name};
  }

  /**
   * `execute(name)` is reported destructive exactly when the text of one of the name's bindings is, on
   * whichever branch or in whichever loop it was bound, and whatever the bindings mention, as long
   * as every binding but the last closes its comments.
   */
  lemma ExecuteReportsAnyBinding(kind: Kind, name: string, bindings: T.Bindings)
    requires name in bindings && bindings[name] != []
    requires forall i :: 0 <= i < |bindings[name]| - 1 ==> CommentsClosed(T.TextOf(bindings[name][i], bindings, {name}))
    ensures Reports(kind, ExecutedSql([T.Name(name)], bindings)) <==>
            exists i :: 0 <= i < |bindings[name]| && Reports(kind, T.TextOf(bindings[name][i], bindings, {name}))
  {
    NameReadsItsBindings(name, bindings);
    hide Reports;
    JoinReportsAny(kind, T.TextsOf(bindings[name], bindings, {name}));
  }

  /** The same of the elements of a tuple that a loop binds to the name. */
  lemma ExecuteReportsAnyLoopElement(kind: Kind, name: string, bindings: T.Bindings, elements: seq<T.Expr>)
    requires name in bindings && bindings[name] == [T.Tuple(elements)] && elements != []
    requires forall i :: 0 <= i < |elements| - 1 ==> CommentsClosed(T.TextOf(elements[i], bindings, {name}))
    ensures Reports(kind, ExecutedSql([T.Name(name)], bindings)) <==>
            exists i :: 0 <= i < |elements| && Reports(kind, T.TextOf(elements[i], bindings, {name}))
  {
    NameReadsItsBindings(name, bindings);
    hide Reports;
    var texts := T.TextsOf(elements, bindings, {name});
    assert T.TextsOf([T.Tuple(elements)], bindings, {name}) == [T.Join(JOINT, texts)];
    JoinReportsAny(kind, texts);
  }

  /** Where no binding reaches the name, its bindings are reported as `execute` of each of them would be. */
  lemma ExecuteReportsEachAlone(kind: Kind, name: string, bindings: T.Bindings, reached: set<string>)
    requires name in bindings && bindings[name] != []
    requires T.MentionsIn(bindings[name]) <= reached && T.ClosedUnderBindings(reached, bindings)
    requires name !in reached
    requires forall i :: 0 <= i < |bindings[name]| - 1 ==> CommentsClosed(T.TextOf(bindings[name][i], bindings, {}))
    ensures Reports(kind, ExecutedSql([T.Name(name)], bindings)) <==>
            exists i :: 0 <= i < |bindings[name]| && Reports(kind, ExecutedSql([bindings[name][i]], bindings))
  {
    var values := bindings[name];
    T.ActiveMattersInAll(values, bindings, reached, {}, {name});
    hide Reports, ExecutedSql;
    forall i | 0 <= i < |values|
      ensures T.TextOf(values[i], bindings, {name}) == T.TextOf(values[i], bindings, {}) == ExecutedSql([values[i]], bindings)
    {
      assert T.TextsOf(values, bindings, {})[i] == T.TextsOf(values, bindings, {name})[i];
      OneArgument(values[i], bindings);
    }
    ExecuteReportsAnyBinding(kind, name, bindings);
  }

  // ----- a line comment left open ------------------------------------------------------------------------

  const A_DROP := "DROP TABLE X"
  const A_RENAME := "RENAME X"

  lemma DropIsPlain()
    ensures Plain(A_DROP) && DropsTable(A_DROP) && '\n' !in A_DROP
  {
    hide Drops, Renames;
    assert A_DROP[0..5] == "DROP " && A_DROP[5..10] == "TABLE";
  }

  lemma RenameIsPlain()
    ensures Plain(A_RENAME) && '\n' !in A_RENAME
  {
    hide Drops, Renames;
  }

  lemma RenameIsARename()
    ensures Renames(A_RENAME)
  {
    assert A_RENAME[0..7] == "RENAME " && A_RENAME[7] == 'X' && A_RENAME[0] == 'R';
    assert RenameAt(A_RENAME, 0);
    assert DropBlanks(A_RENAME) == A_RENAME;
    assert !AltersIndex(A_RENAME);
  }

  /** Some statement of the kind. */
  lemma SomeStatement(kind: Kind) returns (q: string)
    ensures Plain(q) && Destructive(kind, q) && '\n' !in q
  {
    hide Plain, Drops, Renames, DropsTable, A_DROP, A_RENAME;
    if kind == ExecuteDrop {
      q := A_DROP;
      DropIsPlain();
      DropTableIsADrop(q);
    } else {
      q := A_RENAME;
      RenameIsPlain();
      RenameIsARename();
    }
  }

  lemma BareCommentReportsNothing(kind: Kind)
    ensures !Reports(kind, "--") && LineOpen("--")
  {
    var p := "--";
    assert p[2..] == "" && " "[1..] == "";
    assert StripLines(p) == " ";
    assert Bare(p) == " ";
    assert DropBlanks(" ") == "";
    assert Normalized(p) == "";
    assert Split("") == [""];
    assert !Destructive(kind, "");
  }

  // ----- a block comment left open -------------------------------------------------------------------------

  predicate Clear(s: string) {
    forall i :: 0 <= i < |s| ==> s[i] != '*' && s[i] != '/' && s[i] != '-'
  }

  lemma {:induction false} ClearDoesNotClose(s: string, rest: string)
    requires Clear(s)
    ensures AfterClose(s + rest) == AfterClose(rest)
  {
    if s == "" {
      assert s + rest == rest;
    } else {
      assert s + rest == [s[0]] + (s[1..] + rest);
      NotCloseYet(s[0], s[1..] + rest);
      ClearDoesNotClose(s[1..], rest);
    }
  }

  lemma CloseFromNothing(p: string, r: string)
    requires StartsWith(p, "/*") && AfterClose(p[2..]) == None && r != "" && r[0] == ' ' && AfterClose(r) == Some("")
    ensures StripBlocks(p + r) == " "
  {
    hide StripBlocks, AfterClose, StartsWith;
    OpensWithTwo(p);
    HeadOfJoin(p, r, "/*");
    CloseOfJoin(p[2..], r);
    assert (p + r)[2..] == p[2..] + r;
    BlocksUnfold(p + r);
    NothingStripped();
  }

  lemma NothingStripped()
    ensures " " + StripBlocks("") == " "
  {
  }

  lemma OpensWithTwo(p: string)
    requires StartsWith(p, "/*")
    ensures |p| >= 2
  {
  }

  lemma OpenMarkStays(p: string)
    requires StartsWith(p, "/*") && AfterClose(p[2..]) == None
    ensures StripBlocks(p) == "/*" + StripBlocks(p[2..])
  {
    hide StripBlocks, AfterClose;
    BlocksUnfold(p);
    BlocksUnfold(p[1..]);
    assert p[0] == p[..2][0] && p[1] == p[..2][1] && p[1..][0] == '*' && p[1..][1..] == p[2..];
    assert !StartsWith(p[1..], "/*") by {
      assert |p| >= 3 ==> p[1..][..2][0] == '*';
    }
    assert ['/'] + (['*'] + StripBlocks(p[2..])) == "/*" + StripBlocks(p[2..]);
  }

  /** A comment closed late is gone from its mark on; left open it stays as text. */
  lemma {:induction false} ClosingCuts(p: string, r: string) returns (before: string, after: string)
    requires BlockOpen(p) && r != "" && r[0] == ' ' && AfterClose(r) == Some("")
    ensures StripBlocks(p) == before + "/*" + after && StripBlocks(p + r) == before + " "
    decreases |p|
  {
    if StartsWith(p, "/*") && AfterClose(p[2..]) == None {
      OpenMarkStays(p);
      CloseFromNothing(p, r);
      before, after := "", StripBlocks(p[2..]);
      assert "" + "/*" + after == "/*" + after && "" + " " == " ";
    } else if StartsWith(p, "/*") {
      BlocksAfterMark(p, r);
      hide StripBlocks, AfterClose;
      before, after := ClosingCuts(AfterClose(p[2..]).value, r);
      before := CutLater(" ", before, after);
    } else {
      BlocksAfterPlain(p, r);
      hide StripBlocks, AfterClose;
      before, after := ClosingCuts(p[1..], r);
      before := CutLater([p[0]], before, after);
    }
  }

  lemma CutLater(head: string, before: string, after: string) returns (longer: string)
    ensures longer == head + before
    ensures head + (before + "/*" + after) == longer + "/*" + after && head + (before + " ") == longer + " "
  {
    longer := head + before;
  }

  // ----- cutting a text off before a mark reports no more -----------------------------------------------------

  /** A text that starts with a slash. */
  predicate Slashed(t: string) {
    t != "" && t[0] == '/'
  }

  lemma BoundaryExtended(u: string, t: string, i: int)
    requires Slashed(t) && 0 <= i <= |u|
    ensures Boundary(u + t, i) == Boundary(u, i)
  {
  }

  lemma LiteralExtended(u: string, t: string, i: int, word: string)
    requires Slashed(t) && 0 <= i <= |u| && word != "" && '/' !in word
    ensures LiteralAt(u + t, i, word) == LiteralAt(u, i, word)
    ensures WordAt(u + t, i, word) == WordAt(u, i, word)
  {
    var n := |word|;
    if i + n <= |u| {
      assert (u + t)[i..i + n] == u[i..i + n];
      BoundaryExtended(u, t, i + n);
    } else if i + n <= |u + t| {
      assert (u + t)[i..i + n][|u| - i] == '/';
    }
  }

  lemma DropObjectExtended(u: string, t: string, i: int)
    requires Slashed(t) && 0 <= i <= |u|
    ensures DropObjectAt(u, i) ==> DropObjectAt(u + t, i)
  {
    BoundaryExtended(u, t, i);
    LiteralExtended(u, t, i, "DROP ");
    if i + 5 <= |u| {
      forall k | 0 <= k < |OBJECTS|
        ensures WordAt(u + t, i + 5, OBJECTS[k]) == WordAt(u, i + 5, OBJECTS[k])
      {
        LiteralExtended(u, t, i + 5, OBJECTS[k]);
      }
    }
  }

  lemma AlterTableExtended(u: string, t: string, i: int)
    requires Slashed(t) && 0 <= i <= |u|
    ensures AlterTableAt(u, i) ==> AlterTableAt(u + t, i)
  {
    BoundaryExtended(u, t, i);
    LiteralExtended(u, t, i, "ALTER TABLE");
  }

  lemma DropColumnExtended(u: string, t: string, i: int)
    requires Slashed(t) && 0 <= i <= |u|
    ensures DropColumnAt(u, i) ==> DropColumnAt(u + t, i)
  {
    BoundaryExtended(u, t, i);
    LiteralExtended(u, t, i, "DROP ");
    if i + 5 < |u| {
      forall k | 0 <= k < |KEPT|
        ensures WordAt(u + t, i + 5, KEPT[k]) == WordAt(u, i + 5, KEPT[k])
      {
        LiteralExtended(u, t, i + 5, KEPT[k]);
      }
    }
  }

  lemma RenameExtended(u: string, t: string, i: int)
    requires Slashed(t) && 0 <= i <= |u|
    ensures RenameAt(u, i) ==> RenameAt(u + t, i)
  {
    BoundaryExtended(u, t, i);
    LiteralExtended(u, t, i, "RENAME ");
    if i + 7 < |u| {
      LiteralExtended(u, t, i + 7, "CONSTRAINT");
    }
  }

  lemma FoundExtended(u: string, t: string, at: (string, int) -> bool)
    requires forall i :: 0 <= i <= |u| ==> at(u, i) ==> at(u + t, i)
    ensures Found(u, at) ==> Found(u + t, at)
  {
    if i :| 0 <= i <= |u| && at(u, i) {
      assert at(u + t, i);
    }
  }

  lemma {:induction false} DropBlanksExtended(u: string, t: string)
    requires Slashed(t)
    ensures DropBlanks(u + t) == DropBlanks(u) + t
  {
    if u == "" {
      assert u + t == t && !Blank(t[0]);
    } else if Blank(u[0]) {
      assert (u + t)[1..] == u[1..] + t;
      DropBlanksExtended(u[1..], t);
    } else {
      assert (u + t)[0] == u[0];
    }
  }

  lemma AltersIndexExtended(u: string, t: string)
    requires Slashed(t)
    ensures AltersIndex(u + t) == AltersIndex(u)
  {
    DropBlanksExtended(u, t);
    LiteralExtended(DropBlanks(u), t, 0, "ALTER INDEX");
  }

  /** A destructive statement stays destructive when text that starts with a slash follows it. */
  lemma DestructiveExtended(kind: Kind, u: string, t: string)
    requires Slashed(t) && Destructive(kind, u)
    ensures Destructive(kind, u + t)
  {
    if kind == ExecuteRename {
      forall i | 0 <= i <= |u| {
        RenameExtended(u, t, i);
      }
      FoundExtended(u, t, RenameAt);
      AltersIndexExtended(u, t);
    } else {
      forall i | 0 <= i <= |u| {
        DropObjectExtended(u, t, i);
      }
      FoundExtended(u, t, DropObjectAt);
      AlteringDropExtended(u, t);
    }
  }

  lemma AlteringDropExtended(u: string, t: string)
    requires Slashed(t)
    ensures Found(u, AlterTableAt) ==> Found(u + t, AlterTableAt)
    ensures Found(u, DropColumnAt) ==> Found(u + t, DropColumnAt)
  {
    forall i | 0 <= i <= |u| {
      AlterTableExtended(u, t, i);
    }
    FoundExtended(u, t, AlterTableAt);
    forall i | 0 <= i <= |u| {
      DropColumnExtended(u, t, i);
    }
    FoundExtended(u, t, DropColumnAt);
  }

  function JoinEdges(a: seq<string>, b: seq<string>): seq<string>
    requires a != [] && b != []
  {
    a[..|a| - 1] + [a[|a| - 1] + b[0]] + b[1..]
  }

  lemma EdgesWithNewHead(a: seq<string>, b: seq<string>, c: char)
    requires a != [] && b != []
    ensures [""] + JoinEdges(a, b) == JoinEdges([""] + a, b)
    ensures [[c] + JoinEdges(a, b)[0]] + JoinEdges(a, b)[1..] == JoinEdges([[c] + a[0]] + a[1..], b)
  {
    if |a| == 1 {
      Associate([c], a[0], b[0]);
    }
  }

  lemma {:induction false} SplitOfBoth(u: string, v: string)
    ensures Split(u + v) == JoinEdges(Split(u), Split(v))
  {
    if u == "" {
      assert u + v == v && Split(u) == [""];
      assert "" + Split(v)[0] == Split(v)[0];
    } else {
      SplitOfBoth(u[1..], v);
      assert u == [u[0]] + u[1..];
      Associate([u[0]], u[1..], v);
      SplitHead(u[0], u[1..]);
      SplitHead(u[0], u[1..] + v);
      hide Split;
      EdgesWithNewHead(Split(u[1..]), Split(v), u[0]);
    }
  }

  /** A destructive statement of a text is still there when text that starts with a slash follows. */
  lemma ContainsExtended(kind: Kind, u: string, t: string)
    requires Slashed(t) && Contains(kind, Split(u))
    ensures Contains(kind, Split(u + t))
  {
    hide Split, Destructive;
    assert t == [t[0]] + t[1..];
    SplitHead(t[0], t[1..]);
    SplitOfBoth(u, t);
    var parts, more := Split(u), Split(t);
    hide JoinEdges;
    var k :| 0 <= k < |parts| && Destructive(kind, parts[k]);
    EdgeAt(parts, more, k);
    if k == |parts| - 1 {
      DestructiveExtended(kind, parts[k], more[0]);
    }
  }

  lemma EdgeAt(a: seq<string>, b: seq<string>, k: nat)
    requires k < |a| && b != []
    ensures k < |JoinEdges(a, b)| && JoinEdges(a, b)[k] == if k == |a| - 1 then a[k] + b[0] else a[k]
  {
  }

  // ----- one line, up to the mark -------------------------------------------------------------------------------

  /** A collapsed text ends with at most one blank. */
  lemma {:induction false} CollapsedTail(a: string) returns (x: string)
    ensures Pad(x) && Collapse(a) == DropLastBlanks(Collapse(a)) + x
    decreases |a|
  {
    if a == "" {
      x := "";
    } else if Blank(a[0]) {
      var rest := DropBlanks(a);
      assert rest == DropBlanks(a[1..]) && Collapse(a) == " " + Collapse(rest);
      if rest == "" {
        assert Collapse(a) == " " && " "[..0] == "" && DropLastBlanks(" ") == "";
        x := " ";
      } else {
        x := CollapsedTail(rest);
        assert Collapse(rest)[0] == rest[0];
        DropLastKeepsHead(" ", Collapse(rest));
        Associate(" ", DropLastBlanks(Collapse(rest)), x);
      }
    } else {
      x := CollapsedTail(a[1..]);
      DropLastKeepsSolid([a[0]], Collapse(a[1..]));
      Associate([a[0]], DropLastBlanks(Collapse(a[1..])), x);
    }
  }

  lemma DropPadded(n: string, x: string)
    requires Pad(x) && Trimmed(n)
    ensures DropLastBlanks(n + x) == n
  {
    if x == "" {
      assert n + x == n;
    } else {
      assert (n + x)[..|n + x| - 1] == n;
    }
  }

  lemma CutLine(before: string)
    ensures Strip(Collapse(before + " ")) == Strip(Collapse(before))
  {
    hide Collapse, DropBlanks, DropLastBlanks;
    var x, unused := TrimmedEnds(before);
    StripTrims(Collapse(before));
    hide Strip;
    DropPadded(Strip(Collapse(before)), x);
    StripUnfolds(Collapse(before + " "));
  }

  lemma CollapsedStrips(before: string) returns (x: string)
    ensures Pad(x) && DropBlanks(Collapse(before)) == Strip(Collapse(before)) + x
  {
    hide Collapse, DropBlanks, DropLastBlanks;
    CollapsedHead(before);
    x := CollapsedTail(DropBlanks(before));
    StripUnfolds(Collapse(before));
  }

  /** The text before the mark on one line, cut off there or with the mark and more after it. */
  lemma OneLineBefore(before: string, after: string) returns (n: string, x: string, t: string)
    ensures Pad(x) && Slashed(t)
    ensures Strip(Collapse(before + " ")) == n
    ensures Strip(Collapse(before + "/*" + after)) == n + x + t
  {
    assert Mark("/");
    hide Collapse, DropBlanks, DropLastBlanks, Strip;
    CutLine(before);
    n := Strip(Collapse(before));
    x := CollapsedStrips(before);
    var w := "*" + after;
    SlashFirst(before, after);
    CollapseAroundMark(before, "/", w);
    StripAroundMark(Collapse(before), "/", Collapse(w));
    t := "/" + DropLastBlanks(Collapse(w));
    Associate(n + x, "/", DropLastBlanks(Collapse(w)));
  }

  lemma SlashFirst(before: string, after: string)
    ensures before + "/*" + after == before + "/" + ("*" + after)
  {
  }

  lemma StripUnfolds(s: string)
    ensures Strip(s) == DropLastBlanks(DropBlanks(s))
  {
  }

  lemma UpperOfPieces(n: string, x: string, t: string)
    requires Pad(x) && Slashed(t)
    ensures Upper(n + x + t) == Upper(n) + x + Upper(t) && Slashed(Upper(t))
  {
    UpperJoin(n + x, t);
    UpperJoin(n, x);
    assert Upper(x) == x;
  }

  /** Cutting the text off before an open mark reports no more than leaving the rest there. */
  lemma CutReportsNoMore(kind: Kind, before: string, after: string)
    requires Contains(kind, Split(Upper(Strip(Collapse(before + " ")))))
    ensures Contains(kind, Split(Upper(Strip(Collapse(before + "/*" + after)))))
  {
    hide Contains, Split, Strip, Collapse, Upper, Slashed;
    var n, x, t := OneLineBefore(before, after);
    UpperOfPieces(n, x, t);
    ContainsPadded(kind, Upper(n), x);
    ContainsExtended(kind, Upper(n) + x, Upper(t));
  }

  // ----- when every text is read --------------------------------------------------------------------------------

  lemma {:induction false} ClearHasNoLines(s: string, rest: string)
    requires Clear(s) && StripLines(rest) == rest
    ensures StripLines(s + rest) == s + rest
  {
    if s == "" {
      assert s + rest == rest;
    } else {
      var more := s[1..] + rest;
      assert s + rest == [s[0]] + more;
      ClearHasNoLines(s[1..], rest);
      PlainHead(s[0], more);
    }
  }

  const CLOSE := "*/"

  lemma CloseAlone()
    ensures StripLines(CLOSE) == CLOSE && AfterClose(CLOSE) == Some("")
  {
    assert CLOSE[1..] == "/" && "/"[1..] == "" && CLOSE[2..] == "";
  }

  /** A block comment left open is closed by a mark in the next text, and hides what comes before it there. */
  lemma OpenBlockHidesNextText(kind: Kind, p: string, q: string)
    requires !LineOpen(p) && BlockOpen(StripLines(p)) && Plain(q) && !Reports(kind, p)
    ensures !Reports(kind, p + JOINT + (q + JOINT + CLOSE))
  {
    hide StripLines, StripBlocks, AfterClose, LineOpen, BlockOpen, Plain, Split, Contains, Collapse, Strip, Upper;
    var before, after := OpenBlockCuts(p, q);
    if Contains(kind, Split(Upper(Strip(Collapse(before + " "))))) {
      CutReportsNoMore(kind, before, after);
    }
  }

  lemma ClosingTail(q: string) returns (r: string)
    requires Plain(q)
    ensures r == JOINT + (q + JOINT + CLOSE) && r[0] == ' '
    ensures StripLines(r) == r && AfterClose(r) == Some("")
  {
    var middle := JOINT + q + JOINT;
    r := middle + CLOSE;
    assert Clear(middle);
    CloseAlone();
    hide StripLines, AfterClose, Plain;
    ClearHasNoLines(middle, CLOSE);
    ClearDoesNotClose(middle, CLOSE);
    assert r == JOINT + (q + JOINT + CLOSE);
  }

  lemma OpenBlockCuts(p: string, q: string) returns (before: string, after: string)
    requires !LineOpen(p) && BlockOpen(StripLines(p)) && Plain(q)
    ensures Bare(p) == before + "/*" + after && Bare(p + JOINT + (q + JOINT + CLOSE)) == before + " "
  {
    hide StripLines, StripBlocks, AfterClose, LineOpen, BlockOpen, Plain;
    var r := ClosingTail(q);
    Associate(p, JOINT, q + JOINT + CLOSE);
    LinesOfJoin(p, r);
    before, after := ClosingCuts(StripLines(p), r);
  }

  lemma PlainIsClosed(q: string)
    requires Plain(q)
    ensures CommentsClosed(q)
  {
    PlainOpensNothing(q);
    PlainIsNormal(q);
  }

  lemma {:induction false} PlainOpensNothing(s: string)
    requires forall i :: 0 <= i < |s| ==> s[i] == ' ' || 'A' <= s[i] <= 'Z'
    ensures !LineOpen(s) && !BlockOpen(s)
  {
    if s != "" {
      PlainOpensNothing(s[1..]);
      assert |s| >= 2 ==> s[..2][0] == s[0];
    }
  }

  /**
   * A text that reports nothing lets every text after it be read if and only if it leaves no comment
   * open: then joining reports exactly what the two report, whatever the second is.
   */
  lemma NextTextIsReadExactlyWhenClosed(kind: Kind, p: string)
    requires !Reports(kind, p)
    ensures (forall q :: Reports(kind, p + JOINT + q) <==> Reports(kind, p) || Reports(kind, q)) <==> CommentsClosed(p)
  {
    hide Reports, LineOpen, BlockOpen, StripLines, Plain, Destructive;
    if CommentsClosed(p) {
      forall q
        ensures Reports(kind, p + JOINT + q) <==> Reports(kind, p) || Reports(kind, q)
      {
        JoinReportsEither(kind, p, q);
      }
    } else {
      var q := SomeStatement(kind);
      PlainReports(kind, q);
      if LineOpen(p) {
        OpenCommentHidesNextText(kind, p, q);
        assert !Reports(kind, p + JOINT + q) && Reports(kind, q);
      } else {
        OpenBlockHidesNextText(kind, p, q);
        PlainIsClosed(q);
        JoinReportsEither(kind, q, CLOSE);
        assert !Reports(kind, p + JOINT + (q + JOINT + CLOSE)) && Reports(kind, q + JOINT + CLOSE);
      }
    }
  }

  // ----- when every binding of a name is read --------------------------------------------------------------------

  /** What a name under resolution is bound to does not matter. */
  lemma {:induction false} UnderResolution(e: T.Expr, one: T.Bindings, two: T.Bindings, active: set<string>)
    requires one.Keys == two.Keys && forall n :: n in one && n !in active ==> one[n] == two[n]
    ensures T.TextOf(e, one, active) == T.TextOf(e, two, active)
    decreases one.Keys - active, e, 1
  {
    hide MigrationTemplates.Filled, T.Join, T.ByKey, T.ByName;
    match e
    case Joined(parts) => AllUnderResolution(parts, one, two, active);
    case Formatted(value) => UnderResolution(value, one, two, active);
    case Binary(op, left, right) =>
      UnderResolution(left, one, two, active);
      UnderResolution(right, one, two, active);
      if right.Tuple? {
        AllUnderResolution(right.elements, one, two, active);
      } else if right.Dict? {
        AllUnderResolution(right.entries, one, two, active);
      }
    case Name(id) =>
      if id !in active && id in one {
        assert id in one.Keys - active && id !in one.Keys - (active + {id});
        AllUnderResolution(one[id], one, two, active + {id});
      }
    case Tuple(elements) => AllUnderResolution(elements, one, two, active);
    case ListOrSet(elements) => AllUnderResolution(elements, one, two, active);
    case Dict(_, entries) => AllUnderResolution(entries, one, two, active);
    case Starred(value) => UnderResolution(value, one, two, active);
    case Conditional(_, body, orelse) =>
      UnderResolution(body, one, two, active);
      UnderResolution(orelse, one, two, active);
    case Call(func, args, names, keywords) =>
      AllUnderResolution(args, one, two, active);
      AllUnderResolution(keywords, one, two, active);
      if func.Attribute? {
        UnderResolution(func.value, one, two, active);
      }
    case _ =>
  }

  lemma {:induction false} AllUnderResolution(es: seq<T.Expr>, one: T.Bindings, two: T.Bindings, active: set<string>)
    requires one.Keys == two.Keys && forall n :: n in one && n !in active ==> one[n] == two[n]
    ensures T.TextsOf(es, one, active) == T.TextsOf(es, two, active)
    decreases one.Keys - active, es, 0
  {
    if es != [] {
      UnderResolution(es[0], one, two, active);
      AllUnderResolution(es[1..], one, two, active);
    }
  }

  lemma {:induction false} JoinOneMore(texts: seq<string>, q: string)
    requires texts != []
    ensures T.Join(JOINT, texts + [q]) == T.Join(JOINT, texts) + JOINT + q
  {
    if |texts| == 1 {
      assert (texts + [q])[1..] == [q];
    } else {
      assert (texts + [q])[1..] == texts[1..] + [q];
      JoinOneMore(texts[1..], q);
      var rest := T.Join(JOINT, texts[1..]);
      assert texts[0] + JOINT + (rest + JOINT + q) == texts[0] + JOINT + rest + JOINT + q;
    }
  }

  lemma {:induction false} TextsOfOneMore(es: seq<T.Expr>, q: string, bindings: T.Bindings, active: set<string>)
    ensures T.TextsOf(es + [T.Text(q)], bindings, active) == T.TextsOf(es, bindings, active) + [q]
  {
  }

  /** The text of a name that one more literal is bound to. */
  lemma OneMoreBinding(name: string, earlier: seq<T.Expr>, q: string, bindings: T.Bindings)
    requires earlier != []
    ensures var p := T.Join(JOINT, T.TextsOf(earlier, bindings[name := earlier], {name}));
            ExecutedSql([T.Name(name)], bindings[name := earlier + [T.Text(q)]]) == p + JOINT + q
  {
    var one, two := bindings[name := earlier], bindings[name := earlier + [T.Text(q)]];
    NameReadsItsBindings(name, two);
    AllUnderResolution(earlier, one, two, {name});
    TextsOfOneMore(earlier, q, two, {name});
    JoinOneMore(T.TextsOf(earlier, two, {name}), q);
  }

  /**
   * `execute(name)` reads every literal that could still be bound to the name if and only if the
   * bindings before it, none of which reports anything, leave no comment open.
   */
  lemma NextBindingIsReadExactlyWhenClosed(kind: Kind, name: string, earlier: seq<T.Expr>, bindings: T.Bindings)
    requires earlier != []
    requires !Reports(kind, T.Join(JOINT, T.TextsOf(earlier, bindings[name := earlier], {name})))
    ensures (forall q :: Reports(kind, ExecutedSql([T.Name(name)], bindings[name := earlier + [T.Text(q)]])) <==>
                         Reports(kind, q))
            <==> CommentsClosed(T.Join(JOINT, T.TextsOf(earlier, bindings[name := earlier], {name})))
  {
    hide Reports, CommentsClosed, ExecutedSql;
    var p := T.Join(JOINT, T.TextsOf(earlier, bindings[name := earlier], {name}));
    NextTextIsReadExactlyWhenClosed(kind, p);
    forall q
      ensures ExecutedSql([T.Name(name)], bindings[name := earlier + [T.Text(q)]]) == p + JOINT + q
    {
      OneMoreBinding(name, earlier, q, bindings);
    }
    if forall q :: Reports(kind, ExecutedSql([T.Name(name)], bindings[name := earlier + [T.Text(q)]])) <==> Reports(kind, q) {
      forall q
        ensures Reports(kind, p + JOINT + q) <==> Reports(kind, p) || Reports(kind, q)
      {
        assert Reports(kind, ExecutedSql([T.Name(name)], bindings[name := earlier + [T.Text(q)]])) <==> Reports(kind, q);
      }
    }
  }

  /**
   * The gate misses a drop bound on one branch when the other branch binds a text that ends in a line
   * comment: any `DROP TABLE <name>` is reported as its own call and not through the name.
   */
  lemma DropBehindOpenCommentIsMissed(name: string, q: string)
    requires Plain(q) && DropsTable(q)
    ensures Reports(ExecuteDrop, ExecutedSql([T.Text(q)], map[]))
    ensures !Reports(ExecuteDrop, ExecutedSql([T.Name(name)], map[name := [T.Text("--"), T.Text(q)]]))
  {
    assert '\n' !in q;
    DropTableIsADrop(q);
    hide Reports, Plain, Drops, DropsTable, LineOpen, ExecutedSql;
    PlainReports(ExecuteDrop, q);
    OneArgument(T.Text(q), map[]);
    BareCommentReportsNothing(ExecuteDrop);
    OpenCommentHidesNextText(ExecuteDrop, "--", q);
    BehindOneText(name, "--", q);
  }

  lemma BehindOneText(name: string, p: string, q: string)
    ensures ExecutedSql([T.Name(name)], map[name := [T.Text(p), T.Text(q)]]) == p + JOINT + q
  {
    hide ExecutedSql;
    var earlier := [T.Text(p)];
    var bindings: T.Bindings := map[];
    assert earlier + [T.Text(q)] == [T.Text(p), T.Text(q)];
    assert T.TextsOf(earlier, bindings[name := earlier], {name}) == [p];
    OneMoreBinding(name, earlier, q, bindings);
  }
}
