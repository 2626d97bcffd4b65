/**
 * Which destructive statements a text passed to `execute` contains: comment removal,
 * normalisation to one line, the split at `;`, and the drop and rename patterns.
 */
module MigrationSql {
  import opened Casing
  import opened Outcomes
  import opened Trimming
  import MigrationTemplates
  import T = MigrationText

  // ----- comments -----------------------------------------------------------------------

  predicate StartsWith(s: string, prefix: string) {
    |prefix| <= |s| && s[..|prefix|] == prefix
  }

  function AfterLine(s: string): (r: string)
    ensures |r| <= |s|
    ensures r != "" ==> r[0] == '\n'
  {
    if s == "" || s[0] == '\n' then s else AfterLine(s[1..])
  }

  /** `--` to the end of its line becomes a blank. */
  function StripLines(s: string): string
    decreases |s|
  {
    if s == "" then ""
    else if StartsWith(s, "--") then " " + StripLines(AfterLine(s[2..]))
    else [s[0]] + StripLines(s[1..])
  }

  /** What follows the first closing mark, if there is one. */
  function AfterClose(s: string): (r: Option<string>)
    ensures r.Some? ==> |r.value| + 2 <= |s|
  {
    if |s| < 2 then None
    else if StartsWith(s, "*/") then Some(s[2..])
    else AfterClose(s[1..])
  }

  /** A closed block comment becomes a blank; an opening mark that is never closed stays. */
  function StripBlocks(s: string): string
    decreases |s|
  {
    if s == "" then ""
    else if StartsWith(s, "/*") && AfterClose(s[2..]).Some? then " " + StripBlocks(AfterClose(s[2..]).value)
    else [s[0]] + StripBlocks(s[1..])
  }

  function Bare(s: string): string {
    StripBlocks(StripLines(s))
  }

  /** Whether the text ends inside a line comment, or with a block comment still to be closed. */
  predicate LineOpen(s: string)
    decreases |s|
  {
    if s == "" then false
    else if StartsWith(s, "--") then AfterLine(s[2..]) == "" || LineOpen(AfterLine(s[2..]))
    else LineOpen(s[1..])
  }

  predicate BlockOpen(s: string)
    decreases |s|
  {
    if s == "" then false
    else if StartsWith(s, "/*") then AfterClose(s[2..]) == None || BlockOpen(AfterClose(s[2..]).value)
    else BlockOpen(s[1..])
  }

  predicate CommentsClosed(s: string) {
    !LineOpen(s) && !BlockOpen(StripLines(s))
  }

  lemma HeadOfJoin(p: string, r: string, mark: string)
    requires p != "" && r != "" && r[0] == ' ' && |mark| == 2 && mark[1] != ' '
    ensures StartsWith(p + r, mark) <==> StartsWith(p, mark)
    ensures (p + r)[0] == p[0] && (p + r)[1..] == p[1..] + r
  {
    if |p| >= 2 {
      assert (p + r)[..2] == p[..2];
    } else {
      assert (p + r)[..2][1] == ' ';
    }
  }

  lemma {:induction false} AfterLineOfJoin(p: string, r: string)
    requires r != "" && r[0] == ' '
    ensures AfterLine(p) != "" ==> AfterLine(p + r) == AfterLine(p) + r
    ensures AfterLine(p) == "" ==> AfterLine(p + r) == AfterLine(r)
  {
    if p == "" {
      assert p + r == r;
    } else if p[0] != '\n' {
      assert (p + r)[1..] == p[1..] + r;
      AfterLineOfJoin(p[1..], r);
    }
  }

  lemma LinesUnfold(s: string)
    requires s != ""
    ensures StartsWith(s, "--") ==> StripLines(s) == " " + StripLines(AfterLine(s[2..]))
    ensures !StartsWith(s, "--") ==> StripLines(s) == [s[0]] + StripLines(s[1..])
  {
  }

  lemma LinesAfterMark(p: string, r: string)
    requires r != "" && r[0] == ' ' && StartsWith(p, "--")
    ensures StartsWith(p + r, "--")
    ensures AfterLine(p[2..]) != "" ==> StripLines(p + r) == " " + StripLines(AfterLine(p[2..]) + r)
    ensures AfterLine(p[2..]) == "" ==> StripLines(p + r) == " " + StripLines(AfterLine(r))
  {
    HeadOfJoin(p, r, "--");
    LinesUnfold(p + r);
    assert (p + r)[2..] == p[2..] + r;
    AfterLineOfJoin(p[2..], r);
  }

  lemma {:induction false} LinesOfJoin(p: string, r: string)
    requires r != "" && r[0] == ' '
    ensures !LineOpen(p) ==> StripLines(p + r) == StripLines(p) + StripLines(r)
    ensures LineOpen(p) && AfterLine(r) == "" ==> StripLines(p + r) == StripLines(p)
    decreases |p|
  {
    if p == "" {
      assert p + r == r && StripLines(p) + StripLines(r) == StripLines(r);
    } else {
      LinesUnfold(p);
      hide StripLines, AfterLine, StartsWith;
      if StartsWith(p, "--") {
        var rest := AfterLine(p[2..]);
        LinesAfterMark(p, r);
        if rest != "" {
          LinesOfJoin(rest, r);
          Associate(" ", StripLines(rest), StripLines(r));
        }
      } else {
        HeadOfJoin(p, r, "--");
        LinesUnfold(p + r);
        LinesOfJoin(p[1..], r);
        Associate([p[0]], StripLines(p[1..]), StripLines(r));
      }
    }
  }

  lemma {:induction false} CloseOfJoin(p: string, r: string)
    requires r != "" && r[0] == ' '
    ensures AfterClose(p).Some? ==> AfterClose(p + r) == Some(AfterClose(p).value + r)
    ensures AfterClose(p) == None ==> AfterClose(p + r) == AfterClose(r)
  {
    if p == "" {
      assert p + r == r;
    } else {
      HeadOfJoin(p, r, "*/");
      if StartsWith(p, "*/") {
        assert (p + r)[2..] == p[2..] + r;
      } else {
        CloseOfJoin(p[1..], r);
      }
    }
  }

  lemma BlocksUnfold(s: string)
    requires s != ""
    ensures StartsWith(s, "/*") && AfterClose(s[2..]).Some? ==>
              StripBlocks(s) == " " + StripBlocks(AfterClose(s[2..]).value)
    ensures !(StartsWith(s, "/*") && AfterClose(s[2..]).Some?) ==> StripBlocks(s) == [s[0]] + StripBlocks(s[1..])
  {
  }

  lemma BlocksAfterMark(p: string, r: string)
    requires r != "" && r[0] == ' ' && StartsWith(p, "/*") && AfterClose(p[2..]).Some?
    ensures StripBlocks(p) == " " + StripBlocks(AfterClose(p[2..]).value)
    ensures StripBlocks(p + r) == " " + StripBlocks(AfterClose(p[2..]).value + r)
  {
    HeadOfJoin(p, r, "/*");
    assert (p + r)[2..] == p[2..] + r;
    CloseOfJoin(p[2..], r);
    BlocksUnfold(p);
    BlocksUnfold(p + r);
  }

  lemma BlocksAfterPlain(p: string, r: string)
    requires p != "" && r != "" && r[0] == ' ' && !StartsWith(p, "/*")
    ensures StripBlocks(p) == [p[0]] + StripBlocks(p[1..])
    ensures StripBlocks(p + r) == [p[0]] + StripBlocks(p[1..] + r)
  {
    HeadOfJoin(p, r, "/*");
    BlocksUnfold(p);
    BlocksUnfold(p + r);
  }

  lemma {:induction false} BlocksOfJoin(p: string, r: string)
    requires r != "" && r[0] == ' ' && !BlockOpen(p)
    ensures StripBlocks(p + r) == StripBlocks(p) + StripBlocks(r)
    decreases |p|
  {
    if p == "" {
      assert p + r == r && StripBlocks(p) + StripBlocks(r) == StripBlocks(r);
    } else if StartsWith(p, "/*") {
      hide StripBlocks, AfterClose, StartsWith;
      var rest := AfterClose(p[2..]).value;
      BlocksAfterMark(p, r);
      BlocksOfJoin(rest, r);
      Associate(" ", StripBlocks(rest), StripBlocks(r));
    } else {
      hide StripBlocks, AfterClose, StartsWith;
      BlocksAfterPlain(p, r);
      BlocksOfJoin(p[1..], r);
      Associate([p[0]], StripBlocks(p[1..]), StripBlocks(r));
    }
  }

  const LATE_CLOSE := " ; */"

  lemma LateCloseFromNothing(p: string)
    requires StartsWith(p, "/*") && AfterClose(p[2..]) == None
    ensures StripBlocks(p + LATE_CLOSE) == " "
  {
    HeadOfJoin(p, LATE_CLOSE, "/*");
    var s := p + LATE_CLOSE;
    assert s[2..] == p[2..] + LATE_CLOSE;
    CloseOfJoin(p[2..], LATE_CLOSE);
    LateCloseCloses();
    BlocksUnfold(s);
    var rest := AfterClose(s[2..]).value;
    assert rest == "" && " " + StripBlocks(rest) == " ";
  }

  lemma NotCloseYet(c: char, s: string)
    requires c != '*'
    ensures AfterClose([c] + s) == AfterClose(s)
  {
    assert ([c] + s)[1..] == s;
    assert |s| >= 1 ==> ([c] + s)[..2][0] == c;
  }

  lemma LateCloseCloses()
    ensures AfterClose(LATE_CLOSE) == Some("")
  {
    NotCloseYet(' ', "; */");
    NotCloseYet(';', " */");
    NotCloseYet(' ', "*/");
    assert LATE_CLOSE == [' '] + "; */" && "; */" == [';'] + " */" && " */" == [' '] + "*/";
    assert "*/"[2..] == "";
  }

  /** Closing an open block comment later removes everything from where it was opened. */
  lemma {:induction false} LateCloseShortens(p: string)
    requires BlockOpen(p)
    ensures |StripBlocks(p + LATE_CLOSE)| <= |StripBlocks(p)|
    decreases |p|
  {
    BlocksUnfold(p);
    hide StripBlocks;
    if StartsWith(p, "/*") && AfterClose(p[2..]) == None {
      LateCloseFromNothing(p);
    } else if StartsWith(p, "/*") {
      BlocksAfterMark(p, LATE_CLOSE);
      LateCloseShortens(AfterClose(p[2..]).value);
    } else {
      BlocksAfterPlain(p, LATE_CLOSE);
      LateCloseShortens(p[1..]);
    }
  }

  const JOINT := " ; "

  lemma PlainHead(c: char, s: string)
    requires c != '-' && c != '/'
    ensures StripLines([c] + s) == [c] + StripLines(s)
    ensures StripBlocks([c] + s) == [c] + StripBlocks(s)
  {
    assert ([c] + s)[0] == c && ([c] + s)[1..] == s;
    assert |s| >= 1 ==> ([c] + s)[..2][0] == c;
  }

  lemma JointInTurn(q: string)
    ensures " " + (";" + (" " + q)) == JOINT + q
  {
  }

  lemma JointSurvives(q: string)
    ensures StripLines(JOINT + q) == JOINT + StripLines(q)
    ensures StripBlocks(JOINT + q) == JOINT + StripBlocks(q)
  {
    PlainHead(' ', q);
    PlainHead(';', " " + q);
    PlainHead(' ', ";" + (" " + q));
    JointInTurn(q);
    JointInTurn(StripLines(q));
    JointInTurn(StripBlocks(q));
    hide StripLines, StripBlocks;
  }

  /** A text that leaves no comment open can be followed by any other without one reaching into the other. */
  lemma ClosedTextsStayApart(p: string, q: string)
    requires CommentsClosed(p)
    ensures Bare(p + JOINT + q) == Bare(p) + JOINT + Bare(q)
  {
    assert p + JOINT + q == p + (JOINT + q);
    LinesOfJoin(p, JOINT + q);
    JointSurvives(q);
    JointSurvives(StripLines(q));
    BlocksOfJoin(StripLines(p), JOINT + StripLines(q));
    assert StripLines(p) + StripLines(JOINT + q) == StripLines(p) + (JOINT + StripLines(q));
    assert Bare(p) + (JOINT + Bare(q)) == Bare(p) + JOINT + Bare(q);
  }

  lemma OpenLineSwallowsTheJoint(p: string)
    requires LineOpen(p)
    ensures |Bare(p + JOINT + "")| < |Bare(p) + JOINT + Bare("")|
  {
    assert p + JOINT + "" == p + JOINT;
    assert AfterLine(JOINT) == "" by {
      assert JOINT[1..] == "; " && JOINT[1..][1..] == " " && JOINT[1..][1..][1..] == "";
    }
    LinesOfJoin(p, JOINT);
    hide StripLines, StripBlocks, LineOpen;
  }

  lemma OpenBlockSwallowsTheJoint(p: string)
    requires !LineOpen(p) && BlockOpen(StripLines(p))
    ensures |Bare(p + JOINT + "*/")| < |Bare(p) + JOINT + Bare("*/")|
  {
    var q := "*/";
    assert p + JOINT + q == p + (JOINT + q) && JOINT + q == LATE_CLOSE;
    assert StripLines(q) == q by { assert q[1..] == "/" && "/"[1..] == ""; }
    hide StripLines, StripBlocks, LineOpen, BlockOpen;
    LinesOfJoin(p, JOINT + q);
    JointSurvives(q);
    LateCloseShortens(StripLines(p));
  }

  /** Joining texts keeps their statements apart, whatever follows, exactly when the first closes its comments. */
  lemma TextsStayApartExactlyWhenClosed(p: string)
    ensures CommentsClosed(p) <==> forall q :: Bare(p + JOINT + q) == Bare(p) + JOINT + Bare(q)
  {
    if CommentsClosed(p) {
      forall q
        ensures Bare(p + JOINT + q) == Bare(p) + JOINT + Bare(q)
      {
        ClosedTextsStayApart(p, q);
      }
    } else {
      hide Bare, LineOpen, BlockOpen, StripLines;
      if LineOpen(p) {
        OpenLineSwallowsTheJoint(p);
      } else {
        OpenBlockSwallowsTheJoint(p);
      }
    }
  }

  // ----- one line ---------------------------------------------------------------------------

  function Collapse(s: string): string
    decreases |s|
  {
    if s == "" then ""
    else if Blank(s[0]) then
      assert DropBlanks(s) == DropBlanks(s[1..]);
      " " + Collapse(DropBlanks(s))
    else [s[0]] + Collapse(s[1..])
  }

  function Normalized(sql: string): string {
    Upper(Strip(Collapse(Bare(sql))))
  }

  /** One character that is not a blank: blanks on its two sides do not meet. */
  predicate Mark(m: string) {
    |m| == 1 && !Blank(m[0])
  }

  lemma {:induction false} CollapseAroundMark(u: string, m: string, v: string)
    requires Mark(m)
    ensures Collapse(u + m + v) == Collapse(u) + m + Collapse(v)
    decreases |u|
  {
    var s := u + m + v;
    if u == "" {
      assert s == m + v && s[1..] == v;
    } else if Blank(u[0]) {
      DropBlanksBefore(u, m, v);
      CollapseAroundMark(DropBlanks(u), m, v) by {
        assert DropBlanks(u) == DropBlanks(u[1..]);
      }
    } else {
      assert s[1..] == u[1..] + m + v;
      CollapseAroundMark(u[1..], m, v);
    }
  }

  lemma {:induction false} DropBlanksBefore(u: string, m: string, v: string)
    requires Mark(m)
    ensures DropBlanks(u + m + v) == DropBlanks(u) + m + v
  {
    if u == "" {
      assert u + m + v == m + v;
    } else if Blank(u[0]) {
      assert (u + m + v)[1..] == u[1..] + m + v;
      DropBlanksBefore(u[1..], m, v);
    }
  }

  lemma {:induction false} DropLastBlanksAfter(u: string, m: string, v: string)
    requires Mark(m)
    ensures DropLastBlanks(u + m + v) == u + m + DropLastBlanks(v)
    decreases |v|
  {
    var s := u + m + v;
    if v == "" {
      assert s == u + m && s[|s| - 1] == m[0];
    } else if Blank(v[|v| - 1]) {
      assert s[..|s| - 1] == u + m + v[..|v| - 1];
      DropLastBlanksAfter(u, m, v[..|v| - 1]);
    }
  }

  lemma StripAroundMark(u: string, m: string, v: string)
    requires Mark(m)
    ensures Strip(u + m + v) == DropBlanks(u) + m + DropLastBlanks(v)
  {
    DropBlanksBefore(u, m, v);
    DropLastBlanksAfter(DropBlanks(u), m, v);
  }

  /** At most one blank, which the joint's own blanks leave at a statement's edge. */
  predicate Pad(s: string) {
    s == "" || s == " "
  }

  lemma CollapseUnfolds(a: string)
    requires a != ""
    ensures Collapse(a) == if Blank(a[0]) then " " + Collapse(DropBlanks(a)) else [a[0]] + Collapse(a[1..])
    ensures Blank(a[0]) ==> |DropBlanks(a)| < |a|
    ensures (a + " ")[0] == a[0] && (a + " ")[1..] == a[1..] + " "
  {
    assert Blank(a[0]) ==> DropBlanks(a) == DropBlanks(a[1..]);
  }

  lemma CollapseOfBlank()
    ensures Collapse("") == "" && Collapse(" ") == " " && DropLastBlanks("") == "" && DropLastBlanks(" ") == ""
  {
    assert " "[1..] == "" && " "[..0] == "" && DropBlanks(" ") == "";
  }

  lemma {:induction false} CollapseThenBlank(a: string)
    ensures Collapse(a + " ") == DropLastBlanks(Collapse(a)) + " "
    decreases |a|
  {
    hide Collapse, DropBlanks, DropLastBlanks;
    CollapseOfBlank();
    if a == "" {
      assert a + " " == " ";
    } else {
      CollapseUnfolds(a);
      CollapseUnfolds(a + " ");
      if Blank(a[0]) {
        DropBlanksThenBlank(a);
        var rest := DropBlanks(a);
        if rest == "" {
          assert " " + Collapse("") == " ";
        } else {
          CollapseThenBlank(rest);
          SolidCollapse(rest);
          DropLastKeepsHead(" ", Collapse(rest));
        }
      } else {
        CollapseThenBlank(a[1..]);
        DropLastKeepsSolid([a[0]], Collapse(a[1..]));
      }
    }
  }

  lemma SolidCollapse(s: string)
    requires s != "" && !Blank(s[0])
    ensures Collapse(s) != "" && !Blank(Collapse(s)[0])
  {
  }

  lemma CollapsedHead(s: string)
    ensures DropBlanks(Collapse(s)) == Collapse(DropBlanks(s))
  {
    if s != "" && Blank(s[0]) {
      var rest := Collapse(DropBlanks(s));
      assert Collapse(s) == " " + rest && (" " + rest)[1..] == rest;
    }
  }

  /** Trimming a collapsed text that was given one more blank at an end. */
  lemma TrimmedEnds(a: string) returns (x: string, y: string)
    ensures Pad(x) && DropBlanks(Collapse(a + " ")) == Strip(Collapse(a)) + x
    ensures Pad(y) && DropLastBlanks(Collapse(" " + a)) == y + Strip(Collapse(a))
  {
    CollapseThenBlank(a);
    var left, right := DropLastBlanks(Collapse(a)), DropBlanks(Collapse(a));
    DropBlanksThenBlank(left);
    StripEitherOrder(Collapse(a));
    x := if DropBlanks(left) == "" then "" else " ";
    assert (" " + a)[1..] == a;
    CollapsedHead(a);
    assert Collapse(" " + a) == " " + right;
    if right == "" {
      assert " " + right == " " && DropLastBlanks(" ") == "" by { assert " "[..0] == ""; }
      y := "";
    } else {
      DropLastKeepsHead(" ", right);
      y := " ";
    }
  }

  lemma JointSplits(a: string, b: string)
    ensures a + JOINT + b == (a + " ") + ";" + (" " + b)
  {
  }

  lemma JoinedOnOneLine(a: string, b: string) returns (x: string, y: string)
    ensures Pad(x) && Pad(y)
    ensures Strip(Collapse(a + JOINT + b)) == (Strip(Collapse(a)) + x) + ";" + (y + Strip(Collapse(b)))
  {
    hide Strip, Collapse, DropBlanks, DropLastBlanks;
    var unused: string;
    x, unused := TrimmedEnds(a);
    unused, y := TrimmedEnds(b);
    JointSplits(a, b);
    CollapseAroundMark(a + " ", ";", " " + b);
    StripAroundMark(Collapse(a + " "), ";", Collapse(" " + b));
  }

  /** The normal form of two joined texts is the two normal forms around `;`, up to a blank at the joint. */
  lemma JoinedNormalForm(p: string, q: string) returns (x: string, y: string)
    requires CommentsClosed(p)
    ensures Pad(x) && Pad(y)
    ensures Normalized(p + JOINT + q) == (Normalized(p) + x) + ";" + (y + Normalized(q))
  {
    ClosedTextsStayApart(p, q);
    x, y := JoinedOnOneLine(Bare(p), Bare(q));
    var n, m := Strip(Collapse(Bare(p))), Strip(Collapse(Bare(q)));
    UpperJoin(n + x + ";", y + m);
    UpperJoin(n + x, ";");
    UpperJoin(n, x);
    UpperJoin(y, m);
    assert Upper(";") == ";" && Upper(x) == x && Upper(y) == y;
  }

  lemma UpperJoin(u: string, v: string)
    ensures Upper(u + v) == Upper(u) + Upper(v)
  {
  }

  // ----- statements and what is destructive in one -----------------------------------------------

  function Split(s: string): (parts: seq<string>)
    ensures parts != []
  {
    if s == "" then [""]
    else
      var rest := Split(s[1..]);
      if s[0] == ';' then [""] + rest else [[s[0]] + rest[0]] + rest[1..]
  }

  lemma SplitHead(c: char, s: string)
    ensures Split([c] + s) == if c == ';' then [""] + Split(s) else [[c] + Split(s)[0]] + Split(s)[1..]
  {
    assert ([c] + s)[1..] == s;
  }

  lemma SumWithNewHead(a: seq<string>, b: seq<string>, c: char)
    requires a != []
    ensures [[c] + (a + b)[0]] + (a + b)[1..] == ([[c] + a[0]] + a[1..]) + b
    ensures [""] + (a + b) == ([""] + a) + b
  {
  }

  lemma {:induction false} SplitAroundSemicolon(u: string, v: string)
    ensures Split(u + ";" + v) == Split(u) + Split(v)
  {
    if u == "" {
      SplitHead(';', v);
      assert u + ";" + v == [';'] + v;
      assert Split(u) == [""];
    } else {
      var t := u[1..];
      var joined := t + ";" + v;
      SplitAroundSemicolon(t, v);
      assert [u[0]] + t == u && [u[0]] + joined == u + ";" + v;
      SumWithNewHead(Split(t), Split(v), u[0]);
      SplitHead(u[0], t);
      SplitHead(u[0], joined);
    }
  }

  function BlankLast(parts: seq<string>): seq<string>
    requires parts != []
  {
    parts[..|parts| - 1] + [parts[|parts| - 1] + " "]
  }

  /** Adding to the first part and to the last part of a list can be done in either order. */
  lemma HeadThenBlankLast(parts: seq<string>, c: char)
    requires parts != []
    ensures BlankLast([[c] + parts[0]] + parts[1..]) == [[c] + BlankLast(parts)[0]] + BlankLast(parts)[1..]
    ensures BlankLast([""] + parts) == [""] + BlankLast(parts)
  {
    if |parts| == 1 {
      Associate([c], parts[0], " ");
    }
  }

  lemma {:induction false} SplitThenBlank(u: string)
    ensures Split(u + " ") == BlankLast(Split(u))
  {
    if u == "" {
      SplitHead(' ', "");
      assert u + " " == [' '] + "";
    } else {
      var t := u[1..];
      SplitThenBlank(t);
      SplitHead(u[0], t);
      SplitHead(u[0], t + " ");
      hide Split;
      Associate([u[0]], t, " ");
      assert [u[0]] + t == u;
      HeadThenBlankLast(Split(t), u[0]);
    }
  }

  lemma BlankThenSplit(v: string)
    ensures Split(" " + v) == [" " + Split(v)[0]] + Split(v)[1..]
  {
    SplitHead(' ', v);
  }

  /** The regular expressions' word boundary. */
  predicate Boundary(s: string, i: int) {
    (0 < i <= |s| && MigrationTemplates.NameChar(s[i - 1])) != (0 <= i < |s| && MigrationTemplates.NameChar(s[i]))
  }

  predicate LiteralAt(s: string, i: int, word: string) {
    0 <= i && i + |word| <= |s| && s[i..i + |word|] == word
  }

  predicate WordAt(s: string, i: int, word: string) {
    LiteralAt(s, i, word) && Boundary(s, i + |word|)
  }

  const OBJECTS := ["TABLE", "COLUMN", "VIEW", "MATERIALIZED VIEW", "TYPE", "SCHEMA"]
  const KEPT := ["CONSTRAINT", "NOT NULL", "DEFAULT", "IDENTITY", "EXPRESSION"]

  predicate DropObjectAt(s: string, i: int) {
    Boundary(s, i) && LiteralAt(s, i, "DROP ") && exists k :: 0 <= k < |OBJECTS| && WordAt(s, i + 5, OBJECTS[k])
  }

  predicate AlterTableAt(s: string, i: int) {
    Boundary(s, i) && WordAt(s, i, "ALTER TABLE")
  }

  predicate DropColumnAt(s: string, i: int) {
    && Boundary(s, i) && LiteralAt(s, i, "DROP ") && i + 5 < |s| && !Blank(s[i + 5])
    && forall k :: 0 <= k < |KEPT| ==> !WordAt(s, i + 5, KEPT[k])
  }

  predicate RenameAt(s: string, i: int) {
    && Boundary(s, i) && LiteralAt(s, i, "RENAME ") && i + 7 < |s| && !Blank(s[i + 7])
    && !WordAt(s, i + 7, "CONSTRAINT")
  }

  predicate AltersIndex(s: string) {
    WordAt(DropBlanks(s), 0, "ALTER INDEX")
  }

  /** A pattern search: the pattern matches somewhere in the statement. */
  predicate Found(s: string, at: (string, int) -> bool) {
    exists i :: 0 <= i <= |s| && at(s, i)
  }

  predicate Drops(s: string) {
    Found(s, DropObjectAt) || (Found(s, AlterTableAt) && Found(s, DropColumnAt))
  }

  predicate Renames(s: string) {
    Found(s, RenameAt) && !AltersIndex(s)
  }

  datatype Kind = ExecuteDrop | ExecuteRename

  predicate Destructive(kind: Kind, statement: string) {
    match kind
    case ExecuteDrop => Drops(statement)
    case ExecuteRename => Renames(statement)
  }

  predicate Contains(kind: Kind, statements: seq<string>) {
    exists k :: 0 <= k < |statements| && Destructive(kind, statements[k])
  }

  /** The kinds one piece of normalised SQL contains, each at most once. */
  function SqlKinds(normalized: string): (kinds: seq<Kind>)
    ensures forall kind :: kind in kinds <==> Contains(kind, Split(normalized))
    ensures |kinds| <= 2 && (|kinds| == 2 ==> kinds == [ExecuteDrop, ExecuteRename])
  {
    (if Contains(ExecuteDrop, Split(normalized)) then [ExecuteDrop] else [])
    + (if Contains(ExecuteRename, Split(normalized)) then [ExecuteRename] else [])
  }

  predicate Reports(kind: Kind, sql: string) {
    kind in SqlKinds(Normalized(sql))
  }

  // ----- a blank at a statement's edge changes nothing ---------------------------------------------

  lemma BoundaryPadded(s: string, i: int)
    requires 0 <= i <= |s|
    ensures Boundary(s + " ", i) == Boundary(s, i)
    ensures Boundary(" " + s, i + 1) == Boundary(s, i)
  {
  }

  lemma LiteralPadded(s: string, i: int, word: string)
    requires 0 <= i <= |s| && word != "" && word[|word| - 1] != ' ' && word[0] != ' '
    ensures LiteralAt(s + " ", i, word) == LiteralAt(s, i, word)
    ensures LiteralAt(" " + s, i + 1, word) == LiteralAt(s, i, word)
    ensures WordAt(s + " ", i, word) == WordAt(s, i, word)
    ensures WordAt(" " + s, i + 1, word) == WordAt(s, i, word)
  {
    var n := |word|;
    if i + n <= |s| {
      assert (s + " ")[i..i + n] == s[i..i + n];
      BoundaryPadded(s, i + n);
    } else if i + n == |s| + 1 {
      assert (s + " ")[i..i + n][n - 1] == ' ';
    }
    if i + n <= |s| {
      assert (" " + s)[i + 1..i + 1 + n] == s[i..i + n];
    }
  }

  lemma VerbPadded(s: string, i: int, verb: string)
    requires 0 <= i && verb != "" && i + |verb| < |s|
    ensures LiteralAt(s + " ", i, verb) == LiteralAt(s, i, verb)
    ensures LiteralAt(" " + s, i + 1, verb) == LiteralAt(s, i, verb)
  {
    assert (s + " ")[i..i + |verb|] == s[i..i + |verb|];
    assert (" " + s)[i + 1..i + 1 + |verb|] == s[i..i + |verb|];
  }

  lemma DropObjectPadded(s: string, i: int)
    requires 0 <= i <= |s|
    ensures DropObjectAt(s + " ", i) == DropObjectAt(s, i)
    ensures DropObjectAt(" " + s, i + 1) == DropObjectAt(s, i)
  {
    BoundaryPadded(s, i);
    if i + 5 < |s| {
      VerbPadded(s, i, "DROP ");
    }
    if i + 5 <= |s| {
      forall k | 0 <= k < |OBJECTS|
        ensures WordAt(s + " ", i + 5, OBJECTS[k]) == WordAt(s, i + 5, OBJECTS[k])
        ensures WordAt(" " + s, i + 6, OBJECTS[k]) == WordAt(s, i + 5, OBJECTS[k])
      {
        LiteralPadded(s, i + 5, OBJECTS[k]);
      }
    }
  }

  lemma DropColumnPadded(s: string, i: int)
    requires 0 <= i <= |s|
    ensures DropColumnAt(s + " ", i) == DropColumnAt(s, i)
    ensures DropColumnAt(" " + s, i + 1) == DropColumnAt(s, i)
  {
    BoundaryPadded(s, i);
    if i + 5 < |s| {
      VerbPadded(s, i, "DROP ");
      forall k | 0 <= k < |KEPT|
        ensures WordAt(s + " ", i + 5, KEPT[k]) == WordAt(s, i + 5, KEPT[k])
        ensures WordAt(" " + s, i + 6, KEPT[k]) == WordAt(s, i + 5, KEPT[k])
      {
        LiteralPadded(s, i + 5, KEPT[k]);
      }
    }
  }

  lemma RenamePadded(s: string, i: int)
    requires 0 <= i <= |s|
    ensures RenameAt(s + " ", i) == RenameAt(s, i)
    ensures RenameAt(" " + s, i + 1) == RenameAt(s, i)
  {
    BoundaryPadded(s, i);
    if i + 7 < |s| {
      VerbPadded(s, i, "RENAME ");
      LiteralPadded(s, i + 7, "CONSTRAINT");
    }
  }

  lemma AlterTablePadded(s: string, i: int)
    requires 0 <= i <= |s|
    ensures AlterTableAt(s + " ", i) == AlterTableAt(s, i)
    ensures AlterTableAt(" " + s, i + 1) == AlterTableAt(s, i)
  {
    BoundaryPadded(s, i);
    LiteralPadded(s, i, "ALTER TABLE");
  }

  lemma NothingAtEdges(s: string)
    ensures !DropObjectAt(s + " ", |s| + 1) && !DropColumnAt(s + " ", |s| + 1)
    ensures !RenameAt(s + " ", |s| + 1) && !AlterTableAt(s + " ", |s| + 1)
    ensures !DropObjectAt(" " + s, 0) && !DropColumnAt(" " + s, 0)
    ensures !RenameAt(" " + s, 0) && !AlterTableAt(" " + s, 0)
  {
    assert !LiteralAt(" " + s, 0, "DROP ") by { assert |s| >= 4 ==> (" " + s)[..5][0] == ' '; }
    assert !LiteralAt(" " + s, 0, "RENAME ") by { assert |s| >= 6 ==> (" " + s)[..7][0] == ' '; }
    assert !LiteralAt(" " + s, 0, "ALTER TABLE") by { assert |s| >= 10 ==> (" " + s)[..11][0] == ' '; }
  }

  /** A pattern found at corresponding places of two texts is found in one exactly when in the other. */
  lemma FoundTogether(s: string, t: string, shift: nat, at: (string, int) -> bool)
    requires |t| == |s| + 1 && shift <= 1
    requires forall i :: 0 <= i <= |s| ==> at(t, i + shift) == at(s, i)
    requires !at(t, if shift == 0 then |s| + 1 else 0)
    ensures Found(t, at) <==> Found(s, at)
  {
    if Found(t, at) {
      var i :| 0 <= i <= |t| && at(t, i);
      assert at(t, (i - shift) + shift) == at(s, i - shift);
    }
    if Found(s, at) {
      var i :| 0 <= i <= |s| && at(s, i);
      assert at(t, i + shift);
    }
  }

  lemma AltersIndexPadded(s: string)
    ensures AltersIndex(s + " ") == AltersIndex(s)
    ensures AltersIndex(" " + s) == AltersIndex(s)
  {
    assert (" " + s)[1..] == s;
    DropBlanksThenBlank(s);
    if DropBlanks(s) != "" {
      LiteralPadded(DropBlanks(s), 0, "ALTER INDEX");
    }
  }

  /** The two paddings at once: a pattern that ignores edge blanks at each place ignores them altogether. */
  lemma SearchPadded(s: string, at: (string, int) -> bool)
    requires forall i :: 0 <= i <= |s| ==> at(s + " ", i) == at(s, i)
    requires forall i :: 0 <= i <= |s| ==> at(" " + s, i + 1) == at(s, i)
    requires !at(s + " ", |s| + 1) && !at(" " + s, 0)
    ensures Found(s + " ", at) == Found(s, at)
    ensures Found(" " + s, at) == Found(s, at)
  {
    FoundTogether(s, s + " ", 0, at) by {
      assert forall i :: 0 <= i <= |s| ==> at(s + " ", i + 0) == at(s + " ", i);
    }
    FoundTogether(s, " " + s, 1, at);
  }

  lemma DestructivePadded(kind: Kind, s: string)
    ensures Destructive(kind, s + " ") == Destructive(kind, s)
    ensures Destructive(kind, " " + s) == Destructive(kind, s)
  {
    NothingAtEdges(s);
    if kind == ExecuteRename {
      forall i | 0 <= i <= |s| {
        RenamePadded(s, i);
      }
      SearchPadded(s, RenameAt);
      AltersIndexPadded(s);
    } else {
      forall i | 0 <= i <= |s| {
        DropObjectPadded(s, i);
      }
      SearchPadded(s, DropObjectAt);
      AlteringDropPadded(s);
    }
  }

  lemma AlteringDropPadded(s: string)
    ensures Found(s + " ", AlterTableAt) == Found(s, AlterTableAt) == Found(" " + s, AlterTableAt)
    ensures Found(s + " ", DropColumnAt) == Found(s, DropColumnAt) == Found(" " + s, DropColumnAt)
  {
    NothingAtEdges(s);
    forall i | 0 <= i <= |s| {
      AlterTablePadded(s, i);
    }
    SearchPadded(s, AlterTableAt);
    forall i | 0 <= i <= |s| {
      DropColumnPadded(s, i);
    }
    SearchPadded(s, DropColumnAt);
  }

  lemma ContainsPadded(kind: Kind, text: string, x: string)
    requires Pad(x)
    ensures Contains(kind, Split(text + x)) == Contains(kind, Split(text))
    ensures Contains(kind, Split(x + text)) == Contains(kind, Split(text))
  {
    if x == "" {
      assert text + x == text && x + text == text;
    } else {
      SplitThenBlank(text);
      BlankThenSplit(text);
      EdgeStatementPadded(kind, Split(text));
    }
  }

  lemma EdgeStatementPadded(kind: Kind, parts: seq<string>)
    requires parts != []
    ensures Contains(kind, BlankLast(parts)) == Contains(kind, parts)
    ensures Contains(kind, [" " + parts[0]] + parts[1..]) == Contains(kind, parts)
  {
    hide Destructive, Contains;
    DestructivePadded(kind, parts[|parts| - 1]);
    DestructivePadded(kind, parts[0]);
    var last, first := BlankLast(parts), [" " + parts[0]] + parts[1..];
    assert forall k :: 0 <= k < |parts| ==> Destructive(kind, last[k]) == Destructive(kind, parts[k]);
    SameVerdicts(kind, last, parts);
    assert forall k :: 0 <= k < |parts| ==> Destructive(kind, first[k]) == Destructive(kind, parts[k]);
    SameVerdicts(kind, first, parts);
  }

  lemma SameVerdicts(kind: Kind, a: seq<string>, b: seq<string>)
    requires |a| == |b|
    requires forall k :: 0 <= k < |a| ==> Destructive(kind, a[k]) == Destructive(kind, b[k])
    ensures Contains(kind, a) == Contains(kind, b)
  {
    hide Destructive;
  }

  lemma ContainsInEither(kind: Kind, a: seq<string>, b: seq<string>)
    ensures Contains(kind, a + b) <==> Contains(kind, a) || Contains(kind, b)
  {
    hide Destructive;
    if Contains(kind, a) {
      var k :| 0 <= k < |a| && Destructive(kind, a[k]);
      assert (a + b)[k] == a[k];
    }
    if Contains(kind, b) {
      var k :| 0 <= k < |b| && Destructive(kind, b[k]);
      assert (a + b)[|a| + k] == b[k];
    }
    if Contains(kind, a + b) {
      var k :| 0 <= k < |a + b| && Destructive(kind, (a + b)[k]);
      assert (a + b)[k] == if k < |a| then a[k] else b[k - |a|];
    }
  }

  /** Joining two texts reports exactly what the texts report, when the first closes its comments. */
  lemma JoinReportsEither(kind: Kind, p: string, q: string)
    requires CommentsClosed(p)
    ensures Reports(kind, p + JOINT + q) <==> Reports(kind, p) || Reports(kind, q)
  {
    var x, y := JoinedNormalForm(p, q);
    SplitAroundSemicolon(Normalized(p) + x, y + Normalized(q));
    ContainsInEither(kind, Split(Normalized(p) + x), Split(y + Normalized(q)));
    ContainsPadded(kind, Normalized(p), x);
    ContainsPadded(kind, Normalized(q), y);
  }

  lemma AnyOfTail<X>(all: seq<X>, test: X -> bool)
    requires all != []
    ensures (exists i :: 0 <= i < |all| && test(all[i])) <==>
            test(all[0]) || exists i :: 0 <= i < |all[1..]| && test(all[1..][i])
  {
    if i :| 0 < i < |all| && test(all[i]) {
      assert all[1..][i - 1] == all[i];
    }
    if i :| 0 <= i < |all[1..]| && test(all[1..][i]) {
      assert all[i + 1] == all[1..][i];
    }
  }

  lemma {:induction false} JoinReportsAny(kind: Kind, texts: seq<string>)
    requires texts != []
    requires forall i :: 0 <= i < |texts| - 1 ==> CommentsClosed(texts[i])
    ensures Reports(kind, T.Join(JOINT, texts)) <==> exists i :: 0 <= i < |texts| && Reports(kind, texts[i])
  {
    if |texts| == 1 {
      assert T.Join(JOINT, texts) == texts[0];
    } else {
      var rest := texts[1..];
      assert forall i :: 0 <= i < |rest| ==> rest[i] == texts[i + 1];
      JoinReportsEither(kind, texts[0], T.Join(JOINT, rest));
      JoinReportsAny(kind, rest);
      AnyOfTail(texts, text => Reports(kind, text));
    }
  }

  // ----- a comment left open -----------------------------------------------------------------------------

  lemma {:induction false} NoNewline(s: string)
    requires '\n' !in s
    ensures AfterLine(s) == ""
  {
    if s != "" {
      NoNewline(s[1..]);
    }
  }

  /** A line comment left open hides the whole next text, whatever it destroys. */
  lemma OpenCommentHidesNextText(kind: Kind, p: string, q: string)
    requires LineOpen(p) && '\n' !in q
    ensures Reports(kind, p + JOINT + q) == Reports(kind, p)
  {
    NoNewline(JOINT + q);
    LinesOfJoin(p, JOINT + q);
    assert p + JOINT + q == p + (JOINT + q);
  }

  /** One statement already on one line, in capitals and without comments, is its own normal form. */
  predicate Plain(s: string) {
    && s != "" && s[0] != ' ' && s[|s| - 1] != ' '
    && (forall i :: 0 <= i < |s| ==> s[i] == ' ' || 'A' <= s[i] <= 'Z')
    && (forall i :: 0 <= i < |s| - 1 ==> s[i] != ' ' || s[i + 1] != ' ')
  }

  lemma {:induction false} PlainIsNormal(s: string)
    requires forall i :: 0 <= i < |s| ==> s[i] == ' ' || 'A' <= s[i] <= 'Z'
    requires forall i :: 0 <= i < |s| - 1 ==> s[i] != ' ' || s[i + 1] != ' '
    requires s == "" || s[|s| - 1] != ' '
    ensures StripLines(s) == s && StripBlocks(s) == s && Collapse(s) == s && Split(s) == [s]
  {
    if s != "" {
      PlainIsNormal(s[1..]);
      PlainHead(s[0], s[1..]);
      SplitHead(s[0], s[1..]);
      assert [s[0]] + s[1..] == s;
      if s[0] == ' ' {
        assert DropBlanks(s) == s[1..];
      }
    }
  }

  lemma CapitalsStay(s: string)
    requires forall i :: 0 <= i < |s| ==> s[i] == ' ' || 'A' <= s[i] <= 'Z'
    ensures Upper(s) == s
  {
  }

  lemma PlainNormalized(s: string)
    requires Plain(s)
    ensures Normalized(s) == s && Split(s) == [s]
  {
    hide StripLines, StripBlocks, Collapse, Strip, Upper, Split;
    PlainIsNormal(s);
    TrimmedStays(s);
    CapitalsStay(s);
  }

  lemma OneStatement(kind: Kind, s: string)
    ensures Contains(kind, [s]) == Destructive(kind, s)
  {
    hide Destructive;
    assert [s][0] == s;
  }

  lemma PlainReports(kind: Kind, s: string)
    requires Plain(s)
    ensures Reports(kind, s) == Destructive(kind, s)
  {
    PlainNormalized(s);
    OneStatement(kind, s);
    hide Plain, Normalized, Split, Destructive, Contains;
  }

  predicate DropsTable(q: string) {
    |q| > 11 && LiteralAt(q, 0, "DROP ") && LiteralAt(q, 5, "TABLE") && q[10] == ' '
  }

  lemma DropTableIsADrop(q: string)
    requires DropsTable(q)
    ensures Drops(q)
  {
    assert OBJECTS[0] == "TABLE" && WordAt(q, 0 + 5, OBJECTS[0]);
    assert q[0] == q[0..5][0] && q[9] == q[5..10][4];
    assert DropObjectAt(q, 0);
  }
}
