/** The isolation checker's reader on whole texts: comments out, lines split again, blocks read. */
module TerraformText {
  import opened Lines
  import opened Outcomes
  import opened TerraformBlocks
  import opened Trimming

  // ----- texts and their lines --------------------------------------------------------------------------

  function StrippedAll(lines: seq<string>): (r: seq<string>)
    ensures |r| == |lines| && forall i :: 0 <= i < |lines| ==> r[i] == WithoutComment(lines[i])
  {
    seq(|lines|, i requires 0 <= i < |lines| => WithoutComment(lines[i]))
  }

  function WithoutComments(text: string): string {
    Joined(StrippedAll(SplitLines(text)))
  }

  /** What a text holds, by its lines. */
  function BlocksOf(text: string): Result<seq<Block>, ParseError> {
    Blocks(SplitLines(text))
  }

  method StripComments(text: string) returns (r: string)
    ensures r == WithoutComments(text)
  {
    hide WithoutComment, CommentAt, SplitLines, Joined;
    var lines := SplitLines(text);
    var kept := [];
    for i := 0 to |lines|
      invariant kept == StrippedAll(lines)[..i]
    {
      var line := StripComment(lines[i]);
      kept := kept + [line];
    }
    assert kept == StrippedAll(lines);
    return Joined(kept);
  }

  /** Splitting the text without its comments gives the lines without theirs, and so the same blocks. */
  method ParseBlocks(text: string) returns (r: Result<seq<Block>, ParseError>)
    ensures r == BlocksOf(text)
  {
    var stripped := StripComments(text);
    var lines := SplitLines(stripped);
    StrippedLinesReadTheSame(text);
    r := ReadBlocks(lines);
  }

  // ----- comments do not matter to the reader ------------------------------------------------------------

  lemma StrippedIsSeen(line: string)
    ensures Seen(WithoutComment(line)) == Seen(line) && WithoutComment(WithoutComment(line)) == WithoutComment(line)
  {
    StrippedLineHasNoComment(line);
  }

  lemma StrippedStaysOneLine(line: string)
    requires OneLine(line)
    ensures OneLine(WithoutComment(line))
  {
    var bare := WithoutComment(line);
    assert bare == line[..FirstComment(line, 0)][..|bare|] == line[..|bare|];
  }

  lemma {:induction false} SameSeenSameRun(a: seq<string>, b: seq<string>, st: State)
    requires |a| == |b| && forall i :: 0 <= i < |a| ==> Seen(a[i]) == Seen(b[i])
    ensures Run(a, st) == Run(b, st)
    decreases |a|
  {
    hide Seen, Take;
    if a != [] {
      StepIsTake(st, a[0]);
      StepIsTake(st, b[0]);
      hide Step;
      match Step(st, a[0]) {
        case Err(_) =>
        case Ok(next) =>
          assert forall i :: 0 <= i < |a[1..]| ==> a[1..][i] == a[i + 1] && b[1..][i] == b[i + 1];
          SameSeenSameRun(a[1..], b[1..], next);
      }
    }
  }

  lemma EmptyLineIsNothing(st: State)
    ensures Step(st, "") == Ok(st)
  {
    assert WithoutComment("") == "" && Seen("") == "";
  }

  /** An empty last line changes nothing. */
  lemma ClosedReadsTheSame(lines: seq<string>)
    ensures Run(Closed(lines), START) == Run(lines, START)
  {
    if lines != [] && lines[|lines| - 1] == "" {
      var all := lines[..|lines| - 1];
      assert lines == all + [""];
      RunInTurn(all, [""], START);
      if Run(all, START).Ok? {
        RunOne("", Run(all, START).value);
        EmptyLineIsNothing(Run(all, START).value);
      }
    }
  }

  lemma StrippedLinesReadTheSame(text: string)
    ensures var lines := SplitLines(WithoutComments(text));
            Blocks(lines) == BlocksOf(text) && forall line :: line in lines ==> WithoutComment(line) == line
  {
    hide WithoutComment, Seen, Run, SplitLines, OneLine;
    var lines := SplitLines(text);
    var stripped := StrippedAll(lines);
    SplitGivesLines(text);
    forall i | 0 <= i < |lines|
      ensures OneLine(stripped[i]) && Seen(stripped[i]) == Seen(lines[i]) && WithoutComment(stripped[i]) == stripped[i]
    {
      assert lines[i] in lines;
      StrippedStaysOneLine(lines[i]);
      StrippedIsSeen(lines[i]);
    }
    SplitOfJoined(stripped);
    ClosedReadsTheSame(stripped);
    SameSeenSameRun(stripped, lines, START);
  }

  // ----- printed texts ------------------------------------------------------------------------------------

  predicate OneLineItems(items: Items) {
    match items
    case Done => true
    case Line(text, rest) => OneLine(text) && OneLineItems(rest)
    case Child(header, inner, rest) => OneLine(header) && OneLineItems(inner) && OneLineItems(rest)
    case Filler(raw, rest) => OneLine(raw) && OneLineItems(rest)
  }

  /** No label, line or header of the source holds a line separator. */
  predicate OneLineSource(s: Source) {
    (forall l :: l in s.labels ==> OneLine(l)) && OneLineItems(s.items)
  }

  lemma {:induction false} IndentIsOneLine(depth: nat, text: string)
    requires OneLine(text)
    ensures OneLine(Indent(depth) + text)
  {
    IndentIsBlank(depth);
    var line := Indent(depth) + text;
    forall i | 0 <= i < |line|
      ensures !Separator(line[i])
    {
      if i < |Indent(depth)| {
        assert line[i] == ' ';
      }
    }
  }

  lemma {:induction false} PrintIsOneLine(items: Items, depth: nat)
    requires OneLineItems(items)
    ensures AllOneLine(Print(items, depth))
    decreases items
  {
    hide OneLine, Indent;
    match items
    case Done =>
    case Line(text, rest) =>
      IndentIsOneLine(depth, text);
      PrintIsOneLine(rest, depth);
    case Child(header, inner, rest) =>
      IndentIsOneLine(depth, header);
      ClosingIsOneLine();
      IndentIsOneLine(depth, "}");
      PrintIsOneLine(inner, depth + 1);
      PrintIsOneLine(rest, depth);
    case Filler(raw, rest) =>
      PrintIsOneLine(rest, depth);
  }

  lemma ClosingIsOneLine()
    ensures OneLine("}")
  {
  }

  lemma {:induction false} LabelsAreOneLine(labels: seq<string>)
    requires forall l :: l in labels ==> OneLine(l)
    ensures OneLine(LabelsText(labels))
  {
    if labels != [] {
      assert labels[0] in labels;
      LabelsAreOneLine(labels[1..]);
      var text := LabelsText(labels);
      var tail := LabelsText(labels[1..]);
      assert text == "\"" + labels[0] + "\" " + tail;
      JoinedPiecesAreOneLine("\"", labels[0], "\" ", tail);
    }
  }

  lemma JoinedPiecesAreOneLine(a: string, b: string, c: string, d: string)
    requires OneLine(a) && OneLine(b) && OneLine(c) && OneLine(d)
    ensures OneLine(a + b + c + d)
  {
  }

  lemma {:induction false} NameIsOneLine(name: string)
    requires NameLength(name) == |name|
    ensures OneLine(name)
  {
    assert forall i :: 0 <= i < |name| ==> NamePart(name[i]);
  }

  lemma SourceIsOneLine(s: Source)
    requires WfSource(s) && OneLineSource(s)
    ensures AllOneLine(PrintSource(s))
  {
    NameIsOneLine(s.kind);
    LabelsAreOneLine(s.labels);
    PrintIsOneLine(s.items, 1);
    ClosingIsOneLine();
    hide Print, LabelsText, NameLength, WfItems;
    JoinedPiecesAreOneLine(s.kind, " ", LabelsText(s.labels), "");
    assert s.kind + " " + LabelsText(s.labels) + "" == HeaderText(s.kind, s.labels);
    hide OneLine;
  }

  lemma {:induction false} AllIsOneLine(sources: seq<Source>)
    requires forall s :: s in sources ==> WfSource(s) && OneLineSource(s)
    ensures AllOneLine(PrintAll(sources))
  {
    hide OneLine, WfSource, OneLineSource, PrintSource;
    if sources != [] {
      assert sources[0] in sources;
      SourceIsOneLine(sources[0]);
      AllIsOneLine(sources[1..]);
    }
  }

  /**
   * The text of any blocks in canonical layout reads back: same kinds and labels, bodies flattened,
   * and `direct` exactly the lines of the block itself.
   */
  lemma PrintedTextReadsBack(sources: seq<Source>)
    requires forall s :: s in sources ==> WfSource(s) && OneLineSource(s)
    ensures BlocksOf(Joined(PrintAll(sources))) == Ok(Expected(sources))
  {
    hide WfSource, OneLineSource, PrintAll, Run, Expected;
    PrintedBlocksReadBack(sources);
    AllIsOneLine(sources);
    SplitOfJoined(PrintAll(sources));
    ClosedReadsTheSame(PrintAll(sources));
  }
}
