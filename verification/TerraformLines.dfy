/** One line of a Terraform file, character by character: where its comment starts, and what a block's header is. */
module TerraformLines {
  import opened Outcomes
  import opened TerraformBlocks
  import opened Trimming

  // ----- comments --------------------------------------------------------------------------------------------

  predicate OpenQuote(line: string, j: nat) {
    j < |line| && line[j] == '"' && (j == 0 || line[j - 1] != '\\')
  }

  /** The quotes before a place that no backslash stands in front of. */
  function OpenQuotes(line: string, i: nat): set<nat>
    requires i <= |line|
  {
    set j: nat | j < i && OpenQuote(line, j)
  }

  /** A hash sign or two slashes behind an even number of them. */
  predicate MarkAt(line: string, i: nat) {
    && i < |line| && |OpenQuotes(line, i)| % 2 == 0
    && (line[i] == '#' || (i + 1 < |line| && line[i] == '/' && line[i + 1] == '/'))
  }

  lemma OneMoreQuote(line: string, i: nat)
    requires i < |line|
    ensures |OpenQuotes(line, i + 1)| == |OpenQuotes(line, i)| + if OpenQuote(line, i) then 1 else 0
  {
    hide OpenQuote;
    if OpenQuote(line, i) {
      assert OpenQuotes(line, i + 1) == OpenQuotes(line, i) + {i};
    } else {
      assert OpenQuotes(line, i + 1) == OpenQuotes(line, i);
    }
  }

  lemma {:induction false} QuotedExactly(line: string, i: nat)
    requires i <= |line|
    ensures Quoted(line, i) <==> |OpenQuotes(line, i)| % 2 == 1
  {
    if i == 0 {
      assert OpenQuotes(line, 0) == {};
    } else {
      QuotedExactly(line, i - 1);
      OneMoreQuote(line, i - 1);
      hide OpenQuotes;
    }
  }

  lemma MarkExactly(line: string, i: nat)
    requires i < |line|
    ensures CommentAt(line, i) <==> MarkAt(line, i)
  {
    QuotedExactly(line, i);
    hide Quoted, OpenQuotes;
  }

  /** A line is cut at its first such mark, or kept whole, and trimmed at its end. */
  lemma LineIsCutAtItsFirstMark(line: string, cut: nat)
    requires cut <= |line| && (cut < |line| ==> MarkAt(line, cut)) && forall i :: 0 <= i < cut ==> !MarkAt(line, i)
    ensures WithoutComment(line) == DropLastBlanks(line[..cut])
  {
    hide CommentAt, MarkAt, DropLastBlanks;
    var first := FirstComment(line, 0);
    if first < |line| {
      MarkExactly(line, first);
    }
    if cut < |line| {
      MarkExactly(line, cut);
    }
    forall i | 0 <= i < cut
      ensures !CommentAt(line, i)
    {
      MarkExactly(line, i);
    }
  }

  // ----- braces ----------------------------------------------------------------------------------------------

  lemma {:induction false} CountExactly(line: string, c: char)
    ensures Count(line, c) == multiset(line)[c]
  {
    if line != "" {
      CountExactly(line[1..], c);
      assert line == [line[0]] + line[1..];
    }
  }

  // ----- headers ---------------------------------------------------------------------------------------------

  predicate AllBlank(s: string) {
    forall i :: 0 <= i < |s| ==> Blank(s[i])
  }

  /** A letter or an underscore, then letters, digits, underscores and hyphens. */
  predicate BlockName(kind: string) {
    && kind != "" && ('a' <= kind[0] <= 'z' || 'A' <= kind[0] <= 'Z' || kind[0] == '_')
    && forall i :: 0 <= i < |kind| ==>
         || 'a' <= kind[i] <= 'z' || 'A' <= kind[i] <= 'Z' || '0' <= kind[i] <= '9' || kind[i] == '_' || kind[i] == '-'
  }

  /** Quoted labels with any white space between them, and the opening brace that ends the line. */
  ghost predicate Labelled(s: string, labels: seq<string>)
    decreases |labels|
  {
    if labels == [] then s != "" && s[0] == '{' && AllBlank(s[1..])
    else exists gap, rest ::
        && s == "\"" + labels[0] + "\"" + gap + rest && '"' !in labels[0] && AllBlank(gap)
        && (rest == "" || !Blank(rest[0])) && Labelled(rest, labels[1..])
  }

  lemma {:induction false} BlanksDropped(s: string) returns (gap: string)
    ensures AllBlank(gap) && s == gap + DropBlanks(s)
  {
    hide Blank;
    if s == "" || !Blank(s[0]) {
      gap := "";
    } else {
      var rest := BlanksDropped(s[1..]);
      gap := s[..1] + rest;
    }
  }

  lemma SolidAfterBlanks(gap: string, rest: string)
    requires AllBlank(gap) && (rest == "" || !Blank(rest[0]))
    ensures DropBlanks(gap + rest) == rest
  {
    BlanksBefore(gap, rest);
  }

  lemma {:induction false} UntilQuoteIs(s: string)
    ensures forall i :: 0 <= i < UntilQuote(s) ==> s[i] != '"'
    ensures UntilQuote(s) < |s| ==> s[UntilQuote(s)] == '"'
  {
    if s != "" && s[0] != '"' {
      UntilQuoteIs(s[1..]);
    }
  }

  lemma {:induction false} QuoteFollows(tag: string, rest: string)
    requires '"' !in tag
    ensures UntilQuote(tag + "\"" + rest) == |tag|
  {
    if tag == "" {
      assert tag + "\"" + rest == "\"" + rest;
    } else {
      assert (tag + "\"" + rest)[1..] == tag[1..] + "\"" + rest;
      QuoteFollows(tag[1..], rest);
    }
  }

  lemma LabelUnfolds(tag: string, gap: string, rest: string)
    requires '"' !in tag && AllBlank(gap) && (rest == "" || !Blank(rest[0]))
    ensures var s := "\"" + tag + "\"" + gap + rest;
            ReadLabels(s) == (if ReadLabels(rest) == None then None else Some([tag] + ReadLabels(rest).value))
  {
    var s := "\"" + tag + "\"" + gap + rest;
    assert s[1..] == tag + "\"" + (gap + rest);
    QuoteFollows(tag, gap + rest);
    SolidAfterBlanks(gap, rest);
    hide UntilQuote, DropBlanks;
    assert s[1..1 + |tag|] == tag && s[|tag| + 2..] == gap + rest && s[0] == '"';
  }

  lemma {:induction false} BlankExactly(s: string)
    ensures DropBlanks(s) == "" <==> AllBlank(s)
  {
    if s != "" {
      BlankExactly(s[1..]);
    }
  }

  lemma {:induction false} LabelsReadExactly(s: string, labels: seq<string>)
    ensures ReadLabels(s) == Some(labels) <==> Labelled(s, labels)
    decreases |s|
  {
    if ReadLabels(s) == Some(labels) {
      LabelsReadAre(s, labels);
    }
    if Labelled(s, labels) {
      LabelledIsRead(s, labels);
    }
  }

  lemma {:induction false} LabelledIsRead(s: string, labels: seq<string>)
    requires Labelled(s, labels)
    ensures ReadLabels(s) == Some(labels)
    decreases |labels|
  {
    if labels == [] {
      BlankExactly(s[1..]);
    } else {
      hide ReadLabels, AllBlank, Blank;
      var gap, rest :|
        && s == "\"" + labels[0] + "\"" + gap + rest && '"' !in labels[0] && AllBlank(gap)
        && (rest == "" || !Blank(rest[0])) && Labelled(rest, labels[1..]);
      LabelledIsRead(rest, labels[1..]);
      hide Labelled;
      LabelUnfolds(labels[0], gap, rest);
      assert labels == [labels[0]] + labels[1..];
    }
  }

  lemma LabelsReadUnfold(s: string, labels: seq<string>)
    requires ReadLabels(s) == Some(labels)
    ensures s != ""
    ensures s[0] == '{' ==> labels == [] && AllBlank(s[1..])
    ensures s[0] != '{' ==>
              var n := UntilQuote(s[1..]);
              && s[0] == '"' && n + 2 <= |s| && labels != [] && labels[0] == s[1..1 + n]
              && ReadLabels(DropBlanks(s[n + 2..])) == Some(labels[1..])
  {
    if s[0] == '{' {
      BlankExactly(s[1..]);
    }
    hide DropBlanks;
  }

  lemma LabelledUnfolds(tag: string, gap: string, rest: string, labels: seq<string>)
    requires labels != [] && labels[0] == tag && '"' !in tag && AllBlank(gap) && (rest == "" || !Blank(rest[0]))
    requires Labelled(rest, labels[1..])
    ensures Labelled("\"" + tag + "\"" + gap + rest, labels)
  {
    hide AllBlank, Blank;
  }

  lemma {:induction false} LabelsReadAre(s: string, labels: seq<string>)
    requires ReadLabels(s) == Some(labels)
    ensures Labelled(s, labels)
    decreases |s|
  {
    hide *;
    LabelsReadUnfold(s, labels);
    if s[0] == '{' {
      BraceIsLabelled(s);
    } else {
      var n := UntilQuote(s[1..]);
      UntilQuoteIs(s[1..]);
      var after := s[n + 2..];
      var rest, tag := DropBlanks(after), s[1..1 + n];
      var gap := BlanksDropped(after);
      LabelsReadAre(rest, labels[1..]);
      assert forall i :: 0 <= i < n ==> tag[i] == s[1..][i];
      LabelledUnfolds(tag, gap, rest, labels);
      CutAtQuotes(s, n);
      assert s == "\"" + tag + "\"" + (gap + rest) == "\"" + tag + "\"" + gap + rest;
    }
  }

  lemma BraceIsLabelled(s: string)
    requires s != "" && s[0] == '{' && AllBlank(s[1..])
    ensures Labelled(s, [])
  {
  }

  lemma CutAtQuotes(s: string, n: nat)
    requires n + 2 <= |s| && s[0] == '"' && s[n + 1] == '"'
    ensures s == "\"" + s[1..1 + n] + "\"" + s[n + 2..]
  {
  }

  /** A header: a name, any white space, then labels and the brace. */
  ghost predicate HeaderOf(line: string, kind: string, labels: seq<string>) {
    BlockName(kind) && exists gap, rest :: line == kind + gap + rest && AllBlank(gap) && (rest == "" || !Blank(rest[0]))
                                           && Labelled(rest, labels)
  }

  lemma {:induction false} NameLengthIs(s: string)
    ensures NameLength(s) < |s| ==> !NamePart(s[NameLength(s)])
  {
    if s != "" && NamePart(s[0]) {
      NameLengthIs(s[1..]);
    }
  }

  lemma {:induction false} NameThenOther(name: string, rest: string)
    requires (forall i :: 0 <= i < |name| ==> NamePart(name[i])) && (rest == "" || !NamePart(rest[0]))
    ensures NameLength(name + rest) == |name|
  {
    if name == "" {
      assert name + rest == rest;
    } else {
      assert (name + rest)[1..] == name[1..] + rest;
      NameThenOther(name[1..], rest);
    }
  }

  lemma BlockNameExactly(kind: string)
    ensures BlockName(kind) <==> kind != "" && NameStart(kind[0]) && forall i :: 0 <= i < |kind| ==> NamePart(kind[i])
  {
  }

  lemma BlankIsNoName(c: char)
    requires Blank(c) || c == '{' || c == '"'
    ensures !NamePart(c)
  {
  }

  /** A line opens a block exactly when it is a header, and then with that name and those labels. */
  lemma HeaderIsReadExactly(line: string, kind: string, labels: seq<string>)
    ensures ReadHeader(line) == Some((kind, labels)) <==> HeaderOf(line, kind, labels)
  {
    if ReadHeader(line) == Some((kind, labels)) {
      HeaderReadIs(line, kind, labels);
    }
    if HeaderOf(line, kind, labels) {
      var gap, rest :| line == kind + gap + rest && AllBlank(gap) && (rest == "" || !Blank(rest[0])) && Labelled(rest, labels);
      HeaderIsRead(kind, gap, rest, labels);
    }
  }

  lemma HeaderUnfolds(line: string)
    ensures var n := NameLength(line);
            ReadHeader(line) == if line == "" || !NameStart(line[0]) || ReadLabels(DropBlanks(line[n..])) == None then None
                                else Some((line[..n], ReadLabels(DropBlanks(line[n..])).value))
  {
    hide NameLength, DropBlanks, ReadLabels, NameStart;
  }

  lemma HeaderReadIs(line: string, kind: string, labels: seq<string>)
    requires ReadHeader(line) == Some((kind, labels))
    ensures HeaderOf(line, kind, labels)
  {
    HeaderUnfolds(line);
    BlockNameExactly(kind);
    hide ReadHeader, Labelled, ReadLabels, DropBlanks, NameLength, BlockName, Blank, AllBlank, NamePart, NameStart;
    var n := NameLength(line);
    assert n > 0 by {
      NameIsNotEmpty(line);
    }
    var rest := DropBlanks(line[n..]);
    var gap := BlanksDropped(line[n..]);
    LabelsReadExactly(rest, labels);
    assert line == kind + line[n..] == kind + (gap + rest) == kind + gap + rest;
  }

  lemma NameIsNotEmpty(line: string)
    requires line != "" && NameStart(line[0])
    ensures NameLength(line) > 0
  {
  }

  lemma HeaderIsRead(kind: string, gap: string, rest: string, labels: seq<string>)
    requires BlockName(kind) && AllBlank(gap) && (rest == "" || !Blank(rest[0])) && Labelled(rest, labels)
    ensures ReadHeader(kind + gap + rest) == Some((kind, labels))
  {
    hide *;
    BlockNameExactly(kind);
    LabelsReadExactly(rest, labels);
    LabelledStarts(rest, labels);
    NoNameAfterGap(gap, rest);
    NameThenOther(kind, gap + rest);
    SolidAfterBlanks(gap, rest);
    var line := kind + gap + rest;
    assert line == kind + (gap + rest);
    assert line[..|kind|] == kind && line[|kind|..] == gap + rest && line[0] == kind[0];
    HeaderUnfolds(line);
  }

  lemma NoNameAfterGap(gap: string, rest: string)
    requires AllBlank(gap) && rest != "" && (rest[0] == '{' || rest[0] == '"')
    ensures gap + rest != "" && !NamePart((gap + rest)[0])
  {
    BlankIsNoName((gap + rest)[0]);
  }

  lemma LabelledStarts(s: string, labels: seq<string>)
    requires Labelled(s, labels)
    ensures s != "" && (s[0] == '{' || s[0] == '"')
  {
  }

  // ----- what the reader refuses -------------------------------------------------------------------------------

  lemma BlocksThenRun(before: seq<string>, after: seq<string>)
    requires Blocks(before).Ok?
    ensures Run(before, START).Ok? && Run(before + after, START) == Run(after, Run(before, START).value)
    ensures Run(before, START).value.depth == 0
  {
    RunInTurn(before, after, START);
    hide Run;
  }

  lemma StepRefuses(st: State, line: string)
    requires st.depth == 0 && Seen(line) != "" && ReadHeader(Seen(line)) == None
    ensures Step(st, line) == Err(Unsupported(Seen(line)))
  {
    hide Seen, ReadHeader, Count;
  }

  lemma RunStops(line: string, after: seq<string>, st: State, e: ParseError)
    requires Step(st, line) == Err(e)
    ensures Run([line] + after, st) == Err(e)
  {
    hide Step;
    assert ([line] + after)[0] == line;
  }

  lemma BlocksFails(lines: seq<string>, e: ParseError)
    requires Run(lines, START) == Err(e)
    ensures Blocks(lines) == Err(e)
  {
  }

  lemma BlocksUnbalanced(lines: seq<string>)
    requires Run(lines, START).Ok? && Run(lines, START).value.depth != 0
    ensures Blocks(lines) == Err(UnbalancedBraces)
  {
  }

  /** Outside a block only headers and empty lines may stand. */
  lemma UnsupportedLineIsRefused(before: seq<string>, line: string, after: seq<string>)
    requires Blocks(before).Ok? && Seen(line) != "" && ReadHeader(Seen(line)) == None
    ensures Blocks(before + [line] + after) == Err(Unsupported(Seen(line)))
  {
    hide *;
    BlocksThenRun(before, [line] + after);
    assert before + [line] + after == before + ([line] + after);
    StepRefuses(Run(before, START).value, line);
    RunStops(line, after, Run(before, START).value, Unsupported(Seen(line)));
    BlocksFails(before + [line] + after, Unsupported(Seen(line)));
  }

  lemma HeaderEnters(st: State, header: string)
    requires st.depth == 0 && ReadHeader(Seen(header)).Some?
    ensures Step(st, header).Ok? && Step(st, header).value.depth == 1
  {
    hide Seen, Count;
    assert ReadHeader("") == None;
    hide ReadHeader;
  }

  /** A block left open is refused, and so is one closed more than once on a line: the depth has to come back to zero. */
  lemma UnbalancedBlockIsRefused(before: seq<string>, header: string, line: string)
    requires Blocks(before).Ok? && ReadHeader(Seen(header)).Some?
    requires multiset(Seen(line))['{'] + 1 != multiset(Seen(line))['}']
    ensures Blocks(before + [header]) == Err(UnbalancedBraces)
    ensures Blocks(before + [header, line]) == Err(UnbalancedBraces)
  {
    BlocksThenRun(before, [header]);
    BlocksThenRun(before, [header, line]);
    hide Blocks, Run, Seen, ReadHeader, Count, Step;
    var st := Run(before, START).value;
    HeaderEnters(st, header);
    RunOne(header, st);
    BlocksUnbalanced(before + [header]);
    var inside := Step(st, header).value;
    assert [header] + [line] == [header, line];
    RunInTurn([header], [line], st);
    RunOne(line, inside);
    StepStaysInside(inside, line);
    BlocksUnbalanced(before + [header, line]);
  }

  lemma StepStaysInside(st: State, line: string)
    requires st.depth == 1 && multiset(Seen(line))['{'] + 1 != multiset(Seen(line))['}']
    ensures Step(st, line).Ok? && Step(st, line).value.depth != 0
  {
    CountExactly(Seen(line), '{');
    CountExactly(Seen(line), '}');
    hide Seen, Count;
  }
}
