/**
 * The isolation checker's reader: comments removed line by line, then a brace-counting split
 * of a Terraform file into top-level blocks.
 */
module TerraformBlocks {
  import opened Outcomes
  import opened Ordering
  import opened Trimming

  // ----- comments ---------------------------------------------------------------------------

  predicate QuoteAt(line: string, i: int)
    requires 0 <= i < |line|
  {
    line[i] == '"' && (i == 0 || line[i - 1] != '\\')
  }

  /** Whether position `i` lies inside a quoted string: an odd number of unescaped quotes precede it. */
  predicate Quoted(line: string, i: int)
    requires 0 <= i <= |line|
  {
    i > 0 && (Quoted(line, i - 1) != QuoteAt(line, i - 1))
  }

  /** An unquoted `#` or `//`. */
  predicate CommentAt(line: string, i: int)
    requires 0 <= i < |line|
  {
    !Quoted(line, i) && (line[i] == '#' || (line[i] == '/' && i + 1 < |line| && line[i + 1] == '/'))
  }

  function FirstComment(line: string, from: nat): (cut: nat)
    requires from <= |line|
    ensures from <= cut <= |line|
    ensures forall i :: from <= i < cut ==> !CommentAt(line, i)
    ensures cut < |line| ==> CommentAt(line, cut)
    decreases |line| - from
  {
    if from == |line| || CommentAt(line, from) then from else FirstComment(line, from + 1)
  }

  function WithoutComment(line: string): string {
    DropLastBlanks(line[..FirstComment(line, 0)])
  }

  /** The scan over one line, toggling `inString` as it goes. */
  method StripComment(line: string) returns (stripped: string)
    ensures stripped == WithoutComment(line)
    ensures forall i :: 0 <= i < |stripped| ==> !CommentAt(stripped, i)
    ensures WithoutComment(stripped) == stripped
  {
    var inString := false;
    var cut := |line|;
    var index := 0;
    while index < |line|
      invariant index <= cut == |line|
      invariant inString == Quoted(line, index)
      invariant FirstComment(line, 0) == FirstComment(line, index)
    {
      var c := line[index];
      if c == '"' && (index == 0 || line[index - 1] != '\\') {
        inString := !inString;
      } else if !inString && (c == '#' || (c == '/' && index + 1 < |line| && line[index + 1] == '/')) {
        cut := index;
        break;
      }
      index := index + 1;
    }
    stripped := DropLastBlanks(line[..cut]);
    StrippedLineHasNoComment(line);
  }

  lemma {:induction false} QuotedInPrefix(line: string, n: nat, i: nat)
    requires i <= n <= |line|
    ensures Quoted(line[..n], i) == Quoted(line, i)
  {
    if i > 0 {
      QuotedInPrefix(line, n, i - 1);
    }
  }

  lemma {:induction false} NoCommentToCut(line: string, from: nat)
    requires from <= |line|
    requires forall i :: from <= i < |line| ==> !CommentAt(line, i)
    ensures FirstComment(line, from) == |line|
    decreases |line| - from
  {
    if from < |line| {
      NoCommentToCut(line, from + 1);
    }
  }

  /** Removing comments leaves no unquoted mark, and doing it again changes nothing. */
  lemma StrippedLineHasNoComment(line: string)
    ensures var r := WithoutComment(line);
            (forall i :: 0 <= i < |r| ==> !CommentAt(r, i)) && WithoutComment(r) == r
  {
    var r := WithoutComment(line);
    var n := |r|;
    assert r == line[..n];
    forall i | 0 <= i < n
      ensures !CommentAt(r, i)
    {
      QuotedInPrefix(line, n, i);
      assert !CommentAt(line, i);
    }
    NoCommentToCut(r, 0);
    assert r[..n] == r;
  }

  // ----- the block reader ----------------------------------------------------------------------

  datatype Block = Block(kind: string, labels: seq<string>, body: seq<string>, direct: seq<string>)

  datatype ParseError = Unsupported(line: string) | UnbalancedBraces

  predicate NameStart(c: char) {
    'A' <= c <= 'Z' || 'a' <= c <= 'z' || c == '_'
  }

  predicate NamePart(c: char) {
    NameStart(c) || '0' <= c <= '9' || c == '-'
  }

  function NameLength(s: string): (n: nat)
    ensures n <= |s|
    ensures forall i :: 0 <= i < n ==> NamePart(s[i])
  {
    if s == "" || !NamePart(s[0]) then 0 else 1 + NameLength(s[1..])
  }

  function UntilQuote(s: string): (n: nat)
    ensures n <= |s|
  {
    if s == "" || s[0] == '"' then 0 else 1 + UntilQuote(s[1..])
  }

  /** Quoted labels, then an opening brace that ends the line. */
  function ReadLabels(s: string): Option<seq<string>>
    decreases |s|
  {
    if s == "" then None
    else if s[0] == '{' then if DropBlanks(s[1..]) == "" then Some([]) else None
    else if s[0] == '"' then
      var n := UntilQuote(s[1..]);
      if 1 + n == |s| then None
      else
        match ReadLabels(DropBlanks(s[n + 2..]))
        case None => None
        case Some(labels) => Some([s[1..1 + n]] + labels)
    else None
  }

  function ReadHeader(line: string): Option<(string, seq<string>)> {
    if line == "" || !NameStart(line[0]) then None
    else
      var n := NameLength(line);
      match ReadLabels(DropBlanks(line[n..]))
      case None => None
      case Some(labels) => Some((line[..n], labels))
  }

  function Count(line: string, c: char): nat {
    if line == "" then 0 else (if line[0] == c then 1 else 0) + Count(line[1..], c)
  }

  /** A line as the reader sees it. */
  function Seen(raw: string): string {
    Strip(WithoutComment(raw))
  }

  datatype State = State(
    depth: int, kind: string, labels: seq<string>, body: seq<string>, direct: seq<string>, blocks: seq<Block>)

  const START := State(0, "", [], [], [], [])

  /** One line that opens and closes so many braces. */
  function Take(st: State, line: string, opens: nat, closes: nat): Result<State, ParseError> {
    if st.depth == 0 then
      if line == "" then Ok(st)
      else match ReadHeader(line)
        case None => Err(Unsupported(line))
        case Some((kind, labels)) => Ok(State(1, kind, labels, [], [], st.blocks))
    else
      var direct := if st.depth == 1 && line != "" && line[0] != '}' then st.direct + [line] else st.direct;
      var depth := st.depth + opens - closes;
      if depth == 0 then
        Ok(st.(depth := 0, direct := direct, blocks := st.blocks + [Block(st.kind, st.labels, st.body, direct)]))
      else
        Ok(st.(depth := depth, direct := direct, body := if line == "" then st.body else st.body + [line]))
  }

  function Step(st: State, raw: string): Result<State, ParseError> {
    Take(st, Seen(raw), Count(Seen(raw), '{'), Count(Seen(raw), '}'))
  }

  function Run(lines: seq<string>, st: State): Result<State, ParseError>
    decreases |lines|
  {
    if lines == [] then Ok(st)
    else
      var next :- Step(st, lines[0]);
      Run(lines[1..], next)
  }

  function Blocks(lines: seq<string>): Result<seq<Block>, ParseError> {
    var st :- Run(lines, START);
    if st.depth != 0 then Err(UnbalancedBraces) else Ok(st.blocks)
  }

  lemma StepIsTake(st: State, raw: string)
    ensures Step(st, raw) == Take(st, Seen(raw), Count(Seen(raw), '{'), Count(Seen(raw), '}'))
  {
  }

  /** The reader's loop, over lines whose comments have been removed. */
  method ReadBlocks(lines: seq<string>) returns (r: Result<seq<Block>, ParseError>)
    requires forall line :: line in lines ==> WithoutComment(line) == line
    ensures r == Blocks(lines)
  {
    hide Step;
    var blocks: seq<Block> := [];
    var depth: int := 0;
    var kind, labels := "", [];
    var body, direct := [], [];
    for i := 0 to |lines|
      invariant Run(lines, START) == Run(lines[i..], State(depth, kind, labels, body, direct, blocks))
    {
      var line := Strip(lines[i]);
      assert lines[i] in lines && lines[i..][1..] == lines[i + 1..] && line == Seen(lines[i]);
      StepIsTake(State(depth, kind, labels, body, direct, blocks), lines[i]);
      if depth == 0 {
        if line == "" {
          continue;
        }
        var header := ReadHeader(line);
        if header == None {
          return Err(Unsupported(line));
        }
        kind, labels := header.value.0, header.value.1;
        body, direct, depth := [], [], 1;
        continue;
      }
      if depth == 1 && line != "" && line[0] != '}' {
        direct := direct + [line];
      }
      depth := depth + Count(line, '{') - Count(line, '}');
      if depth == 0 {
        blocks := blocks + [Block(kind, labels, body, direct)];
      } else if line != "" {
        body := body + [line];
      }
    }
    assert lines[|lines|..] == [];
    if depth != 0 {
      return Err(UnbalancedBraces);
    }
    return Ok(blocks);
  }

  /** Reading on from where earlier lines led. */
  function Onward(r: Result<State, ParseError>, lines: seq<string>): Result<State, ParseError> {
    if r.Err? then r else Run(lines, r.value)
  }

  lemma {:induction false} RunInTurn(first: seq<string>, second: seq<string>, st: State)
    ensures Run(first + second, st) == Onward(Run(first, st), second)
    decreases |first|
  {
    if first == [] {
      assert first + second == second;
    } else {
      assert (first + second)[1..] == first[1..] + second;
      match Step(st, first[0]) {
        case Err(_) =>
        case Ok(next) => RunInTurn(first[1..], second, next);
      }
    }
  }

  // ----- a canonical layout -----------------------------------------------------------------------

  /** A block's contents: attribute lines, child blocks to any depth, and blank or comment lines. */
  datatype Items =
    | Done
    | Line(text: string, rest: Items)
    | Child(header: string, inner: Items, rest: Items)
    | Filler(raw: string, rest: Items)

  datatype Source = Source(kind: string, labels: seq<string>, items: Items)

  /** A line that holds exactly `text`: trimmed, without comments, without a leading closing brace. */
  predicate Clean(text: string) {
    && text != "" && !Blank(text[0]) && !Blank(text[|text| - 1]) && text[0] != '}'
    && FirstComment(text, 0) == |text|
  }

  predicate WfItems(items: Items) {
    match items
    case Done => true
    case Line(text, rest) => Clean(text) && Count(text, '{') == 0 && Count(text, '}') == 0 && WfItems(rest)
    case Child(header, inner, rest) =>
      Clean(header) && Count(header, '{') == 1 && Count(header, '}') == 0 && WfItems(inner) && WfItems(rest)
    case Filler(raw, rest) => Seen(raw) == "" && WfItems(rest)
  }

  predicate WfSource(s: Source) {
    && s.kind != "" && NameStart(s.kind[0]) && NameLength(s.kind) == |s.kind|
    && (forall l :: l in s.labels ==> UntilQuote(l) == |l|)
    && FirstComment(HeaderText(s.kind, s.labels), 0) == |HeaderText(s.kind, s.labels)|
    && WfItems(s.items)
  }

  function Indent(depth: nat): string {
    if depth == 0 then "" else "  " + Indent(depth - 1)
  }

  function LabelsText(labels: seq<string>): string {
    if labels == [] then "{" else "\"" + labels[0] + "\" " + LabelsText(labels[1..])
  }

  function HeaderText(kind: string, labels: seq<string>): string {
    kind + " " + LabelsText(labels)
  }

  function Print(items: Items, depth: nat): seq<string> {
    match items
    case Done => []
    case Line(text, rest) => [Indent(depth) + text] + Print(rest, depth)
    case Child(header, inner, rest) =>
      [Indent(depth) + header] + Print(inner, depth + 1) + ([Indent(depth) + "}"] + Print(rest, depth))
    case Filler(raw, rest) => [raw] + Print(rest, depth)
  }

  function PrintSource(s: Source): seq<string> {
    [HeaderText(s.kind, s.labels)] + Print(s.items, 1) + ["}"]
  }

  function PrintAll(sources: seq<Source>): seq<string> {
    if sources == [] then [] else PrintSource(sources[0]) + PrintAll(sources[1..])
  }

  /** Every line inside, nesting flattened, closing braces included. */
  function Flattened(items: Items): seq<string> {
    match items
    case Done => []
    case Line(text, rest) => [text] + Flattened(rest)
    case Child(header, inner, rest) => [header] + Flattened(inner) + (["}"] + Flattened(rest))
    case Filler(_, rest) => Flattened(rest)
  }

  /** The block's own lines: its attributes and the headers of its children. */
  function Own(items: Items): seq<string> {
    match items
    case Done => []
    case Line(text, rest) => [text] + Own(rest)
    case Child(header, _, rest) => [header] + Own(rest)
    case Filler(_, rest) => Own(rest)
  }

  function Expected(sources: seq<Source>): seq<Block> {
    seq(|sources|, i requires 0 <= i < |sources| =>
      Block(sources[i].kind, sources[i].labels, Flattened(sources[i].items), Own(sources[i].items)))
  }

  lemma {:induction false} IndentIsBlank(depth: nat)
    ensures forall i :: 0 <= i < |Indent(depth)| ==> Indent(depth)[i] == ' '
  {
    if depth > 0 {
      IndentIsBlank(depth - 1);
    }
  }

  lemma {:induction false} QuotedAfterIndent(pad: string, text: string, i: nat)
    requires forall k :: 0 <= k < |pad| ==> pad[k] == ' '
    requires i <= |pad| + |text|
    ensures Quoted(pad + text, i) == (i > |pad| && Quoted(text, i - |pad|))
  {
    if i > 0 {
      QuotedAfterIndent(pad, text, i - 1);
    }
  }

  lemma IndentedLineIsSeen(depth: nat, text: string)
    requires text == "}" || Clean(text)
    ensures Seen(Indent(depth) + text) == text
  {
    var pad := Indent(depth);
    var line := pad + text;
    IndentIsBlank(depth);
    assert text == "}" ==> FirstComment(text, 0) == 1;
    forall i | 0 <= i < |line|
      ensures !CommentAt(line, i)
    {
      QuotedAfterIndent(pad, text, i);
      assert i >= |pad| ==> !CommentAt(text, i - |pad|);
    }
    NoCommentToCut(line, 0);
    assert line[..|line|] == line && WithoutComment(line) == line;
    BlanksBefore(pad, text);
    TrimmedStays(text);
  }

  /** A state whose block has taken in more lines. */
  function Grown(st: State, body: seq<string>, direct: seq<string>): State {
    st.(body := st.body + body, direct := st.direct + if st.depth == 1 then direct else [])
  }

  lemma GrownTwice(st: State, body: seq<string>, direct: seq<string>, more: seq<string>, own: seq<string>)
    ensures Grown(Grown(st, body, direct), more, own) == Grown(st, body + more, direct + own)
  {
    assert st.body + body + more == st.body + (body + more);
    assert st.direct + direct + own == st.direct + (direct + own);
    assert st.direct + [] + [] == st.direct + [];
  }

  lemma StepOverLine(text: string, depth: nat, st: State)
    requires Clean(text) && Count(text, '{') == 0 && Count(text, '}') == 0 && st.depth >= 1
    ensures Step(st, Indent(depth) + text) == Ok(Grown(st, [text], [text]))
  {
    IndentedLineIsSeen(depth, text);
    assert st.direct + [] == st.direct;
  }

  lemma StepOverFiller(raw: string, st: State)
    requires Seen(raw) == "" && st.depth >= 1
    ensures Step(st, raw) == Ok(st)
  {
  }

  lemma TakeHeader(st: State, line: string)
    requires line != "" && line[0] != '}' && st.depth >= 1
    ensures Take(st, line, 1, 0) == Ok(Grown(st, [line], [line]).(depth := st.depth + 1))
  {
    assert st.direct + [] == st.direct;
  }

  lemma StepIntoChild(header: string, depth: nat, st: State)
    requires Clean(header) && Count(header, '{') == 1 && Count(header, '}') == 0 && st.depth >= 1
    ensures Step(st, Indent(depth) + header) == Ok(Grown(st, [header], [header]).(depth := st.depth + 1))
  {
    IndentedLineIsSeen(depth, header);
    TakeHeader(st, header);
  }

  lemma ClosingBrace(depth: nat)
    ensures Seen(Indent(depth) + "}") == "}" && Count("}", '}') == 1 && Count("}", '{') == 0
  {
    IndentedLineIsSeen(depth, "}");
    assert "}"[1..] == "";
  }

  lemma StepOutOfChild(depth: nat, st: State)
    requires st.depth >= 2
    ensures Step(st, Indent(depth) + "}") == Ok(st.(body := st.body + ["}"], depth := st.depth - 1))
  {
    ClosingBrace(depth);
  }

  lemma RunNone(st: State)
    ensures Run([], st) == Ok(st)
  {
  }

  lemma RunOne(raw: string, st: State)
    ensures Run([raw], st) == Step(st, raw)
  {
    assert [raw][1..] == [];
  }

  lemma RunFirst(raw: string, rest: seq<string>, st: State)
    ensures Run([raw] + rest, st) == Onward(Step(st, raw), rest)
  {
    RunOne(raw, st);
    RunInTurn([raw], rest, st);
  }

  /** Lines already read, then more lines read from there, grow the block by both. */
  lemma ReadOn(
    first: seq<string>, second: seq<string>, st: State,
    body: seq<string>, direct: seq<string>, more: seq<string>, own: seq<string>)
    requires Run(first, st) == Ok(Grown(st, body, direct))
    requires Run(second, Grown(st, body, direct)) == Ok(Grown(Grown(st, body, direct), more, own))
    ensures Run(first + second, st) == Ok(Grown(st, body + more, direct + own))
  {
    RunInTurn(first, second, st);
    GrownTwice(st, body, direct, more, own);
  }

  /** Reading the printed contents of a block adds its lines and comes back to the same depth. */
  lemma {:induction false} ItemsReadBack(items: Items, depth: nat, st: State)
    requires WfItems(items) && st.depth >= 1
    ensures Run(Print(items, depth), st) == Ok(Grown(st, Flattened(items), Own(items)))
    decreases items, 0
  {
    hide Step, Run, Seen, Clean;
    match items {
      case Done =>
        RunNone(st);
        assert st.body + [] == st.body && st.direct + [] == st.direct;
      case Line(text, rest) =>
        StepOverLine(text, depth, st);
        RunOne(Indent(depth) + text, st);
        ItemsReadBack(rest, depth, Grown(st, [text], [text]));
        ReadOn([Indent(depth) + text], Print(rest, depth), st, [text], [text], Flattened(rest), Own(rest));
      case Child(header, inner, rest) =>
        var lines, whole := ChildLines(header, inner, depth), [header] + Flattened(inner) + ["}"];
        ChildReadsBack(header, inner, depth, st);
        ItemsReadBack(rest, depth, Grown(st, whole, [header]));
        ReadOn(lines, Print(rest, depth), st, whole, [header], Flattened(rest), Own(rest));
        assert Print(items, depth) == lines + Print(rest, depth);
        assert Flattened(items) == whole + Flattened(rest);
      case Filler(raw, rest) =>
        StepOverFiller(raw, st);
        RunOne(raw, st);
        RunInTurn([raw], Print(rest, depth), st);
        ItemsReadBack(rest, depth, st);
    }
  }

  function ChildLines(header: string, inner: Items, depth: nat): seq<string> {
    [Indent(depth) + header] + (Print(inner, depth + 1) + [Indent(depth) + "}"])
  }

  lemma {:induction false} ChildReadsBack(header: string, inner: Items, depth: nat, st: State)
    requires Clean(header) && Count(header, '{') == 1 && Count(header, '}') == 0 && WfItems(inner) && st.depth >= 1
    ensures Run(ChildLines(header, inner, depth), st) == Ok(Grown(st, [header] + Flattened(inner) + ["}"], [header]))
    decreases inner, 1
  {
    hide Step;
    var entered := Grown(st, [header], [header]).(depth := st.depth + 1);
    StepIntoChild(header, depth, st);
    RunFirst(Indent(depth) + header, Print(inner, depth + 1) + [Indent(depth) + "}"], st);
    ItemsReadBack(inner, depth + 1, entered);
    InsideThenOut(Print(inner, depth + 1), depth, entered, Flattened(inner), Own(inner));
    assert st.body + [header] + Flattened(inner) + ["}"] == st.body + ([header] + Flattened(inner) + ["}"]);
  }

  lemma InsideThenOut(lines: seq<string>, depth: nat, st: State, body: seq<string>, direct: seq<string>)
    requires st.depth >= 2 && Run(lines, st) == Ok(Grown(st, body, direct))
    ensures Run(lines + [Indent(depth) + "}"], st)
         == Ok(st.(body := st.body + body + ["}"], depth := st.depth - 1))
  {
    hide Step;
    var inside := Grown(st, body, direct);
    RunInTurn(lines, [Indent(depth) + "}"], st);
    RunOne(Indent(depth) + "}", inside);
    StepOutOfChild(depth, inside);
    assert st.direct + [] == st.direct;
  }

  lemma DropOneBlank(tail: string)
    requires tail != "" && !Blank(tail[0])
    ensures DropBlanks(" " + tail) == tail
  {
    assert (" " + tail)[1..] == tail;
  }

  lemma LabelUnfolds(s: string)
    requires s != "" && s[0] == '"' && 1 + UntilQuote(s[1..]) < |s|
    ensures var n := UntilQuote(s[1..]);
            var rest := ReadLabels(DropBlanks(s[n + 2..]));
            ReadLabels(s) == if rest == None then None else Some([s[1..1 + n]] + rest.value)
  {
    hide DropBlanks, UntilQuote;
  }

  lemma LabelPieces(quote: string, head: string, gap: string, tail: string)
    requires |quote| == 1 && |gap| == 2
    ensures var s := quote + head + gap + tail;
            && s != "" && s[0] == quote[0] && |s| == |head| + 3 + |tail| && s[1..] == head + (gap + tail)
            && s[1..1 + |head|] == head && s[|head| + 2..] == gap[1..] + tail
            && (tail != "" ==> s[|s| - 1] == tail[|tail| - 1])
  {
  }

  lemma OneLabelReadsBack(head: string, tail: string)
    requires UntilQuote(head) == |head| && tail != "" && !Blank(tail[0])
    ensures ReadLabels("\"" + head + "\" " + tail) ==
            if ReadLabels(tail) == None then None else Some([head] + ReadLabels(tail).value)
  {
    hide ReadLabels, DropBlanks, UntilQuote, Blank;
    var gap := "\" ";
    assert gap[1..] == " " && (gap + tail)[0] == '"';
    LabelPieces("\"", head, gap, tail);
    QuoteEndsLabel(head, gap + tail);
    LabelUnfolds("\"" + head + gap + tail);
    DropOneBlank(tail);
  }

  lemma NoLabelsReadBack()
    ensures ReadLabels("{") == Some([]) && !Blank("{"[0]) && "{"[|"{"| - 1] == '{'
  {
    assert "{"[1..] == "" && DropBlanks("") == "";
  }

  lemma {:induction false} LabelsReadBack(labels: seq<string>)
    requires forall l :: l in labels ==> UntilQuote(l) == |l|
    ensures var text := LabelsText(labels);
            ReadLabels(text) == Some(labels) && text != "" && !Blank(text[0]) && text[|text| - 1] == '{'
  {
    hide ReadLabels, UntilQuote, Blank;
    if labels == [] {
      NoLabelsReadBack();
    } else {
      var head, tail := labels[0], LabelsText(labels[1..]);
      assert head in labels && LabelsText(labels) == "\"" + head + "\" " + tail;
      LabelsReadBack(labels[1..]);
      hide LabelsText;
      OneLabelReadsBack(head, tail);
      LabelPieces("\"", head, "\" ", tail);
      QuoteIsSolid();
      assert [head] + labels[1..] == labels;
    }
  }

  lemma QuoteIsSolid()
    ensures !Blank("\""[0])
  {
  }

  lemma {:induction false} QuoteEndsLabel(head: string, rest: string)
    requires UntilQuote(head) == |head| && rest != "" && rest[0] == '"'
    ensures UntilQuote(head + rest) == |head|
  {
    if head == "" {
      assert head + rest == rest;
    } else {
      assert (head + rest)[1..] == head[1..] + rest;
      QuoteEndsLabel(head[1..], rest);
    }
  }

  lemma {:induction false} NameEndsAtBlank(name: string, rest: string)
    requires NameLength(name) == |name| && rest != "" && rest[0] == ' '
    ensures NameLength(name + rest) == |name|
  {
    if name == "" {
      assert name + rest == rest;
    } else {
      assert (name + rest)[1..] == name[1..] + rest;
      NameEndsAtBlank(name[1..], rest);
    }
  }

  lemma NameThenLabels(kind: string, tail: string)
    requires kind != "" && NameStart(kind[0]) && NameLength(kind) == |kind|
    requires tail != "" && !Blank(tail[0])
    ensures ReadHeader(kind + " " + tail) ==
            if ReadLabels(tail) == None then None else Some((kind, ReadLabels(tail).value))
  {
    hide ReadLabels, DropBlanks, NameLength, Blank;
    var text := kind + " " + tail;
    assert text == kind + (" " + tail) && text[0] == kind[0];
    NameEndsAtBlank(kind, " " + tail);
    assert text[..|kind|] == kind && text[|kind|..] == " " + tail;
    DropOneBlank(tail);
  }

  lemma HeaderReadsBack(s: Source)
    requires WfSource(s)
    ensures var text := HeaderText(s.kind, s.labels);
            Seen(text) == text && ReadHeader(text) == Some((s.kind, s.labels)) && text != ""
  {
    var tail := LabelsText(s.labels);
    var text := s.kind + " " + tail;
    assert !Blank(s.kind[0]) && !Blank('{');
    hide ReadLabels, ReadHeader, LabelsText, DropBlanks, DropLastBlanks, NameLength, UntilQuote, FirstComment, WfItems, Blank;
    LabelsReadBack(s.labels);
    NameThenLabels(s.kind, tail);
    assert text[0] == s.kind[0] && text[..|text|] == text && text[|text| - 1] == tail[|tail| - 1] == '{';
    hide Strip;
    TrimmedStays(text);
  }

  lemma StepIntoBlock(s: Source, st: State)
    requires WfSource(s) && st.depth == 0
    ensures Step(st, HeaderText(s.kind, s.labels)) == Ok(State(1, s.kind, s.labels, [], [], st.blocks))
  {
    HeaderReadsBack(s);
  }

  lemma StepOutOfBlock(st: State)
    requires st.depth == 1
    ensures Step(st, "}") == Ok(st.(depth := 0, blocks := st.blocks + [Block(st.kind, st.labels, st.body, st.direct)]))
  {
    ClosingBrace(0);
    assert "" + "}" == "}";
  }

  lemma SourceReadsBack(s: Source, st: State)
    requires WfSource(s) && st.depth == 0
    ensures Run(PrintSource(s), st).Ok?
    ensures var next := Run(PrintSource(s), st).value;
            next.depth == 0 && next.blocks == st.blocks + [Block(s.kind, s.labels, Flattened(s.items), Own(s.items))]
  {
    var header, middle := HeaderText(s.kind, s.labels), Print(s.items, 1);
    var entered := State(1, s.kind, s.labels, [], [], st.blocks);
    var inside := Grown(entered, Flattened(s.items), Own(s.items));
    StepIntoBlock(s, st);
    assert PrintSource(s) == [header] + (middle + ["}"]);
    RunFirst(header, middle + ["}"], st);
    ItemsReadBack(s.items, 1, entered);
    RunInTurn(middle, ["}"], entered);
    RunOne("}", inside);
    StepOutOfBlock(inside);
    assert [] + Flattened(s.items) == Flattened(s.items) && [] + Own(s.items) == Own(s.items);
  }

  /**
   * The reader undoes the printer: same kinds and labels, bodies flattened, and `direct` exactly
   * the lines of the block itself, children's headers in and everything inside them out.
   */
  lemma PrintedBlocksReadBack(sources: seq<Source>)
    requires forall s :: s in sources ==> WfSource(s)
    ensures Blocks(PrintAll(sources)) == Ok(Expected(sources))
  {
    AllReadBack(sources, START);
    assert [] + Expected(sources) == Expected(sources);
  }

  lemma {:induction false} AllReadBack(sources: seq<Source>, st: State)
    requires forall s :: s in sources ==> WfSource(s)
    requires st.depth == 0
    ensures Run(PrintAll(sources), st).Ok?
    ensures var next := Run(PrintAll(sources), st).value;
            next.depth == 0 && next.blocks == st.blocks + Expected(sources)
  {
    hide Step, PrintSource;
    if sources == [] {
      assert st.blocks + Expected([]) == st.blocks;
    } else {
      var first, others := PrintSource(sources[0]), PrintAll(sources[1..]);
      SourceReadsBack(sources[0], st);
      var next := Run(first, st).value;
      AllReadBack(sources[1..], next);
      RunInTurn(first, others, st);
      assert Run(first + others, st) == Run(others, next);
      ExpectedInTurn(sources);
      assert st.blocks + [Expected(sources)[0]] + Expected(sources[1..]) == st.blocks + Expected(sources);
    }
  }

  lemma ExpectedInTurn(sources: seq<Source>)
    requires sources != []
    ensures Expected(sources) == [Expected(sources)[0]] + Expected(sources[1..])
  {
  }

  // ----- a line that closes its own block -----------------------------------------------------------
  /** A line that carries the closing brace at its end is direct but not in the body. */
  lemma ClosingLineCanBeDirectOnly(text: string, s: Source)
    requires WfSource(s) && s.items == Done
    requires Clean(text) && Count(text, '{') == 0 && Count(text, '}') == 1
    ensures Blocks([HeaderText(s.kind, s.labels), text]) == Ok([Block(s.kind, s.labels, [], [text])])
  {
    hide Seen, Count, ReadHeader;
    var header := HeaderText(s.kind, s.labels);
    var entered := State(1, s.kind, s.labels, [], [], []);
    StepIntoBlock(s, START);
    assert [header, text] == [header] + [text];
    RunFirst(header, [text], START);
    RunOne(text, entered);
    IndentedLineIsSeen(0, text);
    assert "" + text == text;
    TakeClosing(entered, text);
    assert [] + [text] == [text] && entered.blocks + [Block(s.kind, s.labels, [], [text])] == [Block(s.kind, s.labels, [], [text])];
  }

  lemma TakeClosing(st: State, line: string)
    requires st.depth == 1 && line != "" && line[0] != '}'
    ensures Take(st, line, 0, 1).Ok?
    ensures Take(st, line, 0, 1).value.depth == 0
    ensures Take(st, line, 0, 1).value.blocks == st.blocks + [Block(st.kind, st.labels, st.body, st.direct + [line])]
  {
  }
}
