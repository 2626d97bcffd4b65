/** Python's `splitlines`, and the texts that lines spell when they are joined again. */
module Lines {
  import opened Trimming

  /** The characters that end a line; every one of them is blank. */
  predicate Separator(c: char) {
    10 <= c as int <= 13 || 28 <= c as int <= 30 || c as int == 0x85 || c as int == 0x2028 || c as int == 0x2029
  }

  predicate OneLine(s: string) {
    forall i :: 0 <= i < |s| ==> !Separator(s[i])
  }

  ghost predicate AllOneLine(lines: seq<string>) {
    forall line :: line in lines ==> OneLine(line)
  }

  function LineEnd(s: string): (n: nat)
    ensures n <= |s| && OneLine(s[..n])
    ensures n < |s| ==> Separator(s[n])
  {
    if s == "" || Separator(s[0]) then 0 else 1 + LineEnd(s[1..])
  }

  /** What follows the end of the first line; a carriage return takes a newline with it. */
  function AfterLineEnd(s: string): (rest: string)
    requires LineEnd(s) < |s|
    ensures |rest| < |s|
  {
    var n := LineEnd(s);
    if s[n] == '\r' && n + 1 < |s| && s[n + 1] == '\n' then s[n + 2..] else s[n + 1..]
  }

  /** A separator ends a line, so a text that ends with one has no empty last line. */
  function SplitLines(s: string): seq<string>
    decreases |s|
  {
    if s == "" then []
    else if LineEnd(s) == |s| then [s]
    else [s[..LineEnd(s)]] + SplitLines(AfterLineEnd(s))
  }

  /** `"\n".join(lines)`. */
  function Joined(lines: seq<string>): string {
    if lines == [] then ""
    else if |lines| == 1 then lines[0]
    else lines[0] + "\n" + Joined(lines[1..])
  }

  /** Lines as reading their join gives them back: an empty last line is not seen. */
  function Closed(lines: seq<string>): seq<string> {
    if lines != [] && lines[|lines| - 1] == "" then lines[..|lines| - 1] else lines
  }

  lemma {:induction false} LineEndsAt(line: string, rest: string)
    requires OneLine(line) && (rest == "" || Separator(rest[0]))
    ensures LineEnd(line + rest) == |line|
  {
    if line == "" {
      assert line + rest == rest;
    } else {
      assert (line + rest)[1..] == line[1..] + rest;
      LineEndsAt(line[1..], rest);
    }
  }

  lemma LineThenMore(line: string, rest: string)
    requires OneLine(line)
    ensures SplitLines(line + "\n" + rest) == [line] + SplitLines(rest)
  {
    var text := line + "\n" + rest;
    var tail := "\n" + rest;
    assert text == line + tail;
    LineEndsAt(line, tail);
    assert text[|line|] == '\n' && text[..|line|] == line && text[|line| + 1..] == rest;
  }

  /** Splitting undoes joining, but for an empty last line. */
  lemma {:induction false} SplitOfJoined(lines: seq<string>)
    requires AllOneLine(lines)
    ensures SplitLines(Joined(lines)) == Closed(lines)
  {
    hide OneLine, SplitLines;
    if |lines| == 1 {
      assert lines[0] in lines && lines == [lines[0]];
      SplitOfOne(lines[0]);
    } else if |lines| > 1 {
      assert lines[0] in lines;
      SplitOfJoined(lines[1..]);
      hide Joined, Closed;
      JoinedUnfolds(lines);
      ClosedUnfolds(lines);
      LineThenMore(lines[0], Joined(lines[1..]));
    } else {
      NothingToSplit();
    }
  }

  lemma NothingToSplit()
    ensures SplitLines("") == []
  {
  }

  lemma JoinedUnfolds(lines: seq<string>)
    requires |lines| > 1
    ensures Joined(lines) == lines[0] + "\n" + Joined(lines[1..])
  {
  }

  lemma ClosedUnfolds(lines: seq<string>)
    requires |lines| > 1
    ensures Closed(lines) == [lines[0]] + Closed(lines[1..])
  {
    hide Joined;
  }

  lemma SplitOfOne(line: string)
    requires OneLine(line)
    ensures SplitLines(line) == Closed([line])
  {
    LineEndsAt(line, "");
    assert line + "" == line;
  }

  lemma {:induction false} SplitGivesLines(s: string)
    ensures AllOneLine(SplitLines(s))
    decreases |s|
  {
    if s != "" && LineEnd(s) < |s| {
      SplitGivesLines(AfterLineEnd(s));
    } else if s != "" {
      assert s[..|s|] == s;
    }
  }

  /** Every separator is white space, so trimming can only take separators away at the ends. */
  lemma SeparatorsAreBlank(c: char)
    requires Separator(c)
    ensures Blank(c)
  {
  }

  /** The only separators of a join of lines are the newlines it was joined with. */
  predicate NewlinesOnly(s: string) {
    forall i :: 0 <= i < |s| ==> Separator(s[i]) ==> s[i] == '\n'
  }

  lemma {:induction false} JoinHasNewlinesOnly(lines: seq<string>)
    requires AllOneLine(lines)
    ensures NewlinesOnly(Joined(lines))
  {
    if |lines| == 1 {
      assert lines[0] in lines;
    } else if |lines| > 1 {
      assert lines[0] in lines;
      JoinHasNewlinesOnly(lines[1..]);
    }
  }

  /** What Python's `splitlines` cuts at. */
  predicate LineBreak(c: char) {
    || c == '\n' || c == '\r' || c as int == 11 || c as int == 12 || c as int == 28 || c as int == 29 || c as int == 30
    || c as int == 0x85 || c as int == 0x2028 || c as int == 0x2029
  }

  /** A text is cut at each of them and nowhere else; a carriage return and a line feed are one break. */
  lemma LinesAreCutExactly(line: string, c: char, rest: string)
    requires (forall i :: 0 <= i < |line| ==> !LineBreak(line[i])) && LineBreak(c)
    ensures SplitLines(line + [c] + rest)
            == [line] + SplitLines(if c == '\r' && rest != "" && rest[0] == '\n' then rest[1..] else rest)
    ensures SplitLines(line) == if line == "" then [] else [line]
  {
    var text, tail := line + [c] + rest, [c] + rest;
    assert text == line + tail;
    assert OneLine(line) && Separator(c);
    LineEndsAt(line, tail);
    LineEndsAt(line, "");
    assert line + "" == line;
    assert text[|line|] == c && text[..|line|] == line && text[|line| + 1..] == rest;
    assert rest != "" ==> text[|line| + 1] == rest[0] && text[|line| + 2..] == rest[1..];
    hide LineEnd, OneLine, Separator, LineBreak;
  }
}
