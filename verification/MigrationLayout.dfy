/**
 * SQL however it is laid out: the normal form of a text depends on its words alone, not on their case, on the
 * white space between them, or on the comments.
 */
module MigrationLayout {
  import opened Casing
  import opened MigrationSql
  import opened Outcomes
  import opened Trimming
  import T = MigrationText

  /** A piece of a text: a word, one white-space character, a comment to the end of its line, or a block comment. */
  datatype Bit = Word(text: string) | White(c: char) | LineComment(text: string) | BlockComment(text: string) {

    /** Words hold no white space and nothing a comment could start with; a comment's text does not end it early. */
    predicate Good() {
      match this
      case Word(text) => text != "" && forall i :: 0 <= i < |text| ==> !Blank(text[i]) && text[i] != '-' && text[i] != '/'
      case White(c) => Blank(c)
      case LineComment(text) => '\n' !in text
      case BlockComment(text) => !Holds(text, '-', '-') && !Holds(text, '*', '/')
    }

    function Text(): string {
      match this
      case Word(text) => text
      case White(c) => [c]
      case LineComment(text) => "--" + text + "\n"
      case BlockComment(text) => "/*" + text + "*/"
    }

    /** What is left once line comments are gone, and then block comments. */
    function Lined(): string {
      if LineComment? then " \n" else Text()
    }

    function Bared(): (r: string)
      ensures !Word? && Good() ==> r != "" && forall i :: 0 <= i < |r| ==> Blank(r[i])
    {
      match this
      case LineComment(_) => " \n"
      case BlockComment(_) => " "
      case _ => Text()
    }
  }

  /** Two characters stand next to each other. */
  predicate Holds(s: string, a: char, b: char) {
    exists i :: 0 <= i < |s| - 1 && s[i] == a && s[i + 1] == b
  }

  function TextOf(bits: seq<Bit>): string {
    if bits == [] then "" else bits[0].Text() + TextOf(bits[1..])
  }

  function LinedText(bits: seq<Bit>): string {
    if bits == [] then "" else bits[0].Lined() + LinedText(bits[1..])
  }

  function BaredText(bits: seq<Bit>): string {
    if bits == [] then "" else bits[0].Bared() + BaredText(bits[1..])
  }

  /** The words of a text, as they are written and in capitals. */
  function WordsOf(bits: seq<Bit>): seq<string> {
    if bits == [] then []
    else (if bits[0].Word? then [bits[0].text] else []) + WordsOf(bits[1..])
  }

  function Capitals(words: seq<string>): (r: seq<string>)
    ensures |r| == |words| && forall i :: 0 <= i < |words| ==> r[i] == Upper(words[i])
  {
    seq(|words|, i requires 0 <= i < |words| => Upper(words[i]))
  }

  /** Good pieces, and something between any two words. */
  ghost predicate LaidOut(bits: seq<Bit>) {
    && (forall i :: 0 <= i < |bits| ==> bits[i].Good())
    && forall i :: 0 <= i < |bits| - 1 ==> !(bits[i].Word? && bits[i + 1].Word?)
  }

  lemma RestIsLaidOut(bits: seq<Bit>)
    requires LaidOut(bits) && bits != []
    ensures LaidOut(bits[1..])
  {
    forall i | 0 <= i < |bits[1..]| - 1
      ensures !(bits[1..][i].Word? && bits[1..][i + 1].Word?)
    {
      assert bits[1..][i] == bits[i + 1] && bits[1..][i + 1] == bits[i + 2];
    }
  }

  lemma HoldsUnfolds(t: string, a: char, b: char)
    requires t != ""
    ensures Holds(t, a, b) <==> (|t| > 1 && t[0] == a && t[1] == b) || Holds(t[1..], a, b)
  {
    if i :| 0 <= i < |t[1..]| - 1 && t[1..][i] == a && t[1..][i + 1] == b {
      assert t[i + 1] == a && t[(i + 1) + 1] == b;
    }
    if i :| 0 < i < |t| - 1 && t[i] == a && t[i + 1] == b {
      assert t[1..][i - 1] == a && t[1..][(i - 1) + 1] == b;
    }
  }

  // ----- line comments ------------------------------------------------------------------------------------------

  lemma {:induction false} NoDashes(t: string, r: string)
    requires !Holds(t, '-', '-') && (t == "" || t[|t| - 1] != '-')
    ensures StripLines(t + r) == t + StripLines(r)
    decreases |t|
  {
    if t == "" {
      assert t + r == r && "" + StripLines(r) == StripLines(r);
    } else {
      var s := t + r;
      assert s[1..] == t[1..] + r && s[0] == t[0];
      assert |s| >= 2 ==> s[..2] == [s[0], s[1]] && s[1] == if |t| > 1 then t[1] else r[0];
      HoldsUnfolds(t, '-', '-');
      LinesUnfold(s);
      NoDashes(t[1..], r);
      Associate([t[0]], t[1..], StripLines(r));
      assert [t[0]] + t[1..] == t;
    }
  }

  lemma {:induction false} LineEnds(text: string, r: string)
    requires '\n' !in text
    ensures AfterLine(text + "\n" + r) == "\n" + r
  {
    if text == "" {
      assert text + "\n" + r == "\n" + r;
    } else {
      assert (text + "\n" + r)[1..] == text[1..] + "\n" + r;
      LineEnds(text[1..], r);
    }
  }

  lemma LineOfBit(b: Bit, r: string)
    requires b.Good()
    ensures StripLines(b.Text() + r) == b.Lined() + StripLines(r)
  {
    match b
    case Word(text) => NoDashes(text, r);
    case White(c) => NoDashes([c], r);
    case LineComment(text) =>
      var s := b.Text() + r;
      assert s[..2] == "--" && s[2..] == text + "\n" + r;
      LineEnds(text, r);
      LinesUnfold(s);
      NoDashes("\n", r);
      hide StripLines;
      assert " " + ("\n" + StripLines(r)) == " \n" + StripLines(r);
    case BlockComment(text) =>
      NoDashesInBlock(text);
      NoDashes(b.Text(), r);
  }

  lemma NoDashesInBlock(text: string)
    ensures Holds("/*" + text + "*/", '-', '-') <==> Holds(text, '-', '-')
  {
    var s := "/*" + text + "*/";
    if i :| 0 <= i < |s| - 1 && s[i] == '-' && s[i + 1] == '-' {
      assert text[i - 2] == '-' && text[(i - 2) + 1] == '-';
    }
    if i :| 0 <= i < |text| - 1 && text[i] == '-' && text[i + 1] == '-' {
      assert s[i + 2] == '-' && s[(i + 2) + 1] == '-';
    }
  }

  lemma {:induction false} LinesOfBits(bits: seq<Bit>)
    requires LaidOut(bits)
    ensures StripLines(TextOf(bits)) == LinedText(bits)
  {
    if bits != [] {
      LineOfBit(bits[0], TextOf(bits[1..]));
      RestIsLaidOut(bits);
      LinesOfBits(bits[1..]);
    }
  }

  // ----- block comments -------------------------------------------------------------------------------------------

  lemma {:induction false} NoSlashes(t: string, r: string)
    requires '/' !in t
    ensures StripBlocks(t + r) == t + StripBlocks(r)
    decreases |t|
  {
    if t == "" {
      assert t + r == r && "" + StripBlocks(r) == StripBlocks(r);
    } else {
      var s := t + r;
      assert s[1..] == t[1..] + r && s[0] == t[0];
      assert |s| >= 2 ==> s[..2][0] == t[0];
      BlocksUnfold(s);
      NoSlashes(t[1..], r);
      Associate([t[0]], t[1..], StripBlocks(r));
      assert [t[0]] + t[1..] == t;
    }
  }

  lemma {:induction false} BlockEnds(text: string, r: string)
    requires !Holds(text, '*', '/')
    ensures AfterClose(text + "*/" + r) == Some(r)
  {
    var s := text + "*/" + r;
    if text == "" {
      assert s[..2] == "*/" && s[2..] == r;
    } else {
      assert s[1..] == text[1..] + "*/" + r;
      assert s[..2] == [s[0], s[1]] && s[0] == text[0] && s[1] == if |text| > 1 then text[1] else '*';
      HoldsUnfolds(text, '*', '/');
      BlockEnds(text[1..], r);
    }
  }

  lemma BlockOfBit(b: Bit, r: string)
    requires b.Good()
    ensures StripBlocks(b.Lined() + r) == b.Bared() + StripBlocks(r)
  {
    match b
    case BlockComment(text) =>
      var s := b.Text() + r;
      assert s[..2] == "/*" && s[2..] == text + "*/" + r;
      BlockEnds(text, r);
      BlocksUnfold(s);
    case _ => NoSlashes(b.Lined(), r);
  }

  lemma {:induction false} BlocksOfBits(bits: seq<Bit>)
    requires LaidOut(bits)
    ensures StripBlocks(LinedText(bits)) == BaredText(bits)
  {
    if bits != [] {
      BlockOfBit(bits[0], LinedText(bits[1..]));
      RestIsLaidOut(bits);
      BlocksOfBits(bits[1..]);
    }
  }

  // ----- white space ------------------------------------------------------------------------------------------------

  function DropGaps(bits: seq<Bit>): (r: seq<Bit>)
    ensures |r| <= |bits| && (r != [] ==> r[0].Word?)
  {
    if bits == [] || bits[0].Word? then bits else DropGaps(bits[1..])
  }

  /** Every gap as one blank. */
  function Flat(bits: seq<Bit>): string
    decreases |bits|
  {
    if bits == [] then ""
    else if bits[0].Word? then bits[0].text + Flat(bits[1..])
    else " " + Flat(DropGaps(bits[1..]))
  }

  lemma {:induction false} GapsDropped(bits: seq<Bit>)
    requires LaidOut(bits)
    ensures DropBlanks(BaredText(bits)) == BaredText(DropGaps(bits)) && LaidOut(DropGaps(bits))
  {
    if bits != [] && !bits[0].Word? {
      RestIsLaidOut(bits);
      GapsDropped(bits[1..]);
      BlanksBefore(bits[0].Bared(), BaredText(bits[1..]));
    }
  }

  lemma {:induction false} WordCollapses(w: string, r: string)
    requires forall i :: 0 <= i < |w| ==> !Blank(w[i])
    ensures Collapse(w + r) == w + Collapse(r)
    decreases |w|
  {
    if w == "" {
      assert w + r == r && "" + Collapse(r) == Collapse(r);
    } else {
      assert (w + r)[1..] == w[1..] + r && (w + r)[0] == w[0];
      CollapseUnfolds(w + r);
      WordCollapses(w[1..], r);
      hide Collapse;
      Associate([w[0]], w[1..], Collapse(r));
      assert [w[0]] + w[1..] == w;
    }
  }

  lemma {:induction false} CollapseOfBits(bits: seq<Bit>)
    requires LaidOut(bits)
    ensures Collapse(BaredText(bits)) == Flat(bits)
    decreases |bits|
  {
    if bits != [] {
      RestIsLaidOut(bits);
      if bits[0].Word? {
        WordCollapses(bits[0].text, BaredText(bits[1..]));
        CollapseOfBits(bits[1..]);
      } else {
        var text := BaredText(bits);
        GapsDropped(bits);
        CollapseUnfolds(text);
        CollapseOfBits(DropGaps(bits[1..]));
      }
    }
  }

  // ----- the words alone ---------------------------------------------------------------------------------------------

  lemma {:induction false} GapsHaveNoWords(bits: seq<Bit>)
    ensures WordsOf(DropGaps(bits)) == WordsOf(bits) && (DropGaps(bits) == [] <==> WordsOf(bits) == [])
    ensures DropGaps(bits) != [] ==> DropGaps(bits)[|DropGaps(bits)| - 1] == bits[|bits| - 1]
  {
    if bits != [] && !bits[0].Word? {
      GapsHaveNoWords(bits[1..]);
    }
  }

  predicate Solid(w: string) {
    w != "" && forall i :: 0 <= i < |w| ==> !Blank(w[i])
  }

  lemma {:induction false} WordsAreSolid(bits: seq<Bit>)
    requires LaidOut(bits)
    ensures forall i :: 0 <= i < |WordsOf(bits)| ==> Solid(WordsOf(bits)[i])
  {
    if bits != [] {
      RestIsLaidOut(bits);
      WordsAreSolid(bits[1..]);
    }
  }

  lemma {:induction false} JoinIsSolid(words: seq<string>)
    requires words != [] && forall i :: 0 <= i < |words| ==> Solid(words[i])
    ensures var j := T.Join(" ", words); j != "" && !Blank(j[0]) && !Blank(j[|j| - 1])
  {
    if |words| > 1 {
      JoinIsSolid(words[1..]);
    }
  }

  lemma JoinOfMore(word: string, rest: seq<string>)
    requires rest != []
    ensures T.Join(" ", [word] + rest) == word + " " + T.Join(" ", rest)
  {
    assert ([word] + rest)[1..] == rest;
  }

  function Trail(bits: seq<Bit>): string
    requires bits != []
  {
    if bits[|bits| - 1].Word? then "" else " "
  }

  lemma FirstWord(bits: seq<Bit>)
    requires bits != [] && bits[0].Word?
    ensures WordsOf(bits) == [bits[0].text] + WordsOf(bits[1..])
  {
  }

  lemma JoinOfOne(word: string)
    ensures T.Join(" ", [word]) == word
  {
  }

  lemma GapAfterWord(bits: seq<Bit>)
    requires LaidOut(bits) && |bits| > 1 && bits[0].Word?
    ensures !bits[1].Word? && LaidOut(bits[1..]) && LaidOut(DropGaps(bits[1..]))
    ensures DropGaps(bits[1..]) == DropGaps(bits[2..])
  {
    RestIsLaidOut(bits);
    GapsDropped(bits[1..]);
    assert bits[1..][1..] == bits[2..];
  }

  lemma {:induction false} FlatFromWord(bits: seq<Bit>)
    requires LaidOut(bits) && bits != [] && bits[0].Word?
    ensures Flat(bits) == T.Join(" ", WordsOf(bits)) + Trail(bits)
    decreases |bits|
  {
    hide *;
    var word, rest := bits[0].text, bits[1..];
    FirstWord(bits);
    FlatUnfolds(bits);
    JoinOfOne(word);
    if rest == [] {
      NothingIsFlat();
      assert [word] + [] == [word] && word + "" == word;
      TrailIs(bits);
    } else {
      GapAfterWord(bits);
      assert rest[1..] == bits[2..] && rest[0] == bits[1];
      FlatUnfolds(rest);
      GapsHaveNoWords(rest);
      TrailIs(bits);
      var tail := DropGaps(rest);
      if tail == [] {
        NothingIsFlat();
        NoWordsAtEnd(rest);
        assert [word] + [] == [word] && " " + "" == " ";
      } else {
        FlatFromWord(tail);
        JoinOfMore(word, WordsOf(tail));
        TrailIs(tail);
        assert word + (" " + (T.Join(" ", WordsOf(tail)) + Trail(tail)))
            == word + " " + T.Join(" ", WordsOf(tail)) + Trail(tail);
      }
    }
  }

  lemma NothingIsFlat()
    ensures Flat([]) == "" && WordsOf([]) == []
  {
  }

  lemma TrailIs(bits: seq<Bit>)
    requires bits != []
    ensures Trail(bits) == if bits[|bits| - 1].Word? then "" else " "
  {
  }

  lemma FlatUnfolds(bits: seq<Bit>)
    requires bits != []
    ensures Flat(bits) == if bits[0].Word? then bits[0].text + Flat(bits[1..]) else " " + Flat(DropGaps(bits[1..]))
  {
  }

  lemma {:induction false} NoWordsAtEnd(bits: seq<Bit>)
    requires WordsOf(bits) == [] && bits != []
    ensures !bits[|bits| - 1].Word?
  {
    if |bits| > 1 {
      NoWordsAtEnd(bits[1..]);
    }
  }

  lemma EndIsTrimmed(j: string, trail: string)
    requires j != "" && !Blank(j[|j| - 1]) && (trail == "" || trail == " ")
    ensures DropLastBlanks(j + trail) == j
  {
    BlankIsBlank();
    if trail == " " {
      assert (j + trail)[..|j + trail| - 1] == j && (j + trail)[|j + trail| - 1] == ' ';
    } else {
      assert j + trail == j;
    }
  }

  lemma StartIsTrimmed(lead: string, more: string)
    requires more != "" && !Blank(more[0]) && (lead == "" || lead == " ")
    ensures DropBlanks(lead + more) == more
  {
    BlankIsBlank();
    if lead == " " {
      assert (lead + more)[0] == ' ' && (lead + more)[1..] == more;
    } else {
      assert lead + more == more;
    }
  }

  lemma PaddedStripsToItself(lead: string, j: string, trail: string)
    requires j != "" && !Blank(j[0]) && !Blank(j[|j| - 1]) && (lead == "" || lead == " ") && (trail == "" || trail == " ")
    ensures Strip(lead + j + trail) == j
  {
    hide Blank, DropBlanks, DropLastBlanks;
    assert lead + j + trail == lead + (j + trail) && (j + trail)[0] == j[0];
    StartIsTrimmed(lead, j + trail);
    EndIsTrimmed(j, trail);
  }

  lemma BlankIsBlank()
    ensures Blank(' ')
  {
  }

  lemma FlatStrips(bits: seq<Bit>)
    requires LaidOut(bits)
    ensures Strip(Flat(bits)) == T.Join(" ", WordsOf(bits))
  {
    hide *;
    var kept := DropGaps(bits);
    GapsHaveNoWords(bits);
    GapsDropped(bits);
    if kept == [] {
      NothingButGaps(bits);
      JoinOfNone();
    } else {
      FlatFromWord(kept);
      WordsAreSolid(bits);
      JoinIsSolid(WordsOf(bits));
      TrailIs(kept);
      var j := T.Join(" ", WordsOf(bits));
      var lead := FlatFromStart(bits);
      assert lead + (j + Trail(kept)) == lead + j + Trail(kept);
      PaddedStripsToItself(lead, j, Trail(kept));
    }
  }

  lemma JoinOfNone()
    ensures T.Join(" ", []) == ""
  {
  }

  lemma FlatFromStart(bits: seq<Bit>) returns (lead: string)
    requires DropGaps(bits) != []
    ensures Flat(bits) == lead + Flat(DropGaps(bits)) && (lead == "" || lead == " ")
  {
    hide Flat;
    FlatUnfolds(bits);
    assert !bits[0].Word? ==> DropGaps(bits) == DropGaps(bits[1..]);
    lead := if bits[0].Word? then "" else " ";
    assert "" + Flat(bits) == Flat(bits);
  }

  lemma NothingButGaps(bits: seq<Bit>)
    requires DropGaps(bits) == []
    ensures Strip(Flat(bits)) == "" && WordsOf(bits) == []
  {
    GapsHaveNoWords(bits);
    NothingIsFlat();
    if bits != [] {
      FlatUnfolds(bits);
      hide Flat;
      assert DropGaps(bits[1..]) == [] && " " + "" == " ";
      assert Strip(" ") == "" by {
        assert " "[1..] == "";
      }
    }
  }

  lemma {:induction false} UpperOfJoin(words: seq<string>)
    ensures Upper(T.Join(" ", words)) == T.Join(" ", Capitals(words))
  {
    if |words| > 1 {
      UpperOfJoin(words[1..]);
      assert Capitals(words)[1..] == Capitals(words[1..]);
      assert Upper(words[0] + " " + T.Join(" ", words[1..])) == Upper(words[0]) + " " + Upper(T.Join(" ", words[1..]));
    }
  }

  /** However a text is laid out, its normal form is its words in capitals, one blank between them. */
  lemma LayoutDoesNotMatter(bits: seq<Bit>)
    requires LaidOut(bits)
    ensures Normalized(TextOf(bits)) == T.Join(" ", Capitals(WordsOf(bits)))
  {
    LinesOfBits(bits);
    BlocksOfBits(bits);
    CollapseOfBits(bits);
    FlatStrips(bits);
    UpperOfJoin(WordsOf(bits));
    hide TextOf, LinedText, BaredText, Flat, WordsOf, Capitals, StripLines, StripBlocks, Collapse, Strip, Upper, T.Join;
  }
}
