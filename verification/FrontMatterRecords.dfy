/** Records of the front matter as texts: what can be written, and that it reads back. */
module FrontMatterRecords {
  import opened FrontMatter
  import opened Lines
  import opened Outcomes
  import opened Trimming

  // ----- writing a record --------------------------------------------------------------------------------------

  /** What a key can be: trimmed, on one line, without a colon, and not taken for an item. */
  predicate GoodKey(key: string) {
    Trimmed(key) && OneLine(key) && ':' !in key && !("- " <= key)
  }

  predicate GoodText(text: string) {
    Trimmed(text) && OneLine(text)
  }

  predicate GoodField(f: Field) {
    && GoodKey(f.key)
    && match f.value
       case Scalar(text) => text != "" && GoodText(text)
       case List(items) => forall item :: item in items ==> GoodText(item)
  }

  /** The body may have line breaks, as `splitlines` and a join leave them. */
  ghost predicate Writable(r: Record) {
    DistinctKeys(r.fields) && (forall f :: f in r.fields ==> GoodField(f)) && Trimmed(r.body) && NewlinesOnly(r.body)
  }

  function ItemLines(items: seq<string>): (r: seq<string>)
    ensures |r| == |items| && forall i :: 0 <= i < |items| ==> r[i] == "  - " + items[i]
  {
    seq(|items|, i requires 0 <= i < |items| => "  - " + items[i])
  }

  function FieldLines(f: Field): seq<string> {
    match f.value
    case Scalar(text) => [f.key + ": " + text]
    case List(items) => [f.key + ":"] + ItemLines(items)
  }

  function AllFieldLines(fields: seq<Field>): seq<string> {
    if fields == [] then [] else FieldLines(fields[0]) + AllFieldLines(fields[1..])
  }

  function NewlineAt(s: string): (n: nat)
    ensures n <= |s| && (n < |s| ==> s[n] == '\n')
  {
    if s == "" || s[0] == '\n' then 0 else 1 + NewlineAt(s[1..])
  }

  /** A text as its lines. */
  function TextLines(text: string): seq<string>
    decreases |text|
  {
    var end := NewlineAt(text);
    if end == |text| then [text] else [text[..end]] + TextLines(text[end + 1..])
  }

  /** The text of a record. */
  function Written(r: Record): string {
    Joined([FENCE] + AllFieldLines(r.fields) + [FENCE] + TextLines(r.body))
  }

  // ----- reading a written record ---------------------------------------------------------------------------------

  lemma JoinedUnfolds(line: string, rest: seq<string>)
    requires rest != []
    ensures Joined([line] + rest) == line + "\n" + Joined(rest)
  {
    assert ([line] + rest)[1..] == rest;
  }

  lemma TextLinesUnfold(text: string)
    ensures var end := NewlineAt(text);
            TextLines(text) == if end == |text| then [text] else [text[..end]] + TextLines(text[end + 1..])
    ensures TextLines(text) != []
  {
    hide NewlineAt;
  }

  lemma JoinedAlone(line: string)
    ensures Joined([line]) == line
  {
  }

  lemma {:induction false} LinesJoin(text: string)
    ensures Joined(TextLines(text)) == text
    decreases |text|
  {
    hide Joined, TextLines;
    var end := NewlineAt(text);
    TextLinesUnfold(text);
    hide NewlineAt;
    if end == |text| {
      JoinedAlone(text);
    } else {
      var rest := text[end + 1..];
      TextLinesUnfold(rest);
      JoinedUnfolds(text[..end], TextLines(rest));
      LinesJoin(rest);
      assert text == text[..end] + "\n" + rest;
    }
  }

  lemma {:induction false} ColonAfter(key: string, rest: string)
    requires ':' !in key
    ensures ColonAt(key + ":" + rest) == |key|
  {
    if key == "" {
      assert key + ":" + rest == ":" + rest;
    } else {
      assert (key + ":" + rest)[1..] == key[1..] + ":" + rest;
      ColonAfter(key[1..], rest);
    }
  }

  lemma SolidIsKept(raw: string)
    requires raw != "" && !Blank(raw[0])
    ensures DropBlanks(raw) == raw && Strip(raw) != ""
  {
    DropLastKeepsSolid(raw[..1], raw[1..]);
    assert raw[..1] + raw[1..] == raw;
  }

  lemma KeyLineStarts(key: string, rest: string)
    requires GoodKey(key)
    ensures var raw := key + ":" + rest; !Blank(raw[0]) && !("- " <= raw) && raw[|key|] == ':'
  {
    var raw := key + ":" + rest;
    assert raw[0] == if key == "" then ':' else key[0];
    assert |key| == 1 ==> raw[1] == ':';
    assert |key| >= 2 ==> raw[0] == key[0] && raw[1] == key[1];
  }

  lemma NoFenceWithColon(raw: string, i: nat)
    requires i < |raw| && raw[i] == ':' && !Blank(raw[0])
    ensures Strip(raw) != FENCE
  {
    SolidIsKept(raw);
    hide DropBlanks, DropLastBlanks;
    var stripped := DropLastBlanks(raw);
    assert i < |stripped| ==> stripped[i] == raw[i];
    if |stripped| <= i {
      TailIsBlank(raw, i);
    }
  }

  lemma PaddedStrips(pad: string, text: string)
    requires Trimmed(text) && (pad == " " || pad == "")
    ensures Strip(pad + text) == text
  {
    TrimmedStays(text);
    BlanksBefore(pad, text);
  }

  lemma KeyLineReads(key: string, pad: string, text: string)
    requires GoodKey(key) && Trimmed(text) && (pad == " " || pad == "")
    ensures var raw := key + ":" + (pad + text); Read(raw) == Opening(key, text) && Strip(raw) != FENCE
  {
    hide Strip, DropBlanks, ColonAt, Trimmed;
    var raw := key + ":" + (pad + text);
    KeyLineStarts(key, pad + text);
    hide GoodKey;
    SolidIsKept(raw);
    NoFenceWithColon(raw, |key|);
    ColonAfter(key, pad + text);
    TrimmedStays(key);
    PaddedStrips(pad, text);
    assert raw[..|key|] == key && raw[|key| + 1..] == pad + text;
  }

  /** What is stripped from the end is blank. */
  lemma {:induction false} TailIsBlank(raw: string, i: nat)
    requires |DropLastBlanks(raw)| <= i < |raw|
    ensures Blank(raw[i])
    decreases |raw|
  {
    if i < |raw| - 1 {
      TailIsBlank(raw[..|raw| - 1], i);
    }
  }

  lemma ItemLineReads(item: string)
    requires Trimmed(item)
    ensures var raw := "  - " + item; Read(raw) == Item(item) && Strip(raw) != FENCE
  {
    var raw := "  - " + item;
    var solid := "- " + item;
    assert raw == "  " + solid;
    BlanksBefore("  ", solid);
    SolidIsKept(solid);
    assert solid[2..] == item;
    TrimmedStays(item);
    assert solid[1] == ' ';
  }

  lemma {:induction false} ItemsGroup(items: seq<string>, rest: seq<Line>)
    ensures var lines := Items(items) + rest;
            && Grouped(lines) == (items + Grouped(rest).0, Grouped(rest).1)
            && (Proper(rest) ==> Proper(lines))
  {
    var lines := Items(items) + rest;
    if items == [] {
      assert lines == rest && items + Grouped(rest).0 == Grouped(rest).0;
    } else {
      assert lines[1..] == Items(items[1..]) + rest;
      ItemsGroup(items[1..], rest);
      Associate([items[0]], items[1..], Grouped(rest).0);
      assert [items[0]] + items[1..] == items;
      ProperTail(lines);
    }
  }

  lemma ScalarLineReads(key: string, text: string)
    requires GoodKey(key) && Trimmed(text)
    ensures Read(key + ": " + text) == Opening(key, text) && Strip(key + ": " + text) != FENCE
  {
    hide Read, Strip, GoodKey, Trimmed;
    KeyLineReads(key, " ", text);
    Associate(key + ":", " ", text);
    assert key + ":" + " " == key + ": ";
  }

  lemma ListLineReads(key: string)
    requires GoodKey(key)
    ensures Read(key + ":") == Opening(key, "") && Strip(key + ":") != FENCE
  {
    hide Read, Strip, GoodKey;
    KeyLineReads(key, "", "");
    assert key + ":" + ("" + "") == key + ":";
  }

  function Items(items: seq<string>): (r: seq<Line>)
    ensures |r| == |items| && forall i :: 0 <= i < |items| ==> r[i] == Item(items[i])
  {
    seq(|items|, i requires 0 <= i < |items| => Item(items[i]))
  }

  lemma ItemLinesRead(items: seq<string>)
    requires forall item :: item in items ==> GoodText(item)
    ensures ReadAll(ItemLines(items)) == Items(items)
    ensures forall line :: line in ItemLines(items) ==> Strip(line) != FENCE
  {
    forall i | 0 <= i < |items|
      ensures Read("  - " + items[i]) == Item(items[i]) && Strip("  - " + items[i]) != FENCE
    {
      assert items[i] in items;
      ItemLineReads(items[i]);
    }
    hide Read, Strip;
  }

  lemma ReadBoth(a: seq<string>, b: seq<string>)
    ensures ReadAll(a + b) == ReadAll(a) + ReadAll(b)
  {
    hide Read;
  }

  function FieldRead(f: Field): seq<Line> {
    match f.value
    case Scalar(text) => [Opening(f.key, text)]
    case List(items) => [Opening(f.key, "")] + Items(items)
  }

  lemma FieldLinesRead(f: Field)
    requires GoodField(f)
    ensures ReadAll(FieldLines(f)) == FieldRead(f)
    ensures forall line :: line in FieldLines(f) ==> Strip(line) != FENCE
  {
    hide Read, Strip, GoodKey, OneLine, Trimmed;
    match f.value
    case Scalar(text) =>
      ScalarLineReads(f.key, text);
    case List(items) =>
      ListLineReads(f.key);
      ItemLinesRead(items);
      ReadBoth([f.key + ":"], ItemLines(items));
      assert ReadAll([f.key + ":"]) == [Opening(f.key, "")];
  }

  lemma OpeningGroups(key: string, value: string, rest: seq<Line>)
    ensures var lines := [Opening(key, value)] + rest;
            && Grouped(lines) == ([], [Opened(key, value, Grouped(rest).0)] + Grouped(rest).1)
            && (Proper(lines) <==> Proper(rest) && (value != "" ==> Grouped(rest).0 == []))
  {
    var lines := [Opening(key, value)] + rest;
    assert lines[1..] == rest;
    ProperTail(lines);
    hide Proper, Opened;
  }

  lemma FieldGroups(f: Field, rest: seq<Line>)
    requires GoodField(f) && Grouped(rest).0 == [] && Proper(rest)
    ensures Grouped(FieldRead(f) + rest) == ([], [f] + Grouped(rest).1) && Proper(FieldRead(f) + rest)
  {
    hide GoodKey, GoodText, Proper, Grouped, Items;
    match f.value
    case Scalar(text) =>
      OpeningGroups(f.key, text, rest);
    case List(items) =>
      Associate([Opening(f.key, "")], Items(items), rest);
      ItemsGroup(items, rest);
      OpeningGroups(f.key, "", Items(items) + rest);
      assert items + [] == items;
  }

  lemma {:induction false} WrittenFieldsGroup(fields: seq<Field>)
    requires forall f :: f in fields ==> GoodField(f)
    ensures var read := ReadAll(AllFieldLines(fields)); Grouped(read) == ([], fields) && Proper(read)
    ensures forall line :: line in AllFieldLines(fields) ==> Strip(line) != FENCE
  {
    hide GoodField, Strip, Read, Proper;
    if fields == [] {
      assert Proper([]) by {
        NothingIsProper();
      }
    } else {
      var f, rest := fields[0], fields[1..];
      FieldLinesRead(f);
      WrittenFieldsGroup(rest);
      ReadBoth(FieldLines(f), AllFieldLines(rest));
      FieldGroups(f, ReadAll(AllFieldLines(rest)));
      assert fields == [f] + rest;
    }
  }

  lemma NothingIsProper()
    ensures Proper([])
  {
  }

  lemma FenceAfter(fields: seq<string>, text: seq<string>)
    requires forall line :: line in fields ==> Strip(line) != FENCE
    ensures var lines := [FENCE] + fields + [FENCE] + text;
            && FenceFrom(lines, 1) == Some(1 + |fields|)
            && lines[1..1 + |fields|] == fields && lines[1 + |fields| + 1..] == text
  {
    TrimmedStays(FENCE);
    hide Strip;
    var lines, closing := [FENCE] + fields + [FENCE] + text, 1 + |fields|;
    assert lines[closing] == FENCE;
    forall i | 1 <= i < closing
      ensures Strip(lines[i]) != FENCE
    {
      assert lines[i] == fields[i - 1];
    }
  }

  lemma ReadsBetweenFences(fields: seq<string>, text: seq<string>, read: seq<Field>)
    requires forall line :: line in fields ==> Strip(line) != FENCE
    requires TakenAll([], fields) == Ok(read)
    ensures Parsed([FENCE] + fields + [FENCE] + text) == Ok(Record(read, Strip(Joined(text))))
  {
    TrimmedStays(FENCE);
    FenceAfter(fields, text);
    hide FENCE, Strip, TakenAll, Joined, FenceFrom;
    assert ([FENCE] + fields + [FENCE] + text)[0] == FENCE;
  }

  lemma WrittenLinesReadBack(r: Record, text: seq<string>)
    requires Writable(r) && Strip(Joined(text)) == r.body
    ensures Parsed([FENCE] + AllFieldLines(r.fields) + [FENCE] + text) == Ok(r)
  {
    hide FENCE, Strip, Grouped, Proper, ReadAll, TakenAll, AllFieldLines, Joined, Parsed, Trimmed, GoodField, NewlinesOnly;
    WrittenFieldsGroup(r.fields);
    AcceptedExactly(AllFieldLines(r.fields));
    ReadsBetweenFences(AllFieldLines(r.fields), text, r.fields);
  }

  // ----- lines of a written text -----------------------------------------------------------------------------------

  lemma PiecesAreOneLine(a: string, b: string, c: string)
    requires OneLine(a) && OneLine(b) && OneLine(c)
    ensures OneLine(a + b + c)
  {
  }

  lemma MarksAreOneLine()
    ensures OneLine(FENCE) && OneLine(": ") && OneLine(":") && OneLine("  - ") && OneLine("")
  {
  }

  lemma FieldLinesAreOneLine(f: Field)
    requires GoodField(f)
    ensures AllOneLine(FieldLines(f))
  {
    MarksAreOneLine();
    hide OneLine, Trimmed;
    match f.value
    case Scalar(text) =>
      PiecesAreOneLine(f.key, ": ", text);
    case List(items) =>
      PiecesAreOneLine(f.key, ":", "");
      assert f.key + ":" + "" == f.key + ":";
      forall i | 0 <= i < |items|
        ensures OneLine("  - " + items[i])
      {
        assert items[i] in items;
        PiecesAreOneLine("  - ", items[i], "");
        assert "  - " + items[i] + "" == "  - " + items[i];
      }
  }

  lemma {:induction false} AllFieldLinesAreOneLine(fields: seq<Field>)
    requires forall f :: f in fields ==> GoodField(f)
    ensures AllOneLine(AllFieldLines(fields))
  {
    hide OneLine, GoodField, FieldLines;
    if fields != [] {
      assert fields[0] in fields;
      FieldLinesAreOneLine(fields[0]);
      AllFieldLinesAreOneLine(fields[1..]);
    }
  }

  lemma {:induction false} TextLinesAreOneLine(text: string)
    requires NewlinesOnly(text)
    ensures AllOneLine(TextLines(text)) && TextLines(text) != []
    ensures text != "" && text[|text| - 1] != '\n' ==> TextLines(text)[|TextLines(text)| - 1] != ""
    decreases |text|
  {
    var end := NewlineAt(text);
    NothingBeforeNewline(text);
    if end < |text| {
      TextLinesAreOneLine(text[end + 1..]);
    } else {
      assert text[..end] == text;
    }
  }

  lemma {:induction false} NothingBeforeNewline(text: string)
    requires NewlinesOnly(text)
    ensures OneLine(text[..NewlineAt(text)])
  {
    if text != "" && text[0] != '\n' {
      NothingBeforeNewline(text[1..]);
      var n := NewlineAt(text);
      assert text[..n][1..] == text[1..][..n - 1];
    }
  }

  /** Lines between fences, joined and split again, but for an empty last line. */
  lemma FencedLinesSplit(fields: seq<string>, text: seq<string>)
    requires AllOneLine(fields) && AllOneLine(text) && text != []
    ensures SplitLines(Joined([FENCE] + fields + [FENCE] + text)) == [FENCE] + fields + [FENCE] + Closed(text)
  {
    MarksAreOneLine();
    hide OneLine, SplitLines, Joined;
    var lines := [FENCE] + fields + [FENCE] + text;
    assert AllOneLine(lines);
    SplitOfJoined(lines);
    assert lines[|lines| - 1] == text[|text| - 1];
  }

  /** The written text, split again: the lines it was written as, but for the empty line of an empty body. */
  lemma WrittenTextSplits(r: Record)
    requires Writable(r)
    ensures SplitLines(Written(r)) == [FENCE] + AllFieldLines(r.fields) + [FENCE] + if r.body == "" then [] else TextLines(r.body)
  {
    AllFieldLinesAreOneLine(r.fields);
    TextLinesAreOneLine(r.body);
    if r.body != "" {
      SeparatorsAreBlank('\n');
    } else {
      assert TextLines(r.body) == [""];
    }
    hide OneLine, AllFieldLines, TextLines, SplitLines, Joined, GoodField, Trimmed, NewlinesOnly, DistinctKeys;
    FencedLinesSplit(AllFieldLines(r.fields), TextLines(r.body));
  }

  /**
   * A written record reads back from its text: the same fields in the same order, lists and empty
   * lists, and the body.
   */
  lemma WrittenRecordReadsBack(r: Record)
    requires Writable(r)
    ensures ParsedText(Written(r)) == Ok(r)
  {
    WrittenTextSplits(r);
    TrimmedStays(r.body);
    LinesJoin(r.body);
    assert Joined([]) == "" && Strip("") == "";
    hide Strip, AllFieldLines, TextLines, SplitLines, Joined, Parsed, Writable, Written;
    WrittenLinesReadBack(r, if r.body == "" then [] else TextLines(r.body));
  }

  // ----- every accepted record can be written ------------------------------------------------------------------------

  lemma {:induction false} StripKeepsMembers(s: string)
    ensures forall c :: c in Strip(s) ==> c in s
  {
    var front := DropBlanks(s);
    DropKeepsMembers(s);
    assert DropLastBlanks(front) == front[..|DropLastBlanks(front)|];
  }

  lemma {:induction false} DropKeepsMembers(s: string)
    ensures forall c :: c in DropBlanks(s) ==> c in s
  {
    if s != "" && Blank(s[0]) {
      DropKeepsMembers(s[1..]);
    }
  }

  lemma OneLineByMembers(part: string, whole: string)
    requires OneLine(whole) && forall c :: c in part ==> c in whole
    ensures OneLine(part)
  {
    forall i | 0 <= i < |part|
      ensures !Separator(part[i])
    {
      assert part[i] in part;
    }
  }

  lemma NewlinesByMembers(part: string, whole: string)
    requires NewlinesOnly(whole) && forall c :: c in part ==> c in whole
    ensures NewlinesOnly(part)
  {
    forall i | 0 <= i < |part| && Separator(part[i])
      ensures part[i] == '\n'
    {
      assert part[i] in part;
    }
  }

  lemma StripIsGood(part: string, whole: string)
    requires OneLine(whole) && forall c :: c in part ==> c in whole
    ensures GoodText(Strip(part))
  {
    StripTrims(part);
    StripKeepsMembers(part);
    OneLineByMembers(Strip(part), whole);
  }

  lemma ReadIsGood(raw: string)
    requires OneLine(raw)
    ensures Read(raw).Opening? ==> GoodKey(Read(raw).key) && GoodText(Read(raw).value)
    ensures Read(raw).Item? ==> GoodText(Read(raw).text)
  {
    hide Strip, DropBlanks, ColonAt, OneLine, Trimmed, Blank;
    match Read(raw)
    case Item(text) =>
      DropKeepsMembers(raw);
      StripIsGood(DropBlanks(raw)[2..], raw);
    case Opening(key, value) =>
      var front := raw[..ColonAt(raw)];
      StripIsGood(front, raw);
      StripIsGood(raw[ColonAt(raw) + 1..], raw);
      StripKeepsMembers(front);
      if "- " <= key {
        StripIsPrefix(raw);
        StripIsPrefix(front);
      }
    case _ =>
  }

  lemma StripIsPrefix(s: string)
    requires s == "" || !Blank(s[0])
    ensures Strip(s) <= s && DropBlanks(s) == s
  {
  }

  lemma {:induction false} GroupedIsGood(lines: seq<string>)
    requires AllOneLine(lines)
    ensures var (items, fields) := Grouped(ReadAll(lines));
            && (forall item :: item in items ==> GoodText(item))
            && (Proper(ReadAll(lines)) ==> forall f :: f in fields ==> GoodField(f))
  {
    hide Read, GoodKey, GoodText, OneLine;
    if lines != [] {
      var read := ReadAll(lines);
      assert read[1..] == ReadAll(lines[1..]) && lines[0] in lines;
      ReadIsGood(lines[0]);
      GroupedIsGood(lines[1..]);
      ProperTail(read);
      hide Proper;
    }
  }

  lemma AcceptedLinesAreGood(lines: seq<string>)
    requires AllOneLine(lines) && Parsed(lines).Ok?
    ensures Writable(Parsed(lines).value)
  {
    hide Strip, Grouped, Proper, ReadAll, TakenAll, Joined, GoodField, Trimmed, DistinctKeys, OneLine, NewlinesOnly;
    var closing := FenceFrom(lines, 1).value;
    AcceptedExactly(lines[1..closing]);
    GroupedIsGood(lines[1..closing]);
    var body := Joined(lines[closing + 1..]);
    JoinHasNewlinesOnly(lines[closing + 1..]);
    StripTrims(body);
    StripKeepsMembers(body);
    NewlinesByMembers(Strip(body), body);
  }

  /** What is accepted from a text is exactly what can be written: reading, writing and reading again changes nothing. */
  lemma AcceptedRecordIsWritable(text: string)
    requires ParsedText(text).Ok?
    ensures Writable(ParsedText(text).value) && ParsedText(Written(ParsedText(text).value)) == ParsedText(text)
  {
    hide SplitLines, Parsed, Writable, Written;
    SplitGivesLines(text);
    AcceptedLinesAreGood(SplitLines(text));
    WrittenRecordReadsBack(ParsedText(text).value);
  }
}
