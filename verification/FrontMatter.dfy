/** The front matter of a memory record: fenced `key: value` lines, where an empty value opens a list. */
module FrontMatter {
  import opened Lines
  import opened Ordering
  import opened Outcomes
  import opened Trimming

  const FENCE := "---"

  datatype Value = Scalar(text: string) | List(items: seq<string>)

  datatype Field = Field(key: string, value: Value)

  /** The fields in the order they were written, and the prose after them. */
  datatype Record = Record(fields: seq<Field>, body: string)

  datatype Problem =
    | NeverOpened | NeverClosed | ItemBeforeKey | ScalarAndItems(key: string) | NestedMapping | NotKeyValue
    | DuplicateKey(key: string)

  // ----- one line ---------------------------------------------------------------------------------------

  datatype Line = Empty | Item(text: string) | Opening(key: string, value: string) | Malformed(problem: Problem)

  function ColonAt(s: string): (n: nat)
    ensures n <= |s| && ':' !in s[..n]
    ensures n < |s| ==> s[n] == ':'
  {
    if s == "" || s[0] == ':' then 0
    else
      assert s == [s[0]] + s[1..];
      1 + ColonAt(s[1..])
  }

  function Read(raw: string): Line {
    if Strip(raw) == "" then Empty
    else
      var stripped := DropBlanks(raw);
      if "- " <= stripped then Item(Strip(stripped[2..]))
      else if raw != "" && Blank(raw[0]) then Malformed(NestedMapping)
      else
        var colon := ColonAt(raw);
        if colon == |raw| then Malformed(NotKeyValue)
        else Opening(Strip(raw[..colon]), Strip(raw[colon + 1..]))
  }

  // ----- specification: lines taken one by one ------------------------------------------------------------

  predicate HasKey(fields: seq<Field>, key: string) {
    exists i :: 0 <= i < |fields| && fields[i].key == key
  }

  function Opened(key: string, value: string, items: seq<string>): Field {
    Field(key, if value == "" then List(items) else Scalar(value))
  }

  function Extended(fields: seq<Field>, items: seq<string>): seq<Field>
    requires fields != [] && fields[|fields| - 1].value.List?
  {
    var last := fields[|fields| - 1];
    fields[|fields| - 1 := Field(last.key, List(last.value.items + items))]
  }

  function Taken(fields: seq<Field>, raw: string): Result<seq<Field>, Problem> {
    match Read(raw)
    case Empty => Ok(fields)
    case Item(text) =>
      if fields == [] then Err(ItemBeforeKey)
      else if fields[|fields| - 1].value.Scalar? then Err(ScalarAndItems(fields[|fields| - 1].key))
      else Ok(Extended(fields, [text]))
    case Malformed(problem) => Err(problem)
    case Opening(key, value) =>
      if HasKey(fields, key) then Err(DuplicateKey(key)) else Ok(fields + [Opened(key, value, [])])
  }

  function TakenAll(fields: seq<Field>, lines: seq<string>): Result<seq<Field>, Problem>
    decreases |lines|
  {
    if lines == [] then Ok(fields)
    else
      var next :- Taken(fields, lines[0]);
      TakenAll(next, lines[1..])
  }

  /** The first fence line from an index on. */
  function FenceFrom(lines: seq<string>, from: nat): (r: Option<nat>)
    requires from <= |lines|
    ensures r.Some? ==> from <= r.value < |lines| && Strip(lines[r.value]) == FENCE
    ensures r.Some? ==> forall i :: from <= i < r.value ==> Strip(lines[i]) != FENCE
    ensures r == None ==> forall i :: from <= i < |lines| ==> Strip(lines[i]) != FENCE
    decreases |lines| - from
  {
    if from == |lines| then None
    else if Strip(lines[from]) == FENCE then Some(from)
    else FenceFrom(lines, from + 1)
  }

  /** What a record given as its lines holds. */
  function Parsed(lines: seq<string>): Result<Record, Problem> {
    if lines == [] || Strip(lines[0]) != FENCE then Err(NeverOpened)
    else match FenceFrom(lines, 1)
      case None => Err(NeverClosed)
      case Some(closing) =>
        var fields :- TakenAll([], lines[1..closing]);
        Ok(Record(fields, Strip(Joined(lines[closing + 1..]))))
  }

  // ----- the parser -----------------------------------------------------------------------------------------

  /** An insertion-ordered dictionary, as the list of fields it stands for. */
  ghost predicate Dictionary(keys: seq<string>, values: map<string, Value>) {
    Distinct(keys) && forall key :: key in keys <==> key in values
  }

  ghost function Fields(keys: seq<string>, values: map<string, Value>): (r: seq<Field>)
    requires Dictionary(keys, values)
    ensures |r| == |keys|
  {
    seq(|keys|, i requires 0 <= i < |keys| => Field(keys[i], values[keys[i]]))
  }

  function ParsedText(text: string): Result<Record, Problem> {
    Parsed(SplitLines(text))
  }

  /** The fields as a dictionary with its keys in the order of insertion, and the body. */
  method ParseFrontMatter(text: string) returns (r: Result<(seq<string>, map<string, Value>, string), Problem>)
    ensures match ParsedText(text)
            case Err(problem) => r == Err(problem)
            case Ok(record) =>
              r.Ok? && Dictionary(r.value.0, r.value.1) && Fields(r.value.0, r.value.1) == record.fields
              && r.value.2 == record.body
  {
    hide SplitLines;
    var lines := SplitLines(text);
    if lines == [] || Strip(lines[0]) != FENCE {
      return Err(NeverOpened);
    }
    var closing := 1;
    while closing < |lines| && Strip(lines[closing]) != FENCE
      invariant 1 <= closing <= |lines|
      invariant FenceFrom(lines, 1) == FenceFrom(lines, closing)
    {
      closing := closing + 1;
    }
    if closing == |lines| {
      return Err(NeverClosed);
    }
    var parsed := ParseFields(lines[1..closing]);
    if parsed.Err? {
      return Err(parsed.error);
    }
    return Ok((parsed.value.0, parsed.value.1, Strip(Joined(lines[closing + 1..]))));
  }

  method ParseFields(lines: seq<string>) returns (r: Result<(seq<string>, map<string, Value>), Problem>)
    ensures match TakenAll([], lines)
            case Err(problem) => r == Err(problem)
            case Ok(fields) =>
              r.Ok? && Dictionary(r.value.0, r.value.1) && Fields(r.value.0, r.value.1) == fields
  {
    hide Strip, DropBlanks, ColonAt;
    var keys: seq<string>, values: map<string, Value>, current: Option<string> := [], map[], None;
    ghost var whole := TakenAll([], lines);
    assert lines[0..] == lines;
    for i := 0 to |lines|
      invariant Dictionary(keys, values)
      invariant current == if keys == [] then None else Some(keys[|keys| - 1])
      invariant whole == TakenAll(Fields(keys, values), lines[i..])
    {
      var raw := lines[i];
      ghost var fields := Fields(keys, values);
      assert lines[i..][0] == raw && lines[i..][1..] == lines[i + 1..];
      var stripped := DropBlanks(raw);
      if Strip(raw) == "" {
        continue;
      }
      if "- " <= stripped {
        if current == None {
          return Err(ItemBeforeKey);
        }
        var existing := values[current.value];
        if existing.Scalar? {
          return Err(ScalarAndItems(current.value));
        }
        values := values[current.value := List(existing.items + [Strip(stripped[2..])])];
        assert Fields(keys, values) == Extended(fields, [Strip(stripped[2..])]);
        continue;
      }
      if raw != "" && Blank(raw[0]) {
        return Err(NestedMapping);
      }
      var colon := ColonAt(raw);
      if colon == |raw| {
        return Err(NotKeyValue);
      }
      var key, value := Strip(raw[..colon]), Strip(raw[colon + 1..]);
      assert HasKey(fields, key) <==> key in values by {
        if key in keys {
          var k :| 0 <= k < |keys| && keys[k] == key;
          assert fields[k].key == key;
        }
      }
      if key in values {
        return Err(DuplicateKey(key));
      }
      keys, values := keys + [key], values[key := Opened(key, value, []).value];
      current := Some(key);
      assert Fields(keys, values) == fields + [Opened(key, value, [])];
    }
    assert lines[|lines|..] == [];
    return Ok((keys, values));
  }

  // ----- what an accepted record is ----------------------------------------------------------------------------

  /** Lines read from the end: the items still waiting for their key, and the fields after them. */
  function Grouped(lines: seq<Line>): (seq<string>, seq<Field>) {
    if lines == [] then ([], [])
    else
      var (items, fields) := Grouped(lines[1..]);
      match lines[0]
      case Empty => (items, fields)
      case Item(text) => ([text] + items, fields)
      case Opening(key, value) => ([], [Opened(key, value, items)] + fields)
      case Malformed(_) => (items, fields)
  }

  /** No line is malformed, and no item follows a key that has a value before the next key. */
  ghost predicate Proper(lines: seq<Line>) {
    forall i :: 0 <= i < |lines| ==>
      !lines[i].Malformed? && (lines[i].Opening? && lines[i].value != "" ==> Grouped(lines[i + 1..]).0 == [])
  }

  ghost predicate DistinctKeys(fields: seq<Field>) {
    forall i, j :: 0 <= i < j < |fields| ==> fields[i].key != fields[j].key
  }

  function ReadAll(lines: seq<string>): (r: seq<Line>)
    ensures |r| == |lines| && forall i :: 0 <= i < |lines| ==> r[i] == Read(lines[i])
  {
    seq(|lines|, i requires 0 <= i < |lines| => Read(lines[i]))
  }

  /** The state after `fields` once the waiting items have gone to its last key. */
  function Settled(fields: seq<Field>, items: seq<string>): seq<Field>
    requires items == [] || (fields != [] && fields[|fields| - 1].value.List?)
  {
    if items == [] then fields else Extended(fields, items)
  }

  ghost predicate Takes(fields: seq<Field>, lines: seq<Line>) {
    var (items, more) := Grouped(lines);
    && Proper(lines) && (items == [] || (fields != [] && fields[|fields| - 1].value.List?))
    && DistinctKeys(fields + more)
  }

  lemma ProperTail(lines: seq<Line>)
    requires lines != []
    ensures Proper(lines) == (
              && Proper(lines[1..]) && !lines[0].Malformed?
              && (lines[0].Opening? && lines[0].value != "" ==> Grouped(lines[1..]).0 == []))
  {
    forall i | 0 <= i < |lines[1..]|
      ensures lines[1..][i] == lines[i + 1] && lines[1..][i + 1..] == lines[i + 2..]
    {
    }
  }

  lemma ExtendedTwice(fields: seq<Field>, text: string, items: seq<string>)
    requires fields != [] && fields[|fields| - 1].value.List?
    ensures Settled(Extended(fields, [text]), items) == Extended(fields, [text] + items)
  {
    var last := fields[|fields| - 1];
    Associate(last.value.items, [text], items);
    if items == [] {
      assert [text] + items == [text];
    }
  }

  lemma SameKeys(fields: seq<Field>, items: seq<string>, more: seq<Field>)
    requires fields != [] && fields[|fields| - 1].value.List?
    ensures DistinctKeys(Extended(fields, items) + more) <==> DistinctKeys(fields + more)
  {
    assert forall i :: 0 <= i < |fields + more| ==> (Extended(fields, items) + more)[i].key == (fields + more)[i].key;
  }

  lemma RepeatedKey(fields: seq<Field>, field: Field, more: seq<Field>)
    requires HasKey(fields, field.key)
    ensures !DistinctKeys(fields + ([field] + more))
  {
    var i :| 0 <= i < |fields| && fields[i].key == field.key;
    assert (fields + ([field] + more))[i].key == (fields + ([field] + more))[|fields|].key;
  }

  lemma {:induction false} TakenExactly(fields: seq<Field>, lines: seq<string>)
    requires DistinctKeys(fields)
    ensures TakenAll(fields, lines).Ok? <==> Takes(fields, ReadAll(lines))
    ensures TakenAll(fields, lines).Ok? ==>
              TakenAll(fields, lines).value == Settled(fields, Grouped(ReadAll(lines)).0) + Grouped(ReadAll(lines)).1
    decreases |lines|
  {
    hide Read;
    if lines == [] {
      assert fields + [] == fields;
    } else {
      var read := ReadAll(lines);
      assert read[1..] == ReadAll(lines[1..]);
      ProperTail(read);
      var (items, more) := Grouped(read[1..]);
      match read[0]
      case Empty =>
        TakenExactly(fields, lines[1..]);
      case Malformed(_) =>
      case Item(text) =>
        if fields != [] && fields[|fields| - 1].value.List? {
          SameKeys(fields, [text], more);
          SameKeys(fields, [text], []);
          assert fields + [] == fields && Extended(fields, [text]) + [] == Extended(fields, [text]);
          TakenExactly(Extended(fields, [text]), lines[1..]);
          ExtendedTwice(fields, text, items);
        }
      case Opening(key, value) =>
        TakenOpening(fields, lines, key, value);
    }
  }

  lemma {:induction false} TakenOpening(fields: seq<Field>, lines: seq<string>, key: string, value: string)
    requires DistinctKeys(fields) && lines != [] && Read(lines[0]) == Opening(key, value)
    ensures TakenAll(fields, lines).Ok? <==> Takes(fields, ReadAll(lines))
    ensures TakenAll(fields, lines).Ok? ==>
              TakenAll(fields, lines).value == Settled(fields, Grouped(ReadAll(lines)).0) + Grouped(ReadAll(lines)).1
    decreases |lines|, 0
  {
    hide Read;
    var read := ReadAll(lines);
    assert read[1..] == ReadAll(lines[1..]);
    ProperTail(read);
    var (items, more) := Grouped(read[1..]);
    var bare, whole := Opened(key, value, []), Opened(key, value, items);
    if HasKey(fields, key) {
      RepeatedKey(fields, whole, more);
    } else {
      var next := fields + [bare];
      assert DistinctKeys(next);
      TakenExactly(next, lines[1..]);
      Associate(fields, [bare], more);
      Associate(fields, [whole], more);
      assert DistinctKeys(fields + [whole] + more) <==> DistinctKeys(next + more) by {
        assert forall i :: 0 <= i < |next + more| ==> (fields + [whole] + more)[i].key == (next + more)[i].key;
      }
      if items != [] && value == "" {
        assert [] + items == items;
        assert Extended(next, items) == fields + [whole];
      }
    }
  }

  /**
   * Fields are accepted exactly when every line is proper, the first item has a key and no key repeats;
   * then each key holds its value, or the items between it and the next key.
   */
  lemma AcceptedExactly(lines: seq<string>)
    ensures var (items, fields) := Grouped(ReadAll(lines));
            && (TakenAll([], lines).Ok? <==> Proper(ReadAll(lines)) && items == [] && DistinctKeys(fields))
            && (TakenAll([], lines).Ok? ==> TakenAll([], lines).value == fields)
  {
    TakenExactly([], lines);
    var fields := Grouped(ReadAll(lines)).1;
    assert [] + fields == fields;
  }

  lemma {:induction false} WaitingItem(lines: seq<Line>, j: nat)
    requires j < |lines| && lines[j].Item? && forall k :: 0 <= k < j ==> !lines[k].Opening?
    ensures lines[j].text in Grouped(lines).0
  {
    if j > 0 {
      WaitingItem(lines[1..], j - 1);
    }
  }

  lemma {:induction false} OpenedField(lines: seq<Line>, i: nat)
    requires i < |lines| && lines[i].Opening?
    ensures Opened(lines[i].key, lines[i].value, Grouped(lines[i + 1..]).0) in Grouped(lines).1
  {
    if i > 0 {
      assert lines[1..][i - 1 + 1..] == lines[i + 1..];
      OpenedField(lines[1..], i - 1);
    }
  }

  /** Every item of an accepted record is in the list of the nearest key above it, which has no value. */
  lemma ItemsBelongToTheKeyAbove(lines: seq<string>, i: nat, j: nat)
    requires TakenAll([], lines).Ok? && i < j < |lines|
    requires Read(lines[i]).Opening? && Read(lines[j]).Item?
    requires forall k :: i < k < j ==> !Read(lines[k]).Opening?
    ensures Read(lines[i]).value == ""
    ensures exists items :: Read(lines[j]).text in items
              && Field(Read(lines[i]).key, List(items)) in TakenAll([], lines).value
  {
    hide Read, Grouped, TakenAll;
    AcceptedExactly(lines);
    var read := ReadAll(lines);
    OpenedField(read, i);
    var below := read[i + 1..];
    assert below[j - i - 1] == read[j];
    WaitingItem(below, j - i - 1);
    var items := Grouped(below).0;
    assert items != [] && read[i].value == "";
    assert Opened(read[i].key, read[i].value, items) == Field(read[i].key, List(items));
  }

  /** And there is such a key: an accepted record has no item before its first key. */
  lemma {:induction false} ItemsHaveAKey(lines: seq<string>, j: nat)
    requires TakenAll([], lines).Ok? && j < |lines| && Read(lines[j]).Item?
    ensures exists i :: 0 <= i < j && Read(lines[i]).Opening?
  {
    hide Read, Grouped, TakenAll, Proper, DistinctKeys;
    AcceptedExactly(lines);
    if forall i :: 0 <= i < j ==> !Read(lines[i]).Opening? {
      WaitingItem(ReadAll(lines), j);
    }
  }
}
