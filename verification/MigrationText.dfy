/**
 * The expand/contract gate's string evaluator: the SQL text an expression of a migration
 * stands for, read off the syntax tree through a flow-insensitive table of bindings.
 */
module MigrationText {
  import opened MigrationTemplates
  import opened Outcomes

  datatype Operator = Add | Mod | OtherOperator

  datatype Expr =
    | Text(literal: string)
    | OtherConstant
    | Joined(parts: seq<Expr>)
    | Formatted(value: Expr)
    | Binary(op: Operator, left: Expr, right: Expr)
    | Name(id: string)
    | Tuple(elements: seq<Expr>)
    | ListOrSet(elements: seq<Expr>)
    | Dict(keys: seq<Option<Expr>>, entries: seq<Expr>)
    | Starred(value: Expr)
    | Conditional(test: Expr, body: Expr, orelse: Expr)
    | Attribute(value: Expr, attr: string)
    | Call(func: Expr, args: seq<Expr>, names: seq<Option<string>>, keywords: seq<Expr>)
    | OtherExpr

  type Bindings = map<string, seq<Expr>>

  // ----- the binding table -------------------------------------------------------------

  /** One binding form met in the source: an assignment, a walrus, or a loop and its iterable. */
  datatype Binding = Binding(target: Expr, value: Option<Expr>)

  function ValuesOf(name: string, met: seq<Binding>): seq<Expr> {
    if met == [] then []
    else
      Recording(name, met[0]) + ValuesOf(name, met[1..])
  }

  function Recording(name: string, b: Binding): seq<Expr> {
    if b.target == Name(name) && b.value.Some? then [b.value.value] else []
  }

  lemma {:induction false} ValuesOfAppend(name: string, met: seq<Binding>, last: Binding)
    ensures ValuesOf(name, met + [last]) == ValuesOf(name, met) + Recording(name, last)
  {
    if met == [] {
      assert met + [last] == [last] && [last][1..] == [];
    } else {
      assert (met + [last])[1..] == met[1..] + [last];
      ValuesOfAppend(name, met[1..], last);
    }
  }

  /** Every value a plain name is bound to, in source order; other targets are not followed. */
  method CollectBindings(met: seq<Binding>) returns (found: Bindings)
    ensures forall n :: n in found <==> ValuesOf(n, met) != []
    ensures forall n :: n in found ==> found[n] == ValuesOf(n, met)
  {
    hide ValuesOf;
    found := map[];
    forall n
      ensures ValuesOf(n, met[..0]) == []
    {
      NothingMet(n);
      assert met[..0] == [];
    }
    for i := 0 to |met|
      invariant forall n :: n in found <==> ValuesOf(n, met[..i]) != []
      invariant forall n :: n in found ==> found[n] == ValuesOf(n, met[..i])
    {
      var b := met[i];
      assert met[..i + 1] == met[..i] + [b];
      forall n
        ensures ValuesOf(n, met[..i + 1]) == ValuesOf(n, met[..i]) + Recording(n, b)
      {
        ValuesOfAppend(n, met[..i], b);
      }
      if b.target.Name? && b.value.Some? {
        var sofar := if b.target.id in found then found[b.target.id] else [];
        found := found[b.target.id := sofar + [b.value.value]];
      }
    }
    assert met[..|met|] == met;
  }

  lemma NothingMet(name: string)
    ensures ValuesOf(name, []) == []
  {
  }

  // ----- the evaluator ---------------------------------------------------------------------

  function Join(separator: string, texts: seq<string>): string {
    if texts == [] then ""
    else if |texts| == 1 then texts[0]
    else texts[0] + separator + Join(separator, texts[1..])
  }

  /**
   * The text of an expression. A name stands for all of its bindings at once, and for an
   * unknown while it is being resolved (`active`), which is what makes a cyclic table harmless:
   * each name entered leaves fewer to enter.
   */
  function TextOf(e: Expr, bindings: Bindings, active: set<string>): string
    decreases bindings.Keys - active, e, 1
  {
    match e
    case Text(literal) => literal
    case Joined(parts) => Join("", TextsOf(parts, bindings, active))
    case Formatted(value) => TextOf(value, bindings, active)
    case Binary(op, left, right) =>
      if op == Mod then
        var template := TextOf(left, bindings, active);
        match right
        case Tuple(elements) => Filled(template, Percents, TextsOf(elements, bindings, active), map[], 0)
        case Dict(keys, entries) =>
          Filled(template, Percents, [], ByKey(keys, TextsOf(entries, bindings, active)), 0)
        case _ => Filled(template, Percents, [TextOf(right, bindings, active)], map[], 0)
      else TextOf(left, bindings, active) + TextOf(right, bindings, active)
    case Name(id) =>
      if id in active || id !in bindings then UNKNOWN
      else
        assert id in bindings.Keys - active && id !in bindings.Keys - (active + {id});
        Join(" ; ", TextsOf(bindings[id], bindings, active + {id}))
    case Tuple(elements) => Join(" ; ", TextsOf(elements, bindings, active))
    case ListOrSet(elements) => Join(" ; ", TextsOf(elements, bindings, active))
    case Dict(_, entries) => Join(" ; ", TextsOf(entries, bindings, active))
    case Starred(value) => TextOf(value, bindings, active)
    case Conditional(_, body, orelse) =>
      Join(" ; ", [TextOf(body, bindings, active), TextOf(orelse, bindings, active)])
    case Call(func, args, names, keywords) =>
      if func.Attribute? && func.attr == "format" then
        Filled(TextOf(func.value, bindings, active), Braces, TextsOf(args, bindings, active),
               ByName(names, TextsOf(keywords, bindings, active)), 0)
      else
        Join(" ", (if func.Attribute? then [TextOf(func.value, bindings, active)] else [])
                  + TextsOf(args, bindings, active) + TextsOf(keywords, bindings, active))
    case _ => UNKNOWN
  }

  function TextsOf(es: seq<Expr>, bindings: Bindings, active: set<string>): (texts: seq<string>)
    ensures |texts| == |es|
    ensures forall i :: 0 <= i < |es| ==> texts[i] == TextOf(es[i], bindings, active)
    decreases bindings.Keys - active, es, 0
  {
    if es == [] then []
    else [TextOf(es[0], bindings, active)] + TextsOf(es[1..], bindings, active)
  }

  /** Named values of a `%` mapping: string-literal keys, the last one winning. */
  function ByKey(keys: seq<Option<Expr>>, texts: seq<string>): map<string, string> {
    if keys == [] || texts == [] then map[]
    else
      var last := if |keys| < |texts| then |keys| - 1 else |texts| - 1;
      var earlier := ByKey(keys[..last], texts[..last]);
      if keys[last].Some? && keys[last].value.Text? then earlier[keys[last].value.literal := texts[last]] else earlier
  }

  /** Keyword values by name; `**mapping` has none. */
  function ByName(names: seq<Option<string>>, texts: seq<string>): map<string, string> {
    if names == [] || texts == [] then map[]
    else
      var last := if |names| < |texts| then |names| - 1 else |texts| - 1;
      var earlier := ByName(names[..last], texts[..last]);
      if names[last].Some? then earlier[names[last].value := texts[last]] else earlier
  }

  // ----- the names an expression can reach ----------------------------------------------------

  function Mentions(e: Expr): set<string> {
    match e
    case Joined(parts) => MentionsIn(parts)
    case Formatted(value) => Mentions(value)
    case Binary(_, left, right) => Mentions(left) + Mentions(right)
    case Name(id) => {id}
    case Tuple(elements) => MentionsIn(elements)
    case ListOrSet(elements) => MentionsIn(elements)
    case Dict(_, entries) => MentionsIn(entries)
    case Starred(value) => Mentions(value)
    case Conditional(_, body, orelse) => Mentions(body) + Mentions(orelse)
    case Attribute(value, _) => Mentions(value)
    case Call(func, args, names, keywords) => Mentions(func) + MentionsIn(args) + MentionsIn(keywords)
    case _ => {}
  }

  function MentionsIn(es: seq<Expr>): set<string> {
    if es == [] then {} else Mentions(es[0]) + MentionsIn(es[1..])
  }

  ghost predicate ClosedUnderBindings(reached: set<string>, bindings: Bindings) {
    forall n :: n in reached && n in bindings ==> MentionsIn(bindings[n]) <= reached
  }

  lemma AgreeWithOneMore(reached: set<string>, one: set<string>, two: set<string>, id: string)
    requires one * reached == two * reached && id in reached
    ensures id in one <==> id in two
    ensures (one + {id}) * reached == (two + {id}) * reached
  {
    assert id in one <==> id in one * reached;
    assert id in two <==> id in two * reached;
    assert (one + {id}) * reached == one * reached + {id} == (two + {id}) * reached;
  }

  /** Two active sets that agree on the names an expression reaches give it the same text. */
  lemma {:induction false} ActiveMattersOnlyWhereReached(
    e: Expr, bindings: Bindings, reached: set<string>, one: set<string>, two: set<string>)
    requires Mentions(e) <= reached && ClosedUnderBindings(reached, bindings)
    requires one * reached == two * reached
    ensures TextOf(e, bindings, one) == TextOf(e, bindings, two)
    decreases bindings.Keys - one, e, 1
  {
    hide Filled, Join, ByKey, ByName;
    match e {
      case Joined(parts) => ActiveMattersInAll(parts, bindings, reached, one, two);
      case Formatted(value) => ActiveMattersOnlyWhereReached(value, bindings, reached, one, two);
      case Binary(op, left, right) =>
        ActiveMattersOnlyWhereReached(left, bindings, reached, one, two);
        ActiveMattersOnlyWhereReached(right, bindings, reached, one, two);
        match right {
          case Tuple(elements) => ActiveMattersInAll(elements, bindings, reached, one, two);
          case Dict(_, entries) => ActiveMattersInAll(entries, bindings, reached, one, two);
          case _ =>
        }
      case Name(id) =>
        AgreeWithOneMore(reached, one, two, id);
        if id !in one && id in bindings {
          assert id in bindings.Keys - one && id !in bindings.Keys - (one + {id});
          ActiveMattersInAll(bindings[id], bindings, reached, one + {id}, two + {id});
        }
      case Tuple(elements) => ActiveMattersInAll(elements, bindings, reached, one, two);
      case ListOrSet(elements) => ActiveMattersInAll(elements, bindings, reached, one, two);
      case Dict(_, entries) => ActiveMattersInAll(entries, bindings, reached, one, two);
      case Starred(value) => ActiveMattersOnlyWhereReached(value, bindings, reached, one, two);
      case Conditional(_, body, orelse) =>
        ActiveMattersOnlyWhereReached(body, bindings, reached, one, two);
        ActiveMattersOnlyWhereReached(orelse, bindings, reached, one, two);
      case Call(func, args, names, keywords) =>
        if func.Attribute? {
          ActiveMattersOnlyWhereReached(func.value, bindings, reached, one, two);
        }
        ActiveMattersInAll(args, bindings, reached, one, two);
        ActiveMattersInAll(keywords, bindings, reached, one, two);
      case _ =>
    }
  }

  lemma {:induction false} ActiveMattersInAll(
    es: seq<Expr>, bindings: Bindings, reached: set<string>, one: set<string>, two: set<string>)
    requires MentionsIn(es) <= reached && ClosedUnderBindings(reached, bindings)
    requires one * reached == two * reached
    ensures TextsOf(es, bindings, one) == TextsOf(es, bindings, two)
    decreases bindings.Keys - one, es, 0
  {
    if es != [] {
      ActiveMattersOnlyWhereReached(es[0], bindings, reached, one, two);
      ActiveMattersInAll(es[1..], bindings, reached, one, two);
    }
  }

  // ----- what the running migration would hold ---------------------------------------------------

  function Concatenated(texts: seq<string>): string {
    if texts == [] then "" else texts[0] + Concatenated(texts[1..])
  }

  /**
   * The string an expression has when each name holds what the store says. Nothing when evaluating it raises, for
   * expressions other than strings, names, f-strings, `+`, `%` and `.format`, and for a template that doubles its
   * mark, which the gate misreads (`FormatIsReadExactlyWhenUndoubled`).
   */
  function Value(e: Expr, store: map<string, string>): Option<string>
    decreases e, 1
  {
    match e
    case Text(literal) => Some(literal)
    case Name(id) => if id in store then Some(store[id]) else None
    case Joined(parts) =>
      var values := Values(parts, store);
      if values.None? then None else Some(Concatenated(values.value))
    case Formatted(value) => Value(value, store)
    case Binary(op, left, right) =>
      var before := Value(left, store);
      if before.None? then None
      else if op == Add then
        var after := Value(right, store);
        if after.None? then None else Some(before.value + after.value)
      else if op == Mod && !Doubled(before.value, '%') then
        match right
        case Tuple(elements) =>
          var values := Values(elements, store);
          if values.None? then None else PercentFormatted(before.value, values.value, map[], 0)
        case Dict(keys, entries) =>
          var values := Values(entries, store);
          if values.None? then None else PercentFormatted(before.value, [], ByKey(keys, values.value), 0)
        case _ =>
          var only := Value(right, store);
          if only.None? then None else PercentFormatted(before.value, [only.value], map[], 0)
      else None
    case Call(func, args, names, keywords) =>
      if func.Attribute? && func.attr == "format" then
        var template, positional, named := Value(func.value, store), Values(args, store), Values(keywords, store);
        if template.None? || positional.None? || named.None? then None
        else if Doubled(template.value, '{') || Doubled(template.value, '}') then None
        else
          MigrationTemplates.Formatted(template.value, positional.value, ByName(names, named.value), NotYet)
      else None
    case _ => None
  }

  function Values(es: seq<Expr>, store: map<string, string>): Option<seq<string>>
    decreases es, 0
  {
    if es == [] then Some([])
    else
      var head, tail := Value(es[0], store), Values(es[1..], store);
      if head.None? || tail.None? then None else Some([head.value] + tail.value)
  }

  /** The names in `reached` each have one acyclic binding, and the store holds its value. */
  ghost predicate Holds(
    bindings: Bindings, store: map<string, string>, rank: map<string, nat>, reached: set<string>)
  {
    && reached <= bindings.Keys && reached <= store.Keys && reached <= rank.Keys
    && ClosedUnderBindings(reached, bindings)
    && forall n :: n in reached ==>
         && |bindings[n]| == 1
         && Mentions(bindings[n][0]) <= reached
         && (forall m :: m in Mentions(bindings[n][0]) ==> rank[m] < rank[n])
         && Value(bindings[n][0], store) == Some(store[n])
  }

  lemma JoinUnfolds(text: string, rest: seq<string>)
    ensures Join("", [text] + rest) == text + Join("", rest)
  {
    assert ([text] + rest)[1..] == rest;
  }

  lemma {:induction false} JoinConcatenates(texts: seq<string>)
    ensures Join("", texts) == Concatenated(texts)
  {
    if texts != [] {
      JoinConcatenates(texts[1..]);
      JoinUnfolds(texts[0], texts[1..]);
      assert texts == [texts[0]] + texts[1..];
    }
  }

  /** A keyword value is that of the last keyword of its name; `**mapping` has none. */
  lemma {:induction false} ByNameExactly(names: seq<Option<string>>, texts: seq<string>, name: string)
    requires |names| == |texts|
    ensures name in ByName(names, texts) <==> Some(name) in names
  {
    if names != [] {
      var last := |names| - 1;
      ByNameExactly(names[..last], texts[..last], name);
      assert names == names[..last] + [names[last]];
    }
  }

  lemma {:induction false} ByNameValue(names: seq<Option<string>>, texts: seq<string>, i: nat, name: string)
    requires |names| == |texts| && i < |names| && names[i] == Some(name)
    requires forall j :: i < j < |names| ==> names[j] != Some(name)
    ensures name in ByName(names, texts) && ByName(names, texts)[name] == texts[i]
  {
    var last := |names| - 1;
    if i < last {
      ByNameValue(names[..last], texts[..last], i, name);
    }
  }

  /** The string-literal keys of a mapping, as names. */
  function KeyNames(keys: seq<Option<Expr>>): (names: seq<Option<string>>)
    ensures |names| == |keys|
    ensures forall i, name :: 0 <= i < |keys| ==> (names[i] == Some(name) <==> keys[i] == Some(Text(name)))
  {
    seq(|keys|, i requires 0 <= i < |keys| =>
      if keys[i].Some? && keys[i].value.Text? then Some(keys[i].value.literal) else None)
  }

  /** Mapping values likewise, by the keys that are string literals. */
  lemma {:induction false} ByKeyExactly(keys: seq<Option<Expr>>, texts: seq<string>)
    requires |keys| == |texts|
    ensures ByKey(keys, texts) == ByName(KeyNames(keys), texts)
  {
    if keys != [] {
      var last := |keys| - 1;
      ByKeyExactly(keys[..last], texts[..last]);
      assert KeyNames(keys)[..last] == KeyNames(keys[..last]);
    }
  }

  lemma ValuesUnfold(es: seq<Expr>, store: map<string, string>)
    requires Values(es, store).Some? && es != []
    ensures Value(es[0], store).Some? && Values(es[1..], store).Some?
    ensures Values(es, store).value == [Value(es[0], store).value] + Values(es[1..], store).value
  {
    hide Value;
  }

  lemma TextsUnfold(es: seq<Expr>, bindings: Bindings, active: set<string>)
    requires es != []
    ensures TextsOf(es, bindings, active) == [TextOf(es[0], bindings, active)] + TextsOf(es[1..], bindings, active)
  {
    hide TextOf;
  }

  lemma OneText(e: Expr, bindings: Bindings, active: set<string>)
    ensures TextsOf([e], bindings, active) == [TextOf(e, bindings, active)]
  {
    hide TextOf;
  }

  lemma TemplateIsRead(before: string, positional: seq<string>, named: map<string, string>)
    ensures !Doubled(before, '%') && PercentFormatted(before, positional, named, 0).Some? ==>
              Filled(before, Percents, positional, named, 0) == PercentFormatted(before, positional, named, 0).value
  {
    if !Doubled(before, '%') && PercentFormatted(before, positional, named, 0).Some? {
      UndoubledPercentsAreRead(before, positional, named, 0);
    }
  }

  lemma FormatIsRead(before: string, positional: seq<string>, named: map<string, string>)
    ensures !Doubled(before, '{') && !Doubled(before, '}')
            && MigrationTemplates.Formatted(before, positional, named, NotYet).Some? ==>
              Filled(before, Braces, positional, named, 0)
              == MigrationTemplates.Formatted(before, positional, named, NotYet).value
  {
    if !Doubled(before, '{') && !Doubled(before, '}')
       && MigrationTemplates.Formatted(before, positional, named, NotYet).Some? {
      UndoubledBracesAreRead(before, positional, named, NotYet);
    }
  }

  lemma {:induction false} TextIsValueAbove(
    e: Expr, bindings: Bindings, store: map<string, string>, rank: map<string, nat>, reached: set<string>,
    active: set<string>, bound: nat)
    requires Holds(bindings, store, rank, reached)
    requires Value(e, store).Some? && Mentions(e) <= reached
    requires forall n :: n in Mentions(e) ==> rank[n] < bound
    requires forall n :: n in active && n in reached ==> rank[n] >= bound
    ensures TextOf(e, bindings, active) == Value(e, store).value
    decreases bound, e, 1
  {
    hide Filled, PercentFormatted, MigrationTemplates.Formatted, Doubled, ByKey, ByName, Join, Concatenated;
    match e {
      case Joined(parts) =>
        TextsAreValuesAbove(parts, bindings, store, rank, reached, active, bound);
        JoinConcatenates(TextsOf(parts, bindings, active));
      case Formatted(value) => TextIsValueAbove(value, bindings, store, rank, reached, active, bound);
      case Binary(op, left, right) =>
        TextIsValueAbove(left, bindings, store, rank, reached, active, bound);
        var before := Value(left, store).value;
        if op == Add {
          TextIsValueAbove(right, bindings, store, rank, reached, active, bound);
        } else if right.Tuple? {
          TextsAreValuesAbove(right.elements, bindings, store, rank, reached, active, bound);
          TemplateIsRead(before, Values(right.elements, store).value, map[]);
        } else if right.Dict? {
          TextsAreValuesAbove(right.entries, bindings, store, rank, reached, active, bound);
          TemplateIsRead(before, [], ByKey(right.keys, Values(right.entries, store).value));
        } else {
          TextIsValueAbove(right, bindings, store, rank, reached, active, bound);
          TemplateIsRead(before, [Value(right, store).value], map[]);
        }
      case Name(id) =>
        assert id in Mentions(e);
        var only := bindings[id][0];
        TextIsValueAbove(only, bindings, store, rank, reached, active + {id}, rank[id]);
        assert bindings[id] == [only];
        OneText(only, bindings, active + {id});
        JoinOfOne(TextOf(only, bindings, active + {id}));
      case Call(func, args, names, keywords) =>
        TextIsValueAbove(func.value, bindings, store, rank, reached, active, bound);
        TextsAreValuesAbove(args, bindings, store, rank, reached, active, bound);
        TextsAreValuesAbove(keywords, bindings, store, rank, reached, active, bound);
        FormatIsRead(Value(func.value, store).value, Values(args, store).value,
                     ByName(names, Values(keywords, store).value));
      case _ =>
    }
  }

  lemma JoinOfOne(text: string)
    ensures Join(" ; ", [text]) == text
  {
  }

  lemma {:induction false} TextsAreValuesAbove(
    es: seq<Expr>, bindings: Bindings, store: map<string, string>, rank: map<string, nat>, reached: set<string>,
    active: set<string>, bound: nat)
    requires Holds(bindings, store, rank, reached)
    requires Values(es, store).Some? && MentionsIn(es) <= reached
    requires forall n :: n in MentionsIn(es) ==> rank[n] < bound
    requires forall n :: n in active && n in reached ==> rank[n] >= bound
    ensures TextsOf(es, bindings, active) == Values(es, store).value
    decreases bound, es, 0
  {
    hide TextOf, Value, Mentions;
    if es != [] {
      ValuesUnfold(es, store);
      TextIsValueAbove(es[0], bindings, store, rank, reached, active, bound);
      TextsAreValuesAbove(es[1..], bindings, store, rank, reached, active, bound);
      TextsUnfold(es, bindings, active);
    }
  }

  lemma RankBound(names: set<string>, rank: map<string, nat>) returns (bound: nat)
    requires names <= rank.Keys
    ensures forall n :: n in names ==> rank[n] < bound
  {
    if names == {} {
      bound := 0;
    } else {
      var n :| n in names;
      bound := RankBound(names - {n}, rank);
      bound := if rank[n] < bound then bound else rank[n] + 1;
    }
  }

  /** Such an expression the gate reads as exactly the string the migration would pass. */
  lemma TextIsTheRuntimeString(
    e: Expr, bindings: Bindings, store: map<string, string>, rank: map<string, nat>, reached: set<string>)
    requires Holds(bindings, store, rank, reached)
    requires Value(e, store).Some? && Mentions(e) <= reached
    ensures TextOf(e, bindings, {}) == Value(e, store).value
  {
    var bound := RankBound(Mentions(e), rank);
    TextIsValueAbove(e, bindings, store, rank, reached, {}, bound);
  }

  // ----- a module body run top to bottom -----------------------------------------------------------

  datatype Assign = Assign(name: string, value: Expr)

  /** The names a straight-line module holds after it ran, or nothing when some value is not a string as above. */
  function Execute(steps: seq<Assign>): Option<map<string, string>> {
    if steps == [] then Some(map[])
    else
      var last, store := steps[|steps| - 1], Execute(steps[..|steps| - 1]);
      if store.None? then None
      else
        var value := Value(last.value, store.value);
        if value.None? then None else Some(store.value[last.name := value.value])
  }

  predicate AssignedOnce(steps: seq<Assign>) {
    forall i, j :: 0 <= i < j < |steps| ==> steps[i].name != steps[j].name
  }

  /** The table `_bindings` collects from a straight-line module. */
  function Recorded(steps: seq<Assign>): seq<Binding> {
    seq(|steps|, i requires 0 <= i < |steps| => Binding(Name(steps[i].name), Some(steps[i].value)))
  }

  lemma {:induction false} OneValueEach(steps: seq<Assign>, i: nat)
    requires AssignedOnce(steps) && i < |steps|
    ensures ValuesOf(steps[i].name, Recorded(steps)) == [steps[i].value]
  {
    var k := |steps| - 1;
    var last := Binding(Name(steps[k].name), Some(steps[k].value));
    assert Recorded(steps) == Recorded(steps[..k]) + [last];
    ValuesOfAppend(steps[i].name, Recorded(steps[..k]), last);
    if i < k {
      assert steps[..k][i] == steps[i];
      OneValueEach(steps[..k], i);
    } else {
      NoValueYet(steps[..k], steps[k].name);
    }
  }

  lemma {:induction false} NoValueYet(steps: seq<Assign>, name: string)
    requires forall i :: 0 <= i < |steps| ==> steps[i].name != name
    ensures ValuesOf(name, Recorded(steps)) == []
  {
    if steps != [] {
      assert Recorded(steps)[1..] == Recorded(steps[1..]);
      NoValueYet(steps[1..], name);
    }
  }

  lemma {:induction false} PrefixIsReadExactly(
    steps: seq<Assign>, e: Expr, bindings: Bindings, active: set<string>)
    requires AssignedOnce(steps) && Execute(steps).Some?
    requires Value(e, Execute(steps).value).Some?
    requires active !! Execute(steps).value.Keys
    requires forall s :: s in steps ==> s.name in bindings && bindings[s.name] == [s.value]
    ensures TextOf(e, bindings, active) == Value(e, Execute(steps).value).value
    decreases |steps|, e, 1
  {
    hide Filled, PercentFormatted, MigrationTemplates.Formatted, Doubled, ByKey, ByName, Join, Concatenated, Execute;
    var store := Execute(steps).value;
    match e {
      case Joined(parts) =>
        PartsAreReadExactly(steps, parts, bindings, active);
        JoinConcatenates(TextsOf(parts, bindings, active));
      case Formatted(value) => PrefixIsReadExactly(steps, value, bindings, active);
      case Binary(op, left, right) =>
        PrefixIsReadExactly(steps, left, bindings, active);
        var before := Value(left, store).value;
        if op == Add {
          PrefixIsReadExactly(steps, right, bindings, active);
        } else if right.Tuple? {
          PartsAreReadExactly(steps, right.elements, bindings, active);
          TemplateIsRead(before, Values(right.elements, store).value, map[]);
        } else if right.Dict? {
          PartsAreReadExactly(steps, right.entries, bindings, active);
          TemplateIsRead(before, [], ByKey(right.keys, Values(right.entries, store).value));
        } else {
          PrefixIsReadExactly(steps, right, bindings, active);
          TemplateIsRead(before, [Value(right, store).value], map[]);
        }
      case Name(id) => NameIsReadExactly(steps, id, bindings, active);
      case Call(func, args, names, keywords) =>
        PrefixIsReadExactly(steps, func.value, bindings, active);
        PartsAreReadExactly(steps, args, bindings, active);
        PartsAreReadExactly(steps, keywords, bindings, active);
        FormatIsRead(Value(func.value, store).value, Values(args, store).value,
                     ByName(names, Values(keywords, store).value));
      case _ =>
    }
  }

  lemma {:induction false} NameIsReadExactly(steps: seq<Assign>, id: string, bindings: Bindings, active: set<string>)
    requires AssignedOnce(steps) && Execute(steps).Some?
    requires id in Execute(steps).value
    requires active !! Execute(steps).value.Keys
    requires forall s :: s in steps ==> s.name in bindings && bindings[s.name] == [s.value]
    ensures TextOf(Name(id), bindings, active) == Execute(steps).value[id]
    decreases |steps|, Name(id), 0
  {
    hide Value, Join, TextsOf;
    ExecuteUnfolds(steps);
    var k := |steps| - 1;
    var last, earlier := steps[k], steps[..k];
    assert last in steps;
    if id == last.name {
      ExecutedNames(earlier, id);
      PrefixIsReadExactly(earlier, last.value, bindings, active + {id});
      OneText(last.value, bindings, active + {id});
      JoinOfOne(TextOf(last.value, bindings, active + {id}));
    } else {
      NameIsReadExactly(earlier, id, bindings, active);
    }
  }

  lemma ExecuteUnfolds(steps: seq<Assign>)
    requires Execute(steps).Some? && Execute(steps).value != map[]
    ensures steps != [] && Execute(steps[..|steps| - 1]).Some?
    ensures Value(steps[|steps| - 1].value, Execute(steps[..|steps| - 1]).value).Some?
    ensures Execute(steps).value
            == Execute(steps[..|steps| - 1]).value
               [steps[|steps| - 1].name := Value(steps[|steps| - 1].value, Execute(steps[..|steps| - 1]).value).value]
  {
    hide Value;
  }

  lemma {:induction false} PartsAreReadExactly(
    steps: seq<Assign>, es: seq<Expr>, bindings: Bindings, active: set<string>)
    requires AssignedOnce(steps) && Execute(steps).Some?
    requires Values(es, Execute(steps).value).Some?
    requires active !! Execute(steps).value.Keys
    requires forall s :: s in steps ==> s.name in bindings && bindings[s.name] == [s.value]
    ensures TextsOf(es, bindings, active) == Values(es, Execute(steps).value).value
    decreases |steps|, es, 0
  {
    hide TextOf, Value, Execute, AssignedOnce;
    if es != [] {
      ValuesUnfold(es, Execute(steps).value);
      PrefixIsReadExactly(steps, es[0], bindings, active);
      PartsAreReadExactly(steps, es[1..], bindings, active);
      TextsUnfold(es, bindings, active);
    }
  }

  lemma {:induction false} ExecutedNames(steps: seq<Assign>, name: string)
    requires forall s :: s in steps ==> s.name != name
    ensures Execute(steps).Some? ==> name !in Execute(steps).value
  {
    hide Value;
    if steps != [] {
      ExecutedNames(steps[..|steps| - 1], name);
    }
  }

  /**
   * For a module whose string constants are each assigned once, the gate reads every expression
   * over them as exactly the string the module holds when it has run.
   */
  lemma ModuleIsReadExactly(steps: seq<Assign>, e: Expr, bindings: Bindings)
    requires AssignedOnce(steps) && Execute(steps).Some?
    requires Value(e, Execute(steps).value).Some?
    requires forall n :: n in bindings <==> ValuesOf(n, Recorded(steps)) != []
    requires forall n :: n in bindings ==> bindings[n] == ValuesOf(n, Recorded(steps))
    ensures TextOf(e, bindings, {}) == Value(e, Execute(steps).value).value
  {
    forall s | s in steps
      ensures s.name in bindings && bindings[s.name] == [s.value]
    {
      var i :| 0 <= i < |steps| && steps[i] == s;
      OneValueEach(steps, i);
    }
    PrefixIsReadExactly(steps, e, bindings, {});
  }
}
