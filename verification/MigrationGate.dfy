/**
 * The two ends of the expand/contract gate: which functions of a migration `upgrade()`
 * reaches, and which of the operations found there a file is refused for.
 */
module MigrationGate {
  import opened Outcomes
  import opened Trimming
  import opened Ordering

  // ----- what upgrade() reaches ------------------------------------------------------------

  /** A syntax node, as the identifiers a walk over it meets. */
  type Node = seq<string>

  datatype Item = Function(name: string) | Alias(name: string)

  /** A module: its functions, and the expressions each module-level name is bound to. */
  datatype Module = Module(functions: map<string, Node>, aliases: map<string, seq<Node>>) {

    /** What a mentioned name leads to: a function first, an alias otherwise, or nothing. */
    function Target(name: string): Option<Item> {
      if name in functions then Some(Function(name))
      else if name in aliases then Some(Alias(name))
      else None
    }

    function Nodes(item: Item): seq<Node> {
      match item
      case Function(f) => if f in functions then [functions[f]] else []
      case Alias(a) => if a in aliases then aliases[a] else []
    }

    /** Everything a node mentions is in `items`. */
    ghost predicate Covered(node: Node, items: set<Item>) {
      forall i :: 0 <= i < |node| ==> Target(node[i]).Some? ==> Target(node[i]).value in items
    }

    ghost predicate ClosedItem(item: Item, items: set<Item>) {
      forall k :: 0 <= k < |Nodes(item)| ==> Covered(Nodes(item)[k], items)
    }

    /** A set of functions and aliases that contains everything its members mention. */
    ghost predicate Closed(items: set<Item>) {
      forall item :: item in items ==> ClosedItem(item, items)
    }

    ghost function Universe(): set<Item> {
      (set f | f in functions :: Function(f)) + (set a | a in aliases :: Alias(a))
    }

    /** One mention leads from `from` to `to`. */
    ghost predicate Leads(from: Item, to: Item) {
      exists k, i :: 0 <= k < |Nodes(from)| && 0 <= i < |Nodes(from)[k]| && Target(Nodes(from)[k][i]) == Some(to)
    }

    /** A chain of mentions from `upgrade`. */
    ghost predicate Chain(path: seq<Item>) {
      && path != [] && path[0] == Function("upgrade")
      && forall i :: 0 <= i < |path| - 1 ==> Leads(path[i], path[i + 1])
    }
  }

  /** The least set that holds `upgrade` and everything its members mention. */
  ghost predicate Reaching(m: Module, s: set<Item>) {
    Function("upgrade") in s && m.Closed(s)
  }

  ghost predicate LeastReaching(m: Module, items: set<Item>) {
    Reaching(m, items) && items <= m.Universe() && Least(m, items)
  }

  /**
   * The worklist pass. `reached` lists, once each and `upgrade` first, exactly the functions of
   * the least set closed under mentions, although functions and aliases may mention each other.
   */
  method ReachableFromUpgrade(m: Module) returns (reached: seq<string>)
    ensures "upgrade" !in m.functions ==> reached == []
    ensures "upgrade" in m.functions ==>
              && reached != [] && reached[0] == "upgrade" && Distinct(reached)
              && exists items :: LeastReaching(m, items) && forall f :: f in reached <==> Function(f) in items
  {
    if "upgrade" !in m.functions {
      return [];
    }
    reached := ["upgrade"];
    var followed: set<string> := {};
    var pending: seq<Node> := [m.functions["upgrade"]];
    ghost var items := {Function("upgrade")};
    StartsSearching(m);
    while pending != []
      invariant Searching(m, reached, followed, pending, items)
      decreases m.Universe() - items, |pending|
    {
      var node := pending[|pending| - 1];
      ghost var start, waiting := items, pending;
      pending := pending[..|pending| - 1];
      assert pending + [node] == waiting;
      for i := 0 to |node|
        invariant Searching(m, reached, followed, pending + [node], items)
        invariant start <= items && (start == items ==> |pending| < |waiting|)
        invariant m.Covered(node[..i], items)
      {
        var id := node[i];
        assert node[..i + 1] == node[..i] + [id];
        if id in m.functions {
          if id !in reached {
            SearchFinds(m, reached, followed, pending, node, items, id);
            reached := reached + [id];
            pending := pending + [m.functions[id]];
            items := items + {Function(id)};
          }
        } else if id in m.aliases && id !in followed {
          SearchFinds(m, reached, followed, pending, node, items, id);
          followed := followed + {id};
          pending := pending + m.aliases[id];
          items := items + {Alias(id)};
        }
      }
      assert node[..|node|] == node;
      DoneWithNode(m, reached, followed, pending, node, items);
    }
    forall item | item in items
      ensures m.ClosedItem(item, items)
    {
      assert Awaited(m, item, [], items);
    }
    assert LeastReaching(m, items);
  }

  /** What the loop keeps true: the functions and aliases met are forced, and their nodes are done or pending. */
  ghost predicate Searching(
    m: Module, reached: seq<string>, followed: set<string>, pending: seq<Node>, items: set<Item>)
  {
    && Progress(m, reached, followed, items)
    && Least(m, items)
    && Reported(m, pending, items)
    && forall item :: item in items ==> Awaited(m, item, pending, items)
  }

  ghost predicate Progress(m: Module, reached: seq<string>, followed: set<string>, items: set<Item>) {
    && reached != [] && reached[0] == "upgrade" && Distinct(reached)
    && (forall f :: f in reached <==> Function(f) in items)
    && (forall a :: a in followed <==> Alias(a) in items)
    && items <= m.Universe()
    && Function("upgrade") in items
  }

  ghost predicate Least(m: Module, items: set<Item>) {
    forall s :: Reaching(m, s) ==> items <= s
  }

  /** Every pending node belongs to something already reached. */
  ghost predicate Reported(m: Module, pending: seq<Node>, items: set<Item>) {
    forall n :: n in pending ==> exists item :: item in items && n in m.Nodes(item)
  }

  /** Each node of a reached item either is still to be walked or mentions nothing new. */
  ghost predicate Awaited(m: Module, item: Item, pending: seq<Node>, items: set<Item>) {
    forall k :: 0 <= k < |m.Nodes(item)| ==>
      m.Nodes(item)[k] in pending || m.Covered(m.Nodes(item)[k], items)
  }

  lemma MentionIsForced(m: Module, node: Node, i: nat, items: set<Item>, added: Item)
    requires i < |node| && m.Target(node[i]) == Some(added)
    requires Reported(m, [node], items) && Least(m, items)
    ensures Least(m, items + {added})
  {
    assert node in [node];
    var item :| item in items && node in m.Nodes(item);
    forall s | Reaching(m, s)
      ensures items + {added} <= s
    {
      assert m.ClosedItem(item, s);
      assert m.Covered(node, s);
    }
  }

  lemma StartsSearching(m: Module)
    requires "upgrade" in m.functions
    ensures Searching(m, ["upgrade"], {}, [m.functions["upgrade"]], {Function("upgrade")})
  {
    var items := {Function("upgrade")};
    assert m.functions["upgrade"] in m.Nodes(Function("upgrade"));
    assert Function("upgrade") in items;
  }

  lemma StillReported(m: Module, pending: seq<Node>, node: Node, items: set<Item>, added: Item)
    requires Reported(m, pending + [node], items)
    ensures Reported(m, pending + m.Nodes(added) + [node], items + {added})
  {
    forall n | n in pending + m.Nodes(added) + [node]
      ensures exists item :: item in items + {added} && n in m.Nodes(item)
    {
      if n in m.Nodes(added) {
        assert added in items + {added};
      } else {
        assert n in pending + [node];
        var item :| item in items && n in m.Nodes(item);
        assert item in items + {added};
      }
    }
  }

  lemma StillAwaited(m: Module, pending: seq<Node>, node: Node, items: set<Item>, added: Item)
    requires forall item :: item in items ==> Awaited(m, item, pending + [node], items)
    ensures forall item :: item in items + {added} ==>
              Awaited(m, item, pending + m.Nodes(added) + [node], items + {added})
  {
    var more := pending + m.Nodes(added) + [node];
    forall item | item in items + {added}
      ensures Awaited(m, item, more, items + {added})
    {
      forall k | 0 <= k < |m.Nodes(item)|
        ensures m.Nodes(item)[k] in more || m.Covered(m.Nodes(item)[k], items + {added})
      {
        var n := m.Nodes(item)[k];
        if item in items {
          assert Awaited(m, item, pending + [node], items);
          assert n in pending + [node] ==> n in more;
        } else {
          assert n in m.Nodes(added);
        }
      }
    }
  }

  lemma SearchFinds(
    m: Module, reached: seq<string>, followed: set<string>, pending: seq<Node>, node: Node, items: set<Item>, id: string)
    requires Searching(m, reached, followed, pending + [node], items)
    requires id in node && m.Target(id).Some? && m.Target(id).value !in items
    ensures var added := m.Target(id).value;
            Searching(m, if added.Function? then reached + [id] else reached,
                      if added.Alias? then followed + {id} else followed,
                      pending + m.Nodes(added) + [node], items + {added})
  {
    var added := m.Target(id).value;
    var i :| 0 <= i < |node| && node[i] == id;
    assert Reported(m, [node], items) by {
      assert node in pending + [node];
    }
    MentionIsForced(m, node, i, items, added);
    StillReported(m, pending, node, items, added);
    StillAwaited(m, pending, node, items, added);
    StillProgress(m, reached, followed, items, id);
    hide Awaited, Reported, Least, Progress;
  }

  lemma StillProgress(m: Module, reached: seq<string>, followed: set<string>, items: set<Item>, id: string)
    requires Progress(m, reached, followed, items)
    requires m.Target(id).Some? && m.Target(id).value !in items
    ensures var added := m.Target(id).value;
            Progress(m, if added.Function? then reached + [id] else reached,
                     if added.Alias? then followed + {id} else followed, items + {added})
  {
    var added := m.Target(id).value;
    if added.Function? {
      assert Distinct(reached + [id]);
      assert forall f :: f in reached + [id] <==> Function(f) in items + {added};
    }
  }

  lemma DoneWithNode(
    m: Module, reached: seq<string>, followed: set<string>, pending: seq<Node>, node: Node, items: set<Item>)
    requires Searching(m, reached, followed, pending + [node], items) && m.Covered(node, items)
    ensures Searching(m, reached, followed, pending, items)
  {
    assert forall n :: n in pending ==> n in pending + [node];
    forall item | item in items
      ensures Awaited(m, item, pending, items)
    {
      assert Awaited(m, item, pending + [node], items);
    }
  }

  /** The least closed set is exactly what chains of mentions from `upgrade` lead to. */
  lemma LeastIsReachedByMentions(m: Module, items: set<Item>)
    requires "upgrade" in m.functions && LeastReaching(m, items)
    ensures forall item :: item in items <==> exists path :: m.Chain(path) && path[|path| - 1] == item
  {
    var chained := set item | item in m.Universe() && exists path :: m.Chain(path) && path[|path| - 1] == item;
    assert m.Chain([Function("upgrade")]);
    assert Function("upgrade") == [Function("upgrade")][|[Function("upgrade")]| - 1];
    forall item, k, i | item in chained && 0 <= k < |m.Nodes(item)| && 0 <= i < |m.Nodes(item)[k]|
      && m.Target(m.Nodes(item)[k][i]).Some?
      ensures m.Target(m.Nodes(item)[k][i]).value in chained
    {
      var next := m.Target(m.Nodes(item)[k][i]).value;
      var path :| m.Chain(path) && path[|path| - 1] == item;
      assert m.Leads(item, next);
      assert m.Chain(path + [next]);
      assert (path + [next])[|path + [next]| - 1] == next;
    }
    assert Reaching(m, chained);
    forall path | m.Chain(path)
      ensures path[|path| - 1] in items
    {
      ChainsStayInside(m, path, items);
    }
  }

  lemma {:induction false} ChainsStayInside(m: Module, path: seq<Item>, items: set<Item>)
    requires m.Chain(path) && Reaching(m, items)
    ensures path[|path| - 1] in items
    decreases |path|
  {
    if |path| > 1 {
      var n := |path| - 2;
      ChainsStayInside(m, path[..n + 1], items);
      assert m.Leads(path[n], path[n + 1]);
      assert m.ClosedItem(path[n], items);
    }
  }

  /** A mention leads to the function of that name, and to the alias only where no function has it. */
  lemma MentionsLeadExactly(m: Module, from: Item, to: Item)
    ensures m.Leads(from, to) <==>
            && (to.Function? ==> to.name in m.functions)
            && (to.Alias? ==> to.name in m.aliases && to.name !in m.functions)
            && match from {
                 case Function(f) => f in m.functions && to.name in m.functions[f]
                 case Alias(a) => a in m.aliases && exists node :: node in m.aliases[a] && to.name in node
               }
  {
    if m.Leads(from, to) {
      var k, i :| 0 <= k < |m.Nodes(from)| && 0 <= i < |m.Nodes(from)[k]| && m.Target(m.Nodes(from)[k][i]) == Some(to);
      assert m.Nodes(from)[k][i] == to.name && m.Nodes(from)[k] in m.Nodes(from);
    }
    if (to.name in m.functions || to.name in m.aliases) && m.Target(to.name) == Some(to)
       && exists node :: node in m.Nodes(from) && to.name in node {
      var node :| node in m.Nodes(from) && to.name in node;
      var k :| 0 <= k < |m.Nodes(from)| && m.Nodes(from)[k] == node;
      var i :| 0 <= i < |node| && node[i] == to.name;
      assert m.Target(m.Nodes(from)[k][i]) == Some(to);
    }
    if from.Function? && from.name in m.functions {
      assert m.functions[from.name] in m.Nodes(from);
    }
  }

  // ----- the baseline ---------------------------------------------------------------------------

  datatype Operation = Operation(kind: string, line: nat, target: string) {

    /** Kind and target as the baseline spells them; a missing target leaves the kind alone. */
    function Signature(): string {
      Strip(kind + " " + target)
    }
  }

  /** Kinds hold no blank, so a signature tells kind and target; one without a target is the kind alone. */
  lemma SignatureTellsTheOperation(a: Operation, b: Operation)
    requires Solid(a.kind) && Solid(b.kind) && Trimmed(a.target) && Trimmed(b.target)
    ensures a.Signature() == b.Signature() <==> a.kind == b.kind && a.target == b.target
    ensures a.Signature() == if a.target == "" then a.kind else a.kind + " " + a.target
  {
    SignatureIs(a);
    SignatureIs(b);
    hide Solid, Trimmed;
    var s := a.Signature();
    if s == b.Signature() && ' ' in s {
      assert s == a.kind + " " + a.target == b.kind + " " + b.target;
      KindEnds(a.kind, a.target);
      KindEnds(b.kind, b.target);
      assert FirstBlank(s) == |a.kind| == |b.kind|;
      assert s[..|a.kind|] == a.kind && s[..|b.kind|] == b.kind;
      assert s[|a.kind| + 1..] == a.target && s[|b.kind| + 1..] == b.target;
    }
  }

  predicate Solid(kind: string) {
    kind != "" && forall i :: 0 <= i < |kind| ==> !Blank(kind[i])
  }

  lemma SignatureIs(a: Operation)
    requires Solid(a.kind) && Trimmed(a.target)
    ensures a.Signature() == if a.target == "" then a.kind else a.kind + " " + a.target
    ensures ' ' !in a.kind
  {
    var s := a.kind + " " + a.target;
    if a.target == "" {
      assert s == a.kind + " " && s[0] == a.kind[0] && s[..|s| - 1] == a.kind;
      TrimmedStays(a.kind);
    } else {
      assert Trimmed(s) by {
        assert s[0] == a.kind[0] && s[|s| - 1] == a.target[|a.target| - 1];
      }
      TrimmedStays(s);
    }
  }

  function FirstBlank(s: string): nat {
    if s == "" || s[0] == ' ' then 0 else 1 + FirstBlank(s[1..])
  }

  lemma {:induction false} KindEnds(kind: string, target: string)
    requires ' ' !in kind
    ensures FirstBlank(kind + " " + target) == |kind|
  {
    if kind != "" {
      assert (kind + " " + target)[1..] == kind[1..] + " " + target;
      KindEnds(kind[1..], target);
    }
  }

  function Signatures(operations: seq<Operation>): multiset<string> {
    multiset(seq(|operations|, i requires 0 <= i < |operations| => operations[i].Signature()))
  }

  lemma SignaturesAppend(operations: seq<Operation>, last: Operation)
    ensures Signatures(operations + [last]) == Signatures(operations) + multiset{last.Signature()}
  {
    var all := operations + [last];
    assert seq(|all|, i requires 0 <= i < |all| => all[i].Signature())
        == seq(|operations|, i requires 0 <= i < |operations| => operations[i].Signature()) + [last.Signature()];
  }

  /** Operation `i` is excused when fewer of its kind precede it than were recorded. */
  predicate Excused(operations: seq<Operation>, i: int, recorded: seq<string>)
    requires 0 <= i < |operations|
  {
    var signature := operations[i].Signature();
    Signatures(operations[..i])[signature] < multiset(recorded)[signature]
  }

  function Beyond(operations: seq<Operation>, recorded: seq<string>): seq<Operation> {
    if operations == [] then []
    else
      var last := |operations| - 1;
      Beyond(operations[..last], recorded)
      + if Excused(operations, last, recorded) then [] else [operations[last]]
  }

  lemma DifferenceStep(all: multiset<string>, recorded: multiset<string>, x: string)
    ensures all[x] < recorded[x] ==> all + multiset{x} - recorded == all - recorded
    ensures all[x] >= recorded[x] ==> all + multiset{x} - recorded == all - recorded + multiset{x}
    ensures all[x] < recorded[x] <==> (recorded - all)[x] > 0
    ensures all[x] < recorded[x] ==> recorded - (all + multiset{x}) == (recorded - all)[x := (recorded - all)[x] - 1]
    ensures all[x] >= recorded[x] ==> recorded - (all + multiset{x}) == recorded - all
  {
  }

  lemma BeyondStep(operations: seq<Operation>, recorded: seq<string>)
    requires operations != []
    ensures var last := |operations| - 1;
            var kept := Beyond(operations[..last], recorded);
            && Signatures(operations) == Signatures(operations[..last]) + multiset{operations[last].Signature()}
            && (Excused(operations, last, recorded) ==> Beyond(operations, recorded) == kept)
            && (!Excused(operations, last, recorded) ==> Beyond(operations, recorded) == kept + [operations[last]])
  {
    var last := |operations| - 1;
    assert operations == operations[..last] + [operations[last]];
    SignaturesAppend(operations[..last], operations[last]);
  }

  /** What a file contains beyond its recorded operations: the multiset difference, in source order. */
  lemma {:induction false} BeyondIsTheDifference(operations: seq<Operation>, recorded: seq<string>)
    ensures Subsequence(Beyond(operations, recorded), operations)
    ensures Signatures(Beyond(operations, recorded)) == Signatures(operations) - multiset(recorded)
  {
    if operations != [] {
      var last := |operations| - 1;
      var operation := operations[last];
      var kept := Beyond(operations[..last], recorded);
      BeyondIsTheDifference(operations[..last], recorded);
      BeyondStep(operations, recorded);
      DifferenceStep(Signatures(operations[..last]), multiset(recorded), operation.Signature());
      if !Excused(operations, last, recorded) {
        SignaturesAppend(kept, operation);
        assert (kept + [operation])[..|kept|] == kept;
      }
    }
  }

  method BeyondBaseline(operations: seq<Operation>, recorded: seq<string>) returns (extra: seq<Operation>)
    ensures extra == Beyond(operations, recorded)
    ensures Subsequence(extra, operations)
    ensures Signatures(extra) == Signatures(operations) - multiset(recorded)
  {
    var allowance := multiset(recorded);
    extra := [];
    for k := 0 to |operations|
      invariant allowance == multiset(recorded) - Signatures(operations[..k])
      invariant extra == Beyond(operations[..k], recorded)
    {
      var operation := operations[k];
      assert operations[..k + 1][..k] == operations[..k] && operations[..k + 1][k] == operation;
      BeyondStep(operations[..k + 1], recorded);
      DifferenceStep(Signatures(operations[..k]), multiset(recorded), operation.Signature());
      if allowance[operation.Signature()] > 0 {
        allowance := allowance[operation.Signature() := allowance[operation.Signature()] - 1];
      } else {
        extra := extra + [operation];
      }
    }
    assert operations[..|operations|] == operations;
    BeyondIsTheDifference(operations, recorded);
  }

  // ----- one file ----------------------------------------------------------------------------------

  datatype Marker = Marker(declared: bool, releaseNamed: bool)

  /** What parsing a migration yields: its destructive operations and its marker, or nothing. */
  type Source = Option<(seq<Operation>, Marker)>

  datatype Reason = DoesNotParse | NotRecorded | ReleaseNotNamed | NotMarked

  /** Where, what (an operation's signature, or nothing) and why. */
  datatype Violation = Violation(path: string, line: nat, what: string, reason: Reason)

  /** One violation for each operation, in their order, at its line and naming it. */
  ghost predicate OneEach(violations: seq<Violation>, name: string, operations: seq<Operation>, reason: Reason) {
    && |violations| == |operations|
    && forall i :: 0 <= i < |operations| ==>
         violations[i] == Violation(name, operations[i].line, operations[i].Signature(), reason)
  }

  method FileViolations(name: string, source: Source, baseline: map<string, seq<string>>)
    returns (violations: seq<Violation>)
    ensures source == None ==> violations == [Violation(name, 0, "", DoesNotParse)]
    ensures source.Some? ==>
              var (operations, marker) := source.value;
              && (violations == [] <==>
                    || operations == []
                    || (name !in baseline && marker.declared && marker.releaseNamed)
                    || (name in baseline && Signatures(operations) <= multiset(baseline[name])))
              && (name in baseline ==>
                    && |violations| == |Signatures(operations) - multiset(baseline[name])|
                    && exists blamed :: Subsequence(blamed, operations)
                                        && Signatures(blamed) == Signatures(operations) - multiset(baseline[name])
                                        && OneEach(violations, name, blamed, NotRecorded))
              && (name !in baseline && !marker.declared ==> OneEach(violations, name, operations, NotMarked))
              && (name !in baseline && marker.declared && !marker.releaseNamed ==>
                    OneEach(violations, name, operations, ReleaseNotNamed))
  {
    if source == None {
      return [Violation(name, 0, "", DoesNotParse)];
    }
    var (operations, marker) := source.value;
    SizeOfSignatures(operations);
    var blamed, reason := operations, NotMarked;
    if name in baseline {
      blamed := BeyondBaseline(operations, baseline[name]);
      reason := NotRecorded;
      SizeOfSignatures(blamed);
      NothingBeyond(Signatures(operations), multiset(baseline[name]));
      if operations == [] {
        assert Signatures(operations) <= multiset(baseline[name]);
      }
    } else if marker.declared && marker.releaseNamed {
      return [];
    } else if marker.declared {
      reason := ReleaseNotNamed;
    }
    violations := seq(|blamed|, i requires 0 <= i < |blamed| =>
      Violation(name, blamed[i].line, blamed[i].Signature(), reason));
  }

  lemma SizeOfSignatures(operations: seq<Operation>)
    ensures |Signatures(operations)| == |operations|
  {
    var signatures := seq(|operations|, i requires 0 <= i < |operations| => operations[i].Signature());
    assert |multiset(signatures)| == |signatures|;
  }

  lemma NothingBeyond(all: multiset<string>, recorded: multiset<string>)
    ensures |all - recorded| == 0 <==> all <= recorded
  {
    if |all - recorded| == 0 {
      assert all - recorded == multiset{};
      forall x
        ensures all[x] <= recorded[x]
      {
        assert (all - recorded)[x] == 0;
      }
    } else {
      var x :| x in all - recorded;
      assert all[x] > recorded[x];
    }
  }
}
