/**
 * The isolation checker's rules: every environment declares the same identifiers, each is
 * tagged with its own environment, and no identifier names one thing in two places.
 */
module EnvironmentIsolation {
  import opened Casing
  import opened Ordering
  import opened Trimming
  import TerraformBlocks

  datatype Scalar = Null | Flag(on: bool) | Number(value: int) | Text(text: string)

  datatype IdentifierKey = IdentifierKey(name: string, placeholder: bool, nullIn: set<string>)

  const EXPECTED: set<string> := {"classroom", "dev", "prod", "staging"}

  const IDENTIFIERS: seq<IdentifierKey> := [
    IdentifierKey("project_id", true, {}),
    IdentifierKey("database_instance", true, {}),
    IdentifierKey("database_name", true, {}),
    IdentifierKey("evidence_bucket", true, {}),
    IdentifierKey("artifact_bucket", true, {}),
    IdentifierKey("task_queue", true, {}),
    IdentifierKey("api_service_account", true, {}),
    IdentifierKey("worker_service_account", true, {}),
    IdentifierKey("api_service", true, {}),
    IdentifierKey("worker_service", true, {}),
    IdentifierKey("scheduler_job", true, {}),
    IdentifierKey("database_secret_id", true, {}),
    IdentifierKey("provider_secret_id", true, {"classroom"}),
    IdentifierKey("release_tag_prefix", false, {})
  ]

  const SETTINGS: set<string> := {
    "environment", "region", "provider_mode", "data_class", "min_instances", "max_instances",
    "database_version", "database_tier", "dispatch_cron", "promotion_source"
  }

  const PLACEHOLDER := "example"

  const RESERVED: seq<string> := [
    "example.com", "example.net", "example.org", "example.invalid", "example.test",
    ".invalid", ".test", ".example", ".localhost"
  ]

  /** The parsed configuration of one environment directory. */
  datatype Environment = Environment(blocks: seq<TerraformBlocks.Block>, values: map<string, Scalar>)

  datatype Code =
    | MissingEnvironment | UnlistedEnvironment
    | DeployableBlock | StateBackend | MissingKey | UnclassifiedKey | EnvironmentName
    | MissingIdentifier | UnexpectedIdentifier | IdentifierType | IdentifierCharset
    | NotAPlaceholder | UnreservedDomain | UntaggedIdentifier | ForeignEnvironment
    | SharedIdentifier

  /** A violation, by rule and by what it is about: an environment, or the absent and extra ones. */
  datatype Finding = Finding(code: Code, about: seq<string>)

  // ----- one value -----------------------------------------------------------------------------

  predicate Divider(c: char) {
    c == '-' || c == '.' || c == '_' || c == '@'
  }

  function PieceLength(s: string): (n: nat)
    ensures n <= |s|
  {
    if s == "" || Divider(s[0]) then 0 else 1 + PieceLength(s[1..])
  }

  /** The non-empty pieces of a text between separators. */
  function Pieces(s: string): set<string>
    decreases |s|
  {
    if s == "" then {}
    else if Divider(s[0]) then Pieces(s[1..])
    else {s[..PieceLength(s)]} + Pieces(s[PieceLength(s)..])
  }

  function Tokens(value: string): set<string> {
    Pieces(Lower(value))
  }

  predicate IdentifierChar(c: char) {
    'a' <= c <= 'z' || '0' <= c <= '9'
  }

  predicate WellSpelled(value: string) {
    value != "" && IdentifierChar(value[0]) && forall i :: 0 <= i < |value| ==> IdentifierChar(value[i]) || Divider(value[i])
  }

  /** What follows the last `@`. */
  function Host(value: string): string {
    if '@' !in value then value else Host(value[1..])
  }

  predicate EndsWith(s: string, suffix: string) {
    |suffix| <= |s| && s[|s| - |suffix|..] == suffix
  }

  predicate RealDomain(value: string) {
    var host := Host(value);
    '.' in host && forall d :: d in RESERVED ==> !EndsWith(host, d)
  }

  function FindingWhen(condition: bool, code: Code, name: string): seq<Finding> {
    if condition then [Finding(code, [name])] else []
  }

  /** Spelling, placeholder form, domain, and environment tagging. */
  function TextFindings(name: string, key: IdentifierKey, text: string): seq<Finding> {
    FindingWhen(!WellSpelled(text), IdentifierCharset, name)
    + FindingWhen(key.placeholder && PLACEHOLDER !in Tokens(text), NotAPlaceholder, name)
    + FindingWhen(RealDomain(text), UnreservedDomain, name)
    + FindingWhen(name !in Tokens(text), UntaggedIdentifier, name)
    + FindingWhen(Tokens(text) * (EXPECTED - {name}) != {}, ForeignEnvironment, name)
  }

  /** Nullability and type of one identifier, then what its text breaks. */
  function ValueFindings(name: string, key: IdentifierKey, value: Scalar): seq<Finding> {
    if value == Null then FindingWhen(name !in key.nullIn, MissingIdentifier, name)
    else
      FindingWhen(name in key.nullIn, UnexpectedIdentifier, name)
      + if value.Text? then TextFindings(name, key, value.text) else [Finding(IdentifierType, [name])]
  }

  function IdentifierFindings(name: string, values: map<string, Scalar>, keys: seq<IdentifierKey>): seq<Finding> {
    if keys == [] then []
    else
      (if keys[0].name in values then ValueFindings(name, keys[0], values[keys[0].name]) else [])
      + IdentifierFindings(name, values, keys[1..])
  }

  // ----- one environment --------------------------------------------------------------------------

  function KeyNames(keys: seq<IdentifierKey>): set<string> {
    set k | k in keys :: k.name
  }

  predicate BackendLine(line: string) {
    || (|line| >= 7 && line[..7] == "backend" && (|line| == 7 || !TerraformBlocks.NamePart(line[7]) || line[7] == '-'))
    || (|line| >= 5 && line[..5] == "cloud" && (|line| == 5 || !TerraformBlocks.NamePart(line[5]) || line[5] == '-'))
  }

  function BackendFindings(name: string, body: seq<string>): seq<Finding> {
    if body == [] then [] else FindingWhen(BackendLine(body[0]), StateBackend, name) + BackendFindings(name, body[1..])
  }

  function BlockFindings(name: string, blocks: seq<TerraformBlocks.Block>): seq<Finding> {
    if blocks == [] then []
    else
      FindingWhen(blocks[0].kind !in {"terraform", "locals"}, DeployableBlock, name)
      + (if blocks[0].kind == "terraform" then BackendFindings(name, blocks[0].body) else [])
      + BlockFindings(name, blocks[1..])
  }

  function ShapeFindings(name: string, env: Environment): seq<Finding> {
    var expected := KeyNames(IDENTIFIERS) + SETTINGS;
    BlockFindings(name, env.blocks)
    + FindingWhen(expected - env.values.Keys != {}, MissingKey, name)
    + FindingWhen(env.values.Keys - expected != {}, UnclassifiedKey, name)
    + FindingWhen("environment" !in env.values || env.values["environment"] != Text(name), EnvironmentName, name)
  }

  // ----- across environments -------------------------------------------------------------------------

  type Registry = map<string, Environment>

  /** One declared identifier: where it is declared, and the name it comes down to. */
  datatype Declared = Declared(environment: string, key: string, normal: string)

  function DeclaredIn(name: string, values: map<string, Scalar>, keys: seq<IdentifierKey>): seq<Declared> {
    if keys == [] then []
    else
      (if keys[0].name in values && values[keys[0].name].Text?
       then [Declared(name, keys[0].name, Normal(values[keys[0].name].text))] else [])
      + DeclaredIn(name, values, keys[1..])
  }

  function AllDeclared(names: seq<string>, registry: Registry, keys: seq<IdentifierKey>): seq<Declared>
    requires forall n :: n in names ==> n in registry
  {
    if names == [] then []
    else DeclaredIn(names[0], registry[names[0]].values, keys) + AllDeclared(names[1..], registry, keys)
  }

  function Owner(normal: string, d: Declared): seq<Declared> {
    if d.normal == normal then [d] else []
  }

  function OwnersOf(normal: string, declared: seq<Declared>): seq<Declared> {
    if declared == [] then [] else Owner(normal, declared[0]) + OwnersOf(normal, declared[1..])
  }

  /** One finding per name declared more than once, in name order, blaming its first owner. */
  function SharedFindings(normals: seq<string>, declared: seq<Declared>): seq<Finding> {
    if normals == [] then []
    else
      (if |OwnersOf(normals[0], declared)| < 2 then []
       else [Finding(SharedIdentifier, [OwnersOf(normals[0], declared)[0].environment])])
      + SharedFindings(normals[1..], declared)
  }

  function Normals(declared: seq<Declared>): set<string> {
    set d | d in declared :: d.normal
  }

  function DisjointFindings(registry: Registry, keys: seq<IdentifierKey>): seq<Finding> {
    var declared := AllDeclared(Sorted(registry.Keys), registry, keys);
    SharedFindings(Sorted(Normals(declared)), declared)
  }

  function EnvironmentFindings(names: seq<string>, registry: Registry): seq<Finding>
    requires forall n :: n in names ==> n in registry
  {
    if names == [] then []
    else
      ShapeFindings(names[0], registry[names[0]])
      + IdentifierFindings(names[0], registry[names[0]].values, IDENTIFIERS)
      + EnvironmentFindings(names[1..], registry)
  }

  function RosterFindings(registry: Registry): seq<Finding> {
    (if EXPECTED - registry.Keys != {} then [Finding(MissingEnvironment, Sorted(EXPECTED - registry.Keys))] else [])
    + if registry.Keys - EXPECTED != {} then [Finding(UnlistedEnvironment, Sorted(registry.Keys - EXPECTED))] else []
  }

  function RegistryFindings(registry: Registry): seq<Finding> {
    RosterFindings(registry)
    + EnvironmentFindings(Sorted(registry.Keys), registry)
    + DisjointFindings(registry, IDENTIFIERS)
  }

  // ----- the report the rules append to ----------------------------------------------------------------

  lemma NoneDeclared(registry: Registry, keys: seq<IdentifierKey>)
    ensures AllDeclared([], registry, keys) == []
  {
  }

  lemma DeclaredFromOn(names: seq<string>, i: nat, registry: Registry, keys: seq<IdentifierKey>)
    requires i < |names| && forall n :: n in names ==> n in registry
    ensures AllDeclared(names[i..], registry, keys)
            == DeclaredIn(names[i], registry[names[i]].values, keys) + AllDeclared(names[i + 1..], registry, keys)
  {
    hide DeclaredIn;
    assert names[i..][1..] == names[i + 1..];
  }

  class Report {
    var findings: seq<Finding>
    var identifiersChecked: nat

    constructor ()
      ensures findings == [] && identifiersChecked == 0
    {
      findings := [];
      identifiersChecked := 0;
    }

    method Add(condition: bool, code: Code, name: string)
      modifies this`findings
      ensures findings == old(findings) + FindingWhen(condition, code, name)
    {
      if condition {
        findings := findings + [Finding(code, [name])];
      }
    }

    method CheckIdentifierValue(name: string, key: IdentifierKey, value: Scalar)
      modifies this`findings
      ensures findings == old(findings) + ValueFindings(name, key, value)
    {
      hide WellSpelled, RealDomain, Tokens;
      if value == Null {
        Add(name !in key.nullIn, MissingIdentifier, name);
        return;
      }
      Add(name in key.nullIn, UnexpectedIdentifier, name);
      ghost var before := findings;
      if !value.Text? {
        findings := findings + [Finding(IdentifierType, [name])];
      } else {
        CheckText(name, key, value.text);
      }
      Associate(old(findings), FindingWhen(name in key.nullIn, UnexpectedIdentifier, name), findings[|before|..]);
    }

    method CheckText(name: string, key: IdentifierKey, text: string)
      modifies this`findings
      ensures findings == old(findings) + TextFindings(name, key, text)
    {
      hide WellSpelled, RealDomain, Tokens, FindingWhen;
      ghost var before := findings;
      Add(!WellSpelled(text), IdentifierCharset, name);
      ghost var noted := FindingWhen(!WellSpelled(text), IdentifierCharset, name);
      Add(key.placeholder && PLACEHOLDER !in Tokens(text), NotAPlaceholder, name);
      Associate(before, noted, FindingWhen(key.placeholder && PLACEHOLDER !in Tokens(text), NotAPlaceholder, name));
      noted := noted + FindingWhen(key.placeholder && PLACEHOLDER !in Tokens(text), NotAPlaceholder, name);
      Add(RealDomain(text), UnreservedDomain, name);
      Associate(before, noted, FindingWhen(RealDomain(text), UnreservedDomain, name));
      noted := noted + FindingWhen(RealDomain(text), UnreservedDomain, name);
      var tokens := Tokens(text);
      Add(name !in tokens, UntaggedIdentifier, name);
      Associate(before, noted, FindingWhen(name !in tokens, UntaggedIdentifier, name));
      noted := noted + FindingWhen(name !in tokens, UntaggedIdentifier, name);
      Add(tokens * (EXPECTED - {name}) != {}, ForeignEnvironment, name);
      Associate(before, noted, FindingWhen(tokens * (EXPECTED - {name}) != {}, ForeignEnvironment, name));
    }

    method CheckBackend(name: string, body: seq<string>)
      modifies this`findings
      ensures findings == old(findings) + BackendFindings(name, body)
    {
      hide BackendLine, FindingWhen;
      for j := 0 to |body|
        invariant old(findings) + BackendFindings(name, body) == findings + BackendFindings(name, body[j..])
      {
        assert body[j..][1..] == body[j + 1..];
        Associate(findings, FindingWhen(BackendLine(body[j]), StateBackend, name), BackendFindings(name, body[j + 1..]));
        Add(BackendLine(body[j]), StateBackend, name);
      }
      assert body[|body|..] == [];
    }

    method CheckBlocks(name: string, blocks: seq<TerraformBlocks.Block>)
      modifies this`findings
      ensures findings == old(findings) + BlockFindings(name, blocks)
    {
      hide FindingWhen, BackendFindings;
      for i := 0 to |blocks|
        invariant old(findings) + BlockFindings(name, blocks) == findings + BlockFindings(name, blocks[i..])
      {
        var block := blocks[i];
        assert blocks[i..][1..] == blocks[i + 1..];
        ghost var before := findings;
        ghost var own := FindingWhen(block.kind !in {"terraform", "locals"}, DeployableBlock, name);
        ghost var inner := if block.kind == "terraform" then BackendFindings(name, block.body) else [];
        Add(block.kind !in {"terraform", "locals"}, DeployableBlock, name);
        if block.kind == "terraform" {
          CheckBackend(name, block.body);
        }
        Associate(before, own, inner);
        Associate(before, own + inner, BlockFindings(name, blocks[i + 1..]));
        assert findings == before + (own + inner);
      }
      assert blocks[|blocks|..] == [];
    }

    method CheckShape(name: string, env: Environment)
      modifies this`findings
      ensures findings == old(findings) + ShapeFindings(name, env)
    {
      hide FindingWhen, BlockFindings, KeyNames;
      ghost var before := findings;
      var expected := KeyNames(IDENTIFIERS) + SETTINGS;
      CheckBlocks(name, env.blocks);
      ghost var noted := BlockFindings(name, env.blocks);
      Add(expected - env.values.Keys != {}, MissingKey, name);
      Associate(before, noted, FindingWhen(expected - env.values.Keys != {}, MissingKey, name));
      noted := noted + FindingWhen(expected - env.values.Keys != {}, MissingKey, name);
      Add(env.values.Keys - expected != {}, UnclassifiedKey, name);
      Associate(before, noted, FindingWhen(env.values.Keys - expected != {}, UnclassifiedKey, name));
      noted := noted + FindingWhen(env.values.Keys - expected != {}, UnclassifiedKey, name);
      var misnamed := "environment" !in env.values || env.values["environment"] != Text(name);
      Add(misnamed, EnvironmentName, name);
      Associate(before, noted, FindingWhen(misnamed, EnvironmentName, name));
    }

    method CheckIdentifiers(name: string, values: map<string, Scalar>, keys: seq<IdentifierKey>)
      modifies this
      ensures findings == old(findings) + IdentifierFindings(name, values, keys)
      ensures identifiersChecked == old(identifiersChecked) + |KeysPresent(values, keys)|
    {
      hide ValueFindings;
      for i := 0 to |keys|
        invariant old(findings) + IdentifierFindings(name, values, keys)
               == findings + IdentifierFindings(name, values, keys[i..])
        invariant old(identifiersChecked) + |KeysPresent(values, keys)|
               == identifiersChecked + |KeysPresent(values, keys[i..])|
      {
        var key := keys[i];
        ghost var rest := IdentifierFindings(name, values, keys[i + 1..]);
        assert keys[i..][1..] == keys[i + 1..];
        Associate(findings, if key.name in values then ValueFindings(name, key, values[key.name]) else [], rest);
        if key.name in values {
          identifiersChecked := identifiersChecked + 1;
          CheckIdentifierValue(name, key, values[key.name]);
        }
      }
      assert keys[|keys|..] == [];
    }

    /** The inner loop of the disjointness rule: one environment's identifiers join the index. */
    static method IndexEnvironment(
      name: string, values: map<string, Scalar>, keys: seq<IdentifierKey>,
      before: map<string, seq<Declared>>, ghost met: seq<Declared>)
      returns (seen: map<string, seq<Declared>>)
      requires Indexed(before, met)
      ensures Indexed(seen, met + DeclaredIn(name, values, keys))
    {
      hide Normal, OwnersOf, Normals;
      seen := before;
      ghost var now := met;
      assert keys[0..] == keys;
      for j := 0 to |keys|
        invariant Indexed(seen, now)
        invariant met + DeclaredIn(name, values, keys) == now + DeclaredIn(name, values, keys[j..])
      {
        var key := keys[j];
        assert keys[j..][1..] == keys[j + 1..];
        if key.name in values && values[key.name].Text? {
          var d := Declared(name, key.name, Normal(values[key.name].text));
          IndexOneMore(seen, now, d);
          var owners := if d.normal in seen then seen[d.normal] else [];
          seen := seen[d.normal := owners + [d]];
          Associate(now, [d], DeclaredIn(name, values, keys[j + 1..]));
          now := now + [d];
        }
      }
      assert keys[|keys|..] == [] && now + [] == now;
    }

    static method IndexAll(names: seq<string>, registry: Registry, keys: seq<IdentifierKey>)
      returns (seen: map<string, seq<Declared>>)
      requires forall n :: n in names ==> n in registry
      ensures Indexed(seen, AllDeclared(names, registry, keys))
    {
      NoneDeclared(registry, keys);
      hide DeclaredIn, Indexed, AllDeclared;
      ghost var declared := AllDeclared(names, registry, keys);
      seen := map[];
      ghost var met: seq<Declared> := [];
      NothingIndexed();
      assert names[0..] == names;
      for i := 0 to |names|
        invariant Indexed(seen, met)
        invariant declared == met + AllDeclared(names[i..], registry, keys)
      {
        var values := registry[names[i]].values;
        DeclaredFromOn(names, i, registry, keys);
        Associate(met, DeclaredIn(names[i], values, keys), AllDeclared(names[i + 1..], registry, keys));
        seen := IndexEnvironment(names[i], values, keys, seen, met);
        met := met + DeclaredIn(names[i], values, keys);
      }
      assert names[|names|..] == [] && declared == met;
    }

    method CheckDisjoint(registry: Registry, keys: seq<IdentifierKey>)
      modifies this`findings
      ensures findings == old(findings) + DisjointFindings(registry, keys)
    {
      hide Sorted, Normals, AllDeclared, Indexed, SharedFindings;
      var names := Sorted(registry.Keys);
      ghost var declared := AllDeclared(names, registry, keys);
      var seen := IndexAll(names, registry, keys);
      IndexedNames(seen, declared);
      ReportShared(Sorted(seen.Keys), seen, declared);
    }

    method ReportShared(normals: seq<string>, seen: map<string, seq<Declared>>, ghost declared: seq<Declared>)
      requires Indexed(seen, declared) && forall n :: n in normals ==> n in seen
      modifies this`findings
      ensures findings == old(findings) + SharedFindings(normals, declared)
    {
      hide OwnersOf, Normals;
      for i := 0 to |normals|
        invariant old(findings) + SharedFindings(normals, declared) == findings + SharedFindings(normals[i..], declared)
      {
        assert normals[i..][1..] == normals[i + 1..];
        var owners := seen[normals[i]];
        if |owners| >= 2 {
          var finding := Finding(SharedIdentifier, [owners[0].environment]);
          Associate(findings, [finding], SharedFindings(normals[i + 1..], declared));
          findings := findings + [finding];
        }
      }
      assert normals[|normals|..] == [];
    }

    method CheckEnvironments(names: seq<string>, registry: Registry)
      requires forall n :: n in names ==> n in registry
      modifies this
      ensures findings == old(findings) + EnvironmentFindings(names, registry)
    {
      hide ShapeFindings, IdentifierFindings, KeysPresent;
      for i := 0 to |names|
        invariant old(findings) + EnvironmentFindings(names, registry)
               == findings + EnvironmentFindings(names[i..], registry)
      {
        var env := registry[names[i]];
        ghost var held, rest := findings, EnvironmentFindings(names[i + 1..], registry);
        assert names[i..][1..] == names[i + 1..];
        CheckShape(names[i], env);
        CheckIdentifiers(names[i], env.values, IDENTIFIERS);
        ghost var shape, values := ShapeFindings(names[i], env), IdentifierFindings(names[i], env.values, IDENTIFIERS);
        Associate(held, shape, values);
        Associate(held, shape + values, rest);
      }
      assert names[|names|..] == [];
    }

    /** The registry rules, in the order the checker runs them. */
    method Check(registry: Registry)
      modifies this
      ensures findings == old(findings) + RegistryFindings(registry)
    {
      hide RosterFindings, EnvironmentFindings, DisjointFindings, Sorted;
      var names := Sorted(registry.Keys);
      CheckRoster(registry);
      CheckEnvironments(names, registry);
      CheckDisjoint(registry, IDENTIFIERS);
      ghost var roster, each := RosterFindings(registry), EnvironmentFindings(names, registry);
      Associate(old(findings), roster, each);
      Associate(old(findings), roster + each, DisjointFindings(registry, IDENTIFIERS));
    }

    method CheckRoster(registry: Registry)
      modifies this`findings
      ensures findings == old(findings) + RosterFindings(registry)
    {
      hide Sorted;
      var missing := EXPECTED - registry.Keys;
      var extra := registry.Keys - EXPECTED;
      if missing != {} {
        findings := findings + [Finding(MissingEnvironment, Sorted(missing))];
      }
      if extra != {} {
        findings := findings + [Finding(UnlistedEnvironment, Sorted(extra))];
      }
    }
  }

  function KeysPresent(values: map<string, Scalar>, keys: seq<IdentifierKey>): seq<string> {
    if keys == [] then []
    else (if keys[0].name in values then [keys[0].name] else []) + KeysPresent(values, keys[1..])
  }

  /** The index groups what was met by name, in the order it was met. */
  ghost predicate Indexed(seen: map<string, seq<Declared>>, met: seq<Declared>) {
    && (forall n :: n in seen <==> n in Normals(met))
    && forall n :: n in seen ==> seen[n] == OwnersOf(n, met)
  }

  lemma {:induction false} OwnersAppend(n: string, met: seq<Declared>, d: Declared)
    ensures OwnersOf(n, met + [d]) == OwnersOf(n, met) + Owner(n, d)
  {
    hide Owner;
    if met == [] {
      assert met + [d] == [d] && [d][1..] == [];
      assert OwnersOf(n, [d]) == Owner(n, d) + [] == Owner(n, d);
      assert [] + Owner(n, d) == Owner(n, d);
    } else {
      assert (met + [d])[1..] == met[1..] + [d];
      OwnersAppend(n, met[1..], d);
      Associate(Owner(n, met[0]), OwnersOf(n, met[1..]), Owner(n, d));
    }
  }

  lemma {:induction false} NoOwners(n: string, met: seq<Declared>)
    ensures OwnersOf(n, met) == [] <==> n !in Normals(met)
  {
    if met != [] {
      NoOwners(n, met[1..]);
      assert met == [met[0]] + met[1..];
    }
  }

  lemma IndexedNames(seen: map<string, seq<Declared>>, met: seq<Declared>)
    requires Indexed(seen, met)
    ensures seen.Keys == Normals(met)
    ensures forall n :: n in Sorted(seen.Keys) ==> n in seen
  {
  }

  lemma NothingIndexed()
    ensures Indexed(map[], [])
  {
  }

  lemma IndexOneMore(seen: map<string, seq<Declared>>, met: seq<Declared>, d: Declared)
    requires Indexed(seen, met)
    ensures Indexed(seen[d.normal := (if d.normal in seen then seen[d.normal] else []) + [d]], met + [d])
  {
    forall n
      ensures OwnersOf(n, met + [d]) == OwnersOf(n, met) + Owner(n, d)
      ensures OwnersOf(n, met) == [] <==> n !in Normals(met)
      ensures n in Normals(met + [d]) <==> n in Normals(met) || n == d.normal
    {
      OwnersAppend(n, met, d);
      NoOwners(n, met);
      assert forall x :: x in met + [d] <==> x in met || x == d;
    }
  }

  // ----- what a clean report means -------------------------------------------------------------------------

  predicate Has(findings: seq<Finding>, code: Code) {
    exists i :: 0 <= i < |findings| && findings[i].code == code
  }

  lemma WellSpelledIsNormal(value: string)
    requires WellSpelled(value)
    ensures Normal(value) == value && Lower(value) == value
  {
    assert !Blank(value[0]) && !Blank(value[|value| - 1]);
    TrimmedStays(value);
  }

  lemma HasEither(a: seq<Finding>, b: seq<Finding>, code: Code)
    ensures Has(a, code) || Has(b, code) ==> Has(a + b, code)
  {
    if i :| 0 <= i < |a| && a[i].code == code {
      assert (a + b)[i] == a[i];
    }
    if i :| 0 <= i < |b| && b[i].code == code {
      assert (a + b)[|a| + i] == b[i];
    }
  }

  lemma HasFindingWhen(condition: bool, code: Code, name: string)
    requires condition
    ensures Has(FindingWhen(condition, code, name), code)
  {
    assert FindingWhen(condition, code, name)[0].code == code;
  }

  lemma TextRulesReport(name: string, key: IdentifierKey, value: string, code: Code)
    requires || (code == IdentifierCharset && !WellSpelled(value))
             || (code == UntaggedIdentifier && name !in Tokens(value))
             || (code == ForeignEnvironment && Tokens(value) * (EXPECTED - {name}) != {})
    ensures Has(ValueFindings(name, key, Text(value)), code)
  {
    hide WellSpelled, Tokens, RealDomain, Has, FindingWhen;
    var a := FindingWhen(!WellSpelled(value), IdentifierCharset, name);
    var b := FindingWhen(key.placeholder && PLACEHOLDER !in Tokens(value), NotAPlaceholder, name);
    var c := FindingWhen(RealDomain(value), UnreservedDomain, name);
    var d := FindingWhen(name !in Tokens(value), UntaggedIdentifier, name);
    var e := FindingWhen(Tokens(value) * (EXPECTED - {name}) != {}, ForeignEnvironment, name);
    HasFindingWhen(true, code, name);
    HasEither(a, b, code);
    HasEither(a + b, c, code);
    HasEither(a + b + c, d, code);
    HasEither(a + b + c + d, e, code);
    HasEither(FindingWhen(name in key.nullIn, UnexpectedIdentifier, name), TextFindings(name, key, value), code);
  }

  lemma TagsAreExclusive(name: string, key: IdentifierKey, value: string)
    requires forall code | code in {IdentifierCharset, UntaggedIdentifier, ForeignEnvironment} ::
               !Has(ValueFindings(name, key, Text(value)), code)
    ensures WellSpelled(value) && name in Tokens(value) && Tokens(value) * (EXPECTED - {name}) == {}
  {
    hide WellSpelled, Tokens, ValueFindings, Has;
    if !WellSpelled(value) {
      TextRulesReport(name, key, value, IdentifierCharset);
    }
    if name !in Tokens(value) {
      TextRulesReport(name, key, value, UntaggedIdentifier);
    }
    if Tokens(value) * (EXPECTED - {name}) != {} {
      TextRulesReport(name, key, value, ForeignEnvironment);
    }
  }

  /**
   * Tagging alone separates environments: two values that pass the spelling, own-tag and
   * foreign-tag rules in two expected environments do not come down to the same name.
   */
  lemma TaggedValuesAreDisjoint(
    one: string, two: string, key: IdentifierKey, other: IdentifierKey, value: string, another: string)
    requires one in EXPECTED && two in EXPECTED && one != two
    requires forall code | code in {IdentifierCharset, UntaggedIdentifier, ForeignEnvironment} ::
               !Has(ValueFindings(one, key, Text(value)), code) && !Has(ValueFindings(two, other, Text(another)), code)
    ensures Normal(value) != Normal(another)
  {
    TagsAreExclusive(one, key, value);
    TagsAreExclusive(two, other, another);
    WellSpelledIsNormal(value);
    WellSpelledIsNormal(another);
    assert two in Tokens(value) ==> two in Tokens(value) * (EXPECTED - {one});
  }

  lemma {:induction false} ReportedOfEnvironment(
    name: string, values: map<string, Scalar>, keys: seq<IdentifierKey>, k: nat, code: Code)
    requires k < |keys| && keys[k].name in values && Has(ValueFindings(name, keys[k], values[keys[k].name]), code)
    ensures Has(IdentifierFindings(name, values, keys), code)
  {
    hide ValueFindings, Has;
    HasEither(if keys[0].name in values then ValueFindings(name, keys[0], values[keys[0].name]) else [],
              IdentifierFindings(name, values, keys[1..]), code);
    if k > 0 {
      ReportedOfEnvironment(name, values, keys[1..], k - 1, code);
    }
  }

  lemma {:induction false} ReportedOfAny(names: seq<string>, registry: Registry, i: nat, code: Code)
    requires forall n :: n in names ==> n in registry
    requires i < |names| && Has(IdentifierFindings(names[i], registry[names[i]].values, IDENTIFIERS), code)
    ensures Has(EnvironmentFindings(names, registry), code)
  {
    hide IDENTIFIERS, IdentifierFindings, ShapeFindings, Has;
    var shape := ShapeFindings(names[0], registry[names[0]]);
    var own := IdentifierFindings(names[0], registry[names[0]].values, IDENTIFIERS);
    HasEither(shape, own, code);
    HasEither(shape + own, EnvironmentFindings(names[1..], registry), code);
    if i > 0 {
      ReportedOfAny(names[1..], registry, i - 1, code);
    }
  }

  /** What is found of a declared value is found of the registry. */
  lemma ReportedOfRegistry(registry: Registry, name: string, key: IdentifierKey, code: Code)
    requires name in registry && key in IDENTIFIERS && key.name in registry[name].values
    requires Has(ValueFindings(name, key, registry[name].values[key.name]), code)
    ensures Has(RegistryFindings(registry), code)
  {
    var k :| 0 <= k < |IDENTIFIERS| && IDENTIFIERS[k] == key;
    hide IDENTIFIERS, Has, ValueFindings, IdentifierFindings, EnvironmentFindings, DisjointFindings, RosterFindings;
    var names := Sorted(registry.Keys);
    assert name in registry.Keys;
    var i :| 0 <= i < |names| && names[i] == name;
    ReportedOfEnvironment(name, registry[name].values, IDENTIFIERS, k, code);
    ReportedOfAny(names, registry, i, code);
    var roster, each := RosterFindings(registry), EnvironmentFindings(names, registry);
    HasEither(roster, each, code);
    HasEither(roster + each, DisjointFindings(registry, IDENTIFIERS), code);
  }

  lemma DeclaredUnderAKey(registry: Registry, d: Declared) returns (key: IdentifierKey)
    requires Declares(registry, d, IDENTIFIERS)
    ensures key in IDENTIFIERS && key.name == d.key
  {
    key :| key in IDENTIFIERS && key.name == d.key;
  }

  /**
   * The tagging rules carry isolation by themselves: of listed environments, whatever else a report
   * finds, if it finds no misspelt, untagged or foreign-tagged identifier then no identifier of one
   * environment comes down to the same name as one of another.
   */
  lemma TaggedEnvironmentsAreDisjoint(registry: Registry, d: Declared, e: Declared)
    requires registry.Keys <= EXPECTED
    requires forall code | code in {IdentifierCharset, UntaggedIdentifier, ForeignEnvironment} ::
               !Has(RegistryFindings(registry), code)
    requires Declares(registry, d, IDENTIFIERS) && Declares(registry, e, IDENTIFIERS) && d.environment != e.environment
    ensures d.normal != e.normal
  {
    var key := DeclaredUnderAKey(registry, d);
    var other := DeclaredUnderAKey(registry, e);
    assert d.environment in registry.Keys && e.environment in registry.Keys;
    var value, another := registry[d.environment].values[d.key], registry[e.environment].values[e.key];
    hide IDENTIFIERS, EXPECTED, Has, ValueFindings, RegistryFindings, Normal, KeyNames;
    forall code | code in {IdentifierCharset, UntaggedIdentifier, ForeignEnvironment}
      ensures !Has(ValueFindings(d.environment, key, value), code)
      ensures !Has(ValueFindings(e.environment, other, another), code)
    {
      if Has(ValueFindings(d.environment, key, value), code) {
        ReportedOfRegistry(registry, d.environment, key, code);
      }
      if Has(ValueFindings(e.environment, other, another), code) {
        ReportedOfRegistry(registry, e.environment, other, code);
      }
    }
    TaggedValuesAreDisjoint(d.environment, e.environment, key, other, value.text, another.text);
  }

  ghost predicate Injective(declared: seq<Declared>) {
    forall i, j :: 0 <= i < j < |declared| ==> declared[i].normal != declared[j].normal
  }

  lemma {:induction false} TwoOwners(n: string, declared: seq<Declared>)
    ensures |OwnersOf(n, declared)| >= 2 <==>
            exists i, j :: 0 <= i < j < |declared| && declared[i].normal == n && declared[j].normal == n
  {
    if declared != [] {
      var rest := declared[1..];
      TwoOwners(n, rest);
      NoOwners(n, rest);
      if |OwnersOf(n, rest)| >= 2 {
        var i, j :| 0 <= i < j < |rest| && rest[i].normal == n && rest[j].normal == n;
        assert declared[i + 1] == rest[i] && declared[j + 1] == rest[j];
      } else if declared[0].normal == n && OwnersOf(n, rest) != [] {
        var d :| d in rest && d.normal == n;
        var j :| 0 <= j < |rest| && rest[j] == d;
        assert declared[j + 1] == rest[j];
      }
      if i, j :| 0 <= i < j < |declared| && declared[i].normal == n && declared[j].normal == n {
        assert declared[j] == rest[j - 1];
        if i > 0 {
          assert declared[i] == rest[i - 1];
        } else {
          assert rest[j - 1] in rest && n in Normals(rest);
        }
      }
    }
  }

  /** Declarations of one name, and none before the first. */
  ghost predicate SharedFrom(declared: seq<Declared>, i: nat, n: string) {
    && i < |declared| && declared[i].normal == n && (forall k :: 0 <= k < i ==> declared[k].normal != n)
    && exists j :: i < j < |declared| && declared[j].normal == n
  }

  lemma {:induction false} FirstOwner(n: string, declared: seq<Declared>, i: nat)
    requires i < |declared| && declared[i].normal == n && forall k :: 0 <= k < i ==> declared[k].normal != n
    ensures OwnersOf(n, declared) != [] && OwnersOf(n, declared)[0] == declared[i]
  {
    if i > 0 {
      FirstOwner(n, declared[1..], i - 1);
    }
  }

  lemma LeastIndex(n: string, declared: seq<Declared>, j: nat) returns (i: nat)
    requires j < |declared| && declared[j].normal == n
    ensures i <= j && declared[i].normal == n && forall k :: 0 <= k < i ==> declared[k].normal != n
  {
    i := 0;
    while declared[i].normal != n
      invariant i <= j && forall k :: 0 <= k < i ==> declared[k].normal != n
      decreases j - i
    {
      i := i + 1;
    }
  }

  lemma SharedNameFrom(n: string, declared: seq<Declared>, e: string)
    ensures |OwnersOf(n, declared)| >= 2 && OwnersOf(n, declared)[0].environment == e <==>
            exists i: nat :: SharedFrom(declared, i, n) && declared[i].environment == e
  {
    TwoOwners(n, declared);
    if |OwnersOf(n, declared)| >= 2 {
      var a, b :| 0 <= a < b < |declared| && declared[a].normal == n && declared[b].normal == n;
      var i := LeastIndex(n, declared, a);
      FirstOwner(n, declared, i);
      assert SharedFrom(declared, i, n);
      forall k: nat | SharedFrom(declared, k, n)
        ensures k == i
      {
      }
    }
  }

  /** The environment blamed for a shared name is the one that declares it first. */
  lemma {:induction false} SharedIsBlamedOnTheFirst(normals: seq<string>, declared: seq<Declared>, e: string)
    ensures Finding(SharedIdentifier, [e]) in SharedFindings(normals, declared) <==>
            exists n, i: nat :: n in normals && SharedFrom(declared, i, n) && declared[i].environment == e
  {
    hide OwnersOf, SharedFrom;
    if normals != [] {
      var n := normals[0];
      SharedIsBlamedOnTheFirst(normals[1..], declared, e);
      SharedNameFrom(n, declared, e);
      assert Finding(SharedIdentifier, [e]) in SharedFindings(normals, declared) <==>
             (|OwnersOf(n, declared)| >= 2 && OwnersOf(n, declared)[0].environment == e)
             || Finding(SharedIdentifier, [e]) in SharedFindings(normals[1..], declared);
      assert forall m :: m in normals <==> m == n || m in normals[1..];
    }
  }

  lemma {:induction false} NothingShared(normals: seq<string>, declared: seq<Declared>)
    ensures SharedFindings(normals, declared) == [] <==> forall n :: n in normals ==> |OwnersOf(n, declared)| < 2
  {
    if normals != [] {
      NothingShared(normals[1..], declared);
      var rest := SharedFindings(normals[1..], declared);
      assert |SharedFindings(normals, declared)| == |rest| + if |OwnersOf(normals[0], declared)| < 2 then 0 else 1;
      assert forall n :: n in normals <==> n == normals[0] || n in normals[1..];
    }
  }

  /** The load-bearing rule is silent exactly when no two declarations come down to one name. */
  lemma SilentExactlyWhenInjective(registry: Registry, keys: seq<IdentifierKey>)
    ensures DisjointFindings(registry, keys) == [] <==>
            Injective(AllDeclared(Sorted(registry.Keys), registry, keys))
  {
    var declared := AllDeclared(Sorted(registry.Keys), registry, keys);
    var normals := Sorted(Normals(declared));
    NothingShared(normals, declared);
    forall n {
      TwoOwners(n, declared);
    }
    if Injective(declared) {
      forall n | n in normals
        ensures |OwnersOf(n, declared)| < 2
      {
        TwoOwners(n, declared);
      }
    } else {
      var i, j :| 0 <= i < j < |declared| && declared[i].normal == declared[j].normal;
      TwoOwners(declared[i].normal, declared);
      assert declared[i] in declared && declared[i].normal in normals;
    }
  }

  /** `d` is what environment `name` declares under `key`. */
  predicate Declares(registry: Registry, d: Declared, keys: seq<IdentifierKey>) {
    && d.environment in registry && d.key in KeyNames(keys) && d.key in registry[d.environment].values
    && registry[d.environment].values[d.key].Text?
    && d.normal == Normal(registry[d.environment].values[d.key].text)
  }

  lemma {:induction false} DeclaredInExactly(name: string, values: map<string, Scalar>, keys: seq<IdentifierKey>, d: Declared)
    ensures d in DeclaredIn(name, values, keys) <==>
            && d.environment == name && d.key in KeyNames(keys) && d.key in values
            && values[d.key].Text? && d.normal == Normal(values[d.key].text)
  {
    hide Normal;
    if keys != [] {
      DeclaredInExactly(name, values, keys[1..], d);
      assert keys == [keys[0]] + keys[1..];
      assert d.key in KeyNames(keys) <==> d.key == keys[0].name || d.key in KeyNames(keys[1..]);
    }
  }

  lemma {:induction false} AllDeclaredExactly(names: seq<string>, registry: Registry, keys: seq<IdentifierKey>, d: Declared)
    requires forall n :: n in names ==> n in registry
    ensures d in AllDeclared(names, registry, keys) <==> d.environment in names && Declares(registry, d, keys)
  {
    hide Normal;
    if names != [] {
      DeclaredInExactly(names[0], registry[names[0]].values, keys, d);
      AllDeclaredExactly(names[1..], registry, keys, d);
      assert names == [names[0]] + names[1..];
    }
  }

  /** What a clean report says of one environment. */
  ghost predicate Isolated(n: string, values: map<string, Scalar>) {
    && values.Keys == KeyNames(IDENTIFIERS) + SETTINGS
    && "environment" in values && values["environment"] == Text(n)
    && forall k :: 0 <= k < |IDENTIFIERS| ==>
         && IDENTIFIERS[k].name in values
         && if n in IDENTIFIERS[k].nullIn then values[IDENTIFIERS[k].name] == Null
            else values[IDENTIFIERS[k].name].Text?
  }

  /** No two declarations, in different environments or in one, come down to the same name. */
  ghost predicate NothingInCommon(registry: Registry, keys: seq<IdentifierKey>) {
    forall d, e :: Declares(registry, d, keys) && Declares(registry, e, keys) ==> d.normal == e.normal ==> d == e
  }

  lemma EnvironmentIsIsolated(n: string, env: Environment)
    requires ShapeFindings(n, env) == [] && IdentifierFindings(n, env.values, IDENTIFIERS) == []
    ensures Isolated(n, env.values)
  {
    hide IDENTIFIERS, SETTINGS, IdentifierFindings, ShapeFindings;
    CleanShape(n, env);
    forall k | 0 <= k < |IDENTIFIERS|
      ensures IDENTIFIERS[k].name in env.values
      ensures if n in IDENTIFIERS[k].nullIn then env.values[IDENTIFIERS[k].name] == Null
              else env.values[IDENTIFIERS[k].name].Text?
    {
      assert IDENTIFIERS[k] in IDENTIFIERS && IDENTIFIERS[k].name in KeyNames(IDENTIFIERS);
      CleanIdentifier(n, env.values, IDENTIFIERS, k);
    }
  }

  lemma SilenceMeansNothingInCommon(registry: Registry, keys: seq<IdentifierKey>)
    requires DisjointFindings(registry, keys) == []
    ensures NothingInCommon(registry, keys)
  {
    hide Declares, Normals, AllDeclared, DisjointFindings, OwnersOf, Normal, KeyNames;
    var names := Sorted(registry.Keys);
    SilentExactlyWhenInjective(registry, keys);
    forall d, e | Declares(registry, d, keys) && Declares(registry, e, keys) && d.normal == e.normal
      ensures d == e
    {
      DeclaredEnvironment(registry, d, keys);
      DeclaredEnvironment(registry, e, keys);
      AllDeclaredExactly(names, registry, keys, d);
      AllDeclaredExactly(names, registry, keys, e);
    }
  }

  lemma DeclaredEnvironment(registry: Registry, d: Declared, keys: seq<IdentifierKey>)
    requires Declares(registry, d, keys)
    ensures d.environment in registry.Keys
  {
  }

  /**
   * A clean report: the expected environments and no others, each with exactly the classified
   * keys and its own name, every identifier a text unless its environment must leave it null,
   * and nothing named in common.
   */
  lemma CleanReportMeansIsolation(registry: Registry)
    requires RegistryFindings(registry) == []
    ensures registry.Keys == EXPECTED
    ensures forall n :: n in registry ==> Isolated(n, registry[n].values)
    ensures NothingInCommon(registry, IDENTIFIERS)
  {
    hide IDENTIFIERS, SETTINGS, EXPECTED, NothingInCommon, EnvironmentFindings, DisjointFindings, ShapeFindings,
         IdentifierFindings, Isolated;
    var names := Sorted(registry.Keys);
    SilenceMeansNothingInCommon(registry, IDENTIFIERS);
    forall n | n in registry
      ensures Isolated(n, registry[n].values)
    {
      CleanEnvironment(names, registry, n);
      EnvironmentIsIsolated(n, registry[n]);
    }
    CleanRoster(registry);
  }

  lemma CleanRoster(registry: Registry)
    requires RosterFindings(registry) == []
    ensures registry.Keys == EXPECTED
  {
    hide EXPECTED, Sorted;
    assert EXPECTED - registry.Keys == {} && registry.Keys - EXPECTED == {};
    assert EXPECTED <= registry.Keys;
    assert registry.Keys <= EXPECTED;
  }

  lemma {:induction false} CleanEnvironment(names: seq<string>, registry: Registry, n: string)
    requires forall m :: m in names ==> m in registry
    requires EnvironmentFindings(names, registry) == [] && n in names
    ensures ShapeFindings(n, registry[n]) == [] && IdentifierFindings(n, registry[n].values, IDENTIFIERS) == []
  {
    hide ShapeFindings, IdentifierFindings;
    if n != names[0] {
      assert names == [names[0]] + names[1..];
      CleanEnvironment(names[1..], registry, n);
    }
  }

  lemma CleanShape(n: string, env: Environment)
    requires ShapeFindings(n, env) == []
    ensures env.values.Keys == KeyNames(IDENTIFIERS) + SETTINGS
    ensures "environment" in env.values && env.values["environment"] == Text(n)
  {
    hide KeyNames, BlockFindings;
    var expected := KeyNames(IDENTIFIERS) + SETTINGS;
    assert expected - env.values.Keys == {} && env.values.Keys - expected == {};
    assert expected <= env.values.Keys;
    assert env.values.Keys <= expected;
  }

  lemma {:induction false} CleanIdentifier(n: string, values: map<string, Scalar>, keys: seq<IdentifierKey>, k: nat)
    requires IdentifierFindings(n, values, keys) == [] && k < |keys| && keys[k].name in values
    ensures if n in keys[k].nullIn then values[keys[k].name] == Null else values[keys[k].name].Text?
  {
    hide TextFindings;
    if k > 0 {
      CleanIdentifier(n, values, keys[1..], k - 1);
    }
  }
}
