/** The isolation checker's rules said one by one: when exactly each of them has a finding, and what a clean report means. */
module EnvironmentRules {
  import opened Casing
  import opened EnvironmentIsolation
  import opened Ordering
  import opened Trimming
  import TerraformBlocks

  // ----- what the rules ask of a text ------------------------------------------------------------------------

  /** The text, in lower case, has the piece between hyphens, dots, underscores, at signs and its ends. */
  ghost predicate Carries(text: string, piece: string) {
    && piece != "" && (forall i :: 0 <= i < |piece| ==> piece[i] !in "-._@")
    && exists i :: 0 <= i <= |text| - |piece| && CarriesAt(Lower(text), piece, i)
  }

  predicate CarriesAt(s: string, piece: string, i: int) {
    && 0 <= i <= |s| - |piece| && s[i..i + |piece|] == piece
    && (i == 0 || s[i - 1] in "-._@") && (i + |piece| == |s| || s[i + |piece|] in "-._@")
  }

  /** Lower-case letters, digits and the four marks, and no mark in front. */
  predicate CloudName(text: string) {
    && text != "" && ('a' <= text[0] <= 'z' || '0' <= text[0] <= '9')
    && forall i :: 0 <= i < |text| ==> 'a' <= text[i] <= 'z' || '0' <= text[i] <= '9' || text[i] in "-._@"
  }

  /** What stands after the last at sign has a dot and ends with none of the reserved domains. */
  ghost predicate OnRealDomain(text: string) {
    exists k :: 0 <= k <= |text| && HostFrom(text, k) && '.' in text[k..] && !Reserved(text[k..])
  }

  predicate HostFrom(text: string, k: int) {
    0 <= k <= |text| && (k == 0 || text[k - 1] == '@') && forall i :: k <= i < |text| ==> text[i] != '@'
  }

  predicate Reserved(host: string) {
    || EndsWith(host, "example.com") || EndsWith(host, "example.net") || EndsWith(host, "example.org")
    || EndsWith(host, "example.invalid") || EndsWith(host, "example.test")
    || EndsWith(host, ".invalid") || EndsWith(host, ".test") || EndsWith(host, ".example") || EndsWith(host, ".localhost")
  }

  /** The line starts with the word. */
  predicate StartsWithWord(line: string, word: string) {
    && word <= line
    && (|line| > |word| ==>
          var c := line[|word|]; !('a' <= c <= 'z' || 'A' <= c <= 'Z' || '0' <= c <= '9' || c == '_'))
  }

  // ----- the rules --------------------------------------------------------------------------------------------

  /** The rule is broken by one identifier's value in environment `n`. */
  ghost predicate ValueBreaks(code: Code, n: string, key: IdentifierKey, value: Scalar) {
    match code
    case MissingIdentifier => value == Null && n !in key.nullIn
    case UnexpectedIdentifier => value != Null && n in key.nullIn
    case IdentifierType => value != Null && !value.Text?
    case IdentifierCharset => value.Text? && !CloudName(value.text)
    case NotAPlaceholder => value.Text? && key.placeholder && !Carries(value.text, "example")
    case UnreservedDomain => value.Text? && OnRealDomain(value.text)
    case UntaggedIdentifier => value.Text? && !Carries(value.text, n)
    case ForeignEnvironment =>
      value.Text? && exists other :: other in {"classroom", "dev", "prod", "staging"} && other != n && Carries(value.text, other)
    case _ => false
  }

  /** The rule is broken by an environment. */
  ghost predicate Breaks(code: Code, n: string, env: Environment) {
    match code
    case DeployableBlock => exists block :: block in env.blocks && block.kind != "terraform" && block.kind != "locals"
    case StateBackend =>
      exists block, line :: block in env.blocks && block.kind == "terraform" && line in block.body
                            && (StartsWithWord(line, "backend") || StartsWithWord(line, "cloud"))
    case MissingKey => exists key :: key in KeyNames(IDENTIFIERS) + SETTINGS && key !in env.values
    case UnclassifiedKey => exists key :: key in env.values && key !in KeyNames(IDENTIFIERS) + SETTINGS
    case EnvironmentName => "environment" !in env.values || env.values["environment"] != Text(n)
    case _ =>
      exists key :: key in IDENTIFIERS && key.name in env.values && ValueBreaks(code, n, key, env.values[key.name])
  }

  // ----- pieces ------------------------------------------------------------------------------------------------

  predicate Undivided(piece: string) {
    piece != "" && forall i :: 0 <= i < |piece| ==> !Divider(piece[i])
  }

  lemma {:induction false} PieceLengthIs(s: string)
    ensures forall i :: 0 <= i < PieceLength(s) ==> !Divider(s[i])
    ensures PieceLength(s) < |s| ==> Divider(s[PieceLength(s)])
  {
    if s != "" && !Divider(s[0]) {
      PieceLengthIs(s[1..]);
    }
  }

  lemma PieceHere(s: string, piece: string)
    requires Undivided(piece) && s != "" && !Divider(s[0])
    ensures CarriesAt(s, piece, 0) <==> piece == s[..PieceLength(s)]
  {
    PieceLengthIs(s);
    var n := PieceLength(s);
    assert |piece| <= |s| ==> s[0..0 + |piece|] == s[..|piece|];
    if CarriesAt(s, piece, 0) {
      assert forall i :: 0 <= i < |piece| ==> s[i] == piece[i];
    }
  }

  lemma {:induction false} PiecesExactly(s: string, piece: string)
    ensures piece in Pieces(s) <==> Undivided(piece) && exists i :: 0 <= i <= |s| - |piece| && CarriesAt(s, piece, i)
    decreases |s|
  {
    if s == "" {
    } else if Divider(s[0]) {
      PiecesExactly(s[1..], piece);
      if Undivided(piece) {
        PastADivider(s, piece);
      }
    } else {
      var n := PieceLength(s);
      PieceLengthIs(s);
      PiecesExactly(s[n..], piece);
      if Undivided(piece) {
        PieceHere(s, piece);
        PastAPiece(s, piece);
      }
    }
  }

  /** What starts inside the rest of a text, beyond its first characters, starts there alike. */
  lemma CarriedInRest(s: string, piece: string, k: nat, i: int)
    requires 0 < k <= |s| && Undivided(piece) && k <= i <= |s| - |piece|
    requires i == k ==> Divider(s[k - 1]) || Divider(s[k])
    ensures CarriesAt(s, piece, i) <==> CarriesAt(s[k..], piece, i - k)
  {
    assert s[k..][i - k..i - k + |piece|] == s[i..i + |piece|];
    assert s[i..i + |piece|][0] == s[i];
  }

  lemma NoneBefore(s: string, piece: string, k: nat, i: int)
    requires 0 < k <= |s| && Undivided(piece) && 0 <= i < k && CarriesAt(s, piece, i)
    requires forall j :: 0 <= j < k ==> (Divider(s[j]) <==> Divider(s[0])) && (k == 1 || !Divider(s[0]))
    ensures i == 0 && !Divider(s[0])
  {
    assert s[i..i + |piece|][0] == s[i];
    if i > 0 {
      assert Divider(s[i - 1]);
    }
  }

  lemma PastADivider(s: string, piece: string)
    requires Undivided(piece) && s != "" && Divider(s[0])
    ensures (exists i :: 0 <= i <= |s| - |piece| && CarriesAt(s, piece, i))
            <==> exists i :: 0 <= i <= |s[1..]| - |piece| && CarriesAt(s[1..], piece, i)
  {
    hide CarriesAt;
    if i :| 0 <= i <= |s| - |piece| && CarriesAt(s, piece, i) {
      if i == 0 {
        NoneBefore(s, piece, 1, i);
      } else {
        CarriedInRest(s, piece, 1, i);
        assert CarriesAt(s[1..], piece, i - 1);
      }
    }
    if i :| 0 <= i <= |s[1..]| - |piece| && CarriesAt(s[1..], piece, i) {
      CarriedInRest(s, piece, 1, i + 1);
    }
  }

  lemma PastAPiece(s: string, piece: string)
    requires Undivided(piece) && s != "" && !Divider(s[0])
    ensures var t := s[PieceLength(s)..];
            (exists i :: 0 <= i <= |s| - |piece| && CarriesAt(s, piece, i))
            <==> CarriesAt(s, piece, 0) || exists i :: 0 <= i <= |t| - |piece| && CarriesAt(t, piece, i)
  {
    PieceLengthIs(s);
    var n := PieceLength(s);
    assert CarriesAt(s, piece, 0) ==> 0 <= |s| - |piece|;
    hide CarriesAt, PieceLength;
    if i :| 0 <= i <= |s| - |piece| && CarriesAt(s, piece, i) {
      if i < n {
        NoneBefore(s, piece, n, i);
      } else {
        CarriedInRest(s, piece, n, i);
        assert CarriesAt(s[n..], piece, i - n);
      }
    }
    if i :| 0 <= i <= |s[n..]| - |piece| && CarriesAt(s[n..], piece, i) {
      CarriedInRest(s, piece, n, i + n);
    }
  }

  /** The pieces of a text are what it carries. */
  lemma TokensExactly(text: string, piece: string)
    ensures piece in Tokens(text) <==> Carries(text, piece)
  {
    hide Pieces, Lower;
    PiecesExactly(Lower(text), piece);
    assert Undivided(piece) <==> piece != "" && forall i :: 0 <= i < |piece| ==> piece[i] !in "-._@";
  }

  // ----- the other spellings --------------------------------------------------------------------------------------

  lemma WellSpelledExactly(text: string)
    ensures WellSpelled(text) <==> CloudName(text)
  {
  }

  lemma {:induction false} HostExactly(text: string, k: int)
    requires HostFrom(text, k)
    ensures Host(text) == text[k..]
  {
    if k > 0 {
      assert text[k - 1] in text;
      assert HostFrom(text[1..], k - 1) && text[1..][k - 1..] == text[k..];
      HostExactly(text[1..], k - 1);
    }
  }

  lemma {:induction false} SomeHost(text: string) returns (k: nat)
    ensures HostFrom(text, k)
  {
    if '@' !in text {
      k := 0;
    } else {
      var rest := SomeHost(text[1..]);
      k := if rest > 0 || text[0] == '@' then rest + 1 else 0;
      assert forall i :: 1 <= i < |text| ==> text[i] == text[1..][i - 1];
    }
  }

  lemma ReservedExactly(host: string)
    ensures Reserved(host) <==> exists k :: 0 <= k < |RESERVED| && EndsWith(host, RESERVED[k])
  {
    hide EndsWith;
    assert |RESERVED| == 9;
    assert RESERVED[0] == "example.com" && RESERVED[1] == "example.net" && RESERVED[2] == "example.org";
    assert RESERVED[3] == "example.invalid" && RESERVED[4] == "example.test" && RESERVED[5] == ".invalid";
    assert RESERVED[6] == ".test" && RESERVED[7] == ".example" && RESERVED[8] == ".localhost";
  }

  lemma RealDomainExactly(text: string)
    ensures RealDomain(text) <==> OnRealDomain(text)
  {
    hide EndsWith, RESERVED, Reserved, Host, HostFrom;
    var k := SomeHost(text);
    assert 0 <= k <= |text| by {
      HostIsInside(text, k);
    }
    HostExactly(text, k);
    ReservedExactly(text[k..]);
    forall j | 0 <= j <= |text| && HostFrom(text, j)
      ensures text[j..] == text[k..]
    {
      HostExactly(text, j);
    }
  }

  lemma HostIsInside(text: string, k: int)
    requires HostFrom(text, k)
    ensures 0 <= k <= |text|
  {
  }

  lemma BackendExactly(line: string)
    ensures BackendLine(line) <==> StartsWithWord(line, "backend") || StartsWithWord(line, "cloud")
  {
  }

  // ----- one value, one environment ---------------------------------------------------------------------------------

  predicate ValueCode(code: Code) {
    || code == MissingIdentifier || code == UnexpectedIdentifier || code == IdentifierType || code == IdentifierCharset
    || code == NotAPlaceholder || code == UnreservedDomain || code == UntaggedIdentifier || code == ForeignEnvironment
  }

  predicate ShapeCode(code: Code) {
    code == DeployableBlock || code == StateBackend || code == MissingKey || code == UnclassifiedKey || code == EnvironmentName
  }

  lemma FindingWhenHas(condition: bool, code: Code, name: string, f: Finding)
    ensures f in FindingWhen(condition, code, name) <==> condition && f == Finding(code, [name])
  {
  }

  lemma ForeignExactly(text: string, n: string)
    ensures Tokens(text) * (EXPECTED - {n}) != {} <==>
            exists other :: other in {"classroom", "dev", "prod", "staging"} && other != n && Carries(text, other)
  {
    hide Tokens, Carries;
    forall other {
      TokensExactly(text, other);
    }
    if Tokens(text) * (EXPECTED - {n}) != {} {
      var other :| other in Tokens(text) * (EXPECTED - {n});
    }
    if other :| other in EXPECTED && other != n && Carries(text, other) {
      assert other in Tokens(text) * (EXPECTED - {n});
    }
  }

  lemma TextRulesExactly(n: string, key: IdentifierKey, text: string, f: Finding)
    ensures f in TextFindings(n, key, text) <==>
            f.about == [n]
            && f.code in {IdentifierCharset, NotAPlaceholder, UnreservedDomain, UntaggedIdentifier, ForeignEnvironment}
            && ValueBreaks(f.code, n, key, Text(text))
  {
    WellSpelledExactly(text);
    TokensExactly(text, PLACEHOLDER);
    TokensExactly(text, n);
    RealDomainExactly(text);
    ForeignExactly(text, n);
    hide WellSpelled, CloudName, Tokens, Carries, RealDomain, OnRealDomain;
    FindingWhenHas(!WellSpelled(text), IdentifierCharset, n, f);
    FindingWhenHas(key.placeholder && PLACEHOLDER !in Tokens(text), NotAPlaceholder, n, f);
    FindingWhenHas(RealDomain(text), UnreservedDomain, n, f);
    FindingWhenHas(n !in Tokens(text), UntaggedIdentifier, n, f);
    FindingWhenHas(Tokens(text) * (EXPECTED - {n}) != {}, ForeignEnvironment, n, f);
    hide FindingWhen, EXPECTED;
  }

  lemma ValueRulesExactly(n: string, key: IdentifierKey, value: Scalar, f: Finding)
    ensures f in ValueFindings(n, key, value) <==>
            f.about == [n] && ValueCode(f.code) && ValueBreaks(f.code, n, key, value)
  {
    FindingWhenHas(n !in key.nullIn, MissingIdentifier, n, f);
    FindingWhenHas(n in key.nullIn, UnexpectedIdentifier, n, f);
    if value.Text? {
      TextRulesExactly(n, key, value.text, f);
    }
    hide FindingWhen, TextFindings, CloudName, Carries, OnRealDomain;
  }

  ghost predicate SomeValueBreaks(code: Code, n: string, values: map<string, Scalar>, keys: seq<IdentifierKey>) {
    exists key :: key in keys && key.name in values && ValueBreaks(code, n, key, values[key.name])
  }

  lemma {:induction false} IdentifierRulesExactly(n: string, values: map<string, Scalar>, keys: seq<IdentifierKey>, f: Finding)
    ensures f in IdentifierFindings(n, values, keys) <==>
            f.about == [n] && ValueCode(f.code) && SomeValueBreaks(f.code, n, values, keys)
  {
    hide ValueFindings, ValueBreaks, ValueCode;
    if keys != [] {
      if keys[0].name in values {
        ValueRulesExactly(n, keys[0], values[keys[0].name], f);
      }
      IdentifierRulesExactly(n, values, keys[1..], f);
      assert forall key :: key in keys <==> key == keys[0] || key in keys[1..];
    }
  }

  lemma {:induction false} BackendRuleExactly(n: string, body: seq<string>, f: Finding)
    ensures f in BackendFindings(n, body) <==>
            f == Finding(StateBackend, [n])
            && exists line :: line in body && (StartsWithWord(line, "backend") || StartsWithWord(line, "cloud"))
  {
    hide StartsWithWord, BackendLine;
    if body != [] {
      BackendExactly(body[0]);
      FindingWhenHas(BackendLine(body[0]), StateBackend, n, f);
      BackendRuleExactly(n, body[1..], f);
      assert forall line :: line in body <==> line == body[0] || line in body[1..];
    }
  }

  ghost predicate BlockBreaks(code: Code, block: TerraformBlocks.Block) {
    || (code == DeployableBlock && block.kind != "terraform" && block.kind != "locals")
    || (code == StateBackend && block.kind == "terraform"
        && exists line :: line in block.body && (StartsWithWord(line, "backend") || StartsWithWord(line, "cloud")))
  }

  lemma {:induction false} BlockRulesExactly(n: string, blocks: seq<TerraformBlocks.Block>, f: Finding)
    ensures f in BlockFindings(n, blocks) <==>
            f.about == [n] && exists block :: block in blocks && BlockBreaks(f.code, block)
  {
    hide StartsWithWord, BackendFindings;
    if blocks != [] {
      FindingWhenHas(blocks[0].kind !in {"terraform", "locals"}, DeployableBlock, n, f);
      BackendRuleExactly(n, blocks[0].body, f);
      OneBlockExactly(n, blocks[0], f);
      hide BlockBreaks, FindingWhen;
      BlockRulesExactly(n, blocks[1..], f);
      assert forall block :: block in blocks <==> block == blocks[0] || block in blocks[1..];
    }
  }

  lemma OneBlockExactly(n: string, block: TerraformBlocks.Block, f: Finding)
    ensures f in FindingWhen(block.kind !in {"terraform", "locals"}, DeployableBlock, n)
                 + (if block.kind == "terraform" then BackendFindings(n, block.body) else [])
            <==> f.about == [n] && BlockBreaks(f.code, block)
  {
    hide StartsWithWord, BackendFindings;
    FindingWhenHas(block.kind !in {"terraform", "locals"}, DeployableBlock, n, f);
    BackendRuleExactly(n, block.body, f);
  }

  lemma ShapeRulesExactly(n: string, env: Environment, f: Finding)
    ensures f in ShapeFindings(n, env) <==> f.about == [n] && ShapeCode(f.code) && Breaks(f.code, n, env)
  {
    hide StartsWithWord, BlockFindings, KeyNames, IDENTIFIERS, SETTINGS;
    var expected := KeyNames(IDENTIFIERS) + SETTINGS;
    BlockRulesExactly(n, env.blocks, f);
    FindingWhenHas(expected - env.values.Keys != {}, MissingKey, n, f);
    FindingWhenHas(env.values.Keys - expected != {}, UnclassifiedKey, n, f);
    FindingWhenHas("environment" !in env.values || env.values["environment"] != Text(n), EnvironmentName, n, f);
    hide FindingWhen;
    DifferenceExactly(expected, env.values.Keys);
    DifferenceExactly(env.values.Keys, expected);
  }

  lemma DifferenceExactly(a: set<string>, b: set<string>)
    ensures a - b != {} <==> exists x :: x in a && x !in b
  {
    if x :| x in a && x !in b {
      assert x in a - b;
    }
  }

  // ----- the whole report --------------------------------------------------------------------------------------------

  lemma {:induction false} EnvironmentRulesExactly(names: seq<string>, registry: Registry, f: Finding)
    requires forall n :: n in names ==> n in registry
    ensures f in EnvironmentFindings(names, registry) <==>
            (ShapeCode(f.code) || ValueCode(f.code))
            && exists n :: n in names && f.about == [n] && Breaks(f.code, n, registry[n])
  {
    hide ShapeFindings, IdentifierFindings, IDENTIFIERS;
    if names != [] {
      ShapeRulesExactly(names[0], registry[names[0]], f);
      IdentifierRulesExactly(names[0], registry[names[0]].values, IDENTIFIERS, f);
      assert ValueCode(f.code) ==>
          (Breaks(f.code, names[0], registry[names[0]])
           <==> SomeValueBreaks(f.code, names[0], registry[names[0]].values, IDENTIFIERS));
      hide Breaks, SomeValueBreaks;
      EnvironmentRulesExactly(names[1..], registry, f);
      assert forall n :: n in names <==> n == names[0] || n in names[1..];
    }
  }

  lemma {:induction false} SharedCodesOnly(normals: seq<string>, declared: seq<Declared>, f: Finding)
    requires f in SharedFindings(normals, declared)
    ensures f.code == SharedIdentifier
  {
    if f in SharedFindings(normals[1..], declared) {
      SharedCodesOnly(normals[1..], declared, f);
    }
  }

  lemma InThreeParts(registry: Registry, f: Finding)
    ensures var names := Sorted(registry.Keys);
            && (f in RegistryFindings(registry) <==>
                  f in RosterFindings(registry) || f in EnvironmentFindings(names, registry)
                  || f in DisjointFindings(registry, IDENTIFIERS))
            && (RegistryFindings(registry) == [] <==>
                  RosterFindings(registry) == [] && EnvironmentFindings(names, registry) == []
                  && DisjointFindings(registry, IDENTIFIERS) == [])
  {
    hide RosterFindings, EnvironmentFindings, DisjointFindings, IDENTIFIERS, EXPECTED;
  }

  lemma NotOfTheRoster(registry: Registry, f: Finding)
    requires f.code != MissingEnvironment && f.code != UnlistedEnvironment
    ensures f !in RosterFindings(registry)
  {
    hide EXPECTED;
  }

  lemma SortedNames(registry: Registry)
    ensures forall n :: n in Sorted(registry.Keys) <==> n in registry
  {
    assert forall n :: n in registry.Keys <==> n in registry;
  }

  lemma PlainCode(code: Code)
    requires ShapeCode(code) || ValueCode(code)
    ensures code != MissingEnvironment && code != UnlistedEnvironment && code != SharedIdentifier
  {
  }

  /**
   * Every rule over environments, one by one: its finding about an environment is in the report exactly when the
   * registry has that environment and the environment breaks the rule.
   */
  lemma RuleIsReportedExactly(registry: Registry, code: Code, n: string)
    requires ShapeCode(code) || ValueCode(code)
    ensures Finding(code, [n]) in RegistryFindings(registry) <==> n in registry && Breaks(code, n, registry[n])
  {
    hide *;
    var f := Finding(code, [n]);
    InThreeParts(registry, f);
    PlainCode(code);
    NotOfTheRoster(registry, f);
    NotShared(registry, f);
    SortedNames(registry);
    EnvironmentRulesExactly(Sorted(registry.Keys), registry, f);
  }

  lemma NotShared(registry: Registry, f: Finding)
    requires f.code != SharedIdentifier
    ensures f !in DisjointFindings(registry, IDENTIFIERS)
  {
    var declared := AllDeclared(Sorted(registry.Keys), registry, IDENTIFIERS);
    if f in SharedFindings(Sorted(Normals(declared)), declared) {
      SharedCodesOnly(Sorted(Normals(declared)), declared, f);
    }
  }

  lemma EnvironmentsClean(registry: Registry)
    ensures EnvironmentFindings(Sorted(registry.Keys), registry) == [] <==>
            forall n, code :: n in registry && (ShapeCode(code) || ValueCode(code)) ==> !Breaks(code, n, registry[n])
  {
    hide *;
    var names := Sorted(registry.Keys);
    SortedNames(registry);
    if EnvironmentFindings(names, registry) == [] {
      forall n, code | n in registry && (ShapeCode(code) || ValueCode(code))
        ensures !Breaks(code, n, registry[n])
      {
        EnvironmentRulesExactly(names, registry, Finding(code, [n]));
      }
    } else {
      var f := EnvironmentFindings(names, registry)[0];
      EnvironmentRulesExactly(names, registry, f);
    }
  }

  /** A report is clean exactly when the roster is the expected one, no environment breaks a rule, and nothing is shared. */
  lemma ReportIsCleanExactlyWhen(registry: Registry)
    ensures RegistryFindings(registry) == [] <==>
            && registry.Keys == {"classroom", "dev", "prod", "staging"}
            && (forall n, code :: n in registry && (ShapeCode(code) || ValueCode(code)) ==> !Breaks(code, n, registry[n]))
            && Injective(AllDeclared(Sorted(registry.Keys), registry, IDENTIFIERS))
  {
    hide *;
    InThreeParts(registry, Finding(SharedIdentifier, []));
    SilentExactlyWhenInjective(registry, IDENTIFIERS);
    RosterExactly(registry);
    EnvironmentsClean(registry);
  }

  lemma RosterExactly(registry: Registry)
    ensures RosterFindings(registry) == [] <==> registry.Keys == {"classroom", "dev", "prod", "staging"}
    ensures EXPECTED == {"classroom", "dev", "prod", "staging"}
  {
    hide Sorted;
    assert EXPECTED - registry.Keys == {} && registry.Keys - EXPECTED == {} <==> registry.Keys == EXPECTED;
  }

  const RESOURCES: seq<string> := [
    "project_id", "database_instance", "database_name", "evidence_bucket", "artifact_bucket", "task_queue",
    "api_service_account", "worker_service_account", "api_service", "worker_service", "scheduler_job",
    "database_secret_id", "provider_secret_id", "release_tag_prefix"
  ]

  /**
   * The identifiers an environment must declare: every one is a placeholder until it is provisioned but the release
   * tag, and every one is given everywhere but the provider's secret, which the classroom does without.
   */
  lemma ResourcesAreTheIdentifiers(i: nat)
    requires i < 14
    ensures |IDENTIFIERS| == |RESOURCES| == 14 && IDENTIFIERS[i].name == RESOURCES[i]
    ensures IDENTIFIERS[i].placeholder <==> i != 13
    ensures IDENTIFIERS[i].nullIn == if i == 12 then {"classroom"} else {}
  {
  }

  /** So where no key is missing every one of them is declared, and every setting. */
  lemma NothingMissingMeansDeclared(n: string, env: Environment, i: nat)
    requires !Breaks(MissingKey, n, env) && i < 14
    ensures RESOURCES[i] in env.values
    ensures {"environment", "region", "provider_mode", "data_class", "min_instances", "max_instances",
             "database_version", "database_tier", "dispatch_cron", "promotion_source"} <= env.values.Keys
  {
    ResourcesAreTheIdentifiers(i);
    assert IDENTIFIERS[i] in IDENTIFIERS;
    hide IDENTIFIERS, RESOURCES;
    assert IDENTIFIERS[i].name in KeyNames(IDENTIFIERS);
    hide KeyNames;
    assert IDENTIFIERS[i].name in KeyNames(IDENTIFIERS) + SETTINGS;
    forall key | key in SETTINGS
      ensures key in env.values
    {
      assert key in KeyNames(IDENTIFIERS) + SETTINGS;
    }
  }
}
