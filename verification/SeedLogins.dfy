/** The seed that gives each configured pilot role a login, through the one writer of credentials. */
module SeedLogins {
  import opened Casing
  import opened LoginAccounts
  import Ordering
  import opened Outcomes
  import opened Trimming

  datatype Entry = Entry(role: string, additional: seq<string>, subject: string, emailVar: string, passwordVar: string) {
    function Roles(): seq<string> {
      [role] + additional
    }

    function RoleSet(): set<string> {
      Ordering.Members(Roles())
    }
  }

  const ENTRIES: seq<Entry> := [
    Entry("coordinator", ["admin"], "pilot-login-coordinator",
          "SMARTMATCH_PILOT_COORDINATOR_EMAIL", "SMARTMATCH_PILOT_COORDINATOR_PASSWORD"),
    Entry("student", [], "pilot-login-student",
          "SMARTMATCH_PILOT_STUDENT_EMAIL", "SMARTMATCH_PILOT_STUDENT_PASSWORD"),
    Entry("admin", ["coordinator"], "pilot-login-admin",
          "SMARTMATCH_PILOT_ADMIN_EMAIL", "SMARTMATCH_PILOT_ADMIN_PASSWORD"),
    Entry("volunteer", [], "pilot-login-volunteer",
          "SMARTMATCH_PILOT_VOLUNTEER_EMAIL", "SMARTMATCH_PILOT_VOLUNTEER_PASSWORD")
  ]

  const MINIMUM_PASSWORD_LENGTH := 12

  type Environ = map<string, string>

  datatype Outcome = Outcome(role: string, created: bool, foreignLogin: bool)

  /** What a run is given: the organization, its unit, the clock, and the salt drawn for each login. */
  datatype Setting = Setting(tenant: string, path: string, now: int, salts: string -> string)

  // ----- specification ---------------------------------------------------------------------------------

  /** The configured address and secret, or none; half a configuration or a short secret is refused. */
  function ReadRole(entry: Entry, environ: Environ): Result<Option<(string, string)>, Refusal> {
    var email := Strip(if entry.emailVar in environ then environ[entry.emailVar] else "");
    var secret := if entry.passwordVar in environ then environ[entry.passwordVar] else "";
    if email == "" && secret == "" then Ok(None)
    else if email == "" || secret == "" || |secret| < MINIMUM_PASSWORD_LENGTH then Err(SeedCredentials)
    else Ok(Some((email, secret)))
  }

  /** The account with a subject; subjects are unique in the whole store. */
  function FindSubject(accounts: seq<Account>, subject: string): (r: Option<nat>)
    ensures r.Some? ==> r.value < |accounts| && accounts[r.value].subject == subject
    ensures r == None ==> forall i :: 0 <= i < |accounts| ==> accounts[i].subject != subject
  {
    if accounts == [] then None
    else
      var last := |accounts| - 1;
      if accounts[last].subject == subject then Some(last) else FindSubject(accounts[..last], subject)
  }

  function ExistingOrInserted(s: Store, tenant: string, subject: string, email: string): Result<(Store, nat), Refusal> {
    match FindSubject(s.accounts, subject)
    case None => Ok((s.(accounts := s.accounts + [Account(tenant, subject, email, false)]), |s.accounts|))
    case Some(id) =>
      var account := s.accounts[id];
      if account.tenant != tenant || Normal(account.email) != Normal(email) || account.suspended then Err(SeedConflict)
      else Ok((s, id))
  }

  /** A row the seed asked for: a requested role over the unit, with no window. */
  predicate Expected(m: Membership, path: string, roles: seq<string>) {
    m.role in roles && m.path == path && m.from == None && m.until == None
  }

  /** Every row of the account but its Speaker rows is one the seed asked for. */
  predicate HoldsOnly(s: Store, user: nat, path: string, roles: seq<string>) {
    forall i :: 0 <= i < |s.memberships| && s.memberships[i].user == user && s.memberships[i].role != SPEAKER ==>
      Expected(s.memberships[i], path, roles)
  }

  /** Only the volunteer entry, onto a login holding nothing but speaker and volunteer. */
  predicate MayMerge(entry: Entry, holderActive: set<string>) {
    entry.RoleSet() == {VOLUNTEER} && holderActive <= {SPEAKER, VOLUNTEER}
  }

  function GrantedAll(s: Store, setting: Setting, email: string, roles: seq<string>): Result<Store, Refusal>
    decreases |roles|
  {
    if roles == [] then Ok(s)
    else
      var (next, _) :- Granted(s, setting.tenant, email, roles[0], setting.path, setting.now, None);
      GrantedAll(next, setting, email, roles[1..])
  }

  function SeededForeign(s: Store, setting: Setting, entry: Entry, email: string, holder: nat)
    : Result<(Store, Outcome), Refusal>
  {
    if !MayMerge(entry, ActiveRoles(s, holder, setting.now)) then Err(SeedConflict)
    else
      var after :- GrantedAll(s, setting, email, entry.Roles());
      Ok((after, Outcome(entry.role, true, true)))
  }

  function SeededOwn(s: Store, setting: Setting, entry: Entry, email: string, secret: string, unclaimed: bool)
    : Result<(Store, Outcome), Refusal>
  {
    var (found, id) :- ExistingOrInserted(s, setting.tenant, entry.subject, email);
    if SPEAKER in entry.Roles() || !HoldsOnly(found, id, setting.path, entry.Roles()) then Err(SeedConflict)
    else
      var stored := Password(secret, setting.salts(entry.subject));
      var outcome := Outcome(entry.role, true, false);
      if unclaimed then
        var (first, _) :- Granted(
          found, setting.tenant, email, entry.role, setting.path, setting.now, Some(NewLogin(id, stored)));
        var after :- GrantedAll(first, setting, email, entry.additional);
        Ok((after, outcome))
      else
        var after :- GrantedAll(found, setting, email, entry.Roles());
        if id !in after.credentials then Err(NoLoginForAddress)
        else Ok((after.(credentials := after.credentials[id := stored]), outcome))
  }

  function SeededOne(s: Store, setting: Setting, entry: Entry, email: string, secret: string)
    : Result<(Store, Outcome), Refusal>
  {
    match Classified(s, setting.tenant, email)
    case OtherTenant => Err(SeedConflict)
    case Ambiguous => Err(SeedConflict)
    case OneInTenant(holder) =>
      if s.accounts[holder].subject != entry.subject then SeededForeign(s, setting, entry, email, holder)
      else SeededOwn(s, setting, entry, email, secret, false)
    case Nobody => SeededOwn(s, setting, entry, email, secret, true)
  }

  function SeededAll(s: Store, setting: Setting, entries: seq<Entry>, environ: Environ)
    : Result<(Store, seq<Outcome>), Refusal>
    decreases |entries|
  {
    if entries == [] then Ok((s, []))
    else
      var entry := entries[0];
      var configured :- ReadRole(entry, environ);
      if configured == None then
        var (after, outcomes) :- SeededAll(s, setting, entries[1..], environ);
        Ok((after, [Outcome(entry.role, false, false)] + outcomes))
      else
        var (next, outcome) :- SeededOne(s, setting, entry, configured.value.0, configured.value.1);
        var (after, outcomes) :- SeededAll(next, setting, entries[1..], environ);
        Ok((after, [outcome] + outcomes))
  }

  // ----- what granting does -----------------------------------------------------------------------------

  /** A role granted without creating a login is granted to the one holder, and leaves it the holder. */
  lemma GrantToHolder(s: Store, setting: Setting, email: string, role: string)
    ensures var r := Granted(s, setting.tenant, email, role, setting.path, setting.now, None);
            var found := Classified(s, setting.tenant, email);
            if found.OneInTenant?
            then r.Ok? && r.value.0 == WithRole(s, found.holder, role, setting.path, setting.now)
                 && Classified(r.value.0, setting.tenant, email) == found
            else r.Err?
  {
    var found := Classified(s, setting.tenant, email);
    if found.OneInTenant? {
      assert HoldersOf(WithRole(s, found.holder, role, setting.path, setting.now), email) == HoldersOf(s, email);
    }
  }

  /** The second store is the first with rows added, each one the seed asked for. */
  ghost predicate RowsAdded(a: Store, b: Store, user: nat, path: string, roles: seq<string>) {
    && |a.memberships| <= |b.memberships| && b.memberships[..|a.memberships|] == a.memberships
    && forall i :: |a.memberships| <= i < |b.memberships| ==>
         b.memberships[i].user == user && Expected(b.memberships[i], path, roles)
  }

  lemma RowStays(a: Store, b: Store, user: nat, role: string, path: string, now: int)
    requires a.memberships <= b.memberships && HoldsActive(a, user, role, path, now)
    ensures HoldsActive(b, user, role, path, now)
  {
    var i :| 0 <= i < |a.memberships| &&
      var m := a.memberships[i]; m.user == user && m.role == role && m.path == path && ActiveAt(m, now);
    assert b.memberships[i] == a.memberships[i];
  }

  lemma WithRoleHolds(s: Store, user: nat, role: string, path: string, now: int)
    ensures var after := WithRole(s, user, role, path, now);
            && HoldsActive(after, user, role, path, now) && RowsAdded(s, after, user, path, [role])
            && after == s.(memberships := after.memberships)
  {
    var after := WithRole(s, user, role, path, now);
    if after != s {
      assert after.memberships[|s.memberships|] == Membership(user, path, role, None, None);
    }
  }

  lemma {:induction false} GrantedAllToHolder(s: Store, setting: Setting, email: string, roles: seq<string>, holder: nat)
    requires Classified(s, setting.tenant, email) == OneInTenant(holder)
    ensures GrantedAll(s, setting, email, roles).Ok?
    ensures var after := GrantedAll(s, setting, email, roles).value;
            && after == s.(memberships := after.memberships)
            && RowsAdded(s, after, holder, setting.path, roles)
            && forall role :: role in roles ==> HoldsActive(after, holder, role, setting.path, setting.now)
    decreases |roles|
  {
    if roles != [] {
      GrantToHolder(s, setting, email, roles[0]);
      WithRoleHolds(s, holder, roles[0], setting.path, setting.now);
      var next := WithRole(s, holder, roles[0], setting.path, setting.now);
      hide Granted, WithRole, HoldsActive, Classified;
      GrantedAllToHolder(next, setting, email, roles[1..], holder);
      var after := GrantedAll(next, setting, email, roles[1..]).value;
      assert forall role :: role in roles <==> role == roles[0] || role in roles[1..];
      RowStays(next, after, holder, roles[0], setting.path, setting.now);
      assert after.memberships[..|s.memberships|] == next.memberships[..|s.memberships|];
      forall i | |s.memberships| <= i < |after.memberships|
        ensures after.memberships[i].user == holder && Expected(after.memberships[i], setting.path, roles)
      {
        if i < |next.memberships| {
          assert after.memberships[i] == after.memberships[..|next.memberships|][i] == next.memberships[i];
        }
      }
    }
  }

  /** A first credential makes its account the one holder of a free address. */
  lemma FirstGrantClaims(s: Store, setting: Setting, email: string, role: string, create: NewLogin)
    requires Classified(s, setting.tenant, email).Nobody?
    ensures var r := Granted(s, setting.tenant, email, role, setting.path, setting.now, Some(create));
            var credentialed := Credentialed(s, setting.tenant, email, create);
            && (r.Ok? <==> credentialed.Ok?)
            && (r.Err? ==> r.error == AccountAlreadyCredentialed)
            && (r.Ok? ==>
                  && r.value.0 == WithRole(credentialed.value, create.user, role, setting.path, setting.now)
                  && HoldersOf(r.value.0, email) == {create.user}
                  && Classified(r.value.0, setting.tenant, email) == OneInTenant(create.user))
  {
    var credentialed := Credentialed(s, setting.tenant, email, create);
    if credentialed.Ok? {
      NormalisedIsFound(email);
      var after := WithRole(credentialed.value, create.user, role, setting.path, setting.now);
      hide Folded, Normal, WithRole;
      WithRoleHolds(credentialed.value, create.user, role, setting.path, setting.now);
      forall id
        ensures id in HoldersOf(after, email) <==> id == create.user
      {
        if id != create.user {
          assert id !in HoldersOf(s, email);
        }
      }
      assert HoldersOf(after, email) == {create.user};
    }
  }

  /** An account inserted for a free address leaves it free, and can be credentialed. */
  lemma InsertedIsFree(s: Store, setting: Setting, entry: Entry, email: string)
    requires Sound(s) && Classified(s, setting.tenant, email).Nobody?
    requires ExistingOrInserted(s, setting.tenant, entry.subject, email).Ok?
    ensures var (found, id) := ExistingOrInserted(s, setting.tenant, entry.subject, email).value;
            && Classified(found, setting.tenant, email).Nobody? && id < |found.accounts|
            && forall password ::
                 Credentialed(found, setting.tenant, email, NewLogin(id, password)).Err? <==> id in s.credentials
  {
    var (found, id) := ExistingOrInserted(s, setting.tenant, entry.subject, email).value;
    forall k
      ensures k !in HoldersOf(found, email)
    {
      assert k !in HoldersOf(s, email);
      assert k in s.credentials ==> k < |s.accounts| && found.accounts[k] == s.accounts[k];
    }
    assert HoldersOf(found, email) == {};
  }

  // ----- the tool ------------------------------------------------------------------------------------------

  method ExistingOrInsertAccount(store: LoginStore, tenant: string, subject: string, email: string)
    returns (r: Result<nat, Refusal>)
    modifies store`accounts
    ensures match ExistingOrInserted(old(store.State()), tenant, subject, email)
            case Err(e) => r == Err(e) && store.State() == old(store.State())
            case Ok((s, id)) => r == Ok(id) && store.State() == s
  {
    var found := FindSubject(store.accounts, subject);
    if found == None {
      store.accounts := store.accounts + [Account(tenant, subject, email, false)];
      return Ok(|store.accounts| - 1);
    }
    var account := store.accounts[found.value];
    if account.tenant != tenant || Normal(account.email) != Normal(email) || account.suspended {
      return Err(SeedConflict);
    }
    return Ok(found.value);
  }

  /** Writes nothing; hands back the requested roles the account already holds. */
  method VerifyMembershipSet(store: LoginStore, user: nat, path: string, roles: seq<string>)
    returns (r: Result<set<string>, Refusal>)
    ensures r.Err? <==> roles == [] || SPEAKER in roles || !HoldsOnly(store.State(), user, path, roles)
    ensures r.Err? ==> r.error == SeedConflict
    ensures r.Ok? ==> forall role ::
              role in r.value <==> role != SPEAKER && exists m :: m in store.memberships && m.user == user && m.role == role
  {
    if roles == [] || SPEAKER in roles {
      return Err(SeedConflict);
    }
    var held := {};
    for i := 0 to |store.memberships|
      invariant forall k :: 0 <= k < i && store.memberships[k].user == user && store.memberships[k].role != SPEAKER ==>
                  Expected(store.memberships[k], path, roles)
      invariant forall role :: role in held <==>
                  role != SPEAKER && exists k :: 0 <= k < i && store.memberships[k].user == user && store.memberships[k].role == role
    {
      var m := store.memberships[i];
      if m.user == user && m.role != SPEAKER {
        if !Expected(m, path, roles) {
          return Err(SeedConflict);
        }
        held := held + {m.role};
      }
    }
    return Ok(held);
  }

  /** The roles an account holds in any row, its Speaker rows aside. */
  function HeldRoles(memberships: seq<Membership>, user: nat): set<string> {
    set i | 0 <= i < |memberships| && memberships[i].user == user && memberships[i].role != SPEAKER :: memberships[i].role
  }

  /** Gives the account exactly the roles over the unit, adding a row only for each that is missing. */
  method EnsureMembershipSet(store: LoginStore, user: nat, path: string, roles: seq<string>) returns (r: Result<nat, Refusal>)
    modifies store`memberships
    ensures r.Err? <==> roles == [] || SPEAKER in roles || !HoldsOnly(old(store.State()), user, path, roles)
    ensures r.Err? ==> store.memberships == old(store.memberships)
    ensures r.Ok? ==>
              && old(store.memberships) <= store.memberships
              && |store.memberships| == |old(store.memberships)| + r.value
              && r.value == |Ordering.Members(roles) - HeldRoles(old(store.memberships), user)|
              && HeldRoles(store.memberships, user) == Ordering.Members(roles)
              && HoldsOnly(store.State(), user, path, roles)
  {
    hide HoldsOnly, HeldRoles;
    var held :- VerifyMembershipSet(store, user, path, roles);
    HeldMatches(store.memberships, user, held);
    HeldAreExpected(store.State(), user, path, roles);
    var wanted := Ordering.Sorted(Ordering.Members(roles));
    assert forall role :: role in wanted <==> role in roles;
    SameRoles(store.State(), user, path, roles, wanted);
    var added := AddMissing(store, user, path, wanted, held);
    assert Ordering.Members(wanted) == Ordering.Members(roles);
    assert held + Ordering.Members(roles) == Ordering.Members(roles);
    SameRoles(store.State(), user, path, wanted, roles);
    return Ok(added);
  }

  method AddMissing(store: LoginStore, user: nat, path: string, wanted: seq<string>, held: set<string>) returns (added: nat)
    requires Ordering.Distinct(wanted) && SPEAKER !in wanted && HoldsOnly(store.State(), user, path, wanted)
    requires held == HeldRoles(store.memberships, user)
    modifies store`memberships
    ensures old(store.memberships) <= store.memberships && |store.memberships| == |old(store.memberships)| + added
    ensures added == |Ordering.Members(wanted) - held| && HeldRoles(store.memberships, user) == held + Ordering.Members(wanted)
    ensures HoldsOnly(store.State(), user, path, wanted)
  {
    hide HoldsOnly, HeldRoles, Ordering.Members;
    added := 0;
    EmptyRoles(wanted);
    for i := 0 to |wanted|
      invariant old(store.memberships) <= store.memberships && |store.memberships| == |old(store.memberships)| + added
      invariant added == |Ordering.Members(wanted[..i]) - held|
      invariant HeldRoles(store.memberships, user) == held + Ordering.Members(wanted[..i])
      invariant HoldsOnly(store.State(), user, path, wanted)
    {
      OneMoreRole(wanted, i);
      OneMoreMissing(Ordering.Members(wanted[..i]), held, wanted[i]);
      if wanted[i] !in held {
        AddRole(store, user, path, wanted, wanted[i]);
        added := added + 1;
      }
    }
    assert wanted[..|wanted|] == wanted;
  }

  method AddRole(store: LoginStore, user: nat, path: string, roles: seq<string>, role: string)
    requires HoldsOnly(store.State(), user, path, roles) && role in roles && role != SPEAKER
    modifies store`memberships
    ensures store.memberships == old(store.memberships) + [Membership(user, path, role, None, None)]
    ensures HoldsOnly(store.State(), user, path, roles)
    ensures HeldRoles(store.memberships, user) == HeldRoles(old(store.memberships), user) + {role}
  {
    hide HoldsOnly, HeldRoles;
    OneMoreRow(store.State(), user, path, roles, role);
    store.memberships := store.memberships + [Membership(user, path, role, None, None)];
  }

  lemma EmptyRoles(wanted: seq<string>)
    ensures Ordering.Members(wanted[..0]) == {}
  {
  }

  lemma OneMoreMissing(done: set<string>, held: set<string>, role: string)
    requires role !in done
    ensures |done + {role} - held| == |done - held| + if role in held then 0 else 1
    ensures role in held ==> held + (done + {role}) == held + done
    ensures held + done + {role} == held + (done + {role})
  {
    if role in held {
      assert done + {role} - held == done - held;
      assert held + (done + {role}) == held + done;
    } else {
      assert done + {role} - held == done - held + {role};
    }
  }

  lemma OneMoreRole(wanted: seq<string>, i: nat)
    requires Ordering.Distinct(wanted) && i < |wanted|
    ensures wanted[i] in wanted && wanted[i] !in Ordering.Members(wanted[..i])
    ensures Ordering.Members(wanted[..i + 1]) == Ordering.Members(wanted[..i]) + {wanted[i]}
  {
    assert wanted[..i + 1] == wanted[..i] + [wanted[i]];
  }

  lemma SameRoles(s: Store, user: nat, path: string, a: seq<string>, b: seq<string>)
    requires HoldsOnly(s, user, path, a) && forall role :: role in a <==> role in b
    ensures HoldsOnly(s, user, path, b)
  {
  }

  lemma HeldMatches(memberships: seq<Membership>, user: nat, held: set<string>)
    requires forall role ::
      role in held <==> role != SPEAKER && exists m :: m in memberships && m.user == user && m.role == role
    ensures held == HeldRoles(memberships, user)
  {
    forall role | role in held
      ensures role in HeldRoles(memberships, user)
    {
      var m :| m in memberships && m.user == user && m.role == role;
      var i :| 0 <= i < |memberships| && memberships[i] == m;
    }
  }

  lemma HeldAreExpected(s: Store, user: nat, path: string, roles: seq<string>)
    requires HoldsOnly(s, user, path, roles)
    ensures HeldRoles(s.memberships, user) <= Ordering.Members(roles)
  {
  }

  lemma OneMoreRow(s: Store, user: nat, path: string, roles: seq<string>, role: string)
    requires HoldsOnly(s, user, path, roles) && role in roles && role != SPEAKER
    ensures var after := s.(memberships := s.memberships + [Membership(user, path, role, None, None)]);
            HoldsOnly(after, user, path, roles) && HeldRoles(after.memberships, user) == HeldRoles(s.memberships, user) + {role}
  {
    var row := Membership(user, path, role, None, None);
    var more := s.memberships + [row];
    assert more[|s.memberships|] == row;
    forall x | x in HeldRoles(s.memberships, user)
      ensures x in HeldRoles(more, user)
    {
      var i :| 0 <= i < |s.memberships| && s.memberships[i].user == user && s.memberships[i].role == x && x != SPEAKER;
      assert more[i] == s.memberships[i];
    }
  }

  method GrantEach(store: LoginStore, setting: Setting, email: string, roles: seq<string>)
    returns (r: Result<nat, Refusal>)
    modifies store
    ensures match GrantedAll(old(store.State()), setting, email, roles)
            case Err(e) => r == Err(e)
            case Ok(s) => r == Ok(|roles|) && store.State() == s
    ensures r.Err? ==> store.State() == old(store.State())
  {
    hide Granted;
    ghost var whole := GrantedAll(store.State(), setting, email, roles);
    for i := 0 to |roles|
      invariant whole == GrantedAll(store.State(), setting, email, roles[i..])
      invariant i == 0 ==> store.State() == old(store.State())
      invariant i > 0 ==> Classified(store.State(), setting.tenant, email).OneInTenant?
    {
      assert roles[i..][1..] == roles[i + 1..];
      GrantToHolder(store.State(), setting, email, roles[i]);
      var _ :- store.FindOrAddRole(setting.tenant, email, roles[i], setting.path, setting.now, None);
    }
    assert roles[|roles|..] == [];
    return Ok(|roles|);
  }

  /** Refuses before it writes, unless the entry asks for the invitation-only role. */
  method SeedOne(store: LoginStore, setting: Setting, entry: Entry, email: string, secret: string)
    returns (r: Result<Outcome, Refusal>)
    modifies store
    ensures match SeededOne(old(store.State()), setting, entry, email, secret)
            case Err(e) => r == Err(e)
            case Ok((s, outcome)) => r == Ok(outcome) && store.State() == s
    ensures r.Err? && old(Sound(store.State())) && SPEAKER !in entry.Roles() ==> store.State() == old(store.State())
  {
    hide Granted, GrantedAll, Classified, Credentialed, Normal, ActiveRoles, MayMerge;
    ghost var begun := store.State();
    var holders := Classified(store.State(), setting.tenant, email);
    if holders.OtherTenant? || holders.Ambiguous? {
      return Err(SeedConflict);
    }
    if holders.OneInTenant? && store.accounts[holders.holder].subject != entry.subject {
      if !MayMerge(entry, ActiveRoles(store.State(), holders.holder, setting.now)) {
        return Err(SeedConflict);
      }
      var _ :- GrantEach(store, setting, email, entry.Roles());
      return Ok(Outcome(entry.role, true, true));
    }
    var id :- ExistingOrInsertAccount(store, setting.tenant, entry.subject, email);
    ghost var found := store.State();
    assert Sound(begun) && found != begun ==> HoldsOnly(found, id, setting.path, entry.Roles());
    var _ :- VerifyMembershipSet(store, id, setting.path, entry.Roles());
    var stored := Password(secret, setting.salts(entry.subject));
    if holders.Nobody? {
      if Sound(begun) {
        InsertedIsFree(begun, setting, entry, email);
        FirstGrantClaims(found, setting, email, entry.role, NewLogin(id, stored));
      }
      var _ :- store.FindOrAddRole(
        setting.tenant, email, entry.role, setting.path, setting.now, Some(NewLogin(id, stored)));
      if Sound(begun) {
        GrantedAllToHolder(store.State(), setting, email, entry.additional, id);
      }
      var _ :- GrantEach(store, setting, email, entry.additional);
    } else {
      if Sound(begun) {
        GrantedAllToHolder(begun, setting, email, entry.Roles(), holders.holder);
      }
      var _ :- GrantEach(store, setting, email, entry.Roles());
      var _ :- store.RotateOwnPassword(id, stored);
    }
    return Ok(Outcome(entry.role, true, false));
  }

  method SeedRoleLogins(store: LoginStore, setting: Setting, environ: Environ) returns (r: Result<seq<Outcome>, Refusal>)
    modifies store
    ensures match SeededAll(old(store.State()), setting, ENTRIES, environ)
            case Err(e) => r == Err(e)
            case Ok((s, outcomes)) => r == Ok(outcomes) && store.State() == s
  {
    hide SeededOne, ReadRole, ENTRIES;
    var outcomes := [];
    ghost var whole := SeededAll(store.State(), setting, ENTRIES, environ);
    assert ENTRIES[0..] == ENTRIES && (whole.Ok? ==> [] + whole.value.1 == whole.value.1);
    for i := 0 to |ENTRIES|
      invariant var rest := SeededAll(store.State(), setting, ENTRIES[i..], environ);
                if rest.Err? then whole == Err(rest.error)
                else whole == Ok((rest.value.0, outcomes + rest.value.1))
    {
      var entry := ENTRIES[i];
      assert ENTRIES[i..][1..] == ENTRIES[i + 1..];
      var configured :- ReadRole(entry, environ);
      var outcome := Outcome(entry.role, false, false);
      if configured.Some? {
        outcome :- SeedOne(store, setting, entry, configured.value.0, configured.value.1);
      }
      ghost var later := SeededAll(store.State(), setting, ENTRIES[i + 1..], environ);
      if later.Ok? {
        Associate(outcomes, [outcome], later.value.1);
      }
      outcomes := outcomes + [outcome];
    }
    assert ENTRIES[|ENTRIES|..] == [] && outcomes + [] == outcomes;
    return Ok(outcomes);
  }

  /** One transaction: a refusal leaves the store as it was. */
  method RunSeed(store: LoginStore, setting: Setting, environ: Environ) returns (r: Result<seq<Outcome>, Refusal>)
    modifies store
    ensures match SeededAll(old(store.State()), setting, ENTRIES, environ)
            case Err(e) => r == Err(e) && store.State() == old(store.State())
            case Ok((s, outcomes)) => r == Ok(outcomes) && store.State() == s
  {
    var begun := store.State();
    r := SeedRoleLogins(store, setting, environ);
    if r.Err? {
      store.accounts, store.credentials := begun.accounts, begun.credentials;
      store.memberships, store.bindings := begun.memberships, begun.bindings;
    }
  }
}
