/**
 * The seed runs again before every deployment. When a run passes on any store, and when a run that passed
 * passes again: with the same configuration, at any later time, whatever Speakers activated or unbound since.
 */
module SeedReruns {
  import opened Casing
  import opened LoginAccounts
  import opened LoginRuns
  import opened Outcomes
  import opened SeedLogins

  /** An entry's own login as a run leaves it: the one holder of its address, with exactly its rows and Speaker rows. */
  ghost predicate Ready(s: Store, tenant: string, path: string, entry: Entry, email: string, id: nat) {
    && id < |s.accounts| && s.accounts[id].subject == entry.subject && s.accounts[id].tenant == tenant
    && !s.accounts[id].suspended && Normal(s.accounts[id].email) == Normal(email)
    && HoldersOf(s, email) == {id}
    && SPEAKER !in entry.Roles() && HoldsOnly(s, id, path, entry.Roles())
    && forall role :: role in entry.Roles() ==> Membership(id, path, role, None, None) in s.memberships
  }

  // ----- a run leaves its logins ready ---------------------------------------------------------------------

  lemma RowsReady(a: Store, b: Store, target: nat, path: string, roles: seq<string>, now: int)
    requires RowsAdded(a, b, target, path, roles) && HoldsOnly(a, target, path, roles)
    requires RolesHeld(b, target, path, roles, now) && SPEAKER !in roles
    ensures HoldsOnly(b, target, path, roles)
    ensures forall role :: role in roles ==> Membership(target, path, role, None, None) in b.memberships
  {
    forall i | 0 <= i < |b.memberships| && b.memberships[i].user == target && b.memberships[i].role != SPEAKER
      ensures Expected(b.memberships[i], path, roles)
    {
      if i < |a.memberships| {
        assert a.memberships[i] == b.memberships[..|a.memberships|][i] == b.memberships[i];
      }
    }
    forall role | role in roles
      ensures Membership(target, path, role, None, None) in b.memberships
    {
      assert HoldsActive(b, target, role, path, now);
      var i :| 0 <= i < |b.memberships| &&
        var m := b.memberships[i]; m.user == target && m.role == role && m.path == path && ActiveAt(m, now);
      assert Expected(b.memberships[i], path, roles);
      assert b.memberships[i] == Membership(target, path, role, None, None);
    }
  }

  lemma EntryLeavesReady(a: Store, setting: Setting, entry: Entry, email: string, secret: string) returns (id: nat)
    requires Sound(a) && SeededOne(a, setting, entry, email, secret).Ok?
    requires !SeededOne(a, setting, entry, email, secret).value.1.foreignLogin
    ensures Ready(SeededOne(a, setting, entry, email, secret).value.0, setting.tenant, setting.path, entry, email, id)
  {
    id := EntryFrame(a, setting, entry, email, secret);
    FoundFrame(a, setting, entry, email);
    hide SeededOne, ExistingOrInserted, HoldsOnly, RolesHeld, HoldersOf, Normal, Sound, RowsAdded;
    var found := ExistingOrInserted(a, setting.tenant, entry.subject, email).value.0;
    var b := SeededOne(a, setting, entry, email, secret).value.0;
    SameRows(found, a, id, setting.path, entry.Roles());
    RowsReady(a, b, id, setting.path, entry.Roles(), setting.now);
  }

  lemma SameRows(a: Store, b: Store, user: nat, path: string, roles: seq<string>)
    requires a.memberships == b.memberships && HoldsOnly(a, user, path, roles)
    ensures HoldsOnly(b, user, path, roles)
  {
  }

  lemma ReadyIsCredentialed(s: Store, tenant: string, path: string, entry: Entry, email: string, id: nat)
    requires Ready(s, tenant, path, entry, email, id)
    ensures id in s.credentials
  {
    assert id in HoldersOf(s, email);
  }

  // ----- a ready login passes ------------------------------------------------------------------------------

  lemma {:induction false} NothingToGrant(s: Store, setting: Setting, email: string, roles: seq<string>, id: nat)
    requires Classified(s, setting.tenant, email) == OneInTenant(id)
    requires forall role :: role in roles ==> Membership(id, setting.path, role, None, None) in s.memberships
    ensures GrantedAll(s, setting, email, roles) == Ok(s)
    decreases |roles|
  {
    if roles != [] {
      hide Classified;
      var row := Membership(id, setting.path, roles[0], None, None);
      var i :| 0 <= i < |s.memberships| && s.memberships[i] == row;
      assert HoldsActive(s, id, roles[0], setting.path, setting.now);
      hide HoldsActive;
      NothingToGrant(s, setting, email, roles[1..], id);
    }
  }

  /** It is found, nothing is granted, and its password is rotated. */
  lemma ReadyPasses(s: Store, setting: Setting, entry: Entry, email: string, secret: string, id: nat)
    requires Sound(s) && Ready(s, setting.tenant, setting.path, entry, email, id)
    ensures SeededOne(s, setting, entry, email, secret)
            == Ok((s.(credentials := s.credentials[id := Password(secret, setting.salts(entry.subject))]),
                   Outcome(entry.role, true, false)))
  {
    assert Classified(s, setting.tenant, email) == OneInTenant(id);
    hide HoldersOf, Normal, HoldsOnly, Classified;
    OwnHolderIsFound(s, setting, entry, email, id);
    assert ExistingOrInserted(s, setting.tenant, entry.subject, email) == Ok((s, id));
    hide ExistingOrInserted, Sound;
    NothingToGrant(s, setting, email, entry.Roles(), id);
    hide GrantedAll;
  }

  // ----- what leaves a ready login ready --------------------------------------------------------------------

  lemma HoldersStay(a: Store, b: Store, email: string, id: nat, target: nat, other: string)
    requires HoldersOf(a, email) == {id} && target != id && target < |b.accounts| && |a.accounts| <= |b.accounts|
    requires forall u :: 0 <= u < |a.accounts| && u != target ==> b.accounts[u] == a.accounts[u]
    requires b.credentials.Keys == a.credentials.Keys + {target}
    requires |b.accounts| > |a.accounts| ==> |b.accounts| == |a.accounts| + 1 && target == |a.accounts|
    requires HoldersOf(a, other) == {} && b.accounts[target].email == Normal(other)
    ensures HoldersOf(b, email) == {id}
  {
    NormalisedIsFound(other);
    assert id in HoldersOf(a, email);
    assert Normal(email) != Normal(other) by {
      assert id !in HoldersOf(a, other);
    }
    hide Folded, Normal;
    forall u
      ensures u in HoldersOf(b, email) <==> u == id
    {
      assert u in b.credentials.Keys <==> u in a.credentials.Keys || u == target;
      if u != target {
        assert u in HoldersOf(a, email) <==> u == id;
      }
    }
  }

  lemma RowsOfOthers(a: Store, b: Store, id: nat, target: nat, path: string, roles: seq<string>, own: seq<string>)
    requires RowsAdded(a, b, target, path, roles) && target != id && HoldsOnly(a, id, path, own)
    ensures HoldsOnly(b, id, path, own)
    ensures forall m :: m in a.memberships ==> m in b.memberships
  {
    forall i | 0 <= i < |a.memberships|
      ensures a.memberships[i] == b.memberships[i]
    {
      assert a.memberships[i] == b.memberships[..|a.memberships|][i];
    }
  }

  /** What keeps a login ready: its account, its rows and its address are left alone. */
  lemma ReadyStays(
    a: Store, b: Store, tenant: string, path: string, entry: Entry, email: string, id: nat)
    requires Ready(a, tenant, path, entry, email, id) && id < |b.accounts| && b.accounts[id] == a.accounts[id]
    requires HoldersOf(b, email) == {id} && HoldsOnly(b, id, path, entry.Roles())
    requires forall role :: role in entry.Roles() ==> Membership(id, path, role, None, None) in b.memberships
    ensures Ready(b, tenant, path, entry, email, id)
  {
  }

  lemma TouchedElsewhere(
    a: Store, b: Store, tenant: string, path: string, entry: Entry, email: string, id: nat, target: nat, roles: seq<string>)
    requires Ready(a, tenant, path, entry, email, id) && Touched(a, b, target, path, roles) && target != id
    requires HoldersOf(b, email) == {id}
    ensures Ready(b, tenant, path, entry, email, id)
  {
    hide HoldersOf, HoldsOnly, RowsAdded, Normal;
    RowsOfOthers(a, b, id, target, path, roles, entry.Roles());
    ReadyStays(a, b, tenant, path, entry, email, id);
  }

  lemma HoldersElsewhere(
    a: Store, b: Store, tenant: string, path: string, other: Entry, otherEmail: string, target: nat, email: string, id: nat)
    requires HoldersOf(a, email) == {id} && target != id && Touched(a, b, target, path, other.Roles())
    requires OwnTouched(a, b, other, tenant, otherEmail, target)
    ensures HoldersOf(b, email) == {id}
  {
    hide HoldersOf, RowsAdded, Normal;
    if HoldersOf(a, otherEmail) == {} && b.accounts[target].email == Normal(otherEmail) {
      HoldersStay(a, b, email, id, target, otherEmail);
    } else {
      assert b.credentials.Keys == a.credentials.Keys;
      SameHolders(a, b, email);
    }
  }

  /** Another entry of the run does not touch it, unless its roles leave it open to a merge. */
  lemma EntryKeepsReady(
    a: Store, setting: Setting, other: Entry, otherEmail: string, secret: string, entry: Entry, email: string, id: nat)
    requires Sound(a) && SeededOne(a, setting, other, otherEmail, secret).Ok?
    requires Ready(a, setting.tenant, setting.path, entry, email, id)
    requires entry.subject != other.subject && !(entry.RoleSet() <= {SPEAKER, VOLUNTEER})
    ensures Ready(SeededOne(a, setting, other, otherEmail, secret).value.0, setting.tenant, setting.path, entry, email, id)
  {
    var target := EntryFrame(a, setting, other, otherEmail, secret);
    hide SeededOne, ExistingOrInserted, RolesHeld, Normal, Sound, HoldsOnly, HoldersOf, RowsAdded, ActiveRoles;
    var (b, outcome) := SeededOne(a, setting, other, otherEmail, secret).value;
    if outcome.foreignLogin {
      OpenRoleShows(a, setting.path, entry, id, setting.now);
      assert target != id;
      SameHolders(a, b, email);
    } else {
      assert target != id;
      HoldersElsewhere(a, b, setting.tenant, setting.path, other, otherEmail, target, email, id);
    }
    hide Touched, Ready;
    TouchedElsewhere(a, b, setting.tenant, setting.path, entry, email, id, target, other.Roles());
  }

  lemma OpenRoleShows(s: Store, path: string, entry: Entry, id: nat, now: int)
    requires forall role :: role in entry.Roles() ==> Membership(id, path, role, None, None) in s.memberships
    ensures entry.RoleSet() <= ActiveRoles(s, id, now)
  {
    forall role | role in entry.RoleSet()
      ensures role in ActiveRoles(s, id, now)
    {
      var i :| 0 <= i < |s.memberships| && s.memberships[i] == Membership(id, path, role, None, None);
    }
  }

  /** A password rotated changes nothing else. */
  lemma RotationKeepsReady(a: Store, b: Store, tenant: string, path: string, entry: Entry, email: string, id: nat)
    requires Ready(a, tenant, path, entry, email, id)
    requires b == a.(credentials := b.credentials) && b.credentials.Keys == a.credentials.Keys
    ensures Ready(b, tenant, path, entry, email, id)
  {
    SameHolders(a, b, email);
    SameRows(a, b, id, path, entry.Roles());
    hide HoldersOf, HoldsOnly, Normal;
  }

  /** The portal adds or ends Speaker rows, and a contact account with a password is never given another. */
  lemma ActivationKeepsReady(
    a: Store, tenant: string, contact: nat, address: string, unit: string, supplied: Supplied, now: int,
    seedTenant: string, path: string, entry: Entry, email: string, id: nat)
    requires Activated(a, tenant, contact, address, unit, supplied, now).Ok?
    requires Ready(a, seedTenant, path, entry, email, id)
    ensures Ready(Activated(a, tenant, contact, address, unit, supplied, now).value, seedTenant, path, entry, email, id)
  {
    var mode := ChosenMode(a, tenant, contact, address, now).value;
    var create := if mode == None then Some(NewLogin(contact, supplied.password)) else None;
    var (b, grant) := Granted(a, tenant, address, SPEAKER, unit, now, create).value;
    ReadyIsCredentialed(a, seedTenant, path, entry, email, id);
    hide Ready;
    SpeakerGrantKeepsReady(a, tenant, address, unit, now, create, seedTenant, path, entry, email, id);
    BindingKeepsReady(b, b.bindings[contact := grant.user], seedTenant, path, entry, email, id);
  }

  lemma BindingKeepsReady(
    a: Store, bindings: map<nat, nat>, tenant: string, path: string, entry: Entry, email: string, id: nat)
    requires Ready(a, tenant, path, entry, email, id)
    ensures Ready(a.(bindings := bindings), tenant, path, entry, email, id)
  {
    SameHolders(a, a.(bindings := bindings), email);
    SameRows(a, a.(bindings := bindings), id, path, entry.Roles());
    hide HoldersOf, HoldsOnly, Normal;
  }

  lemma SpeakerRowKeepsReady(
    a: Store, user: nat, unit: string, now: int, tenant: string, path: string, entry: Entry, email: string, id: nat)
    requires Ready(a, tenant, path, entry, email, id)
    ensures Ready(WithRole(a, user, SPEAKER, unit, now), tenant, path, entry, email, id)
  {
    var b := WithRole(a, user, SPEAKER, unit, now);
    SameHolders(a, b, email);
    hide HoldersOf, Normal, HoldsActive;
    assert forall m :: m in a.memberships ==> m in b.memberships;
  }

  lemma SpeakerGrantKeepsReady(
    a: Store, tenant: string, address: string, unit: string, now: int, create: Option<NewLogin>,
    seedTenant: string, path: string, entry: Entry, email: string, id: nat)
    requires Granted(a, tenant, address, SPEAKER, unit, now, create).Ok?
    requires Ready(a, seedTenant, path, entry, email, id) && (create.Some? ==> create.value.user != id)
    ensures Ready(Granted(a, tenant, address, SPEAKER, unit, now, create).value.0, seedTenant, path, entry, email, id)
  {
    hide Ready, HoldersOf, WithRole, Normal;
    match Classified(a, tenant, address)
    case OneInTenant(holder) =>
      SpeakerRowKeepsReady(a, holder, unit, now, seedTenant, path, entry, email, id);
    case Nobody =>
      var credentialed := Credentialed(a, tenant, address, create.value).value;
      ClaimKeepsReady(a, tenant, address, create.value, seedTenant, path, entry, email, id);
      SpeakerRowKeepsReady(credentialed, create.value.user, unit, now, seedTenant, path, entry, email, id);
    case _ =>
  }

  lemma ClaimKeepsReady(
    a: Store, tenant: string, address: string, create: NewLogin,
    seedTenant: string, path: string, entry: Entry, email: string, id: nat)
    requires HoldersOf(a, address) == {} && Credentialed(a, tenant, address, create).Ok?
    requires Ready(a, seedTenant, path, entry, email, id) && create.user != id
    ensures Ready(Credentialed(a, tenant, address, create).value, seedTenant, path, entry, email, id)
  {
    hide HoldersOf, Normal, HoldsOnly;
    var b := Credentialed(a, tenant, address, create).value;
    HoldersStay(a, b, email, id, create.user, address);
    SameRows(a, b, id, path, entry.Roles());
  }

  /** An unbind drops the password of an account that is bound to itself. */
  predicate Drops(s: Store, contact: nat, id: nat) {
    contact == id && contact in s.bindings && s.bindings[contact] == contact
  }

  /** Short of that, a ready login stays ready. */
  lemma UnbindKeepsReady(
    a: Store, contact: nat, now: int, tenant: string, path: string, entry: Entry, email: string, id: nat)
    requires Ready(a, tenant, path, entry, email, id)
    ensures Ready(Unbound(a, contact, now), tenant, path, entry, email, id) <==> !Drops(a, contact, id)
  {
    var b := Unbound(a, contact, now);
    assert id in HoldersOf(a, email);
    if Drops(a, contact, id) {
      assert id !in HoldersOf(b, email);
    } else if contact in a.bindings {
      UnbindKeepsRows(a, contact, now, id, path, entry.Roles());
      forall u
        ensures u in HoldersOf(b, email) <==> u == id
      {
        assert u in HoldersOf(a, email) <==> u == id;
      }
      hide HoldersOf, Normal, Folded, HoldsOnly;
      assert HoldersOf(b, email) == {id};
    }
  }

  /** What an unbind rewrites are Speaker rows. */
  lemma UnbindKeepsRows(a: Store, contact: nat, now: int, id: nat, path: string, roles: seq<string>)
    ensures HoldsOnly(Unbound(a, contact, now), id, path, roles) <==> HoldsOnly(a, id, path, roles)
    ensures forall role :: SPEAKER != role && Membership(id, path, role, None, None) in a.memberships ==>
              Membership(id, path, role, None, None) in Unbound(a, contact, now).memberships
  {
    if contact in a.bindings {
      var b := Unbound(a, contact, now);
      assert forall i :: 0 <= i < |a.memberships| && a.memberships[i].role != SPEAKER ==>
          b.memberships[i] == a.memberships[i];
      assert forall i :: 0 <= i < |a.memberships| ==>
          b.memberships[i].user == a.memberships[i].user && b.memberships[i].role == a.memberships[i].role;
      forall role | SPEAKER != role && Membership(id, path, role, None, None) in a.memberships
        ensures Membership(id, path, role, None, None) in b.memberships
      {
        var i :| 0 <= i < |a.memberships| && a.memberships[i] == Membership(id, path, role, None, None);
        assert b.memberships[i] == a.memberships[i];
      }
    }
  }

  // ----- when an entry passes ---------------------------------------------------------------------------------

  /** The entry's own account is in the organization, at the address, live, and holds no row the entry did not ask for. */
  predicate OwnIntact(s: Store, setting: Setting, entry: Entry, email: string, id: nat)
    requires id < |s.accounts|
  {
    && s.accounts[id].tenant == setting.tenant && Normal(s.accounts[id].email) == Normal(email)
    && !s.accounts[id].suspended && SPEAKER !in entry.Roles() && HoldsOnly(s, id, setting.path, entry.Roles())
  }

  /** Somebody else holds the address. */
  predicate HeldByAnother(s: Store, setting: Setting, entry: Entry, email: string) {
    var found := Classified(s, setting.tenant, email);
    found.OneInTenant? && s.accounts[found.holder].subject != entry.subject
  }

  /** What an entry needs of the store: nothing here writes. */
  predicate EntryPasses(s: Store, setting: Setting, entry: Entry, email: string) {
    match Classified(s, setting.tenant, email)
    case OneInTenant(holder) =>
      if s.accounts[holder].subject == entry.subject then OwnIntact(s, setting, entry, email, holder)
      else MayMerge(entry, ActiveRoles(s, holder, setting.now))
    case Nobody =>
      var own := FindSubject(s.accounts, entry.subject);
      SPEAKER !in entry.Roles() && (own.Some? ==> own.value !in s.credentials && OwnIntact(s, setting, entry, email, own.value))
    case _ => false
  }

  lemma InsertedHoldsNothing(s: Store, setting: Setting, entry: Entry, email: string)
    requires Sound(s) && FindSubject(s.accounts, entry.subject) == None
    ensures var (found, id) := ExistingOrInserted(s, setting.tenant, entry.subject, email).value;
            HoldsOnly(found, id, setting.path, entry.Roles()) && id !in s.credentials
  {
    var (found, id) := ExistingOrInserted(s, setting.tenant, entry.subject, email).value;
    assert forall i :: 0 <= i < |found.memberships| ==> found.memberships[i] in s.memberships;
  }

  lemma UnclaimedPassesExactlyWhen(s: Store, setting: Setting, entry: Entry, email: string, secret: string)
    requires Sound(s) && Classified(s, setting.tenant, email).Nobody?
    ensures SeededOwn(s, setting, entry, email, secret, true).Ok? <==> EntryPasses(s, setting, entry, email)
  {
    hide Granted, GrantedAll, HoldersOf, HoldsOnly, Normal, Sound, Classified, Credentialed;
    if FindSubject(s.accounts, entry.subject) == None {
      InsertedHoldsNothing(s, setting, entry, email);
    }
    var found := ExistingOrInserted(s, setting.tenant, entry.subject, email);
    if found.Ok? {
      var (t, id) := found.value;
      var create := NewLogin(id, Password(secret, setting.salts(entry.subject)));
      InsertedIsFree(s, setting, entry, email);
      FirstGrantClaims(t, setting, email, entry.role, create);
      var first := Granted(t, setting.tenant, email, entry.role, setting.path, setting.now, Some(create));
      if first.Ok? {
        GrantedAllToHolder(first.value.0, setting, email, entry.additional, id);
      }
    }
  }

  /** An entry is refused for nothing else, and it merges exactly when another login holds its address. */
  lemma EntryPassesExactlyWhen(s: Store, setting: Setting, entry: Entry, email: string, secret: string)
    requires Sound(s)
    ensures SeededOne(s, setting, entry, email, secret).Ok? <==> EntryPasses(s, setting, entry, email)
    ensures SeededOne(s, setting, entry, email, secret).Ok? ==>
              (SeededOne(s, setting, entry, email, secret).value.1.foreignLogin <==> HeldByAnother(s, setting, entry, email))
  {
    hide Granted, GrantedAll, HoldersOf, Normal, HoldsOnly, ActiveRoles;
    match Classified(s, setting.tenant, email)
    case Nobody =>
      UnclaimedPassesExactlyWhen(s, setting, entry, email, secret);
    case OneInTenant(holder) =>
      GrantedAllToHolder(s, setting, email, entry.Roles(), holder);
      if s.accounts[holder].subject == entry.subject {
        OwnHolderIsFound(s, setting, entry, email, holder);
      }
    case _ =>
  }

  // ----- when a run passes --------------------------------------------------------------------------------------

  /** Entries whose logins cannot be merged into by a later entry. */
  ghost predicate Compatible(entries: seq<Entry>) {
    forall i, j :: 0 <= i < j < |entries| ==>
      entries[i].subject != entries[j].subject && !(entries[i].RoleSet() <= {SPEAKER, VOLUNTEER})
  }

  lemma FewerAreCompatible(entries: seq<Entry>)
    requires Compatible(entries) && entries != []
    ensures Compatible(entries[1..])
  {
    forall i, j | 0 <= i < j < |entries[1..]|
      ensures entries[1..][i].subject != entries[1..][j].subject
      ensures !(entries[1..][i].RoleSet() <= {SPEAKER, VOLUNTEER})
    {
      assert entries[1..][i] == entries[i + 1] && entries[1..][j] == entries[j + 1];
    }
  }

  predicate Configured(entry: Entry, environ: Environ) {
    ReadRole(entry, environ).Ok? && ReadRole(entry, environ).value.Some?
  }

  function Email(entry: Entry, environ: Environ): string
    requires Configured(entry, environ)
  {
    ReadRole(entry, environ).value.value.0
  }

  function Address(entry: Entry, environ: Environ): string
    requires Configured(entry, environ)
  {
    Normal(Email(entry, environ))
  }

  /** No two configured entries share an address. */
  ghost predicate AddressesDiffer(entries: seq<Entry>, environ: Environ) {
    forall i, j :: 0 <= i < j < |entries| && Configured(entries[i], environ) && Configured(entries[j], environ) ==>
      Address(entries[i], environ) != Address(entries[j], environ)
  }

  lemma FewerDiffer(entries: seq<Entry>, environ: Environ)
    requires AddressesDiffer(entries, environ) && entries != []
    ensures AddressesDiffer(entries[1..], environ)
  {
    hide ReadRole, Configured, Address;
    forall i, j | 0 <= i < j < |entries[1..]|
      ensures entries[1..][i] == entries[i + 1] && entries[1..][j] == entries[j + 1]
    {
    }
  }

  lemma RestStillShares(entries: seq<Entry>, environ: Environ)
    requires entries != [] && !AddressesDiffer(entries, environ)
    requires Configured(entries[0], environ) ==> forall j ::
               0 <= j < |entries[1..]| && Configured(entries[1..][j], environ) ==>
                 Address(entries[1..][j], environ) != Address(entries[0], environ)
    ensures !AddressesDiffer(entries[1..], environ)
  {
    hide ReadRole, Configured, Address;
    var i, j :| 0 <= i < j < |entries| && Configured(entries[i], environ) && Configured(entries[j], environ)
                && Address(entries[i], environ) == Address(entries[j], environ);
    assert entries[j] == entries[1..][j - 1];
    if i > 0 {
      assert entries[i] == entries[1..][i - 1];
    }
  }

  /** An entry whose address an earlier entry claimed is refused. */
  lemma ClaimedAddressIsRefused(
    s: Store, setting: Setting, entry: Entry, email: string, id: nat, later: Entry, other: string, secret: string)
    requires Ready(s, setting.tenant, setting.path, entry, email, id) && Normal(other) == Normal(email)
    requires later.subject != entry.subject && !(entry.RoleSet() <= {SPEAKER, VOLUNTEER})
    ensures SeededOne(s, setting, later, other, secret) == Err(SeedConflict)
  {
    assert HoldersOf(s, other) == HoldersOf(s, email);
    assert Classified(s, setting.tenant, other) == OneInTenant(id);
    OpenRoleShows(s, setting.path, entry, id, setting.now);
    hide Classified, HoldersOf, HoldsOnly, Normal, ActiveRoles;
  }

  lemma {:induction false} SharedAddressIsRefused(
    s: Store, setting: Setting, rest: seq<Entry>, environ: Environ, entry: Entry, email: string, id: nat, j: nat)
    requires Sound(s) && Ready(s, setting.tenant, setting.path, entry, email, id)
    requires !(entry.RoleSet() <= {SPEAKER, VOLUNTEER}) && forall other :: other in rest ==> other.subject != entry.subject
    requires j < |rest| && Configured(rest[j], environ) && Address(rest[j], environ) == Normal(email)
    ensures SeededAll(s, setting, rest, environ).Err?
    decreases |rest|
  {
    hide SeededOne, Sound, ReadRole, Ready, Normal;
    var first := ReadRole(rest[0], environ);
    if first.Ok? && first.value.Some? && j == 0 {
      ClaimedAddressIsRefused(s, setting, entry, email, id, rest[0], first.value.value.0, first.value.value.1);
    } else if first.Ok? && first.value.Some? {
      var (other, secret) := first.value.value;
      if SeededOne(s, setting, rest[0], other, secret).Ok? {
        EntryKeepsSound(s, setting, rest[0], other, secret);
        EntryKeepsReady(s, setting, rest[0], other, secret, entry, email, id);
        var next := SeededOne(s, setting, rest[0], other, secret).value.0;
        SharedAddressIsRefused(next, setting, rest[1..], environ, entry, email, id, j - 1);
      }
    } else if first.Ok? {
      SharedAddressIsRefused(s, setting, rest[1..], environ, entry, email, id, j - 1);
    }
  }

  /** An entry's own login, claimed or found, holds no other address, before or after. */
  lemma OtherAddressStays(a: Store, b: Store, entry: Entry, setting: Setting, email: string, target: nat, other: string)
    requires Touched(a, b, target, setting.path, entry.Roles()) && OwnTouched(a, b, entry, setting.tenant, email, target)
    requires Normal(other) != Normal(email)
    ensures HoldersOf(b, other) == HoldersOf(a, other) && target !in HoldersOf(a, other)
  {
    hide RowsAdded, Normal;
    assert target in HoldersOf(b, email);
    forall u
      ensures u in HoldersOf(b, other) <==> u in HoldersOf(a, other)
    {
      assert u in b.credentials.Keys <==> u in a.credentials.Keys || u == target;
    }
    assert target !in HoldersOf(b, other);
  }

  lemma OthersKeepTheirRows(a: Store, b: Store, target: nat, path: string, roles: seq<string>, user: nat, own: seq<string>, now: int)
    requires RowsAdded(a, b, target, path, roles) && user != target
    ensures HoldsOnly(b, user, path, own) <==> HoldsOnly(a, user, path, own)
    ensures ActiveRoles(b, user, now) == ActiveRoles(a, user, now)
  {
    forall i | 0 <= i < |a.memberships|
      ensures a.memberships[i] == b.memberships[i]
    {
      assert a.memberships[i] == b.memberships[..|a.memberships|][i];
    }
  }

  lemma OtherSubjectStays(a: Store, b: Store, entry: Entry, setting: Setting, email: string, target: nat, subject: string)
    requires Sound(a) && subject != entry.subject
    requires Touched(a, b, target, setting.path, entry.Roles()) && OwnTouched(a, b, entry, setting.tenant, email, target)
    ensures FindSubject(b.accounts, subject) == FindSubject(a.accounts, subject)
    ensures FindSubject(a.accounts, subject) != Some(target)
  {
    hide RowsAdded, Normal, HoldersOf;
    var before, after := FindSubject(a.accounts, subject), FindSubject(b.accounts, subject);
    if before.Some? {
      assert b.accounts[before.value].subject == subject;
    }
    if after.Some? {
      assert after.value < |a.accounts|;
    }
  }

  /** An entry that passes on its own login leaves every other entry at another address as it was. */
  lemma OwnEntryLeavesOthers(
    a: Store, setting: Setting, entry: Entry, email: string, secret: string, other: Entry, otherEmail: string)
    requires Sound(a) && SeededOne(a, setting, entry, email, secret).Ok?
    requires !SeededOne(a, setting, entry, email, secret).value.1.foreignLogin
    requires other.subject != entry.subject && Normal(otherEmail) != Normal(email)
    ensures var b := SeededOne(a, setting, entry, email, secret).value.0;
            && (EntryPasses(b, setting, other, otherEmail) <==> EntryPasses(a, setting, other, otherEmail))
            && (HeldByAnother(b, setting, other, otherEmail) <==> HeldByAnother(a, setting, other, otherEmail))
  {
    var target := EntryFrame(a, setting, entry, email, secret);
    hide SeededOne, ExistingOrInserted, HoldsOnly, RolesHeld, HoldersOf, Normal;
    var b := SeededOne(a, setting, entry, email, secret).value.0;
    OtherAddressStays(a, b, entry, setting, email, target, otherEmail);
    OtherSubjectStays(a, b, entry, setting, email, target, other.subject);
    hide OwnTouched, RowsAdded;
    SameVerdict(a, b, setting, entry, target, other, otherEmail);
  }

  lemma SameVerdict(a: Store, b: Store, setting: Setting, entry: Entry, target: nat, other: Entry, email: string)
    requires Sound(a) && Touched(a, b, target, setting.path, entry.Roles())
    requires HoldersOf(b, email) == HoldersOf(a, email) && target !in HoldersOf(a, email)
    requires FindSubject(b.accounts, other.subject) == FindSubject(a.accounts, other.subject) != Some(target)
    ensures EntryPasses(b, setting, other, email) <==> EntryPasses(a, setting, other, email)
    ensures HeldByAnother(b, setting, other, email) <==> HeldByAnother(a, setting, other, email)
  {
    hide Normal, HoldersOf, HoldsOnly, ActiveRoles, RowsAdded, FindSubject;
    var found := Classified(a, setting.tenant, email);
    if found.OneInTenant? {
      assert found.holder in HoldersOf(a, email);
      OthersKeepTheirRows(a, b, target, setting.path, entry.Roles(), found.holder, other.Roles(), setting.now);
    }
    HoldersAreAccounts(a, email);
    assert forall id :: id in HoldersOf(a, email) ==> b.accounts[id] == a.accounts[id];
    SameClass(a, b, setting.tenant, email);
    hide Classified;
    var own := FindSubject(a.accounts, other.subject);
    if own.Some? {
      OthersKeepTheirRows(a, b, target, setting.path, entry.Roles(), own.value, other.Roles(), setting.now);
      assert b.accounts[own.value] == a.accounts[own.value];
      assert own.value in b.credentials.Keys <==> own.value in a.credentials.Keys;
    }
  }

  lemma HoldersAreAccounts(s: Store, email: string)
    ensures forall id :: id in HoldersOf(s, email) ==> id < |s.accounts|
  {
  }

  lemma SameClass(a: Store, b: Store, tenant: string, email: string)
    requires HoldersOf(b, email) == HoldersOf(a, email) && |a.accounts| <= |b.accounts|
    requires forall id :: id in HoldersOf(a, email) ==> id < |a.accounts| && b.accounts[id] == a.accounts[id]
    ensures Classified(b, tenant, email) == Classified(a, tenant, email)
  {
    hide HoldersOf;
    var holders := HoldersOf(a, email);
    if |holders| == 1 {
      OneMember(holders);
      var id :| id in holders;
      assert holders == {id};
    }
  }

  /** Every configured entry passes, taken alone in the store. */
  ghost predicate EachPasses(s: Store, setting: Setting, entries: seq<Entry>, environ: Environ) {
    forall e :: e in entries && Configured(e, environ) ==> EntryPasses(s, setting, e, Email(e, environ))
  }

  ghost predicate AllRead(entries: seq<Entry>, environ: Environ) {
    forall e :: e in entries ==> ReadRole(e, environ).Ok?
  }

  /** The outcomes name the merges, and those are told from the store before the run. */
  ghost predicate MergesAre(
    s: Store, setting: Setting, entries: seq<Entry>, environ: Environ, outcomes: seq<Outcome>) {
    && |outcomes| == |entries|
    && forall i :: 0 <= i < |entries| ==>
         (outcomes[i].foreignLogin <==>
            Configured(entries[i], environ) && HeldByAnother(s, setting, entries[i], Email(entries[i], environ)))
  }

  lemma FirstIsOwn(s: Store, setting: Setting, entries: seq<Entry>, email: string, secret: string)
    requires Sound(s) && Compatible(entries) && |entries| > 1 && SeededOne(s, setting, entries[0], email, secret).Ok?
    ensures !SeededOne(s, setting, entries[0], email, secret).value.1.foreignLogin
  {
    EntryPassesExactlyWhen(s, setting, entries[0], email, secret);
    hide SeededOne, Sound, Classified, OwnIntact, ActiveRoles;
    assert entries[0].subject != entries[1].subject;
  }

  /** The same verdicts on each of the rest are the same verdicts on all of it. */
  lemma SameVerdicts(
    a: Store, b: Store, setting: Setting, entries: seq<Entry>, environ: Environ, outcomes: seq<Outcome>)
    requires forall i :: 0 <= i < |entries| && Configured(entries[i], environ) ==>
      var e := entries[i];
      && (EntryPasses(b, setting, e, Email(e, environ)) <==> EntryPasses(a, setting, e, Email(e, environ)))
      && (HeldByAnother(b, setting, e, Email(e, environ)) <==> HeldByAnother(a, setting, e, Email(e, environ)))
    ensures EachPasses(b, setting, entries, environ) <==> EachPasses(a, setting, entries, environ)
    ensures MergesAre(b, setting, entries, environ, outcomes) <==> MergesAre(a, setting, entries, environ, outcomes)
  {
    hide EntryPasses, HeldByAnother, Email, Configured;
  }

  lemma RestSeesTheSame(
    s: Store, setting: Setting, entries: seq<Entry>, environ: Environ, email: string, secret: string, outcomes: seq<Outcome>)
    requires Sound(s) && Compatible(entries) && |entries| > 1 && SeededOne(s, setting, entries[0], email, secret).Ok?
    requires forall j :: 1 <= j < |entries| && Configured(entries[j], environ) ==>
               Address(entries[j], environ) != Normal(email)
    ensures var next := SeededOne(s, setting, entries[0], email, secret).value.0;
            && (EachPasses(next, setting, entries[1..], environ) <==> EachPasses(s, setting, entries[1..], environ))
            && (MergesAre(next, setting, entries[1..], environ, outcomes)
                <==> MergesAre(s, setting, entries[1..], environ, outcomes))
  {
    FirstIsOwn(s, setting, entries, email, secret);
    hide SeededOne, Sound, Configured, Email, EntryPasses, HeldByAnother, EachPasses, MergesAre, Normal;
    var next, rest := SeededOne(s, setting, entries[0], email, secret).value.0, entries[1..];
    forall i | 0 <= i < |rest| && Configured(rest[i], environ)
      ensures var e := rest[i];
              && (EntryPasses(next, setting, e, Email(e, environ)) <==> EntryPasses(s, setting, e, Email(e, environ)))
              && (HeldByAnother(next, setting, e, Email(e, environ)) <==> HeldByAnother(s, setting, e, Email(e, environ)))
    {
      assert rest[i] == entries[i + 1];
      OwnEntryLeavesOthers(s, setting, entries[0], email, secret, rest[i], Email(rest[i], environ));
    }
    SameVerdicts(s, next, setting, rest, environ, outcomes);
  }

  /**
   * On any sound store a run passes exactly when every entry is configured whole or not at all, no two
   * configured entries share an address, and each configured entry passes alone in the store as it was
   * before the run; and what it merges can be told from that store.
   */
  lemma {:induction false} RunPassesExactlyWhen(s: Store, setting: Setting, entries: seq<Entry>, environ: Environ)
    requires Sound(s) && Compatible(entries)
    ensures var r := SeededAll(s, setting, entries, environ);
            && (r.Ok? <==> AllRead(entries, environ) && AddressesDiffer(entries, environ)
                           && EachPasses(s, setting, entries, environ))
            && (r.Ok? ==> MergesAre(s, setting, entries, environ, r.value.1))
    decreases |entries|, 1
  {
    hide SeededOne, Sound, ReadRole, EntryPasses, HeldByAnother, Address;
    if entries != [] {
      var entry, rest := entries[0], entries[1..];
      assert forall e :: e in entries <==> e == entry || e in rest;
      FewerAreCompatible(entries);
      if Configured(entry, environ) {
        var (email, secret) := ReadRole(entry, environ).value.value;
        EntryPassesExactlyWhen(s, setting, entry, email, secret);
        assert Address(entry, environ) == Normal(email) by {
          AddressIs(entry, environ);
        }
        if SeededOne(s, setting, entry, email, secret).Ok? && rest != [] {
          RunAfterFirst(s, setting, entries, environ, email, secret);
        }
      } else if ReadRole(entry, environ).Ok? {
        RunPassesExactlyWhen(s, setting, rest, environ);
        OneFewerDiffers(entries, environ);
      }
    }
  }

  lemma AddressIs(entry: Entry, environ: Environ)
    requires Configured(entry, environ)
    ensures Address(entry, environ) == Normal(ReadRole(entry, environ).value.value.0)
  {
    hide ReadRole, Normal;
  }

  lemma OneFewerDiffers(entries: seq<Entry>, environ: Environ)
    requires entries != []
    requires Configured(entries[0], environ) ==> forall j ::
               0 <= j < |entries[1..]| && Configured(entries[1..][j], environ) ==>
                 Address(entries[1..][j], environ) != Address(entries[0], environ)
    ensures AddressesDiffer(entries, environ) <==> AddressesDiffer(entries[1..], environ)
  {
    hide Configured, Address, AddressesDiffer;
    if AddressesDiffer(entries, environ) {
      FewerDiffer(entries, environ);
    } else {
      RestStillShares(entries, environ);
    }
  }

  lemma FirstStandsApart(entries: seq<Entry>)
    requires Compatible(entries) && |entries| > 1
    ensures !(entries[0].RoleSet() <= {SPEAKER, VOLUNTEER})
    ensures forall other :: other in entries[1..] ==> other.subject != entries[0].subject
  {
    assert entries[0].subject != entries[1].subject;
    forall other | other in entries[1..]
      ensures other.subject != entries[0].subject
    {
      var i :| 0 <= i < |entries[1..]| && entries[1..][i] == other;
      assert entries[i + 1] == other;
    }
  }

  lemma SharedFirstIsRefused(
    s: Store, setting: Setting, entries: seq<Entry>, environ: Environ, email: string, secret: string, j: nat)
    requires Sound(s) && Compatible(entries) && 1 <= j < |entries| && SeededOne(s, setting, entries[0], email, secret).Ok?
    requires Configured(entries[j], environ) && Address(entries[j], environ) == Normal(email)
    ensures SeededAll(SeededOne(s, setting, entries[0], email, secret).value.0, setting, entries[1..], environ).Err?
  {
    hide *;
    FirstStandsApart(entries);
    FirstIsOwn(s, setting, entries, email, secret);
    EntryKeepsSound(s, setting, entries[0], email, secret);
    var id := EntryLeavesReady(s, setting, entries[0], email, secret);
    assert entries[j] == entries[1..][j - 1];
    SharedAddressIsRefused(
      SeededOne(s, setting, entries[0], email, secret).value.0, setting, entries[1..], environ, entries[0], email, id, j - 1);
  }

  lemma {:induction false} RunAfterFirst(
    s: Store, setting: Setting, entries: seq<Entry>, environ: Environ, email: string, secret: string)
    requires Sound(s) && Compatible(entries) && |entries| > 1 && SeededOne(s, setting, entries[0], email, secret).Ok?
    requires Configured(entries[0], environ) && Address(entries[0], environ) == Normal(email)
    ensures var next := SeededOne(s, setting, entries[0], email, secret).value.0;
            var r := SeededAll(next, setting, entries[1..], environ);
            && (r.Ok? <==> AllRead(entries[1..], environ) && AddressesDiffer(entries, environ)
                           && EachPasses(s, setting, entries[1..], environ))
            && (r.Ok? ==> MergesAre(s, setting, entries[1..], environ, r.value.1))
    decreases |entries|, 0
  {
    var rest := entries[1..];
    hide SeededOne, SeededAll, Sound, Configured, Address, EachPasses, MergesAre, Normal, AllRead, Compatible;
    var next := SeededOne(s, setting, entries[0], email, secret).value.0;
    if j :| 1 <= j < |entries| && Configured(entries[j], environ) && Address(entries[j], environ) == Normal(email) {
      SharedFirstIsRefused(s, setting, entries, environ, email, secret, j);
    } else {
      assert forall i :: 0 <= i < |rest| ==> rest[i] == entries[i + 1];
      EntryKeepsSound(s, setting, entries[0], email, secret);
      FewerAreCompatible(entries);
      RunPassesExactlyWhen(next, setting, rest, environ);
      OneFewerDiffers(entries, environ);
      var r := SeededAll(next, setting, rest, environ);
      RestSeesTheSame(s, setting, entries, environ, email, secret, if r.Ok? then r.value.1 else []);
    }
  }

  lemma EntriesAreCompatible()
    ensures Compatible(ENTRIES)
  {
    assert ENTRIES[0].subject[12] == 'c' && ENTRIES[1].subject[12] == 's';
    assert ENTRIES[2].subject[12] == 'a' && ENTRIES[3].subject[12] == 'v';
    forall i | 0 <= i < 3
      ensures !(ENTRIES[i].RoleSet() <= {SPEAKER, VOLUNTEER})
    {
      assert ENTRIES[i].role in ENTRIES[i].RoleSet();
      assert |SPEAKER| == 7 && |VOLUNTEER| == 9 && |ENTRIES[0].role| == 11 && |ENTRIES[2].role| == 5;
      assert ENTRIES[1].role[1] == 't' && SPEAKER[1] == 'p';
    }
  }

  lemma NoEntryAsksForSpeaker()
    ensures forall e :: e in ENTRIES ==> SPEAKER !in e.Roles()
  {
    assert SPEAKER[0] == 's' && SPEAKER[1] == 'p' && |SPEAKER| == 7;
    forall i | 0 <= i < |ENTRIES|
      ensures SPEAKER !in ENTRIES[i].Roles()
    {
      assert ENTRIES[1].role[1] == 't';
    }
  }

  /**
   * On an empty store a run passes exactly when no entry is configured by halves or with a short
   * password and no two configured entries share an address.
   */
  lemma FirstRunPassesExactlyWhen(setting: Setting, environ: Environ)
    ensures var r := SeededAll(Store([], map[], [], map[]), setting, ENTRIES, environ);
            && (r.Ok? <==> AllRead(ENTRIES, environ) && AddressesDiffer(ENTRIES, environ))
            && (r.Ok? ==> NoneForeign(r.value.1))
  {
    var empty := Store([], map[], [], map[]);
    EntriesAreCompatible();
    NoEntryAsksForSpeaker();
    assert Sound(empty);
    forall e: Entry, email: string | SPEAKER !in e.Roles()
      ensures EntryPasses(empty, setting, e, email) && !HeldByAnother(empty, setting, e, email)
    {
      assert HoldersOf(empty, email) == {};
    }
    hide ENTRIES, SeededAll, ReadRole, EntryPasses, HeldByAnother, Sound, AddressesDiffer, AllRead;
    RunPassesExactlyWhen(empty, setting, ENTRIES, environ);
  }

  // ----- the next run -----------------------------------------------------------------------------------------

  ghost predicate EntryReady(s: Store, tenant: string, path: string, entry: Entry, environ: Environ) {
    && ReadRole(entry, environ).Ok?
    && (ReadRole(entry, environ).value.Some? ==>
          exists id :: Ready(s, tenant, path, entry, ReadRole(entry, environ).value.value.0, id))
  }

  lemma {:induction false} LaterEntriesKeepReady(
    a: Store, setting: Setting, rest: seq<Entry>, environ: Environ, entry: Entry, email: string, id: nat)
    requires Sound(a) && SeededAll(a, setting, rest, environ).Ok?
    requires Ready(a, setting.tenant, setting.path, entry, email, id) && !(entry.RoleSet() <= {SPEAKER, VOLUNTEER})
    requires forall other :: other in rest ==> other.subject != entry.subject
    ensures Ready(SeededAll(a, setting, rest, environ).value.0, setting.tenant, setting.path, entry, email, id)
    decreases |rest|
  {
    hide SeededOne, Sound, ReadRole, Ready;
    if rest != [] {
      var configured := ReadRole(rest[0], environ).value;
      if configured == None {
        LaterEntriesKeepReady(a, setting, rest[1..], environ, entry, email, id);
      } else {
        var (otherEmail, secret) := configured.value;
        EntryKeepsSound(a, setting, rest[0], otherEmail, secret);
        EntryKeepsReady(a, setting, rest[0], otherEmail, secret, entry, email, id);
        LaterEntriesKeepReady(SeededOne(a, setting, rest[0], otherEmail, secret).value.0,
                              setting, rest[1..], environ, entry, email, id);
      }
    }
  }

  ghost predicate NoneForeign(outcomes: seq<Outcome>) {
    forall o :: o in outcomes ==> !o.foreignLogin
  }

  /** Whatever a run does not merge it leaves ready. */
  lemma {:induction false} RunLeavesReady(a: Store, setting: Setting, entries: seq<Entry>, environ: Environ)
    requires Sound(a) && Compatible(entries) && SeededAll(a, setting, entries, environ).Ok?
    ensures var (b, outcomes) := SeededAll(a, setting, entries, environ).value;
            && |outcomes| == |entries|
            && forall i :: 0 <= i < |entries| && !outcomes[i].foreignLogin ==>
                 EntryReady(b, setting.tenant, setting.path, entries[i], environ)
    decreases |entries|
  {
    hide SeededOne, Sound, ReadRole, Ready;
    if entries != [] {
      var entry, rest := entries[0], entries[1..];
      var (b, outcomes) := SeededAll(a, setting, entries, environ).value;
      var configured := ReadRole(entry, environ).value;
      var next := a;
      if configured.Some? {
        var (email, secret) := configured.value;
        next := SeededOne(a, setting, entry, email, secret).value.0;
        EntryKeepsSound(a, setting, entry, email, secret);
        assert SeededOne(a, setting, entry, email, secret).value.1 == outcomes[0];
      }
      assert SeededAll(next, setting, rest, environ).value == (b, outcomes[1..]);
      if configured.Some? && !outcomes[0].foreignLogin {
        var (email, secret) := configured.value;
        var id := EntryLeavesReady(a, setting, entry, email, secret);
        if rest != [] {
          assert entries[1] == rest[0];
          LaterEntriesKeepReady(next, setting, rest, environ, entry, email, id);
        }
        assert EntryReady(b, setting.tenant, setting.path, entry, environ);
      }
      FewerAreCompatible(entries);
      RunLeavesReady(next, setting, rest, environ);
      forall i | 0 <= i < |entries| && !outcomes[i].foreignLogin
        ensures EntryReady(b, setting.tenant, setting.path, entries[i], environ)
      {
        assert i > 0 ==> entries[i] == rest[i - 1] && outcomes[i] == outcomes[1..][i - 1];
      }
    }
  }

  ghost predicate AllReady(s: Store, tenant: string, path: string, entries: seq<Entry>, environ: Environ) {
    forall entry :: entry in entries ==> EntryReady(s, tenant, path, entry, environ)
  }

  lemma EntryStaysReady(a: Store, b: Store, tenant: string, path: string, entry: Entry, environ: Environ)
    requires EntryReady(a, tenant, path, entry, environ)
    requires b == a.(credentials := b.credentials) && b.credentials.Keys == a.credentials.Keys
    ensures EntryReady(b, tenant, path, entry, environ)
  {
    hide Ready, ReadRole;
    if ReadRole(entry, environ).value.Some? {
      var email := ReadRole(entry, environ).value.value.0;
      var id :| Ready(a, tenant, path, entry, email, id);
      RotationKeepsReady(a, b, tenant, path, entry, email, id);
    }
  }

  /** With every login ready, a run passes; it rotates passwords and writes nothing else. */
  lemma {:induction false} AllReadyPasses(s: Store, setting: Setting, entries: seq<Entry>, environ: Environ)
    requires Sound(s) && AllReady(s, setting.tenant, setting.path, entries, environ)
    ensures SeededAll(s, setting, entries, environ).Ok?
    ensures var (b, outcomes) := SeededAll(s, setting, entries, environ).value;
            && b == s.(credentials := b.credentials) && b.credentials.Keys == s.credentials.Keys
            && NoneForeign(outcomes)
    decreases |entries|
  {
    hide SeededOne, Ready, ReadRole;
    if entries != [] {
      var entry, rest := entries[0], entries[1..];
      assert EntryReady(s, setting.tenant, setting.path, entry, environ);
      var configured := ReadRole(entry, environ).value;
      var next := s;
      if configured.Some? {
        var (email, secret) := configured.value;
        var id :| Ready(s, setting.tenant, setting.path, entry, email, id);
        ReadyPasses(s, setting, entry, email, secret, id);
        next := SeededOne(s, setting, entry, email, secret).value.0;
        ReadyIsCredentialed(s, setting.tenant, setting.path, entry, email, id);
        assert next.credentials.Keys == s.credentials.Keys;
      }
      forall e | e in rest
        ensures EntryReady(next, setting.tenant, setting.path, e, environ)
      {
        EntryStaysReady(s, next, setting.tenant, setting.path, e, environ);
      }
      AllReadyPasses(next, setting, rest, environ);
    }
  }

  /** The act drops the login of one of the entries: an unbind of an account bound to itself. */
  ghost predicate DropsOwn(s: Store, act: Act, entries: seq<Entry>) {
    && act.Unbind? && act.contact < |s.accounts| && OwnSubject(entries, s.accounts[act.contact].subject)
    && Drops(s, act.contact, act.contact)
  }

  /** Activations and unbinds, none of which drops an entry's own login. */
  ghost predicate PortalActs(s: Store, acts: seq<Act>, entries: seq<Entry>) {
    forall k :: 0 <= k < |acts| ==> !acts[k].Seed? && !DropsOwn(Reached(s, acts[..k]), acts[k], entries)
  }

  lemma PortalKeepsReady(s: Store, act: Act, tenant: string, path: string, entry: Entry, email: string, id: nat)
    requires Sound(s) && !act.Seed? && Ready(s, tenant, path, entry, email, id)
    requires act.Unbind? ==> !Drops(s, act.contact, id)
    ensures Ready(After(s, act), tenant, path, entry, email, id)
  {
    hide Ready, Activated, Unbound, Sound, Drops;
    match act
    case Activate(seedTenant, contact, address, unit, supplied, at) =>
      if Activated(s, seedTenant, contact, address, unit, supplied, at).Ok? {
        ActivationKeepsReady(s, seedTenant, contact, address, unit, supplied, at, tenant, path, entry, email, id);
      }
    case Unbind(contact, at) =>
      UnbindKeepsReady(s, contact, at, tenant, path, entry, email, id);
  }

  lemma PortalKeepsEntryReady(
    s: Store, act: Act, tenant: string, path: string, entries: seq<Entry>, entry: Entry, environ: Environ)
    requires Sound(s) && EntryReady(s, tenant, path, entry, environ) && entry in entries
    requires !act.Seed? && !DropsOwn(s, act, entries)
    ensures EntryReady(After(s, act), tenant, path, entry, environ)
  {
    hide ReadRole, After, Sound;
    if ReadRole(entry, environ).value.Some? {
      var email := ReadRole(entry, environ).value.value.0;
      var id: nat :| Ready(s, tenant, path, entry, email, id);
      assert OwnSubject(entries, s.accounts[id].subject);
      hide Ready;
      PortalKeepsReady(s, act, tenant, path, entry, email, id);
    }
  }

  lemma {:induction false} PortalActsKeepReady(
    s: Store, acts: seq<Act>, tenant: string, path: string, entries: seq<Entry>, entry: Entry, environ: Environ)
    requires Sound(s) && EntryReady(s, tenant, path, entry, environ) && entry in entries && PortalActs(s, acts, entries)
    ensures EntryReady(Reached(s, acts), tenant, path, entry, environ)
  {
    hide Sound, After, EntryReady, DropsOwn;
    if acts != [] {
      var n := |acts| - 1;
      forall k | 0 <= k < n
        ensures !acts[..n][k].Seed? && !DropsOwn(Reached(s, acts[..n][..k]), acts[..n][k], entries)
      {
        assert acts[..n][..k] == acts[..k] && acts[..n][k] == acts[k];
      }
      PortalActsKeepReady(s, acts[..n], tenant, path, entries, entry, environ);
      ReachedIsSound(s, acts[..n]);
      PortalKeepsEntryReady(Reached(s, acts[..n]), acts[n], tenant, path, entries, entry, environ);
    }
  }

  lemma ReadyEntryPasses(s: Store, setting: Setting, entry: Entry, environ: Environ)
    requires Sound(s) && EntryReady(s, setting.tenant, setting.path, entry, environ) && Configured(entry, environ)
    ensures EntryPasses(s, setting, entry, Email(entry, environ))
  {
    hide ReadRole, Ready, EntryPasses, SeededOne, Sound;
    var (email, secret) := ReadRole(entry, environ).value.value;
    var id: nat :| Ready(s, setting.tenant, setting.path, entry, email, id);
    ReadyPasses(s, setting, entry, email, secret, id);
    EntryPassesExactlyWhen(s, setting, entry, email, secret);
  }

  /**
   * After a run that passed, whatever Speakers activate or unbind short of dropping an entry's own login,
   * the next run of the same configuration passes at any time exactly when the entries the first run
   * merged still pass; so it passes when none was merged, and then it only rotates passwords.
   */
  lemma NextRunPassesExactlyWhen(s: Store, setting: Setting, environ: Environ, acts: seq<Act>, later: Setting)
    requires Sound(s) && SeededAll(s, setting, ENTRIES, environ).Ok?
    requires PortalActs(SeededAll(s, setting, ENTRIES, environ).value.0, acts, ENTRIES)
    requires later.tenant == setting.tenant && later.path == setting.path
    ensures var (b, outcomes) := SeededAll(s, setting, ENTRIES, environ).value;
            var a := Reached(b, acts);
            var next := SeededAll(a, later, ENTRIES, environ);
            && |outcomes| == |ENTRIES|
            && (next.Ok? <==> forall i :: 0 <= i < |ENTRIES| && outcomes[i].foreignLogin ==>
                                Configured(ENTRIES[i], environ)
                                && EntryPasses(a, later, ENTRIES[i], Email(ENTRIES[i], environ)))
            && (NoneForeign(outcomes) ==>
                  && next.Ok? && NoneForeign(next.value.1)
                  && next.value.0 == a.(credentials := next.value.0.credentials)
                  && next.value.0.credentials.Keys == a.credentials.Keys)
  {
    EntriesAreCompatible();
    hide ENTRIES, SeededAll, Sound, Compatible, PortalActs, EntryReady, EntryPasses, HeldByAnother, Configured,
      AddressesDiffer, AllRead;
    var (b, outcomes) := SeededAll(s, setting, ENTRIES, environ).value;
    var a := Reached(b, acts);
    RunIsFair(s, setting, ENTRIES, ENTRIES, environ);
    ReachedIsSound(b, acts);
    RunPassesExactlyWhen(s, setting, ENTRIES, environ);
    RunPassesExactlyWhen(a, later, ENTRIES, environ);
    RunLeavesReady(s, setting, ENTRIES, environ);
    forall i | 0 <= i < |ENTRIES| && !outcomes[i].foreignLogin
      ensures EntryReady(a, later.tenant, later.path, ENTRIES[i], environ)
      ensures Configured(ENTRIES[i], environ) ==> EntryPasses(a, later, ENTRIES[i], Email(ENTRIES[i], environ))
    {
      PortalActsKeepReady(b, acts, setting.tenant, setting.path, ENTRIES, ENTRIES[i], environ);
      if Configured(ENTRIES[i], environ) {
        ReadyEntryPasses(a, later, ENTRIES[i], environ);
      }
    }
    if NoneForeign(outcomes) {
      assert AllReady(a, later.tenant, later.path, ENTRIES, environ);
      AllReadyPasses(a, later, ENTRIES, environ);
    }
  }

  lemma UnbindFreesTheAddress(s: Store, email: string, holder: nat, at: int)
    requires HoldersOf(s, email) == {holder} && Drops(s, holder, holder)
    ensures HoldersOf(Unbound(s, holder, at), email) == {}
  {
    var b := Unbound(s, holder, at);
    hide Folded, Normal;
    forall u
      ensures u !in HoldersOf(b, email)
    {
      assert u in HoldersOf(s, email) <==> u == holder;
    }
  }

  lemma UnbindKeepsIntact(s: Store, setting: Setting, entry: Entry, email: string, contact: nat, at: int, id: nat)
    requires id < |s.accounts|
    ensures var b := Unbound(s, contact, at);
            id < |b.accounts| && (OwnIntact(b, setting, entry, email, id) <==> OwnIntact(s, setting, entry, email, id))
  {
    UnbindKeepsRows(s, contact, at, id, setting.path, entry.Roles());
    hide HoldsOnly, Normal;
  }

  lemma OnlyOneSubject(s: Store, subject: string)
    requires Sound(s)
    ensures var own := FindSubject(s.accounts, subject);
            forall id :: 0 <= id < |s.accounts| ==> (s.accounts[id].subject == subject <==> own == Some(id))
  {
    hide FindSubject;
  }

  /**
   * The merged case: when the login that holds an entry's address is its own contact account and is
   * unbound, the entry passes afterwards exactly when its own account, which the merge never looked at,
   * does not exist or is unclaimed and intact.
   */
  lemma UnboundMergePassesExactlyWhen(s: Store, setting: Setting, entry: Entry, email: string, holder: nat, at: int)
    requires Sound(s) && HeldByAnother(s, setting, entry, email)
    requires Classified(s, setting.tenant, email).holder == holder && Drops(s, holder, holder)
    ensures EntryPasses(Unbound(s, holder, at), setting, entry, email)
            <==> SPEAKER !in entry.Roles() && forall id ::
                   0 <= id < |s.accounts| && s.accounts[id].subject == entry.subject ==>
                     id !in s.credentials && OwnIntact(s, setting, entry, email, id)
  {
    var b := Unbound(s, holder, at);
    var own := FindSubject(s.accounts, entry.subject);
    assert b.accounts == s.accounts && b.credentials == s.credentials - {holder};
    UnbindFreesTheAddress(s, email, holder, at);
    OnlyOneSubject(s, entry.subject);
    hide HoldersOf, Classified, OwnIntact, Unbound, Sound, FindSubject, Drops;
    assert own != Some(holder);
    if own.Some? {
      UnbindKeepsIntact(s, setting, entry, email, holder, at, own.value);
    }
  }
}
