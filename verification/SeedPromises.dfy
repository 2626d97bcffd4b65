/** What a passing login seed leaves behind, login by login, and what it refuses, in the words of its own documentation. */
module SeedPromises {
  import opened Casing
  import opened LoginAccounts
  import opened LoginRuns
  import Ordering
  import opened Outcomes
  import opened SeedLogins
  import opened SeedReruns
  import opened Trimming

  // ----- the configuration ------------------------------------------------------------------------------------------

  /** An entry for a role, by the naming its configuration follows. */
  predicate Follows(e: Entry, role: string, capitals: string) {
    && e.role == role && e.subject == "pilot-login-" + role
    && e.emailVar == "SMARTMATCH_PILOT_" + capitals + "_EMAIL"
    && e.passwordVar == "SMARTMATCH_PILOT_" + capitals + "_PASSWORD"
  }

  lemma CoordinatorNames()
    ensures "pilot-login-" + "coordinator" == "pilot-login-coordinator"
    ensures "SMARTMATCH_PILOT_" + "COORDINATOR" + "_EMAIL" == "SMARTMATCH_PILOT_COORDINATOR_EMAIL"
    ensures "SMARTMATCH_PILOT_" + "COORDINATOR" + "_PASSWORD" == "SMARTMATCH_PILOT_COORDINATOR_PASSWORD"
  {
  }

  lemma CoordinatorEntry()
    ensures Follows(ENTRIES[0], "coordinator", "COORDINATOR")
  {
    CoordinatorNames();
  }

  lemma CoordinatorRoles()
    ensures ENTRIES[0].RoleSet() == {"coordinator", "admin"}
  {
    assert ENTRIES[0].Roles() == ["coordinator", "admin"];
  }

  lemma StudentNames()
    ensures "pilot-login-" + "student" == "pilot-login-student"
    ensures "SMARTMATCH_PILOT_" + "STUDENT" + "_EMAIL" == "SMARTMATCH_PILOT_STUDENT_EMAIL"
    ensures "SMARTMATCH_PILOT_" + "STUDENT" + "_PASSWORD" == "SMARTMATCH_PILOT_STUDENT_PASSWORD"
  {
  }

  lemma StudentEntry()
    ensures Follows(ENTRIES[1], "student", "STUDENT") && ENTRIES[1].RoleSet() == {"student"}
  {
    StudentNames();
    assert ENTRIES[1].Roles() == ["student"];
  }

  lemma AdminNames()
    ensures "pilot-login-" + "admin" == "pilot-login-admin"
    ensures "SMARTMATCH_PILOT_" + "ADMIN" + "_EMAIL" == "SMARTMATCH_PILOT_ADMIN_EMAIL"
    ensures "SMARTMATCH_PILOT_" + "ADMIN" + "_PASSWORD" == "SMARTMATCH_PILOT_ADMIN_PASSWORD"
  {
  }

  lemma AdminEntry()
    ensures Follows(ENTRIES[2], "admin", "ADMIN") && ENTRIES[2].RoleSet() == {"coordinator", "admin"}
  {
    AdminNames();
    assert ENTRIES[2].Roles() == ["admin", "coordinator"];
  }

  lemma VolunteerNames()
    ensures "pilot-login-" + "volunteer" == "pilot-login-volunteer"
    ensures "SMARTMATCH_PILOT_" + "VOLUNTEER" + "_EMAIL" == "SMARTMATCH_PILOT_VOLUNTEER_EMAIL"
    ensures "SMARTMATCH_PILOT_" + "VOLUNTEER" + "_PASSWORD" == "SMARTMATCH_PILOT_VOLUNTEER_PASSWORD"
  {
  }

  lemma VolunteerEntry()
    ensures Follows(ENTRIES[3], "volunteer", "VOLUNTEER") && ENTRIES[3].RoleSet() == {"volunteer"}
  {
    VolunteerNames();
    assert ENTRIES[3].Roles() == ["volunteer"];
  }

  lemma CapitalRoles()
    ensures Upper("coordinator") == "COORDINATOR" && Upper("student") == "STUDENT"
    ensures Upper("admin") == "ADMIN" && Upper("volunteer") == "VOLUNTEER"
  {
  }

  /** The four logins: the coordinator and the administrator hold each other's role, the others their own. */
  lemma EntriesFollowTheirRoles(i: nat)
    requires i < 4
    ensures |ENTRIES| == 4
    ensures ENTRIES[i].role == ["coordinator", "student", "admin", "volunteer"][i]
    ensures Follows(ENTRIES[i], ENTRIES[i].role, Upper(ENTRIES[i].role))
    ensures ENTRIES[i].RoleSet() == if i == 0 || i == 2 then {"coordinator", "admin"} else {ENTRIES[i].role}
  {
    hide Upper;
    CoordinatorEntry();
    CoordinatorRoles();
    StudentEntry();
    AdminEntry();
    VolunteerEntry();
    CapitalRoles();
  }

  function Given(name: string, environ: Environ): string {
    if name in environ then environ[name] else ""
  }

  /** Nothing but white space. */
  predicate Empty(text: string) {
    forall i :: 0 <= i < |text| ==> Blank(text[i])
  }

  lemma EmptyStrips(text: string)
    ensures Strip(text) == "" <==> Empty(text)
  {
    if Empty(text) {
      BlankTail(text);
    } else if DropBlanks(text) == "" {
      AllBlank(text);
    } else {
      var rest := DropBlanks(text);
      assert [rest[0]] + rest[1..] == rest;
      DropLastKeepsSolid([rest[0]], rest[1..]);
    }
  }

  /** A login is configured by an address and a password of twelve characters or more; by neither it is left out. */
  lemma ConfigurationIsReadExactly(entry: Entry, environ: Environ)
    ensures var address, secret := Given(entry.emailVar, environ), Given(entry.passwordVar, environ);
            && (Configured(entry, environ) <==> !Empty(address) && |secret| >= 12)
            && (ReadRole(entry, environ) == Ok(None) <==> Empty(address) && secret == "")
            && (ReadRole(entry, environ).Err? <==>
                  (Empty(address) && secret != "") || (!Empty(address) && |secret| < 12))
            && (Configured(entry, environ) ==> ReadRole(entry, environ).value.value == (Strip(address), secret))
  {
    EmptyStrips(Given(entry.emailVar, environ));
  }

  // ----- a login that works ----------------------------------------------------------------------------------------

  /** The account of a subject, in the organization and live, signs in at the address with the secret. */
  ghost predicate SignsIn(s: Store, setting: Setting, subject: string, email: string, secret: string, id: nat) {
    && id < |s.accounts| && s.accounts[id].subject == subject && s.accounts[id].tenant == setting.tenant
    && !s.accounts[id].suspended && Lower(Strip(s.accounts[id].email)) == Lower(Strip(email))
    && id in s.credentials && s.credentials[id] == Password(secret, setting.salts(subject))
    && forall k :: k in s.credentials && k < |s.accounts| && Lower(Btrim(s.accounts[k].email)) == Lower(Strip(email)) ==> k == id
  }

  /** It holds exactly these roles over the unit, with no window, but for Speaker rows. */
  ghost predicate HoldsExactly(s: Store, path: string, roles: set<string>, id: nat) {
    && (forall role :: role in roles ==> Membership(id, path, role, None, None) in s.memberships)
    && forall m :: m in s.memberships && m.user == id && m.role != "speaker" ==>
         m.role in roles && m.path == path && m.from == None && m.until == None
  }

  lemma ReadyWorks(s: Store, setting: Setting, entry: Entry, email: string, secret: string, id: nat)
    requires Ready(s, setting.tenant, setting.path, entry, email, id)
    ensures HoldsExactly(s, setting.path, entry.RoleSet(), id)
    ensures id in s.credentials && s.credentials[id] == Password(secret, setting.salts(entry.subject)) ==>
              SignsIn(s, setting, entry.subject, email, secret, id)
  {
    assert forall role :: role in entry.RoleSet() <==> role in entry.Roles();
    forall k | k in s.credentials && k < |s.accounts| && Lower(Btrim(s.accounts[k].email)) == Lower(Strip(email))
      ensures k == id
    {
      assert k in HoldersOf(s, email);
    }
  }

  lemma OneHolder(s: Store, email: string, a: nat, b: nat)
    requires HoldersOf(s, email) == {a} && HoldersOf(s, email) == {b}
    ensures a == b
  {
    assert a in {b};
  }

  lemma ClaimSetsPassword(a: Store, setting: Setting, entry: Entry, email: string, secret: string, id: nat)
    requires Sound(a) && Classified(a, setting.tenant, email).Nobody?
    requires SeededOwn(a, setting, entry, email, secret, true).Ok?
    requires HoldersOf(SeededOwn(a, setting, entry, email, secret, true).value.0, email) == {id}
    ensures var b := SeededOwn(a, setting, entry, email, secret, true).value.0;
            id in b.credentials && b.credentials[id] == Password(secret, setting.salts(entry.subject))
  {
    hide SeededOwn, ExistingOrInserted, GrantedAll, HoldersOf, Normal;
    var found, own, credentialed, first := ClaimSteps(a, setting, entry, email, secret);
    WithRoleHolds(credentialed, own, entry.role, setting.path, setting.now);
    GrantedAllToHolder(first, setting, email, entry.additional, own);
    var b := GrantedAll(first, setting, email, entry.additional).value;
    SameHolders(first, b, email);
    OneHolder(b, email, own, id);
  }

  lemma RotationSetsPassword(a: Store, setting: Setting, entry: Entry, email: string, secret: string, holder: nat)
    requires Sound(a) && Classified(a, setting.tenant, email) == OneInTenant(holder)
    requires a.accounts[holder].subject == entry.subject && SeededOwn(a, setting, entry, email, secret, false).Ok?
    ensures var b := SeededOwn(a, setting, entry, email, secret, false).value.0;
            && HoldersOf(b, email) == {holder} && holder in b.credentials
            && b.credentials[holder] == Password(secret, setting.salts(entry.subject))
  {
    OwnHolderIsFound(a, setting, entry, email, holder);
    assert ExistingOrInserted(a, setting.tenant, entry.subject, email).Ok?;
    RotateSteps(a, setting, entry, email, secret, holder);
    RotateFrame(a, setting, entry, email, secret, holder);
    hide *;
    var b := SeededOwn(a, setting, entry, email, secret, false).value.0;
    OwnHolds(a, b, entry, setting.tenant, email, holder);
    RotatedTo(GrantedAll(a, setting, email, entry.Roles()).value, b, holder, Password(secret, setting.salts(entry.subject)));
  }

  lemma OwnHolds(a: Store, b: Store, entry: Entry, tenant: string, email: string, id: nat)
    requires OwnTouched(a, b, entry, tenant, email, id)
    ensures HoldersOf(b, email) == {id}
  {
    hide HoldersOf, Normal;
  }

  lemma RotatedTo(a: Store, b: Store, id: nat, password: Password)
    requires b == a.(credentials := a.credentials[id := password])
    ensures id in b.credentials && b.credentials[id] == password
  {
  }

  /** The entry's own login has the configured password, whether it was claimed or found. */
  lemma PasswordIsSet(a: Store, setting: Setting, entry: Entry, email: string, secret: string, id: nat)
    requires Sound(a) && SeededOne(a, setting, entry, email, secret).Ok?
    requires !SeededOne(a, setting, entry, email, secret).value.1.foreignLogin
    requires HoldersOf(SeededOne(a, setting, entry, email, secret).value.0, email) == {id}
    ensures var b := SeededOne(a, setting, entry, email, secret).value.0;
            id in b.credentials && b.credentials[id] == Password(secret, setting.salts(entry.subject))
  {
    hide SeededOwn, SeededForeign, HoldersOf, Sound;
    match Classified(a, setting.tenant, email)
    case Nobody => ClaimSetsPassword(a, setting, entry, email, secret, id);
    case OneInTenant(holder) =>
      ForeignSaysSo(a, setting, entry, email, holder);
      RotationSetsPassword(a, setting, entry, email, secret, holder);
      OneHolder(SeededOwn(a, setting, entry, email, secret, false).value.0, email, holder, id);
    case _ =>
  }

  lemma ForeignSaysSo(a: Store, setting: Setting, entry: Entry, email: string, holder: nat)
    requires holder < |a.accounts|
    ensures var r := SeededForeign(a, setting, entry, email, holder);
            r.Ok? ==> r.value.1 == Outcome(entry.role, true, true)
  {
    hide GrantedAll, MayMerge;
  }

  /** A later entry leaves the login's password alone. */
  lemma OthersKeepPassword(
    a: Store, setting: Setting, other: Entry, otherEmail: string, secret: string, entry: Entry, email: string, id: nat)
    requires Sound(a) && SeededOne(a, setting, other, otherEmail, secret).Ok? && id in a.credentials
    requires Ready(a, setting.tenant, setting.path, entry, email, id)
    requires entry.subject != other.subject && !(entry.RoleSet() <= {SPEAKER, VOLUNTEER})
    ensures var b := SeededOne(a, setting, other, otherEmail, secret).value.0;
            id in b.credentials && b.credentials[id] == a.credentials[id]
  {
    var target := EntryFrame(a, setting, other, otherEmail, secret);
    OpenRoleShows(a, setting.path, entry, id, setting.now);
    hide SeededOne, ExistingOrInserted, RolesHeld, Normal, Sound, HoldsOnly, HoldersOf, RowsAdded, ActiveRoles;
    var (b, outcome) := SeededOne(a, setting, other, otherEmail, secret).value;
    assert target != id;
    assert id in b.credentials.Keys;
  }

  // ----- a whole run -----------------------------------------------------------------------------------------------

  ghost predicate Served(s: Store, setting: Setting, entry: Entry, email: string, secret: string, id: nat) {
    && Ready(s, setting.tenant, setting.path, entry, email, id)
    && id in s.credentials && s.credentials[id] == Password(secret, setting.salts(entry.subject))
  }

  lemma {:induction false} LaterEntriesKeepServed(
    a: Store, setting: Setting, rest: seq<Entry>, environ: Environ, entry: Entry, email: string, secret: string, id: nat)
    requires Sound(a) && SeededAll(a, setting, rest, environ).Ok? && Served(a, setting, entry, email, secret, id)
    requires rest != [] ==> !(entry.RoleSet() <= {SPEAKER, VOLUNTEER})
    requires forall other :: other in rest ==> other.subject != entry.subject
    ensures Served(SeededAll(a, setting, rest, environ).value.0, setting, entry, email, secret, id)
    decreases |rest|
  {
    hide SeededOne, Sound, ReadRole, Ready;
    if rest != [] {
      var configured := ReadRole(rest[0], environ).value;
      if configured == None {
        LaterEntriesKeepServed(a, setting, rest[1..], environ, entry, email, secret, id);
      } else {
        var (otherEmail, otherSecret) := configured.value;
        EntryKeepsSound(a, setting, rest[0], otherEmail, otherSecret);
        EntryKeepsReady(a, setting, rest[0], otherEmail, otherSecret, entry, email, id);
        OthersKeepPassword(a, setting, rest[0], otherEmail, otherSecret, entry, email, id);
        LaterEntriesKeepServed(SeededOne(a, setting, rest[0], otherEmail, otherSecret).value.0,
                               setting, rest[1..], environ, entry, email, secret, id);
      }
    }
  }

  ghost predicate EntryServed(s: Store, setting: Setting, entry: Entry, environ: Environ) {
    Configured(entry, environ) ==>
      exists id :: Served(s, setting, entry, Email(entry, environ), Given(entry.passwordVar, environ), id)
  }

  lemma FirstIsServed(
    a: Store, setting: Setting, entries: seq<Entry>, environ: Environ)
    requires Sound(a) && Compatible(entries) && entries != [] && SeededAll(a, setting, entries, environ).Ok?
    requires Configured(entries[0], environ)
    requires var e := entries[0];
             !SeededOne(a, setting, e, Email(e, environ), Given(e.passwordVar, environ)).value.1.foreignLogin
    ensures EntryServed(SeededAll(a, setting, entries, environ).value.0, setting, entries[0], environ)
  {
    var entry, rest := entries[0], entries[1..];
    var email, secret := Email(entry, environ), Given(entry.passwordVar, environ);
    hide SeededOne, Sound, ReadRole, Ready, HoldersOf, HoldsOnly, Normal;
    ConfigurationIsReadExactly(entry, environ);
    var next := SeededOne(a, setting, entry, email, secret).value.0;
    EntryKeepsSound(a, setting, entry, email, secret);
    var id := EntryLeavesReady(a, setting, entry, email, secret);
    ReadyHolds(next, setting.tenant, setting.path, entry, email, id);
    PasswordIsSet(a, setting, entry, email, secret, id);
    if rest != [] {
      assert entries[1] == rest[0];
      assert forall other :: other in rest ==> other.subject != entry.subject;
    }
    LaterEntriesKeepServed(next, setting, rest, environ, entry, email, secret, id);
  }

  lemma ReadyHolds(s: Store, tenant: string, path: string, entry: Entry, email: string, id: nat)
    requires Ready(s, tenant, path, entry, email, id)
    ensures HoldersOf(s, email) == {id}
  {
    hide HoldersOf, HoldsOnly, Normal;
  }

  /** A run reports each entry in turn; whatever it creates and does not merge signs in with the configured password. */
  lemma {:induction false} RunServes(a: Store, setting: Setting, entries: seq<Entry>, environ: Environ)
    requires Sound(a) && Compatible(entries) && SeededAll(a, setting, entries, environ).Ok?
    ensures var (b, outcomes) := SeededAll(a, setting, entries, environ).value;
            && |outcomes| == |entries|
            && forall i :: 0 <= i < |entries| ==>
                 && outcomes[i].role == entries[i].role
                 && (outcomes[i].created <==> Configured(entries[i], environ))
                 && (!outcomes[i].foreignLogin ==> EntryServed(b, setting, entries[i], environ))
    decreases |entries|
  {
    hide SeededOne, Sound, ReadRole, EntryServed;
    if entries != [] {
      var entry, rest := entries[0], entries[1..];
      var (b, outcomes) := SeededAll(a, setting, entries, environ).value;
      var next := a;
      ConfigurationIsReadExactly(entry, environ);
      if Configured(entry, environ) {
        var email, secret := Email(entry, environ), Given(entry.passwordVar, environ);
        next := SeededOne(a, setting, entry, email, secret).value.0;
        EntryKeepsSound(a, setting, entry, email, secret);
        OutcomeSays(a, setting, entry, email, secret);
        assert SeededOne(a, setting, entry, email, secret).value.1 == outcomes[0];
        if !outcomes[0].foreignLogin {
          FirstIsServed(a, setting, entries, environ);
        }
      } else {
        NotServed(b, setting, entry, environ);
      }
      assert SeededAll(next, setting, rest, environ).value == (b, outcomes[1..]);
      FewerAreCompatible(entries);
      RunServes(next, setting, rest, environ);
      forall i | 0 < i < |entries|
        ensures entries[i] == rest[i - 1] && outcomes[i] == outcomes[1..][i - 1]
      {
      }
    }
  }

  lemma NotServed(s: Store, setting: Setting, entry: Entry, environ: Environ)
    requires !Configured(entry, environ)
    ensures EntryServed(s, setting, entry, environ)
  {
  }

  lemma OutcomeSays(a: Store, setting: Setting, entry: Entry, email: string, secret: string)
    ensures var r := SeededOne(a, setting, entry, email, secret);
            r.Ok? ==> r.value.1.role == entry.role && r.value.1.created
  {
    hide GrantedAll, Granted, MayMerge, HoldsOnly, ExistingOrInserted, ActiveRoles;
  }

  /** The same, entry by entry, for the four the tool runs: what it reports, and what each of its logins can do. */
  lemma RunKeepsItsPromise(s: Store, setting: Setting, environ: Environ, i: nat)
    requires Sound(s) && SeededAll(s, setting, ENTRIES, environ).Ok? && i < 4
    ensures var (b, outcomes) := SeededAll(s, setting, ENTRIES, environ).value;
            var e := ENTRIES[i];
            var address, secret := Given(e.emailVar, environ), Given(e.passwordVar, environ);
            && |outcomes| == 4 && outcomes[i].role == ["coordinator", "student", "admin", "volunteer"][i]
            && (outcomes[i].created <==> !Empty(address) && |secret| >= 12)
            && (outcomes[i].created && !outcomes[i].foreignLogin ==>
                  exists id :: SignsIn(b, setting, "pilot-login-" + outcomes[i].role, Strip(address), secret, id)
                               && HoldsExactly(b, setting.path, e.RoleSet(), id))
  {
    EntriesFollowTheirRoles(i);
    EntriesAreCompatible();
    var (b, outcomes) := SeededAll(s, setting, ENTRIES, environ).value;
    var e := ENTRIES[i];
    hide SeededAll, ENTRIES, Sound, ReadRole, Ready, SignsIn, HoldsExactly, Compatible;
    RunServes(s, setting, ENTRIES, environ);
    ConfigurationIsReadExactly(e, environ);
    if outcomes[i].created && !outcomes[i].foreignLogin {
      var email, secret := Email(e, environ), Given(e.passwordVar, environ);
      var id :| Served(b, setting, e, email, secret, id);
      ReadyWorks(b, setting, e, email, secret, id);
    }
  }

  // ----- who may hold the address ------------------------------------------------------------------------------------

  /** The account signs in at the address. */
  predicate Holds(s: Store, email: string, id: nat) {
    id in s.credentials && id < |s.accounts| && Lower(Btrim(s.accounts[id].email)) == Lower(Strip(email))
  }

  lemma HoldersAreThose(s: Store, email: string)
    ensures forall id: nat :: id in HoldersOf(s, email) <==> Holds(s, email, id)
  {
  }

  /** Within its window at that moment: begun, and not yet ended. */
  predicate InForce(m: Membership, now: int) {
    (m.from.None? || m.from.value <= now) && (m.until.None? || now < m.until.value)
  }

  lemma ActiveRolesAre(s: Store, id: nat, now: int, allowed: set<string>)
    ensures ActiveRoles(s, id, now) <= allowed <==>
            forall m :: m in s.memberships && m.user == id && InForce(m, now) ==> m.role in allowed
  {
    if ActiveRoles(s, id, now) <= allowed {
      forall m | m in s.memberships && m.user == id && InForce(m, now)
        ensures m.role in allowed
      {
        var i :| 0 <= i < |s.memberships| && s.memberships[i] == m;
        assert ActiveAt(s.memberships[i], now);
        assert m.role in ActiveRoles(s, id, now);
      }
    } else {
      var role :| role in ActiveRoles(s, id, now) && role !in allowed;
      var i :| 0 <= i < |s.memberships| && s.memberships[i].user == id && ActiveAt(s.memberships[i], now)
               && s.memberships[i].role == role;
      assert s.memberships[i] in s.memberships;
    }
  }

  lemma OnlyTheVolunteerRole(entry: Entry)
    ensures entry.RoleSet() == {VOLUNTEER} <==> forall role :: role in entry.Roles() ==> role == "volunteer"
  {
    assert entry.role in entry.Roles();
    assert forall role :: role in entry.RoleSet() <==> role in entry.Roles();
  }

  /**
   * An address somebody else signs in at: the entry passes if and only if it asks for nothing but `volunteer` and that
   * login is nothing but a Speaker and a volunteer; then it gains that role and is otherwise left alone.
   */
  lemma AddressOfAnotherPassesExactlyWhen(
    s: Store, setting: Setting, entry: Entry, email: string, secret: string, holder: nat)
    requires Sound(s) && holder < |s.accounts| && forall id: nat :: Holds(s, email, id) <==> id == holder
    requires s.accounts[holder].tenant == setting.tenant && s.accounts[holder].subject != entry.subject
    ensures var r := SeededOne(s, setting, entry, email, secret);
            && (r.Ok? <==>
                  && (forall role :: role in entry.Roles() ==> role == "volunteer")
                  && (forall m :: m in s.memberships && m.user == holder && InForce(m, setting.now) ==>
                        m.role in {"speaker", "volunteer"}))
            && (r.Err? ==> r.error == SeedConflict)
            && (r.Ok? ==>
                  && r.value.1 == Outcome(entry.role, true, true)
                  && r.value.0 == s.(memberships := r.value.0.memberships)
                  && exists m :: m in r.value.0.memberships && m.user == holder && m.role == "volunteer"
                                 && m.path == setting.path && InForce(m, setting.now))
  {
    HoldersAreThose(s, email);
    assert Holds(s, email, holder);
    assert HoldersOf(s, email) == {holder};
    ActiveRolesAre(s, holder, setting.now, {SPEAKER, VOLUNTEER});
    OnlyTheVolunteerRole(entry);
    GrantedAllToHolder(s, setting, email, entry.Roles(), holder);
    hide Granted, GrantedAll, HoldersOf, Holds, ActiveRoles, HoldsActive;
    var r := SeededOne(s, setting, entry, email, secret);
    if r.Ok? {
      assert entry.role in entry.Roles();
      HeldRowIsInForce(r.value.0, holder, "volunteer", setting.path, setting.now);
    }
  }

  lemma HeldRowIsInForce(s: Store, user: nat, role: string, path: string, now: int)
    requires HoldsActive(s, user, role, path, now)
    ensures exists m :: m in s.memberships && m.user == user && m.role == role && m.path == path && InForce(m, now)
  {
    var i :| 0 <= i < |s.memberships| &&
      var m := s.memberships[i]; m.user == user && m.role == role && m.path == path && ActiveAt(m, now);
    assert s.memberships[i] in s.memberships && InForce(s.memberships[i], now);
  }

  /** Every row of the account, Speaker rows aside, is one of the entry's roles over the unit and for good. */
  ghost predicate RowsAsked(s: Store, entry: Entry, path: string, id: nat) {
    forall m :: m in s.memberships && m.user == id && m.role != "speaker" ==>
      m.role in entry.Roles() && m.path == path && m.from == None && m.until == None
  }

  lemma RowsAskedExactly(s: Store, entry: Entry, path: string, id: nat)
    ensures HoldsOnly(s, id, path, entry.Roles()) <==> RowsAsked(s, entry, path, id)
  {
    if RowsAsked(s, entry, path, id) {
      assert forall i :: 0 <= i < |s.memberships| ==> s.memberships[i] in s.memberships;
    }
    if HoldsOnly(s, id, path, entry.Roles()) {
      forall m | m in s.memberships && m.user == id && m.role != "speaker"
        ensures Expected(m, path, entry.Roles())
      {
        var i :| 0 <= i < |s.memberships| && s.memberships[i] == m;
      }
    }
  }

  /** What the entry's own account has to be: in the organization, at the address, live, with no row not asked for. */
  ghost predicate Intact(s: Store, setting: Setting, entry: Entry, email: string, id: nat)
    requires id < |s.accounts|
  {
    && s.accounts[id].tenant == setting.tenant && Lower(Strip(s.accounts[id].email)) == Lower(Strip(email))
    && !s.accounts[id].suspended && RowsAsked(s, entry, setting.path, id)
  }

  /** An address the entry's own login signs in at. */
  lemma OwnAddressPassesExactlyWhen(
    s: Store, setting: Setting, entry: Entry, email: string, secret: string, holder: nat)
    requires Sound(s) && holder < |s.accounts| && forall id: nat :: Holds(s, email, id) <==> id == holder
    requires s.accounts[holder].tenant == setting.tenant && s.accounts[holder].subject == entry.subject
    ensures SeededOne(s, setting, entry, email, secret).Ok? <==>
            "speaker" !in entry.Roles() && Intact(s, setting, entry, email, holder)
  {
    HoldersAreThose(s, email);
    assert Holds(s, email, holder);
    assert HoldersOf(s, email) == {holder};
    RowsAskedExactly(s, entry, setting.path, holder);
    EntryPassesExactlyWhen(s, setting, entry, email, secret);
    hide HoldersOf, Holds, SeededOne, HoldsOnly;
  }

  /** An address nobody signs in at. */
  lemma FreeAddressPassesExactlyWhen(s: Store, setting: Setting, entry: Entry, email: string, secret: string)
    requires Sound(s) && forall id: nat :: !Holds(s, email, id)
    ensures SeededOne(s, setting, entry, email, secret).Ok? <==>
            && "speaker" !in entry.Roles()
            && forall id: nat :: id < |s.accounts| && s.accounts[id].subject == entry.subject ==>
                 id !in s.credentials && Intact(s, setting, entry, email, id)
  {
    HoldersAreThose(s, email);
    assert HoldersOf(s, email) == {};
    EntryPassesExactlyWhen(s, setting, entry, email, secret);
    var own := FindSubject(s.accounts, entry.subject);
    if own.Some? {
      RowsAskedExactly(s, entry, setting.path, own.value);
      OneSubject(s, entry.subject, own.value);
    }
    hide HoldersOf, Holds, SeededOne, HoldsOnly, RowsAsked;
  }

  lemma OneSubject(s: Store, subject: string, own: nat)
    requires Sound(s) && own < |s.accounts| && s.accounts[own].subject == subject
    ensures forall id: nat :: id < |s.accounts| && s.accounts[id].subject == subject ==> id == own
  {
  }

  /** An address held in another organization, or by more than one login, is refused whatever the entry. */
  lemma DisputedAddressIsRefused(
    s: Store, setting: Setting, entry: Entry, email: string, secret: string, one: nat, other: nat)
    requires Holds(s, email, one) && Holds(s, email, other)
    requires one != other || ((forall id: nat :: Holds(s, email, id) ==> id == one)
                              && s.accounts[one].tenant != setting.tenant)
    ensures SeededOne(s, setting, entry, email, secret) == Err(SeedConflict)
  {
    HoldersAreThose(s, email);
    assert one in HoldersOf(s, email) && other in HoldersOf(s, email);
    hide HoldersOf, Holds;
  }

  // ----- the portal's side of the store --------------------------------------------------------------------------------

  predicate QueryBlank(c: char) {
    c == ' ' || c == '\t' || c == '\n' || c == '\r' || c as int == 11 || c as int == 12
  }

  /** The query trims spaces, tabs, line feeds, vertical tabs, form feeds and carriage returns from both ends. */
  lemma {:induction false} AddressIsTrimmedByTheQuery(u: string, t: string, v: string)
    requires (forall i :: 0 <= i < |u| ==> QueryBlank(u[i])) && (forall i :: 0 <= i < |v| ==> QueryBlank(v[i]))
    requires t == "" || (!QueryBlank(t[0]) && !QueryBlank(t[|t| - 1]))
    ensures Btrim(u + t + v) == t
    decreases |u| + |v|
  {
    var s := u + t + v;
    if u != "" {
      assert s[1..] == u[1..] + t + v;
      AddressIsTrimmedByTheQuery(u[1..], t, v);
    } else if v != "" {
      if t == "" {
        assert s == v && s[1..] == "" + "" + v[1..];
        AddressIsTrimmedByTheQuery("", "", v[1..]);
      } else {
        assert s[..|s| - 1] == "" + t + v[..|v| - 1] && s[0] == t[0] && s[|s| - 1] == v[|v| - 1];
        AddressIsTrimmedByTheQuery("", t, v[..|v| - 1]);
      }
    } else {
      assert s == t;
    }
  }

  /** A first credential is written for a live account of the organization that has none, and for no other. */
  lemma FirstCredentialExactlyWhen(s: Store, tenant: string, email: string, create: NewLogin)
    ensures var r, id := Credentialed(s, tenant, email, create), create.user;
            && (r.Ok? <==>
                  id < |s.accounts| && s.accounts[id].tenant == tenant && !s.accounts[id].suspended && id !in s.credentials)
            && (r.Ok? ==>
                  && r.value.credentials.Keys == s.credentials.Keys + {id} && r.value.credentials[id] == create.password
                  && r.value.accounts[id].email == Lower(Strip(email)) && r.value.accounts[id].subject == s.accounts[id].subject
                  && r.value.memberships == s.memberships && r.value.bindings == s.bindings)
  {
  }

  /** The account is a live contact of the organization that no login speaks for yet. */
  predicate Unclaimed(s: Store, tenant: string, contact: nat) {
    && contact < |s.accounts| && s.accounts[contact].tenant == tenant && !s.accounts[contact].suspended
    && contact !in s.bindings
  }

  /** The login is a volunteer's, and nothing else but perhaps a Speaker's. */
  ghost predicate Volunteers(s: Store, id: nat, now: int) {
    && (forall m :: m in s.memberships && m.user == id && InForce(m, now) ==> m.role in {"speaker", "volunteer"})
    && exists m :: m in s.memberships && m.user == id && InForce(m, now) && m.role == "volunteer"
  }

  lemma VolunteersExactly(s: Store, id: nat, now: int)
    ensures ExistingLoginMayBind(ActiveRoles(s, id, now)) <==> Volunteers(s, id, now)
  {
    var held := ActiveRoles(s, id, now);
    ActiveRolesAre(s, id, now, {SPEAKER, VOLUNTEER});
    assert held - {SPEAKER} == {VOLUNTEER} <==> held <= {SPEAKER, VOLUNTEER} && VOLUNTEER in held by {
      assert VOLUNTEER != SPEAKER by { assert |VOLUNTEER| != |SPEAKER|; }
      if held <= {SPEAKER, VOLUNTEER} && VOLUNTEER in held {
        assert held - {SPEAKER} == {VOLUNTEER};
      }
      if held - {SPEAKER} == {VOLUNTEER} {
        assert VOLUNTEER in held - {SPEAKER};
        forall role | role in held
          ensures role in {SPEAKER, VOLUNTEER}
        {
          assert role != SPEAKER ==> role in held - {SPEAKER};
        }
      }
    }
    if VOLUNTEER in held {
      var i :| 0 <= i < |s.memberships| && s.memberships[i].user == id && ActiveAt(s.memberships[i], now)
               && s.memberships[i].role == VOLUNTEER;
      assert s.memberships[i] in s.memberships;
    }
    if m :| m in s.memberships && m.user == id && InForce(m, now) && m.role == "volunteer" {
      var i :| 0 <= i < |s.memberships| && s.memberships[i] == m;
      assert ActiveAt(s.memberships[i], now);
    }
  }

  /** Activation at an address nobody signs in at: the contact's own first login. */
  lemma FirstActivationExactlyWhen(
    s: Store, tenant: string, contact: nat, address: string, path: string, supplied: Supplied, now: int)
    requires forall id: nat :: !Holds(s, address, id)
    ensures Activated(s, tenant, contact, address, path, supplied, now).Ok? <==>
            Unclaimed(s, tenant, contact) && contact !in s.credentials && supplied.First?
  {
    HoldersAreThose(s, address);
    assert HoldersOf(s, address) == {};
    hide HoldersOf, Holds, WithRole, Normal;
  }

  /** Activation at the address of a login: that login takes the contact on, if it may. */
  lemma ActivationByLoginExactlyWhen(
    s: Store, tenant: string, contact: nat, address: string, path: string, supplied: Supplied, now: int, holder: nat)
    requires holder < |s.accounts| && (forall id: nat :: Holds(s, address, id) <==> id == holder)
    requires s.accounts[holder].tenant == tenant
    ensures Activated(s, tenant, contact, address, path, supplied, now).Ok? <==>
            && Unclaimed(s, tenant, contact) && (contact in s.credentials ==> contact == holder)
            && (forall c :: c in s.bindings && s.bindings[c] == holder ==> c == contact)
            && Volunteers(s, holder, now)
            && supplied.Existing? && holder in s.credentials && supplied.secret == s.credentials[holder].secret
            && !s.accounts[holder].suspended
    ensures Activated(s, tenant, contact, address, path, supplied, now).Ok? ==>
              Activated(s, tenant, contact, address, path, supplied, now).value
              == WithRole(s, holder, "speaker", path, now).(bindings := s.bindings[contact := holder])
  {
    HoldersAreThose(s, address);
    assert Holds(s, address, holder);
    assert HoldersOf(s, address) == {holder};
    VolunteersExactly(s, holder, now);
    hide HoldersOf, Holds, WithRole, Normal, ActiveRoles, ExistingLoginMayBind, Volunteers;
    assert Classified(s, tenant, address) == OneInTenant(holder);
    WithRoleKeepsBindings(s, holder, path, now);
  }

  lemma WithRoleKeepsBindings(s: Store, user: nat, path: string, now: int)
    ensures WithRole(s, user, SPEAKER, path, now).bindings == s.bindings
  {
  }
}
