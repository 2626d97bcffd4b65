/**
 * What the login seed may and may not do to a login, over any sequence of seed runs,
 * activations and unbinds, and why the next run of the same configuration passes.
 */
module LoginRuns {
  import opened Casing
  import opened LoginAccounts
  import opened Outcomes
  import opened SeedLogins
  import Trimming

  // ----- one entry -----------------------------------------------------------------------------------

  /** Everything an entry may change lies at one account: its credential and address, and rows added for it. */
  ghost predicate Touched(a: Store, b: Store, target: nat, path: string, roles: seq<string>) {
    && target < |b.accounts| && |a.accounts| <= |b.accounts| <= |a.accounts| + 1
    && (|b.accounts| > |a.accounts| ==> target == |a.accounts|)
    && (forall u :: 0 <= u < |a.accounts| ==>
          b.accounts[u] == if u == target then a.accounts[u].(email := b.accounts[u].email) else a.accounts[u])
    && b.credentials.Keys == a.credentials.Keys + {target}
    && (forall u :: u in a.credentials && u != target ==> b.credentials[u] == a.credentials[u])
    && b.bindings == a.bindings
    && RowsAdded(a, b, target, path, roles)
  }

  /** The entry's own login: claimed at a free address, or found there and its password rotated. */
  ghost predicate OwnTouched(a: Store, b: Store, entry: Entry, tenant: string, email: string, target: nat) {
    && target < |b.accounts| && b.accounts[target].subject == entry.subject && b.accounts[target].tenant == tenant
    && !b.accounts[target].suspended && Normal(b.accounts[target].email) == Normal(email)
    && HoldersOf(b, email) == {target}
    && (|b.accounts| > |a.accounts| ==> forall u :: 0 <= u < |a.accounts| ==> a.accounts[u].subject != entry.subject)
    && ((b.accounts == a.accounts && target in a.credentials)
        || (HoldersOf(a, email) == {} && target !in a.credentials && b.accounts[target].email == Normal(email)))
  }

  /** Somebody else's login: nothing about it changes but its memberships. */
  ghost predicate ForeignTouched(a: Store, b: Store, entry: Entry, now: int, target: nat) {
    && b.accounts == a.accounts && b.credentials == a.credentials
    && target < |a.accounts| && a.accounts[target].subject != entry.subject
    && MayMerge(entry, ActiveRoles(a, target, now))
  }

  ghost predicate RolesHeld(s: Store, user: nat, path: string, roles: seq<string>, now: int) {
    forall role :: role in roles ==> HoldsActive(s, user, role, path, now)
  }

  lemma MergeTouches(a: Store, b: Store, holder: nat, path: string, roles: seq<string>)
    requires holder < |a.accounts| && holder in a.credentials
    requires b == a.(memberships := b.memberships) && RowsAdded(a, b, holder, path, roles)
    ensures Touched(a, b, holder, path, roles)
  {
  }

  lemma ForeignFrame(a: Store, setting: Setting, entry: Entry, email: string, holder: nat)
    requires Classified(a, setting.tenant, email) == OneInTenant(holder)
    requires a.accounts[holder].subject != entry.subject
    requires SeededForeign(a, setting, entry, email, holder).Ok?
    ensures var b := SeededForeign(a, setting, entry, email, holder).value.0;
            && Touched(a, b, holder, setting.path, entry.Roles())
            && ForeignTouched(a, b, entry, setting.now, holder)
            && RolesHeld(b, holder, setting.path, entry.Roles(), setting.now)
  {
    assert holder in HoldersOf(a, email);
    hide Granted, GrantedAll, HoldersOf, HoldsActive, ActiveRoles, Classified, MayMerge, Expected;
    GrantedAllToHolder(a, setting, email, entry.Roles(), holder);
    var b := SeededForeign(a, setting, entry, email, holder).value.0;
    assert b == a.(memberships := b.memberships);
    hide SeededForeign;
    MergeTouches(a, b, holder, setting.path, entry.Roles());
    hide Touched, RowsAdded;
  }

  lemma RowsAddedTwice(a: Store, b: Store, c: Store, user: nat, path: string, roles: seq<string>)
    requires RowsAdded(a, b, user, path, roles) && RowsAdded(b, c, user, path, roles)
    ensures RowsAdded(a, c, user, path, roles)
  {
    assert c.memberships[..|a.memberships|] == b.memberships[..|a.memberships|];
    forall i | |a.memberships| <= i < |b.memberships|
      ensures c.memberships[i] == b.memberships[i]
    {
      assert c.memberships[i] == c.memberships[..|b.memberships|][i];
    }
  }

  lemma RowsAddedWider(a: Store, b: Store, user: nat, path: string, roles: seq<string>, more: seq<string>)
    requires RowsAdded(a, b, user, path, roles) && forall role :: role in roles ==> role in more
    ensures RowsAdded(a, b, user, path, more)
  {
  }

  lemma FoundFrame(a: Store, setting: Setting, entry: Entry, email: string)
    requires Sound(a) && ExistingOrInserted(a, setting.tenant, entry.subject, email).Ok?
    ensures var (found, id) := ExistingOrInserted(a, setting.tenant, entry.subject, email).value;
            && id < |found.accounts| && |a.accounts| <= |found.accounts| <= |a.accounts| + 1
            && found == a.(accounts := found.accounts) && a.accounts <= found.accounts
            && (|found.accounts| > |a.accounts| ==>
                  id == |a.accounts| && forall u :: 0 <= u < |a.accounts| ==> a.accounts[u].subject != entry.subject)
            && found.accounts[id].subject == entry.subject && found.accounts[id].tenant == setting.tenant
            && !found.accounts[id].suspended && Normal(found.accounts[id].email) == Normal(email)
            && (id in a.credentials ==> found == a)
            && Sound(found)
  {
    hide Normal;
    var (found, id) := ExistingOrInserted(a, setting.tenant, entry.subject, email).value;
    if FindSubject(a.accounts, entry.subject) == None {
      assert found.accounts[id].subject == entry.subject;
    }
  }

  /** The steps of claiming a free address: the account, its first credential, its first role, the others. */
  lemma ClaimSteps(a: Store, setting: Setting, entry: Entry, email: string, secret: string)
    returns (found: Store, id: nat, credentialed: Store, first: Store)
    requires Sound(a) && Classified(a, setting.tenant, email).Nobody?
    requires SeededOwn(a, setting, entry, email, secret, true).Ok?
    ensures ExistingOrInserted(a, setting.tenant, entry.subject, email) == Ok((found, id)) && id < |found.accounts|
    ensures SPEAKER !in entry.Roles() && HoldsOnly(found, id, setting.path, entry.Roles()) && id !in a.credentials
    ensures credentialed == found.(
              accounts := found.accounts[id := found.accounts[id].(email := Normal(email))],
              credentials := found.credentials[id := Password(secret, setting.salts(entry.subject))])
    ensures first == WithRole(credentialed, id, entry.role, setting.path, setting.now)
    ensures HoldersOf(first, email) == {id} && Classified(first, setting.tenant, email) == OneInTenant(id)
    ensures GrantedAll(first, setting, email, entry.additional).Ok?
    ensures SeededOwn(a, setting, entry, email, secret, true).value.0
            == GrantedAll(first, setting, email, entry.additional).value
  {
    hide HoldsOnly, HoldersOf, Normal, Classified, WithRole, GrantedAll;
    found, id := ExistingOrInserted(a, setting.tenant, entry.subject, email).value.0,
      ExistingOrInserted(a, setting.tenant, entry.subject, email).value.1;
    var create := NewLogin(id, Password(secret, setting.salts(entry.subject)));
    InsertedIsFree(a, setting, entry, email);
    FirstGrantClaims(found, setting, email, entry.role, create);
    credentialed := Credentialed(found, setting.tenant, email, create).value;
    first := WithRole(credentialed, id, entry.role, setting.path, setting.now);
  }

  lemma ClaimRows(credentialed: Store, first: Store, setting: Setting, entry: Entry, email: string, id: nat)
    requires first == WithRole(credentialed, id, entry.role, setting.path, setting.now)
    requires Classified(first, setting.tenant, email) == OneInTenant(id)
    ensures GrantedAll(first, setting, email, entry.additional).Ok?
    ensures var b := GrantedAll(first, setting, email, entry.additional).value;
            && b == credentialed.(memberships := b.memberships)
            && RowsAdded(credentialed, b, id, setting.path, entry.Roles())
            && RolesHeld(b, id, setting.path, entry.Roles(), setting.now)
  {
    WithRoleHolds(credentialed, id, entry.role, setting.path, setting.now);
    GrantedAllToHolder(first, setting, email, entry.additional, id);
    hide GrantedAll, WithRole, HoldsActive, Classified;
    var b := GrantedAll(first, setting, email, entry.additional).value;
    RowsAddedWider(credentialed, first, id, setting.path, [entry.role], entry.Roles());
    RowsAddedWider(first, b, id, setting.path, entry.additional, entry.Roles());
    RowsAddedTwice(credentialed, first, b, id, setting.path, entry.Roles());
    RowStays(first, b, id, entry.role, setting.path, setting.now);
  }

  lemma ClaimTouches(
    a: Store, found: Store, credentialed: Store, b: Store, id: nat, path: string, roles: seq<string>)
    requires found == a.(accounts := found.accounts) && a.accounts <= found.accounts && id < |found.accounts|
    requires |found.accounts| == |a.accounts| || (|found.accounts| == |a.accounts| + 1 && id == |a.accounts|)
    requires id < |credentialed.accounts| && id in credentialed.credentials && credentialed == found.(
               accounts := found.accounts[id := found.accounts[id].(email := credentialed.accounts[id].email)],
               credentials := found.credentials[id := credentialed.credentials[id]])
    requires b == credentialed.(memberships := b.memberships) && RowsAdded(credentialed, b, id, path, roles)
    ensures Touched(a, b, id, path, roles)
  {
  }

  lemma ClaimFrame(a: Store, setting: Setting, entry: Entry, email: string, secret: string)
    requires Sound(a) && Classified(a, setting.tenant, email).Nobody?
    requires SeededOwn(a, setting, entry, email, secret, true).Ok?
    ensures var b := SeededOwn(a, setting, entry, email, secret, true).value.0;
            var id := ExistingOrInserted(a, setting.tenant, entry.subject, email).value.1;
            && Touched(a, b, id, setting.path, entry.Roles())
            && OwnTouched(a, b, entry, setting.tenant, email, id)
            && RolesHeld(b, id, setting.path, entry.Roles(), setting.now)
  {
    hide SeededOwn, ExistingOrInserted, GrantedAll, HoldersOf, Normal, RolesHeld;
    var found, id, credentialed, first := ClaimSteps(a, setting, entry, email, secret);
    FoundFrame(a, setting, entry, email);
    ClaimRows(credentialed, first, setting, entry, email, id);
    var b := GrantedAll(first, setting, email, entry.additional).value;
    NormalIsStable(email);
    SameHolders(first, b, email);
    ClaimTouches(a, found, credentialed, b, id, setting.path, entry.Roles());
    hide Touched;
  }

  lemma SameHolders(a: Store, b: Store, email: string)
    requires a.accounts == b.accounts && a.credentials.Keys == b.credentials.Keys
    ensures HoldersOf(a, email) == HoldersOf(b, email)
  {
    assert forall id :: id in a.credentials.Keys <==> id in b.credentials.Keys;
  }

  lemma OwnHolderIsFound(a: Store, setting: Setting, entry: Entry, email: string, holder: nat)
    requires Sound(a) && Classified(a, setting.tenant, email) == OneInTenant(holder)
    requires a.accounts[holder].subject == entry.subject
    ensures FindSubject(a.accounts, entry.subject) == Some(holder) && holder in a.credentials
  {
    assert holder in HoldersOf(a, email);
  }

  lemma RotateSteps(a: Store, setting: Setting, entry: Entry, email: string, secret: string, holder: nat)
    requires Sound(a) && Classified(a, setting.tenant, email) == OneInTenant(holder)
    requires a.accounts[holder].subject == entry.subject
    requires ExistingOrInserted(a, setting.tenant, entry.subject, email).Ok?
    requires SPEAKER !in entry.Roles() && HoldsOnly(a, holder, setting.path, entry.Roles())
    ensures ExistingOrInserted(a, setting.tenant, entry.subject, email) == Ok((a, holder))
    ensures var granted := GrantedAll(a, setting, email, entry.Roles());
            var r := SeededOwn(a, setting, entry, email, secret, false);
            && granted.Ok? && r.Ok? && r.value.0 == granted.value.(
                 credentials := granted.value.credentials[holder := Password(secret, setting.salts(entry.subject))])
  {
    OwnHolderIsFound(a, setting, entry, email, holder);
    GrantedAllToHolder(a, setting, email, entry.Roles(), holder);
    hide GrantedAll, Granted, Classified, Normal, HoldsOnly, HoldsActive, FindSubject;
  }

  lemma RotateFrame(a: Store, setting: Setting, entry: Entry, email: string, secret: string, holder: nat)
    requires Sound(a) && Classified(a, setting.tenant, email) == OneInTenant(holder)
    requires a.accounts[holder].subject == entry.subject
    requires ExistingOrInserted(a, setting.tenant, entry.subject, email).Ok?
    requires SPEAKER !in entry.Roles() && HoldsOnly(a, holder, setting.path, entry.Roles())
    ensures SeededOwn(a, setting, entry, email, secret, false).Ok?
    ensures var b := SeededOwn(a, setting, entry, email, secret, false).value.0;
            && Touched(a, b, holder, setting.path, entry.Roles())
            && OwnTouched(a, b, entry, setting.tenant, email, holder)
            && RolesHeld(b, holder, setting.path, entry.Roles(), setting.now)
  {
    hide SeededOwn, ExistingOrInserted, GrantedAll, Granted, Classified, HoldersOf, Normal, HoldsOnly, HoldsActive;
    RotateSteps(a, setting, entry, email, secret, holder);
    OwnHolderIsFound(a, setting, entry, email, holder);
    FoundFrame(a, setting, entry, email);
    GrantedAllToHolder(a, setting, email, entry.Roles(), holder);
    var after := GrantedAll(a, setting, email, entry.Roles()).value;
    var b := SeededOwn(a, setting, entry, email, secret, false).value.0;
    SameHolders(a, b, email);
    forall role | role in entry.Roles()
      ensures HoldsActive(b, holder, role, setting.path, setting.now)
    {
      RowStays(after, b, holder, role, setting.path, setting.now);
    }
  }

  /** Whichever way an entry goes, what it touches is one account, its own or one it may merge into. */
  lemma EntryFrame(a: Store, setting: Setting, entry: Entry, email: string, secret: string) returns (target: nat)
    requires Sound(a) && SeededOne(a, setting, entry, email, secret).Ok?
    ensures var (b, outcome) := SeededOne(a, setting, entry, email, secret).value;
            && Touched(a, b, target, setting.path, entry.Roles())
            && RolesHeld(b, target, setting.path, entry.Roles(), setting.now)
            && if outcome.foreignLogin
               then ForeignTouched(a, b, entry, setting.now, target) && HoldersOf(a, email) == {target}
               else OwnTouched(a, b, entry, setting.tenant, email, target)
    ensures !SeededOne(a, setting, entry, email, secret).value.1.foreignLogin ==>
              SPEAKER !in entry.Roles() && ExistingOrInserted(a, setting.tenant, entry.subject, email).Ok?
              && HoldsOnly(ExistingOrInserted(a, setting.tenant, entry.subject, email).value.0, target,
                           setting.path, entry.Roles())
  {
    hide Touched, OwnTouched, ForeignTouched, RolesHeld, HoldsOnly, Granted, GrantedAll, HoldersOf, Normal;
    match Classified(a, setting.tenant, email)
    case Nobody =>
      ClaimFrame(a, setting, entry, email, secret);
      target := ExistingOrInserted(a, setting.tenant, entry.subject, email).value.1;
    case OneInTenant(holder) =>
      target := holder;
      if a.accounts[holder].subject != entry.subject {
        ForeignFrame(a, setting, entry, email, holder);
      } else {
        OwnHolderIsFound(a, setting, entry, email, holder);
        RotateFrame(a, setting, entry, email, secret, holder);
      }
    case _ =>
  }

  lemma TouchedIsSound(a: Store, b: Store, target: nat, path: string, roles: seq<string>)
    requires Sound(a) && Touched(a, b, target, path, roles)
    requires |b.accounts| > |a.accounts| ==>
               forall u :: 0 <= u < |a.accounts| ==> a.accounts[u].subject != b.accounts[target].subject
    ensures Sound(b)
  {
    hide Expected;
    forall m | m in b.memberships
      ensures m.user < |b.accounts|
    {
      var i :| 0 <= i < |b.memberships| && b.memberships[i] == m;
      if i < |a.memberships| {
        assert a.memberships[i] == b.memberships[..|a.memberships|][i] == m;
        assert m in a.memberships;
      }
    }
  }

  lemma EntryKeepsSound(a: Store, setting: Setting, entry: Entry, email: string, secret: string)
    requires Sound(a) && SeededOne(a, setting, entry, email, secret).Ok?
    ensures Sound(SeededOne(a, setting, entry, email, secret).value.0)
  {
    var target := EntryFrame(a, setting, entry, email, secret);
    hide SeededOne, RolesHeld, HoldersOf, Normal, MayMerge, HoldsOnly, ExistingOrInserted, Sound, Touched;
    TouchedIsSound(a, SeededOne(a, setting, entry, email, secret).value.0, target, setting.path, entry.Roles());
  }

  // ----- when an entry is refused ------------------------------------------------------------------------

  /** The seed's own login has its password, but the query does not find it at its own address. */
  predicate Stranded(a: Store, setting: Setting, entry: Entry, email: string) {
    var account := FindSubject(a.accounts, entry.subject);
    && Classified(a, setting.tenant, email).Nobody? && account.Some? && account.value in a.credentials
    && ExistingOrInserted(a, setting.tenant, entry.subject, email).Ok?
    && SPEAKER !in entry.Roles() && HoldsOnly(a, account.value, setting.path, entry.Roles())
  }

  /** Every refusal is the tool's own conflict, but for exactly that state, which the credential writer refuses. */
  lemma CredentialWriterRefusesExactlyTheStranded(a: Store, setting: Setting, entry: Entry, email: string, secret: string)
    requires Sound(a)
    ensures var r := SeededOne(a, setting, entry, email, secret);
            && (r.Err? ==> r.error == SeedConflict || r.error == AccountAlreadyCredentialed)
            && (r == Err(AccountAlreadyCredentialed) <==> Stranded(a, setting, entry, email))
  {
    hide Granted, GrantedAll, HoldersOf, Normal, HoldsOnly, HoldsActive;
    match Classified(a, setting.tenant, email)
    case Nobody =>
      var found := ExistingOrInserted(a, setting.tenant, entry.subject, email);
      if found.Ok? {
        var (s, id) := found.value;
        var create := NewLogin(id, Password(secret, setting.salts(entry.subject)));
        InsertedIsFree(a, setting, entry, email);
        FirstGrantClaims(s, setting, email, entry.role, create);
        if id !in a.credentials {
          var first := Granted(
            s, setting.tenant, email, entry.role, setting.path, setting.now, Some(create)).value.0;
          GrantedAllToHolder(first, setting, email, entry.additional, id);
        }
      }
    case OneInTenant(holder) =>
      GrantedAllToHolder(a, setting, email, entry.Roles(), holder);
      if a.accounts[holder].subject == entry.subject {
        OwnHolderIsFound(a, setting, entry, email, holder);
      }
    case _ =>
  }

  /** Such a store can be written down: Python's `strip` removes a unit separator that the query's `btrim` leaves. */
  lemma SomeStoreStrands(setting: Setting, entry: Entry, separator: char)
    requires separator as int == 31 && SPEAKER !in entry.Roles()
    ensures var a := Store([Account(setting.tenant, entry.subject, [separator, 'a'], false)],
                           map[0 := Password("", "")], [], map[]);
            Sound(a) && Stranded(a, setting, entry, "a")
  {
    var a := Store([Account(setting.tenant, entry.subject, [separator, 'a'], false)],
                   map[0 := Password("", "")], [], map[]);
    assert Trimming.DropBlanks([separator, 'a']) == ['a'] by {
      assert [separator, 'a'][1..] == ['a'];
    }
    assert Normal([separator, 'a']) == Normal("a") && Btrim([separator, 'a']) == [separator, 'a'];
    assert |Folded([separator, 'a'])| == 2 && |Normal("a")| == 1;
    assert HoldersOf(a, "a") == {};
  }

  // ----- a whole run ---------------------------------------------------------------------------------------

  ghost predicate OwnSubject(entries: seq<Entry>, subject: string) {
    exists entry :: entry in entries && entry.subject == subject
  }

  ghost predicate AskedFor(entries: seq<Entry>, subject: string, role: string) {
    exists entry :: entry in entries && entry.subject == subject && role in entry.Roles()
  }

  /**
   * A row the seed may add: over the unit and with no window; a requested role for the entry's own
   * login, or `volunteer` for a login whose active roles are within speaker and volunteer.
   */
  ghost predicate FairRow(a: Store, b: Store, entries: seq<Entry>, m: Membership, path: string, now: int) {
    && m.user < |b.accounts| && m.path == path && m.from == None && m.until == None
    && (AskedFor(entries, b.accounts[m.user].subject, m.role)
        || (m.role == VOLUNTEER && ActiveRoles(a, m.user, now) <= {SPEAKER, VOLUNTEER}))
  }

  /** A login that is no entry's own keeps its account and its password, and none is created. */
  ghost predicate OthersKept(a: Store, b: Store, entries: seq<Entry>) {
    && |a.accounts| <= |b.accounts|
    && (forall u :: |a.accounts| <= u < |b.accounts| ==> OwnSubject(entries, b.accounts[u].subject))
    && forall u :: 0 <= u < |a.accounts| ==>
         && b.accounts[u] == a.accounts[u].(email := b.accounts[u].email)
         && (!OwnSubject(entries, a.accounts[u].subject) ==>
               && b.accounts[u] == a.accounts[u] && (u in a.credentials <==> u in b.credentials)
               && (u in a.credentials ==> b.credentials[u] == a.credentials[u]))
  }

  /** What a run keeps: every row, every binding, every other login; and what it adds is fair. */
  ghost predicate SeedKeeps(a: Store, b: Store, entries: seq<Entry>, path: string, now: int) {
    && OthersKept(a, b, entries) && b.bindings == a.bindings && a.memberships <= b.memberships
    && forall i :: |a.memberships| <= i < |b.memberships| ==> FairRow(a, b, entries, b.memberships[i], path, now)
  }

  lemma MoreRowsMoreRoles(a: Store, b: Store, user: nat, now: int)
    requires a.memberships <= b.memberships
    ensures ActiveRoles(a, user, now) <= ActiveRoles(b, user, now)
  {
    forall i | 0 <= i < |a.memberships|
      ensures b.memberships[i] == a.memberships[i]
    {
    }
  }

  lemma OwnIsFair(a: Store, b: Store, entries: seq<Entry>, entry: Entry, target: nat, path: string, now: int)
    requires Touched(a, b, target, path, entry.Roles()) && entry in entries && b.accounts[target].subject == entry.subject
    ensures SeedKeeps(a, b, entries, path, now)
  {
    assert OthersKept(a, b, entries);
    forall i | |a.memberships| <= i < |b.memberships|
      ensures FairRow(a, b, entries, b.memberships[i], path, now)
    {
      assert b.memberships[i].user == target && Expected(b.memberships[i], path, entry.Roles());
      assert AskedFor(entries, b.accounts[target].subject, b.memberships[i].role);
    }
  }

  lemma ForeignIsFair(a: Store, b: Store, entries: seq<Entry>, entry: Entry, target: nat, path: string, now: int)
    requires Touched(a, b, target, path, entry.Roles()) && ForeignTouched(a, b, entry, now, target)
    ensures SeedKeeps(a, b, entries, path, now)
  {
    hide ActiveRoles;
    assert OthersKept(a, b, entries);
    forall i | |a.memberships| <= i < |b.memberships|
      ensures FairRow(a, b, entries, b.memberships[i], path, now)
    {
      var m := b.memberships[i];
      assert m.user == target && Expected(m, path, entry.Roles());
      assert m.role in entry.RoleSet();
    }
  }

  lemma EntryIsFair(a: Store, setting: Setting, entries: seq<Entry>, entry: Entry, email: string, secret: string)
    requires Sound(a) && SeededOne(a, setting, entry, email, secret).Ok? && entry in entries
    ensures SeedKeeps(a, SeededOne(a, setting, entry, email, secret).value.0, entries, setting.path, setting.now)
  {
    var target := EntryFrame(a, setting, entry, email, secret);
    hide SeededOne, RolesHeld, HoldersOf, Normal, HoldsOnly, ExistingOrInserted, Sound, ForeignTouched, Touched, SeedKeeps;
    var (b, outcome) := SeededOne(a, setting, entry, email, secret).value;
    if outcome.foreignLogin {
      ForeignIsFair(a, b, entries, entry, target, setting.path, setting.now);
    } else {
      OwnIsFair(a, b, entries, entry, target, setting.path, setting.now);
    }
  }

  lemma FairRowLater(a: Store, b: Store, c: Store, entries: seq<Entry>, m: Membership, path: string, now: int)
    requires a.memberships <= b.memberships && OthersKept(b, c, entries)
    ensures FairRow(a, b, entries, m, path, now) ==> FairRow(a, c, entries, m, path, now)
    ensures FairRow(b, c, entries, m, path, now) ==> FairRow(a, c, entries, m, path, now)
  {
    hide ActiveRoles, AskedFor;
    MoreRowsMoreRoles(a, b, m.user, now);
  }

  lemma FairInTurn(a: Store, b: Store, c: Store, entries: seq<Entry>, path: string, now: int)
    requires SeedKeeps(a, b, entries, path, now) && SeedKeeps(b, c, entries, path, now)
    ensures SeedKeeps(a, c, entries, path, now)
  {
    hide FairRow;
    assert OthersKept(a, c, entries);
    hide OthersKept;
    forall i | |a.memberships| <= i < |c.memberships|
      ensures FairRow(a, c, entries, c.memberships[i], path, now)
    {
      FairRowLater(a, b, c, entries, c.memberships[i], path, now);
      if i < |b.memberships| {
        assert c.memberships[i] == b.memberships[i];
      }
    }
  }

  lemma {:induction false} RunIsFair(a: Store, setting: Setting, entries: seq<Entry>, rest: seq<Entry>, environ: Environ)
    requires Sound(a) && SeededAll(a, setting, rest, environ).Ok? && forall entry :: entry in rest ==> entry in entries
    ensures var b := SeededAll(a, setting, rest, environ).value.0;
            Sound(b) && SeedKeeps(a, b, entries, setting.path, setting.now)
    decreases |rest|
  {
    hide SeededOne, Sound, ReadRole;
    if rest != [] {
      var configured := ReadRole(rest[0], environ).value;
      if configured == None {
        RunIsFair(a, setting, entries, rest[1..], environ);
      } else {
        var (email, secret) := configured.value;
        EntryKeepsSound(a, setting, rest[0], email, secret);
        EntryIsFair(a, setting, entries, rest[0], email, secret);
        var next := SeededOne(a, setting, rest[0], email, secret).value.0;
        RunIsFair(next, setting, entries, rest[1..], environ);
        hide SeedKeeps;
        FairInTurn(a, next, SeededAll(next, setting, rest[1..], environ).value.0, entries, setting.path, setting.now);
      }
    }
  }

  // ----- any sequence of runs and portal transactions ----------------------------------------------------------

  datatype Act =
    | Seed(setting: Setting, environ: Environ)
    | Activate(tenant: string, contact: nat, address: string, unit: string, supplied: Supplied, at: int)
    | Unbind(contact: nat, at: int)

  /** A refused act is rolled back. */
  function After(s: Store, act: Act): Store {
    match act
    case Seed(setting, environ) =>
      var r := SeededAll(s, setting, ENTRIES, environ);
      if r.Ok? then r.value.0 else s
    case Activate(tenant, contact, address, unit, supplied, at) =>
      var r := Activated(s, tenant, contact, address, unit, supplied, at);
      if r.Ok? then r.value else s
    case Unbind(contact, at) => Unbound(s, contact, at)
  }

  function Reached(s: Store, acts: seq<Act>): Store {
    if acts == [] then s else After(Reached(s, acts[..|acts| - 1]), acts[|acts| - 1])
  }

  /** Rows are never removed, and the only rewriting is that a Speaker row is given its end. */
  ghost predicate RowsKept(a: Store, b: Store) {
    && |a.memberships| <= |b.memberships|
    && forall i :: 0 <= i < |a.memberships| ==>
         b.memberships[i] == if a.memberships[i].role == SPEAKER
                             then a.memberships[i].(until := b.memberships[i].until) else a.memberships[i]
  }

  lemma GrantKeepsSound(
    s: Store, tenant: string, email: string, role: string, path: string, now: int, create: Option<NewLogin>)
    requires Sound(s) && Granted(s, tenant, email, role, path, now, create).Ok?
    ensures var (b, grant) := Granted(s, tenant, email, role, path, now, create).value;
            Sound(b) && RowsKept(s, b) && b.bindings == s.bindings && grant.user < |b.accounts|
  {
    hide HoldersOf, HoldsActive, Normal;
  }

  lemma ActivationKeepsSound(
    s: Store, tenant: string, contact: nat, address: string, unit: string, supplied: Supplied, now: int)
    requires Sound(s) && Activated(s, tenant, contact, address, unit, supplied, now).Ok?
    ensures var b := Activated(s, tenant, contact, address, unit, supplied, now).value;
            Sound(b) && RowsKept(s, b)
  {
    hide Granted, Classified;
    var mode := ChosenMode(s, tenant, contact, address, now).value;
    var create := if mode == None then Some(NewLogin(contact, supplied.password)) else None;
    GrantKeepsSound(s, tenant, address, SPEAKER, unit, now, create);
    hide Sound;
    var (b, grant) := Granted(s, tenant, address, SPEAKER, unit, now, create).value;
    GrantKeepsAccounts(s, tenant, address, SPEAKER, unit, now, create);
    BindingIsSound(b, contact, grant.user);
  }

  lemma GrantKeepsAccounts(
    s: Store, tenant: string, email: string, role: string, path: string, now: int, create: Option<NewLogin>)
    requires Granted(s, tenant, email, role, path, now, create).Ok?
    ensures var b := Granted(s, tenant, email, role, path, now, create).value.0;
            && |b.accounts| == |s.accounts|
            && forall u :: 0 <= u < |s.accounts| ==> b.accounts[u].subject == s.accounts[u].subject
  {
    hide HoldersOf, HoldsActive, Normal;
  }

  lemma BindingIsSound(s: Store, contact: nat, login: nat)
    requires Sound(s) && contact < |s.accounts| && login < |s.accounts|
    ensures Sound(s.(bindings := s.bindings[contact := login]))
  {
  }

  lemma UnbindKeepsSound(s: Store, contact: nat, now: int)
    requires Sound(s)
    ensures Sound(Unbound(s, contact, now)) && RowsKept(s, Unbound(s, contact, now))
  {
    if contact in s.bindings {
      var b := Unbound(s, contact, now);
      forall m | m in b.memberships
        ensures m.user < |b.accounts|
      {
        var i :| 0 <= i < |b.memberships| && b.memberships[i] == m;
        assert s.memberships[i] in s.memberships;
      }
    }
  }

  lemma ActKeepsSound(s: Store, act: Act)
    requires Sound(s)
    ensures Sound(After(s, act)) && RowsKept(s, After(s, act))
  {
    hide Sound, SeededAll, Activated, Unbound;
    match act
    case Seed(setting, environ) =>
      if SeededAll(s, setting, ENTRIES, environ).Ok? {
        RunIsFair(s, setting, ENTRIES, ENTRIES, environ);
      }
    case Activate(tenant, contact, address, unit, supplied, at) =>
      if Activated(s, tenant, contact, address, unit, supplied, at).Ok? {
        ActivationKeepsSound(s, tenant, contact, address, unit, supplied, at);
      }
    case Unbind(contact, at) =>
      UnbindKeepsSound(s, contact, at);
  }

  lemma {:induction false} ReachedIsSound(s: Store, acts: seq<Act>)
    requires Sound(s)
    ensures Sound(Reached(s, acts)) && RowsKept(s, Reached(s, acts))
  {
    if acts != [] {
      hide Sound, After;
      ReachedIsSound(s, acts[..|acts| - 1]);
      ActKeepsSound(Reached(s, acts[..|acts| - 1]), acts[|acts| - 1]);
    }
  }

  /**
   * Over every sequence of seed runs, activations and unbinds, each seed run touches no other login's
   * account or password, adds only fair rows, and rewrites none.
   */
  lemma NoRunWidensALogin(s: Store, acts: seq<Act>, k: nat)
    requires Sound(s) && k < |acts| && acts[k].Seed?
    ensures SeedKeeps(Reached(s, acts[..k]), Reached(s, acts[..k + 1]), ENTRIES,
                      acts[k].setting.path, acts[k].setting.now)
  {
    hide Sound, SeededAll, ENTRIES;
    var a := Reached(s, acts[..k]);
    ReachedIsSound(s, acts[..k]);
    assert acts[..k + 1][..k] == acts[..k];
    assert Reached(s, acts[..k + 1]) == After(a, acts[k]);
    if SeededAll(a, acts[k].setting, ENTRIES, acts[k].environ).Ok? {
      RunIsFair(a, acts[k].setting, ENTRIES, ENTRIES, acts[k].environ);
    }
  }

  lemma OtherLoginGains(a: Store, b: Store, entries: seq<Entry>, path: string, now: int, i: nat)
    requires SeedKeeps(a, b, entries, path, now) && |a.memberships| <= i < |b.memberships|
    ensures var m := b.memberships[i];
            m.user < |b.accounts| && (!OwnSubject(entries, b.accounts[m.user].subject) ==>
              && m.role == VOLUNTEER && ActiveRoles(a, m.user, now) <= {SPEAKER, VOLUNTEER}
              && m.user < |a.accounts| && (m.user in a.credentials <==> m.user in b.credentials)
              && (m.user in a.credentials ==> a.credentials[m.user] == b.credentials[m.user]))
  {
    hide ActiveRoles;
    var m := b.memberships[i];
    assert FairRow(a, b, entries, m, path, now);
    if !OwnSubject(entries, b.accounts[m.user].subject) {
      assert m.user < |a.accounts|;
      assert b.accounts[m.user].subject == a.accounts[m.user].subject;
      assert !AskedFor(entries, b.accounts[m.user].subject, m.role);
    }
  }

  /** So a login that is no entry's own gains from a run nothing but `volunteer`, and only within its two roles. */
  lemma OtherLoginsGainOnlyVolunteer(s: Store, acts: seq<Act>, k: nat, i: nat)
    requires Sound(s) && k < |acts| && acts[k].Seed?
    requires |Reached(s, acts[..k]).memberships| <= i < |Reached(s, acts[..k + 1]).memberships|
    ensures var a, b := Reached(s, acts[..k]), Reached(s, acts[..k + 1]);
            var m := b.memberships[i];
            m.user < |b.accounts| && (!OwnSubject(ENTRIES, b.accounts[m.user].subject) ==>
              && m.role == VOLUNTEER && ActiveRoles(a, m.user, acts[k].setting.now) <= {SPEAKER, VOLUNTEER}
              && m.user < |a.accounts| && (m.user in a.credentials <==> m.user in b.credentials)
              && (m.user in a.credentials ==> a.credentials[m.user] == b.credentials[m.user]))
  {
    hide Reached, ActiveRoles, ENTRIES, SeedKeeps, Sound, OwnSubject;
    NoRunWidensALogin(s, acts, k);
    OtherLoginGains(Reached(s, acts[..k]), Reached(s, acts[..k + 1]), ENTRIES,
                    acts[k].setting.path, acts[k].setting.now, i);
  }

  // ----- why no run meets the stranded state ------------------------------------------------------------------

  /** Every credentialed account keeps its address without white space at its ends. */
  ghost predicate AddressesTrimmed(s: Store) {
    forall id :: id in s.credentials && id < |s.accounts| ==> Trimming.Trimmed(s.accounts[id].email)
  }

  /** On a trimmed address the query folds as Python does. */
  lemma TrimmedFoldsAlike(address: string)
    requires Trimming.Trimmed(address)
    ensures Folded(address) == Normal(address)
  {
    Trimming.TrimmedStays(address);
    assert Btrim(address) == address;
  }

  lemma TrimmedIsNotStranded(a: Store, setting: Setting, entry: Entry, email: string)
    requires Sound(a) && AddressesTrimmed(a)
    ensures !Stranded(a, setting, entry, email)
  {
    var own := FindSubject(a.accounts, entry.subject);
    if own.Some? && own.value in a.credentials && ExistingOrInserted(a, setting.tenant, entry.subject, email).Ok? {
      TrimmedFoldsAlike(a.accounts[own.value].email);
      hide Folded, Normal, HoldsOnly;
      assert own.value in HoldersOf(a, email);
    }
  }

  lemma TouchedKeepsTrimmed(a: Store, b: Store, target: nat, path: string, roles: seq<string>)
    requires Touched(a, b, target, path, roles) && AddressesTrimmed(a)
    requires (b.accounts == a.accounts && target in a.credentials) || Trimming.Trimmed(b.accounts[target].email)
    ensures AddressesTrimmed(b)
  {
    hide RowsAdded, Trimming.Trimmed;
    forall id | id in b.credentials && id < |b.accounts|
      ensures Trimming.Trimmed(b.accounts[id].email)
    {
      assert id in b.credentials.Keys;
    }
  }

  lemma EntryKeepsTrimmed(a: Store, setting: Setting, entry: Entry, email: string, secret: string)
    requires Sound(a) && AddressesTrimmed(a) && SeededOne(a, setting, entry, email, secret).Ok?
    ensures AddressesTrimmed(SeededOne(a, setting, entry, email, secret).value.0)
  {
    var target := EntryFrame(a, setting, entry, email, secret);
    hide SeededOne, RolesHeld, HoldersOf, Normal, MayMerge, HoldsOnly, ExistingOrInserted, Sound, RowsAdded, ActiveRoles,
      Trimming.Trimmed;
    NormalIsTrimmed(email);
    var (b, outcome) := SeededOne(a, setting, entry, email, secret).value;
    if outcome.foreignLogin {
      hide Touched;
      assert AddressesTrimmed(b);
    } else {
      hide AddressesTrimmed;
      TouchedKeepsTrimmed(a, b, target, setting.path, entry.Roles());
    }
  }

  lemma {:induction false} RunKeepsTrimmed(a: Store, setting: Setting, entries: seq<Entry>, environ: Environ)
    requires Sound(a) && AddressesTrimmed(a)
    ensures var r := SeededAll(a, setting, entries, environ);
            && (r.Ok? ==> AddressesTrimmed(r.value.0))
            && (r.Err? ==> r.error == SeedConflict || r.error == SeedCredentials)
    decreases |entries|
  {
    hide SeededOne, Sound, AddressesTrimmed, Stranded;
    if entries != [] {
      var configured := ReadRole(entries[0], environ);
      hide ReadRole;
      if configured.Ok? && configured.value == None {
        RunKeepsTrimmed(a, setting, entries[1..], environ);
      } else if configured.Ok? {
        var (email, secret) := configured.value.value;
        TrimmedIsNotStranded(a, setting, entries[0], email);
        CredentialWriterRefusesExactlyTheStranded(a, setting, entries[0], email, secret);
        if SeededOne(a, setting, entries[0], email, secret).Ok? {
          EntryKeepsSound(a, setting, entries[0], email, secret);
          EntryKeepsTrimmed(a, setting, entries[0], email, secret);
          RunKeepsTrimmed(SeededOne(a, setting, entries[0], email, secret).value.0, setting, entries[1..], environ);
        }
      }
    }
  }

  lemma GrantKeepsTrimmed(
    s: Store, tenant: string, email: string, role: string, path: string, now: int, create: Option<NewLogin>)
    requires AddressesTrimmed(s) && Granted(s, tenant, email, role, path, now, create).Ok?
    ensures AddressesTrimmed(Granted(s, tenant, email, role, path, now, create).value.0)
  {
    NormalIsTrimmed(email);
    hide HoldersOf, HoldsActive, Normal, Trimming.Trimmed;
  }

  lemma ActKeepsTrimmed(s: Store, act: Act)
    requires Sound(s) && AddressesTrimmed(s)
    ensures AddressesTrimmed(After(s, act))
  {
    hide Sound, SeededAll, Granted, ChosenMode;
    match act
    case Seed(setting, environ) =>
      RunKeepsTrimmed(s, setting, ENTRIES, environ);
    case Activate(tenant, contact, address, unit, supplied, at) =>
      if Activated(s, tenant, contact, address, unit, supplied, at).Ok? {
        var mode := ChosenMode(s, tenant, contact, address, at).value;
        var create := if mode == None then Some(NewLogin(contact, supplied.password)) else None;
        GrantKeepsTrimmed(s, tenant, address, SPEAKER, unit, at, create);
      }
    case Unbind(contact, at) =>
  }

  lemma {:induction false} ReachedIsTrimmed(s: Store, acts: seq<Act>)
    requires Sound(s) && AddressesTrimmed(s)
    ensures Sound(Reached(s, acts)) && AddressesTrimmed(Reached(s, acts))
  {
    if acts != [] {
      hide Sound, After, AddressesTrimmed;
      ReachedIsTrimmed(s, acts[..|acts| - 1]);
      ActKeepsSound(Reached(s, acts[..|acts| - 1]), acts[|acts| - 1]);
      ActKeepsTrimmed(Reached(s, acts[..|acts| - 1]), acts[|acts| - 1]);
    }
  }

  /**
   * The credential writer stores every address trimmed, so over every sequence of seed runs, activations
   * and unbinds no entry's login is ever stranded, and an entry or a run is refused by the tool's own
   * refusals alone. A store without credentials, the empty one among them, meets the premise.
   */
  lemma NoLoginIsEverStranded(
    s: Store, acts: seq<Act>, setting: Setting, entry: Entry, email: string, secret: string, environ: Environ)
    requires Sound(s) && AddressesTrimmed(s)
    ensures var a := Reached(s, acts);
            && AddressesTrimmed(a) && !Stranded(a, setting, entry, email)
            && (SeededOne(a, setting, entry, email, secret).Err? ==>
                  SeededOne(a, setting, entry, email, secret).error == SeedConflict)
            && (SeededAll(a, setting, ENTRIES, environ).Err? ==>
                  SeededAll(a, setting, ENTRIES, environ).error in {SeedConflict, SeedCredentials})
  {
    hide Sound, SeededOne, SeededAll, Stranded, AddressesTrimmed;
    ReachedIsTrimmed(s, acts);
    TrimmedIsNotStranded(Reached(s, acts), setting, entry, email);
    CredentialWriterRefusesExactlyTheStranded(Reached(s, acts), setting, entry, email, secret);
    RunKeepsTrimmed(Reached(s, acts), setting, ENTRIES, environ);
  }

  lemma NoLoginIsStrandedFromNothing(acts: seq<Act>, setting: Setting, entry: Entry, email: string, secret: string)
    ensures var a := Reached(Store([], map[], [], map[]), acts);
            && !Stranded(a, setting, entry, email)
            && (SeededOne(a, setting, entry, email, secret).Err? ==>
                  SeededOne(a, setting, entry, email, secret).error == SeedConflict)
  {
    hide Reached, SeededOne, Stranded;
    NoLoginIsEverStranded(Store([], map[], [], map[]), acts, setting, entry, email, secret, map[]);
  }
}
