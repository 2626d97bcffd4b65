/**
 * Accounts, pilot passwords and memberships: the one writer of credentials, and the two
 * portal transactions (activation and unbind) that share the store with the login seed.
 */
module LoginAccounts {
  import opened Casing
  import opened Outcomes
  import opened Trimming

  /** An account; its identity is its position in the store. */
  datatype Account = Account(tenant: string, subject: string, email: string, suspended: bool)

  /** What the key derivation stores: it depends on the secret and the salt alone. */
  datatype Password = Password(secret: string, salt: string)

  datatype Membership = Membership(user: nat, path: string, role: string, from: Option<int>, until: Option<int>)

  /** At most one credential an account; a profile's contact account is bound to the login that speaks for it. */
  datatype Store = Store(
    accounts: seq<Account>, credentials: map<nat, Password>, memberships: seq<Membership>, bindings: map<nat, nat>)

  /** Subjects are unique, and every row is about an account. */
  ghost predicate Sound(s: Store) {
    && (forall i, j :: 0 <= i < j < |s.accounts| ==> s.accounts[i].subject != s.accounts[j].subject)
    && (forall id :: id in s.credentials ==> id < |s.accounts|)
    && (forall m :: m in s.memberships ==> m.user < |s.accounts|)
    && (forall c :: c in s.bindings ==> c < |s.accounts| && s.bindings[c] < |s.accounts|)
  }

  datatype Refusal =
    | AddressAmbiguous | AddressInOtherTenant | AccountAlreadyCredentialed | NoLoginForAddress
    | SeedConflict | SeedCredentials | ActivationRefused

  const SPEAKER := "speaker"
  const VOLUNTEER := "volunteer"

  // ----- addresses ---------------------------------------------------------------------------------

  predicate SqlBlank(c: char) {
    9 <= c as int <= 13 || c == ' '
  }

  /** `btrim` over the ASCII white space the query names; Python's `strip` takes more. */
  function Btrim(s: string): string
    decreases |s|
  {
    if s == "" then s
    else if SqlBlank(s[0]) then Btrim(s[1..])
    else if SqlBlank(s[|s| - 1]) then Btrim(s[..|s| - 1])
    else s
  }

  /** A stored address as the query folds it. */
  function Folded(email: string): string {
    Lower(Btrim(email))
  }

  /** An address stored normalised is found again. */
  lemma NormalisedIsFound(address: string)
    ensures Folded(Normal(address)) == Normal(address)
  {
    NormalIsTrimmed(address);
    assert Lower(Normal(address)) == Normal(address);
  }

  /** The credentialed accounts at an address, in every tenant. */
  function HoldersOf(s: Store, address: string): set<nat> {
    set id | id in s.credentials && id < |s.accounts| && Folded(s.accounts[id].email) == Normal(address)
  }

  datatype AddressState = Nobody | OneInTenant(holder: nat) | OtherTenant | Ambiguous

  lemma OneMember(ids: set<nat>)
    requires |ids| == 1
    ensures forall a, b :: a in ids && b in ids ==> a == b
  {
    var x :| x in ids;
    assert |ids - {x}| == 0;
  }

  function Classified(s: Store, tenant: string, address: string): (r: AddressState)
    ensures r == Nobody <==> HoldersOf(s, address) == {}
    ensures r.OneInTenant? ==>
              HoldersOf(s, address) == {r.holder} && r.holder < |s.accounts| && s.accounts[r.holder].tenant == tenant
    ensures forall id :: HoldersOf(s, address) == {id} && s.accounts[id].tenant == tenant ==> r == OneInTenant(id)
  {
    var holders := HoldersOf(s, address);
    if holders == {} then Nobody
    else if |holders| > 1 then Ambiguous
    else
      OneMember(holders);
      var id :| id in holders;
      assert holders == {id};
      if s.accounts[id].tenant == tenant then OneInTenant(id) else OtherTenant
  }

  // ----- memberships ---------------------------------------------------------------------------------

  predicate ActiveAt(m: Membership, now: int) {
    (m.from.Some? ==> m.from.value <= now) && (m.until.Some? ==> m.until.value > now)
  }

  function ActiveRoles(s: Store, user: nat, now: int): set<string> {
    set i | 0 <= i < |s.memberships| && s.memberships[i].user == user && ActiveAt(s.memberships[i], now) ::
      s.memberships[i].role
  }

  predicate HoldsActive(s: Store, user: nat, role: string, path: string, now: int) {
    exists i :: 0 <= i < |s.memberships| &&
      var m := s.memberships[i]; m.user == user && m.role == role && m.path == path && ActiveAt(m, now)
  }

  function WithRole(s: Store, user: nat, role: string, path: string, now: int): Store {
    if HoldsActive(s, user, role, path, now) then s
    else s.(memberships := s.memberships + [Membership(user, path, role, None, None)])
  }

  // ----- the one writer of credentials ------------------------------------------------------------------

  datatype NewLogin = NewLogin(user: nat, password: Password)

  datatype RoleGrant = RoleGrant(user: nat, loginCreated: bool, roleAdded: bool)

  function Credentialed(s: Store, tenant: string, email: string, create: NewLogin): Result<Store, Refusal> {
    var id := create.user;
    if id >= |s.accounts| || s.accounts[id].tenant != tenant || s.accounts[id].suspended || id in s.credentials then
      Err(AccountAlreadyCredentialed)
    else
      Ok(s.(accounts := s.accounts[id := s.accounts[id].(email := Normal(email))],
            credentials := s.credentials[id := create.password]))
  }

  function Granted(
    s: Store, tenant: string, email: string, role: string, path: string, now: int, create: Option<NewLogin>)
    : Result<(Store, RoleGrant), Refusal>
  {
    match Classified(s, tenant, email)
    case Ambiguous => Err(AddressAmbiguous)
    case OtherTenant => Err(AddressInOtherTenant)
    case OneInTenant(holder) =>
      if create.Some? && create.value.user != holder then Err(AccountAlreadyCredentialed)
      else
        var after := WithRole(s, holder, role, path, now);
        Ok((after, RoleGrant(holder, false, after != s)))
    case Nobody =>
      if create == None then Err(NoLoginForAddress)
      else
        var credentialed :- Credentialed(s, tenant, email, create.value);
        var after := WithRole(credentialed, create.value.user, role, path, now);
        Ok((after, RoleGrant(create.value.user, true, after != credentialed)))
  }

  class LoginStore {
    var accounts: seq<Account>
    var credentials: map<nat, Password>
    var memberships: seq<Membership>
    var bindings: map<nat, nat>

    constructor ()
      ensures State() == Store([], map[], [], map[])
    {
      accounts, credentials, memberships, bindings := [], map[], [], map[];
    }

    function State(): Store
      reads this
    {
      Store(accounts, credentials, memberships, bindings)
    }

    /** Refuses before it writes. */
    method FindOrAddRole(
      tenant: string, email: string, role: string, path: string, now: int, create: Option<NewLogin>)
      returns (r: Result<RoleGrant, Refusal>)
      modifies this
      ensures match Granted(old(State()), tenant, email, role, path, now, create)
              case Err(e) => r == Err(e) && State() == old(State())
              case Ok((s, grant)) => r == Ok(grant) && State() == s
    {
      var holders := Classified(State(), tenant, email);
      if holders.Ambiguous? {
        return Err(AddressAmbiguous);
      }
      if holders.OtherTenant? {
        return Err(AddressInOtherTenant);
      }
      var target, created;
      if holders.OneInTenant? {
        if create.Some? && create.value.user != holders.holder {
          return Err(AccountAlreadyCredentialed);
        }
        target, created := holders.holder, false;
      } else {
        if create == None {
          return Err(NoLoginForAddress);
        }
        var _ :- CredentialNewLogin(tenant, email, create.value);
        target, created := create.value.user, true;
      }
      var added := EnsureActiveRole(target, role, path, now);
      return Ok(RoleGrant(target, created, added));
    }

    method CredentialNewLogin(tenant: string, email: string, create: NewLogin) returns (r: Result<nat, Refusal>)
      modifies this`accounts, this`credentials
      ensures match Credentialed(old(State()), tenant, email, create)
              case Err(e) => r == Err(e) && State() == old(State())
              case Ok(s) => r == Ok(create.user) && State() == s
    {
      var id := create.user;
      if id >= |accounts| || accounts[id].tenant != tenant || accounts[id].suspended || id in credentials {
        return Err(AccountAlreadyCredentialed);
      }
      accounts := accounts[id := accounts[id].(email := Normal(email))];
      credentials := credentials[id := create.password];
      return Ok(id);
    }

    method EnsureActiveRole(user: nat, role: string, path: string, now: int) returns (added: bool)
      modifies this`memberships
      ensures State() == WithRole(old(State()), user, role, path, now) && added == (State() != old(State()))
    {
      if HoldsActive(State(), user, role, path, now) {
        return false;
      }
      memberships := memberships + [Membership(user, path, role, None, None)];
      return true;
    }

    method RotateOwnPassword(user: nat, password: Password) returns (r: Result<nat, Refusal>)
      modifies this`credentials
      ensures if user in old(credentials)
              then r == Ok(user) && credentials == old(credentials)[user := password]
              else r == Err(NoLoginForAddress) && credentials == old(credentials)
    {
      if user !in credentials {
        return Err(NoLoginForAddress);
      }
      credentials := credentials[user := password];
      return Ok(user);
    }
  }

  // ----- what else writes the store: the portal's transactions -----------------------------------------------

  /** Exactly one password comes with the token: a first one, or the existing login's. */
  datatype Supplied = First(password: Password) | Existing(secret: string)

  predicate BoundElsewhere(s: Store, login: nat, contact: nat) {
    exists c :: c in s.bindings && c != contact && s.bindings[c] == login
  }

  /** Only an Event Host's login may gain the Speaker role; that role itself is ignored. */
  predicate ExistingLoginMayBind(held: set<string>) {
    held - {SPEAKER} == {VOLUNTEER}
  }

  /** The existing login activation binds, or none for a first login. */
  function ChosenMode(s: Store, tenant: string, contact: nat, address: string, now: int): Result<Option<nat>, Refusal> {
    match Classified(s, tenant, address)
    case Nobody => if contact in s.credentials then Err(ActivationRefused) else Ok(None)
    case OneInTenant(holder) =>
      if holder != contact && contact in s.credentials then Err(ActivationRefused)
      else if BoundElsewhere(s, holder, contact) then Err(ActivationRefused)
      else if !ExistingLoginMayBind(ActiveRoles(s, holder, now)) then Err(ActivationRefused)
      else Ok(Some(holder))
    case _ => Err(ActivationRefused)
  }

  /** Activation of a live, verified invitation for a contact account. */
  function Activated(
    s: Store, tenant: string, contact: nat, address: string, path: string, supplied: Supplied, now: int)
    : Result<Store, Refusal>
  {
    if contact >= |s.accounts| || s.accounts[contact].tenant != tenant
       || contact in s.bindings || s.accounts[contact].suspended then Err(ActivationRefused)
    else
      var mode :- ChosenMode(s, tenant, contact, address, now);
      if mode.Some? != supplied.Existing? then Err(ActivationRefused)
      else if mode.Some?
              && (mode.value !in s.credentials || s.credentials[mode.value].secret != supplied.secret
                  || s.accounts[mode.value].suspended) then Err(ActivationRefused)
      else
        var create := if mode == None then Some(NewLogin(contact, supplied.password)) else None;
        var (granted, grant) :- Granted(s, tenant, address, SPEAKER, path, now, create);
        Ok(granted.(bindings := granted.bindings[contact := grant.user]))
  }

  function Ended(m: Membership, login: nat, now: int): Membership {
    if m.user == login && m.role == SPEAKER && (m.until.Some? ==> m.until.value > now) then m.(until := Some(now)) else m
  }

  /** Unbind: the Speaker role ends on the bound login, and a first login loses its credential. */
  function Unbound(s: Store, contact: nat, now: int): Store {
    if contact !in s.bindings then s
    else
      var login := s.bindings[contact];
      Store(s.accounts,
            if login == contact then s.credentials - {login} else s.credentials,
            seq(|s.memberships|, i requires 0 <= i < |s.memberships| => Ended(s.memberships[i], login, now)),
            s.bindings - {contact})
  }
}
