/**
 * One student's reward redemptions: the store's rules, and the seed that carries a planned
 * history forward without reopening, doubling or debiting anything twice.
 */
module Redemptions {
  import opened Outcomes

  // ----- the store ---------------------------------------------------------------------------

  datatype State = Requested | Approved | Fulfilled | Denied | Expired

  predicate Terminal(s: State) {
    s == Fulfilled || s == Denied || s == Expired
  }

  /** The legal moves: `Fulfilled` only through approval, nothing out of a terminal state. */
  predicate Legal(current: State, next: State) {
    match current
    case Requested => next == Approved || next == Denied || next == Expired
    case Approved => next == Fulfilled || next == Expired
    case _ => false
  }

  datatype Listing = Listing(cost: nat, listable: bool)

  /** A redemption, with the price it was requested at. Its identity is its position. */
  datatype Row = Row(item: string, cost: nat, state: State)

  datatype Entry = Credit(points: nat) | Reversal(points: nat) | Debit(row: nat, points: nat)

  datatype Account = Account(rows: seq<Row>, ledger: seq<Entry>)

  type Catalog = map<string, Listing>

  function Amount(e: Entry): int {
    match e
    case Credit(points) => points
    case Reversal(points) => 0 - points
    case Debit(_, points) => 0 - points
  }

  /** The balance is folded from the ledger on every read. */
  function Balance(ledger: seq<Entry>): int {
    if ledger == [] then 0 else Balance(ledger[..|ledger| - 1]) + Amount(ledger[|ledger| - 1])
  }

  datatype Refusal =
    | UnknownItem | Unlistable | InsufficientBalance | UnknownRedemption | IllegalMove | CannotReachPlan

  /** The newest in-flight redemption of an item. */
  function InFlight(rows: seq<Row>, item: string): (r: Option<nat>)
    ensures r.Some? ==> r.value < |rows| && rows[r.value].item == item && !Terminal(rows[r.value].state)
    ensures r == None ==> forall i :: 0 <= i < |rows| && rows[i].item == item ==> Terminal(rows[i].state)
  {
    if rows == [] then None
    else
      var last := |rows| - 1;
      if rows[last].item == item && !Terminal(rows[last].state) then Some(last) else InFlight(rows[..last], item)
  }

  function Opened(catalog: Catalog, a: Account, item: string): Result<(Account, nat), Refusal> {
    if item !in catalog then Err(UnknownItem)
    else if !catalog[item].listable then Err(Unlistable)
    else if Balance(a.ledger) < catalog[item].cost then Err(InsufficientBalance)
    else match InFlight(a.rows, item)
      case Some(id) => Ok((a, id))
      case None => Ok((a.(rows := a.rows + [Row(item, catalog[item].cost, Requested)]), |a.rows|))
  }

  function Moved(a: Account, id: nat, to: State): Result<Account, Refusal> {
    if id >= |a.rows| then Err(UnknownRedemption)
    else if !Legal(a.rows[id].state, to) then Err(IllegalMove)
    else
      var rows := a.rows[id := a.rows[id].(state := to)];
      if to != Fulfilled then Ok(a.(rows := rows))
      else if Balance(a.ledger) < a.rows[id].cost then Err(InsufficientBalance)
      else Ok(Account(rows, a.ledger + [Debit(id, a.rows[id].cost)]))
  }

  class Rewards {
    const catalog: Catalog
    var rows: seq<Row>
    var ledger: seq<Entry>

    constructor (catalog: Catalog)
      ensures this.catalog == catalog && rows == [] && ledger == []
    {
      this.catalog := catalog;
      rows, ledger := [], [];
    }

    function State(): Account
      reads this
    {
      Account(rows, ledger)
    }

    /** Opens a request, or hands back the one already in flight. */
    method OpenRedemption(item: string) returns (r: Result<nat, Refusal>)
      modifies this`rows
      ensures match Opened(catalog, old(State()), item)
              case Err(e) => r == Err(e) && State() == old(State())
              case Ok((a, id)) => r == Ok(id) && State() == a
    {
      if item !in catalog {
        return Err(UnknownItem);
      }
      if !catalog[item].listable {
        return Err(Unlistable);
      }
      if Balance(ledger) < catalog[item].cost {
        return Err(InsufficientBalance);
      }
      var existing := InFlight(rows, item);
      if existing.Some? {
        return Ok(existing.value);
      }
      rows := rows + [Row(item, catalog[item].cost, Requested)];
      return Ok(|rows| - 1);
    }

    /** Moves a redemption, taking the debit when the move fulfils it. */
    method TransitionRedemption(id: nat, to: State) returns (r: Result<State, Refusal>)
      modifies this
      ensures match Moved(old(State()), id, to)
              case Err(e) => r == Err(e) && State() == old(State())
              case Ok(a) => r == Ok(to) && State() == a
    {
      if id >= |rows| {
        return Err(UnknownRedemption);
      }
      if !Legal(rows[id].state, to) {
        return Err(IllegalMove);
      }
      if to == Fulfilled {
        if Balance(ledger) < rows[id].cost {
          return Err(InsufficientBalance);
        }
        ledger := ledger + [Debit(id, rows[id].cost)];
      }
      rows := rows[id := rows[id].(state := to)];
      return Ok(to);
    }
  }

  // ----- the seed -------------------------------------------------------------------------------

  datatype Step = Step(item: string, final: State)

  /** A planned step and the in-flight redemption it starts from, in the state it was read. */
  datatype Carried = Carried(step: Step, id: nat, state: State)

  datatype Report = Report(started: nat, advanced: nat, existing: nat, closed: seq<string>)

  datatype Work = Work(account: Account, report: Report, carried: seq<Carried>)

  predicate HasState(rows: seq<Row>, item: string, state: State) {
    exists i :: 0 <= i < |rows| && rows[i].item == item && rows[i].state == state
  }

  predicate HasAny(rows: seq<Row>, item: string) {
    exists i :: 0 <= i < |rows| && rows[i].item == item
  }

  /** One step matched against the history read before the run. */
  function Matched(catalog: Catalog, history: seq<Row>, w: Work, step: Step): Result<Work, Refusal> {
    if step.item !in catalog then Err(UnknownItem)
    else if HasState(history, step.item, step.final) then
      Ok(w.(report := w.report.(existing := w.report.existing + 1)))
    else match InFlight(history, step.item)
      case Some(id) => Ok(w.(carried := w.carried + [Carried(step, id, history[id].state)]))
      case None =>
        if HasAny(history, step.item) then
          Ok(w.(report := w.report.(closed := w.report.closed + [step.item])))
        else
          var (account, id) :- Opened(catalog, w.account, step.item);
          Ok(Work(account, w.report.(started := w.report.started + 1), w.carried + [Carried(step, id, Requested)]))
  }

  function MatchedAll(catalog: Catalog, history: seq<Row>, w: Work, plan: seq<Step>): Result<Work, Refusal>
    decreases |plan|
  {
    if plan == [] then Ok(w)
    else
      var next :- Matched(catalog, history, w, plan[0]);
      MatchedAll(catalog, history, next, plan[1..])
  }

  /** Only the hops a carried redemption still needs. */
  function Advanced(a: Account, report: Report, c: Carried): Result<(Account, Report), Refusal> {
    if c.state == Requested && (c.step.final == Approved || c.step.final == Fulfilled) then
      var approved :- Moved(a, c.id, Approved);
      var counted := report.(advanced := report.advanced + 1);
      if c.step.final == Fulfilled then
        var fulfilled :- Moved(approved, c.id, Fulfilled);
        Ok((fulfilled, counted.(advanced := counted.advanced + 1)))
      else Ok((approved, counted))
    else if c.state == Approved && c.step.final == Fulfilled then
      var fulfilled :- Moved(a, c.id, Fulfilled);
      Ok((fulfilled, report.(advanced := report.advanced + 1)))
    else if c.state != c.step.final then Err(CannotReachPlan)
    else Ok((a, report))
  }

  function AdvancedAll(a: Account, report: Report, carried: seq<Carried>): Result<(Account, Report), Refusal>
    decreases |carried|
  {
    if carried == [] then Ok((a, report))
    else
      var (next, counted) :- Advanced(a, report, carried[0]);
      AdvancedAll(next, counted, carried[1..])
  }

  const NOTHING := Report(0, 0, 0, [])

  function Seeded(catalog: Catalog, a: Account, plan: seq<Step>): Result<(Account, Report), Refusal> {
    var w :- MatchedAll(catalog, a.rows, Work(a, NOTHING, []), plan);
    AdvancedAll(w.account, w.report, w.carried)
  }

  /** Every planned redemption is started first, while the whole balance is there, and only then advanced. */
  method SeedRedemptions(store: Rewards, plan: seq<Step>) returns (r: Result<Report, Refusal>)
    modifies store
    ensures match Seeded(store.catalog, old(store.State()), plan)
            case Err(e) => r == Err(e)
            case Ok((a, report)) => r == Ok(report) && store.State() == a
  {
    hide Matched, Advanced;
    var history := store.rows;
    var report, carried := NOTHING, [];
    ghost var whole := MatchedAll(store.catalog, history, Work(store.State(), NOTHING, []), plan);
    for i := 0 to |plan|
      invariant whole == MatchedAll(store.catalog, history, Work(store.State(), report, carried), plan[i..])
    {
      assert plan[i..][1..] == plan[i + 1..];
      var matched := MatchStep(store, history, report, carried, plan[i]);
      if matched.Err? {
        return Err(matched.error);
      }
      report, carried := matched.value.0, matched.value.1;
    }
    assert plan[|plan|..] == [];
    ghost var onward := AdvancedAll(store.State(), report, carried);
    for i := 0 to |carried|
      invariant onward == AdvancedAll(store.State(), report, carried[i..])
    {
      assert carried[i..][1..] == carried[i + 1..];
      var advanced := AdvanceRedemption(store, report, carried[i]);
      if advanced.Err? {
        return Err(advanced.error);
      }
      report := advanced.value;
    }
    assert carried[|carried|..] == [];
    return Ok(report);
  }

  method MatchStep(store: Rewards, history: seq<Row>, report: Report, carried: seq<Carried>, step: Step)
    returns (r: Result<(Report, seq<Carried>), Refusal>)
    modifies store`rows
    ensures match Matched(store.catalog, history, Work(old(store.State()), report, carried), step)
            case Err(e) => r == Err(e)
            case Ok(w) => store.State() == w.account && r == Ok((w.report, w.carried))
  {
    if step.item !in store.catalog {
      return Err(UnknownItem);
    }
    if HasState(history, step.item, step.final) {
      return Ok((report.(existing := report.existing + 1), carried));
    }
    var inFlight := InFlight(history, step.item);
    if inFlight.Some? {
      return Ok((report, carried + [Carried(step, inFlight.value, history[inFlight.value].state)]));
    }
    if HasAny(history, step.item) {
      return Ok((report.(closed := report.closed + [step.item]), carried));
    }
    var started := store.OpenRedemption(step.item);
    if started.Err? {
      return Err(started.error);
    }
    return Ok((report.(started := report.started + 1), carried + [Carried(step, started.value, Requested)]));
  }

  method AdvanceRedemption(store: Rewards, before: Report, c: Carried) returns (r: Result<Report, Refusal>)
    modifies store
    ensures match Advanced(old(store.State()), before, c)
            case Err(e) => r == Err(e)
            case Ok((a, report)) => r == Ok(report) && store.State() == a
  {
    var report, state := before, c.state;
    if state == Requested && (c.step.final == Approved || c.step.final == Fulfilled) {
      state :- store.TransitionRedemption(c.id, Approved);
      report := report.(advanced := report.advanced + 1);
    }
    if state == Approved && c.step.final == Fulfilled {
      state :- store.TransitionRedemption(c.id, Fulfilled);
      report := report.(advanced := report.advanced + 1);
    }
    if state != c.step.final {
      return Err(CannotReachPlan);
    }
    return Ok(report);
  }
}
