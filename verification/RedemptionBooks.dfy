/**
 * The points behind the redemptions: what is opened is within the balance, what is fulfilled is paid for once
 * at the price it was requested at, and when exactly a run of the seed is refused.
 */
module RedemptionBooks {
  import opened Outcomes
  import opened Redemptions
  import opened RedemptionRuns

  // ----- one move ------------------------------------------------------------------------------------------

  /** The five moves of the state machine. */
  const MOVES: set<(State, State)> := {
    (Requested, Approved), (Requested, Denied), (Requested, Expired), (Approved, Fulfilled), (Approved, Expired)
  }

  lemma MovedExactly(a: Account, id: nat, to: State)
    ensures Moved(a, id, to).Ok? <==>
            id < |a.rows| && (a.rows[id].state, to) in MOVES && (to == Fulfilled ==> Balance(a.ledger) >= a.rows[id].cost)
    ensures Moved(a, id, to).Ok? ==> OneMoved(a, Moved(a, id, to).value, id, to)
  {
    assert a.ledger + [] == a.ledger;
  }

  lemma OpenedExactly(catalog: Catalog, a: Account, item: string)
    ensures Opened(catalog, a, item).Ok? <==>
            item in catalog && catalog[item].listable && catalog[item].cost <= Balance(a.ledger)
    ensures Opened(catalog, a, item).Ok? ==>
              var (b, id) := Opened(catalog, a, item).value;
              && id < |b.rows| && b.rows[id].item == item && !Terminal(b.rows[id].state) && b.ledger == a.ledger
              && if exists i :: 0 <= i < |a.rows| && a.rows[i].item == item && !Terminal(a.rows[i].state)
                 then b.rows == a.rows
                 else b.rows == a.rows + [Row(item, catalog[item].cost, Requested)]
  {
    hide Balance;
  }

  // ----- the books -----------------------------------------------------------------------------------------

  /** What people gave and took back. */
  function Earned(ledger: seq<Entry>): int {
    if ledger == [] then 0
    else
      var last := ledger[|ledger| - 1];
      Earned(ledger[..|ledger| - 1])
      + match last
        case Credit(points) => points
        case Reversal(points) => 0 - points
        case Debit(_, _) => 0
  }

  /** The prices of the fulfilled rows. */
  function Spent(rows: seq<Row>): nat {
    if rows == [] then 0
    else
      var last := rows[|rows| - 1];
      Spent(rows[..|rows| - 1]) + if last.state == Fulfilled then last.cost else 0
  }

  /** The balance is what was earned less the prices of what was fulfilled. */
  ghost predicate Balanced(a: Account) {
    Balance(a.ledger) == Earned(a.ledger) - Spent(a.rows)
  }

  lemma OneMoreEntry(ledger: seq<Entry>, e: Entry)
    ensures Balance(ledger + [e]) == Balance(ledger) + Amount(e)
    ensures Earned(ledger + [e]) - Earned(ledger) == if e.Debit? then 0 else Amount(e)
  {
    assert (ledger + [e])[..|ledger|] == ledger;
  }

  lemma OneMoreRow(rows: seq<Row>, row: Row)
    ensures Spent(rows + [row]) == Spent(rows) + if row.state == Fulfilled then row.cost else 0
  {
    assert (rows + [row])[..|rows|] == rows;
  }

  lemma {:induction false} SpentAfterMove(rows: seq<Row>, id: nat, to: State)
    requires id < |rows| && !Terminal(rows[id].state)
    ensures Spent(rows[id := rows[id].(state := to)]) == Spent(rows) + if to == Fulfilled then rows[id].cost else 0
  {
    var n := |rows| - 1;
    var after := rows[id := rows[id].(state := to)];
    if id < n {
      assert after[..n] == rows[..n][id := rows[..n][id].(state := to)];
      SpentAfterMove(rows[..n], id, to);
    } else {
      assert after[..n] == rows[..n];
    }
  }

  lemma MoveKeepsBalanced(a: Account, b: Account, id: nat, to: State)
    requires Balanced(a) && OneMoved(a, b, id, to) && !Terminal(a.rows[id].state)
    ensures Balanced(b)
  {
    hide Balance, Earned, Spent;
    SpentAfterMove(a.rows, id, to);
    if to == Fulfilled {
      OneMoreEntry(a.ledger, Debit(id, a.rows[id].cost));
    } else {
      assert a.ledger + [] == a.ledger;
    }
  }

  lemma {:induction false} NewRowsSpendNothing(history: seq<Row>, rows: seq<Row>, done: seq<Step>)
    requires NewRows(history, rows, done)
    ensures Spent(rows) == Spent(history)
    decreases |rows|
  {
    hide HasAny;
    if |rows| == |history| {
      assert rows == history;
    } else {
      var n := |rows| - 1;
      assert rows[..n][..|history|] == history;
      NewRowsSpendNothing(history, rows[..n], done);
    }
  }

  lemma {:induction false} AdvancingKeepsBalanced(a: Account, report: Report, carried: seq<Carried>, done: seq<Step>)
    requires Balanced(a) && CarriedRows(a.rows, carried, done) && AdvancedAll(a, report, carried).Ok?
    ensures Balanced(AdvancedAll(a, report, carried).value.0)
    decreases |carried|
  {
    hide Balanced;
    if carried != [] {
      var c := carried[0];
      assert c in carried;
      AdvancedMovesOne(a, report, c);
      hide Advanced;
      var (next, counted) := Advanced(a, report, c).value;
      StillCarried(a, next, carried, done);
      MoveKeepsBalanced(a, next, c.id, c.step.final);
      AdvancingKeepsBalanced(next, counted, carried[1..], done);
    }
  }

  lemma RunKeepsBalanced(catalog: Catalog, a: Account, plan: seq<Step>)
    requires OneInFlight(a.rows) && DistinctItems(plan) && Balanced(a) && Seeded(catalog, a, plan).Ok?
    ensures Balanced(Seeded(catalog, a, plan).value.0)
  {
    hide OneInFlight, DistinctItems, Balance, Earned, Spent, MatchedAll, AdvancedAll, NewRows, CarriedRows, Settled;
    var start := Work(a, NOTHING, []);
    MatchesFromNothing(a);
    assert [] + plan == plan;
    MatchedAllKeeps(catalog, a.rows, a.ledger, [], start, plan);
    var w := MatchedAll(catalog, a.rows, start, plan).value;
    NewRowsSpendNothing(a.rows, w.account.rows, plan);
    AdvancingKeepsBalanced(w.account, w.report, w.carried, plan);
  }

  lemma ActKeepsBalanced(catalog: Catalog, plan: seq<Step>, a: Account, act: Action)
    requires OneInFlight(a.rows) && DistinctItems(plan) && Balanced(a)
    ensures Balanced(After(catalog, plan, a, act))
  {
    hide Seeded, Balance, Earned, Spent, OneInFlight, DistinctItems;
    match act
    case Seed =>
      if Seeded(catalog, a, plan).Ok? {
        RunKeepsBalanced(catalog, a, plan);
      }
    case Request(item) =>
      if Opened(catalog, a, item).Ok? {
        OpenedExactly(catalog, a, item);
        OneMoreRow(a.rows, Row(item, catalog[item].cost, Requested));
      }
    case Decide(id, to) =>
      if Moved(a, id, to).Ok? {
        MovedExactly(a, id, to);
        MoveKeepsBalanced(a, Moved(a, id, to).value, id, to);
      }
    case Earn(points) => OneMoreEntry(a.ledger, Credit(points));
    case Withdraw(points) => OneMoreEntry(a.ledger, Reversal(points));
  }

  function Reached(catalog: Catalog, plan: seq<Step>, a: Account, acts: seq<Action>): Account {
    if acts == [] then a else After(catalog, plan, Reached(catalog, plan, a, acts[..|acts| - 1]), acts[|acts| - 1])
  }

  lemma {:induction false} ReachedIsSound(catalog: Catalog, plan: seq<Step>, a: Account, acts: seq<Action>)
    requires Sound(a) && DistinctItems(plan)
    ensures Sound(Reached(catalog, plan, a, acts))
  {
    if acts != [] {
      hide After, Sound;
      ReachedIsSound(catalog, plan, a, acts[..|acts| - 1]);
      EveryActKeeps(catalog, plan, Reached(catalog, plan, a, acts[..|acts| - 1]), acts[|acts| - 1], "");
    }
  }

  /**
   * Over any sequence of runs, requests, decisions, credits and reversals the balance stays what was earned
   * less the prices, as they were when requested, of what was fulfilled: nothing is paid twice or for nothing.
   */
  lemma {:induction false} BooksBalance(catalog: Catalog, plan: seq<Step>, a: Account, acts: seq<Action>)
    requires Sound(a) && DistinctItems(plan) && Balanced(a)
    ensures Balanced(Reached(catalog, plan, a, acts))
  {
    if acts != [] {
      hide After, Balanced;
      BooksBalance(catalog, plan, a, acts[..|acts| - 1]);
      ReachedIsSound(catalog, plan, a, acts[..|acts| - 1]);
      ActKeepsBalanced(catalog, plan, Reached(catalog, plan, a, acts[..|acts| - 1]), acts[|acts| - 1]);
    }
  }

  // ----- what is opened is within the balance ---------------------------------------------------------------

  /** The row is new, at the listed price, and the balance covers that price. */
  ghost predicate WithinBalance(catalog: Catalog, ledger: seq<Entry>, row: Row) {
    && row.item in catalog && catalog[row.item].listable && row.cost == catalog[row.item].cost
    && row.cost <= Balance(ledger)
  }

  ghost predicate AllWithin(catalog: Catalog, ledger: seq<Entry>, rows: seq<Row>, from: nat) {
    forall i :: from <= i < |rows| ==> WithinBalance(catalog, ledger, rows[i])
  }

  lemma MatchedWithin(catalog: Catalog, history: seq<Row>, w: Work, step: Step, from: nat)
    requires AllWithin(catalog, w.account.ledger, w.account.rows, from) && Matched(catalog, history, w, step).Ok?
    ensures var next := Matched(catalog, history, w, step).value;
            next.account.ledger == w.account.ledger && AllWithin(catalog, next.account.ledger, next.account.rows, from)
  {
    hide Balance, HasAny, HasState;
    if !HasState(history, step.item, step.final) && InFlight(history, step.item) == None && !HasAny(history, step.item) {
      OpenedExactly(catalog, w.account, step.item);
      hide Opened, InFlight;
    }
  }

  lemma {:induction false} MatchingWithin(catalog: Catalog, history: seq<Row>, w: Work, plan: seq<Step>, from: nat)
    requires AllWithin(catalog, w.account.ledger, w.account.rows, from) && MatchedAll(catalog, history, w, plan).Ok?
    ensures var next := MatchedAll(catalog, history, w, plan).value;
            next.account.ledger == w.account.ledger && AllWithin(catalog, next.account.ledger, next.account.rows, from)
    decreases |plan|
  {
    if plan != [] {
      hide Matched, AllWithin;
      MatchedWithin(catalog, history, w, plan[0], from);
      MatchingWithin(catalog, history, Matched(catalog, history, w, plan[0]).value, plan[1..], from);
    }
  }

  lemma SeedOpensWithin(catalog: Catalog, a: Account, plan: seq<Step>)
    requires OneInFlight(a.rows) && DistinctItems(plan) && Seeded(catalog, a, plan).Ok?
    ensures AllWithin(catalog, a.ledger, Seeded(catalog, a, plan).value.0.rows, |a.rows|)
  {
    hide OneInFlight, DistinctItems, Balance, MatchedAll, AdvancedAll, NewRows, CarriedRows, Settled;
    var start := Work(a, NOTHING, []);
    MatchesFromNothing(a);
    assert [] + plan == plan;
    MatchedAllKeeps(catalog, a.rows, a.ledger, [], start, plan);
    MatchingWithin(catalog, a.rows, start, plan, |a.rows|);
    var w := MatchedAll(catalog, a.rows, start, plan).value;
    AdvancedAllMoves(w.account, w.report, w.carried, plan);
  }

  /**
   * Whatever happens, a redemption comes into being only for a listed and listable item whose price the
   * balance covers at that moment, and at that price.
   */
  lemma RowsAreOpenedWithinTheBalance(catalog: Catalog, plan: seq<Step>, a: Account, acts: seq<Action>, k: nat, i: nat)
    requires Sound(a) && DistinctItems(plan) && k < |acts|
    requires |Reached(catalog, plan, a, acts[..k]).rows| <= i < |Reached(catalog, plan, a, acts[..k + 1]).rows|
    ensures WithinBalance(catalog, Reached(catalog, plan, a, acts[..k]).ledger, Reached(catalog, plan, a, acts[..k + 1]).rows[i])
  {
    ReachedIsSound(catalog, plan, a, acts[..k]);
    assert acts[..k + 1][..k] == acts[..k];
    var before := Reached(catalog, plan, a, acts[..k]);
    assert Reached(catalog, plan, a, acts[..k + 1]) == After(catalog, plan, before, acts[k]);
    hide Reached, Seeded, Balance;
    match acts[k]
    case Seed => SeedOpensWithin(catalog, before, plan);
    case Request(item) => OpenedExactly(catalog, before, item);
    case _ =>
  }

  // ----- when a run is refused --------------------------------------------------------------------------------

  /** The in-flight row of an item has a way on to the planned state. */
  predicate Onward(state: State, final: State) {
    || state == final || (state == Requested && (final == Approved || final == Fulfilled))
    || (state == Approved && final == Fulfilled)
  }

  /** The planned step starts from a row of the history, or from one it opens. */
  predicate Starts(history: seq<Row>, step: Step) {
    !HasState(history, step.item, step.final) && (InFlight(history, step.item).Some? || !HasAny(history, step.item))
  }

  /** The state it starts in. */
  function StartState(history: seq<Row>, step: Step): State {
    match InFlight(history, step.item)
    case Some(id) => history[id].state
    case None => Requested
  }

  /** A step that opens a row needs its item listed, and its price within the balance. */
  predicate MayStart(catalog: Catalog, history: seq<Row>, ledger: seq<Entry>, step: Step) {
    && step.item in catalog
    && (Starts(history, step) && InFlight(history, step.item) == None ==>
          catalog[step.item].listable && catalog[step.item].cost <= Balance(ledger))
  }

  /** What a step needs of the catalog, the history and the balance before the run. */
  predicate StepFits(catalog: Catalog, a: Account, step: Step) {
    && MayStart(catalog, a.rows, a.ledger, step)
    && (Starts(a.rows, step) ==> Onward(StartState(a.rows, step), step.final))
  }

  /** What a step takes from the balance: a fulfilment, at the price of its row. */
  function Price(catalog: Catalog, history: seq<Row>, step: Step): nat
    requires step.item in catalog
  {
    if step.final != Fulfilled || !Starts(history, step) then 0
    else match InFlight(history, step.item)
      case Some(id) => history[id].cost
      case None => catalog[step.item].cost
  }

  function Due(catalog: Catalog, history: seq<Row>, plan: seq<Step>): nat
    requires forall step :: step in plan ==> step.item in catalog
  {
    if plan == [] then 0 else Price(catalog, history, plan[0]) + Due(catalog, history, plan[1..])
  }

  ghost predicate AllFit(catalog: Catalog, a: Account, plan: seq<Step>) {
    forall step :: step in plan ==> StepFits(catalog, a, step)
  }

  function CarriedDue(rows: seq<Row>, carried: seq<Carried>): nat {
    if carried == [] then 0
    else
      (if carried[0].step.final == Fulfilled && carried[0].id < |rows| then rows[carried[0].id].cost else 0)
      + CarriedDue(rows, carried[1..])
  }

  ghost predicate AnyFulfils(carried: seq<Carried>) {
    exists c :: c in carried && c.step.final == Fulfilled
  }

  ghost predicate AllOnward(carried: seq<Carried>) {
    forall c :: c in carried ==> Onward(c.state, c.step.final)
  }

  lemma AdvancedExactly(a: Account, report: Report, c: Carried)
    requires c.id < |a.rows| && a.rows[c.id].state == c.state && !Terminal(c.state)
    ensures Advanced(a, report, c).Ok? <==>
            Onward(c.state, c.step.final) && (c.step.final == Fulfilled ==> a.rows[c.id].cost <= Balance(a.ledger))
  {
    hide Balance;
  }

  lemma {:induction false} SameDue(rows: seq<Row>, after: seq<Row>, carried: seq<Carried>)
    requires |rows| <= |after| && forall i :: 0 <= i < |rows| ==> after[i].cost == rows[i].cost
    requires forall c :: c in carried ==> c.id < |rows|
    ensures CarriedDue(after, carried) == CarriedDue(rows, carried)
  {
    if carried != [] {
      SameDue(rows, after, carried[1..]);
    }
  }

  lemma {:induction false} NothingDue(rows: seq<Row>, carried: seq<Carried>)
    requires !AnyFulfils(carried)
    ensures CarriedDue(rows, carried) == 0
  {
    if carried != [] {
      assert carried[0] in carried && forall c :: c in carried[1..] ==> c in carried;
      NothingDue(rows, carried[1..]);
    }
  }

  lemma {:induction false} AdvancingExactly(a: Account, report: Report, carried: seq<Carried>, done: seq<Step>)
    requires CarriedRows(a.rows, carried, done)
    ensures AdvancedAll(a, report, carried).Ok? <==>
            AllOnward(carried) && (AnyFulfils(carried) ==> CarriedDue(a.rows, carried) <= Balance(a.ledger))
    decreases |carried|
  {
    hide Balance, Onward;
    if carried != [] {
      var c := carried[0];
      assert c in carried && forall x :: x in carried <==> x == c || x in carried[1..];
      AdvancedExactly(a, report, c);
      if Advanced(a, report, c).Ok? {
        AdvancedMovesOne(a, report, c);
        hide Advanced;
        var (next, counted) := Advanced(a, report, c).value;
        StillCarried(a, next, carried, done);
        SameDue(a.rows, next.rows, carried[1..]);
        OneMoreEntry(a.ledger, Debit(c.id, a.rows[c.id].cost));
        assert a.ledger + [] == a.ledger;
        AdvancingExactly(next, counted, carried[1..], done);
        if !AnyFulfils(carried[1..]) {
          NothingDue(a.rows, carried[1..]);
        }
      }
    }
  }

  // ----- from the plan to what it carries -----------------------------------------------------------------------

  lemma {:induction false} DueWithOneMore(rows: seq<Row>, carried: seq<Carried>, c: Carried)
    ensures CarriedDue(rows, carried + [c])
            == CarriedDue(rows, carried) + if c.step.final == Fulfilled && c.id < |rows| then rows[c.id].cost else 0
  {
    if carried == [] {
      assert carried + [c] == [c] && [c][1..] == [];
    } else {
      assert (carried + [c])[1..] == carried[1..] + [c];
      DueWithOneMore(rows, carried[1..], c);
    }
  }

  /** How one step is matched, told from the history and the balance. */
  lemma MatchedExactly(catalog: Catalog, history: seq<Row>, ledger: seq<Entry>, done: seq<Step>, w: Work, step: Step)
    requires Matching(history, ledger, done, w) && forall s :: s in done ==> s.item != step.item
    ensures Matched(catalog, history, w, step).Ok? <==> MayStart(catalog, history, ledger, step)
    ensures Matched(catalog, history, w, step).Ok? ==>
              var next := Matched(catalog, history, w, step).value;
              if !Starts(history, step) then next.carried == w.carried && next.account == w.account
              else exists c ::
                && next.carried == w.carried + [c] && c.step == step && c.state == StartState(history, step)
                && c.id < |next.account.rows| && |w.account.rows| <= |next.account.rows|
                && (forall i :: 0 <= i < |w.account.rows| ==> next.account.rows[i] == w.account.rows[i])
                && (step.final == Fulfilled ==> next.account.rows[c.id].cost == Price(catalog, history, step))
  {
    hide Balance, OneInFlight, CarriedRows, Settled;
    var rows := w.account.rows;
    if Matched(catalog, history, w, step).Ok? && Starts(history, step) {
      var next := Matched(catalog, history, w, step).value;
      match InFlight(history, step.item)
      case Some(id) =>
        assert rows[id] == rows[..|history|][id];
        assert next.carried == w.carried + [Carried(step, id, history[id].state)];
      case None =>
        assert forall i :: |history| <= i < |rows| ==> rows[i].item != step.item;
        assert forall i :: 0 <= i < |history| ==> rows[i] == rows[..|history|][i];
        assert InFlight(rows, step.item) == None;
        assert next.carried == w.carried + [Carried(step, |rows|, Requested)];
    }
  }

  ghost predicate PlanFulfils(history: seq<Row>, plan: seq<Step>) {
    exists step :: step in plan && step.final == Fulfilled && Starts(history, step)
  }

  ghost predicate AllMayStart(catalog: Catalog, history: seq<Row>, ledger: seq<Entry>, plan: seq<Step>) {
    forall step :: step in plan ==> MayStart(catalog, history, ledger, step)
  }

  ghost predicate AllGoOn(history: seq<Row>, plan: seq<Step>) {
    forall step :: step in plan && Starts(history, step) ==> Onward(StartState(history, step), step.final)
  }

  /** What the steps of the plan add to what is carried. */
  ghost predicate Adds(catalog: Catalog, history: seq<Row>, w: Work, next: Work, plan: seq<Step>)
    requires forall step :: step in plan ==> step.item in catalog
  {
    && (AllOnward(next.carried) <==> AllOnward(w.carried) && AllGoOn(history, plan))
    && (AnyFulfils(next.carried) <==> AnyFulfils(w.carried) || PlanFulfils(history, plan))
    && CarriedDue(next.account.rows, next.carried) == CarriedDue(w.account.rows, w.carried) + Due(catalog, history, plan)
  }

  lemma OneMoreCarried(rows: seq<Row>, after: seq<Row>, carried: seq<Carried>, c: Carried, price: nat)
    requires |rows| <= |after| && forall i :: 0 <= i < |rows| ==> after[i] == rows[i]
    requires forall x :: x in carried ==> x.id < |rows|
    requires c.id < |after| && (c.step.final == Fulfilled ==> after[c.id].cost == price)
    ensures AllOnward(carried + [c]) <==> AllOnward(carried) && Onward(c.state, c.step.final)
    ensures AnyFulfils(carried + [c]) <==> AnyFulfils(carried) || c.step.final == Fulfilled
    ensures CarriedDue(after, carried + [c])
            == CarriedDue(rows, carried) + if c.step.final == Fulfilled then price else 0
  {
    hide Onward;
    SameDue(rows, after, carried);
    DueWithOneMore(after, carried, c);
    hide CarriedDue;
    assert forall x :: x in carried + [c] <==> x in carried || x == c;
  }

  lemma PlanOfOne(catalog: Catalog, history: seq<Row>, step: Step)
    requires step.item in catalog
    ensures Due(catalog, history, [step]) == Price(catalog, history, step)
    ensures AllGoOn(history, [step]) <==> Starts(history, step) ==> Onward(StartState(history, step), step.final)
    ensures PlanFulfils(history, [step]) <==> step.final == Fulfilled && Starts(history, step)
    ensures step.final != Fulfilled || !Starts(history, step) ==> Price(catalog, history, step) == 0
  {
    hide Starts, Onward, StartState;
    assert [step][1..] == [] && step in [step];
  }

  lemma OneStepAdds(catalog: Catalog, history: seq<Row>, ledger: seq<Entry>, done: seq<Step>, w: Work, step: Step)
    requires Matching(history, ledger, done, w) && forall s :: s in done ==> s.item != step.item
    requires Matched(catalog, history, w, step).Ok?
    ensures step.item in catalog && Adds(catalog, history, w, Matched(catalog, history, w, step).value, [step])
  {
    MatchedExactly(catalog, history, ledger, done, w, step);
    assert forall c :: c in w.carried ==> c.id < |w.account.rows|;
    assert step.item in catalog;
    PlanOfOne(catalog, history, step);
    hide Matching, Matched, Starts, Onward, StartState, Balance, Price, MayStart;
    hide AllOnward, AnyFulfils, CarriedDue, AllGoOn, PlanFulfils, Due;
    var next := Matched(catalog, history, w, step).value;
    if Starts(history, step) {
      var c :| next.carried == w.carried + [c] && c.step == step && c.state == StartState(history, step)
        && c.id < |next.account.rows| && (step.final == Fulfilled ==> next.account.rows[c.id].cost == Price(catalog, history, step));
      OneMoreCarried(w.account.rows, next.account.rows, w.carried, c, Price(catalog, history, step));
    }
  }

  lemma AddsInTurn(catalog: Catalog, history: seq<Row>, w: Work, next: Work, last: Work, plan: seq<Step>)
    requires plan != [] && forall step :: step in plan ==> step.item in catalog
    requires plan[0] in plan && Adds(catalog, history, w, next, [plan[0]]) && Adds(catalog, history, next, last, plan[1..])
    ensures Adds(catalog, history, w, last, plan)
  {
    hide Starts, Onward, StartState, Price, AllOnward, AnyFulfils, CarriedDue;
    assert [plan[0]][1..] == [] && Due(catalog, history, [plan[0]]) == Price(catalog, history, plan[0]);
    assert forall step :: step in plan <==> step in [plan[0]] || step in plan[1..];
  }

  lemma {:induction false} MatchingExactly(
    catalog: Catalog, history: seq<Row>, ledger: seq<Entry>, done: seq<Step>, w: Work, plan: seq<Step>)
    requires Matching(history, ledger, done, w) && DistinctItems(done + plan)
    ensures MatchedAll(catalog, history, w, plan).Ok? <==> AllMayStart(catalog, history, ledger, plan)
    ensures MatchedAll(catalog, history, w, plan).Ok? ==>
              (forall step :: step in plan ==> step.item in catalog)
              && Adds(catalog, history, w, MatchedAll(catalog, history, w, plan).value, plan)
    decreases |plan|
  {
    hide Matching, Matched, MayStart, Adds;
    if plan == [] {
      NothingAdds(catalog, history, w);
    } else {
      var step := plan[0];
      assert forall s :: s in plan <==> s == step || s in plan[1..];
      StepIsNew(done, plan);
      MatchedExactly(catalog, history, ledger, done, w, step);
      if Matched(catalog, history, w, step).Ok? {
        var next := Matched(catalog, history, w, step).value;
        MatchedKeeps(catalog, history, ledger, done, w, step);
        OneStepAdds(catalog, history, ledger, done, w, step);
        assert done + [step] + plan[1..] == done + plan;
        MatchingExactly(catalog, history, ledger, done + [step], next, plan[1..]);
        if MatchedAll(catalog, history, next, plan[1..]).Ok? {
          AddsInTurn(catalog, history, w, next, MatchedAll(catalog, history, next, plan[1..]).value, plan);
        }
      }
    }
  }

  lemma NothingAdds(catalog: Catalog, history: seq<Row>, w: Work)
    ensures Adds(catalog, history, w, w, [])
  {
  }

  lemma StepIsNew(done: seq<Step>, plan: seq<Step>)
    requires DistinctItems(done + plan) && plan != []
    ensures forall s :: s in done ==> s.item != plan[0].item
  {
    assert (done + plan)[|done|] == plan[0];
    forall s | s in done
      ensures s.item != plan[0].item
    {
      var i :| 0 <= i < |done| && done[i] == s;
      assert (done + plan)[i] == s;
    }
  }

  /**
   * From any history with at most one in-flight row per item, a run passes exactly when every step fits (its
   * item is known, what it opens is listed and within the balance, its row has a way on) and the balance
   * covers all that the plan fulfils.
   */
  lemma RunPassesExactlyWhen(catalog: Catalog, a: Account, plan: seq<Step>)
    requires OneInFlight(a.rows) && DistinctItems(plan)
    ensures Seeded(catalog, a, plan).Ok? <==>
            AllFit(catalog, a, plan) && (PlanFulfils(a.rows, plan) ==> Due(catalog, a.rows, plan) <= Balance(a.ledger))
  {
    hide OneInFlight, DistinctItems, Balance, MatchedAll, AdvancedAll, Starts, MayStart, Onward, StartState, Due;
    var start := Work(a, NOTHING, []);
    MatchesFromNothing(a);
    assert [] + plan == plan;
    MatchingExactly(catalog, a.rows, a.ledger, [], start, plan);
    assert AllFit(catalog, a, plan) <==> AllMayStart(catalog, a.rows, a.ledger, plan) && AllGoOn(a.rows, plan);
    if MatchedAll(catalog, a.rows, start, plan).Ok? {
      MatchedAllKeeps(catalog, a.rows, a.ledger, [], start, plan);
      hide NewRows, CarriedRows, Settled;
      var w := MatchedAll(catalog, a.rows, start, plan).value;
      AdvancingExactly(w.account, w.report, w.carried, plan);
      NothingDue(a.rows, []);
    }
  }

  /** So a history without a row for a planned item is refused whenever the balance is below its price. */
  lemma ThinBalanceIsRefused(catalog: Catalog, a: Account, plan: seq<Step>, step: Step)
    requires OneInFlight(a.rows) && DistinctItems(plan) && step in plan && step.item in catalog
    requires forall i :: 0 <= i < |a.rows| ==> a.rows[i].item != step.item
    requires Balance(a.ledger) < catalog[step.item].cost
    ensures Seeded(catalog, a, plan).Err?
  {
    RunPassesExactlyWhen(catalog, a, plan);
    hide Seeded, Balance, OneInFlight, DistinctItems, Due;
    assert !HasAny(a.rows, step.item) && !HasState(a.rows, step.item, step.final);
    assert InFlight(a.rows, step.item) == None;
  }

  // ----- what a run reports ------------------------------------------------------------------------------------

  /** The moves between two states on the way to fulfilment. */
  function Hops(state: State, final: State): nat {
    if state == Requested && final == Approved then 1
    else if state == Requested && final == Fulfilled then 2
    else if state == Approved && final == Fulfilled then 1
    else 0
  }

  /** What each step contributes to the report, told from the history. */
  function Counted(history: seq<Row>, plan: seq<Step>): Report {
    if plan == [] then NOTHING
    else
      var rest, step := Counted(history, plan[1..]), plan[0];
      if HasState(history, step.item, step.final) then rest.(existing := rest.existing + 1)
      else if !Starts(history, step) then rest.(closed := [step.item] + rest.closed)
      else
        rest.(started := rest.started + (if HasAny(history, step.item) then 0 else 1),
              advanced := rest.advanced + Hops(StartState(history, step), step.final))
  }

  function CarriedHops(carried: seq<Carried>): nat {
    if carried == [] then 0 else Hops(carried[0].state, carried[0].step.final) + CarriedHops(carried[1..])
  }

  lemma {:induction false} HopsWithOneMore(carried: seq<Carried>, c: Carried)
    ensures CarriedHops(carried + [c]) == CarriedHops(carried) + Hops(c.state, c.step.final)
  {
    hide Hops;
    if carried == [] {
      assert carried + [c] == [c] && [c][1..] == [];
    } else {
      assert (carried + [c])[1..] == carried[1..] + [c];
      HopsWithOneMore(carried[1..], c);
    }
  }

  ghost predicate Reports(history: seq<Row>, w: Work, next: Work, plan: seq<Step>) {
    var counted := Counted(history, plan);
    && next.report.started == w.report.started + counted.started
    && next.report.existing == w.report.existing + counted.existing
    && next.report.closed == w.report.closed + counted.closed
    && next.report.advanced == w.report.advanced
    && CarriedHops(next.carried) == CarriedHops(w.carried) + counted.advanced
  }

  lemma StepReports(catalog: Catalog, history: seq<Row>, ledger: seq<Entry>, done: seq<Step>, w: Work, step: Step)
    requires Matching(history, ledger, done, w) && forall s :: s in done ==> s.item != step.item
    requires Matched(catalog, history, w, step).Ok?
    ensures Reports(history, w, Matched(catalog, history, w, step).value, [step])
  {
    MatchedExactly(catalog, history, ledger, done, w, step);
    hide Matching, Opened, CarriedHops, Hops, StartState, MayStart, Price, Balance;
    var next := Matched(catalog, history, w, step).value;
    assert [step][1..] == [] && Counted(history, []) == NOTHING;
    assert w.report.closed + [] == w.report.closed;
    if Starts(history, step) {
      var c :| next.carried == w.carried + [c] && c.step == step && c.state == StartState(history, step);
      HopsWithOneMore(w.carried, c);
    }
  }

  lemma ReportsInTurn(history: seq<Row>, w: Work, next: Work, last: Work, plan: seq<Step>)
    requires plan != [] && Reports(history, w, next, [plan[0]]) && Reports(history, next, last, plan[1..])
    ensures Reports(history, w, last, plan)
  {
    hide Starts, StartState, Hops, HasAny, HasState, CarriedHops;
    assert [plan[0]][1..] == [] && Counted(history, []) == NOTHING;
    var one, rest := Counted(history, [plan[0]]), Counted(history, plan[1..]);
    assert w.report.closed + one.closed + rest.closed == w.report.closed + (one.closed + rest.closed);
  }

  lemma {:induction false} MatchingReports(
    catalog: Catalog, history: seq<Row>, ledger: seq<Entry>, done: seq<Step>, w: Work, plan: seq<Step>)
    requires Matching(history, ledger, done, w) && DistinctItems(done + plan)
    requires MatchedAll(catalog, history, w, plan).Ok?
    ensures Reports(history, w, MatchedAll(catalog, history, w, plan).value, plan)
    decreases |plan|
  {
    hide Matching, Matched;
    if plan == [] {
      assert w.report.closed + [] == w.report.closed;
    } else {
      hide Reports;
      var step := plan[0];
      StepIsNew(done, plan);
      var next := Matched(catalog, history, w, step).value;
      MatchedKeeps(catalog, history, ledger, done, w, step);
      StepReports(catalog, history, ledger, done, w, step);
      assert done + [step] + plan[1..] == done + plan;
      MatchingReports(catalog, history, ledger, done + [step], next, plan[1..]);
      ReportsInTurn(history, w, next, MatchedAll(catalog, history, next, plan[1..]).value, plan);
    }
  }

  lemma {:induction false} AdvancingReports(a: Account, report: Report, carried: seq<Carried>)
    requires AdvancedAll(a, report, carried).Ok?
    ensures AdvancedAll(a, report, carried).value.1 == report.(advanced := report.advanced + CarriedHops(carried))
    decreases |carried|
  {
    if carried != [] {
      var c := carried[0];
      assert Advanced(a, report, c).value.1 == report.(advanced := report.advanced + Hops(c.state, c.step.final)) by {
        hide Moved;
      }
      hide Advanced, Hops;
      var (next, counted) := Advanced(a, report, c).value;
      AdvancingReports(next, counted, carried[1..]);
    }
  }

  /** A run reports what it did: the steps found there, opened, closed otherwise, and the moves made. */
  lemma RunReportsWhatItDid(catalog: Catalog, a: Account, plan: seq<Step>)
    requires OneInFlight(a.rows) && DistinctItems(plan) && Seeded(catalog, a, plan).Ok?
    ensures Seeded(catalog, a, plan).value.1 == Counted(a.rows, plan)
  {
    hide OneInFlight, DistinctItems, MatchedAll, AdvancedAll, Counted;
    var start := Work(a, NOTHING, []);
    MatchesFromNothing(a);
    assert [] + plan == plan;
    MatchingReports(catalog, a.rows, a.ledger, [], start, plan);
    var w := MatchedAll(catalog, a.rows, start, plan).value;
    AdvancingReports(w.account, w.report, w.carried);
    assert [] + Counted(a.rows, plan).closed == Counted(a.rows, plan).closed;
  }
}
