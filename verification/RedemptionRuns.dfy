/** What a run of the redemption seed achieves, and what any number of runs among other people's acts keeps. */
module RedemptionRuns {
  import opened Outcomes
  import opened Redemptions

  /** The partial unique index: at most one in-flight redemption per item. */
  ghost predicate OneInFlight(rows: seq<Row>) {
    forall i, j :: 0 <= i < j < |rows| && rows[i].item == rows[j].item ==>
      Terminal(rows[i].state) || Terminal(rows[j].state)
  }

  ghost predicate DistinctItems(plan: seq<Step>) {
    forall i, j :: 0 <= i < j < |plan| ==> plan[i].item != plan[j].item
  }

  /** The planned row is there, or the history closed some other way and is left alone. */
  predicate Settled(rows: seq<Row>, step: Step) {
    || HasState(rows, step.item, step.final)
    || (HasAny(rows, step.item) && forall i :: 0 <= i < |rows| && rows[i].item == step.item ==> Terminal(rows[i].state))
  }

  // ----- matching the history ------------------------------------------------------------------

  ghost predicate NewRows(history: seq<Row>, rows: seq<Row>, done: seq<Step>) {
    && |history| <= |rows| && rows[..|history|] == history
    && forall i :: |history| <= i < |rows| ==>
         && rows[i].state == Requested && !HasAny(history, rows[i].item)
         && exists step :: step in done && step.item == rows[i].item
  }

  ghost predicate CarriedRows(rows: seq<Row>, carried: seq<Carried>, done: seq<Step>) {
    && (forall c :: c in carried ==>
          && c.step in done && c.id < |rows| && rows[c.id].item == c.step.item
          && rows[c.id].state == c.state && !Terminal(c.state))
    && forall i, j :: 0 <= i < j < |carried| ==> carried[i].step.item != carried[j].step.item
  }

  /** What holds once the steps in `done` have been matched. */
  ghost predicate Matching(history: seq<Row>, ledger: seq<Entry>, done: seq<Step>, w: Work) {
    && NewRows(history, w.account.rows, done)
    && w.account.ledger == ledger
    && OneInFlight(w.account.rows)
    && CarriedRows(w.account.rows, w.carried, done)
    && w.report.advanced == 0
    && forall step :: step in done ==> Settled(history, step) || exists c :: c in w.carried && c.step == step
  }

  lemma RequestOne(history: seq<Row>, rows: seq<Row>, carried: seq<Carried>, done: seq<Step>, step: Step, cost: nat)
    requires NewRows(history, rows, done) && OneInFlight(rows) && CarriedRows(rows, carried, done)
    requires InFlight(rows, step.item) == None && !HasAny(history, step.item)
    ensures var more := rows + [Row(step.item, cost, Requested)];
            NewRows(history, more, done + [step]) && OneInFlight(more) && CarriedRows(more, carried, done)
  {
    hide HasAny;
    var more := rows + [Row(step.item, cost, Requested)];
    assert more[..|history|] == rows[..|history|];
    forall i | |history| <= i < |more|
      ensures more[i].state == Requested && !HasAny(history, more[i].item)
      ensures exists s :: s in done + [step] && s.item == more[i].item
    {
      if i == |rows| {
        assert step in done + [step];
      } else {
        var s :| s in done && s.item == rows[i].item;
        assert s in done + [step];
      }
    }
  }

  lemma CarryOne(rows: seq<Row>, carried: seq<Carried>, done: seq<Step>, c: Carried)
    requires CarriedRows(rows, carried, done)
    requires forall s :: s in done ==> s.item != c.step.item
    requires c.id < |rows| && rows[c.id].item == c.step.item && rows[c.id].state == c.state && !Terminal(c.state)
    ensures CarriedRows(rows, carried + [c], done + [c.step])
  {
    forall i | 0 <= i < |carried|
      ensures carried[i].step.item != c.step.item
    {
      assert carried[i] in carried;
    }
  }

  /** The three ways a step is matched: settled already, in flight, or requested now. */
  lemma MatchedCases(catalog: Catalog, history: seq<Row>, ledger: seq<Entry>, done: seq<Step>, w: Work, step: Step)
    returns (next: Work, carrying: Option<Carried>)
    requires Matching(history, ledger, done, w)
    requires forall s :: s in done ==> s.item != step.item
    requires Matched(catalog, history, w, step).Ok?
    ensures step.item in catalog && next == Matched(catalog, history, w, step).value
    ensures next.account.ledger == ledger && next.report.advanced == 0
    ensures NewRows(history, next.account.rows, done + [step]) && OneInFlight(next.account.rows)
    ensures CarriedRows(next.account.rows, w.carried, done)
    ensures match carrying
            case None => next.carried == w.carried && Settled(history, step)
            case Some(c) =>
              && next.carried == w.carried + [c] && c.step == step && c.id < |next.account.rows|
              && next.account.rows[c.id].item == step.item && next.account.rows[c.id].state == c.state
              && !Terminal(c.state)
  {
    hide OneInFlight, CarriedRows, Balance;
    next := Matched(catalog, history, w, step).value;
    carrying := None;
    var rows := w.account.rows;
    assert NewRows(history, rows, done + [step]);
    if !HasState(history, step.item, step.final) {
      var inFlight := InFlight(history, step.item);
      if inFlight.Some? {
        assert rows[inFlight.value] == rows[..|history|][inFlight.value];
        carrying := Some(Carried(step, inFlight.value, history[inFlight.value].state));
      } else if !HasAny(history, step.item) {
        assert InFlight(rows, step.item) == None;
        RequestOne(history, rows, w.carried, done, step, catalog[step.item].cost);
        carrying := Some(Carried(step, |rows|, Requested));
      }
    }
  }

  lemma MatchedKeeps(catalog: Catalog, history: seq<Row>, ledger: seq<Entry>, done: seq<Step>, w: Work, step: Step)
    requires Matching(history, ledger, done, w)
    requires forall s :: s in done ==> s.item != step.item
    requires Matched(catalog, history, w, step).Ok?
    ensures Matching(history, ledger, done + [step], Matched(catalog, history, w, step).value)
    ensures step.item in catalog
  {
    hide Matched, NewRows, Settled, OneInFlight;
    var next, carrying := MatchedCases(catalog, history, ledger, done, w, step);
    if carrying.Some? {
      CarryOne(next.account.rows, w.carried, done, carrying.value);
      assert carrying.value in next.carried;
    } else {
      assert CarriedRows(next.account.rows, w.carried, done + [step]);
    }
    forall s | s in done
      ensures Settled(history, s) || exists c :: c in next.carried && c.step == s
    {
      if !Settled(history, s) {
        var c :| c in w.carried && c.step == s;
        assert c in next.carried;
      }
    }
  }

  lemma {:induction false} MatchedAllKeeps(
    catalog: Catalog, history: seq<Row>, ledger: seq<Entry>, done: seq<Step>, w: Work, plan: seq<Step>)
    requires Matching(history, ledger, done, w) && DistinctItems(done + plan)
    requires MatchedAll(catalog, history, w, plan).Ok?
    ensures Matching(history, ledger, done + plan, MatchedAll(catalog, history, w, plan).value)
    ensures forall step :: step in plan ==> step.item in catalog
    decreases |plan|
  {
    hide Matching, Matched;
    if plan == [] {
      assert done + plan == done;
    } else {
      var step := plan[0];
      assert (done + plan)[|done|] == step;
      assert forall s :: s in done ==> s.item != step.item by {
        forall s | s in done
          ensures s.item != step.item
        {
          var i :| 0 <= i < |done| && done[i] == s;
          assert (done + plan)[i] == s;
        }
      }
      MatchedKeeps(catalog, history, ledger, done, w, step);
      assert done + [step] + plan[1..] == done + plan;
      MatchedAllKeeps(catalog, history, ledger, done + [step], Matched(catalog, history, w, step).value, plan[1..]);
    }
  }

  // ----- advancing what was carried ---------------------------------------------------------------

  /** The second account is the first with one redemption moved to a state, and its debit if that fulfils it. */
  ghost predicate OneMoved(a: Account, b: Account, id: nat, to: State) {
    && id < |a.rows| && b.rows == a.rows[id := a.rows[id].(state := to)]
    && b.ledger == a.ledger + if to == Fulfilled then [Debit(id, a.rows[id].cost)] else []
  }

  lemma AdvancedMovesOne(a: Account, report: Report, c: Carried)
    requires c.id < |a.rows| && a.rows[c.id].state == c.state && !Terminal(c.state)
    requires Advanced(a, report, c).Ok?
    ensures OneMoved(a, Advanced(a, report, c).value.0, c.id, c.step.final)
  {
    var b := Advanced(a, report, c).value.0;
    assert a.ledger + [] == a.ledger;
    if c.state == Requested && c.step.final == Fulfilled {
      var approved := Moved(a, c.id, Approved).value;
      assert b.rows == a.rows[c.id := a.rows[c.id].(state := Fulfilled)];
    } else if c.state == c.step.final {
      assert b.rows == a.rows[c.id := a.rows[c.id].(state := c.step.final)];
    }
  }

  /** How the rows stand after the carried ones reached their planned states. */
  ghost predicate AllMoved(before: seq<Row>, after: seq<Row>, carried: seq<Carried>) {
    && |after| == |before|
    && (forall i :: 0 <= i < |before| ==> after[i].item == before[i].item && after[i].cost == before[i].cost)
    && (forall i :: 0 <= i < |before| && (forall c :: c in carried ==> c.id != i) ==> after[i] == before[i])
    && forall c :: c in carried ==> c.id < |after| && after[c.id].state == c.step.final
  }

  lemma {:induction false} AdvancedAllMoves(a: Account, report: Report, carried: seq<Carried>, done: seq<Step>)
    requires CarriedRows(a.rows, carried, done)
    requires AdvancedAll(a, report, carried).Ok?
    ensures AllMoved(a.rows, AdvancedAll(a, report, carried).value.0.rows, carried)
    decreases |carried|
  {
    if carried != [] {
      var c := carried[0];
      AdvancedMovesOne(a, report, c);
      hide Advanced;
      var (next, counted) := Advanced(a, report, c).value;
      StillCarried(a, next, carried, done);
      AdvancedAllMoves(next, counted, carried[1..], done);
      var after := AdvancedAll(a, report, carried).value.0.rows;
      assert forall x :: x in carried <==> x == c || x in carried[1..];
      assert forall x :: x in carried[1..] ==> x.id != c.id;
      assert after[c.id] == next.rows[c.id];
    }
  }

  lemma StillCarried(a: Account, next: Account, carried: seq<Carried>, done: seq<Step>)
    requires carried != [] && CarriedRows(a.rows, carried, done)
    requires OneMoved(a, next, carried[0].id, carried[0].step.final)
    ensures CarriedRows(next.rows, carried[1..], done)
    ensures forall x :: x in carried[1..] ==> x.id != carried[0].id
  {
    forall x | x in carried[1..]
      ensures x in carried && x.id != carried[0].id
    {
      var i :| 0 <= i < |carried[1..]| && carried[1..][i] == x;
      assert carried[i + 1] == x && carried[0].step.item != x.step.item;
      assert a.rows[carried[0].id].item == carried[0].step.item by {
        assert carried[0] in carried;
      }
    }
  }

  // ----- one run --------------------------------------------------------------------------------------

  /** Rows are never removed, repriced or reopened; rows of other items are not touched at all. */
  ghost predicate HistoryKept(before: seq<Row>, after: seq<Row>, plan: seq<Step>) {
    && |before| <= |after|
    && forall i :: 0 <= i < |before| ==>
         && after[i].item == before[i].item && after[i].cost == before[i].cost
         && (Terminal(before[i].state) ==> after[i] == before[i])
         && ((forall step :: step in plan ==> step.item != before[i].item) ==> after[i] == before[i])
  }

  lemma MatchesFromNothing(a: Account)
    requires OneInFlight(a.rows)
    ensures Matching(a.rows, a.ledger, [], Work(a, NOTHING, []))
  {
    assert a.rows[..|a.rows|] == a.rows;
  }

  /**
   * From any history with at most one in-flight row per item, a run that is not refused leaves
   * every planned item settled, keeps the history, and keeps the index satisfied.
   */
  lemma RunSettlesThePlan(catalog: Catalog, a: Account, plan: seq<Step>)
    requires OneInFlight(a.rows) && DistinctItems(plan) && Seeded(catalog, a, plan).Ok?
    ensures var b := Seeded(catalog, a, plan).value.0;
            && OneInFlight(b.rows) && HistoryKept(a.rows, b.rows, plan)
            && forall step :: step in plan ==> step.item in catalog && Settled(b.rows, step)
  {
    var start := Work(a, NOTHING, []);
    MatchesFromNothing(a);
    assert [] + plan == plan;
    MatchedAllKeeps(catalog, a.rows, a.ledger, [], start, plan);
    var w := MatchedAll(catalog, a.rows, start, plan).value;
    AdvancedAllMoves(w.account, w.report, w.carried, plan);
    var b := Seeded(catalog, a, plan).value.0;
    hide MatchedAll, AdvancedAll;
    MovedRowsStayUnique(w.account.rows, b.rows, w.carried, plan);
    MovedRowsKeepHistory(a.rows, w.account.rows, b.rows, w.carried, plan);
    forall step | step in plan
      ensures Settled(b.rows, step)
    {
      PlannedItemSettles(a.rows, w.account.rows, b.rows, w.carried, plan, step);
    }
  }

  lemma MovedRowsStayUnique(rows: seq<Row>, after: seq<Row>, carried: seq<Carried>, plan: seq<Step>)
    requires OneInFlight(rows) && CarriedRows(rows, carried, plan) && AllMoved(rows, after, carried)
    ensures OneInFlight(after)
  {
    forall i | 0 <= i < |rows| && !Terminal(after[i].state)
      ensures !Terminal(rows[i].state)
    {
      if c :| c in carried && c.id == i {
        assert rows[c.id].state == c.state;
      }
    }
  }

  lemma MovedRowsKeepHistory(
    history: seq<Row>, rows: seq<Row>, after: seq<Row>, carried: seq<Carried>, plan: seq<Step>)
    requires NewRows(history, rows, plan) && CarriedRows(rows, carried, plan) && AllMoved(rows, after, carried)
    ensures HistoryKept(history, after, plan)
  {
    forall i | 0 <= i < |history|
      ensures after[i].item == history[i].item && after[i].cost == history[i].cost
      ensures Terminal(history[i].state) ==> after[i] == history[i]
      ensures (forall step :: step in plan ==> step.item != history[i].item) ==> after[i] == history[i]
    {
      assert rows[i] == rows[..|history|][i] == history[i];
      if c :| c in carried && c.id == i {
        assert rows[c.id].state == c.state && c.step in plan && c.step.item == history[i].item;
      }
    }
  }

  lemma PlannedItemSettles(
    history: seq<Row>, rows: seq<Row>, after: seq<Row>, carried: seq<Carried>, plan: seq<Step>, step: Step)
    requires NewRows(history, rows, plan) && CarriedRows(rows, carried, plan) && AllMoved(rows, after, carried)
    requires DistinctItems(plan) && step in plan
    requires Settled(history, step) || exists c :: c in carried && c.step == step
    ensures Settled(after, step)
  {
    if c :| c in carried && c.step == step {
      assert after[c.id].item == step.item && after[c.id].state == step.final;
    } else {
      assert HasAny(history, step.item);
      forall c | c in carried
        ensures c.step.item != step.item
      {
        var i, j :| 0 <= i < |plan| && plan[i] == step && 0 <= j < |plan| && plan[j] == c.step;
      }
      forall i | 0 <= i < |after| && after[i].item == step.item
        ensures i < |history| && after[i] == history[i]
      {
        assert forall c :: c in carried ==> c.id != i;
        assert i < |history| ==> rows[i] == rows[..|history|][i];
      }
      var k :| 0 <= k < |history| && history[k].item == step.item
               && (HasState(history, step.item, step.final) ==> history[k].state == step.final);
      assert rows[k] == rows[..|history|][k] && after[k].item == step.item;
    }
  }

  lemma {:induction false} NothingLeftToMatch(catalog: Catalog, history: seq<Row>, w: Work, plan: seq<Step>)
    requires forall step :: step in plan ==> step.item in catalog && Settled(history, step)
    ensures MatchedAll(catalog, history, w, plan).Ok?
    ensures var next := MatchedAll(catalog, history, w, plan).value;
            && next.account == w.account && next.carried == w.carried
            && next.report.started == w.report.started && next.report.advanced == w.report.advanced
    decreases |plan|
  {
    if plan != [] {
      var step := plan[0];
      assert step in plan;
      if !HasState(history, step.item, step.final) {
        assert InFlight(history, step.item) == None;
      }
      NothingLeftToMatch(catalog, history, Matched(catalog, history, w, step).value, plan[1..]);
    }
  }

  /** A second run opens and advances nothing, and is not refused. */
  lemma SecondRunChangesNothing(catalog: Catalog, a: Account, plan: seq<Step>)
    requires OneInFlight(a.rows) && DistinctItems(plan) && Seeded(catalog, a, plan).Ok?
    ensures var b := Seeded(catalog, a, plan).value.0;
            && Seeded(catalog, b, plan).Ok? && Seeded(catalog, b, plan).value.0 == b
            && Seeded(catalog, b, plan).value.1.started == 0 && Seeded(catalog, b, plan).value.1.advanced == 0
  {
    RunSettlesThePlan(catalog, a, plan);
    var b := Seeded(catalog, a, plan).value.0;
    hide MatchedAll;
    NothingLeftToMatch(catalog, b.rows, Work(b, NOTHING, []), plan);
  }

  // ----- any number of runs among other acts -------------------------------------------------------------

  /** The seed, and what else moves the same account: requests, decisions, credits and reversals. */
  datatype Action = Seed | Request(item: string) | Decide(id: nat, to: State) | Earn(points: nat) | Withdraw(points: nat)

  /** A refused act is rolled back. */
  function After(catalog: Catalog, plan: seq<Step>, a: Account, act: Action): Account {
    match act
    case Seed => if Seeded(catalog, a, plan).Ok? then Seeded(catalog, a, plan).value.0 else a
    case Request(item) => if Opened(catalog, a, item).Ok? then Opened(catalog, a, item).value.0 else a
    case Decide(id, to) => if Moved(a, id, to).Ok? then Moved(a, id, to).value else a
    case Earn(points) => a.(ledger := a.ledger + [Credit(points)])
    case Withdraw(points) => a.(ledger := a.ledger + [Reversal(points)])
  }

  /** How often the ledger paid for an item. */
  function Debits(ledger: seq<Entry>, rows: seq<Row>, item: string): nat {
    if ledger == [] then 0
    else
      var last := ledger[|ledger| - 1];
      Debits(ledger[..|ledger| - 1], rows, item)
      + if last.Debit? && last.row < |rows| && rows[last.row].item == item then 1 else 0
  }

  /** The index holds and every debit names a row. */
  ghost predicate Sound(a: Account) {
    OneInFlight(a.rows) && forall i :: 0 <= i < |a.ledger| && a.ledger[i].Debit? ==> a.ledger[i].row < |a.rows|
  }

  lemma {:induction false} DebitsOfSameItems(ledger: seq<Entry>, rows: seq<Row>, after: seq<Row>, item: string)
    requires forall i :: 0 <= i < |ledger| && ledger[i].Debit? ==> ledger[i].row < |rows|
    requires |rows| <= |after| && forall i :: 0 <= i < |rows| ==> after[i].item == rows[i].item
    ensures Debits(ledger, after, item) == Debits(ledger, rows, item)
  {
    if ledger != [] {
      DebitsOfSameItems(ledger[..|ledger| - 1], rows, after, item);
    }
  }

  lemma DebitsWithOneMore(ledger: seq<Entry>, rows: seq<Row>, e: Entry, item: string)
    ensures Debits(ledger + [e], rows, item) ==
            Debits(ledger, rows, item) + if e.Debit? && e.row < |rows| && rows[e.row].item == item then 1 else 0
  {
    assert (ledger + [e])[..|ledger|] == ledger;
  }

  /** The carried redemptions of an item that the plan fulfils. */
  function Fulfilling(carried: seq<Carried>, item: string): nat {
    if carried == [] then 0
    else (if carried[0].step == Step(item, Fulfilled) then 1 else 0) + Fulfilling(carried[1..], item)
  }

  lemma {:induction false} AtMostOneFulfilling(carried: seq<Carried>, item: string)
    requires forall i, j :: 0 <= i < j < |carried| ==> carried[i].step.item != carried[j].step.item
    ensures Fulfilling(carried, item) <= 1
    ensures Fulfilling(carried, item) == 1 <==> exists c :: c in carried && c.step == Step(item, Fulfilled)
  {
    if carried != [] {
      AtMostOneFulfilling(carried[1..], item);
      assert forall c :: c in carried <==> c == carried[0] || c in carried[1..];
      if carried[0].step == Step(item, Fulfilled) {
        forall c | c in carried[1..]
          ensures c.step.item != item
        {
          var i :| 0 <= i < |carried[1..]| && carried[1..][i] == c;
          assert carried[i + 1] == c;
        }
      }
    }
  }

  lemma {:induction false} AdvancingDebits(a: Account, report: Report, carried: seq<Carried>, done: seq<Step>, item: string)
    requires Sound(a) && CarriedRows(a.rows, carried, done) && AdvancedAll(a, report, carried).Ok?
    ensures var b := AdvancedAll(a, report, carried).value.0;
            && (forall i :: 0 <= i < |b.ledger| && b.ledger[i].Debit? ==> b.ledger[i].row < |b.rows|)
            && Debits(b.ledger, b.rows, item) == Debits(a.ledger, a.rows, item) + Fulfilling(carried, item)
    decreases |carried|
  {
    if carried != [] {
      var c := carried[0];
      assert c in carried;
      AdvancedMovesOne(a, report, c);
      hide Advanced;
      var (next, counted) := Advanced(a, report, c).value;
      StillCarried(a, next, carried, done);
      DebitsOfSameItems(a.ledger, a.rows, next.rows, item);
      DebitsWithOneMore(a.ledger, next.rows, Debit(c.id, a.rows[c.id].cost), item);
      assert a.ledger + [] == a.ledger;
      assert OneInFlight(next.rows);
      AdvancingDebits(next, counted, carried[1..], done, item);
    }
  }

  lemma MatchedRunDebits(a: Account, w: Work, plan: seq<Step>, item: string)
    requires Sound(a) && Matching(a.rows, a.ledger, plan, w)
    requires AdvancedAll(w.account, w.report, w.carried).Ok?
    ensures var b := AdvancedAll(w.account, w.report, w.carried).value.0;
            && (forall i :: 0 <= i < |b.ledger| && b.ledger[i].Debit? ==> b.ledger[i].row < |b.rows|)
            && Debits(b.ledger, b.rows, item) == Debits(a.ledger, a.rows, item) + Fulfilling(w.carried, item)
            && Fulfilling(w.carried, item) <= 1
            && (Fulfilling(w.carried, item) == 1 ==>
                  HasState(b.rows, item, Fulfilled) && exists c :: c in w.carried && c.step == Step(item, Fulfilled))
  {
    AdvancedAllMoves(w.account, w.report, w.carried, plan);
    AtMostOneFulfilling(w.carried, item);
    assert forall i :: 0 <= i < |a.rows| ==> w.account.rows[i] == w.account.rows[..|a.rows|][i];
    DebitsOfSameItems(a.ledger, a.rows, w.account.rows, item);
    AdvancingDebits(w.account, w.report, w.carried, plan, item);
    hide AdvancedAll, Debits, Fulfilling;
    var b := AdvancedAll(w.account, w.report, w.carried).value.0;
    if c :| c in w.carried && c.step == Step(item, Fulfilled) {
      assert b.rows[c.id].item == item && b.rows[c.id].state == Fulfilled;
    }
  }

  /** A run keeps the account sound and debits an item at most once, and only while it had no fulfilled row. */
  lemma RunDebitsAtMostOnce(catalog: Catalog, a: Account, plan: seq<Step>, item: string)
    requires Sound(a) && DistinctItems(plan) && Seeded(catalog, a, plan).Ok?
    ensures var b := Seeded(catalog, a, plan).value.0;
            && Sound(b)
            && Debits(a.ledger, a.rows, item) <= Debits(b.ledger, b.rows, item) <= Debits(a.ledger, a.rows, item) + 1
            && (Debits(b.ledger, b.rows, item) > Debits(a.ledger, a.rows, item) ==>
                  !HasState(a.rows, item, Fulfilled) && HasState(b.rows, item, Fulfilled))
  {
    RunSettlesThePlan(catalog, a, plan);
    var start := Work(a, NOTHING, []);
    MatchesFromNothing(a);
    assert [] + plan == plan;
    MatchedAllKeeps(catalog, a.rows, a.ledger, [], start, plan);
    var w := MatchedAll(catalog, a.rows, start, plan).value;
    NothingCarriedOnceReached(catalog, a.rows, start, plan, item);
    hide MatchedAll, AdvancedAll;
    MatchedRunDebits(a, w, plan, item);
  }

  lemma {:induction false} NothingCarriedOnceReached(
    catalog: Catalog, history: seq<Row>, w: Work, plan: seq<Step>, item: string)
    requires MatchedAll(catalog, history, w, plan).Ok?
    requires HasState(history, item, Fulfilled) ==> forall c :: c in w.carried ==> c.step != Step(item, Fulfilled)
    ensures HasState(history, item, Fulfilled) ==>
              forall c :: c in MatchedAll(catalog, history, w, plan).value.carried ==> c.step != Step(item, Fulfilled)
    decreases |plan|
  {
    if plan != [] {
      NothingCarriedOnceReached(catalog, history, Matched(catalog, history, w, plan[0]).value, plan[1..], item);
    }
  }

  /** Every act keeps the account sound, and a fulfilled row stays fulfilled. */
  lemma EveryActKeeps(catalog: Catalog, plan: seq<Step>, a: Account, act: Action, item: string)
    requires Sound(a) && DistinctItems(plan)
    ensures Sound(After(catalog, plan, a, act))
    ensures HasState(a.rows, item, Fulfilled) ==> HasState(After(catalog, plan, a, act).rows, item, Fulfilled)
  {
    var b := After(catalog, plan, a, act);
    if act.Seed? {
      if Seeded(catalog, a, plan).Ok? {
        RunDebitsAtMostOnce(catalog, a, plan, item);
        RunSettlesThePlan(catalog, a, plan);
      }
      assert HistoryKept(a.rows, b.rows, plan);
    }
    if i :| 0 <= i < |a.rows| && a.rows[i].item == item && a.rows[i].state == Fulfilled {
      assert b.rows[i].item == item && b.rows[i].state == Fulfilled;
    }
  }

  /** What the seed's own runs debited for an item over a whole sequence of acts. */
  function SeedDebits(catalog: Catalog, plan: seq<Step>, a: Account, acts: seq<Action>, item: string): int
    decreases |acts|
  {
    if acts == [] then 0
    else
      var b := After(catalog, plan, a, acts[0]);
      (if acts[0].Seed? then Debits(b.ledger, b.rows, item) - Debits(a.ledger, a.rows, item) else 0)
      + SeedDebits(catalog, plan, b, acts[1..], item)
  }

  /** Over any number of runs, whatever people do in between, the seed pays for an item at most once. */
  lemma {:induction false} SeedPaysAtMostOnce(
    catalog: Catalog, plan: seq<Step>, a: Account, acts: seq<Action>, item: string)
    requires Sound(a) && DistinctItems(plan)
    ensures 0 <= SeedDebits(catalog, plan, a, acts, item) <= 1
    ensures HasState(a.rows, item, Fulfilled) ==> SeedDebits(catalog, plan, a, acts, item) == 0
    decreases |acts|
  {
    if acts != [] {
      var b := After(catalog, plan, a, acts[0]);
      EveryActKeeps(catalog, plan, a, acts[0], item);
      if acts[0].Seed? && Seeded(catalog, a, plan).Ok? {
        RunDebitsAtMostOnce(catalog, a, plan, item);
      }
      hide Seeded, Debits;
      SeedPaysAtMostOnce(catalog, plan, b, acts[1..], item);
    }
  }

  // ----- the balance covers what is open ---------------------------------------------------------------------

  /** What fulfilling every in-flight redemption would cost. */
  function OpenCost(rows: seq<Row>): nat {
    if rows == [] then 0
    else
      var last := rows[|rows| - 1];
      OpenCost(rows[..|rows| - 1]) + if Terminal(last.state) then 0 else last.cost
  }

  predicate Covered(a: Account) {
    Balance(a.ledger) >= OpenCost(a.rows)
  }

  lemma {:induction false} OpenCostAfterMove(rows: seq<Row>, id: nat, to: State)
    requires id < |rows| && !Terminal(rows[id].state)
    ensures OpenCost(rows[id := rows[id].(state := to)]) == OpenCost(rows) - if Terminal(to) then rows[id].cost else 0
    ensures rows[id].cost <= OpenCost(rows)
  {
    var n := |rows| - 1;
    var after := rows[id := rows[id].(state := to)];
    if id < n {
      assert after[..n] == rows[..n][id := rows[..n][id].(state := to)];
      OpenCostAfterMove(rows[..n], id, to);
    } else {
      assert after[..n] == rows[..n];
    }
  }

  /** While the balance covers what is open, no legal move is refused for points, and it stays covered. */
  lemma CoveredMoves(a: Account, id: nat, to: State)
    requires Covered(a) && id < |a.rows| && Legal(a.rows[id].state, to)
    ensures Moved(a, id, to).Ok? && Covered(Moved(a, id, to).value)
  {
    OpenCostAfterMove(a.rows, id, to);
    assert (a.ledger + [Debit(id, a.rows[id].cost)])[..|a.ledger|] == a.ledger;
  }

  /** A queue of decisions, worked until one is refused. */
  function Worked(a: Account, decisions: seq<(nat, State)>): Result<Account, Refusal>
    decreases |decisions|
  {
    if decisions == [] then Ok(a)
    else
      var next :- Moved(a, decisions[0].0, decisions[0].1);
      Worked(next, decisions[1..])
  }

  /** So the open redemptions can be carried to fulfilment in any order. */
  lemma {:induction false} AnyOrderIsAffordable(a: Account, decisions: seq<(nat, State)>)
    requires Covered(a)
    ensures Worked(a, decisions) != Err(InsufficientBalance)
    ensures Worked(a, decisions).Ok? ==> Covered(Worked(a, decisions).value)
    decreases |decisions|
  {
    if decisions != [] {
      var (id, to) := decisions[0];
      if id < |a.rows| && Legal(a.rows[id].state, to) {
        CoveredMoves(a, id, to);
        AnyOrderIsAffordable(Moved(a, id, to).value, decisions[1..]);
      }
    }
  }

  function PlanCost(catalog: Catalog, plan: seq<Step>): nat
    requires forall step :: step in plan ==> step.item in catalog
  {
    if plan == [] then 0 else catalog[plan[0].item].cost + PlanCost(catalog, plan[1..])
  }

  /** A plan a coordinator could follow from this history: listed items, reachable states. */
  ghost predicate Feasible(catalog: Catalog, rows: seq<Row>, plan: seq<Step>) {
    && (forall step :: step in plan ==> step.item in catalog && catalog[step.item].listable && !Declined(step.final))
    && forall step, i :: step in plan && 0 <= i < |rows| && rows[i].item == step.item && rows[i].state == Approved
         ==> step.final != Requested
  }

  predicate Declined(s: State) {
    s == Denied || s == Expired
  }

  /** A step still to be matched can be paid for, and what it opens is paid for too. */
  lemma StepAffords(catalog: Catalog, history: seq<Row>, ledger: seq<Entry>, done: seq<Step>, w: Work, step: Step)
    requires Matching(history, ledger, done, w) && forall s :: s in done ==> s.item != step.item
    requires step.item in catalog && catalog[step.item].listable
    requires Balance(ledger) >= OpenCost(w.account.rows) + catalog[step.item].cost
    ensures Matched(catalog, history, w, step).Ok?
    ensures OpenCost(Matched(catalog, history, w, step).value.account.rows)
            <= OpenCost(w.account.rows) + catalog[step.item].cost
  {
    hide Balance;
    if !HasAny(history, step.item) {
      assert InFlight(w.account.rows, step.item) == None;
      var row := Row(step.item, catalog[step.item].cost, Requested);
      assert (w.account.rows + [row])[..|w.account.rows|] == w.account.rows;
    }
  }

  lemma {:induction false} MatchingAffords(
    catalog: Catalog, history: seq<Row>, ledger: seq<Entry>, done: seq<Step>, w: Work, plan: seq<Step>)
    requires Matching(history, ledger, done, w) && DistinctItems(done + plan)
    requires forall step :: step in plan ==> step.item in catalog && catalog[step.item].listable
    requires Balance(ledger) >= OpenCost(w.account.rows) + PlanCost(catalog, plan)
    ensures MatchedAll(catalog, history, w, plan).Ok?
    ensures Covered(MatchedAll(catalog, history, w, plan).value.account)
    decreases |plan|
  {
    hide Balance, OpenCost, Matched, OneInFlight;
    if plan == [] {
      hide NewRows, CarriedRows, Settled;
    } else {
      hide NewRows, CarriedRows, Settled, Matching;
      var step := plan[0];
      assert step in plan;
      assert (done + plan)[|done|] == step;
      forall s | s in done
        ensures s.item != step.item
      {
        var i :| 0 <= i < |done| && done[i] == s;
        assert (done + plan)[i] == s;
      }
      StepAffords(catalog, history, ledger, done, w, step);
      MatchedKeeps(catalog, history, ledger, done, w, step);
      assert done + [step] + plan[1..] == done + plan;
      MatchingAffords(catalog, history, ledger, done + [step], Matched(catalog, history, w, step).value, plan[1..]);
    }
  }

  lemma {:induction false} AdvancingAffords(a: Account, report: Report, carried: seq<Carried>, done: seq<Step>)
    requires Covered(a) && CarriedRows(a.rows, carried, done)
    requires forall c :: c in carried ==> !Declined(c.step.final) && (c.state == Approved ==> c.step.final != Requested)
    ensures AdvancedAll(a, report, carried).Ok? && Covered(AdvancedAll(a, report, carried).value.0)
    decreases |carried|
  {
    if carried != [] {
      var c := carried[0];
      assert c in carried;
      if c.state == Requested && c.step.final != Requested {
        CoveredMoves(a, c.id, Approved);
        if c.step.final == Fulfilled {
          CoveredMoves(Moved(a, c.id, Approved).value, c.id, Fulfilled);
        }
      } else if c.state == Approved && c.step.final == Fulfilled {
        CoveredMoves(a, c.id, Fulfilled);
      }
      AdvancedMovesOne(a, report, c);
      assert Advanced(a, report, c).Ok? && Covered(Advanced(a, report, c).value.0);
      hide Advanced;
      var (next, counted) := Advanced(a, report, c).value;
      StillCarried(a, next, carried, done);
      AdvancingAffords(next, counted, carried[1..], done);
    }
  }

  /** What a match carries over is never declined, and approved only where the plan goes further. */
  lemma CarriedGoesOn(catalog: Catalog, a: Account, plan: seq<Step>, w: Work)
    requires Feasible(catalog, a.rows, plan) && Matching(a.rows, a.ledger, plan, w)
    ensures CarriedRows(w.account.rows, w.carried, plan)
    ensures forall c :: c in w.carried ==>
              !Declined(c.step.final) && (c.state == Approved ==> c.step.final != Requested)
  {
    hide Settled, OneInFlight;
    forall c | c in w.carried
      ensures !Declined(c.step.final) && (c.state == Approved ==> c.step.final != Requested)
    {
      if c.state == Approved {
        assert c.id < |a.rows| && w.account.rows[c.id] == w.account.rows[..|a.rows|][c.id];
      }
    }
  }

  /**
   * A balance that covers what is open and the whole plan is enough: the run is not refused,
   * and afterwards the balance covers everything still open.
   */
  lemma EnoughForThePlan(catalog: Catalog, a: Account, plan: seq<Step>)
    requires OneInFlight(a.rows) && DistinctItems(plan) && Feasible(catalog, a.rows, plan)
    requires Balance(a.ledger) >= OpenCost(a.rows) + PlanCost(catalog, plan)
    ensures Seeded(catalog, a, plan).Ok? && Covered(Seeded(catalog, a, plan).value.0)
  {
    hide MatchedAll, Matching, OneInFlight, DistinctItems, Balance, OpenCost, PlanCost, CarriedRows, AdvancedAll, Covered;
    var start := Work(a, NOTHING, []);
    MatchesFromNothing(a);
    assert [] + plan == plan;
    MatchingAffords(catalog, a.rows, a.ledger, [], start, plan);
    MatchedAllKeeps(catalog, a.rows, a.ledger, [], start, plan);
    var w := MatchedAll(catalog, a.rows, start, plan).value;
    CarriedGoesOn(catalog, a, plan, w);
    AdvancingAffords(w.account, w.report, w.carried, plan);
  }

  // ----- the pilot's own plan ----------------------------------------------------------------------------------

  const GIFT_CARD := "Bronco Bookstore $10 Gift Card"
  const VOUCHER := "CBA Career Closet Voucher"
  const HEADSHOT := "Professional Headshot Session"

  const PLAN: seq<Step> := [Step(GIFT_CARD, Fulfilled), Step(VOUCHER, Approved), Step(HEADSHOT, Requested)]

  const STUDENT_ATTENDANCES := 19
  const POINTS_PER_ATTENDANCE := 100

  predicate Worksheet(catalog: Catalog) {
    && GIFT_CARD in catalog && catalog[GIFT_CARD] == Listing(300, true)
    && VOUCHER in catalog && catalog[VOUCHER] == Listing(600, true)
    && HEADSHOT in catalog && catalog[HEADSHOT] == Listing(1000, true)
  }

  lemma CostOfThree(catalog: Catalog, a: Step, b: Step, c: Step)
    requires a.item in catalog && b.item in catalog && c.item in catalog
    ensures PlanCost(catalog, [a, b, c]) == catalog[a.item].cost + catalog[b.item].cost + catalog[c.item].cost
  {
    assert [c][1..] == [] && PlanCost(catalog, [c]) == catalog[c.item].cost;
    assert [b, c][1..] == [c] && PlanCost(catalog, [b, c]) == catalog[b.item].cost + catalog[c.item].cost;
    assert [a, b, c][1..] == [b, c];
  }

  /** Nineteen attended events pay for the pilot's plan, and leave what is still open affordable in any order. */
  lemma PilotPlanIsAffordable(catalog: Catalog, ledger: seq<Entry>, decisions: seq<(nat, State)>)
    requires Worksheet(catalog) && Balance(ledger) >= STUDENT_ATTENDANCES * POINTS_PER_ATTENDANCE
    ensures var seeded := Seeded(catalog, Account([], ledger), PLAN);
            seeded.Ok? && Worked(seeded.value.0, decisions) != Err(InsufficientBalance)
  {
    var a := Account([], ledger);
    assert PLAN[0].item != PLAN[1].item && PLAN[0].item != PLAN[2].item && PLAN[1].item != PLAN[2].item by {
      assert GIFT_CARD[0] == 'B' && VOUCHER[0] == 'C' && HEADSHOT[0] == 'P';
    }
    CostOfThree(catalog, PLAN[0], PLAN[1], PLAN[2]);
    EnoughForThePlan(catalog, a, PLAN);
    AnyOrderIsAffordable(Seeded(catalog, a, PLAN).value.0, decisions);
  }
}
