/** Where walks and runs of the journey generator end, when they repeat, and when a pair comes round again. */
module JourneyRuns {
  import opened Arithmetic
  import opened Journeys
  import opened Outcomes

  // ----- one stage -------------------------------------------------------------------------------------------

  /**
   * When the stage writer accepts: not the entry stage, attendance evidence exactly for the fourth stage and
   * only evidence there is, a journey there is, no attendance of a cancelled booking, and either a stage already
   * reached or the next one at a time not before the last.
   */
  lemma StageIsAcceptedExactlyWhen(p: Pipeline, key: Pair, stage: Stage, at: int, evidence: Option<Pair>)
    ensures Advanced(p, key, stage, at, evidence).Ok? <==>
              && stage > 0 && (stage == 3 <==> evidence.Some?) && (evidence.Some? ==> evidence.value in p.attended)
              && key in p.rows && !(stage == 3 && p.rows[key].cancelled)
              && (stage < |p.rows[key].times|
                  || (stage == |p.rows[key].times| && at >= p.rows[key].times[stage - 1]))
    ensures Advanced(p, key, stage, at, evidence).Ok? ==>
              var (after, transitioned) := Advanced(p, key, stage, at, evidence).value;
              && after.attended == p.attended && after.rows.Keys == p.rows.Keys
              && (forall other :: other in p.rows && other != key ==> after.rows[other] == p.rows[other])
              && after.rows[key].cancelled == p.rows[key].cancelled
              && after.rows[key].times == p.rows[key].times + (if transitioned then [at] else [])
              && (transitioned <==> stage == |p.rows[key].times|)
  {
    if key in p.rows {
      assert p.rows[key].times + [] == p.rows[key].times;
    }
  }

  // ----- one walk --------------------------------------------------------------------------------------------

  function Stamps(matchedAt: int, from: nat, to: nat): (r: seq<int>)
    ensures |r| == if to > from then to - from else 0
    ensures forall i :: 0 <= i < |r| ==> r[i] == StampAt(matchedAt, from + i)
  {
    seq(if to > from then to - from else 0, i requires 0 <= i => StampAt(matchedAt, from + i))
  }

  /** What the table's constraints say of a row: a prefix of the funnel, attended only with evidence and uncancelled. */
  ghost predicate Constrained(p: Pipeline, key: Pair) {
    && key in p.rows && 1 <= |p.rows[key].times| <= 5
    && (|p.rows[key].times| > ATTENDED ==> key in p.attended && !p.rows[key].cancelled)
  }

  /** The first stage still to be reached is not before the last one reached, and attendance is not refused. */
  predicate Passable(row: Row, matchedAt: int, through: Stage)
    requires row.times != []
  {
    || |row.times| > through
    || (StampAt(matchedAt, |row.times|) >= row.times[|row.times| - 1] && !(row.cancelled && through >= ATTENDED))
  }

  function Extended(p: Pipeline, key: Pair, matchedAt: int, from: nat, through: Stage): Pipeline
    requires key in p.rows
  {
    var row := p.rows[key];
    Pipeline(p.rows[key := row.(times := row.times + Stamps(matchedAt, |row.times|, through + 1))],
             if from <= ATTENDED <= through then p.attended + {key} else p.attended)
  }

  lemma StampsFrom(matchedAt: int, from: nat, to: nat)
    requires from < to
    ensures Stamps(matchedAt, from, to) == [StampAt(matchedAt, from)] + Stamps(matchedAt, from + 1, to)
  {
  }

  /**
   * A walk over any row the constraints allow succeeds exactly when it is passable; then it adds the
   * missing stages, ten minutes apart, and counts only those.
   */
  lemma {:induction false} WalkExactly(p: Pipeline, key: Pair, matchedAt: int, from: nat, through: Stage)
    requires Constrained(p, key) && 1 <= from <= |p.rows[key].times|
    ensures Walked(p, key, matchedAt, from, through).Ok? <==>
              from > through || Passable(p.rows[key], matchedAt, through)
    ensures Walked(p, key, matchedAt, from, through).Ok? ==>
              Walked(p, key, matchedAt, from, through).value
              == (Extended(p, key, matchedAt, from, through), |Stamps(matchedAt, |p.rows[key].times|, through + 1)|)
    decreases through + 1 - from
  {
    hide Advanced, Stepped;
    var row := p.rows[key];
    if from > through {
      assert row.times + [] == row.times && p.rows[key := row] == p.rows;
    } else {
      var stepped := Stepped(p, key, matchedAt, from);
      StepExactly(p, key, matchedAt, from);
      if stepped.Ok? {
        var next := stepped.value.0;
        WalkExactly(next, key, matchedAt, from + 1, through);
        if from == |row.times| {
          StampsFrom(matchedAt, from, through + 1);
          var rest := Stamps(matchedAt, from + 1, through + 1);
          assert row.times + [StampAt(matchedAt, from)] + rest == row.times + ([StampAt(matchedAt, from)] + rest);
        }
        assert Extended(p, key, matchedAt, from, through) == Extended(next, key, matchedAt, from + 1, through);
      }
    }
  }

  lemma StepExactly(p: Pipeline, key: Pair, matchedAt: int, stage: Stage)
    requires Constrained(p, key) && 1 <= stage <= |p.rows[key].times|
    ensures var row := p.rows[key];
            var r := Stepped(p, key, matchedAt, stage);
            var attended := if stage == ATTENDED then p.attended + {key} else p.attended;
            if stage < |row.times| then
              (stage == ATTENDED ==> !row.cancelled) && r == Ok((Pipeline(p.rows, attended), false))
            else if (stage == ATTENDED && row.cancelled) || StampAt(matchedAt, stage) < row.times[stage - 1] then r.Err?
            else
              && r == Ok((Pipeline(p.rows[key := row.(times := row.times + [StampAt(matchedAt, stage)])], attended), true))
              && Constrained(r.value.0, key)
  {
  }

  // ----- journeys only this tool has stamped --------------------------------------------------------------------

  /** A journey stamped through its first stages, ten minutes apart, and nothing else. */
  ghost predicate Stamped(p: Pipeline, key: Pair, matchedAt: int) {
    && Constrained(p, key) && !p.rows[key].cancelled
    && p.rows[key].times == Stamps(matchedAt, 0, |p.rows[key].times|)
  }

  lemma StampsJoin(matchedAt: int, a: nat, b: nat, c: nat)
    requires a <= b
    ensures Stamps(matchedAt, a, b) + Stamps(matchedAt, b, c) == Stamps(matchedAt, a, Max(b, c))
  {
  }

  /** A walk to a stage takes a stamped journey to the later of the two, and never fails. */
  lemma WalkStamped(p: Pipeline, key: Pair, matchedAt: int, through: Stage)
    requires Stamped(p, key, matchedAt)
    ensures Walked(p, key, matchedAt, 1, through).Ok?
    ensures var (after, moved) := Walked(p, key, matchedAt, 1, through).value;
            var n := |p.rows[key].times|;
            && Stamped(after, key, matchedAt)
            && after.rows == p.rows[key := Row(Stamps(matchedAt, 0, Max(n, through + 1)), false)]
            && p.attended <= after.attended <= p.attended + {key}
            && moved == Max(n, through + 1) - n
            && (n > through ==> after == p)
  {
    var row := p.rows[key];
    var n := |row.times|;
    assert row.times[n - 1] == StampAt(matchedAt, n - 1);
    WalkExactly(p, key, matchedAt, 1, through);
    hide Walked;
    StampsJoin(matchedAt, 0, n, through + 1);
    if n > through {
      assert row.times + Stamps(matchedAt, n, through + 1) == row.times;
      assert p.rows[key := row] == p.rows;
      if through >= ATTENDED {
        assert p.attended + {key} == p.attended;
      }
    }
  }

  /** Walking to one stage and then to another is walking to the later one. */
  lemma WalkTwiceIsWalkFurther(p: Pipeline, key: Pair, matchedAt: int, first: Stage, second: Stage)
    requires Stamped(p, key, matchedAt)
    ensures Walked(p, key, matchedAt, 1, first).Ok? && Walked(p, key, matchedAt, 1, Max(first, second)).Ok?
    ensures Walked(Walked(p, key, matchedAt, 1, first).value.0, key, matchedAt, 1, second).Ok?
    ensures var (once, moved) := Walked(p, key, matchedAt, 1, first).value;
            var (twice, more) := Walked(once, key, matchedAt, 1, second).value;
            var (further, all) := Walked(p, key, matchedAt, 1, Max(first, second)).value;
            twice == further && moved + more == all
  {
    hide Walked, Advanced;
    WalkStamped(p, key, matchedAt, first);
    var once := Walked(p, key, matchedAt, 1, first).value.0;
    WalkStamped(once, key, matchedAt, second);
    WalkStamped(p, key, matchedAt, Max(first, second));
    WalkExactly(p, key, matchedAt, 1, first);
    WalkExactly(once, key, matchedAt, 1, second);
    WalkExactly(p, key, matchedAt, 1, Max(first, second));
    hide Stamped;
    var twice := Walked(once, key, matchedAt, 1, second).value.0;
    var further := Walked(p, key, matchedAt, 1, Max(first, second)).value.0;
    assert twice.rows == further.rows;
  }

  // ----- one journey of the plan --------------------------------------------------------------------------------

  /** How many stages a journey of the plan is meant to reach. */
  function Needed(journey: nat): (n: nat)
    ensures 1 <= n <= 5
  {
    match Through(journey)
    case None => 1
    case Some(stage) => stage + 1
  }

  ghost predicate PlanStamped(p: Pipeline, plan: Plan, count: nat)
    requires plan.Usable()
  {
    forall j :: 0 <= j < count && plan.Key(j) in p.rows ==> Stamped(p, plan.Key(j), MatchedAt(plan.Event(j)))
  }

  ghost predicate Reached(p: Pipeline, plan: Plan, journey: nat)
    requires plan.Usable()
  {
    plan.Key(journey) in p.rows && |p.rows[plan.Key(journey)].times| >= Needed(journey)
  }

  /** Event ids are the events'. */
  ghost predicate EventIds(plan: Plan) {
    forall a, b :: a in plan.resolved && b in plan.resolved && a.id == b.id ==> a == b
  }

  /** Rows are never removed, and never lose a stage. */
  ghost predicate Grown(a: Pipeline, b: Pipeline) {
    a.attended <= b.attended && forall key :: key in a.rows ==> key in b.rows && |a.rows[key].times| <= |b.rows[key].times|
  }

  lemma WriteOneSettles(p: Pipeline, plan: Plan, j: nat)
    requires plan.Usable() && (plan.Key(j) in p.rows ==> Stamped(p, plan.Key(j), MatchedAt(plan.Event(j))))
    ensures WrittenOne(p, plan, j).Ok?
    ensures var (after, moved) := WrittenOne(p, plan, j).value;
            var key, at := plan.Key(j), MatchedAt(plan.Event(j));
            var n := if key in p.rows then |p.rows[key].times| else 1;
            && Stamped(after, key, at)
            && after.rows == p.rows[key := Row(Stamps(at, 0, Max(n, Needed(j))), false)]
            && p.attended <= after.attended <= p.attended + {key}
            && moved == Max(n, Needed(j)) - n
            && (Reached(p, plan, j) ==> after == p)
  {
    hide Walked, Through;
    var key, at := plan.Key(j), MatchedAt(plan.Event(j));
    var started := Opened(p, key, at);
    assert [at] == Stamps(at, 0, 1);
    assert Stamped(started, key, at);
    if Through(j).Some? {
      WalkStamped(started, key, at, Through(j).value);
    } else {
      var row := started.rows[key];
      assert row == Row(Stamps(at, 0, |row.times|), false);
      assert started.rows[key := row] == started.rows;
    }
  }

  lemma WriteOneKeepsPlan(p: Pipeline, plan: Plan, j: nat, count: nat)
    requires plan.Usable() && EventIds(plan) && PlanStamped(p, plan, count) && j < count
    ensures WrittenOne(p, plan, j).Ok?
    ensures var after := WrittenOne(p, plan, j).value.0;
            PlanStamped(after, plan, count) && Reached(after, plan, j) && Grown(p, after)
  {
    WriteOneSettles(p, plan, j);
    hide WrittenOne, Through;
    var after := WrittenOne(p, plan, j).value.0;
    forall k | 0 <= k < count && plan.Key(k) in after.rows
      ensures Stamped(after, plan.Key(k), MatchedAt(plan.Event(k)))
    {
      if plan.Key(k) == plan.Key(j) {
        assert plan.Event(k) in plan.resolved && plan.Event(j) in plan.resolved;
      } else {
        assert Stamped(p, plan.Key(k), MatchedAt(plan.Event(k)));
        assert after.rows[plan.Key(k)] == p.rows[plan.Key(k)];
      }
    }
  }

  // ----- a run ------------------------------------------------------------------------------------------------------

  lemma {:induction false} RunSettles(p: Pipeline, plan: Plan, from: nat, count: nat)
    requires plan.Usable() && EventIds(plan) && PlanStamped(p, plan, count)
    ensures Written(p, plan, from, count).Ok?
    ensures var after := Written(p, plan, from, count).value.0;
            && PlanStamped(after, plan, count) && Grown(p, after)
            && forall j :: from <= j < count ==> Reached(after, plan, j)
    decreases count - from
  {
    hide PlanStamped, WrittenOne;
    if from < count {
      WriteOneKeepsPlan(p, plan, from, count);
      var next := WrittenOne(p, plan, from).value.0;
      RunSettles(next, plan, from + 1, count);
    }
  }

  lemma {:induction false} NothingLeftToWrite(p: Pipeline, plan: Plan, from: nat, count: nat)
    requires plan.Usable() && PlanStamped(p, plan, count)
    requires forall j :: from <= j < count ==> Reached(p, plan, j)
    ensures Written(p, plan, from, count) == Ok((p, 0))
    decreases count - from
  {
    hide WrittenOne, Stamped;
    if from < count {
      assert Reached(p, plan, from);
      WriteOneSettles(p, plan, from);
      var key := plan.Key(from);
      assert Max(|p.rows[key].times|, Needed(from)) == |p.rows[key].times|;
      NothingLeftToWrite(p, plan, from + 1, count);
    }
  }

  /**
   * Whatever this tool stamped before, a run ends with every journey of the plan at its stage or
   * beyond, and running it again transitions nothing and writes nothing, even when pairs repeat.
   */
  lemma SecondRunTransitionsNothing(p: Pipeline, plan: Plan, count: nat)
    requires plan.Usable() && EventIds(plan) && PlanStamped(p, plan, count)
    ensures Written(p, plan, 0, count).Ok?
    ensures var after := Written(p, plan, 0, count).value.0;
            && (forall j :: 0 <= j < count ==> Reached(after, plan, j))
            && Written(after, plan, 0, count) == Ok((after, 0))
  {
    RunSettles(p, plan, 0, count);
    hide Written;
    NothingLeftToWrite(Written(p, plan, 0, count).value.0, plan, 0, count);
  }

  ghost predicate DistinctPairs(plan: Plan, count: nat)
    requires plan.Usable()
  {
    forall i, j :: 0 <= i < j < count ==> plan.Key(i) != plan.Key(j)
  }

  /** The stages a first run of these journeys reaches, beyond the match itself. */
  function Transitions(from: nat, count: nat): nat
    decreases count - from
  {
    if from >= count then 0 else Needed(from) - 1 + Transitions(from + 1, count)
  }

  lemma {:induction false} FreshRun(p: Pipeline, plan: Plan, from: nat, count: nat)
    requires plan.Usable() && DistinctPairs(plan, count) && from <= count
    requires forall j :: from <= j < count ==> plan.Key(j) !in p.rows
    ensures Written(p, plan, from, count).Ok?
    ensures var (after, moved) := Written(p, plan, from, count).value;
            && moved == Transitions(from, count)
            && (forall j :: from <= j < count ==>
                  plan.Key(j) in after.rows
                  && after.rows[plan.Key(j)] == Row(Stamps(MatchedAt(plan.Event(j)), 0, Needed(j)), false))
            && forall key :: key in p.rows ==> key in after.rows && after.rows[key] == p.rows[key]
    decreases count - from
  {
    hide WrittenOne, Stamped, Needed;
    if from < count {
      WriteOneSettles(p, plan, from);
      var next := WrittenOne(p, plan, from).value.0;
      FreshRun(next, plan, from + 1, count);
    }
  }

  /**
   * While no pair repeats, every journey a first run opens ends exactly at its place in the cycle,
   * with strictly increasing stage times, and the run counts the stages it reached.
   */
  lemma EachJourneyEndsAtItsStage(p: Pipeline, plan: Plan, count: nat, j: nat)
    requires plan.Usable() && DistinctPairs(plan, count) && j < count
    requires forall i :: 0 <= i < count ==> plan.Key(i) !in p.rows
    ensures Written(p, plan, 0, count).Ok? && Written(p, plan, 0, count).value.1 == Transitions(0, count)
    ensures var rows := Written(p, plan, 0, count).value.0.rows;
            && plan.Key(j) in rows && |rows[plan.Key(j)].times| == Needed(j)
            && rows[plan.Key(j)].times[0] == MatchedAt(plan.Event(j))
            && forall a, b :: 0 <= a < b < Needed(j) ==> rows[plan.Key(j)].times[a] < rows[plan.Key(j)].times[b]
  {
    hide Written, Needed;
    FreshRun(p, plan, 0, count);
  }

  /** How many stages the journeys of one turn of the cycle reach, the match included. */
  const TURN: seq<nat> := [
    1, 2, 3, 4, 1, 2, 3, 4, 5, 1, 2, 3, 4, 1, 2, 3, 4, 5, 1, 2, 3, 4, 1, 2, 3, 4, 5, 1, 2, 3, 4, 1, 2, 3, 4, 1]

  lemma NeededByTurn(journey: nat, turns: nat, place: nat)
    requires place < |TURN| && journey == place + |TURN| * turns
    ensures Needed(journey) == TURN[place]
  {
    assert |TURN| == 36 == |CYCLE|;
    RemainderIs(journey, 36, turns, place);
  }

  // ----- the shape of the funnel -------------------------------------------------------------------------------

  /** How many of the first journeys reach exactly so many stages. */
  function Reaching(count: nat, stages: nat): nat {
    if count == 0 then 0 else Reaching(count - 1, stages) + if Needed(count - 1) == stages then 1 else 0
  }

  function Occurring(s: seq<nat>, x: nat): nat {
    if s == [] then 0 else Occurring(s[..|s| - 1], x) + if s[|s| - 1] == x then 1 else 0
  }

  lemma {:induction false} OccurringInBoth(a: seq<nat>, b: seq<nat>, x: nat)
    ensures Occurring(a + b, x) == Occurring(a, x) + Occurring(b, x)
  {
    if b == [] {
      assert a + b == a;
    } else {
      assert (a + b)[..|a + b| - 1] == a + b[..|b| - 1];
      OccurringInBoth(a, b[..|b| - 1], x);
    }
  }

  lemma {:induction false} ReachingByTurn(turns: nat, place: nat, stages: nat)
    requires place <= |TURN|
    ensures Reaching(place + |TURN| * turns, stages) == turns * Occurring(TURN, stages) + Occurring(TURN[..place], stages)
    decreases turns, place
  {
    hide TURN, Needed;
    if place > 0 {
      ReachingByTurn(turns, place - 1, stages);
      NeededByTurn(place - 1 + |TURN| * turns, turns, place - 1);
      assert TURN[..place][..place - 1] == TURN[..place - 1];
    } else if turns > 0 {
      ReachingByTurn(turns - 1, |TURN|, stages);
      assert TURN[..|TURN|] == TURN;
      Distribute(|TURN|, turns, 1);
      assert |TURN| + |TURN| * (turns - 1) == |TURN| * turns;
      assert (turns - 1) * Occurring(TURN, stages) + Occurring(TURN, stages) == turns * Occurring(TURN, stages);
    }
  }

  lemma OccurringOnceMore(s: seq<nat>, last: nat, x: nat)
    ensures Occurring(s + [last], x) == Occurring(s, x) + if last == x then 1 else 0
  {
    assert (s + [last])[..|s|] == s;
  }

  lemma FourAndFive(x: nat)
    ensures Occurring([1, 2, 3, 4], x) == if 1 <= x <= 4 then 1 else 0
    ensures Occurring([1, 2, 3, 4, 5], x) == if 1 <= x <= 5 then 1 else 0
    ensures Occurring([1], x) == if x == 1 then 1 else 0
  {
    NoneOccurring([], x);
    hide Occurring;
    OccurringOnceMore([], 1, x);
    assert [] + [1] == [1] && [1] + [2] == [1, 2] && [1, 2] + [3] == [1, 2, 3];
    OccurringOnceMore([1], 2, x);
    OccurringOnceMore([1, 2], 3, x);
    OccurringOnceMore([1, 2, 3], 4, x);
    OccurringOnceMore([1, 2, 3, 4], 5, x);
    assert [1, 2, 3] + [4] == [1, 2, 3, 4] && [1, 2, 3, 4] + [5] == [1, 2, 3, 4, 5];
  }

  lemma TurnInParts(four: seq<nat>, five: seq<nat>)
    requires four == [1, 2, 3, 4] && five == [1, 2, 3, 4, 5]
    ensures TURN == (four + five) + (four + five) + (four + five) + four + four + [1]
  {
  }

  lemma OneTurn(x: nat)
    ensures Occurring(TURN, x) == if x == 1 then 9 else if 2 <= x <= 4 then 8 else if x == 5 then 3 else 0
  {
    hide *;
    var four: seq<nat>, five: seq<nat>, one: seq<nat> := [1, 2, 3, 4], [1, 2, 3, 4, 5], [1];
    TurnInParts(four, five);
    FourAndFive(x);
    var nine := four + five;
    OccurringInBoth(four, five, x);
    OccurringInBoth(nine, nine, x);
    OccurringInBoth(nine + nine, nine, x);
    OccurringInBoth(nine + nine + nine, four, x);
    OccurringInBoth(nine + nine + nine + four, four, x);
    OccurringInBoth(nine + nine + nine + four + four, one, x);
  }

  lemma ReachingInFull(turns: nat, stages: nat)
    ensures Reaching(36 * turns, stages) == turns * Occurring(TURN, stages)
  {
    assert |TURN| == 36;
    hide TURN, Reaching, Occurring;
    ReachingByTurn(turns, 0, stages);
    NoneOccurring(TURN[..0], stages);
  }

  /** Of the first 180 journeys 45 stay matched, 40 each end at the next three stages and 15 at the last. */
  lemma FunnelOf180(stages: nat)
    requires 1 <= stages <= 5
    ensures Reaching(180, stages) == if stages == 1 then 45 else if stages == 5 then 15 else 40
  {
    hide *;
    OneTurn(stages);
    ReachingInFull(5, stages);
  }

  lemma NoneOccurring(s: seq<nat>, x: nat)
    requires s == []
    ensures Occurring(s, x) == 0
  {
  }

  /**
   * The journey in full: who, which event, when and how far. Journey `j` pairs the professional `7 * j` places
   * round the roster with the event `j` places round the dated events; it is matched at nine in the morning thirty
   * days before the event, and moves on every ten minutes.
   */
  lemma JourneyIsAsPlanned(
    p: Pipeline, plan: Plan, count: nat, j: nat, subject: nat, event: nat, place: nat, a: nat, b: nat, c: nat)
    requires plan.Usable() && DistinctPairs(plan, count) && j < count
    requires forall i :: 0 <= i < count ==> plan.Key(i) !in p.rows
    requires subject < |plan.subjects| && j * 7 == subject + |plan.subjects| * a
    requires event < |plan.resolved| && j == event + |plan.resolved| * b
    requires place < |TURN| && j == place + |TURN| * c
    ensures Written(p, plan, 0, count).Ok?
    ensures var rows, key := Written(p, plan, 0, count).value.0.rows, Pair(plan.subjects[subject], plan.resolved[event].id);
            && key in rows && !rows[key].cancelled && |rows[key].times| == TURN[place]
            && forall i :: 0 <= i < TURN[place] ==>
                 rows[key].times[i] == (plan.resolved[event].date.value - 30) * 1440 + 540 + 10 * i
  {
    RemainderIs(j * 7, |plan.subjects|, a, subject);
    RemainderIs(j, |plan.resolved|, b, event);
    NeededByTurn(j, c, place);
    hide Written, Needed, TURN;
    FreshRun(p, plan, 0, count);
  }

  // ----- when a pair comes round again ----------------------------------------------------------------------------------

  /** The roster's length seen by the stride. */
  function Reduced(subjects: nat): nat
    requires subjects > 0
    ensures Reduced(subjects) > 0
  {
    if subjects % STRIDE == 0 then subjects / STRIDE else subjects
  }

  /** Seven is prime: the stride drops out unless the roster is a multiple of it. */
  lemma StrideDropsOut(d: nat, n: nat)
    requires n > 0
    ensures (d * STRIDE) % n == 0 <==> d % Reduced(n) == 0
  {
    if n % STRIDE == 0 {
      var m := n / STRIDE;
      assert n == m * 7;
      if d % m == 0 {
        var k := d / m;
        assert d * 7 == n * k;
        MultipleLeavesNothing(k, n);
      }
      if (d * 7) % n == 0 {
        var k := (d * 7) / n;
        assert d * 7 == n * k;
        assert d == m * k;
        MultipleLeavesNothing(k, m);
      }
    } else {
      if d % n == 0 {
        var k := d / n;
        assert d * 7 == n * (k * 7);
        MultipleLeavesNothing(k * 7, n);
      }
      if (d * 7) % n == 0 {
        CancelStride(d, n);
      }
    }
  }

  lemma StrideInverse(n: nat) returns (c: nat, t: nat)
    requires n % 7 != 0
    ensures n * c == 7 * t + 1
  {
    var q, r := n / 7, n % 7;
    if r == 1 {
      c, t := 1, q;
    } else if r == 2 {
      c, t := 4, 4 * q + 1;
    } else if r == 3 {
      c, t := 5, 5 * q + 2;
    } else if r == 4 {
      c, t := 2, 2 * q + 1;
    } else if r == 5 {
      c, t := 3, 3 * q + 2;
    } else {
      c, t := 6, 6 * q + 5;
    }
  }

  lemma CancelStride(d: nat, n: nat)
    requires n > 0 && n % 7 != 0 && (d * 7) % n == 0
    ensures d % n == 0
  {
    var c, t := StrideInverse(n);
    var k := (d * 7) / n;
    calc {
      n * (c * d - k * t);
      { Distribute(n, c * d, k * t); }
      n * (c * d) - n * (k * t);
      { Regroup(n, c, d); Regroup(n, k, t); }
      (n * c) * d - (n * k) * t;
      (7 * t + 1) * d - (d * 7) * t;
      { Regroup(7, t, d); Regroup(7, d, t); }
      d;
    }
    MultipleLeavesNothing(c * d - k * t, n);
  }

  ghost predicate DistinctMembers(plan: Plan) {
    && (forall i, j :: 0 <= i < j < |plan.subjects| ==> plan.subjects[i] != plan.subjects[j])
    && (forall i, j :: 0 <= i < j < |plan.resolved| ==> plan.resolved[i].id != plan.resolved[j].id)
  }

  lemma PairsAgreeExactly(plan: Plan, i: nat, j: nat)
    requires plan.Usable() && DistinctMembers(plan) && i <= j
    ensures plan.Key(i) == plan.Key(j) <==>
              (j - i) % Reduced(|plan.subjects|) == 0 && (j - i) % |plan.resolved| == 0
  {
    var n, e := |plan.subjects|, |plan.resolved|;
    SameRemainder(i * STRIDE, j * STRIDE, n);
    assert j * STRIDE - i * STRIDE == (j - i) * STRIDE;
    StrideDropsOut(j - i, n);
    SameRemainder(i, j, e);
    hide Reduced;
    var a, b := (i * STRIDE) % n, (j * STRIDE) % n;
    assert plan.subjects[a] == plan.subjects[b] <==> a == b;
    var x, y := i % e, j % e;
    assert plan.resolved[x].id == plan.resolved[y].id <==> x == y;
  }

  /** No pair repeats among the first journeys exactly when there are no more of them than the least common multiple. */
  lemma PairsRepeatExactlyBeyondTheLcm(plan: Plan, count: nat)
    requires plan.Usable() && DistinctMembers(plan)
    ensures DistinctPairs(plan, count) <==> count <= Lcm(Reduced(|plan.subjects|), |plan.resolved|)
  {
    hide Reduced;
    var period := Lcm(Reduced(|plan.subjects|), |plan.resolved|);
    if count <= period {
      forall i, j | 0 <= i < j < count
        ensures plan.Key(i) != plan.Key(j)
      {
        PairsAgreeExactly(plan, i, j);
      }
    } else {
      PairsAgreeExactly(plan, 0, period);
      assert plan.Key(0) == plan.Key(period);
    }
  }
}
