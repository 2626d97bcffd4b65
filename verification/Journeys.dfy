/**
 * Pipeline journeys: the stage writer's rules, the walk that stamps a journey through its stages,
 * and the generator that opens journeys by stride and walks each to its place in the cycle.
 */
module Journeys {
  import opened Outcomes

  // ----- the store ------------------------------------------------------------------------------------------

  /** The funnel's stages by their place in it. */
  type Stage = s: nat | s < 5

  const MATCHED: Stage := 0
  const CONTACTED: Stage := 1
  const CONFIRMED: Stage := 2
  const ATTENDED: Stage := 3
  const MEMBER_INQUIRY: Stage := 4

  /** The moments of the stages reached, matched first; reached stages are always a prefix of the funnel. */
  datatype Row = Row(times: seq<int>, cancelled: bool)

  /** A journey's natural key. */
  datatype Pair = Pair(subject: nat, event: nat)

  datatype Pipeline = Pipeline(rows: map<Pair, Row>, attended: set<Pair>)

  datatype Refusal = EntryStage | EvidenceMismatch | UnknownEvidence | NoRecord | CancelledBooking | Unreachable | OutOfOrder

  function Opened(p: Pipeline, key: Pair, at: int): Pipeline {
    if key in p.rows then p else p.(rows := p.rows[key := Row([at], false)])
  }

  function Advanced(p: Pipeline, key: Pair, stage: Stage, at: int, evidence: Option<Pair>)
    : Result<(Pipeline, bool), Refusal>
  {
    if stage == MATCHED then Err(EntryStage)
    else if (stage == ATTENDED) != evidence.Some? then Err(EvidenceMismatch)
    else if evidence.Some? && evidence.value !in p.attended then Err(UnknownEvidence)
    else if key !in p.rows then Err(NoRecord)
    else
      var row := p.rows[key];
      if stage == ATTENDED && row.cancelled then Err(CancelledBooking)
      else if stage < |row.times| then Ok((p, false))
      else if stage > |row.times| then Err(Unreachable)
      else if at < row.times[stage - 1] then Err(OutOfOrder)
      else Ok((p.(rows := p.rows[key := row.(times := row.times + [at])]), true))
  }

  class PipelineStore {
    var rows: map<Pair, Row>
    var attended: set<Pair>

    constructor ()
      ensures State() == Pipeline(map[], {})
    {
      rows, attended := map[], {};
    }

    function State(): Pipeline
      reads this
    {
      Pipeline(rows, attended)
    }

    /** Opens the journey, or leaves the one already there. */
    method RecordMatched(key: Pair, at: int)
      modifies this`rows
      ensures State() == Opened(old(State()), key, at)
    {
      if key !in rows {
        rows := rows[key := Row([at], false)];
      }
    }

    method RecordAttendance(key: Pair) returns (evidence: Pair)
      modifies this`attended
      ensures evidence == key && attended == old(attended) + {key}
    {
      attended := attended + {key};
      return key;
    }

    /** Whether this call is the one that reached the stage. */
    method AdvanceStage(key: Pair, stage: Stage, at: int, evidence: Option<Pair>) returns (r: Result<bool, Refusal>)
      modifies this`rows
      ensures match Advanced(old(State()), key, stage, at, evidence)
              case Err(e) => r == Err(e) && State() == old(State())
              case Ok((p, transitioned)) => r == Ok(transitioned) && State() == p
    {
      if stage == MATCHED {
        return Err(EntryStage);
      }
      if (stage == ATTENDED) != evidence.Some? {
        return Err(EvidenceMismatch);
      }
      if evidence.Some? && evidence.value !in attended {
        return Err(UnknownEvidence);
      }
      if key !in rows {
        return Err(NoRecord);
      }
      var row := rows[key];
      if stage == ATTENDED && row.cancelled {
        return Err(CancelledBooking);
      }
      if stage < |row.times| {
        return Ok(false);
      }
      if stage > |row.times| {
        return Err(Unreachable);
      }
      if at < row.times[stage - 1] {
        return Err(OutOfOrder);
      }
      rows := rows[key := row.(times := row.times + [at])];
      return Ok(true);
    }
  }

  // ----- the walk --------------------------------------------------------------------------------------------

  const STAGE_STEP_MINUTES := 10

  function StampAt(matchedAt: int, stage: nat): int {
    matchedAt + STAGE_STEP_MINUTES * stage
  }

  function Stepped(p: Pipeline, key: Pair, matchedAt: int, stage: Stage): Result<(Pipeline, bool), Refusal> {
    if stage == ATTENDED
    then Advanced(p.(attended := p.attended + {key}), key, stage, StampAt(matchedAt, stage), Some(key))
    else Advanced(p, key, stage, StampAt(matchedAt, stage), None)
  }

  /** The walk from a stage up to and including `through`, and how many stages it transitioned. */
  function Walked(p: Pipeline, key: Pair, matchedAt: int, from: nat, through: Stage): Result<(Pipeline, nat), Refusal>
    decreases through + 1 - from
  {
    if from > through then Ok((p, 0))
    else
      var (next, transitioned) :- Stepped(p, key, matchedAt, from);
      var (after, count) :- Walked(next, key, matchedAt, from + 1, through);
      Ok((after, count + if transitioned then 1 else 0))
  }

  method AdvanceJourney(store: PipelineStore, key: Pair, matchedAt: int, through: Stage) returns (r: Result<nat, Refusal>)
    modifies store
    ensures match Walked(old(store.State()), key, matchedAt, 1, through)
            case Err(e) => r == Err(e)
            case Ok((p, transitioned)) => r == Ok(transitioned) && store.State() == p
  {
    hide Advanced;
    var transitioned := 0;
    ghost var whole := Walked(store.State(), key, matchedAt, 1, through);
    for index := 1 to through + 1
      invariant var rest := Walked(store.State(), key, matchedAt, index, through);
                if rest.Err? then whole == Err(rest.error)
                else whole == Ok((rest.value.0, transitioned + rest.value.1))
    {
      var evidence := None;
      if index == ATTENDED {
        var id := store.RecordAttendance(key);
        evidence := Some(id);
      }
      var moved :- store.AdvanceStage(key, index, StampAt(matchedAt, index), evidence);
      if moved {
        transitioned := transitioned + 1;
      }
    }
    return Ok(transitioned);
  }

  // ----- the generator ------------------------------------------------------------------------------------------

  const DAY := 24 * 60
  const MATCH_LEAD_DAYS := 30
  const STRIDE := 7

  datatype EventPlan = EventPlan(id: nat, date: Option<int>)

  const CYCLE: seq<Option<Stage>> := [
    None, Some(CONTACTED), Some(CONFIRMED), Some(ATTENDED),
    None, Some(CONTACTED), Some(CONFIRMED), Some(ATTENDED), Some(MEMBER_INQUIRY),
    None, Some(CONTACTED), Some(CONFIRMED), Some(ATTENDED),
    None, Some(CONTACTED), Some(CONFIRMED), Some(ATTENDED), Some(MEMBER_INQUIRY),
    None, Some(CONTACTED), Some(CONFIRMED), Some(ATTENDED),
    None, Some(CONTACTED), Some(CONFIRMED), Some(ATTENDED), Some(MEMBER_INQUIRY),
    None, Some(CONTACTED), Some(CONFIRMED), Some(ATTENDED),
    None, Some(CONTACTED), Some(CONFIRMED), Some(ATTENDED),
    None]

  function Through(journey: nat): Option<Stage> {
    CYCLE[journey % |CYCLE|]
  }

  function Resolved(events: seq<EventPlan>): (r: seq<EventPlan>)
    ensures forall e :: e in r ==> e.date.Some? && e in events
  {
    if events == [] then []
    else (if events[0].date.Some? then [events[0]] else []) + Resolved(events[1..])
  }

  /** Nine in the morning, thirty days before the event. */
  function MatchedAt(event: EventPlan): int
    requires event.date.Some?
  {
    event.date.value * DAY + 9 * 60 - MATCH_LEAD_DAYS * DAY
  }

  /** What the plan is over: the professionals, and the events that have a date. */
  datatype Plan = Plan(subjects: seq<nat>, resolved: seq<EventPlan>) {
    predicate Usable() {
      subjects != [] && resolved != [] && forall e :: e in resolved ==> e.date.Some?
    }

    function Event(journey: nat): EventPlan
      requires resolved != []
    {
      resolved[journey % |resolved|]
    }

    function Key(journey: nat): Pair
      requires subjects != [] && resolved != []
    {
      Pair(subjects[(journey * STRIDE) % |subjects|], Event(journey).id)
    }
  }

  function WrittenOne(p: Pipeline, plan: Plan, journey: nat): Result<(Pipeline, nat), Refusal>
    requires plan.Usable()
  {
    var key, at := plan.Key(journey), MatchedAt(plan.Event(journey));
    var started := Opened(p, key, at);
    match Through(journey)
    case None => Ok((started, 0))
    case Some(stage) => Walked(started, key, at, 1, stage)
  }

  function Written(p: Pipeline, plan: Plan, from: nat, count: nat): Result<(Pipeline, nat), Refusal>
    requires plan.Usable()
    decreases count - from
  {
    if from >= count then Ok((p, 0))
    else
      var (next, moved) :- WrittenOne(p, plan, from);
      var (after, rest) :- Written(next, plan, from + 1, count);
      Ok((after, moved + rest))
  }

  datatype Report = Report(journeys: nat, advanced: nat, nothingToPair: bool)

  /** Opens one journey of the plan and walks it to its stage. */
  method WriteJourney(store: PipelineStore, plan: Plan, journey: nat) returns (r: Result<nat, Refusal>)
    requires plan.Usable()
    modifies store
    ensures match WrittenOne(old(store.State()), plan, journey)
            case Err(e) => r == Err(e)
            case Ok((p, moved)) => r == Ok(moved) && store.State() == p
  {
    hide Walked, Through;
    var key, at := plan.Key(journey), MatchedAt(plan.Event(journey));
    store.RecordMatched(key, at);
    var through := Through(journey);
    if through == None {
      return Ok(0);
    }
    r := AdvanceJourney(store, key, at, through.value);
  }

  method WriteJourneys(store: PipelineStore, subjects: seq<nat>, events: seq<EventPlan>, count: nat)
    returns (r: Result<Report, Refusal>)
    modifies store
    ensures var plan := Plan(subjects, Resolved(events));
            if !plan.Usable() then r == Ok(Report(0, 0, true)) && store.State() == old(store.State())
            else match Written(old(store.State()), plan, 0, count)
              case Err(e) => r == Err(e)
              case Ok((p, moved)) => r == Ok(Report(count, moved, false)) && store.State() == p
  {
    hide WrittenOne;
    var plan := Plan(subjects, Resolved(events));
    if plan.resolved == [] || subjects == [] {
      return Ok(Report(0, 0, true));
    }
    var advanced := 0;
    ghost var whole := Written(store.State(), plan, 0, count);
    for index := 0 to count
      invariant var rest := Written(store.State(), plan, index, count);
                if rest.Err? then whole == Err(rest.error)
                else whole == Ok((rest.value.0, advanced + rest.value.1))
    {
      var moved :- WriteJourney(store, plan, index);
      advanced := advanced + moved;
    }
    return Ok(Report(count, advanced, false));
  }
}
