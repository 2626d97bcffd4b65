/** The demo student's attendance, points and agenda, reconciled with whatever an earlier run or the student left. */
module StudentAgenda {
  import opened Ordering
  import opened Outcomes

  datatype Status = Registered | Cancelled

  /** One student's rows, by event: attendance, the credit each attendance earned, and places held or given up. */
  datatype Agenda = Agenda(attended: set<nat>, credited: set<nat>, places: map<nat, Status>)

  const STUDENT_REGISTRATIONS := 4
  const STUDENT_CANCELLATIONS := 1

  class AgendaStore {
    var attended: set<nat>
    var credited: set<nat>
    var places: map<nat, Status>

    constructor ()
      ensures State() == Agenda({}, {}, map[])
    {
      attended, credited, places := {}, {}, map[];
    }

    function State(): Agenda
      reads this
    {
      Agenda(attended, credited, places)
    }

    method RecordAttendance(event: nat) returns (created: bool)
      modifies this`attended
      ensures created == (event !in old(attended)) && attended == old(attended) + {event}
    {
      created := event !in attended;
      attended := attended + {event};
    }

    /** An attendance is credited once; the partial unique index refuses a second credit. */
    method CreditAttendance(event: nat) returns (accepted: bool)
      modifies this`credited
      ensures accepted == (event !in old(credited)) && credited == old(credited) + {event}
    {
      accepted := event !in credited;
      credited := credited + {event};
    }

    /** Takes the place, or takes it again after a cancellation. */
    method Register(event: nat) returns (changed: bool)
      modifies this`places
      ensures changed == (event !in old(places) || old(places)[event] != Registered)
      ensures places == old(places)[event := Registered]
    {
      changed := event !in places || places[event] != Registered;
      places := places[event := Registered];
    }

    /** Gives a held place up; writes no row where there is none. */
    method Cancel(event: nat) returns (changed: bool)
      modifies this`places
      ensures changed == (event in old(places) && old(places)[event] == Registered)
      ensures places == if event in old(places) then old(places)[event := Cancelled] else old(places)
    {
      changed := event in places && places[event] == Registered;
      if event in places {
        places := places[event := Cancelled];
      }
    }
  }

  // ----- specification --------------------------------------------------------------------------------------

  datatype Report = Report(attendances: nat, credits: nat, registrations: nat, cancellations: nat, nothingLeft: bool)

  datatype Refusal = NothingAttended

  function Upcoming(candidates: seq<nat>, attended: seq<nat>): (r: seq<nat>)
    ensures forall e :: e in r <==> e in candidates && e !in attended
  {
    if candidates == [] then []
    else
      var last := |candidates| - 1;
      assert candidates == candidates[..last] + [candidates[last]];
      Upcoming(candidates[..last], attended) + if candidates[last] in attended then [] else [candidates[last]]
  }

  /** The first events of those still ahead, places to keep before places to give up. */
  function Wanted(candidates: seq<nat>, attended: seq<nat>): seq<nat> {
    var upcoming := Upcoming(candidates, attended);
    var total := STUDENT_REGISTRATIONS + STUDENT_CANCELLATIONS;
    if |upcoming| <= total then upcoming else upcoming[..total]
  }

  function Kept(wanted: seq<nat>): seq<nat>
    requires wanted != []
  {
    wanted[..|wanted| - STUDENT_CANCELLATIONS]
  }

  function GivenUp(wanted: seq<nat>): nat
    requires wanted != []
  {
    wanted[|wanted| - STUDENT_CANCELLATIONS]
  }

  function AllRegistered(events: seq<nat>): (r: map<nat, Status>)
    ensures forall e :: e in r <==> e in events
  {
    map e | e in events :: Registered
  }

  /** The agenda a run converges on, from any earlier one. */
  function Reconciled(a: Agenda, attended: seq<nat>, candidates: seq<nat>): Agenda {
    var events := Members(attended);
    var wanted := Wanted(candidates, attended);
    var places := if wanted == [] then a.places
                  else a.places + AllRegistered(Kept(wanted)) + map[GivenUp(wanted) := Cancelled];
    Agenda(a.attended + events, a.credited + events, places)
  }

  /** How many of the events were not there before. */
  function NewOnes(events: seq<nat>, have: set<nat>): nat {
    |Members(events) - have|
  }

  /** The places to keep that a run has to take. */
  function Taken(places: map<nat, Status>, kept: seq<nat>): set<nat> {
    set e | e in kept && !Held(places, e)
  }

  predicate Held(places: map<nat, Status>, event: nat) {
    event in places && places[event] == Registered
  }

  predicate GivenUpAlready(places: map<nat, Status>, event: nat) {
    event in places && places[event] == Cancelled
  }

  /** The registrations a run reports: giving up a place it did not take itself still counts one back. */
  function Counted(places: map<nat, Status>, wanted: seq<nat>): nat
    requires wanted != []
  {
    var taken := |Taken(places, Kept(wanted))|;
    if Held(places, GivenUp(wanted)) && taken > 0 then taken - 1 else taken
  }

  // ----- the tool ---------------------------------------------------------------------------------------------

  method SeedStudent(store: AgendaStore, attended: seq<nat>, candidates: seq<nat>) returns (r: Result<Report, Refusal>)
    requires Distinct(candidates)
    modifies store
    ensures attended == [] ==> r == Err(NothingAttended) && store.State() == old(store.State())
    ensures attended != [] ==> r.Ok? && store.State() == Reconciled(old(store.State()), attended, candidates)
    ensures r.Ok? ==>
              && r.value.attendances == NewOnes(attended, old(store.attended))
              && r.value.credits == NewOnes(attended, old(store.credited))
              && r.value.nothingLeft == (Wanted(candidates, attended) == [])
    ensures r.Ok? && r.value.nothingLeft ==> r.value.registrations == 0 && r.value.cancellations == 0
    ensures r.Ok? && !r.value.nothingLeft ==>
              var wanted, places := Wanted(candidates, attended), old(store.places);
              && r.value.registrations == Counted(places, wanted)
              && r.value.cancellations == if GivenUpAlready(places, GivenUp(wanted)) then 0 else 1
  {
    hide Upcoming, Members, AllRegistered;
    if attended == [] {
      return Err(NothingAttended);
    }
    var attendances, credits := RecordHistory(store, attended);
    var wanted := Wanted(candidates, attended);
    if wanted == [] {
      return Ok(Report(attendances, credits, 0, 0, true));
    }
    WantedIsDistinct(candidates, attended);
    var registrations := TakePlaces(store, Kept(wanted));
    assert GivenUp(wanted) !in Kept(wanted);
    var counted, cancellations := GivePlaceUp(store, GivenUp(wanted), registrations);
    return Ok(Report(attendances, credits, counted, cancellations, false));
  }

  method RecordHistory(store: AgendaStore, attended: seq<nat>) returns (attendances: nat, credits: nat)
    modifies store`attended, store`credited
    ensures store.attended == old(store.attended) + Members(attended)
    ensures store.credited == old(store.credited) + Members(attended)
    ensures attendances == NewOnes(attended, old(store.attended))
    ensures credits == NewOnes(attended, old(store.credited))
  {
    attendances, credits := 0, 0;
    NoMembers(attended, store.attended);
    NoMembers(attended, store.credited);
    hide Members, NewOnes;
    for i := 0 to |attended|
      invariant store.attended == old(store.attended) + Members(attended[..i])
      invariant store.credited == old(store.credited) + Members(attended[..i])
      invariant attendances == NewOnes(attended[..i], old(store.attended))
      invariant credits == NewOnes(attended[..i], old(store.credited))
    {
      OneMoreMember(attended, i, old(store.attended));
      OneMoreMember(attended, i, old(store.credited));
      var created := store.RecordAttendance(attended[i]);
      if created {
        attendances := attendances + 1;
      }
      var accepted := store.CreditAttendance(attended[i]);
      if accepted {
        credits := credits + 1;
      }
    }
    assert attended[..|attended|] == attended;
  }

  lemma NoMembers(events: seq<nat>, have: set<nat>)
    ensures Members(events[..0]) == {} && NewOnes(events[..0], have) == 0
  {
    assert Members(events[..0]) == {};
  }

  lemma OneMoreMember(events: seq<nat>, i: nat, have: set<nat>)
    requires i < |events|
    ensures Members(events[..i + 1]) == Members(events[..i]) + {events[i]}
    ensures NewOnes(events[..i + 1], have)
            == NewOnes(events[..i], have) + if events[i] in have + Members(events[..i]) then 0 else 1
    ensures have + Members(events[..i]) + {events[i]} == have + Members(events[..i + 1])
  {
    var before, after := Members(events[..i]), Members(events[..i + 1]);
    assert events[..i + 1] == events[..i] + [events[i]];
    assert after == before + {events[i]};
    assert after - have == before - have + if events[i] in have + before then {} else {events[i]};
  }

  /** A place already held is left alone. */
  method TakePlaces(store: AgendaStore, kept: seq<nat>) returns (registrations: nat)
    requires Distinct(kept)
    modifies store`places
    ensures store.places == old(store.places) + AllRegistered(kept)
    ensures registrations == |Taken(old(store.places), kept)|
  {
    var existing := store.places;
    registrations := 0;
    assert Taken(existing, kept[..0]) == {};
    for i := 0 to |kept|
      invariant forall e :: e in store.places <==> e in existing || e in kept[..i]
      invariant forall e :: e in store.places ==> store.places[e] == if e in kept[..i] then Registered else existing[e]
      invariant registrations == |Taken(existing, kept[..i])|
    {
      var event := kept[i];
      assert kept[..i + 1] == kept[..i] + [event] && event !in kept[..i];
      if event in existing && existing[event] == Registered {
        assert Taken(existing, kept[..i + 1]) == Taken(existing, kept[..i]);
        continue;
      }
      assert Taken(existing, kept[..i + 1]) == Taken(existing, kept[..i]) + {event};
      var changed := store.Register(event);
      if changed {
        registrations := registrations + 1;
      }
    }
    assert kept[..|kept|] == kept;
  }

  /** A cancellation needs a held place to give up, so one is taken first where there is none. */
  method GivePlaceUp(store: AgendaStore, event: nat, before: nat) returns (registrations: nat, cancellations: nat)
    modifies store`places
    ensures store.places == old(store.places)[event := Cancelled]
    ensures cancellations == if GivenUpAlready(old(store.places), event) then 0 else 1
    ensures registrations == if Held(old(store.places), event) && before > 0 then before - 1 else before
  {
    registrations, cancellations := before, 0;
    if event in store.places && store.places[event] == Cancelled {
      return;
    }
    if event !in store.places {
      var changed := store.Register(event);
      if changed {
        registrations := registrations + 1;
      }
    }
    var changed := store.Cancel(event);
    if changed {
      cancellations := cancellations + 1;
      registrations := if registrations > 0 then registrations - 1 else 0;
    }
  }

  lemma {:induction false} UpcomingIsDistinct(candidates: seq<nat>, attended: seq<nat>)
    requires Distinct(candidates)
    ensures Distinct(Upcoming(candidates, attended))
  {
    if candidates != [] {
      UpcomingIsDistinct(candidates[..|candidates| - 1], attended);
    }
  }

  lemma WantedIsDistinct(candidates: seq<nat>, attended: seq<nat>)
    requires Distinct(candidates)
    ensures Distinct(Wanted(candidates, attended)) && |Wanted(candidates, attended)| <= 5
    ensures forall e :: e in Wanted(candidates, attended) ==> e in candidates && e !in attended
  {
    UpcomingIsDistinct(candidates, attended);
    hide Upcoming;
    forall e | e in Wanted(candidates, attended)
      ensures e in Upcoming(candidates, attended)
    {
    }
  }

  // ----- what a run leaves -----------------------------------------------------------------------------------------

  /** What a run settles about one event. */
  ghost predicate SettledAt(a: Agenda, b: Agenda, attended: seq<nat>, wanted: seq<nat>, event: nat) {
    && (event in b.attended <==> event in a.attended || event in attended)
    && (event in b.credited <==> event in a.credited || event in attended)
    && if event !in wanted
       then (event in b.places <==> event in a.places) && (event in a.places ==> b.places[event] == a.places[event])
       else event in b.places && (b.places[event] == Cancelled <==> event == GivenUp(wanted))
  }

  lemma RunSettles(a: Agenda, attended: seq<nat>, candidates: seq<nat>, event: nat)
    requires Distinct(candidates)
    ensures SettledAt(a, Reconciled(a, attended, candidates), attended, Wanted(candidates, attended), event)
  {
    WantedIsDistinct(candidates, attended);
    hide Wanted;
    var wanted := Wanted(candidates, attended);
    if wanted != [] {
      assert wanted == Kept(wanted) + [GivenUp(wanted)];
      assert GivenUp(wanted) !in Kept(wanted);
    }
  }

  lemma OneAgendaIsSettled(a: Agenda, b: Agenda, c: Agenda, attended: seq<nat>, wanted: seq<nat>)
    requires forall event :: SettledAt(a, b, attended, wanted, event)
    requires forall event :: SettledAt(a, c, attended, wanted, event)
    ensures b == c
  {
    hide GivenUp;
    forall event: nat
      ensures event in b.attended <==> event in c.attended
      ensures event in b.credited <==> event in c.credited
      ensures event in b.places <==> event in c.places
      ensures event in b.places ==> b.places[event] == c.places[event]
    {
      assert SettledAt(a, b, attended, wanted, event) && SettledAt(a, c, attended, wanted, event);
    }
    assert b.attended == c.attended && b.credited == c.credited && b.places == c.places;
  }

  /**
   * The agenda a run leaves is the only one in which the attended events are credited, the kept places
   * held, the last one given up, and every other row as it was.
   */
  lemma RunLeavesTheAgenda(a: Agenda, b: Agenda, attended: seq<nat>, candidates: seq<nat>)
    requires Distinct(candidates)
    ensures b == Reconciled(a, attended, candidates) <==>
            forall event :: SettledAt(a, b, attended, Wanted(candidates, attended), event)
  {
    hide *;
    forall event: nat {
      RunSettles(a, attended, candidates, event);
    }
    if forall event :: SettledAt(a, b, attended, Wanted(candidates, attended), event) {
      OneAgendaIsSettled(a, b, Reconciled(a, attended, candidates), attended, Wanted(candidates, attended));
    }
  }

  /** How many of the first events are still ahead. */
  function Ahead(candidates: seq<nat>, attended: seq<nat>, i: nat): nat
    requires i <= |candidates|
  {
    |set j | 0 <= j < i && candidates[j] !in attended|
  }

  lemma OneMoreAhead(candidates: seq<nat>, attended: seq<nat>, i: nat)
    requires i < |candidates|
    ensures Ahead(candidates, attended, i + 1)
            == Ahead(candidates, attended, i) + if candidates[i] in attended then 0 else 1
  {
    var before := set j | 0 <= j < i && candidates[j] !in attended;
    var after := set j | 0 <= j < i + 1 && candidates[j] !in attended;
    assert after == if candidates[i] in attended then before else before + {i};
  }

  lemma AheadOfPrefix(candidates: seq<nat>, attended: seq<nat>, i: nat)
    requires candidates != [] && i < |candidates|
    ensures Ahead(candidates[..|candidates| - 1], attended, i) == Ahead(candidates, attended, i)
  {
    var shorter := candidates[..|candidates| - 1];
    assert (set j | 0 <= j < i && shorter[j] !in attended) == (set j | 0 <= j < i && candidates[j] !in attended);
  }

  lemma {:induction false} UpcomingAt(candidates: seq<nat>, attended: seq<nat>, i: nat)
    requires i <= |candidates|
    ensures |Upcoming(candidates, attended)| == Ahead(candidates, attended, |candidates|)
    ensures i < |candidates| && candidates[i] !in attended ==>
              Ahead(candidates, attended, i) < |Upcoming(candidates, attended)|
              && Upcoming(candidates, attended)[Ahead(candidates, attended, i)] == candidates[i]
  {
    hide Ahead;
    if candidates == [] {
      NothingAhead(candidates, attended);
    } else {
      var last := |candidates| - 1;
      OneMoreAhead(candidates, attended, last);
      AheadOfPrefix(candidates, attended, last);
      if i < last {
        UpcomingAt(candidates[..last], attended, i);
        AheadOfPrefix(candidates, attended, i);
      } else {
        UpcomingAt(candidates[..last], attended, last);
      }
    }
  }

  lemma NothingAhead(candidates: seq<nat>, attended: seq<nat>)
    ensures Ahead(candidates, attended, 0) == 0
  {
  }

  /**
   * Of the events still ahead the student holds a place at the first ones and has given the last of those up: at four
   * and the fifth, or, where fewer are ahead, at all of them but the last.
   */
  lemma PlacesAreTheNextEvents(a: Agenda, attended: seq<nat>, candidates: seq<nat>, i: nat)
    requires Distinct(candidates) && i < |candidates| && candidates[i] !in attended
    ensures var b, event := Reconciled(a, attended, candidates), candidates[i];
            var earlier, all := Ahead(candidates, attended, i), Ahead(candidates, attended, |candidates|);
            && (earlier < 4 && earlier + 1 < all ==> event in b.places && b.places[event] == Registered)
            && (earlier == 4 || (earlier < 4 && earlier + 1 == all) ==> event in b.places && b.places[event] == Cancelled)
            && (earlier > 4 ==> (event in b.places <==> event in a.places))
            && (earlier > 4 && event in a.places ==> b.places[event] == a.places[event])
  {
    UpcomingAt(candidates, attended, i);
    RunSettles(a, attended, candidates, candidates[i]);
    UpcomingIsDistinct(candidates, attended);
    hide Upcoming, Ahead, Reconciled;
    OneMoreAhead(candidates, attended, i);
    var upcoming, earlier := Upcoming(candidates, attended), Ahead(candidates, attended, i);
    var wanted := Wanted(candidates, attended);
    assert wanted != [];
    if earlier <= 4 {
      assert wanted[earlier] == upcoming[earlier] == candidates[i];
    } else {
      forall k | 0 <= k < |wanted|
        ensures wanted[k] != candidates[i]
      {
        assert wanted[k] == upcoming[k];
      }
    }
  }

  /** An attended event is never one of the places, so its row is left alone. */
  lemma AttendedIsNotAhead(attended: seq<nat>, candidates: seq<nat>, event: nat)
    requires Distinct(candidates) && event in attended
    ensures event !in Wanted(candidates, attended)
  {
    WantedIsDistinct(candidates, attended);
  }

  /** The report counts the places taken exactly unless a place held before the run is given up beside one taken. */
  lemma CounterIsExactUnless(places: map<nat, Status>, wanted: seq<nat>)
    requires wanted != []
    ensures Counted(places, wanted) == |Taken(places, Kept(wanted))| <==>
            !(Held(places, GivenUp(wanted)) && exists e :: e in Kept(wanted) && !Held(places, e))
  {
    hide Held, Kept;
    var taken := Taken(places, Kept(wanted));
    if e :| e in Kept(wanted) && !Held(places, e) {
      assert e in taken;
    }
  }

  /** A student holding only the place to be given up: all others are taken, and one fewer is reported. */
  lemma CounterMissesOne(attended: seq<nat>, candidates: seq<nat>)
    requires Distinct(candidates) && |Wanted(candidates, attended)| > 1
    ensures var wanted := Wanted(candidates, attended);
            var places := map[GivenUp(wanted) := Registered];
            && Taken(places, Kept(wanted)) == Members(Kept(wanted)) && |Members(Kept(wanted))| == |wanted| - 1
            && Counted(places, wanted) == |wanted| - 2
  {
    WantedIsDistinct(candidates, attended);
    hide Wanted;
    var wanted := Wanted(candidates, attended);
    DistinctSize(Kept(wanted), Members(Kept(wanted)));
    assert GivenUp(wanted) !in Kept(wanted);
  }

  /** A second run writes nothing. */
  lemma SecondRunWritesNothing(a: Agenda, attended: seq<nat>, candidates: seq<nat>)
    requires Distinct(candidates)
    ensures var b := Reconciled(a, attended, candidates);
            && Reconciled(b, attended, candidates) == b
            && (Wanted(candidates, attended) != [] ==> Taken(b.places, Kept(Wanted(candidates, attended))) == {})
  {
    WantedIsDistinct(candidates, attended);
    hide Wanted;
    var b := Reconciled(a, attended, candidates);
    var again := Reconciled(b, attended, candidates);
    var wanted := Wanted(candidates, attended);
    assert again.attended == b.attended && again.credited == b.credited;
    if wanted != [] {
      assert GivenUp(wanted) !in Kept(wanted);
      assert again.places == b.places;
    }
  }
}
