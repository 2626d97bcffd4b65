/** The planned student feedback: who could rate whom, who stays silent, and what the aggregates may then say. */
module SpeakerFeedback {
  import opened Outcomes

  const STUDENT_COUNT := 8
  const MIN_RESPONSES := 3

  // ----- the plan ---------------------------------------------------------------------------------------------

  /** `posted / 0.75` rounded to the nearest whole number; a third is never a half. */
  function Opportunities(posted: nat): (n: nat)
    ensures 3 * n - 1 <= 4 * posted <= 3 * n + 1
    ensures posted <= n
  {
    (8 * posted + 3) / 6
  }

  datatype Entry = Entry(speaker: nat, student: nat, rating: Option<int>)

  datatype Refusal = NoSpeakers | NegativeCount | CohortTooSmall

  /** The rating scale, each rating as often as it weighs. */
  const SCALE: seq<int> := [5, 5, 5, 5, 5, 4, 4, 4, 4, 4, 4, 4, 4, 3, 3, 3, 3, 2, 2, 1]

  /** How many of the entries carry a rating. */
  function Rated(entries: seq<Entry>): nat {
    if entries == [] then 0
    else
      Rated(entries[..|entries| - 1]) + if entries[|entries| - 1].rating.Some? then 1 else 0
  }

  predicate Drawn(e: Entry, speaker: nat, student: nat) {
    e.speaker == speaker && e.student == student && (e.rating.Some? ==> e.rating.value in SCALE)
  }

  /** One speaker's entries: cohort ranks from one up, as many ratings as planned, the rest silent. */
  ghost predicate Round(entries: seq<Entry>, speaker: nat, posted: int) {
    && posted >= 0 && |entries| == Opportunities(posted) && Rated(entries) == posted
    && forall k :: 0 <= k < |entries| ==> Drawn(entries[k], speaker, k + 1)
  }

  /** The rounds of every speaker in turn. */
  ghost predicate Planned(shape: seq<int>, planned: seq<Entry>)
    decreases |shape|
  {
    if shape == [] then planned == []
    else
      var last := |shape| - 1;
      && shape[last] >= 0 && |planned| >= Opportunities(shape[last])
      && var split := |planned| - Opportunities(shape[last]);
         Round(planned[split..], last, shape[last]) && Planned(shape[..last], planned[..split])
  }

  function Ranks(n: nat): (r: set<nat>)
    ensures |r| == n && forall rank :: rank in r <==> 1 <= rank <= n
  {
    if n == 0 then {} else Ranks(n - 1) + {n}
  }

  lemma {:induction false} SampleExists(ranks: set<nat>, size: nat)
    requires size <= |ranks|
    ensures exists chosen: set<nat> :: chosen <= ranks && |chosen| == size
  {
    if size == 0 {
      var none: set<nat> := {};
      assert none <= ranks && |none| == 0;
    } else {
      var x :| x in ranks;
      SampleExists(ranks - {x}, size - 1);
      var rest: set<nat> :| rest <= ranks - {x} && |rest| == size - 1;
      assert rest + {x} <= ranks && |rest + {x}| == size;
    }
  }

  method BuildSpeakerFeedback(shape: seq<int>) returns (r: Result<seq<Entry>, Refusal>)
    ensures r == Err(NoSpeakers) <==> shape == []
    ensures r == Err(NegativeCount) <==> exists i :: 0 <= i < |shape| && shape[i] < 0
    ensures r == Err(CohortTooSmall) <==>
              && (forall i :: 0 <= i < |shape| ==> shape[i] >= 0)
              && exists i :: 0 <= i < |shape| && Opportunities(shape[i]) > 8
    ensures r.Ok? ==> Planned(shape, r.value)
  {
    if shape == [] {
      return Err(NoSpeakers);
    }
    if exists i :: 0 <= i < |shape| && shape[i] < 0 {
      return Err(NegativeCount);
    }
    if exists i :: 0 <= i < |shape| && Opportunities(shape[i]) > STUDENT_COUNT {
      return Err(CohortTooSmall);
    }
    var planned := [];
    assert shape[..0] == [];
    for speaker := 0 to |shape|
      invariant Planned(shape[..speaker], planned)
    {
      var round := PlanRound(speaker, shape[speaker]);
      assert shape[..speaker + 1][..speaker] == shape[..speaker];
      assert (planned + round)[|planned|..] == round && (planned + round)[..|planned|] == planned;
      planned := planned + round;
    }
    assert shape[..|shape|] == shape;
    return Ok(planned);
  }

  /** Which of the students speak is drawn; any choice of the right size will do. */
  method DrawSpeaking(opportunities: nat, posted: nat) returns (speaking: set<nat>)
    requires posted <= opportunities
    ensures speaking <= Ranks(opportunities) && |speaking| == posted
  {
    SampleExists(Ranks(opportunities), posted);
    speaking :| speaking <= Ranks(opportunities) && |speaking| == posted;
  }

  method DrawRating() returns (rating: int)
    ensures rating in SCALE
  {
    assert SCALE[0] in SCALE;
    rating :| rating in SCALE;
  }

  method PlanRound(speaker: nat, posted: nat) returns (entries: seq<Entry>)
    ensures Round(entries, speaker, posted)
  {
    hide SCALE, Ranks;
    var opportunities := Opportunities(posted);
    var speaking := DrawSpeaking(opportunities, posted);
    entries := [];
    assert speaking * Ranks(0) == {};
    for rank := 0 to opportunities
      invariant |entries| == rank && Rated(entries) == |speaking * Ranks(rank)|
      invariant forall k :: 0 <= k < rank ==> Drawn(entries[k], speaker, k + 1)
    {
      var rating := None;
      OneMoreRank(speaking, rank);
      if rank + 1 in speaking {
        var drawn := DrawRating();
        rating := Some(drawn);
      }
      RatedOneMore(entries, Entry(speaker, rank + 1, rating));
      entries := entries + [Entry(speaker, rank + 1, rating)];
    }
    assert speaking * Ranks(opportunities) == speaking;
  }

  lemma RatedOneMore(entries: seq<Entry>, e: Entry)
    ensures Rated(entries + [e]) == Rated(entries) + if e.rating.Some? then 1 else 0
  {
    assert (entries + [e])[..|entries|] == entries;
  }

  lemma OneMoreRank(speaking: set<nat>, rank: nat)
    ensures |speaking * Ranks(rank + 1)| == |speaking * Ranks(rank)| + if rank + 1 in speaking then 1 else 0
  {
    if rank + 1 in speaking {
      assert speaking * Ranks(rank + 1) == speaking * Ranks(rank) + {rank + 1};
    } else {
      assert speaking * Ranks(rank + 1) == speaking * Ranks(rank);
    }
  }

  // ----- what a plan gives each speaker ----------------------------------------------------------------------------

  /** The ratings a speaker received. */
  function Posted(planned: seq<Entry>, speaker: nat): nat {
    if planned == [] then 0
    else
      var last := planned[|planned| - 1];
      Posted(planned[..|planned| - 1], speaker) + if last.speaker == speaker && last.rating.Some? then 1 else 0
  }

  lemma {:induction false} PostedTogether(a: seq<Entry>, b: seq<Entry>, speaker: nat)
    ensures Posted(a + b, speaker) == Posted(a, speaker) + Posted(b, speaker)
    ensures Rated(a + b) == Rated(a) + Rated(b)
    decreases |b|
  {
    if b == [] {
      assert a + b == a;
    } else {
      assert (a + b)[..|a + b| - 1] == a + b[..|b| - 1];
      PostedTogether(a, b[..|b| - 1], speaker);
    }
  }

  lemma {:induction false} PostedInRound(entries: seq<Entry>, speaker: nat, other: nat)
    requires forall e :: e in entries ==> e.speaker == speaker
    ensures Posted(entries, other) == if other == speaker then Rated(entries) else 0
  {
    if entries != [] {
      PostedInRound(entries[..|entries| - 1], speaker, other);
    }
  }

  /** Each speaker receives exactly the planned number of ratings, and nobody else receives any. */
  lemma {:induction false} EachSpeakerReceivesExactly(shape: seq<int>, planned: seq<Entry>, speaker: nat)
    requires Planned(shape, planned)
    ensures Posted(planned, speaker) == if speaker < |shape| then shape[speaker] else 0
    decreases |shape|
  {
    if shape != [] {
      var last := |shape| - 1;
      var split := |planned| - Opportunities(shape[last]);
      EachSpeakerReceivesExactly(shape[..last], planned[..split], speaker);
      PostedInRound(planned[split..], last, speaker);
      PostedTogether(planned[..split], planned[split..], speaker);
      assert planned == planned[..split] + planned[split..];
    }
  }

  /** Every entry is a student of the cohort on a speaker of the shape, with a rating from one to five or none. */
  lemma {:induction false} EntriesAreInRange(shape: seq<int>, planned: seq<Entry>, e: Entry)
    requires Planned(shape, planned) && e in planned
    requires forall i :: 0 <= i < |shape| ==> 0 <= shape[i] && Opportunities(shape[i]) <= 8
    ensures e.speaker < |shape| && 1 <= e.student <= 8 && (e.rating.Some? ==> 1 <= e.rating.value <= 5)
    decreases |shape|
  {
    var last := |shape| - 1;
    var split := |planned| - Opportunities(shape[last]);
    assert planned == planned[..split] + planned[split..];
    if e in planned[..split] {
      EntriesAreInRange(shape[..last], planned[..split], e);
    } else {
      ScaleIsInRange();
      hide SCALE;
      var k :| 0 <= k < |planned[split..]| && planned[split..][k] == e;
      assert Drawn(planned[split..][k], last, k + 1);
    }
  }

  lemma ScaleIsInRange()
    ensures forall r :: r in SCALE ==> 1 <= r <= 5
  {
  }

  /** Of twenty draws five are a five, eight a four, four a three, two a two and one a one. */
  lemma ScaleWeighs(i: nat)
    requires i < 20
    ensures |SCALE| == 20
    ensures SCALE[i] == if i < 5 then 5 else if i < 13 then 4 else if i < 17 then 3 else if i < 19 then 2 else 1
  {
  }

  // ----- the summary -----------------------------------------------------------------------------------------------

  /** One more than the highest speaker rank planned. */
  function Width(planned: seq<Entry>): (w: nat)
    ensures forall e :: e in planned ==> e.speaker < w
  {
    if planned == [] then 0
    else
      var last := |planned| - 1;
      assert planned == planned[..last] + [planned[last]];
      var w := Width(planned[..last]);
      if planned[last].speaker >= w then planned[last].speaker + 1 else w
  }

  function Tally(planned: seq<Entry>, width: nat): (t: seq<nat>)
    ensures |t| == width && forall i :: 0 <= i < width ==> t[i] == Posted(planned, i)
  {
    seq(width, i requires 0 <= i => Posted(planned, i))
  }

  /** The sum of the counts of some of the speakers. */
  function Sum(tally: seq<nat>, some: set<nat>): nat {
    if tally == [] then 0
    else
      var last := |tally| - 1;
      Sum(tally[..last], some) + if last in some then tally[last] else 0
  }

  function Heard(tally: seq<nat>): set<nat> {
    set i | 0 <= i < |tally| && tally[i] >= 1
  }

  function Published(tally: seq<nat>): set<nat> {
    set i | 0 <= i < |tally| && tally[i] >= MIN_RESPONSES
  }

  function Suppressed(tally: seq<nat>): set<nat> {
    set i | 0 <= i < |tally| && 1 <= tally[i] < MIN_RESPONSES
  }

  predicate Safe(n: int) {
    n == 0 || n >= MIN_RESPONSES
  }

  datatype Summary = Summary(
    opportunities: nat, posted: nat, withheld: int, published: nat, suppressed: nat, residual: int, unitPublishes: bool)

  function Summarized(planned: seq<Entry>): Summary {
    var tally := Tally(planned, Width(planned));
    var posted := Sum(tally, Heard(tally));
    var residual := posted - Sum(tally, Published(tally));
    Summary(|planned|, posted, |planned| - posted, |Published(tally)|, |Suppressed(tally)|, residual,
            posted >= MIN_RESPONSES && Safe(residual))
  }

  /** Each rated speaker's count. */
  method CountRatings(planned: seq<Entry>) returns (counts: map<nat, nat>)
    ensures forall s :: s in counts <==> Posted(planned, s) > 0
    ensures forall s :: s in counts ==> counts[s] == Posted(planned, s)
  {
    counts := map[];
    for i := 0 to |planned|
      invariant forall s :: s in counts <==> Posted(planned[..i], s) > 0
      invariant forall s :: s in counts ==> counts[s] == Posted(planned[..i], s)
    {
      var entry := planned[i];
      assert planned[..i + 1][..i] == planned[..i];
      if entry.rating.Some? {
        counts := counts[entry.speaker := (if entry.speaker in counts then counts[entry.speaker] else 0) + 1];
      }
    }
    assert planned[..|planned|] == planned;
  }

  /** The sums over the counts do not depend on the order they are taken in. */
  method SummarizeFeedback(planned: seq<Entry>) returns (r: Summary)
    ensures r == Summarized(planned)
  {
    hide Posted, Published, Suppressed, Heard, Width;
    var counts := CountRatings(planned);
    ghost var tally := Tally(planned, Width(planned));
    var posted, publishedSum, published, suppressed := 0, 0, 0, 0;
    NobodyYet();
    assert tally[..0] == [];
    for s := 0 to Width(planned)
      invariant posted == Sum(tally[..s], Heard(tally)) && publishedSum == Sum(tally[..s], Published(tally))
      invariant published == |Published(tally[..s])| && suppressed == |Suppressed(tally[..s])|
    {
      assert tally[..s + 1][..s] == tally[..s] && tally[s] == Posted(planned, s);
      OneMoreSpeaker(tally[..s + 1]);
      IsHeard(tally, s);
      if s in counts {
        posted := posted + counts[s];
        if counts[s] >= MIN_RESPONSES {
          publishedSum, published := publishedSum + counts[s], published + 1;
        } else {
          suppressed := suppressed + 1;
        }
      }
    }
    assert tally[..|tally|] == tally;
    var residual := posted - publishedSum;
    return Summary(|planned|, posted, |planned| - posted, published, suppressed, residual,
                   posted >= MIN_RESPONSES && (residual == 0 || residual >= MIN_RESPONSES));
  }

  lemma NobodyYet()
    ensures Published([]) == {} && Suppressed([]) == {}
  {
  }

  lemma IsHeard(tally: seq<nat>, s: nat)
    requires s < |tally|
    ensures s in Heard(tally) <==> tally[s] >= 1
    ensures s in Published(tally) <==> tally[s] >= MIN_RESPONSES
  {
  }

  lemma OneMoreIn(some: set<nat>, fewer: set<nat>, last: nat, belongs: bool)
    requires last !in fewer && forall i :: i in some <==> i in fewer || (i == last && belongs)
    ensures |some| == |fewer| + if belongs then 1 else 0
  {
    assert some == fewer + if belongs then {last} else {};
  }

  lemma OneMoreSpeaker(tally: seq<nat>)
    requires tally != []
    ensures var last := |tally| - 1;
            && |Published(tally)| == |Published(tally[..last])| + (if tally[last] >= MIN_RESPONSES then 1 else 0)
            && |Suppressed(tally)| == |Suppressed(tally[..last])| + (if 1 <= tally[last] < MIN_RESPONSES then 1 else 0)
  {
    var last := |tally| - 1;
    OneMoreIn(Published(tally), Published(tally[..last]), last, tally[last] >= MIN_RESPONSES);
    OneMoreIn(Suppressed(tally), Suppressed(tally[..last]), last, 1 <= tally[last] < MIN_RESPONSES);
  }

  /** The published and the suppressed together are the speakers somebody rated. */
  lemma PublishedAndSuppressedAreHeard(planned: seq<Entry>)
    ensures var tally := Tally(planned, Width(planned));
            Summarized(planned).published + Summarized(planned).suppressed == |Heard(tally)|
  {
    var tally := Tally(planned, Width(planned));
    assert Heard(tally) == Published(tally) + Suppressed(tally) && Published(tally) !! Suppressed(tally);
  }

  lemma {:induction false} SumWithout(tally: seq<nat>, all: set<nat>, some: set<nat>)
    requires some <= all
    ensures Sum(tally, all) == Sum(tally, some) + Sum(tally, all - some)
  {
    if tally != [] {
      SumWithout(tally[..|tally| - 1], all, some);
    }
  }

  lemma {:induction false} SumOfPublished(tally: seq<nat>, some: set<nat>)
    requires forall i :: i in some && i < |tally| ==> tally[i] >= MIN_RESPONSES
    ensures Safe(Sum(tally, some))
  {
    if tally != [] {
      SumOfPublished(tally[..|tally| - 1], some);
    }
  }

  /** Whichever published speakers a reader takes out of the pool, what remains is nothing or at least three ratings. */
  ghost predicate EveryRemainderIsSafe(tally: seq<nat>) {
    forall some :: some <= Published(tally) ==> Safe(Sum(tally, Heard(tally)) - Sum(tally, some))
  }

  lemma ResidualDecides(tally: seq<nat>)
    ensures Safe(Sum(tally, Heard(tally)) - Sum(tally, Published(tally))) <==> EveryRemainderIsSafe(tally)
  {
    hide Sum;
    if Safe(Sum(tally, Heard(tally)) - Sum(tally, Published(tally))) {
      forall some | some <= Published(tally)
        ensures Safe(Sum(tally, Heard(tally)) - Sum(tally, some))
      {
        SumWithout(tally, Heard(tally), Published(tally));
        SumWithout(tally, Published(tally), some);
        SumOfPublished(tally, Published(tally) - some);
      }
    }
  }

  /** The unit publishes exactly when its pool is large enough and no remainder of it is small. */
  lemma UnitPublishesExactlyWhenNoRemainderIsSmall(planned: seq<Entry>)
    ensures var tally := Tally(planned, Width(planned));
            Summarized(planned).unitPublishes <==>
              Sum(tally, Heard(tally)) >= MIN_RESPONSES && EveryRemainderIsSafe(tally)
  {
    ResidualDecides(Tally(planned, Width(planned)));
  }

  // ----- the shipped shape --------------------------------------------------------------------------------------------

  lemma {:induction false} SpeakersAreInShape(shape: seq<int>, planned: seq<Entry>)
    requires Planned(shape, planned)
    ensures forall e :: e in planned ==> e.speaker < |shape|
    decreases |shape|
  {
    if shape != [] {
      var last := |shape| - 1;
      var split := |planned| - Opportunities(shape[last]);
      SpeakersAreInShape(shape[..last], planned[..split]);
      assert planned == planned[..split] + planned[split..];
    }
  }

  lemma {:induction false} WidthIsLeast(planned: seq<Entry>, w: nat)
    requires forall e :: e in planned ==> e.speaker < w
    ensures Width(planned) <= w
  {
    if planned != [] {
      WidthIsLeast(planned[..|planned| - 1], w);
    }
  }

  /** The counts behind the summary of a plan are the shape it was built from. */
  lemma TallyIsTheShape(shape: seq<int>, planned: seq<Entry>)
    requires Planned(shape, planned) && shape != [] && shape[|shape| - 1] > 0
    ensures Tally(planned, Width(planned)) == shape
  {
    SpeakersAreInShape(shape, planned);
    WidthIsLeast(planned, |shape|);
    assert planned[|planned| - 1].speaker == |shape| - 1 by {
      var split := |planned| - Opportunities(shape[|shape| - 1]);
      var round := planned[split..];
      assert round[|round| - 1] == planned[|planned| - 1];
    }
    assert planned[|planned| - 1] in planned;
    forall i | 0 <= i < |shape|
      ensures Posted(planned, i) == shape[i]
    {
      EachSpeakerReceivesExactly(shape, planned, i);
    }
  }

  lemma SumOfThree(a: nat, b: nat, c: nat, some: set<nat>)
    ensures Sum([a, b, c], some)
            == (if 0 in some then a else 0) + (if 1 in some then b else 0) + (if 2 in some then c else 0)
  {
    assert [a, b, c][..2] == [a, b] && [a, b][..1] == [a] && [a][..0] == [];
    assert Sum([a], some) == if 0 in some then a else 0;
    assert Sum([a, b], some) == Sum([a], some) + if 1 in some then b else 0;
  }

  /** The shipped shape publishes the unit beside two suppressed speakers; without its last entry it would not publish. */
  lemma ShippedShapePublishes(planned: seq<Entry>, shorter: seq<Entry>)
    requires Planned([5, 4, 2, 1], planned) && Planned([5, 4, 2], shorter)
    ensures Summarized(planned).unitPublishes && Summarized(planned).residual == 3
    ensures Summarized(planned).published == 2 && Summarized(planned).suppressed == 2
    ensures !Summarized(shorter).unitPublishes && Summarized(shorter).residual == 2
  {
    TallyIsTheShape([5, 4, 2, 1], planned);
    TallyIsTheShape([5, 4, 2], shorter);
    hide Tally, Planned, Width, Posted;
    var tally: seq<nat>, fewer: seq<nat> := [5, 4, 2, 1], [5, 4, 2];
    assert tally[..3] == fewer;
    assert Heard(tally) == {0, 1, 2, 3} && Heard(fewer) == {0, 1, 2};
    assert Published(tally) == {0, 1} && Published(fewer) == {0, 1} && Suppressed(tally) == {2, 3};
    SumOfThree(5, 4, 2, Heard(tally));
    SumOfThree(5, 4, 2, Heard(fewer));
    SumOfThree(5, 4, 2, Published(tally));
  }
}
