/** The codes an event asks for: one weighted draw, one rotation, and draws until there are enough. */
module EventTargets {
  import opened Arithmetic
  import opened Ordering
  import opened Outcomes

  const EVENT_TARGETS := 2
  const ROTATION := 3

  // ----- specification --------------------------------------------------------------------------------------

  /** Draws from a stream until enough codes are chosen; none when the stream ends first. */
  function Drawn(chosen: set<string>, vocabulary: seq<string>, draws: seq<nat>): Option<set<string>>
    requires forall i :: 0 <= i < |draws| ==> draws[i] < |vocabulary|
    decreases |draws|
  {
    if |chosen| >= Min(EVENT_TARGETS, |vocabulary|) then Some(chosen)
    else if draws == [] then None
    else Drawn(chosen + {vocabulary[draws[0]]}, vocabulary, draws[1..])
  }

  /** The chosen codes in vocabulary order. */
  function Kept(vocabulary: seq<string>, chosen: set<string>): (r: seq<string>)
    ensures forall code :: code in r <==> code in vocabulary && code in chosen
    decreases |vocabulary|
  {
    if vocabulary == [] then []
    else
      var last := |vocabulary| - 1;
      assert vocabulary == vocabulary[..last] + [vocabulary[last]];
      Kept(vocabulary[..last], chosen) + if vocabulary[last] in chosen then [vocabulary[last]] else []
  }

  function Rotated(vocabulary: seq<string>, index: nat): string
    requires vocabulary != []
  {
    vocabulary[(index * ROTATION) % |vocabulary|]
  }

  /** What chance contributes to one event: where the weighted draw lands, and the draws after it. */
  datatype Chance = Chance(head: nat, draws: seq<nat>) {
    predicate Within(n: nat) {
      head < n && forall i :: 0 <= i < |draws| ==> draws[i] < n
    }
  }

  function Targets(vocabulary: seq<string>, index: nat, chance: Chance): Option<seq<string>>
    requires vocabulary != [] && chance.Within(|vocabulary|)
  {
    match Drawn({vocabulary[chance.head], Rotated(vocabulary, index)}, vocabulary, chance.draws)
    case None => None
    case Some(chosen) => Some(Kept(vocabulary, chosen))
  }

  datatype Refusal = EmptyVocabulary | StreamEnded

  method PlanTargets(vocabulary: seq<string>, index: nat, chance: Chance) returns (r: Result<seq<string>, Refusal>)
    requires vocabulary != [] ==> chance.Within(|vocabulary|)
    ensures r == Err(EmptyVocabulary) <==> vocabulary == []
    ensures vocabulary != [] ==>
              r == match Targets(vocabulary, index, chance) { case None => Err(StreamEnded) case Some(codes) => Ok(codes) }
  {
    if vocabulary == [] {
      return Err(EmptyVocabulary);
    }
    var chosen := {vocabulary[chance.head], Rotated(vocabulary, index)};
    ghost var whole := Drawn(chosen, vocabulary, chance.draws);
    var i := 0;
    assert chance.draws[0..] == chance.draws;
    while |chosen| < Min(EVENT_TARGETS, |vocabulary|)
      invariant 0 <= i <= |chance.draws|
      invariant whole == Drawn(chosen, vocabulary, chance.draws[i..])
      decreases |chance.draws| - i
    {
      if i == |chance.draws| {
        return Err(StreamEnded);
      }
      assert chance.draws[i..][0] == chance.draws[i] && chance.draws[i..][1..] == chance.draws[i + 1..];
      chosen := chosen + {vocabulary[chance.draws[i]]};
      i := i + 1;
    }
    var codes := KeepInOrder(vocabulary, chosen);
    return Ok(codes);
  }

  method KeepInOrder(vocabulary: seq<string>, chosen: set<string>) returns (codes: seq<string>)
    ensures codes == Kept(vocabulary, chosen)
  {
    codes := [];
    for i := 0 to |vocabulary|
      invariant codes == Kept(vocabulary[..i], chosen)
    {
      assert vocabulary[..i + 1][..i] == vocabulary[..i];
      if vocabulary[i] in chosen {
        codes := codes + [vocabulary[i]];
      }
    }
    assert vocabulary[..|vocabulary|] == vocabulary;
  }

  // ----- what is chosen ----------------------------------------------------------------------------------------

  lemma {:induction false} DrawnIsEnough(chosen: set<string>, vocabulary: seq<string>, draws: seq<nat>)
    requires forall i :: 0 <= i < |draws| ==> draws[i] < |vocabulary|
    requires |chosen| <= Min(EVENT_TARGETS, |vocabulary|) && forall code :: code in chosen ==> code in vocabulary
    ensures var r := Drawn(chosen, vocabulary, draws);
            r.Some? ==>
              && chosen <= r.value && |r.value| == Min(EVENT_TARGETS, |vocabulary|)
              && forall code :: code in r.value ==> code in vocabulary
    decreases |draws|
  {
    if |chosen| < Min(EVENT_TARGETS, |vocabulary|) && draws != [] {
      DrawnIsEnough(chosen + {vocabulary[draws[0]]}, vocabulary, draws[1..]);
    }
  }

  lemma {:induction false} KeptIsSubsequence(vocabulary: seq<string>, chosen: set<string>)
    ensures Subsequence(Kept(vocabulary, chosen), vocabulary)
    ensures Distinct(vocabulary) ==> Distinct(Kept(vocabulary, chosen))
    decreases |vocabulary|
  {
    if vocabulary != [] {
      var last := |vocabulary| - 1;
      KeptIsSubsequence(vocabulary[..last], chosen);
      var kept := Kept(vocabulary, chosen);
      if vocabulary[last] in chosen {
        assert kept[..|kept| - 1] == Kept(vocabulary[..last], chosen) && kept[|kept| - 1] == vocabulary[last];
      } else {
        assert kept == Kept(vocabulary[..last], chosen);
      }
    }
  }

  lemma TwoAtMost(vocabulary: seq<string>, a: string, b: string)
    requires a in vocabulary && b in vocabulary
    ensures 1 <= |{a, b}| <= Min(EVENT_TARGETS, |vocabulary|)
  {
    var i, j :| 0 <= i < |vocabulary| && vocabulary[i] == a && 0 <= j < |vocabulary| && vocabulary[j] == b;
    if a == b {
      assert {a, b} == {a};
    }
  }

  /** However the draws fall, an event asks for two distinct codes (or the only one), in vocabulary order. */
  lemma TargetsAreEnough(vocabulary: seq<string>, index: nat, chance: Chance)
    requires Distinct(vocabulary) && vocabulary != [] && chance.Within(|vocabulary|)
    requires Targets(vocabulary, index, chance).Some?
    ensures var codes := Targets(vocabulary, index, chance).value;
            && |codes| == Min(EVENT_TARGETS, |vocabulary|) && Distinct(codes) && Subsequence(codes, vocabulary)
            && vocabulary[chance.head] in codes && Rotated(vocabulary, index) in codes
  {
    var start := {vocabulary[chance.head], Rotated(vocabulary, index)};
    TwoAtMost(vocabulary, vocabulary[chance.head], Rotated(vocabulary, index));
    DrawnIsEnough(start, vocabulary, chance.draws);
    var chosen := Drawn(start, vocabulary, chance.draws).value;
    KeptIsSubsequence(vocabulary, chosen);
    DistinctSize(Kept(vocabulary, chosen), chosen);
  }

  // ----- what a calendar covers -----------------------------------------------------------------------------------

  /** As many consecutive events as there are codes, starting anywhere, ask for every code between them. */
  ghost predicate Covers(vocabulary: seq<string>, start: nat, chances: seq<Chance>)
    requires vocabulary != [] && |chances| == |vocabulary|
    requires forall c :: c in chances ==> c.Within(|vocabulary|)
  {
    forall code :: code in vocabulary ==>
      exists i :: 0 <= i < |chances| && Asks(vocabulary, start + i, chances[i], code)
  }

  ghost predicate Asks(vocabulary: seq<string>, index: nat, chance: Chance, code: string)
    requires vocabulary != [] && chance.Within(|vocabulary|)
  {
    Targets(vocabulary, index, chance).Some? && code in Targets(vocabulary, index, chance).value
  }

  /** Every event's draws ended. */
  ghost predicate Ended(vocabulary: seq<string>, start: nat, chances: seq<Chance>)
    requires vocabulary != []
  {
    && |chances| == |vocabulary|
    && (forall c :: c in chances ==> c.Within(|vocabulary|))
    && forall i :: 0 <= i < |chances| ==> Targets(vocabulary, start + i, chances[i]).Some?
  }

  /** The inverse of the rotation, for a vocabulary it does not divide. */
  lemma RotationInverse(n: nat) returns (c: nat, t: nat)
    requires n % 3 != 0
    ensures 3 * c == n * t + 1
  {
    var q := n / 3;
    if n % 3 == 1 {
      c, t := n - q, 2;
    } else {
      c, t := q + 1, 1;
    }
  }

  /** The event among any `n` consecutive ones whose rotation lands on a given place. */
  lemma RotationReaches(n: nat, start: nat, place: nat) returns (i: nat)
    requires n % 3 != 0 && place < n
    ensures i < n && ((start + i) * ROTATION) % n == place
  {
    var c, t := RotationInverse(n);
    var x := c * place - start;
    i := x % n;
    var q := x / n;
    assert start + i == c * place - n * q;
    calc {
      (start + i) * 3;
      3 * (c * place) - 3 * (n * q);
      { Regroup(3, c, place); Regroup(3, n, q); Regroup(n, 3, q); }
      (n * t + 1) * place - n * (3 * q);
      { Regroup(n, t, place); Distribute(n, t * place, 3 * q); }
      place + n * (t * place - 3 * q);
    }
    RemainderIs((start + i) * 3, n, t * place - 3 * q, place);
  }

  lemma CoversWhenItTurns(vocabulary: seq<string>, start: nat, chances: seq<Chance>)
    requires vocabulary != [] && Distinct(vocabulary) && |vocabulary| % 3 != 0 && Ended(vocabulary, start, chances)
    ensures Covers(vocabulary, start, chances)
  {
    hide Targets;
    forall code | code in vocabulary
      ensures exists i :: 0 <= i < |chances| && Asks(vocabulary, start + i, chances[i], code)
    {
      var place :| 0 <= place < |vocabulary| && vocabulary[place] == code;
      var i := RotationReaches(|vocabulary|, start, place);
      TargetsAreEnough(vocabulary, start + i, chances[i]);
      assert Asks(vocabulary, start + i, chances[i], code);
    }
  }

  /** Draws that keep to the head and one other place. */
  function Narrow(n: nat): (chances: seq<Chance>)
    ensures |chances| == n && forall i :: 0 <= i < n ==> chances[i] == Chance(0, [2])
  {
    seq(n, i => Chance(0, [2]))
  }

  lemma NarrowTargets(vocabulary: seq<string>, index: nat)
    requires Distinct(vocabulary) && |vocabulary| >= 3 && |vocabulary| % 3 == 0
    ensures var r := Targets(vocabulary, index, Chance(0, [2])); r.Some? && vocabulary[1] !in r.value
  {
    var n := |vocabulary|;
    var place := (index * ROTATION) % n;
    assert place % 3 == 0 by {
      var k, m := (index * 3) / n, n / 3;
      Regroup(3, m, k);
      assert index * 3 == n * k + place;
      assert place == 3 * (index - m * k);
    }
    var start := {vocabulary[0], vocabulary[place]};
    if place == 0 {
      assert start == {vocabulary[0]} && |start| == 1;
      assert |start + {vocabulary[2]}| == 2;
      assert [2][1..] == [];
      assert Drawn(start, vocabulary, [2]) == Some(start + {vocabulary[2]});
    } else {
      assert |start| == 2;
    }
  }

  /** Whatever the draws, the calendar walks the whole vocabulary exactly when three does not divide its size. */
  lemma CalendarCoversExactly(vocabulary: seq<string>, start: nat)
    requires vocabulary != [] && Distinct(vocabulary)
    ensures (forall chances :: Ended(vocabulary, start, chances) ==> Covers(vocabulary, start, chances))
            <==> |vocabulary| % 3 != 0
  {
    hide Targets;
    if |vocabulary| % 3 != 0 {
      forall chances | Ended(vocabulary, start, chances)
        ensures Covers(vocabulary, start, chances)
      {
        CoversWhenItTurns(vocabulary, start, chances);
      }
    } else {
      var chances := Narrow(|vocabulary|);
      forall i | 0 <= i < |chances|
        ensures Targets(vocabulary, start + i, chances[i]).Some?
        ensures !Asks(vocabulary, start + i, chances[i], vocabulary[1])
      {
        NarrowTargets(vocabulary, start + i);
      }
      assert Ended(vocabulary, start, chances) && vocabulary[1] in vocabulary;
      assert !Covers(vocabulary, start, chances);
    }
  }
}
