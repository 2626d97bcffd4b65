/** The roster's most frequent codes, by a window that slides down the ranking and wraps. */
module FrequentCodes {
  import opened Arithmetic
  import opened Ordering
  import opened Outcomes

  // ----- specification ----------------------------------------------------------------------------------------

  type Bag = multiset<Option<string>>

  /** More frequent first, ties broken by the code itself. */
  predicate Before(bag: Bag, a: string, b: string) {
    bag[Some(a)] > bag[Some(b)] || (bag[Some(a)] == bag[Some(b)] && TextLeq(a, b))
  }

  function Ranking(bag: Bag): (string, string) -> bool {
    (a, b) => Before(bag, a, b)
  }

  /** The codes stated, in the order they first appear. */
  function Codes(values: seq<Option<string>>): (r: seq<string>)
    ensures forall code :: code in r <==> Some(code) in values
  {
    if values == [] then []
    else
      var last := |values| - 1;
      var before := Codes(values[..last]);
      assert values == values[..last] + [values[last]];
      if values[last] == None || values[last].value in before then before else before + [values[last].value]
  }

  function Ranked(values: seq<Option<string>>): seq<string> {
    Sort(Codes(values), Ranking(multiset(values)))
  }

  function Slot(k: nat, n: nat): (slot: nat)
    requires n > 0
    ensures slot < n
  {
    k % n
  }

  /** The window of a ranking from an offset, wrapping. */
  function Window(ranked: seq<string>, wanted: nat, offset: nat): (r: seq<string>)
    ensures |r| == Min(wanted, |ranked|)
    ensures forall step :: 0 <= step < |r| ==> r[step] == ranked[Slot(offset + step, |ranked|)]
  {
    if ranked == [] then []
    else seq(Min(wanted, |ranked|), step requires 0 <= step => ranked[Slot(offset + step, |ranked|)])
  }

  // ----- the tool ---------------------------------------------------------------------------------------------

  /** How often each code is stated, in an insertion-ordered dictionary. */
  function CountOf(values: seq<Option<string>>, code: string): nat {
    multiset(values)[Some(code)]
  }

  lemma OneMoreValue(values: seq<Option<string>>, i: nat)
    requires i < |values|
    ensures var before, value := Codes(values[..i]), values[i];
            Codes(values[..i + 1]) == if value == None || value.value in before then before else before + [value.value]
    ensures forall code :: CountOf(values[..i + 1], code)
                           == CountOf(values[..i], code) + if values[i] == Some(code) then 1 else 0
    ensures forall code :: code !in Codes(values[..i]) ==> CountOf(values[..i], code) == 0
  {
    assert values[..i + 1][..i] == values[..i] && values[..i + 1] == values[..i] + [values[i]];
  }

  method CountCodes(values: seq<Option<string>>) returns (order: seq<string>, counts: map<string, nat>)
    ensures order == Codes(values) && forall code :: code in counts <==> code in order
    ensures forall code :: code in counts ==> counts[code] == multiset(values)[Some(code)]
  {
    order, counts := [], map[];
    assert Codes(values[..0]) == [];
    for i := 0 to |values|
      invariant order == Codes(values[..i])
      invariant forall code :: code in counts <==> code in order
      invariant forall code :: code in counts ==> counts[code] == CountOf(values[..i], code)
    {
      OneMoreValue(values, i);
      hide Codes, CountOf;
      if values[i].Some? {
        var code := values[i].value;
        if code in counts {
          counts := counts[code := counts[code] + 1];
        } else {
          order, counts := order + [code], counts[code := 1];
        }
      }
    }
    assert values[..|values|] == values;
  }

  method FrequentCodes(values: seq<Option<string>>, wanted: nat, offset: nat) returns (r: seq<string>)
    ensures r == Window(Ranked(values), wanted, offset)
  {
    hide Ranked, Codes, Slot;
    var order, counts := CountCodes(values);
    var ranked := SortByCount(values, order, counts);
    r := [];
    if ranked == [] {
      return;
    }
    for step := 0 to Min(wanted, |ranked|)
      invariant |r| == step && forall k :: 0 <= k < step ==> r[k] == ranked[Slot(offset + k, |ranked|)]
    {
      r := r + [ranked[Slot(offset + step, |ranked|)]];
    }
  }

  /** The counted codes in order of their counts. */
  method SortByCount(values: seq<Option<string>>, order: seq<string>, counts: map<string, nat>) returns (ranked: seq<string>)
    requires order == Codes(values) && forall code :: code in counts <==> code in order
    requires forall code :: code in counts ==> counts[code] == multiset(values)[Some(code)]
    ensures ranked == Ranked(values)
  {
    var leq := (a: string, b: string) =>
      var ca, cb := if a in counts then counts[a] else 0, if b in counts then counts[b] else 0;
      ca > cb || (ca == cb && TextLeq(a, b));
    ranked := Sort(order, leq);
    assert forall code :: code !in counts ==> multiset(values)[Some(code)] == 0;
    SortByEqual(order, leq, Ranking(multiset(values)));
  }

  lemma InsertByEqual<T(!new)>(x: T, s: seq<T>, f: (T, T) -> bool, g: (T, T) -> bool)
    requires forall a, b :: f(a, b) == g(a, b)
    ensures Insert(x, s, f) == Insert(x, s, g)
  {
  }

  lemma SortByEqual<T(!new)>(s: seq<T>, f: (T, T) -> bool, g: (T, T) -> bool)
    requires forall a, b :: f(a, b) == g(a, b)
    ensures Sort(s, f) == Sort(s, g)
  {
    if s != [] {
      SortByEqual(s[1..], f, g);
      InsertByEqual(s[0], Sort(s[1..], f), f, g);
    }
  }

  // ----- what the ranking is -------------------------------------------------------------------------------------

  lemma RankingIsTotal(bag: Bag)
    ensures TotalOrder(Ranking(bag))
  {
    TextOrder();
    hide TextLeq;
    forall a, b, c | Before(bag, a, b) && Before(bag, b, c)
      ensures Before(bag, a, c)
    {
    }
  }

  lemma {:induction false} CodesAreDistinct(values: seq<Option<string>>)
    ensures Distinct(Codes(values))
  {
    if values != [] {
      CodesAreDistinct(values[..|values| - 1]);
    }
  }

  lemma {:induction false} SameMembersSameBag(a: seq<string>, b: seq<string>)
    requires Distinct(a) && Distinct(b) && forall x :: x in a <==> x in b
    ensures multiset(a) == multiset(b)
  {
    forall x
      ensures multiset(a)[x] == multiset(b)[x]
    {
      DistinctOccursOnce(a, x);
      DistinctOccursOnce(b, x);
      assert x in a <==> x in multiset(a);
      assert x in b <==> x in multiset(b);
    }
  }

  lemma RankedIsSorted(values: seq<Option<string>>)
    ensures Distinct(Ranked(values)) && SortedBy(Ranked(values), Ranking(multiset(values)))
    ensures |Ranked(values)| == |Codes(values)| && forall code :: code in Ranked(values) <==> Some(code) in values
  {
    RankingIsTotal(multiset(values));
    SortOrders(Codes(values), Ranking(multiset(values)));
    CodesAreDistinct(values);
    DistinctFromMultiset(Codes(values), Ranked(values));
    SameMembers(Codes(values), Ranking(multiset(values)));
  }

  /** One code is stated more often than another, or as often and spelled earlier. */
  ghost predicate StatedMore(values: seq<Option<string>>, a: string, b: string) {
    && multiset(values)[Some(a)] >= multiset(values)[Some(b)]
    && (multiset(values)[Some(a)] == multiset(values)[Some(b)] ==> EarlierText(a, b))
  }

  lemma StatedMoreIsBefore(values: seq<Option<string>>, a: string, b: string)
    ensures Before(multiset(values), a, b) <==> StatedMore(values, a, b)
  {
    TextLeqExactly(a, b);
    hide TextLeq, EarlierText;
  }

  /** The ranking holds each stated code once, the more often stated first, and of equals the one spelled earlier. */
  lemma RankedIsRanked(values: seq<Option<string>>)
    ensures Distinct(Ranked(values)) && |Ranked(values)| == |Codes(values)|
    ensures forall code :: code in Ranked(values) <==> Some(code) in values
    ensures forall i, j :: 0 <= i < j < |Ranked(values)| ==> StatedMore(values, Ranked(values)[i], Ranked(values)[j])
  {
    RankedIsSorted(values);
    hide Ranked, StatedMore, Codes, Before;
    var ranked := Ranked(values);
    forall i, j | 0 <= i < j < |ranked|
      ensures StatedMore(values, ranked[i], ranked[j])
    {
      assert Ranking(multiset(values))(ranked[i], ranked[j]);
      StatedMoreIsBefore(values, ranked[i], ranked[j]);
    }
  }

  /** The order of the roster does not matter, only how often each code is stated. */
  lemma OnlyCountsMatter(v: seq<Option<string>>, w: seq<Option<string>>, wanted: nat, offset: nat)
    requires multiset(v) == multiset(w)
    ensures Window(Ranked(v), wanted, offset) == Window(Ranked(w), wanted, offset)
  {
    RankingIsTotal(multiset(v));
    RankedIsSorted(v);
    RankedIsSorted(w);
    hide Ranked;
    forall code
      ensures code in Ranked(v) <==> code in Ranked(w)
    {
      assert Some(code) in multiset(v) <==> Some(code) in multiset(w);
    }
    SameMembersSameBag(Ranked(v), Ranked(w));
    OrderedListsAgree(Ranked(v), Ranked(w), Ranking(multiset(v)));
  }

  lemma SlotsDiffer(x: nat, y: nat, n: nat)
    requires x < y < x + n
    ensures Slot(x, n) != Slot(y, n)
  {
    NearRemaindersDiffer(x, y, n);
  }

  lemma DistinctWindow(ranked: seq<string>, wanted: nat, offset: nat)
    requires Distinct(ranked)
    ensures Distinct(Window(ranked, wanted, offset)) && forall code :: code in Window(ranked, wanted, offset) ==> code in ranked
  {
    hide Slot;
    var r := Window(ranked, wanted, offset);
    forall i, j | 0 <= i < j < |r|
      ensures r[i] != r[j]
    {
      SlotsDiffer(offset + i, offset + j, |ranked|);
      var a, b := Slot(offset + i, |ranked|), Slot(offset + j, |ranked|);
      assert ranked[a] != ranked[b];
    }
  }

  /** A window holds distinct stated codes, as many as are wanted or there are. */
  lemma WindowIsDistinct(values: seq<Option<string>>, wanted: nat, offset: nat)
    ensures var r := Window(Ranked(values), wanted, offset);
            && Distinct(r) && (forall code :: code in r ==> Some(code) in values)
            && |r| == Min(wanted, |Codes(values)|)
  {
    RankedIsRanked(values);
    hide Ranked, Window, Slot, Distinct, Codes;
    DistinctWindow(Ranked(values), wanted, offset);
  }

  lemma SlotOfSmall(k: nat, n: nat)
    requires k < n
    ensures Slot(k, n) == k
  {
  }

  lemma WindowInside(ranked: seq<string>, wanted: nat, offset: nat)
    requires offset + Min(wanted, |ranked|) <= |ranked|
    ensures Window(ranked, wanted, offset) == ranked[offset..offset + Min(wanted, |ranked|)]
  {
    hide Slot;
    var r := Window(ranked, wanted, offset);
    forall step | 0 <= step < |r|
      ensures r[step] == ranked[offset + step]
    {
      SlotOfSmall(offset + step, |ranked|);
    }
  }

  /**
   * From the head it is a top list: a code that is in is stated more often than any left out, or as often
   * and spelled earlier.
   */
  lemma HeadIsTop(values: seq<Option<string>>, wanted: nat, chosen: string, other: string)
    requires chosen in Window(Ranked(values), wanted, 0)
    requires Some(other) in values && other !in Window(Ranked(values), wanted, 0)
    ensures multiset(values)[Some(chosen)] >= multiset(values)[Some(other)]
    ensures multiset(values)[Some(chosen)] == multiset(values)[Some(other)] ==> EarlierText(chosen, other)
  {
    RankedIsRanked(values);
    WindowInside(Ranked(values), wanted, 0);
    hide Ranked, Window, Slot;
    var ranked := Ranked(values);
    var r := Window(ranked, wanted, 0);
    var i :| 0 <= i < |r| && r[i] == chosen;
    var j :| 0 <= j < |ranked| && ranked[j] == other;
    assert forall k :: 0 <= k < |r| ==> r[k] == ranked[k];
    assert StatedMore(values, ranked[i], ranked[j]);
  }

  /** From anywhere else it goes on down the ranking and, at its end, round to the head. */
  lemma WindowGoesRound(ranked: seq<string>, wanted: nat, offset: nat, step: nat, turns: nat)
    requires step < Min(wanted, |ranked|) && |ranked| * turns <= offset + step < |ranked| * turns + |ranked|
    ensures Window(ranked, wanted, offset)[step] == ranked[offset + step - |ranked| * turns]
  {
    RemainderIs(offset + step, |ranked|, turns, offset + step - |ranked| * turns);
  }

  // ----- sibling requests -------------------------------------------------------------------------------------------

  ghost predicate Apart(a: seq<string>, b: seq<string>) {
    forall x :: x in a ==> x !in b
  }

  /** The windows of the first variants. */
  ghost predicate WindowsApart(ranked: seq<string>, width: nat, variants: nat) {
    forall u, v :: 0 <= u < v < variants ==> Apart(Window(ranked, width, u * width), Window(ranked, width, v * width))
  }

  lemma Products(u: nat, v: nat, width: nat)
    requires u < v
    ensures u * width + width <= v * width
  {
    assert (v - u - 1) * width >= 0;
    assert v * width == u * width + width + (v - u - 1) * width;
  }

  /** The windows of two or more variants are disjoint exactly when there are codes enough for all of them. */
  lemma WindowsApartExactly(ranked: seq<string>, width: nat, variants: nat)
    requires Distinct(ranked) && ranked != [] && width >= 1 && variants >= 2
    ensures WindowsApart(ranked, width, variants) <==> variants * width <= |ranked|
  {
    hide Window, Apart, Distinct;
    var n := |ranked|;
    if variants * width <= n {
      EnoughForAll(ranked, width, variants);
    } else if width >= n {
      FirstWindowMeets(ranked, width, 1, 0);
    } else {
      var v := n / width;
      assert n == width * v + n % width;
      if v > variants {
        Products(variants, v, width);
      }
      assert 1 <= v < variants;
      FirstWindowMeets(ranked, width, v, n % width);
    }
  }

  lemma EnoughForAll(ranked: seq<string>, width: nat, variants: nat)
    requires Distinct(ranked) && variants * width <= |ranked|
    ensures WindowsApart(ranked, width, variants)
  {
    hide Window, Apart, Distinct;
    forall u, v | 0 <= u < v < variants
      ensures Apart(Window(ranked, width, u * width), Window(ranked, width, v * width))
    {
      Products(u, v, width);
      Products(v, variants, width);
      EarlierAndLater(ranked, width, u * width, v * width);
    }
  }

  lemma EarlierAndLater(ranked: seq<string>, width: nat, a: nat, b: nat)
    requires Distinct(ranked) && a + width <= b && b + width <= |ranked|
    ensures Apart(Window(ranked, width, a), Window(ranked, width, b))
  {
    WindowInside(ranked, width, a);
    WindowInside(ranked, width, b);
    hide Window;
    var p, q := ranked[a..a + width], ranked[b..b + width];
    assert forall i :: 0 <= i < |p| ==> p[i] == ranked[a + i];
    assert forall i :: 0 <= i < |q| ==> q[i] == ranked[b + i];
  }

  /** A later window that comes round to the head meets the first one. */
  lemma WholeWindowMeets(ranked: seq<string>, width: nat, offset: nat)
    requires ranked != [] && |ranked| <= width
    ensures !Apart(Window(ranked, width, 0), Window(ranked, width, offset))
  {
    WindowInside(ranked, width, 0);
    assert ranked[0..0 + |ranked|] == ranked;
    hide Window, Slot;
    var later := Window(ranked, width, offset);
    assert later[0] == ranked[Slot(offset + 0, |ranked|)];
    assert later[0] in ranked && later[0] in later;
  }

  lemma LaterWindowMeets(ranked: seq<string>, width: nat, offset: nat, step: nat)
    requires ranked != [] && step < Min(width, |ranked|) && offset + step == |ranked|
    ensures !Apart(Window(ranked, width, 0), Window(ranked, width, offset))
  {
    assert Slot(|ranked|, |ranked|) == 0 == Slot(0, |ranked|);
    hide Window, Slot;
    var first, later := Window(ranked, width, 0), Window(ranked, width, offset);
    assert later[step] == ranked[Slot(offset + step, |ranked|)] == ranked[0];
    assert first[0] == ranked[Slot(0 + 0, |ranked|)] == ranked[0];
    assert ranked[0] in first && ranked[0] in later;
  }

  lemma FirstWindowMeets(ranked: seq<string>, width: nat, v: nat, step: nat)
    requires ranked != [] && v >= 1 && step < Min(width, |ranked|)
    requires v * width + step == |ranked| || |ranked| <= width
    ensures !Apart(Window(ranked, width, 0 * width), Window(ranked, width, v * width))
  {
    hide Window, Apart;
    if |ranked| <= width {
      WholeWindowMeets(ranked, width, v * width);
    } else {
      LaterWindowMeets(ranked, width, v * width, step);
    }
  }

  const SPEAKER_REQUEST_TARGETS := 2

  datatype Professional = Professional(industry: Option<string>, role: Option<string>)

  datatype Refusal = NegativeVariant | NothingToTarget

  function Industries(roster: seq<Professional>): (r: seq<Option<string>>)
    ensures |r| == |roster| && forall i :: 0 <= i < |r| ==> r[i] == roster[i].industry
  {
    seq(|roster|, i requires 0 <= i < |roster| => roster[i].industry)
  }

  function RolesOf(roster: seq<Professional>): (r: seq<Option<string>>)
    ensures |r| == |roster| && forall i :: 0 <= i < |r| ==> r[i] == roster[i].role
  {
    seq(|roster|, i requires 0 <= i < |roster| => roster[i].role)
  }

  /** The industry and role targets of a variant of the speaker request. */
  method SpeakerRequestTargets(roster: seq<Professional>, variant: int) returns (r: Result<(seq<string>, seq<string>), Refusal>)
    ensures r == Err(NegativeVariant) <==> variant < 0
    ensures r == Err(NothingToTarget) <==>
              variant >= 0 && (Codes(Industries(roster)) == [] || Codes(RolesOf(roster)) == [])
    ensures r.Ok? ==>
              && r.value.0 == Window(Ranked(Industries(roster)), 2, variant * 2)
              && r.value.1 == Window(Ranked(RolesOf(roster)), 2, variant * 2)
  {
    if variant < 0 {
      return Err(NegativeVariant);
    }
    var industries := FrequentCodes(Industries(roster), SPEAKER_REQUEST_TARGETS, variant * SPEAKER_REQUEST_TARGETS);
    var roles := FrequentCodes(RolesOf(roster), SPEAKER_REQUEST_TARGETS, variant * SPEAKER_REQUEST_TARGETS);
    SameMembers(Codes(Industries(roster)), Ranking(multiset(Industries(roster))));
    SameMembers(Codes(RolesOf(roster)), Ranking(multiset(RolesOf(roster))));
    if industries == [] || roles == [] {
      return Err(NothingToTarget);
    }
    return Ok((industries, roles));
  }

  /** The requests of the first variants target different codes exactly when the roster states enough of them. */
  lemma SiblingsTargetDifferentCodesExactly(values: seq<Option<string>>, variants: nat)
    requires Codes(values) != [] && variants >= 2
    ensures WindowsApart(Ranked(values), SPEAKER_REQUEST_TARGETS, variants)
            <==> variants * SPEAKER_REQUEST_TARGETS <= |Codes(values)|
  {
    RankedIsRanked(values);
    hide Ranked, Window, Codes, Ranking;
    WindowsApartExactly(Ranked(values), SPEAKER_REQUEST_TARGETS, variants);
  }
}
