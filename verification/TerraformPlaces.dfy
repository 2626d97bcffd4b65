/**
 * Which lines of a file a block's body and its direct lines are, and when the direct lines are
 * part of the body, as the checker's rules take them to be.
 */
module TerraformPlaces {
  import opened Ordering
  import opened Outcomes
  import opened TerraformBlocks

  /** Where a block's lines stand in the file. */
  datatype Placed = Placed(bodyAt: seq<nat>, directAt: seq<nat>)

  datatype Places = Places(current: Placed, blocks: seq<Placed>)

  ghost predicate Reads(lines: seq<string>, n: nat) {
    n <= |lines| && Run(lines[..n], START).Ok?
  }

  /** The reader's state before line `n`. */
  ghost function Before(lines: seq<string>, n: nat): State
    requires Reads(lines, n)
  {
    Run(lines[..n], START).value
  }

  lemma ReadsOneMore(lines: seq<string>, n: nat)
    requires n < |lines|
    ensures Reads(lines, n + 1) ==> Reads(lines, n) && Step(Before(lines, n), lines[n]) == Ok(Before(lines, n + 1))
  {
    hide Step;
    assert lines[..n + 1] == lines[..n] + [lines[n]];
    RunInTurn(lines[..n], [lines[n]], START);
    if Reads(lines, n) {
      RunOne(lines[n], Before(lines, n));
    }
  }

  lemma {:induction false} ReadsFewer(lines: seq<string>, n: nat, m: nat)
    requires n <= m && Reads(lines, m)
    ensures Reads(lines, n)
  {
    hide Before, Run, Step;
    if n < m {
      ReadsOneMore(lines, m - 1);
      ReadsFewer(lines, n, m - 1);
    }
  }

  predicate IsDirect(depth: int, line: string) {
    depth == 1 && line != "" && line[0] != '}'
  }

  /** Where the lines read so far went: line `n` is met with one depth and left with another. */
  ghost function PlacesBefore(lines: seq<string>, n: nat): Places
    requires Reads(lines, n)
  {
    if n == 0 then Places(Placed([], []), [])
    else
      ReadsOneMore(lines, n - 1);
      var places := PlacesBefore(lines, n - 1);
      var st, line, after := Before(lines, n - 1), Seen(lines[n - 1]), Before(lines, n).depth;
      if st.depth == 0 then if line == "" then places else places.(current := Placed([], []))
      else
        var direct := places.current.directAt + if IsDirect(st.depth, line) then [n - 1] else [];
        if after == 0 then Places(places.current, places.blocks + [Placed(places.current.bodyAt, direct)])
        else places.(current := Placed(places.current.bodyAt + if line == "" then [] else [n - 1], direct))
  }

  function TextAt(lines: seq<string>, at: seq<nat>): seq<string>
    requires forall k :: 0 <= k < |at| ==> at[k] < |lines|
  {
    seq(|at|, k requires 0 <= k < |at| => Seen(lines[at[k]]))
  }

  ghost predicate Increasing(at: seq<nat>, n: nat) {
    && (forall k :: 0 <= k < |at| ==> at[k] < n)
    && forall j, k :: 0 <= j < k < |at| ==> at[j] < at[k]
  }

  /** The places hold these lines, each line once and in order. */
  ghost predicate Holds(lines: seq<string>, n: nat, p: Placed, body: seq<string>, direct: seq<string>) {
    && n <= |lines| && Increasing(p.bodyAt, n) && Increasing(p.directAt, n)
    && TextAt(lines, p.bodyAt) == body && TextAt(lines, p.directAt) == direct
  }

  ghost predicate AllHold(lines: seq<string>, n: nat, placed: seq<Placed>, blocks: seq<Block>) {
    && |placed| == |blocks|
    && forall b :: 0 <= b < |blocks| ==> Holds(lines, n, placed[b], blocks[b].body, blocks[b].direct)
  }

  lemma HoldsLater(lines: seq<string>, n: nat, p: Placed, body: seq<string>, direct: seq<string>)
    requires Holds(lines, n, p, body, direct) && n < |lines|
    ensures Holds(lines, n + 1, p, body, direct)
  {
  }

  lemma HoldsOneMore(
    lines: seq<string>, n: nat, p: Placed, body: seq<string>, direct: seq<string>, inBody: bool, isDirect: bool)
    requires Holds(lines, n, p, body, direct) && n < |lines|
    ensures Holds(lines, n + 1,
                  Placed(p.bodyAt + if inBody then [n] else [], p.directAt + if isDirect then [n] else []),
                  body + (if inBody then [Seen(lines[n])] else []), direct + if isDirect then [Seen(lines[n])] else [])
  {
    hide Seen;
  }

  lemma NothingAdded(at: seq<nat>, texts: seq<string>)
    ensures at + [] == at && texts + [] == texts
  {
  }

  /** One line more: the block being read grows by it, and is complete when the depth comes back to zero. */
  lemma PlacesOneMore(lines: seq<string>, k: nat)
    requires Reads(lines, k + 1) && k < |lines|
    ensures Reads(lines, k)
    ensures var st, line, after := Before(lines, k), Seen(lines[k]), Before(lines, k + 1).depth;
            var was, now := PlacesBefore(lines, k), PlacesBefore(lines, k + 1);
            var grown := Placed(
              was.current.bodyAt + (if after != 0 && line != "" then [k] else []),
              was.current.directAt + (if IsDirect(st.depth, line) then [k] else []));
            if st.depth == 0 then now == if line == "" then was else was.(current := Placed([], []))
            else if after == 0 then now == Places(was.current, was.blocks + [grown])
            else now == Places(grown, was.blocks)
  {
    ReadsOneMore(lines, k);
    hide Seen, Before;
    var was := PlacesBefore(lines, k);
    NothingAdded(was.current.bodyAt, []);
    NothingAdded(was.current.directAt, []);
  }

  /** The same of the lines themselves. */
  lemma StateOneMore(lines: seq<string>, k: nat)
    requires Reads(lines, k + 1) && k < |lines|
    ensures Reads(lines, k)
    ensures var st, line, after := Before(lines, k), Seen(lines[k]), Before(lines, k + 1);
            var body := st.body + (if after.depth != 0 && line != "" then [line] else []);
            var direct := st.direct + (if IsDirect(st.depth, line) then [line] else []);
            if st.depth == 0
            then if line == "" then after == st else after.blocks == st.blocks && after.body == [] && after.direct == []
            else if after.depth == 0 then after.blocks == st.blocks + [Block(st.kind, st.labels, body, direct)]
            else after.body == body && after.direct == direct && after.blocks == st.blocks
  {
    hide Seen, Before, Run, ReadHeader, Count;
    ReadsOneMore(lines, k);
    var st := Before(lines, k);
    assert st.body + [] == st.body && st.direct + [] == st.direct;
  }

  lemma AllHoldOneMore(lines: seq<string>, n: nat, placed: seq<Placed>, blocks: seq<Block>)
    requires AllHold(lines, n, placed, blocks) && n < |lines|
    ensures AllHold(lines, n + 1, placed, blocks)
  {
    hide Holds;
    forall b | 0 <= b < |blocks|
      ensures Holds(lines, n + 1, placed[b], blocks[b].body, blocks[b].direct)
    {
      HoldsLater(lines, n, placed[b], blocks[b].body, blocks[b].direct);
    }
  }

  lemma OneMoreHolds(lines: seq<string>, n: nat, placed: seq<Placed>, blocks: seq<Block>, p: Placed, block: Block)
    requires AllHold(lines, n, placed, blocks) && Holds(lines, n, p, block.body, block.direct)
    ensures AllHold(lines, n, placed + [p], blocks + [block])
  {
    hide Holds;
  }

  /** The places a block was read from hold its body and its direct lines. */
  lemma {:induction false} PlacesHoldTheBlocks(lines: seq<string>, n: nat)
    requires Reads(lines, n)
    ensures var st, places := Before(lines, n), PlacesBefore(lines, n);
            && AllHold(lines, n, places.blocks, st.blocks)
            && (st.depth != 0 ==> Holds(lines, n, places.current, st.body, st.direct))
  {
    if n == 0 {
      assert lines[..0] == [];
    } else {
      hide *;
      var k := n - 1;
      assert k < |lines| by {
        WithinTheFile(lines, n);
      }
      StateOneMore(lines, k);
      PlacesOneMore(lines, k);
      PlacesHoldTheBlocks(lines, k);
      var st, places, line := Before(lines, k), PlacesBefore(lines, k), Seen(lines[k]);
      var after := Before(lines, n);
      AllHoldOneMore(lines, k, places.blocks, st.blocks);
      if st.depth != 0 {
        HoldsOneMore(lines, k, places.current, st.body, st.direct, after.depth != 0 && line != "", IsDirect(st.depth, line));
        if after.depth == 0 {
          OneMoreHolds(lines, n, places.blocks, st.blocks, PlacesBefore(lines, n).blocks[|places.blocks|],
                       after.blocks[|st.blocks|]);
        }
      } else {
        NothingHeld(lines, n);
      }
    }
  }

  lemma WithinTheFile(lines: seq<string>, n: nat)
    requires Reads(lines, n)
    ensures n <= |lines|
  {
  }

  lemma NothingHeld(lines: seq<string>, n: nat)
    requires n <= |lines|
    ensures Holds(lines, n, Placed([], []), [], [])
  {
  }

  /** The guard of the branch that fails: a line of the block itself, not led by a brace, closes the block. */
  ghost predicate ClosesDirectly(lines: seq<string>, i: nat) {
    && i < |lines| && Reads(lines, i) && Reads(lines, i + 1)
    && IsDirect(Before(lines, i).depth, Seen(lines[i])) && Before(lines, i + 1).depth == 0
  }

  ghost predicate Contained(p: Placed) {
    forall x :: x in p.directAt ==> x in p.bodyAt
  }

  ghost predicate AllContained(placed: seq<Placed>) {
    forall b :: 0 <= b < |placed| ==> Contained(placed[b])
  }

  lemma ContainedOneMore(p: Placed, n: nat, inBody: bool, isDirect: bool)
    requires Contained(p) && forall x :: x in p.bodyAt ==> x < n
    ensures Contained(Placed(p.bodyAt + if inBody then [n] else [], p.directAt + if isDirect then [n] else []))
            <==> inBody || !isDirect
  {
    var q := Placed(p.bodyAt + if inBody then [n] else [], p.directAt + if isDirect then [n] else []);
    if isDirect && !inBody {
      assert q.directAt[|p.directAt|] == n && n !in p.bodyAt && q.bodyAt == p.bodyAt;
    }
  }

  ghost predicate NoneCloses(lines: seq<string>, n: nat) {
    forall i :: 0 <= i < n ==> !ClosesDirectly(lines, i)
  }

  lemma NoneClosesOneMore(lines: seq<string>, k: nat)
    ensures NoneCloses(lines, k + 1) <==> NoneCloses(lines, k) && !ClosesDirectly(lines, k)
  {
    hide ClosesDirectly;
  }

  lemma BodyStandsBefore(lines: seq<string>, n: nat)
    requires Reads(lines, n)
    ensures Before(lines, n).depth != 0 ==> forall x :: x in PlacesBefore(lines, n).current.bodyAt ==> x < n
  {
    hide Before, PlacesBefore;
    PlacesHoldTheBlocks(lines, n);
  }

  lemma {:induction false} ContainedUnlessClosedDirectly(lines: seq<string>, n: nat)
    requires Reads(lines, n)
    ensures var st, places := Before(lines, n), PlacesBefore(lines, n);
            && (st.depth != 0 ==> Contained(places.current))
            && (AllContained(places.blocks) <==> NoneCloses(lines, n))
  {
    if n == 0 {
      assert lines[..0] == [];
    } else {
      var k := n - 1;
      PlacesOneMore(lines, k);
      hide Seen, Before, PlacesBefore, Run;
      ContainedUnlessClosedDirectly(lines, k);
      BodyStandsBefore(lines, k);
      NoneClosesOneMore(lines, k);
      EnteredOrNot(lines, k);
      var st, line, after := Before(lines, k), Seen(lines[k]), Before(lines, n);
      var was, now := PlacesBefore(lines, k), PlacesBefore(lines, n);
      assert ClosesDirectly(lines, k) <==> IsDirect(st.depth, line) && after.depth == 0;
      hide ClosesDirectly, NoneCloses, Reads;
      if st.depth != 0 {
        ContainedOneMore(was.current, k, after.depth != 0 && line != "", IsDirect(st.depth, line));
        if after.depth == 0 {
          assert now.blocks[..|was.blocks|] == was.blocks;
          LastOfBlocks(now.blocks);
        }
      }
    }
  }

  /** From outside a block, a line either leaves the reader outside or opens an empty block. */
  lemma EnteredOrNot(lines: seq<string>, k: nat)
    requires k < |lines| && Reads(lines, k + 1)
    ensures Reads(lines, k)
    ensures Before(lines, k).depth == 0 ==>
              !ClosesDirectly(lines, k)
              && (Before(lines, k + 1).depth == 0 || PlacesBefore(lines, k + 1).current == Placed([], []))
  {
    ReadsOneMore(lines, k);
    hide Seen, ReadHeader, Count, Before;
  }

  lemma LastOfBlocks(placed: seq<Placed>)
    requires placed != []
    ensures AllContained(placed) <==> AllContained(placed[..|placed| - 1]) && Contained(placed[|placed| - 1])
  {
    hide Contained;
  }

  /** The places the blocks of an accepted file were read from. */
  ghost function PlacesOf(lines: seq<string>): seq<Placed>
    requires Blocks(lines).Ok?
  {
    assert lines[..|lines|] == lines;
    PlacesBefore(lines, |lines|).blocks
  }

  /**
   * In every accepted file the blocks stand at increasing places, and every block's direct lines are among
   * its body, line by line, exactly when no block is closed by one of its own lines.
   */
  lemma DirectIsInBodyExactlyWhen(lines: seq<string>)
    requires Blocks(lines).Ok?
    ensures AllHold(lines, |lines|, PlacesOf(lines), Blocks(lines).value)
    ensures AllContained(PlacesOf(lines)) <==> NoneCloses(lines, |lines|)
  {
    assert lines[..|lines|] == lines;
    PlacesHoldTheBlocks(lines, |lines|);
    ContainedUnlessClosedDirectly(lines, |lines|);
  }

  ghost predicate DirectInBody(blocks: seq<Block>) {
    forall i :: 0 <= i < |blocks| ==> Subsequence(blocks[i].direct, blocks[i].body)
  }

  /** Some of the places, in order, hold a subsequence of the lines all of them hold. */
  lemma {:induction false} SomePlacesHoldSome(lines: seq<string>, n: nat, some: seq<nat>, all: seq<nat>)
    requires n <= |lines| && Increasing(some, n) && Increasing(all, n) && forall x :: x in some ==> x in all
    ensures Subsequence(TextAt(lines, some), TextAt(lines, all))
    decreases |all|
  {
    hide Seen;
    assert |some| > 0 ==> some[0] in some;
    if all == [] {
    } else {
      var last := |all| - 1;
      var whole := TextAt(lines, all);
      assert whole[..last] == TextAt(lines, all[..last]);
      if some != [] && some[|some| - 1] == all[last] {
        var part := TextAt(lines, some);
        assert part[..|some| - 1] == TextAt(lines, some[..|some| - 1]);
        forall x | x in some[..|some| - 1]
          ensures x in all[..last]
        {
          AmongTheEarlier(some, all, n, x);
        }
        SomePlacesHoldSome(lines, n, some[..|some| - 1], all[..last]);
      } else {
        forall x | x in some
          ensures x in all[..last]
        {
          LastIsAbsent(some, all, n, x);
        }
        SomePlacesHoldSome(lines, n, some, all[..last]);
      }
    }
  }

  lemma AmongTheEarlier(some: seq<nat>, all: seq<nat>, n: nat, x: nat)
    requires Increasing(some, n) && some != [] && all != [] && some[|some| - 1] == all[|all| - 1]
    requires x in some[..|some| - 1] && x in all
    ensures x in all[..|all| - 1]
  {
    var i :| 0 <= i < |some| - 1 && some[i] == x;
    var j :| 0 <= j < |all| && all[j] == x;
    assert some[i] < some[|some| - 1];
    assert all[..|all| - 1][j] == x;
  }

  lemma LastIsAbsent(some: seq<nat>, all: seq<nat>, n: nat, x: nat)
    requires Increasing(some, n) && Increasing(all, n) && all != [] && forall y :: y in some ==> y in all
    requires some == [] || some[|some| - 1] != all[|all| - 1]
    requires x in some
    ensures x in all[..|all| - 1]
  {
    var top, last := some[|some| - 1], all[|all| - 1];
    assert top in some;
    var k :| 0 <= k < |all| && all[k] == top;
    var i :| 0 <= i < |some| && some[i] == x;
    assert x <= top < last;
    var j :| 0 <= j < |all| && all[j] == x;
    assert all[..|all| - 1][j] == x;
  }

  /** So unless a block is closed by one of its own lines, its direct lines are among its body, in order. */
  lemma DirectIsPartOfBody(lines: seq<string>)
    requires Blocks(lines).Ok? && NoneCloses(lines, |lines|)
    ensures DirectInBody(Blocks(lines).value)
  {
    DirectIsInBodyExactlyWhen(lines);
    hide Blocks, NoneCloses, TextAt;
    var blocks, placed := Blocks(lines).value, PlacesOf(lines);
    forall b | 0 <= b < |blocks|
      ensures Subsequence(blocks[b].direct, blocks[b].body)
    {
      assert Holds(lines, |lines|, placed[b], blocks[b].body, blocks[b].direct) && Contained(placed[b]);
      SomePlacesHoldSome(lines, |lines|, placed[b].directAt, placed[b].bodyAt);
    }
  }
}
