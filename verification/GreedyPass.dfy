/** The constraint-guarded greedy pass that clustering, authorization and review-aware clustering all
    run: join the edges in order, skipping one whenever the two classes it would bring together hold a
    forbidden pair. */
module GreedyPass {
  import opened Records
  import opened Partitions

  /** The partition a pass ends with, and for each edge whether it was accepted. */
  datatype Pass = Pass(part: Partition, taken: seq<bool>)

  /** Edges in `forced` are joined without asking. */
  predicate Refused(p: Partition, e: Pair, forbidden: set<Pair>, forced: set<Pair>)
    requires Inside(e, p.Keys)
  {
    e !in forced && Blocked(Proposed(p, e), forbidden)
  }

  function Step(before: Pass, e: Pair, forbidden: set<Pair>, forced: set<Pair>): Pass
    requires Inside(e, before.part.Keys)
  {
    if Refused(before.part, e, forbidden, forced)
    then Pass(before.part, before.taken + [false])
    else Pass(Merge(before.part, e), before.taken + [true])
  }

  function Greedy(start: Partition, edges: seq<Pair>, forbidden: set<Pair>, forced: set<Pair>): (g: Pass)
    requires Known(edges, start.Keys)
    ensures g.part.Keys == start.Keys && |g.taken| == |edges|
  {
    if edges == [] then Pass(start, []) else
      Step(Greedy(start, edges[..|edges| - 1], forbidden, forced), edges[|edges| - 1], forbidden, forced)
  }

  lemma {:induction false} GreedyIsCanonical(
    start: Partition, edges: seq<Pair>, forbidden: set<Pair>, forced: set<Pair>)
    requires Known(edges, start.Keys) && Canonical(start)
    ensures Canonical(Greedy(start, edges, forbidden, forced).part)
    decreases |edges|
  {
    if edges != [] {
      GreedyIsCanonical(start, edges[..|edges| - 1], forbidden, forced);
      StepIsCanonical(Greedy(start, edges[..|edges| - 1], forbidden, forced), edges[|edges| - 1], forbidden, forced);
    }
  }

  lemma StepIsCanonical(before: Pass, e: Pair, forbidden: set<Pair>, forced: set<Pair>)
    requires Inside(e, before.part.Keys) && Canonical(before.part)
    ensures Canonical(Step(before, e, forbidden, forced).part)
  {
    MergeIsCanonical(before.part, e);
  }

  lemma StepGrows(before: Pass, e: Pair, forbidden: set<Pair>, forced: set<Pair>)
    requires Inside(e, before.part.Keys)
    ensures Coarser(before.part, Step(before, e, forbidden, forced).part)
  {
    MergeIsCoarser(before.part, e);
  }

  /** A longer pass joins more, and never revisits a decision. */
  lemma {:induction false} GreedyGrows(
    start: Partition, edges: seq<Pair>, forbidden: set<Pair>, forced: set<Pair>, n: nat)
    requires Known(edges, start.Keys) && n <= |edges|
    ensures Coarser(Greedy(start, edges[..n], forbidden, forced).part, Greedy(start, edges, forbidden, forced).part)
    ensures Greedy(start, edges[..n], forbidden, forced).taken == Greedy(start, edges, forbidden, forced).taken[..n]
    decreases |edges|
  {
    if n == |edges| {
      assert edges[..n] == edges;
    } else {
      var front := edges[..|edges| - 1];
      assert front[..n] == edges[..n];
      GreedyGrows(start, front, forbidden, forced, n);
      StepGrows(Greedy(start, front, forbidden, forced), edges[|edges| - 1], forbidden, forced);
    }
  }

  lemma {:induction false} GreedyIsSafe(start: Partition, edges: seq<Pair>, forbidden: set<Pair>)
    requires Known(edges, start.Keys) && Safe(start, forbidden)
    ensures Safe(Greedy(start, edges, forbidden, {}).part, forbidden)
    decreases |edges|
  {
    if edges != [] {
      var front, e := edges[..|edges| - 1], edges[|edges| - 1];
      GreedyIsSafe(start, front, forbidden);
      var p := Greedy(start, front, forbidden, {}).part;
      if !Refused(p, e, forbidden, {}) {
        MergeKeepsSafe(p, e, forbidden);
      }
    }
  }

  /** The state in which edge `i` was decided, seen from the end of the pass. */
  lemma DecidedAt(start: Partition, edges: seq<Pair>, forbidden: set<Pair>, forced: set<Pair>, i: nat)
    requires Known(edges, start.Keys) && i < |edges|
    ensures var before := Greedy(start, edges[..i], forbidden, forced).part;
            var g := Greedy(start, edges, forbidden, forced);
            && Coarser(before, g.part)
            && (g.taken[i] <==> !Refused(before, edges[i], forbidden, forced))
            && (g.taken[i] ==> Same(g.part, edges[i].a, edges[i].b))
  {
    var upto := edges[..i + 1];
    assert upto[..|upto| - 1] == edges[..i] && upto[|upto| - 1] == edges[i];
    GreedyGrows(start, edges, forbidden, forced, i);
    GreedyGrows(start, edges, forbidden, forced, i + 1);
    var before := Greedy(start, edges[..i], forbidden, forced);
    var after := Greedy(start, upto, forbidden, forced);
    assert after == Step(before, edges[i], forbidden, forced);
    assert after.taken[i] == Greedy(start, edges, forbidden, forced).taken[i];
    MergeIsCoarser(before.part, edges[i]);
  }

  /** A refused edge stays refusable: its two final classes together hold a forbidden pair. */
  lemma RefusedForGoodReason(start: Partition, edges: seq<Pair>, forbidden: set<Pair>, forced: set<Pair>, i: nat)
    requires Known(edges, start.Keys) && i < |edges|
    requires !Greedy(start, edges, forbidden, forced).taken[i]
    ensures Blocked(Proposed(Greedy(start, edges, forbidden, forced).part, edges[i]), forbidden)
  {
    DecidedAt(start, edges, forbidden, forced, i);
    var before := Greedy(start, edges[..i], forbidden, forced).part;
    var final := Greedy(start, edges, forbidden, forced).part;
    ProposedGrows(before, final, edges[i]);
    BlockedIsMonotone(Proposed(before, edges[i]), Proposed(final, edges[i]), forbidden, forbidden);
  }

  /** Greedy maximality: the ends of an edge finish in one class exactly when it was accepted. */
  lemma TakenIffJoined(start: Partition, edges: seq<Pair>, forbidden: set<Pair>, i: nat)
    requires Known(edges, start.Keys) && Safe(start, forbidden) && i < |edges|
    ensures Greedy(start, edges, forbidden, {}).taken[i]
            <==> Same(Greedy(start, edges, forbidden, {}).part, edges[i].a, edges[i].b)
  {
    var g := Greedy(start, edges, forbidden, {});
    DecidedAt(start, edges, forbidden, {}, i);
    if !g.taken[i] && Same(g.part, edges[i].a, edges[i].b) {
      GreedyIsSafe(start, edges, forbidden);
      SafeIsUnblocked(g.part, forbidden, edges[i].a);
      assert Proposed(g.part, edges[i]) == Component(g.part, edges[i].a);
      RefusedForGoodReason(start, edges, forbidden, {}, i);
      assert false;
    }
  }

  // ---- the accepted edges as a graph -----------------------------------------------------------------

  /** The edges whose flag is set, in order. */
  function Chosen(edges: seq<Pair>, taken: seq<bool>): (r: seq<Pair>)
    requires |edges| == |taken|
  {
    if edges == [] then [] else
      var n := |edges| - 1;
      Chosen(edges[..n], taken[..n]) + if taken[n] then [edges[n]] else []
  }

  lemma {:induction false} ChosenMembers(edges: seq<Pair>, taken: seq<bool>, e: Pair)
    requires |edges| == |taken|
    ensures e in Chosen(edges, taken) <==> exists i :: 0 <= i < |edges| && edges[i] == e && taken[i]
    decreases |edges|
  {
    if edges != [] {
      var n := |edges| - 1;
      ChosenMembers(edges[..n], taken[..n], e);
      assert forall i :: 0 <= i < n ==> edges[..n][i] == edges[i] && taken[..n][i] == taken[i];
    }
  }

  function RefusedCount(taken: seq<bool>): nat {
    if taken == [] then 0 else
      RefusedCount(taken[..|taken| - 1]) + if taken[|taken| - 1] then 0 else 1
  }

  /** The places of the edges that were refused. */
  ghost function RefusedPlaces(taken: seq<bool>): set<int> {
    set i | 0 <= i < |taken| && !taken[i]
  }

  lemma {:induction false} RefusedAreCounted(taken: seq<bool>)
    ensures RefusedCount(taken) == |RefusedPlaces(taken)|
    decreases |taken|
  {
    if taken != [] {
      var n := |taken| - 1;
      RefusedAreCounted(taken[..n]);
      assert RefusedPlaces(taken) == RefusedPlaces(taken[..n]) + if taken[n] then {} else {n};
    }
  }

  /** The places of the edges whose ends are in two components. */
  ghost function SplitEdges(p: Partition, edges: seq<Pair>): set<int> {
    set i | 0 <= i < |edges| && !Same(p, edges[i].a, edges[i].b)
  }

  lemma RefusedAreSplit(p: Partition, edges: seq<Pair>, taken: seq<bool>)
    requires |edges| == |taken|
    requires forall i :: 0 <= i < |edges| ==> (taken[i] <==> Same(p, edges[i].a, edges[i].b))
    ensures RefusedCount(taken) == |SplitEdges(p, edges)|
  {
    RefusedAreCounted(taken);
    assert RefusedPlaces(taken) == SplitEdges(p, edges);
  }

  lemma MergeOneMore(p: Partition, edges: seq<Pair>, e: Pair)
    requires Known(edges, p.Keys) && Inside(e, p.Keys)
    ensures Known(edges + [e], p.Keys)
    ensures MergeAll(p, edges + [e]) == Merge(MergeAll(p, edges), e)
  {
    var more := edges + [e];
    assert more[..|more| - 1] == edges;
  }

  /** The pass ends with exactly the unions along its accepted edges. */
  lemma {:induction false} GreedyMergesChosen(
    start: Partition, edges: seq<Pair>, forbidden: set<Pair>, forced: set<Pair>)
    requires Known(edges, start.Keys)
    ensures var chosen := Chosen(edges, Greedy(start, edges, forbidden, forced).taken);
            Known(chosen, start.Keys) && Greedy(start, edges, forbidden, forced).part == MergeAll(start, chosen)
    decreases |edges|
  {
    if edges != [] {
      var front, e := edges[..|edges| - 1], edges[|edges| - 1];
      GreedyMergesChosen(start, front, forbidden, forced);
      var before := Greedy(start, front, forbidden, forced);
      var chosen := Chosen(front, before.taken);
      ChosenStep(edges, before.taken, !Refused(before.part, e, forbidden, forced));
      if Refused(before.part, e, forbidden, forced) {
        assert chosen + [] == chosen;
      } else {
        MergeOneMore(start, chosen, e);
      }
    }
  }

  lemma ChosenStep(edges: seq<Pair>, taken: seq<bool>, last: bool)
    requires |edges| == |taken| + 1
    ensures Chosen(edges, taken + [last])
            == Chosen(edges[..|edges| - 1], taken) + if last then [edges[|edges| - 1]] else []
  {
    assert (taken + [last])[..|taken|] == taken;
  }

  lemma {:induction false} MergeAllAppends(p: Partition, first: seq<Pair>, second: seq<Pair>)
    requires Known(first, p.Keys) && Known(second, p.Keys)
    ensures Known(first + second, p.Keys)
    ensures MergeAll(p, first + second) == MergeAll(MergeAll(p, first), second)
    decreases |second|
  {
    if second == [] {
      assert first + second == first;
    } else {
      var front, e := second[..|second| - 1], second[|second| - 1];
      assert second == front + [e] && first + second == (first + front) + [e];
      MergeAllAppends(p, first, front);
      MergeOneMore(p, first + front, e);
    }
  }

  /** Any class of two or more records holds both ends of an edge it was merged along. */
  lemma BigClassHoldsAnEdge(ids: set<RecordId>, edges: seq<Pair>, x: RecordId, y: RecordId)
    requires Known(edges, ids) && x != y && Same(MergeAll(Discrete(ids), edges), x, y)
    ensures exists e :: e in edges && Inside(e, Component(MergeAll(Discrete(ids), edges), x))
  {
    var p := MergeAll(Discrete(ids), edges);
    MergeAllIsReachability(ids, edges, x, y);
    var path :| IsPath(EdgeSet(edges), path) && path[0] == x && path[|path| - 1] == y;
    assert Adjacent(EdgeSet(edges), path[0], path[1]);
    var e :| e in EdgeSet(edges) && ((e.a == path[0] && e.b == path[1]) || (e.a == path[1] && e.b == path[0]));
    MergeAllJoinsEveryEdge(Discrete(ids), edges);
    assert Same(p, e.a, e.b);
    assert e in edges && Inside(e, Component(p, x));
  }

  // ---- forcing one edge --------------------------------------------------------------------------------

  /** If the class holding a forced edge ends free of forbidden pairs, the edge was never really forced. */
  lemma {:induction false} ForceWasNotNeeded(start: Partition, edges: seq<Pair>, forbidden: set<Pair>, e: Pair)
    requires Known(edges, start.Keys) && Inside(e, start.Keys)
    requires !Blocked(Component(Greedy(start, edges, forbidden, {e}).part, e.a), forbidden)
    ensures Greedy(start, edges, forbidden, {e}) == Greedy(start, edges, forbidden, {})
    decreases |edges|
  {
    if edges != [] {
      var front, last := edges[..|edges| - 1], edges[|edges| - 1];
      var before := Greedy(start, front, forbidden, {e});
      var after := Greedy(start, edges, forbidden, {e});
      StepGrows(before, last, forbidden, {e});
      ProposedGrows(before.part, after.part, e);
      BlockedIsMonotone(Component(before.part, e.a), Component(after.part, e.a), forbidden, forbidden);
      ForceWasNotNeeded(start, front, forbidden, e);
      if last == e {
        MergedClass(before.part, e);
      }
    }
  }

  lemma MergedClass(p: Partition, e: Pair)
    requires Inside(e, p.Keys)
    ensures Component(Merge(p, e), e.a) == Proposed(p, e)
  {
    forall y
      ensures y in Component(Merge(p, e), e.a) <==> y in Proposed(p, e)
    {
      MergeJoins(p, e, y, e.a);
    }
  }

  /** The extra forbidden pairs never decided anything: whatever was refused, `forbidden` refused. */
  ghost predicate ExtraIsIdle(start: Partition, edges: seq<Pair>, forbidden: set<Pair>, extra: set<Pair>)
    requires Known(edges, start.Keys)
  {
    forall i :: 0 <= i < |edges| && !Greedy(start, edges, forbidden + extra, {}).taken[i] ==>
      Blocked(Proposed(Greedy(start, edges[..i], forbidden + extra, {}).part, edges[i]), forbidden)
  }

  /** An idle restriction can be dropped without changing the pass. */
  lemma {:induction false} IdleExtraCanBeDropped(
    start: Partition, edges: seq<Pair>, forbidden: set<Pair>, extra: set<Pair>)
    requires Known(edges, start.Keys) && ExtraIsIdle(start, edges, forbidden, extra)
    ensures Greedy(start, edges, forbidden + extra, {}) == Greedy(start, edges, forbidden, {})
    decreases |edges|
  {
    if edges != [] {
      var n := |edges| - 1;
      GreedyGrows(start, edges, forbidden + extra, {}, n);
      forall i | 0 <= i < n && !Greedy(start, edges[..n], forbidden + extra, {}).taken[i]
        ensures Blocked(Proposed(Greedy(start, edges[..n][..i], forbidden + extra, {}).part, edges[..n][i]), forbidden)
      {
        assert edges[..n][..i] == edges[..i] && !Greedy(start, edges, forbidden + extra, {}).taken[i];
      }
      IdleExtraCanBeDropped(start, edges[..n], forbidden, extra);
      DecidedAt(start, edges, forbidden + extra, {}, n);
      var ids := Proposed(Greedy(start, edges[..n], forbidden, {}).part, edges[n]);
      BlockedIsMonotone(ids, ids, forbidden, forbidden + extra);
    }
  }

  /** Passes that take the same edges go through the same partitions. */
  lemma {:induction false} SameFlagsSamePass(
    start: Partition, edges: seq<Pair>, forbidden: set<Pair>, others: set<Pair>, n: nat)
    requires Known(edges, start.Keys) && n <= |edges|
    requires Greedy(start, edges, forbidden, {}).taken == Greedy(start, edges, others, {}).taken
    ensures Greedy(start, edges[..n], forbidden, {}) == Greedy(start, edges[..n], others, {})
    decreases n
  {
    if n > 0 {
      SameFlagsSamePass(start, edges, forbidden, others, n - 1);
      DecidedAt(start, edges, forbidden, {}, n - 1);
      DecidedAt(start, edges, others, {}, n - 1);
      assert edges[..n][..n - 1] == edges[..n - 1];
    }
  }

  lemma SamePartitionSameFlags(start: Partition, edges: seq<Pair>, forbidden: set<Pair>, extra: set<Pair>)
    requires Known(edges, start.Keys) && Safe(start, forbidden + extra)
    requires Greedy(start, edges, forbidden + extra, {}).part == Greedy(start, edges, forbidden, {}).part
    ensures Greedy(start, edges, forbidden + extra, {}).taken == Greedy(start, edges, forbidden, {}).taken
  {
    assert forall f :: f in forbidden ==> f in forbidden + extra;
    forall i | 0 <= i < |edges|
      ensures Greedy(start, edges, forbidden + extra, {}).taken[i] == Greedy(start, edges, forbidden, {}).taken[i]
    {
      TakenIffJoined(start, edges, forbidden + extra, i);
      TakenIffJoined(start, edges, forbidden, i);
    }
  }

  /** Dropping the extra restriction leaves the final partition alone exactly when it was idle. */
  lemma IdleExactlyWhenPartitionsAgree(
    start: Partition, edges: seq<Pair>, forbidden: set<Pair>, extra: set<Pair>)
    requires Known(edges, start.Keys) && Safe(start, forbidden + extra)
    ensures ExtraIsIdle(start, edges, forbidden, extra)
            <==> Greedy(start, edges, forbidden + extra, {}).part == Greedy(start, edges, forbidden, {}).part
  {
    var strict, loose := Greedy(start, edges, forbidden + extra, {}), Greedy(start, edges, forbidden, {});
    if ExtraIsIdle(start, edges, forbidden, extra) {
      IdleExtraCanBeDropped(start, edges, forbidden, extra);
    }
    if strict.part == loose.part {
      SamePartitionSameFlags(start, edges, forbidden, extra);
      forall i | 0 <= i < |edges| && !strict.taken[i]
        ensures Blocked(Proposed(Greedy(start, edges[..i], forbidden + extra, {}).part, edges[i]), forbidden)
      {
        SameFlagsSamePass(start, edges, forbidden + extra, forbidden, i);
        DecidedAt(start, edges, forbidden, {}, i);
      }
    }
  }

  // ---- pairs nobody asked about ------------------------------------------------------------------------

  /** Edge `i` was accepted, ends in the class of `x`, and brought a pair of `other` together at its turn: the
      question about `other` that this pass does not ask. */
  ghost predicate BringsTogether(
    start: Partition, edges: seq<Pair>, forbidden: set<Pair>, other: set<Pair>, x: RecordId, i: int)
    requires Known(edges, start.Keys)
  {
    0 <= i < |edges| && Greedy(start, edges, forbidden, {}).taken[i] &&
    Same(Greedy(start, edges, forbidden, {}).part, edges[i].a, x) &&
    Blocked(Proposed(Greedy(start, edges[..i], forbidden, {}).part, edges[i]), other)
  }

  /** A class of the starting partition, holding a pair of `other`, ends in the class of `x`. */
  ghost predicate StartsTogether(
    start: Partition, edges: seq<Pair>, forbidden: set<Pair>, other: set<Pair>, x: RecordId)
    requires Known(edges, start.Keys)
  {
    exists y :: y in start && Same(Greedy(start, edges, forbidden, {}).part, y, x) && Blocked(Component(start, y), other)
  }

  ghost predicate EverTogether(
    start: Partition, edges: seq<Pair>, forbidden: set<Pair>, other: set<Pair>, x: RecordId)
    requires Known(edges, start.Keys)
  {
    StartsTogether(start, edges, forbidden, other, x) ||
    exists i :: BringsTogether(start, edges, forbidden, other, x, i)
  }

  /** What one more edge does to a class that holds a pair of `other`: either the edge brought it together, or
      the class of some record in it held one before. */
  lemma LastEdgeBringsTogether(
    start: Partition, edges: seq<Pair>, forbidden: set<Pair>, other: set<Pair>, x: RecordId)
    requires Known(edges, start.Keys) && edges != [] && x in start
    requires Blocked(Component(Greedy(start, edges, forbidden, {}).part, x), other)
    ensures BringsTogether(start, edges, forbidden, other, x, |edges| - 1)
            || Blocked(Component(Greedy(start, edges[..|edges| - 1], forbidden, {}).part, x), other)
  {
    var n := |edges| - 1;
    var before, after := Greedy(start, edges[..n], forbidden, {}), Greedy(start, edges, forbidden, {});
    if !Refused(before.part, edges[n], forbidden, {}) {
      MergedClass(before.part, edges[n]);
      if x in Proposed(before.part, edges[n]) {
        MergeJoins(before.part, edges[n], edges[n].a, x);
        SameClassSameComponent(after.part, edges[n].a, x);
      } else {
        UntouchedClass(before.part, edges[n], x);
      }
    }
  }

  lemma SameClassSameComponent(p: Partition, x: RecordId, y: RecordId)
    requires Same(p, x, y)
    ensures Component(p, x) == Component(p, y)
  {
  }

  lemma UntouchedClass(p: Partition, e: Pair, x: RecordId)
    requires Inside(e, p.Keys) && x in p && x !in Proposed(p, e)
    ensures Component(Merge(p, e), x) == Component(p, x)
  {
    forall y
      ensures y in Component(Merge(p, e), x) <==> y in Component(p, x)
    {
      MergeJoins(p, e, y, x);
    }
  }

  lemma BroughtTogetherStays(
    start: Partition, edges: seq<Pair>, forbidden: set<Pair>, other: set<Pair>, x: RecordId, n: nat, i: int)
    requires Known(edges, start.Keys) && n <= |edges| && x in start
    requires BringsTogether(start, edges[..n], forbidden, other, x, i)
    ensures BringsTogether(start, edges, forbidden, other, x, i)
  {
    GreedyGrows(start, edges, forbidden, {}, n);
    assert edges[..n][..i] == edges[..i];
  }

  lemma {:induction false} TogetherWasBrought(
    start: Partition, edges: seq<Pair>, forbidden: set<Pair>, other: set<Pair>, x: RecordId)
    requires Known(edges, start.Keys) && x in start
    requires Blocked(Component(Greedy(start, edges, forbidden, {}).part, x), other)
    ensures EverTogether(start, edges, forbidden, other, x)
    decreases |edges|
  {
    if edges == [] {
      assert Same(start, x, x);
    } else {
      var n := |edges| - 1;
      LastEdgeBringsTogether(start, edges, forbidden, other, x);
      if !BringsTogether(start, edges, forbidden, other, x, n) {
        TogetherWasBrought(start, edges[..n], forbidden, other, x);
        GreedyGrows(start, edges, forbidden, {}, n);
        if i :| BringsTogether(start, edges[..n], forbidden, other, x, i) {
          BroughtTogetherStays(start, edges, forbidden, other, x, n, i);
        }
      }
    }
  }

  lemma BroughtTogetherIsTogether(
    start: Partition, edges: seq<Pair>, forbidden: set<Pair>, other: set<Pair>, x: RecordId, i: int)
    requires Known(edges, start.Keys) && x in start && BringsTogether(start, edges, forbidden, other, x, i)
    ensures Blocked(Component(Greedy(start, edges, forbidden, {}).part, x), other)
  {
    var before, last := Greedy(start, edges[..i], forbidden, {}).part, Greedy(start, edges, forbidden, {}).part;
    DecidedAt(start, edges, forbidden, {}, i);
    ProposedGrows(before, last, edges[i]);
    SameClassSameComponent(last, edges[i].a, x);
    SameClassSameComponent(last, edges[i].a, edges[i].b);
    assert Proposed(last, edges[i]) == Component(last, x);
    BlockedIsMonotone(Proposed(before, edges[i]), Component(last, x), other, other);
  }

  lemma StartedTogetherIsTogether(
    start: Partition, edges: seq<Pair>, forbidden: set<Pair>, other: set<Pair>, x: RecordId)
    requires Known(edges, start.Keys) && x in start && StartsTogether(start, edges, forbidden, other, x)
    ensures Blocked(Component(Greedy(start, edges, forbidden, {}).part, x), other)
  {
    var last := Greedy(start, edges, forbidden, {}).part;
    var y :| y in start && Same(last, y, x) && Blocked(Component(start, y), other);
    GreedyGrows(start, edges, forbidden, {}, 0);
    assert edges[..0] == [];
    forall z | z in Component(start, y)
      ensures z in Component(last, x)
    {
      assert Same(start, z, y);
    }
    BlockedIsMonotone(Component(start, y), Component(last, x), other, other);
  }

  /** A class ends up holding a pair of `other` exactly when it held one from the start or some accepted edge
      brought one together at its turn. */
  lemma HoldsExactlyWhenBroughtTogether(
    start: Partition, edges: seq<Pair>, forbidden: set<Pair>, other: set<Pair>, x: RecordId)
    requires Known(edges, start.Keys) && x in start
    ensures Blocked(Component(Greedy(start, edges, forbidden, {}).part, x), other)
            <==> EverTogether(start, edges, forbidden, other, x)
  {
    if Blocked(Component(Greedy(start, edges, forbidden, {}).part, x), other) {
      TogetherWasBrought(start, edges, forbidden, other, x);
    } else if StartsTogether(start, edges, forbidden, other, x) {
      StartedTogetherIsTogether(start, edges, forbidden, other, x);
    } else if i :| BringsTogether(start, edges, forbidden, other, x, i) {
      BroughtTogetherIsTogether(start, edges, forbidden, other, x, i);
    }
  }
}
