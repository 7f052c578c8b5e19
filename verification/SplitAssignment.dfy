/** The split assignment end to end, the three validators, and why they accept it. */
module SplitAssignment {
  import opened Results
  import opened Records
  import opened Partitions
  import opened GreedyPass
  import opened PersonUnionFinds
  import opened PersonUnits
  import opened Splits

  /** `splits[name].extend(sorted(unit))` for every unit. */
  function Spread(units: seq<Unit>): seq<PersonId> {
    if units == [] then [] else Spread(units[..|units| - 1]) + SortedIds(units[|units| - 1])
  }

  function SpreadParts(buckets: Parts<Unit>): Parts<PersonId> {
    Parts(Spread(buckets.train), Spread(buckets.validation), Spread(buckets.test), Spread(buckets.holdout), buckets.hasHoldout)
  }

  // ---- counting who is where -------------------------------------------------------------------------------------------

  lemma {:induction false} AscendingCounts(s: seq<PersonId>, x: PersonId)
    requires AscendingIds(s)
    ensures multiset(s)[x] == if x in s then 1 else 0
    decreases |s|
  {
    if s != [] {
      assert s == s[..|s| - 1] + [s[|s| - 1]];
      AscendingCounts(s[..|s| - 1], x);
    }
  }

  lemma {:induction false} SpreadCounts(units: seq<Unit>, x: PersonId)
    ensures multiset(Spread(units))[x] == Holds(units, x)
    decreases |units|
  {
    if units != [] {
      SpreadCounts(units[..|units| - 1], x);
      AscendingCounts(SortedIds(units[|units| - 1]), x);
    }
  }

  lemma SpreadMembers(units: seq<Unit>, x: PersonId)
    ensures x in Spread(units) <==> exists i :: 0 <= i < |units| && x in units[i]
  {
    SpreadCounts(units, x);
    if Holds(units, x) > 0 {
      SomeUnitHolds(units, x);
    }
    if i :| 0 <= i < |units| && x in units[i] {
      HeldUnitCounts(units, units[i], x);
    }
  }

  lemma {:induction false} HoldsAppends(first: seq<Unit>, second: seq<Unit>, x: PersonId)
    ensures Holds(first + second, x) == Holds(first, x) + Holds(second, x)
    decreases |second|
  {
    if second == [] {
      assert first + second == first;
    } else {
      assert (first + second)[..|first + second| - 1] == first + second[..|second| - 1];
      HoldsAppends(first, second[..|second| - 1], x);
    }
  }

  lemma HoldsWithout(units: seq<Unit>, j: nat, x: PersonId)
    requires j < |units|
    ensures Holds(units, x) == Holds(units[..j] + units[j + 1..], x) + if x in units[j] then 1 else 0
    ensures multiset(units) == multiset(units[..j] + units[j + 1..]) + multiset{units[j]}
  {
    assert units == (units[..j] + [units[j]]) + units[j + 1..];
    HoldsAppends(units[..j], units[j + 1..], x);
    HoldsAppends(units[..j] + [units[j]], units[j + 1..], x);
    HoldsAppends(units[..j], [units[j]], x);
  }

  lemma {:induction false} HoldsPermutes(s: seq<Unit>, t: seq<Unit>, x: PersonId)
    requires multiset(s) == multiset(t)
    ensures Holds(s, x) == Holds(t, x)
    decreases |s|
  {
    SameMembers(s, t);
    if s != [] {
      var n := |s| - 1;
      assert s[n] in s && s[n] in t;
      var j :| 0 <= j < |t| && t[j] == s[n];
      var without := t[..j] + t[j + 1..];
      HoldsWithout(t, j, x);
      HoldsWithout(s, n, x);
      assert s[..n] + s[n + 1..] == s[..n];
      assert multiset(s[..n]) == multiset(s) - multiset{s[n]} && multiset(without) == multiset(t) - multiset{s[n]};
      HoldsPermutes(s[..n], without, x);
    }
  }

  lemma PartsHold(buckets: Parts<Unit>, units: seq<Unit>, x: PersonId)
    requires multiset(buckets.All()) == multiset(units)
    ensures Holds(buckets.train, x) + Holds(buckets.validation, x) + Holds(buckets.test, x) + Holds(buckets.holdout, x)
            == Holds(units, x)
  {
    HoldsPermutes(buckets.All(), units, x);
    HoldsAppends(buckets.train, buckets.validation, x);
    HoldsAppends(buckets.train + buckets.validation, buckets.test, x);
    HoldsAppends(buckets.train + buckets.validation + buckets.test, buckets.holdout, x);
  }

  // ---- the assignment -----------------------------------------------------------------------------------------------------

  /** Everyone is listed exactly once, nobody else is, and people who must stay together share a split. */
  ghost predicate IsAssignment(splits: Parts<PersonId>, persons: seq<PersonId>, pairs: seq<PersonPair>) {
    && splits.Valid()
    && (forall x :: multiset(splits.All())[x] == if x in persons then 1 else 0)
    && Unbroken(splits, persons, pairs)
  }

  /** No component is cut. */
  ghost predicate Unbroken(splits: Parts<PersonId>, persons: seq<PersonId>, pairs: seq<PersonPair>) {
    forall name, x, y :: x in splits.Of(name) && MustStayTogether(persons, pairs, x, y) ==> y in splits.Of(name)
  }

  /** The multi-person components. */
  ghost function MultiComponents(persons: seq<PersonId>, pairs: seq<PersonPair>): set<Unit> {
    var p := Components(persons, pairs);
    set x | x in p && IsMulti(Component(p, x)) :: Component(p, x)
  }

  ghost function AllComponents(persons: seq<PersonId>, pairs: seq<PersonPair>): set<Unit> {
    var p := Components(persons, pairs);
    set x | x in p :: Component(p, x)
  }

  /** How many components are cut by the ratios: all but the multi-person ones set aside for the minimums. */
  ghost function CutComponents(
    persons: seq<PersonId>, pairs: seq<PersonPair>, ratios: Ratios, minimums: Minimums): nat
  {
    var all, multis := AllComponents(persons, pairs), MultiComponents(persons, pairs);
    var taken := TakenCount(|multis|, minimums, ratios.holdout > 0.0);
    if taken <= |all| then |all| - taken else 0
  }

  /** The cuts the ratios make in the components that are left come in order. */
  ghost predicate DealsInOrder(persons: seq<PersonId>, pairs: seq<PersonPair>, ratios: Ratios, minimums: Minimums) {
    CutsInOrder(CutComponents(persons, pairs, ratios, minimums), ratios)
  }

  /** Somebody is listed more than once. */
  ghost predicate Repeats(splits: Parts<PersonId>) {
    exists x :: multiset(splits.All())[x] > 1
  }

  /** `assign_splits_with_hard_negative_pairs`. The result assigns everyone once and whole components together
      exactly when the cuts come in order, which non-negative ratios guarantee; otherwise somebody is listed
      twice. */
  method AssignSplits(persons: seq<PersonId>, pairs: seq<PersonPair>, ratios: Ratios, minimums: Minimums)
    returns (r: Result<Parts<PersonId>, SplitError>)
    ensures r.Ok? <==>
      0.999999 <= ratios.train + ratios.validation + ratios.test + ratios.holdout <= 1.000001
    ensures r.Err? ==> r.error == RatioError
    ensures r.Ok? ==> r.value.hasHoldout == (ratios.holdout > 0.0)
    ensures r.Ok? ==> (IsAssignment(r.value, persons, pairs) <==> DealsInOrder(persons, pairs, ratios, minimums))
    ensures r.Ok? ==> (Repeats(r.value) <==> !DealsInOrder(persons, pairs, ratios, minimums))
    ensures r.Ok? && DealsInOrder(persons, pairs, ratios, minimums) &&
            Reserved(minimums, ratios.holdout > 0.0) <= |MultiComponents(persons, pairs)| ==>
              CoversMinimums(r.value, pairs, minimums)
    ensures r.Ok? && DealsInOrder(persons, pairs, ratios, minimums) ==>
              DealtByShare(r.value, persons, pairs, ratios, minimums) && KeepsReserved(r.value, persons, pairs, minimums)
  {
    if !ratios.SumsToOne() {
      return Err(RatioError);
    }
    var units := PairPersonUnits(persons, pairs);
    UnitsAreNonEmpty(units, persons, pairs);
    var buckets := DealUnits(units, ratios, minimums);
    MultisAreMultiComponents(units, persons, pairs);
    UnitsAreAllComponents(units, persons, pairs);
    assert CutCount(|units|, |Multis(units)|, minimums, ratios) == CutComponents(persons, pairs, ratios, minimums);
    DealtAsCut(buckets, units, persons, pairs, CutComponents(persons, pairs, ratios, minimums), ratios, minimums);
    if DealsInOrder(persons, pairs, ratios, minimums) {
      SharesAreComponents(buckets, units, persons, pairs, ratios, minimums);
    }
    r := Ok(SpreadParts(buckets));
  }

  /** What the cuts decide about what was dealt. */
  lemma DealtAsCut(
    buckets: Parts<Unit>, units: seq<Unit>, persons: seq<PersonId>, pairs: seq<PersonPair>, count: nat,
    ratios: Ratios, minimums: Minimums)
    requires AreUnits(units, persons, pairs) && buckets.Valid()
    requires CutsInOrder(count, ratios) ==> multiset(buckets.All()) == multiset(units)
    requires !CutsInOrder(count, ratios) ==> |buckets.All()| > |units|
    requires forall u :: u in buckets.All() ==> u in units
    requires HoldsReserved(buckets, |MultiComponents(persons, pairs)|, minimums)
    ensures IsAssignment(SpreadParts(buckets), persons, pairs) <==> CutsInOrder(count, ratios)
    ensures Repeats(SpreadParts(buckets)) <==> !CutsInOrder(count, ratios)
    ensures CutsInOrder(count, ratios) && Reserved(minimums, buckets.hasHoldout) <= |MultiComponents(persons, pairs)| ==>
              CoversMinimums(SpreadParts(buckets), pairs, minimums)
  {
    if CutsInOrder(count, ratios) {
      DealtIsAssignment(buckets, units, persons, pairs);
      DealtMeetsCoverage(buckets, units, persons, pairs, minimums);
    } else {
      DealtTwice(buckets, units, persons, pairs);
    }
  }

  /** Every evaluation split holds its minimum of hard-negative pairs. */
  ghost predicate CoversMinimums(splits: Parts<PersonId>, pairs: seq<PersonPair>, minimums: Minimums) {
    forall name :: name != Train && splits.Has(name) ==>
      CountInside(pairs, People(splits.Of(name))) >= MinimumFor(minimums, name)
  }

  lemma {:induction false} DistinctUnits(units: seq<Unit>)
    requires forall x :: Holds(units, x) <= 1
    requires forall u :: u in units ==> u != {}
    ensures |set u | u in units| == |units|
    decreases |units|
  {
    if units != [] {
      var front, last := units[..|units| - 1], units[|units| - 1];
      assert units == front + [last];
      forall x
        ensures Holds(front, x) <= 1
      {
        assert Holds(units, x) <= 1;
      }
      forall u | u in front
        ensures u != {}
      {
        assert u in units;
      }
      DistinctUnits(front);
      assert last in units;
      var x :| x in last;
      assert Holds(units, x) <= 1;
      assert last !in front by {
        if last in front {
          HeldUnitCounts(front, last, x);
        }
      }
      assert (set u | u in units) == (set u | u in front) + {last};
    }
  }

  /** The units are as many as the components. */
  lemma UnitsAreAllComponents(units: seq<Unit>, persons: seq<PersonId>, pairs: seq<PersonPair>)
    requires AreUnits(units, persons, pairs)
    ensures |units| == |AllComponents(persons, pairs)|
  {
    var p := Components(persons, pairs);
    UnitsAreNonEmpty(units, persons, pairs);
    DistinctUnits(units);
    forall u
      ensures u in units <==> u in AllComponents(persons, pairs)
    {
      if u in units {
        var i :| 0 <= i < |units| && units[i] == u;
        assert IsClass(p, units[i]);
      }
      if u in AllComponents(persons, pairs) {
        var x :| x in p && u == Component(p, x);
        ComponentIsAUnit(units, persons, pairs, x);
      }
    }
    assert (set u | u in units) == AllComponents(persons, pairs);
  }

  lemma ComponentIsAUnit(units: seq<Unit>, persons: seq<PersonId>, pairs: seq<PersonPair>, x: PersonId)
    requires AreUnits(units, persons, pairs) && x in Components(persons, pairs)
    ensures Component(Components(persons, pairs), x) in units
  {
    var p := Components(persons, pairs);
    assert Holds(units, x) == 1;
    SomeUnitHolds(units, x);
    var i :| 0 <= i < |units| && x in units[i];
    assert IsClass(p, units[i]);
    assert units[i] == Component(p, x);
  }

  /** More units dealt than there are: some unit is dealt twice, and its people are listed twice. */
  lemma DealtTwice(buckets: Parts<Unit>, units: seq<Unit>, persons: seq<PersonId>, pairs: seq<PersonPair>)
    requires AreUnits(units, persons, pairs)
    requires |buckets.All()| > |units| && forall u :: u in buckets.All() ==> u in units
    ensures Repeats(SpreadParts(buckets)) && !IsAssignment(SpreadParts(buckets), persons, pairs)
  {
    var splits, dealt := SpreadParts(buckets), buckets.All();
    UnitsAreNonEmpty(units, persons, pairs);
    if forall x :: Holds(dealt, x) <= 1 {
      DistinctUnits(dealt);
      UnitsAreAllComponents(units, persons, pairs);
      SubsetCount(set u | u in dealt, set u | u in units);
      MembersAtMost(units);
      assert false;
    }
    var x :| Holds(dealt, x) > 1;
    ListedAsDealt(buckets, x);
    assert multiset(splits.All())[x] > 1;
  }

  lemma {:induction false} MembersAtMost(units: seq<Unit>)
    ensures |set u | u in units| <= |units|
    decreases |units|
  {
    if units != [] {
      var front, last := units[..|units| - 1], units[|units| - 1];
      MembersAtMost(front);
      assert units == front + [last];
      assert (set u | u in units) == (set u | u in front) + {last};
    }
  }

  lemma ListedAsDealt(buckets: Parts<Unit>, x: PersonId)
    ensures multiset(SpreadParts(buckets).All())[x] == Holds(buckets.All(), x)
  {
    var splits := SpreadParts(buckets);
    PartsHold(buckets, buckets.All(), x);
    SpreadCounts(buckets.train, x);
    SpreadCounts(buckets.validation, x);
    SpreadCounts(buckets.test, x);
    SpreadCounts(buckets.holdout, x);
    assert multiset(splits.All()) ==
      multiset(splits.train) + multiset(splits.validation) + multiset(splits.test) + multiset(splits.holdout);
  }

  lemma UnitsAreNonEmpty(units: seq<Unit>, persons: seq<PersonId>, pairs: seq<PersonPair>)
    requires AreUnits(units, persons, pairs)
    ensures forall u :: u in units ==> u != {}
  {
    var p := Components(persons, pairs);
    forall u | u in units
      ensures u != {}
    {
      var i :| 0 <= i < |units| && units[i] == u;
      assert IsClass(p, units[i]);
      var x :| x in p && u == Component(p, x);
      assert x in u;
    }
  }

  lemma {:induction false} MultiIs(units: seq<Unit>, u: Unit)
    ensures u in Multis(units) <==> u in units && IsMulti(u)
    decreases |units|
  {
    if units != [] {
      MultiIs(units[..|units| - 1], u);
      assert units == units[..|units| - 1] + [units[|units| - 1]];
    }
  }

  lemma {:induction false} SomeUnitHolds(units: seq<Unit>, x: PersonId)
    requires Holds(units, x) > 0
    ensures exists i :: 0 <= i < |units| && x in units[i]
    decreases |units|
  {
    if x !in units[|units| - 1] {
      SomeUnitHolds(units[..|units| - 1], x);
      var i :| 0 <= i < |units| - 1 && x in units[..|units| - 1][i];
      assert x in units[i];
    }
  }

  lemma {:induction false} HeldUnitCounts(units: seq<Unit>, u: Unit, x: PersonId)
    requires u in units && x in u
    ensures Holds(units, x) > 0
    decreases |units|
  {
    if u != units[|units| - 1] {
      HeldUnitCounts(units[..|units| - 1], u, x);
    }
  }

  lemma {:induction false} DistinctMultis(units: seq<Unit>)
    requires forall x :: Holds(units, x) <= 1
    ensures |set u | u in Multis(units)| == |Multis(units)|
    decreases |units|
  {
    if units != [] {
      var front, last := units[..|units| - 1], units[|units| - 1];
      forall x
        ensures Holds(front, x) <= 1
      {
        assert Holds(units, x) <= 1;
      }
      DistinctMultis(front);
      if IsMulti(last) {
        var x :| x in last;
        assert Holds(units, x) <= 1;
        MultiIs(front, last);
        assert last !in front by {
          if last in front {
            HeldUnitCounts(front, last, x);
          }
        }
        assert (set u | u in Multis(units)) == (set u | u in Multis(front)) + {last};
      } else {
        assert Multis(units) == Multis(front);
      }
    }
  }

  /** The multi-person units are as many as the multi-person components. */
  lemma MultisAreMultiComponents(units: seq<Unit>, persons: seq<PersonId>, pairs: seq<PersonPair>)
    requires AreUnits(units, persons, pairs)
    ensures |Multis(units)| == |MultiComponents(persons, pairs)|
  {
    var p := Components(persons, pairs);
    DistinctMultis(units);
    forall u
      ensures u in Multis(units) <==> u in MultiComponents(persons, pairs)
    {
      MultiIs(units, u);
      if u in units {
        var i :| 0 <= i < |units| && units[i] == u;
        assert IsClass(p, units[i]);
      }
      if u in MultiComponents(persons, pairs) {
        var x :| x in p && IsMulti(Component(p, x)) && u == Component(p, x);
        assert Holds(units, x) == 1;
        SomeUnitHolds(units, x);
        var i :| 0 <= i < |units| && x in units[i];
        assert IsClass(p, units[i]);
        assert units[i] == u;
      }
    }
    assert (set u | u in Multis(units)) == MultiComponents(persons, pairs);
  }

  lemma DealtUnitIsClass(
    buckets: Parts<Unit>, units: seq<Unit>, persons: seq<PersonId>, pairs: seq<PersonPair>, name: SplitName, u: Unit)
    requires AreUnits(units, persons, pairs) && multiset(buckets.All()) == multiset(units) && u in buckets.Of(name)
    ensures IsClass(Components(persons, pairs), u)
  {
    SameMembers(buckets.All(), units);
    assert u in buckets.All();
    var i :| 0 <= i < |units| && units[i] == u;
  }

  lemma EachListedOnce(buckets: Parts<Unit>, units: seq<Unit>, persons: seq<PersonId>, pairs: seq<PersonPair>)
    requires AreUnits(units, persons, pairs) && multiset(buckets.All()) == multiset(units)
    ensures forall x :: multiset(SpreadParts(buckets).All())[x] == if x in persons then 1 else 0
  {
    forall x
      ensures multiset(SpreadParts(buckets).All())[x] == if x in persons then 1 else 0
    {
      ListedAsDealt(buckets, x);
      HoldsPermutes(buckets.All(), units, x);
    }
  }

  lemma DealtIsAssignment(buckets: Parts<Unit>, units: seq<Unit>, persons: seq<PersonId>, pairs: seq<PersonPair>)
    requires AreUnits(units, persons, pairs) && buckets.Valid() && multiset(buckets.All()) == multiset(units)
    ensures IsAssignment(SpreadParts(buckets), persons, pairs)
  {
    EachListedOnce(buckets, units, persons, pairs);
    DealtIsUnbroken(buckets, units, persons, pairs);
  }

  lemma DealtIsUnbroken(buckets: Parts<Unit>, units: seq<Unit>, persons: seq<PersonId>, pairs: seq<PersonPair>)
    requires AreUnits(units, persons, pairs) && multiset(buckets.All()) == multiset(units)
    ensures Unbroken(SpreadParts(buckets), persons, pairs)
  {
    var splits := SpreadParts(buckets);
    forall name, x, y | x in splits.Of(name) && MustStayTogether(persons, pairs, x, y)
      ensures y in splits.Of(name)
    {
      DealtTogether(buckets, units, persons, pairs, name, x, y);
    }
  }

  lemma DealtTogether(
    buckets: Parts<Unit>, units: seq<Unit>, persons: seq<PersonId>, pairs: seq<PersonPair>,
    name: SplitName, x: PersonId, y: PersonId)
    requires AreUnits(units, persons, pairs) && multiset(buckets.All()) == multiset(units)
    requires x in Spread(buckets.Of(name)) && MustStayTogether(persons, pairs, x, y)
    ensures y in Spread(buckets.Of(name))
  {
    var dealt, p := buckets.Of(name), Components(persons, pairs);
    SpreadMembers(dealt, x);
    var i :| 0 <= i < |dealt| && x in dealt[i];
    DealtUnitIsClass(buckets, units, persons, pairs, name, dealt[i]);
    var z :| z in p && dealt[i] == Component(p, z);
    MergeAllIsReachability(People(persons), Edges(pairs, People(persons)), x, y);
    assert y in dealt[i];
    SpreadMembers(dealt, y);
  }

  // ---- coverage -----------------------------------------------------------------------------------------------------------------

  /** How many listed pairs lie wholly inside `ids`. */
  function CountInside(pairs: seq<PersonPair>, ids: set<PersonId>): nat {
    if pairs == [] then 0 else
      var last := pairs[|pairs| - 1];
      CountInside(pairs[..|pairs| - 1], ids) + if last.0 in ids && last.1 in ids then 1 else 0
  }

  lemma {:induction false} PairsAreCounted(pairs: seq<PersonPair>, ids: set<PersonId>)
    ensures CountInside(pairs, ids) == |set i | 0 <= i < |pairs| && pairs[i].0 in ids && pairs[i].1 in ids|
    decreases |pairs|
  {
    if pairs != [] {
      var n := |pairs| - 1;
      PairsAreCounted(pairs[..n], ids);
      var front := set i | 0 <= i < n && pairs[..n][i].0 in ids && pairs[..n][i].1 in ids;
      assert (set i | 0 <= i < |pairs| && pairs[i].0 in ids && pairs[i].1 in ids)
          == front + if pairs[n].0 in ids && pairs[n].1 in ids then {n} else {};
    }
  }

  lemma {:induction false} CountsAdd(pairs: seq<PersonPair>, a: set<PersonId>, b: set<PersonId>)
    requires a !! b
    ensures CountInside(pairs, a + b) >= CountInside(pairs, a) + CountInside(pairs, b)
    decreases |pairs|
  {
    if pairs != [] {
      CountsAdd(pairs[..|pairs| - 1], a, b);
    }
  }

  lemma {:induction false} CountsAtLeastOne(pairs: seq<PersonPair>, ids: set<PersonId>, i: nat)
    requires i < |pairs| && pairs[i].0 in ids && pairs[i].1 in ids
    ensures CountInside(pairs, ids) >= 1
    decreases |pairs|
  {
    if i < |pairs| - 1 {
      CountsAtLeastOne(pairs[..|pairs| - 1], ids, i);
    }
  }

  lemma TwoMembers(u: Unit, x: PersonId) returns (y: PersonId)
    requires IsMulti(u) && x in u
    ensures y in u && y != x
  {
    assert |u - {x}| == |u| - 1;
    y :| y in u - {x};
  }

  /** Every multi-person component holds a listed pair. */
  lemma MultiHoldsAPair(persons: seq<PersonId>, pairs: seq<PersonPair>, u: Unit)
    requires IsClass(Components(persons, pairs), u) && IsMulti(u)
    ensures CountInside(pairs, u) >= 1
  {
    var p, people := Components(persons, pairs), People(persons);
    var x :| x in p && u == Component(p, x);
    var y := TwoMembers(u, x);
    BigClassHoldsAnEdge(people, Edges(pairs, people), x, y);
    var e :| e in Edges(pairs, people) && Inside(e, Component(p, x));
    EdgeComesFrom(pairs, people, e);
    var i :| 0 <= i < |pairs| && (pairs[i] == (e.a, e.b) || pairs[i] == (e.b, e.a));
    CountsAtLeastOne(pairs, u, i);
  }

  lemma {:induction false} DealtCovers(units: seq<Unit>, persons: seq<PersonId>, pairs: seq<PersonPair>)
    requires forall u :: u in units ==> IsClass(Components(persons, pairs), u)
    requires forall x :: Holds(units, x) <= 1
    ensures CountInside(pairs, People(Spread(units))) >= |Multis(units)|
    decreases |units|
  {
    if units != [] {
      var n := |units| - 1;
      var front, u := units[..n], units[n];
      forall v | v in front
        ensures v in units
      {
      }
      forall x
        ensures Holds(front, x) <= 1 && (x in Spread(front) ==> x !in u)
      {
        assert Holds(units, x) <= 1;
        SpreadCounts(front, x);
      }
      DealtCovers(front, persons, pairs);
      assert People(Spread(units)) == People(Spread(front)) + u;
      CountsAdd(pairs, People(Spread(front)), u);
      if IsMulti(u) {
        assert u in units;
        MultiHoldsAPair(persons, pairs, u);
      }
    }
  }

  /** Each split holds at least one hard-negative pair for every component set aside for it, and so its minimum whenever
      there are enough components for all. */
  lemma DealtMeetsCoverage(
    buckets: Parts<Unit>, units: seq<Unit>, persons: seq<PersonId>, pairs: seq<PersonPair>, minimums: Minimums)
    requires AreUnits(units, persons, pairs) && multiset(buckets.All()) == multiset(units)
    requires HoldsReserved(buckets, |MultiComponents(persons, pairs)|, minimums)
    ensures forall name ::
              CountInside(pairs, People(SpreadParts(buckets).Of(name)))
              >= ReservedFor(|MultiComponents(persons, pairs)|, minimums, buckets.hasHoldout, name)
    ensures Reserved(minimums, buckets.hasHoldout) <= |MultiComponents(persons, pairs)| ==>
              CoversMinimums(SpreadParts(buckets), pairs, minimums)
  {
    var available := |MultiComponents(persons, pairs)|;
    forall name
      ensures CountInside(pairs, People(SpreadParts(buckets).Of(name)))
              >= ReservedFor(available, minimums, buckets.hasHoldout, name)
    {
      DealtNameCovers(buckets, units, persons, pairs, name);
    }
    if Reserved(minimums, buckets.hasHoldout) <= available {
      forall name | name != Train && buckets.Has(name)
        ensures ReservedFor(available, minimums, buckets.hasHoldout, name) >= MinimumFor(minimums, name)
      {
        EnoughForAll(available, minimums, buckets.hasHoldout, name);
      }
    }
  }

  lemma DealtNameCovers(
    buckets: Parts<Unit>, units: seq<Unit>, persons: seq<PersonId>, pairs: seq<PersonPair>, name: SplitName)
    requires AreUnits(units, persons, pairs) && multiset(buckets.All()) == multiset(units)
    ensures CountInside(pairs, People(SpreadParts(buckets).Of(name))) >= |Multis(buckets.Of(name))|
  {
    DealtUnitsAreDistinct(buckets, units, persons, pairs, name);
    DealtCovers(buckets.Of(name), persons, pairs);
  }

  lemma DealtUnitsAreDistinct(
    buckets: Parts<Unit>, units: seq<Unit>, persons: seq<PersonId>, pairs: seq<PersonPair>, name: SplitName)
    requires AreUnits(units, persons, pairs) && multiset(buckets.All()) == multiset(units)
    ensures forall u :: u in buckets.Of(name) ==> IsClass(Components(persons, pairs), u)
    ensures forall x :: Holds(buckets.Of(name), x) <= 1
  {
    forall u | u in buckets.Of(name)
      ensures IsClass(Components(persons, pairs), u)
    {
      DealtUnitIsClass(buckets, units, persons, pairs, name, u);
    }
    forall x
      ensures Holds(buckets.Of(name), x) <= 1
    {
      PartsHold(buckets, units, x);
    }
  }

  // ---- how much each split gets ---------------------------------------------------------------------------------------------

  /** The components whose people are all in one split. */
  ghost function ComponentsIn(
    splits: Parts<PersonId>, persons: seq<PersonId>, pairs: seq<PersonPair>, name: SplitName): set<Unit>
  {
    set u | u in AllComponents(persons, pairs) && u <= People(splits.Of(name))
  }

  /** Each split holds the components set aside for it and its share of those left to cut. */
  ghost predicate DealtByShare(
    splits: Parts<PersonId>, persons: seq<PersonId>, pairs: seq<PersonPair>, ratios: Ratios, minimums: Minimums)
  {
    forall name ::
      |ComponentsIn(splits, persons, pairs, name)|
      == ReservedFor(|MultiComponents(persons, pairs)|, minimums, ratios.holdout > 0.0, name)
         + CutShare(CutComponents(persons, pairs, ratios, minimums), ratios, name)
  }

  /** The components set aside for a split are among its multi-person ones. */
  ghost predicate KeepsReserved(
    splits: Parts<PersonId>, persons: seq<PersonId>, pairs: seq<PersonPair>, minimums: Minimums)
  {
    forall name ::
      |set u | u in ComponentsIn(splits, persons, pairs, name) && IsMulti(u)|
      >= ReservedFor(|MultiComponents(persons, pairs)|, minimums, splits.hasHoldout, name)
  }

  /** When the shares of the components left to cut fit, train holds exactly its share of them; validation holds its share
      on top of what was set aside; and so does test, which also takes the rest when there is no final holdout. */
  lemma EachSplitHoldsItsShare(
    splits: Parts<PersonId>, persons: seq<PersonId>, pairs: seq<PersonPair>, ratios: Ratios, minimums: Minimums)
    requires DealtByShare(splits, persons, pairs, ratios, minimums)
    requires SharesFit(CutComponents(persons, pairs, ratios, minimums), ratios)
    ensures var count, multis := CutComponents(persons, pairs, ratios, minimums), |MultiComponents(persons, pairs)|;
            var hasHoldout := ratios.holdout > 0.0;
            var rest := count - Share(count, ratios.train) - Share(count, ratios.validation) - Share(count, ratios.test);
            && |ComponentsIn(splits, persons, pairs, Train)| == Share(count, ratios.train)
            && |ComponentsIn(splits, persons, pairs, Validation)|
               == ReservedFor(multis, minimums, hasHoldout, Validation) + Share(count, ratios.validation)
            && |ComponentsIn(splits, persons, pairs, Test)|
               == ReservedFor(multis, minimums, hasHoldout, Test) + Share(count, ratios.test) + (if hasHoldout then 0 else rest)
            && |ComponentsIn(splits, persons, pairs, FinalHoldout)|
               == if hasHoldout then ReservedFor(multis, minimums, hasHoldout, FinalHoldout) + rest else 0
  {
    EachSplitGetsItsShare(CutComponents(persons, pairs, ratios, minimums), ratios);
  }

  lemma ReservedAreMultiComponents(
    buckets: Parts<Unit>, units: seq<Unit>, persons: seq<PersonId>, pairs: seq<PersonPair>, name: SplitName)
    requires AreUnits(units, persons, pairs) && multiset(buckets.All()) == multiset(units)
    ensures |set u | u in ComponentsIn(SpreadParts(buckets), persons, pairs, name) && IsMulti(u)|
            >= |Multis(buckets.Of(name))|
  {
    var dealt := buckets.Of(name);
    DealtUnitsAreDistinct(buckets, units, persons, pairs, name);
    DistinctMultis(dealt);
    forall u | u in Multis(dealt)
      ensures u in ComponentsIn(SpreadParts(buckets), persons, pairs, name) && IsMulti(u)
    {
      MultiIs(dealt, u);
      DealtUnitIsIn(dealt, persons, pairs, u);
    }
    SubsetCount(set u | u in Multis(dealt),
                set u | u in ComponentsIn(SpreadParts(buckets), persons, pairs, name) && IsMulti(u));
  }

  lemma ComponentsAreDealt(
    buckets: Parts<Unit>, units: seq<Unit>, persons: seq<PersonId>, pairs: seq<PersonPair>, name: SplitName)
    requires AreUnits(units, persons, pairs) && multiset(buckets.All()) == multiset(units)
    ensures |ComponentsIn(SpreadParts(buckets), persons, pairs, name)| == |buckets.Of(name)|
  {
    var dealt := buckets.Of(name);
    DealtUnitsAreDistinct(buckets, units, persons, pairs, name);
    DealtAreTheComponents(dealt, persons, pairs);
    DistinctUnits(dealt);
    assert ComponentsIn(SpreadParts(buckets), persons, pairs, name) == set u | u in dealt;
  }

  lemma DealtAreTheComponents(dealt: seq<Unit>, persons: seq<PersonId>, pairs: seq<PersonPair>)
    requires forall u :: u in dealt ==> IsClass(Components(persons, pairs), u)
    ensures forall u :: u in dealt ==> u != {}
    ensures forall u :: u in dealt <==> u in AllComponents(persons, pairs) && u <= People(Spread(dealt))
  {
    forall u | u in dealt
      ensures u != {} && u in AllComponents(persons, pairs) && u <= People(Spread(dealt))
    {
      DealtUnitIsIn(dealt, persons, pairs, u);
    }
    forall u | u in AllComponents(persons, pairs) && u <= People(Spread(dealt))
      ensures u in dealt
    {
      WholeComponentIsDealt(dealt, persons, pairs, u);
    }
  }

  lemma DealtUnitIsIn(dealt: seq<Unit>, persons: seq<PersonId>, pairs: seq<PersonPair>, u: Unit)
    requires IsClass(Components(persons, pairs), u) && u in dealt
    ensures u != {} && u in AllComponents(persons, pairs) && u <= People(Spread(dealt))
  {
    var p := Components(persons, pairs);
    var z :| z in p && u == Component(p, z);
    assert z in u;
    var i :| 0 <= i < |dealt| && dealt[i] == u;
    forall x | x in u
      ensures x in Spread(dealt)
    {
      SpreadMembers(dealt, x);
      assert x in dealt[i];
    }
  }

  lemma WholeComponentIsDealt(dealt: seq<Unit>, persons: seq<PersonId>, pairs: seq<PersonPair>, u: Unit)
    requires forall v :: v in dealt ==> IsClass(Components(persons, pairs), v)
    requires u in AllComponents(persons, pairs) && u <= People(Spread(dealt))
    ensures u in dealt
  {
    var p := Components(persons, pairs);
    var z :| z in p && u == Component(p, z);
    assert z in u && z in Spread(dealt);
    SpreadMembers(dealt, z);
    var i :| 0 <= i < |dealt| && z in dealt[i];
    assert dealt[i] in dealt;
    var y :| y in p && dealt[i] == Component(p, y);
    assert Component(p, y) == Component(p, z);
  }

  lemma SharesAreComponents(
    buckets: Parts<Unit>, units: seq<Unit>, persons: seq<PersonId>, pairs: seq<PersonPair>, ratios: Ratios,
    minimums: Minimums)
    requires AreUnits(units, persons, pairs) && multiset(buckets.All()) == multiset(units)
    requires buckets.hasHoldout == (ratios.holdout > 0.0)
    requires DealsShares(
               buckets, |MultiComponents(persons, pairs)|, CutComponents(persons, pairs, ratios, minimums), ratios, minimums)
    requires HoldsReserved(buckets, |MultiComponents(persons, pairs)|, minimums)
    ensures DealtByShare(SpreadParts(buckets), persons, pairs, ratios, minimums)
    ensures KeepsReserved(SpreadParts(buckets), persons, pairs, minimums)
  {
    forall name
      ensures |ComponentsIn(SpreadParts(buckets), persons, pairs, name)| == |buckets.Of(name)|
      ensures |set u | u in ComponentsIn(SpreadParts(buckets), persons, pairs, name) && IsMulti(u)|
              >= |Multis(buckets.Of(name))|
    {
      ComponentsAreDealt(buckets, units, persons, pairs, name);
      ReservedAreMultiComponents(buckets, units, persons, pairs, name);
    }
  }
}
