/** The three validators run on every assignment, and what it takes to pass them. */
module SplitValidators {
  import opened Results
  import opened Records
  import opened Partitions
  import opened PersonUnionFinds
  import opened PersonUnits
  import opened Splits
  import opened SplitAssignment

  /** Nobody is listed twice, in one split or in two. */
  ghost predicate NoLeakage(splits: Parts<PersonId>) {
    forall x :: multiset(splits.All())[x] <= 1
  }

  method ValidateNoSplitLeakage(splits: Parts<PersonId>) returns (accepts: bool)
    ensures accepts <==> NoLeakage(splits)
  {
    var listed := splits.All();
    var seen: set<PersonId> := {};
    var n := 0;
    while n < |listed|
      invariant n <= |listed| && seen == People(listed[..n])
      invariant forall x :: multiset(listed[..n])[x] == if x in seen then 1 else 0
    {
      assert listed[..n + 1] == listed[..n] + [listed[n]];
      if listed[n] in seen {
        RepeatIsCounted(listed, n);
        return false;
      }
      seen := seen + {listed[n]};
      n := n + 1;
    }
    assert listed[..n] == listed;
    accepts := true;
  }

  lemma RepeatIsCounted(listed: seq<PersonId>, n: nat)
    requires n < |listed| && listed[n] in listed[..n]
    ensures multiset(listed)[listed[n]] >= 2
  {
    var x := listed[n];
    assert listed == listed[..n] + [x] + listed[n + 1..];
    assert multiset(listed) == multiset(listed[..n]) + multiset{x} + multiset(listed[n + 1..]);
    assert x in multiset(listed[..n]);
  }

  /** The split a person is filed under; of several, the last one listed. */
  function SplitOf(splits: Parts<PersonId>, x: PersonId): Option<SplitName> {
    if x in splits.holdout then Some(FinalHoldout)
    else if x in splits.test then Some(Test)
    else if x in splits.validation then Some(Validation)
    else if x in splits.train then Some(Train)
    else None
  }

  /** The order the splits are listed in. */
  function Place(name: SplitName): nat {
    match name
    case Train => 0
    case Validation => 1
    case Test => 2
    case FinalHoldout => 3
  }

  /** A person is filed under a split exactly when it lists them and no later one does. */
  lemma FiledUnderTheLast(splits: Parts<PersonId>, x: PersonId, name: SplitName)
    ensures SplitOf(splits, x) == Some(name)
            <==> x in splits.Of(name) && forall later :: Place(later) > Place(name) ==> x !in splits.Of(later)
    ensures SplitOf(splits, x) == None <==> forall other :: x !in splits.Of(other)
  {
    assert x in splits.Of(Train) <==> x in splits.train;
    assert x in splits.Of(Validation) <==> x in splits.validation;
    assert x in splits.Of(Test) <==> x in splits.test;
    assert x in splits.Of(FinalHoldout) <==> x in splits.holdout;
  }

  predicate Spans(splits: Parts<PersonId>, pair: PersonPair) {
    SplitOf(splits, pair.0).Some? && SplitOf(splits, pair.1).Some? && SplitOf(splits, pair.0) != SplitOf(splits, pair.1)
  }

  method ValidateHardNegativePairAtomicity(splits: Parts<PersonId>, pairs: seq<PersonPair>) returns (accepts: bool)
    ensures accepts <==> forall i :: 0 <= i < |pairs| ==> !Spans(splits, pairs[i])
  {
    var n := 0;
    while n < |pairs|
      invariant n <= |pairs| && forall i :: 0 <= i < n ==> !Spans(splits, pairs[i])
    {
      var left, right := SplitOf(splits, pairs[n].0), SplitOf(splits, pairs[n].1);
      if left.Some? && right.Some? && left != right {
        assert Spans(splits, pairs[n]);
        return false;
      }
      n := n + 1;
    }
    accepts := true;
  }

  /** The pairs a split is credited with; none for a split that does not exist. */
  function Credited(splits: Parts<PersonId>, pairs: seq<PersonPair>, name: SplitName): nat {
    if splits.Has(name) then CountInside(pairs, People(splits.Of(name))) else 0
  }

  method CountPairs(pairs: seq<PersonPair>, ids: set<PersonId>) returns (count: nat)
    ensures count == CountInside(pairs, ids)
  {
    count := 0;
    var n := 0;
    while n < |pairs|
      invariant n <= |pairs| && count == CountInside(pairs[..n], ids)
    {
      assert pairs[..n + 1][..n] == pairs[..n];
      if pairs[n].0 in ids && pairs[n].1 in ids {
        count := count + 1;
      }
      n := n + 1;
    }
    assert pairs[..n] == pairs;
  }

  method ValidateHardNegativeCoverage(splits: Parts<PersonId>, pairs: seq<PersonPair>, minimums: Minimums)
    returns (accepts: bool)
    ensures accepts <==> forall name :: name in minimums ==> Credited(splits, pairs, name) >= minimums[name]
  {
    var todo := minimums.Keys;
    while todo != {}
      invariant todo <= minimums.Keys
      invariant forall name :: name in minimums && name !in todo ==> Credited(splits, pairs, name) >= minimums[name]
      decreases todo
    {
      var name :| name in todo;
      var count := 0;
      if splits.Has(name) {
        count := CountPairs(pairs, People(splits.Of(name)));
      }
      assert count == Credited(splits, pairs, name);
      if count < minimums[name] {
        return false;
      }
      todo := todo - {name};
    }
    accepts := true;
  }

  // ---- the assignment always passes ---------------------------------------------------------------------------------------------

  lemma FiledWhereListed(splits: Parts<PersonId>, persons: seq<PersonId>, pairs: seq<PersonPair>, x: PersonId, name: SplitName)
    requires IsAssignment(splits, persons, pairs) && x in splits.Of(name)
    ensures SplitOf(splits, x) == Some(name)
  {
    assert multiset(splits.All())[x] <= 1;
    assert multiset(splits.All()) == multiset(splits.train) + multiset(splits.validation) + multiset(splits.test) + multiset(splits.holdout);
    assert x in multiset(splits.Of(name));
    assert forall other :: x in splits.Of(other) ==> x in multiset(splits.Of(other));
  }

  lemma AssignedOnlyPersons(splits: Parts<PersonId>, persons: seq<PersonId>, pairs: seq<PersonPair>, x: PersonId)
    requires IsAssignment(splits, persons, pairs)
    ensures SplitOf(splits, x).Some? ==> x in persons && x in splits.Of(SplitOf(splits, x).value)
  {
    if SplitOf(splits, x).Some? {
      assert x in splits.All();
      assert x in multiset(splits.All());
    }
  }

  /** A listed pair of two known people must stay together. */
  lemma PairStaysTogether(persons: seq<PersonId>, pairs: seq<PersonPair>, i: nat)
    requires i < |pairs| && pairs[i].0 in persons && pairs[i].1 in persons && pairs[i].0 != pairs[i].1
    ensures MustStayTogether(persons, pairs, pairs[i].0, pairs[i].1)
  {
    var people := People(persons);
    var e := Ordered(pairs[i].0, pairs[i].1);
    EdgeComesFrom(pairs, people, e);
    EdgeConnects(EdgeSet(Edges(pairs, people)), e);
    ConnectedIsSymmetric(EdgeSet(Edges(pairs, people)), e.a, e.b);
  }

  lemma NoPairSpans(splits: Parts<PersonId>, persons: seq<PersonId>, pairs: seq<PersonPair>, i: nat)
    requires IsAssignment(splits, persons, pairs) && i < |pairs|
    ensures !Spans(splits, pairs[i])
  {
    var left, right := pairs[i].0, pairs[i].1;
    AssignedOnlyPersons(splits, persons, pairs, left);
    AssignedOnlyPersons(splits, persons, pairs, right);
    if SplitOf(splits, left).Some? && SplitOf(splits, right).Some? && left != right {
      PairStaysTogether(persons, pairs, i);
      FiledWhereListed(splits, persons, pairs, right, SplitOf(splits, left).value);
    }
  }

  /** The leakage and atomicity validators never reject an assignment. */
  lemma AssignmentPasses(splits: Parts<PersonId>, persons: seq<PersonId>, pairs: seq<PersonPair>)
    requires IsAssignment(splits, persons, pairs)
    ensures NoLeakage(splits)
    ensures forall i :: 0 <= i < |pairs| ==> !Spans(splits, pairs[i])
  {
    forall i | 0 <= i < |pairs|
      ensures !Spans(splits, pairs[i])
    {
      NoPairSpans(splits, persons, pairs, i);
    }
  }

  /** The minimums name only evaluation splits that exist. */
  predicate NamesOnlyEvaluation(minimums: Minimums, hasHoldout: bool) {
    forall name :: name in minimums ==> name != Train && (name == FinalHoldout ==> hasHoldout)
  }

  /** `build_split_metadata` with hard-negative pairs: assign, then run all three validators. What is returned is an
      assignment; leakage is reported exactly when the cuts the ratios make are out of order, which takes a
      negative ratio, and atomicity never is; coverage never fails when the minimums name only evaluation splits
      and add up to no more than the multi-person components. */
  method BuildSplits(persons: seq<PersonId>, pairs: seq<PersonPair>, ratios: Ratios, minimums: Minimums)
    returns (r: Result<Parts<PersonId>, SplitError>)
    ensures r.Ok? ==> IsAssignment(r.value, persons, pairs) && DealtByShare(r.value, persons, pairs, ratios, minimums)
    ensures r.Ok? ==> forall name :: name in minimums ==> Credited(r.value, pairs, name) >= minimums[name]
    ensures r.Err? && r.error.RatioError? <==> !ratios.SumsToOne()
    ensures r.Err? && r.error.LeakageError? <==> ratios.SumsToOne() && !DealsInOrder(persons, pairs, ratios, minimums)
    ensures r.Err? ==> !r.error.AtomicityError?
    ensures (NamesOnlyEvaluation(minimums, ratios.holdout > 0.0) &&
             Reserved(minimums, ratios.holdout > 0.0) <= |MultiComponents(persons, pairs)|) ==>
            !(r.Err? && r.error.CoverageError?)
  {
    r := AssignSplits(persons, pairs, ratios, minimums);
    if r.Err? {
      return;
    }
    NoLeakageMeansNoRepeats(r.value);
    var sealed := ValidateNoSplitLeakage(r.value);
    if !sealed {
      return Err(LeakageError);
    }
    AssignmentPasses(r.value, persons, pairs);
    var atomic := ValidateHardNegativePairAtomicity(r.value, pairs);
    if !atomic {
      return Err(AtomicityError);
    }
    var covered := ValidateHardNegativeCoverage(r.value, pairs, minimums);
    if !covered {
      return Err(CoverageError);
    }
  }

  lemma NoLeakageMeansNoRepeats(splits: Parts<PersonId>)
    ensures NoLeakage(splits) <==> !Repeats(splits)
  {
  }

  /** With non-negative ratios leakage is never reported. */
  lemma NonNegativeRatiosDealInOrder(
    persons: seq<PersonId>, pairs: seq<PersonPair>, ratios: Ratios, minimums: Minimums)
    requires ratios.NonNegative()
    ensures DealsInOrder(persons, pairs, ratios, minimums)
  {
    NonNegativeCutsAreInOrder(CutComponents(persons, pairs, ratios, minimums), ratios);
  }
}
