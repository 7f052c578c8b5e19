/** Assigning people to dataset splits without cutting a hard-negative component, and the validators. */
module Splits {
  import opened Results
  import opened Records
  import opened Partitions
  import opened PersonUnionFinds
  import opened PersonUnits

  datatype SplitName = Train | Validation | Test | FinalHoldout

  /** One list a split; there is a final holdout only when its ratio is positive. */
  datatype Parts<T> = Parts(train: seq<T>, validation: seq<T>, test: seq<T>, holdout: seq<T>, hasHoldout: bool) {
    predicate Valid() {
      hasHoldout || holdout == []
    }

    predicate Has(name: SplitName) {
      name != FinalHoldout || hasHoldout
    }

    function Of(name: SplitName): seq<T> {
      match name
      case Train => train
      case Validation => validation
      case Test => test
      case FinalHoldout => holdout
    }

    function All(): seq<T> {
      train + validation + test + holdout
    }
  }

  datatype Ratios = Ratios(train: real, validation: real, test: real, holdout: real) {
    function Total(): real {
      train + validation + test + holdout
    }

    predicate SumsToOne() {
      -0.000001 <= Total() - 1.0 <= 0.000001
    }

    predicate NonNegative() {
      train >= 0.0 && validation >= 0.0 && test >= 0.0 && holdout >= 0.0
    }
  }

  datatype SplitError = RatioError | LeakageError | AtomicityError | CoverageError

  type Minimums = map<SplitName, int>

  function MinimumFor(minimums: Minimums, name: SplitName): int {
    if name in minimums then minimums[name] else 0
  }

  /** `random.shuffle`: from the end, swap each place with an arbitrary earlier-or-equal one. */
  method Shuffle(units: seq<Unit>) returns (shuffled: seq<Unit>)
    ensures multiset(shuffled) == multiset(units)
  {
    shuffled := units;
    var i := |units| - 1;
    while i > 0
      invariant |shuffled| == |units| && i < |units| && multiset(shuffled) == multiset(units)
      decreases i
    {
      var j :| 0 <= j <= i;
      shuffled := shuffled[i := shuffled[j]][j := shuffled[i]];
      i := i - 1;
    }
  }

  /** `int(count * ratio)`: rounded toward zero. */
  function Share(count: nat, ratio: real): (n: int)
    ensures ratio >= 0.0 ==> 0 <= n && n as real <= count as real * ratio < n as real + 1.0
    ensures ratio <= 0.0 ==> n <= 0 && n as real - 1.0 < count as real * ratio <= n as real
  {
    var share := count as real * ratio;
    assert ratio >= 0.0 ==> share >= 0.0;
    assert ratio <= 0.0 ==> share <= 0.0;
    if share >= 0.0 then share.Floor else -(-share).Floor
  }

  function Positive(n: int): nat {
    if n > 0 then n else 0
  }

  /** A slice bound as Python reads it: counted from the end when negative, and clamped. */
  function Clamped(bound: int, count: nat): (n: nat)
    ensures n <= count && (0 <= bound <= count ==> n == bound)
  {
    if bound > count then count
    else if bound >= 0 then bound
    else if count + bound >= 0 then count + bound else 0
  }

  /** `units[low:high]`. */
  function Slice(units: seq<Unit>, low: int, high: int): (r: seq<Unit>)
    ensures |r| == (if Clamped(low, |units|) <= Clamped(high, |units|)
                    then Clamped(high, |units|) - Clamped(low, |units|) else 0)
    ensures forall u :: u in r ==> u in units
  {
    var from, to := Clamped(low, |units|), Clamped(high, |units|);
    if from <= to then units[from..to] else []
  }

  function TrainEnd(count: nat, ratios: Ratios): int {
    Share(count, ratios.train)
  }

  function ValidationEnd(count: nat, ratios: Ratios): int {
    TrainEnd(count, ratios) + Share(count, ratios.validation)
  }

  function TestEnd(count: nat, ratios: Ratios): int {
    ValidationEnd(count, ratios) + Share(count, ratios.test)
  }

  predicate BoundsInOrder(a: int, b: int, c: int, count: nat) {
    Clamped(a, count) <= Clamped(b, count) <= Clamped(c, count)
  }

  /** The three cuts, as slice bounds, come in order. */
  predicate CutsInOrder(count: nat, ratios: Ratios) {
    BoundsInOrder(TrainEnd(count, ratios), ValidationEnd(count, ratios), TestEnd(count, ratios), count)
  }

  /** How many of `count` units a split is dealt by cuts at these bounds. */
  function DealtBetween(a: int, b: int, c: int, count: nat, hasHoldout: bool, name: SplitName): nat {
    match name
    case Train => Clamped(a, count)
    case Validation => Positive(Clamped(b, count) - Clamped(a, count))
    case Test => Positive(Clamped(c, count) - Clamped(b, count)) + if hasHoldout then 0 else count - Clamped(c, count)
    case FinalHoldout => if hasHoldout then count - Clamped(c, count) else 0
  }

  /** How many of the cut units a split is dealt by its ratio. */
  function CutShare(count: nat, ratios: Ratios, name: SplitName): nat {
    DealtBetween(
      TrainEnd(count, ratios), ValidationEnd(count, ratios), TestEnd(count, ratios), count, ratios.holdout > 0.0, name)
  }

  /** No share is negative and together they are no more than the units there are. */
  predicate SharesFit(count: nat, ratios: Ratios) {
    Share(count, ratios.train) >= 0 && Share(count, ratios.validation) >= 0 && Share(count, ratios.test) >= 0 &&
    Share(count, ratios.train) + Share(count, ratios.validation) + Share(count, ratios.test) <= count
  }

  /** When the shares fit, each split is dealt the share its ratio asks for, and the rest goes to the final holdout, or
      to test when there is none. */
  lemma EachSplitGetsItsShare(count: nat, ratios: Ratios)
    requires SharesFit(count, ratios)
    ensures CutsInOrder(count, ratios)
    ensures CutShare(count, ratios, Train) == Share(count, ratios.train)
    ensures CutShare(count, ratios, Validation) == Share(count, ratios.validation)
    ensures var rest := count - Share(count, ratios.train) - Share(count, ratios.validation) - Share(count, ratios.test);
            if ratios.holdout > 0.0
            then CutShare(count, ratios, Test) == Share(count, ratios.test) && CutShare(count, ratios, FinalHoldout) == rest
            else CutShare(count, ratios, Test) == Share(count, ratios.test) + rest && CutShare(count, ratios, FinalHoldout) == 0
  {
  }

  /** Non-negative ratios that pass the ratio check always fit, unless rounding the sum up could gain a whole unit, which
      takes a million of them. */
  lemma NonNegativeSharesFit(count: nat, ratios: Ratios)
    requires ratios.NonNegative() && ratios.SumsToOne() && count < 1_000_000
    ensures SharesFit(count, ratios)
  {
    var a, b, c := Share(count, ratios.train), Share(count, ratios.validation), Share(count, ratios.test);
    Distributes(count as real, ratios.train, ratios.validation, ratios.test);
    AtMostMillionthMore(count as real, ratios.train + ratios.validation + ratios.test);
    assert (a + b + c) as real < count as real + 1.0;
  }

  lemma Distributes(n: real, a: real, b: real, c: real)
    ensures n * a + n * b + n * c == n * (a + b + c)
  {
  }

  lemma AtMostMillionthMore(n: real, parts: real)
    requires 0.0 <= n < 1000000.0 && parts <= 1.000001
    ensures n * parts < n + 1.0
  {
    assert n * parts <= n * 1.000001;
  }

  /** A negative bound drops as many units from the end; one that reaches past the front leaves none. */
  lemma NegativeBoundDropsFromTheEnd(units: seq<Unit>, dropped: int)
    requires dropped > 0
    ensures Slice(units, 0, -dropped) == if dropped <= |units| then units[..|units| - dropped] else []
  {
  }

  /** Negative ratios are the only way to get them out of order. */
  lemma NonNegativeCutsAreInOrder(count: nat, ratios: Ratios)
    requires ratios.NonNegative()
    ensures CutsInOrder(count, ratios)
  {
    var a, b, c := Share(count, ratios.train), Share(count, ratios.validation), Share(count, ratios.test);
    assert a >= 0 && b >= 0 && c >= 0;
  }

  predicate IsMulti(unit: Unit) {
    |unit| > 1
  }

  function Multis(units: seq<Unit>): seq<Unit> {
    if units == [] then [] else
      Multis(units[..|units| - 1]) + if IsMulti(units[|units| - 1]) then [units[|units| - 1]] else []
  }

  function Singles(units: seq<Unit>): seq<Unit> {
    if units == [] then [] else
      Singles(units[..|units| - 1]) + if |units[|units| - 1]| == 1 then [units[|units| - 1]] else []
  }

  /** How many units go when `required` are asked for. */
  function Popped(required: int, available: nat): (n: nat)
    ensures n <= available
  {
    if required <= 0 then 0 else if required <= available then required else available
  }

  /** `pair_units.pop()` up to `required` times: what moved, and what is left. */
  method PopUnits(pool: seq<Unit>, required: int) returns (taken: seq<Unit>, left: seq<Unit>)
    ensures multiset(taken) + multiset(left) == multiset(pool)
    ensures |taken| == Popped(required, |pool|)
    ensures |left| == |pool| - |taken|
    ensures forall u :: u in taken ==> u in pool
    ensures left <= pool
  {
    taken, left := [], pool;
    var n := 0;
    while n < required && left != []
      invariant 0 <= n && |taken| == n && n + |left| == |pool| && left <= pool && (required > 0 ==> n <= required)
      invariant required <= 0 ==> n == 0
      invariant multiset(taken) + multiset(left) == multiset(pool)
      invariant forall u :: u in taken ==> u in pool
      decreases |left|
    {
      assert left == left[..|left| - 1] + [left[|left| - 1]];
      taken, left := taken + [left[|left| - 1]], left[..|left| - 1];
      n := n + 1;
    }
  }

  /** The minimums of the evaluation splits, added up. */
  function Reserved(minimums: Minimums, hasHoldout: bool): nat {
    Positive(MinimumFor(minimums, Validation)) + Positive(MinimumFor(minimums, Test)) +
    if hasHoldout then Positive(MinimumFor(minimums, FinalHoldout)) else 0
  }

  /** How many multi-person units are set aside: the minimums, as far as there are units. */
  function TakenCount(available: nat, minimums: Minimums, hasHoldout: bool): (n: nat)
    ensures n <= available
  {
    if Reserved(minimums, hasHoldout) <= available then Reserved(minimums, hasHoldout) else available
  }

  ghost predicate AllMulti(units: seq<Unit>) {
    forall u :: u in units ==> IsMulti(u)
  }

  /** How many multi-person units are set aside for a split. */
  function ReservedFor(available: nat, minimums: Minimums, hasHoldout: bool, name: SplitName): nat {
    var v := Popped(MinimumFor(minimums, Validation), available);
    var t := Popped(MinimumFor(minimums, Test), available - v);
    match name
    case Train => 0
    case Validation => v
    case Test => t
    case FinalHoldout => if hasHoldout then Popped(MinimumFor(minimums, FinalHoldout), available - v - t) else 0
  }

  /** Nothing is set aside for train or for a split without a minimum, and no split gets more than its own; together they
      get all that is asked for or all there is; and a later split gets nothing while an earlier one is short. */
  lemma ReservedInOrder(available: nat, minimums: Minimums, hasHoldout: bool)
    ensures ReservedFor(available, minimums, hasHoldout, Train) == 0
    ensures forall name :: name in minimums ==>
              ReservedFor(available, minimums, hasHoldout, name) <= Positive(minimums[name])
    ensures !hasHoldout ==> ReservedFor(available, minimums, hasHoldout, FinalHoldout) == 0
    ensures forall name :: name !in minimums ==> ReservedFor(available, minimums, hasHoldout, name) == 0
    ensures ReservedFor(available, minimums, hasHoldout, Validation) + ReservedFor(available, minimums, hasHoldout, Test) +
            ReservedFor(available, minimums, hasHoldout, FinalHoldout) == TakenCount(available, minimums, hasHoldout)
    ensures ReservedFor(available, minimums, hasHoldout, Validation) < MinimumFor(minimums, Validation) ==>
              ReservedFor(available, minimums, hasHoldout, Test) == 0
    ensures ReservedFor(available, minimums, hasHoldout, Validation) < MinimumFor(minimums, Validation) ||
            ReservedFor(available, minimums, hasHoldout, Test) < MinimumFor(minimums, Test) ==>
              ReservedFor(available, minimums, hasHoldout, FinalHoldout) == 0
  {
  }

  /** With enough units for all minimums each evaluation split gets its own. */
  lemma EnoughForAll(available: nat, minimums: Minimums, hasHoldout: bool, name: SplitName)
    requires Reserved(minimums, hasHoldout) <= available && name != Train && (name == FinalHoldout ==> hasHoldout)
    ensures ReservedFor(available, minimums, hasHoldout, name) == Positive(MinimumFor(minimums, name))
  {
    assert name.Validation? || name.Test? || name.FinalHoldout?;
  }

  /** These many units were set aside for validation, test and the final holdout. */
  predicate ReservedSizes(available: nat, minimums: Minimums, hasHoldout: bool, validation: nat, test: nat, holdout: nat) {
    && validation == ReservedFor(available, minimums, hasHoldout, Validation)
    && test == ReservedFor(available, minimums, hasHoldout, Test)
    && holdout == ReservedFor(available, minimums, hasHoldout, FinalHoldout)
  }

  /** Units set aside for the three evaluation splits, and what is left of the pool. */
  ghost predicate SetAside(
    pool: seq<Unit>, validation: seq<Unit>, test: seq<Unit>, holdout: seq<Unit>, left: seq<Unit>, minimums: Minimums,
    hasHoldout: bool)
  {
    && multiset(validation) + multiset(test) + multiset(holdout) + multiset(left) == multiset(pool)
    && |left| == |pool| - TakenCount(|pool|, minimums, hasHoldout)
    && AllMulti(validation) && AllMulti(test) && AllMulti(holdout)
    && ReservedSizes(|pool|, minimums, hasHoldout, |validation|, |test|, |holdout|)
  }

  /** Reserves multi-person units for validation, test and the final holdout, in that order. */
  method ReserveUnits(pool: seq<Unit>, minimums: Minimums, hasHoldout: bool)
    returns (validation: seq<Unit>, test: seq<Unit>, holdout: seq<Unit>, left: seq<Unit>)
    requires AllMulti(pool)
    ensures SetAside(pool, validation, test, holdout, left, minimums, hasHoldout)
  {
    validation, left := PopUnits(pool, MinimumFor(minimums, Validation));
    test, left := PopUnits(left, MinimumFor(minimums, Test));
    holdout := [];
    assert multiset(validation) + multiset(test) + multiset(holdout) + multiset(left) == multiset(pool);
    if hasHoldout {
      holdout, left := PopUnits(left, MinimumFor(minimums, FinalHoldout));
    }
    PoppedInOrder(|pool|, minimums, hasHoldout, |validation|, |test|, |holdout|);
  }

  lemma PoppedInOrder(available: nat, minimums: Minimums, hasHoldout: bool, validation: nat, test: nat, holdout: nat)
    requires validation == Popped(MinimumFor(minimums, Validation), available)
    requires test == Popped(MinimumFor(minimums, Test), available - validation)
    requires holdout == if hasHoldout then Popped(MinimumFor(minimums, FinalHoldout), available - validation - test) else 0
    ensures ReservedSizes(available, minimums, hasHoldout, validation, test, holdout)
    ensures validation + test + holdout == TakenCount(available, minimums, hasHoldout)
  {
    ReservedInOrder(available, minimums, hasHoldout);
  }

  /** Every split gets the slice its bounds name. The units are dealt out in order, none lost or repeated, exactly when
      the bounds come in order; otherwise some are dealt twice. */
  ghost predicate IsCutAt(parts: Parts<Unit>, units: seq<Unit>, a: int, b: int, c: int, hasHoldout: bool) {
    && parts.Valid() && parts.hasHoldout == hasHoldout
    && (forall name :: |parts.Of(name)| == DealtBetween(a, b, c, |units|, hasHoldout, name))
    && (if BoundsInOrder(a, b, c, |units|) then parts.All() == units else |parts.All()| > |units|)
    && forall u :: u in parts.All() ==> u in units
  }

  ghost predicate IsCut(parts: Parts<Unit>, units: seq<Unit>, ratios: Ratios) {
    var count := |units|;
    IsCutAt(parts, units, TrainEnd(count, ratios), ValidationEnd(count, ratios), TestEnd(count, ratios), ratios.holdout > 0.0)
  }

  /** Cuts the shuffled rest by the ratios. */
  method CutByRatio(units: seq<Unit>, ratios: Ratios) returns (parts: Parts<Unit>)
    ensures IsCut(parts, units, ratios)
  {
    var count := |units|;
    var trainEnd := Share(count, ratios.train);
    var validationEnd := trainEnd + Share(count, ratios.validation);
    var testEnd := validationEnd + Share(count, ratios.test);
    assert trainEnd == TrainEnd(count, ratios);
    assert validationEnd == ValidationEnd(count, ratios);
    assert testEnd == TestEnd(count, ratios);
    parts := CutAt(units, trainEnd, validationEnd, testEnd, ratios.holdout > 0.0);
  }

  /** The four slices; what is past the last bound goes to the final holdout or to test. */
  method CutAt(units: seq<Unit>, a: int, b: int, c: int, hasHoldout: bool) returns (parts: Parts<Unit>)
    ensures IsCutAt(parts, units, a, b, c, hasHoldout)
  {
    var train, validation := Slice(units, 0, a), Slice(units, a, b);
    var test, rest := Slice(units, b, c), Slice(units, c, |units|);
    if hasHoldout {
      parts := Parts(train, validation, test, rest, true);
    } else {
      parts := Parts(train, validation, test + rest, [], false);
    }
    TailGoesSomewhere(train, validation, test, rest);
    SlicesAreACut(units, a, b, c);
  }

  lemma TailGoesSomewhere(train: seq<Unit>, validation: seq<Unit>, test: seq<Unit>, rest: seq<Unit>)
    ensures Parts(train, validation, test, rest, true).All() == train + validation + test + rest
    ensures Parts(train, validation, test + rest, [], false).All() == train + validation + test + rest
  {
  }

  lemma SlicesAreACut(units: seq<Unit>, a: int, b: int, c: int)
    ensures var n := |units|;
            var dealt := Slice(units, 0, a) + Slice(units, a, b) + Slice(units, b, c) + Slice(units, c, n);
            && (if Clamped(a, n) <= Clamped(b, n) <= Clamped(c, n) then dealt == units else |dealt| > n)
            && forall u :: u in dealt ==> u in units
  {
    if Clamped(a, |units|) <= Clamped(b, |units|) <= Clamped(c, |units|) {
      SlicesJoin(units, a, b, c);
    }
  }

  lemma SlicesJoin(units: seq<Unit>, a: int, b: int, c: int)
    requires Clamped(a, |units|) <= Clamped(b, |units|) <= Clamped(c, |units|)
    ensures Slice(units, 0, a) + Slice(units, a, b) + Slice(units, b, c) + Slice(units, c, |units|) == units
  {
    var a', b', c' := Clamped(a, |units|), Clamped(b, |units|), Clamped(c, |units|);
    assert units[0..a'] + units[a'..b'] == units[0..b'];
    assert units[0..b'] + units[b'..c'] == units[0..c'];
    assert units[0..c'] + units[c'..|units|] == units;
  }

  /** The last unit is multi-person or single, and joins one list or the other. */
  lemma OneMoreUnit(units: seq<Unit>)
    requires units != [] && units[|units| - 1] != {}
    ensures
      var n := |units| - 1;
      multiset(Multis(units)) + multiset(Singles(units)) ==
      multiset(Multis(units[..n])) + multiset(Singles(units[..n])) + multiset{units[n]}
    ensures AllMulti(Multis(units[..|units| - 1])) ==> AllMulti(Multis(units))
  {
    assert |units[|units| - 1]| != 0;
  }

  lemma {:induction false} MultisAndSingles(units: seq<Unit>)
    requires forall u :: u in units ==> u != {}
    ensures multiset(Multis(units)) + multiset(Singles(units)) == multiset(units)
    ensures AllMulti(Multis(units))
    decreases |units|
  {
    if units != [] {
      var n := |units| - 1;
      assert units == units[..n] + [units[n]];
      assert forall u :: u in units[..n] ==> u in units;
      MultisAndSingles(units[..n]);
      assert units[n] in units && |units[n]| != 0;
      assert multiset(units) == multiset(units[..n]) + multiset{units[n]};
      OneMoreUnit(units);
    }
  }

  lemma {:induction false} MultisAppend(first: seq<Unit>, second: seq<Unit>)
    requires AllMulti(first)
    ensures |Multis(first + second)| >= |first|
    decreases |first| + |second|
  {
    if second != [] {
      assert (first + second)[..|first + second| - 1] == first + second[..|second| - 1];
      MultisAppend(first, second[..|second| - 1]);
    } else if first != [] {
      assert first + second == first && first[|first| - 1] in first;
      assert first[..|first| - 1] + [] == first[..|first| - 1];
      MultisAppend(first[..|first| - 1], []);
    }
  }

  /** Every split holds at least as many multi-person units as were set aside for it. */
  ghost predicate HoldsReserved(buckets: Parts<Unit>, available: nat, minimums: Minimums) {
    forall name :: |Multis(buckets.Of(name))| >= ReservedFor(available, minimums, buckets.hasHoldout, name)
  }

  /** Every split is dealt what was set aside for it and its share of the `count` units that are cut. */
  ghost predicate DealsShares(buckets: Parts<Unit>, available: nat, count: nat, ratios: Ratios, minimums: Minimums) {
    forall name ::
      |buckets.Of(name)| == ReservedFor(available, minimums, buckets.hasHoldout, name) + CutShare(count, ratios, name)
  }

  /** Each split's reserved units, then its share of the rest. */
  function Combined(validation: seq<Unit>, test: seq<Unit>, holdout: seq<Unit>, cut: Parts<Unit>): Parts<Unit> {
    Parts(cut.train, validation + cut.validation, test + cut.test, holdout + cut.holdout, cut.hasHoldout)
  }

  lemma CombinedHoldsAll(validation: seq<Unit>, test: seq<Unit>, holdout: seq<Unit>, cut: Parts<Unit>)
    ensures multiset(Combined(validation, test, holdout, cut).All())
            == multiset(validation) + multiset(test) + multiset(holdout) + multiset(cut.All())
  {
    assert multiset(cut.All()) == multiset(cut.train) + multiset(cut.validation) + multiset(cut.test) + multiset(cut.holdout);
  }

  lemma CombinedHoldsReserved(
    available: nat, validation: seq<Unit>, test: seq<Unit>, holdout: seq<Unit>, cut: Parts<Unit>, minimums: Minimums)
    requires AllMulti(validation) && AllMulti(test) && AllMulti(holdout)
    requires ReservedSizes(available, minimums, cut.hasHoldout, |validation|, |test|, |holdout|)
    ensures HoldsReserved(Combined(validation, test, holdout, cut), available, minimums)
  {
    MultisAppend(validation, cut.validation);
    MultisAppend(test, cut.test);
    MultisAppend(holdout, cut.holdout);
  }

  lemma CombinedDealsShares(
    available: nat, validation: seq<Unit>, test: seq<Unit>, holdout: seq<Unit>, cut: Parts<Unit>, count: nat,
    ratios: Ratios, minimums: Minimums)
    requires ReservedSizes(available, minimums, cut.hasHoldout, |validation|, |test|, |holdout|)
    requires forall name :: |cut.Of(name)| == CutShare(count, ratios, name)
    ensures DealsShares(Combined(validation, test, holdout, cut), available, count, ratios, minimums)
  {
    assert |cut.train| == |cut.Of(Train)| && |cut.validation| == |cut.Of(Validation)|;
    assert |cut.test| == |cut.Of(Test)| && |cut.holdout| == |cut.Of(FinalHoldout)|;
  }

  /** How many units are cut by the ratios. */
  function CutCount(units: nat, multis: nat, minimums: Minimums, ratios: Ratios): nat
    requires multis <= units
  {
    units - TakenCount(multis, minimums, ratios.holdout > 0.0)
  }

  /** `units`, of which `available` are multi-person, dealt out: all of them once exactly when the cuts come in order,
      each split what was set aside for it and its share of the rest. */
  ghost predicate IsDealt(buckets: Parts<Unit>, units: seq<Unit>, available: nat, ratios: Ratios, minimums: Minimums)
    requires available <= |units|
  {
    var count := CutCount(|units|, available, minimums, ratios);
    && buckets.Valid() && buckets.hasHoldout == (ratios.holdout > 0.0)
    && (if CutsInOrder(count, ratios) then multiset(buckets.All()) == multiset(units) else |buckets.All()| > |units|)
    && (forall u :: u in buckets.All() ==> u in units)
    && HoldsReserved(buckets, available, minimums) && DealsShares(buckets, available, count, ratios, minimums)
  }

  lemma DealtAlike(
    buckets: Parts<Unit>, units: seq<Unit>, others: seq<Unit>, available: nat, ratios: Ratios, minimums: Minimums)
    requires available <= |units| && multiset(units) == multiset(others)
    requires IsDealt(buckets, units, available, ratios, minimums)
    ensures available <= |others| && IsDealt(buckets, others, available, ratios, minimums)
  {
    SameMembers(units, others);
  }

  /** The units dealt out: reserved multi-person units first, the rest by ratio after a shuffle. */
  method DealUnits(units: seq<Unit>, ratios: Ratios, minimums: Minimums) returns (buckets: Parts<Unit>)
    requires forall u :: u in units ==> u != {}
    ensures |Multis(units)| <= |units| && IsDealt(buckets, units, |Multis(units)|, ratios, minimums)
  {
    var pairUnits := Shuffle(Multis(units));
    var singleUnits := Shuffle(Singles(units));
    MultisAndSingles(units);
    SameMembers(pairUnits, Multis(units));
    buckets := DealShuffled(pairUnits, singleUnits, ratios, minimums);
    assert multiset(pairUnits + singleUnits) == multiset(pairUnits) + multiset(singleUnits);
    DealtAlike(buckets, pairUnits + singleUnits, units, |pairUnits|, ratios, minimums);
  }

  method DealShuffled(pairUnits: seq<Unit>, singleUnits: seq<Unit>, ratios: Ratios, minimums: Minimums)
    returns (buckets: Parts<Unit>)
    requires AllMulti(pairUnits)
    ensures IsDealt(buckets, pairUnits + singleUnits, |pairUnits|, ratios, minimums)
  {
    var validation, test, holdout, left := ReserveUnits(pairUnits, minimums, ratios.holdout > 0.0);
    var remaining := Shuffle(left + singleUnits);
    var cut := CutByRatio(remaining, ratios);
    buckets := Combined(validation, test, holdout, cut);
    CombinedIsDealt(pairUnits, singleUnits, validation, test, holdout, left, remaining, cut, ratios, minimums);
  }

  lemma CombinedIsDealt(
    pairUnits: seq<Unit>, singleUnits: seq<Unit>, validation: seq<Unit>, test: seq<Unit>, holdout: seq<Unit>,
    left: seq<Unit>, remaining: seq<Unit>, cut: Parts<Unit>, ratios: Ratios, minimums: Minimums)
    requires SetAside(pairUnits, validation, test, holdout, left, minimums, ratios.holdout > 0.0)
    requires multiset(remaining) == multiset(left + singleUnits) && IsCut(cut, remaining, ratios)
    ensures IsDealt(Combined(validation, test, holdout, cut), pairUnits + singleUnits, |pairUnits|, ratios, minimums)
  {
    DealtInOrder(pairUnits, singleUnits, validation, test, holdout, left, remaining, cut, ratios);
    assert |remaining| == CutCount(|pairUnits + singleUnits|, |pairUnits|, minimums, ratios);
    SharesOfACut(cut, remaining, ratios);
    CombinedHoldsReserved(|pairUnits|, validation, test, holdout, cut, minimums);
    CombinedDealsShares(|pairUnits|, validation, test, holdout, cut, |remaining|, ratios, minimums);
    if !(ratios.holdout > 0.0) {
      ReservedInOrder(|pairUnits|, minimums, false);
    }
  }

  lemma SharesOfACut(cut: Parts<Unit>, units: seq<Unit>, ratios: Ratios)
    requires IsCut(cut, units, ratios)
    ensures cut.Valid() && cut.hasHoldout == (ratios.holdout > 0.0)
    ensures forall name :: |cut.Of(name)| == CutShare(|units|, ratios, name)
  {
  }

  /** What is dealt out of the reserved units and a cut of the rest. */
  lemma DealtInOrder(
    pairUnits: seq<Unit>, singleUnits: seq<Unit>, validation: seq<Unit>, test: seq<Unit>, holdout: seq<Unit>,
    left: seq<Unit>, remaining: seq<Unit>, cut: Parts<Unit>, ratios: Ratios)
    requires multiset(validation) + multiset(test) + multiset(holdout) + multiset(left) == multiset(pairUnits)
    requires multiset(remaining) == multiset(left + singleUnits) && IsCut(cut, remaining, ratios)
    ensures |remaining| == |left| + |singleUnits|
    ensures var dealt := Combined(validation, test, holdout, cut).All();
            && (CutsInOrder(|remaining|, ratios) ==> multiset(dealt) == multiset(pairUnits + singleUnits))
            && (!CutsInOrder(|remaining|, ratios) ==> |dealt| > |pairUnits + singleUnits|)
            && forall u :: u in dealt ==> u in pairUnits + singleUnits
  {
    SameMembers(remaining, left + singleUnits);
    CombinedHoldsAll(validation, test, holdout, cut);
    CombinedComesFrom(pairUnits, singleUnits, validation, test, holdout, left, cut);
    assert multiset(left + singleUnits) == multiset(left) + multiset(singleUnits);
  }

  lemma CombinedComesFrom(
    pairUnits: seq<Unit>, singleUnits: seq<Unit>, validation: seq<Unit>, test: seq<Unit>, holdout: seq<Unit>,
    left: seq<Unit>, cut: Parts<Unit>)
    requires multiset(validation) + multiset(test) + multiset(holdout) + multiset(left) == multiset(pairUnits)
    requires forall u :: u in cut.All() ==> u in left + singleUnits
    ensures forall u :: u in Combined(validation, test, holdout, cut).All() ==> u in pairUnits || u in singleUnits
    ensures |Combined(validation, test, holdout, cut).All()| == |pairUnits| - |left| + |cut.All()|
  {
    SameMembers(validation + test + holdout + left, pairUnits);
    forall u | u in Combined(validation, test, holdout, cut).All()
      ensures u in pairUnits || u in singleUnits
    {
      assert u in cut.All() || u in validation + test + holdout + left;
    }
  }

  lemma SameMembers(s: seq<Unit>, t: seq<Unit>)
    requires multiset(s) == multiset(t)
    ensures |s| == |t| && forall u :: u in s <==> u in t
  {
    assert |multiset(s)| == |s| && |multiset(t)| == |t|;
    assert forall u :: (u in s <==> u in multiset(s)) && (u in t <==> u in multiset(t));
  }
}
