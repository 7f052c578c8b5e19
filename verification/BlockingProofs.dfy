/** What candidate generation promises, read off the all-pairs specification it is proved to compute. */
module BlockingProofs {
  import opened Sorting
  import opened Records
  import opened Results
  import opened BlockingKeys
  import opened Blocking
  import Clock

  // --- Which pairs are listed ---

  ghost predicate AgreesAt(
    records: seq<BlockingRecord>, strategies: seq<Strategy>, minLength: int, p: Pair, i: int)
  {
    0 <= i < |strategies| && Agree(records, strategies[i], minLength, p)
  }

  lemma {:induction false} ReasonsMeanAgreement(
    records: seq<BlockingRecord>, strategies: seq<Strategy>, minLength: int, p: Pair)
    ensures AgreeingReasons(records, strategies, minLength, p) != []
            <==> exists i :: AgreesAt(records, strategies, minLength, p, i)
    decreases |strategies|
  {
    if strategies != [] {
      var n := |strategies| - 1;
      ReasonsMeanAgreement(records, strategies[..n], minLength, p);
      assert Agree(records, strategies[n], minLength, p)
             <==> ReasonFrom(records, strategies[n], minLength, p) != [];
      if i :| AgreesAt(records, strategies, minLength, p, i) {
        assert i == n || AgreesAt(records, strategies[..n], minLength, p, i);
      }
      if i :| AgreesAt(records, strategies[..n], minLength, p, i) {
        assert AgreesAt(records, strategies, minLength, p, i);
      }
      if Agree(records, strategies[n], minLength, p) {
        assert AgreesAt(records, strategies, minLength, p, n);
      }
    }
  }

  ghost predicate IsListed(candidates: seq<Candidate>, p: Pair) {
    exists i :: 0 <= i < |candidates| && candidates[i].pair == p
  }

  /** A pair is a candidate exactly when some strategy gives both of its records the same key. */
  lemma ListedExactlyWhenSomeStrategyAgrees(
    records: seq<BlockingRecord>, strategies: seq<Strategy>, minLength: int, p: Pair)
    ensures IsListed(Candidates(records, strategies, minLength), p)
            <==> exists i :: AgreesAt(records, strategies, minLength, p, i)
  {
    var pairs := SortedPairs(AgreeingPairs(records, strategies, minLength));
    ReasonsMeanAgreement(records, strategies, minLength, p);
    ReasonsNeedKnownRecords(records, strategies, minLength, p);
    assert p in pairs <==> AgreeingReasons(records, strategies, minLength, p) != [];
    if p in pairs {
      var i :| 0 <= i < |pairs| && pairs[i] == p;
      assert Candidates(records, strategies, minLength)[i].pair == p;
    }
  }

  /** Candidates are listed in pair order, so each pair is listed once, and both its records are known. */
  lemma CandidatesAreOrdered(
    records: seq<BlockingRecord>, strategies: seq<Strategy>, minLength: int, i: nat, j: nat)
    requires i < j < |Candidates(records, strategies, minLength)|
    ensures PairLess(Candidates(records, strategies, minLength)[i].pair,
                     Candidates(records, strategies, minLength)[j].pair)
    ensures Inside(Candidates(records, strategies, minLength)[i].pair, Ids(records))
  {
    var pairs := SortedPairs(AgreeingPairs(records, strategies, minLength));
    assert pairs[i] in pairs && PairLess(pairs[i], pairs[j]);
  }

  // --- Which reasons a candidate carries ---

  ghost function AgreeCount(records: seq<BlockingRecord>, strategies: seq<Strategy>, minLength: int, p: Pair): nat {
    if strategies == [] then 0 else
      AgreeCount(records, strategies[..|strategies| - 1], minLength, p) +
      if Agree(records, strategies[|strategies| - 1], minLength, p) then 1 else 0
  }

  lemma {:induction false} OneReasonPerStrategy(
    records: seq<BlockingRecord>, strategies: seq<Strategy>, minLength: int, p: Pair)
    ensures |AgreeingReasons(records, strategies, minLength, p)| == AgreeCount(records, strategies, minLength, p)
    decreases |strategies|
  {
    if strategies != [] {
      var n := |strategies| - 1;
      OneReasonPerStrategy(records, strategies[..n], minLength, p);
      assert Agree(records, strategies[n], minLength, p)
             <==> ReasonFrom(records, strategies[n], minLength, p) != [];
    }
  }

  /** A reason of the strategy at `i`: its type, and the key it gives both records. */
  ghost predicate SaysWhy(
    r: Reason, records: seq<BlockingRecord>, strategies: seq<Strategy>, minLength: int, p: Pair, i: int)
  {
    0 <= i < |strategies| && r.reasonType == strategies[i].reason &&
    KeyById(records, strategies[i], minLength, p.a) == Some(r.blockingKey) &&
    KeyById(records, strategies[i], minLength, p.b) == Some(r.blockingKey)
  }

  /** Every reason names a strategy that gives both records its key, and every such strategy is named. */
  lemma {:induction false} ReasonsSayWhy(
    records: seq<BlockingRecord>, strategies: seq<Strategy>, minLength: int, p: Pair, r: Reason)
    ensures r in AgreeingReasons(records, strategies, minLength, p)
            <==> exists i :: SaysWhy(r, records, strategies, minLength, p, i)
    decreases |strategies|
  {
    if strategies != [] {
      var n := |strategies| - 1;
      ReasonsSayWhy(records, strategies[..n], minLength, p, r);
      assert r in ReasonFrom(records, strategies[n], minLength, p)
             <==> SaysWhy(r, records, strategies, minLength, p, n);
      if i :| SaysWhy(r, records, strategies, minLength, p, i) {
        assert i == n || SaysWhy(r, records, strategies[..n], minLength, p, i);
      }
      if i :| SaysWhy(r, records, strategies[..n], minLength, p, i) {
        assert SaysWhy(r, records, strategies, minLength, p, i);
      }
    }
  }

  /** The reasons a candidate carries are exactly those. */
  lemma CandidateSaysWhy(
    records: seq<BlockingRecord>, strategies: seq<Strategy>, minLength: int, k: nat, r: Reason)
    requires k < |Candidates(records, strategies, minLength)|
    ensures var c := Candidates(records, strategies, minLength)[k];
            r in c.reasons <==> exists i :: SaysWhy(r, records, strategies, minLength, c.pair, i)
  {
    var c := Candidates(records, strategies, minLength)[k];
    var reasons := AgreeingReasons(records, strategies, minLength, c.pair);
    SortReasonsKeepsAll(reasons);
    assert r in SortReasons(reasons) <==> r in multiset(SortReasons(reasons));
    ReasonsSayWhy(records, strategies, minLength, c.pair, r);
  }

  /** None is lost or added. */
  lemma SortReasonsKeepsAll(reasons: seq<Reason>)
    ensures multiset(SortReasons(reasons)) == multiset(reasons)
  {
    SortKeepsAll(reasons, Before);
  }

  /** The reasons are ordered by type. */
  lemma SortReasonsSorts(reasons: seq<Reason>)
    ensures SortedBy(SortReasons(reasons), Before)
  {
    SortSorts(reasons, Before);
  }

  /** The value of a reason type. */
  function ValueOf(t: ReasonType): string {
    match t
    case CompanyCityBlock => "COMPANY_CITY_BLOCK"
    case EmailExactBlock => "EMAIL_EXACT_BLOCK"
    case NameCityBlock => "NAME_CITY_BLOCK"
    case NameSurnameBlock => "NAME_SURNAME_BLOCK"
    case PhoneExactBlock => "PHONE_EXACT_BLOCK"
    case PhoneLast7Block => "PHONE_LAST7_BLOCK"
    case SurnameCompanyBlock => "SURNAME_COMPANY_BLOCK"
  }

  lemma {:induction false} FirstDifferenceDecides(a: string, b: string, k: nat)
    requires k < |a| && k < |b| && a[..k] == b[..k] && a[k] != b[k]
    ensures Clock.Less(a, b) <==> a[k] < b[k]
    decreases k
  {
    if k > 0 {
      assert a[0] == a[..k][0] == b[..k][0] == b[0];
      assert a[1..][..k - 1] == a[..k][1..] && b[1..][..k - 1] == b[..k][1..];
      FirstDifferenceDecides(a[1..], b[1..], k - 1);
    }
  }

  lemma {:induction false} NotBeforeItself(a: string)
    ensures !Clock.Less(a, a)
    decreases |a|
  {
    if a != "" {
      NotBeforeItself(a[1..]);
    }
  }

  lemma HeadOfValue(t: ReasonType)
    ensures ValueOf(t) != "" && ValueOf(t)[0] == match Rank(t) case 0 => 'C' case 1 => 'E' case 2 => 'N' case 3 => 'N'
                                                               case 4 => 'P' case 5 => 'P' case _ => 'S'
  {
  }

  lemma NamesShareAPrefix(s: ReasonType, t: ReasonType)
    requires s.NameCityBlock? && t.NameSurnameBlock?
    ensures Clock.Less(ValueOf(s), ValueOf(t)) && !Clock.Less(ValueOf(t), ValueOf(s))
  {
    var a, b := ValueOf(s), ValueOf(t);
    assert a[..5] == b[..5] && a[5] == 'C' && b[5] == 'S';
    FirstDifferenceDecides(a, b, 5);
    FirstDifferenceDecides(b, a, 5);
  }

  lemma PhonesShareAPrefix(s: ReasonType, t: ReasonType)
    requires s.PhoneExactBlock? && t.PhoneLast7Block?
    ensures Clock.Less(ValueOf(s), ValueOf(t)) && !Clock.Less(ValueOf(t), ValueOf(s))
  {
    var a, b := ValueOf(s), ValueOf(t);
    assert a[..6] == b[..6] && a[6] == 'E' && b[6] == 'L';
    FirstDifferenceDecides(a, b, 6);
    FirstDifferenceDecides(b, a, 6);
  }

  /** Ordering reasons by rank is ordering the values of their types as strings. */
  lemma RankIsStringOrder(s: ReasonType, t: ReasonType)
    ensures Rank(s) < Rank(t) <==> Clock.Less(ValueOf(s), ValueOf(t))
  {
    HeadOfValue(s);
    HeadOfValue(t);
    if s == t {
      NotBeforeItself(ValueOf(s));
    } else if s.NameCityBlock? && t.NameSurnameBlock? {
      NamesShareAPrefix(s, t);
    } else if s.NameSurnameBlock? && t.NameCityBlock? {
      NamesShareAPrefix(t, s);
    } else if s.PhoneExactBlock? && t.PhoneLast7Block? {
      PhonesShareAPrefix(s, t);
    } else if s.PhoneLast7Block? && t.PhoneExactBlock? {
      PhonesShareAPrefix(t, s);
    } else {
      FirstDifferenceDecides(ValueOf(s), ValueOf(t), 0);
    }
  }

  function HasType(t: ReasonType): Reason -> bool {
    (r: Reason) => r.reasonType == t
  }

  /** Reasons of one type keep strategy order. */
  lemma SortReasonsIsStable(reasons: seq<Reason>, t: ReasonType)
    ensures Where(SortReasons(reasons), HasType(t)) == Where(reasons, HasType(t))
  {
    SortIsStable(reasons, Before, HasType(t));
  }

  /** Each candidate carries exactly one reason per agreeing strategy, in type order. */
  lemma CandidateHoldsOneReasonPerStrategy(
    records: seq<BlockingRecord>, strategies: seq<Strategy>, minLength: int, i: nat)
    requires i < |Candidates(records, strategies, minLength)|
    ensures
      var c := Candidates(records, strategies, minLength)[i];
      |c.reasons| == AgreeCount(records, strategies, minLength, c.pair) && 1 <= |c.reasons| && SortedBy(c.reasons, Before)
      && multiset(c.reasons) == multiset(AgreeingReasons(records, strategies, minLength, c.pair))
  {
    var pairs := SortedPairs(AgreeingPairs(records, strategies, minLength));
    var p := pairs[i];
    assert p in pairs;
    var reasons := AgreeingReasons(records, strategies, minLength, p);
    SortReasonsSorts(reasons);
    SortReasonsKeepsAll(reasons);
    OneReasonPerStrategy(records, strategies, minLength, p);
    assert |SortReasons(reasons)| == |multiset(SortReasons(reasons))| == |multiset(reasons)| == |reasons|;
  }

  // --- What the outcome does not depend on ---

  lemma {:induction false} LookupOfDistinct(records: seq<BlockingRecord>, r: BlockingRecord)
    requires DistinctIds(records) && r in records
    ensures Lookup(records, r.id) == Some(r)
    decreases |records|
  {
    var n := |records| - 1;
    assert records == records[..n] + [records[n]];
    if records[n].id != r.id {
      LookupOfDistinct(records[..n], r);
    }
  }

  /** Two records are listed whenever some strategy over last-seven phone digits is in use and theirs agree, whatever comes
      before them. */
  lemma SameLastSevenIsListed(
    records: seq<BlockingRecord>, strategies: seq<Strategy>, minLength: int, i: int, p: Pair,
    left: BlockingRecord, right: BlockingRecord, last7: string)
    requires DistinctIds(records) && left in records && right in records && left.id == p.a && right.id == p.b
    requires 0 <= i < |strategies| && IsPhoneLast7(strategies[i]) && minLength <= 7
    requires "phone" in left.values && EndsIn(left.values["phone"], last7)
    requires "phone" in right.values && EndsIn(right.values["phone"], last7)
    ensures IsListed(Candidates(records, strategies, minLength), p)
  {
    LookupOfDistinct(records, left);
    LookupOfDistinct(records, right);
    SharedPhoneKeyExactlyWhen(left, right, strategies[i], minLength);
    assert AgreesAt(records, strategies, minLength, p, i);
    ListedExactlyWhenSomeStrategyAgrees(records, strategies, minLength, p);
  }

  /** With that strategy alone, two records with a phone are listed exactly when those digits agree. */
  lemma ListedExactlyWhenLastSevenAgree(
    records: seq<BlockingRecord>, strategy: Strategy, minLength: int, p: Pair, left: BlockingRecord, right: BlockingRecord)
    requires DistinctIds(records) && left in records && right in records && left.id == p.a && right.id == p.b
    requires IsPhoneLast7(strategy) && "phone" in left.values && "phone" in right.values
    ensures IsListed(Candidates(records, [strategy], minLength), p)
            <==> && minLength <= 7
                 && exists last7 :: EndsIn(left.values["phone"], last7) && EndsIn(right.values["phone"], last7)
  {
    LookupOfDistinct(records, left);
    LookupOfDistinct(records, right);
    SharedPhoneKeyExactlyWhen(left, right, strategy, minLength);
    ListedExactlyWhenSomeStrategyAgrees(records, [strategy], minLength, p);
    if Agree(records, strategy, minLength, p) {
      assert AgreesAt(records, [strategy], minLength, p, 0);
    }
  }

  /** Reasons look only at the two records of the pair. */
  lemma {:induction false} ReasonsAreLocal(
    records: seq<BlockingRecord>, others: seq<BlockingRecord>, strategies: seq<Strategy>, minLength: int, p: Pair)
    requires Lookup(records, p.a) == Lookup(others, p.a) && Lookup(records, p.b) == Lookup(others, p.b)
    ensures AgreeingReasons(records, strategies, minLength, p) == AgreeingReasons(others, strategies, minLength, p)
    decreases |strategies|
  {
    if strategies != [] {
      ReasonsAreLocal(records, others, strategies[..|strategies| - 1], minLength, p);
    }
  }

  lemma FoundInBoth(records: seq<BlockingRecord>, shuffled: seq<BlockingRecord>, id: RecordId)
    requires DistinctIds(shuffled) && forall r :: r in records ==> r in shuffled
    ensures Lookup(records, id).Some? ==> Lookup(shuffled, id) == Lookup(records, id)
  {
    LookupFindsId(records, id);
    if Lookup(records, id).Some? {
      LookupOfDistinct(shuffled, Lookup(records, id).value);
    }
  }

  /** Shuffling the records changes nothing, not even the order of the outcome. */
  lemma RecordOrderIsIrrelevant(
    records: seq<BlockingRecord>, shuffled: seq<BlockingRecord>, strategies: seq<Strategy>, minLength: int)
    requires DistinctIds(records) && DistinctIds(shuffled)
    requires forall r :: r in records <==> r in shuffled
    ensures Candidates(records, strategies, minLength) == Candidates(shuffled, strategies, minLength)
  {
    forall id: RecordId
      ensures Lookup(records, id) == Lookup(shuffled, id)
    {
      FoundInBoth(records, shuffled, id);
      FoundInBoth(shuffled, records, id);
    }
    forall p: Pair
      ensures AgreeingReasons(records, strategies, minLength, p) == AgreeingReasons(shuffled, strategies, minLength, p)
    {
      ReasonsAreLocal(records, shuffled, strategies, minLength, p);
    }
    assert Ids(records) == Ids(shuffled);
    assert AgreeingPairs(records, strategies, minLength) == AgreeingPairs(shuffled, strategies, minLength);
    var pairs := SortedPairs(AgreeingPairs(records, strategies, minLength));
    assert Listed(pairs, records, strategies, minLength) == Listed(pairs, shuffled, strategies, minLength);
  }

  /** A new record adds candidates of its own and leaves those between the others as they were. */
  lemma NewRecordOnlyAddsItsOwnPairs(
    records: seq<BlockingRecord>, r: BlockingRecord, strategies: seq<Strategy>, minLength: int, p: Pair)
    requires p.a != r.id && p.b != r.id
    ensures IsListed(Candidates(records + [r], strategies, minLength), p)
            <==> IsListed(Candidates(records, strategies, minLength), p)
    ensures AgreeingReasons(records + [r], strategies, minLength, p)
            == AgreeingReasons(records, strategies, minLength, p)
  {
    assert (records + [r])[..|records|] == records;
    ReasonsAreLocal(records + [r], records, strategies, minLength, p);
    ListedExactlyWhenSomeStrategyAgrees(records, strategies, minLength, p);
    ListedExactlyWhenSomeStrategyAgrees(records + [r], strategies, minLength, p);
    ReasonsMeanAgreement(records, strategies, minLength, p);
    ReasonsMeanAgreement(records + [r], strategies, minLength, p);
  }

  // --- How many candidates there are ---

  function PossiblePairCount(recordCount: nat): nat {
    if recordCount < 2 then 0 else recordCount * (recordCount - 1) / 2
  }

  function CandidateReductionRatio(recordCount: nat, candidateCount: nat): real {
    var possible := PossiblePairCount(recordCount);
    if possible == 0 then 1.0 else 1.0 - candidateCount as real / possible as real
  }

  /** `0 + 1 + ... + (n - 1)`. */
  function Triangle(n: nat): nat {
    if n == 0 then 0 else Triangle(n - 1) + n - 1
  }

  lemma {:induction false} PossiblePairsAreATriangle(n: nat)
    ensures PossiblePairCount(n) == Triangle(n)
  {
    if n >= 2 {
      PossiblePairsAreATriangle(n - 1);
      assert n * (n - 1) == (n - 1) * (n - 2) + 2 * (n - 1);
    }
  }

  /** The pairs that hold `x`. */
  function PairsWith(x: RecordId, others: set<RecordId>): set<Pair>
    requires x !in others
  {
    set y | y in others :: Ordered(x, y)
  }

  lemma OneRecordMore(x: RecordId, others: set<RecordId>)
    requires x !in others
    ensures AllPairs(others + {x}) == AllPairs(others) + PairsWith(x, others)
    ensures AllPairs(others) !! PairsWith(x, others)
  {
    forall p | p in AllPairs(others + {x})
      ensures p in AllPairs(others) || p in PairsWith(x, others)
    {
      if p.a == x {
        assert p == Ordered(x, p.b);
      } else if p.b == x {
        assert p == Ordered(x, p.a);
      }
    }
  }

  lemma {:induction false} PairsWithCounted(x: RecordId, others: set<RecordId>)
    requires x !in others
    ensures |PairsWith(x, others)| == |others|
    decreases |others|
  {
    if others != {} {
      var z :| z in others;
      var rest := others - {z};
      PairsWithCounted(x, rest);
      assert PairsWith(x, others) == PairsWith(x, rest) + {Ordered(x, z)};
    }
  }

  lemma CountsAdd(s: set<Pair>, t: set<Pair>, whole: set<Pair>)
    requires s !! t && whole == s + t
    ensures |whole| == |s| + |t|
  {
  }

  lemma OneRecordAddsPairs(x: RecordId, others: set<RecordId>)
    requires x !in others
    ensures |AllPairs(others + {x})| == |AllPairs(others)| + |others|
  {
    OneRecordMore(x, others);
    PairsWithCounted(x, others);
    CountsAdd(AllPairs(others), PairsWith(x, others), AllPairs(others + {x}));
  }

  lemma {:induction false} AllPairsAreATriangle(ids: set<RecordId>)
    ensures |AllPairs(ids)| == Triangle(|ids|)
    decreases |ids|
  {
    if ids == {} {
      assert AllPairs(ids) == {};
    } else {
      var x :| x in ids;
      var rest := ids - {x};
      AllPairsAreATriangle(rest);
      OneRecordAddsPairs(x, rest);
      assert rest + {x} == ids;
    }
  }

  /** The record pairs over `n` records are exactly `n(n-1)/2`, as `possible_pair_count` says. */
  lemma AllPairsCounted(ids: set<RecordId>)
    ensures |AllPairs(ids)| == PossiblePairCount(|ids|)
  {
    AllPairsAreATriangle(ids);
    PossiblePairsAreATriangle(|ids|);
  }

  lemma {:induction false} SortedPairsKeepsCount(pairs: set<Pair>)
    ensures |SortedPairs(pairs)| == |pairs|
  {
    var sorted := SortedPairs(pairs);
    assert pairs == set p | p in sorted;
    DistinctCount(sorted);
  }

  lemma {:induction false} DistinctCount(sorted: seq<Pair>)
    requires AscendingPairs(sorted)
    ensures |set p | p in sorted| == |sorted|
    decreases |sorted|
  {
    if sorted != [] {
      var front, last := sorted[..|sorted| - 1], sorted[|sorted| - 1];
      DistinctCount(front);
      assert sorted == front + [last];
      assert (set p | p in sorted) == (set p | p in front) + {last};
      assert last !in front;
    }
  }

  lemma {:induction false} IdsAreAsManyAsRecords(records: seq<BlockingRecord>)
    requires DistinctIds(records)
    ensures |Ids(records)| == |records|
    decreases |records|
  {
    if records != [] {
      var front, last := records[..|records| - 1], records[|records| - 1];
      IdsAreAsManyAsRecords(front);
      assert records == front + [last];
      assert Ids(records) == Ids(front) + {last.id};
    }
  }

  /** Blocking never lists more than every pair, so the reduction ratio is a share of the all-pairs work. */
  lemma ReductionRatioIsAShare(records: seq<BlockingRecord>, strategies: seq<Strategy>, minLength: int)
    requires DistinctIds(records)
    ensures
      var count := |Candidates(records, strategies, minLength)|;
      count <= PossiblePairCount(|records|) &&
      0.0 <= CandidateReductionRatio(|records|, count) <= 1.0 &&
      (2 <= |records| ==> (CandidateReductionRatio(|records|, count) == 0.0
                           <==> AgreeingPairs(records, strategies, minLength) == AllPairs(Ids(records))))
  {
    var agreeing, all := AgreeingPairs(records, strategies, minLength), AllPairs(Ids(records));
    var count, possible := |agreeing|, PossiblePairCount(|records|);
    SortedPairsKeepsCount(agreeing);
    SubsetCount(agreeing, all);
    AllPairsCounted(Ids(records));
    IdsAreAsManyAsRecords(records);
    if possible != 0 {
      ShareBounds(count, possible);
    }
    if 2 <= |records| {
      PossiblePairsAreATriangle(|records|);
      assert 1 <= Triangle(|records|);
      assert all == agreeing + (all - agreeing);
    }
  }

  lemma ShareBounds(part: nat, whole: nat)
    requires part <= whole && 0 < whole
    ensures 0.0 <= 1.0 - part as real / whole as real <= 1.0
    ensures 1.0 - part as real / whole as real == 0.0 <==> part == whole
  {
    var share := part as real / whole as real;
    assert share * whole as real == part as real;
    if share == 1.0 {
      assert whole as real == part as real;
    }
    if part == whole {
      assert (share - 1.0) * whole as real == 0.0;
    }
  }
}
