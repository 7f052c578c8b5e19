/** Candidate generation (entity_resolution/blocking.py:55-139): buckets of records that share a key, against
    the all-pairs comparison they stand for. */
module Blocking {
  import opened Sorting
  import opened Records
  import opened Results
  import opened BlockingKeys

  datatype Reason = Reason(reasonType: ReasonType, blockingKey: string)

  datatype Candidate = Candidate(pair: Pair, reasons: seq<Reason>)

  // --- The all-pairs specification ---

  predicate DistinctIds(records: seq<BlockingRecord>) {
    forall i, j :: 0 <= i < j < |records| ==> records[i].id != records[j].id
  }

  function Ids(records: seq<BlockingRecord>): set<RecordId> {
    set r | r in records :: r.id
  }

  function Lookup(records: seq<BlockingRecord>, id: RecordId): Option<BlockingRecord> {
    if records == [] then None
    else if records[|records| - 1].id == id then Some(records[|records| - 1])
    else Lookup(records[..|records| - 1], id)
  }

  function KeyById(records: seq<BlockingRecord>, strategy: Strategy, minLength: int, id: RecordId): Option<string> {
    match Lookup(records, id)
    case None => None
    case Some(r) => KeyOf(r, strategy, minLength)
  }

  /** The key a strategy gives both records of a pair, if it gives them the same one. */
  function SharedKey(records: seq<BlockingRecord>, strategy: Strategy, minLength: int, p: Pair): Option<string> {
    var key := KeyById(records, strategy, minLength, p.a);
    if key == KeyById(records, strategy, minLength, p.b) then key else None
  }

  function ReasonFrom(records: seq<BlockingRecord>, strategy: Strategy, minLength: int, p: Pair): seq<Reason> {
    match SharedKey(records, strategy, minLength, p)
    case None => []
    case Some(key) => [Reason(strategy.reason, key)]
  }

  /** One reason for each strategy that gives both records the same key, in strategy order. */
  function AgreeingReasons(
    records: seq<BlockingRecord>, strategies: seq<Strategy>, minLength: int, p: Pair): seq<Reason>
  {
    if strategies == [] then [] else
      AgreeingReasons(records, strategies[..|strategies| - 1], minLength, p) +
      ReasonFrom(records, strategies[|strategies| - 1], minLength, p)
  }

  ghost predicate Agree(records: seq<BlockingRecord>, strategy: Strategy, minLength: int, p: Pair) {
    exists key :: KeyById(records, strategy, minLength, p.a) == Some(key) == KeyById(records, strategy, minLength, p.b)
  }

  function AllPairs(ids: set<RecordId>): set<Pair> {
    set a, b | a in ids && b in ids && a < b :: RecordPair(a, b)
  }

  /** The pairs some strategy agrees on, by comparing every two records. */
  function AgreeingPairs(records: seq<BlockingRecord>, strategies: seq<Strategy>, minLength: int): set<Pair> {
    set p | p in AllPairs(Ids(records)) && AgreeingReasons(records, strategies, minLength, p) != []
  }

  predicate Before(r: Reason, s: Reason) {
    Rank(r.reasonType) <= Rank(s.reasonType)
  }

  /** The alphabetical place of a reason type's value. */
  function Rank(t: ReasonType): nat {
    match t
    case CompanyCityBlock => 0
    case EmailExactBlock => 1
    case NameCityBlock => 2
    case NameSurnameBlock => 3
    case PhoneExactBlock => 4
    case PhoneLast7Block => 5
    case SurnameCompanyBlock => 6
  }

  /** `sorted(reasons, key=reason_type.value)`: stable. */
  function SortReasons(reasons: seq<Reason>): seq<Reason> {
    StableSort(reasons, Before)
  }

  function Listed(pairs: seq<Pair>, records: seq<BlockingRecord>, strategies: seq<Strategy>, minLength: int)
    : (r: seq<Candidate>)
    ensures |r| == |pairs|
    ensures forall i :: 0 <= i < |pairs| ==> r[i].pair == pairs[i]
    ensures forall i :: 0 <= i < |pairs| ==>
      r[i].reasons == SortReasons(AgreeingReasons(records, strategies, minLength, pairs[i]))
  {
    seq(|pairs|, i requires 0 <= i < |pairs| =>
      Candidate(pairs[i], SortReasons(AgreeingReasons(records, strategies, minLength, pairs[i]))))
  }

  function Candidates(records: seq<BlockingRecord>, strategies: seq<Strategy>, minLength: int): seq<Candidate> {
    Listed(SortedPairs(AgreeingPairs(records, strategies, minLength)), records, strategies, minLength)
  }

  // --- Buckets ---

  type Buckets = map<string, seq<RecordId>>

  predicate NoRepeats(ids: seq<RecordId>) {
    forall i, j :: 0 <= i < j < |ids| ==> ids[i] != ids[j]
  }

  predicate Filed(buckets: Buckets, key: string, id: RecordId) {
    key in buckets && id in buckets[key]
  }

  /** Every record with a key is in that key's bucket, once, and nothing else is. */
  ghost predicate GroupsByKey(buckets: Buckets, records: seq<BlockingRecord>, strategy: Strategy, minLength: int) {
    (forall key, id: RecordId :: Filed(buckets, key, id) <==> KeyById(records, strategy, minLength, id) == Some(key)) &&
    (forall key :: key in buckets ==> NoRepeats(buckets[key]))
  }

  lemma {:induction false} LookupFindsId(records: seq<BlockingRecord>, id: RecordId)
    ensures Lookup(records, id).Some? <==> id in Ids(records)
    ensures Lookup(records, id).Some? ==> Lookup(records, id).value in records && Lookup(records, id).value.id == id
    decreases |records|
  {
    if records != [] {
      var front, last := records[..|records| - 1], records[|records| - 1];
      LookupFindsId(front, id);
      assert records == front + [last];
      assert Ids(records) == Ids(front) + {last.id};
    }
  }

  method FillBuckets(records: seq<BlockingRecord>, strategy: Strategy, minLength: int) returns (buckets: Buckets)
    requires DistinctIds(records)
    ensures GroupsByKey(buckets, records, strategy, minLength)
  {
    buckets := map[];
    for n := 0 to |records|
      invariant GroupsByKey(buckets, records[..n], strategy, minLength)
    {
      var record := records[n];
      var key := BuildBlockingKey(record, strategy, minLength);
      assert records[..n + 1][..n] == records[..n];
      LookupFindsId(records[..n], record.id);
      assert record.id !in Ids(records[..n]);
      assert KeyById(records[..n], strategy, minLength, record.id) == None;
      if key.Some? {
        var bucket := if key.value in buckets then buckets[key.value] else [];
        assert !Filed(buckets, key.value, record.id);
        ghost var before := buckets;
        buckets := buckets[key.value := bucket + [record.id]];
        assert forall k, id: RecordId :: Filed(buckets, k, id) <==>
          Filed(before, k, id) || (k == key.value && id == record.id);
      }
    }
    assert records[..|records|] == records;
  }

  /** `pairs` is every pair whose smaller record is among the first `i`, in order. */
  ghost predicate PairedUpTo(pairs: seq<Pair>, sorted: seq<RecordId>, i: nat)
    requires i <= |sorted|
  {
    AscendingPairs(pairs) && forall p: Pair :: p in pairs <==> p.a in sorted[..i] && p.b in sorted
  }

  /** As above, with the pairs of record `i` up to record `j` added. */
  ghost predicate PairedWithin(pairs: seq<Pair>, sorted: seq<RecordId>, i: nat, j: nat)
    requires i < j <= |sorted|
  {
    AscendingPairs(pairs) &&
    forall p: Pair :: p in pairs <==>
      (p.a in sorted[..i] && p.b in sorted) || (p.a == sorted[i] && p.b in sorted[i + 1..j])
  }

  lemma AppendingKeepsPaired(pairs: seq<Pair>, sorted: seq<RecordId>, i: nat, j: nat)
    requires AscendingIds(sorted) && i < j < |sorted|
    requires PairedWithin(pairs, sorted, i, j)
    ensures PairedWithin(pairs + [Ordered(sorted[i], sorted[j])], sorted, i, j + 1)
  {
    var pair := Ordered(sorted[i], sorted[j]);
    assert pair == RecordPair(sorted[i], sorted[j]);
    forall q | q in pairs
      ensures PairLess(q, pair)
    {
    }
    assert sorted[i + 1..j + 1] == sorted[i + 1..j] + [sorted[j]];
  }

  lemma RowIsComplete(pairs: seq<Pair>, sorted: seq<RecordId>, i: nat)
    requires AscendingIds(sorted) && i < |sorted|
    requires PairedWithin(pairs, sorted, i, |sorted|)
    ensures PairedUpTo(pairs, sorted, i + 1)
  {
    assert sorted[..i + 1] == sorted[..i] + [sorted[i]];
    forall p: Pair | p.a == sorted[i] && p.b in sorted
      ensures p.b in sorted[i + 1..|sorted|]
    {
      var k :| 0 <= k < |sorted| && sorted[k] == p.b;
      assert i < k;
      assert sorted[i + 1..|sorted|][k - i - 1] == p.b;
    }
  }

  lemma RowBegins(pairs: seq<Pair>, sorted: seq<RecordId>, i: nat)
    requires i < |sorted| && PairedUpTo(pairs, sorted, i)
    ensures PairedWithin(pairs, sorted, i, i + 1)
  {
  }

  lemma AllRowsPaired(pairs: seq<Pair>, sorted: seq<RecordId>, ids: seq<RecordId>)
    requires PairedUpTo(pairs, sorted, |sorted|)
    requires forall id :: id in sorted <==> id in ids
    ensures AscendingPairs(pairs)
    ensures forall p: Pair :: p in pairs <==> p.a in ids && p.b in ids
  {
    assert sorted[..|sorted|] == sorted;
  }

  /** The two nested loops over the sorted bucket. */
  method PairsOfSorted(sorted: seq<RecordId>) returns (pairs: seq<Pair>)
    requires AscendingIds(sorted)
    ensures PairedUpTo(pairs, sorted, |sorted|)
  {
    pairs := [];
    for i := 0 to |sorted|
      invariant PairedUpTo(pairs, sorted, i)
    {
      RowBegins(pairs, sorted, i);
      for j := i + 1 to |sorted|
        invariant PairedWithin(pairs, sorted, i, j)
      {
        AppendingKeepsPaired(pairs, sorted, i, j);
        pairs := pairs + [Ordered(sorted[i], sorted[j])];
      }
      RowIsComplete(pairs, sorted, i);
    }
  }

  lemma NoPairInOne(ids: seq<RecordId>)
    requires |ids| < 2
    ensures forall p: Pair :: !(p.a in ids && p.b in ids)
  {
  }

  /** `_pairs_from_bucket`: every two records of a bucket, in order, each pair once. */
  method PairsFromBucket(ids: seq<RecordId>) returns (pairs: seq<Pair>)
    requires NoRepeats(ids)
    ensures AscendingPairs(pairs)
    ensures forall p: Pair :: p in pairs <==> p.a in ids && p.b in ids
  {
    if |ids| < 2 {
      NoPairInOne(ids);
      return [];
    }
    var sorted := SortedIds(set id | id in ids);
    pairs := PairsOfSorted(sorted);
    AllRowsPaired(pairs, sorted, ids);
  }

  // --- The candidate map ---

  type CandidateMap = map<Pair, seq<Reason>>

  function ReasonsAt(candidates: CandidateMap, p: Pair): seq<Reason> {
    if p in candidates then candidates[p] else []
  }

  predicate NoEmptyEntry(candidates: CandidateMap) {
    forall p :: p in candidates ==> candidates[p] != []
  }

  /** What the map holds after the buckets of `done`: the reason of a strategy, for pairs of those buckets. */
  function ReasonIfDone(
    done: set<string>, records: seq<BlockingRecord>, strategy: Strategy, minLength: int, p: Pair): seq<Reason>
  {
    var key := SharedKey(records, strategy, minLength, p);
    if key.Some? && key.value in done then [Reason(strategy.reason, key.value)] else []
  }

  method AddPairs(candidates: CandidateMap, pairs: seq<Pair>, reason: Reason) returns (after: CandidateMap)
    requires AscendingPairs(pairs) && NoEmptyEntry(candidates)
    ensures NoEmptyEntry(after)
    ensures forall p: Pair :: ReasonsAt(after, p) == ReasonsAt(candidates, p) + if p in pairs then [reason] else []
  {
    after := candidates;
    for n := 0 to |pairs|
      invariant NoEmptyEntry(after)
      invariant forall p: Pair ::
        ReasonsAt(after, p) == ReasonsAt(candidates, p) + if p in pairs[..n] then [reason] else []
    {
      assert pairs[n] !in pairs[..n];
      after := after[pairs[n] := ReasonsAt(after, pairs[n]) + [reason]];
      assert pairs[..n + 1] == pairs[..n] + [pairs[n]];
    }
    assert pairs[..|pairs|] == pairs;
  }

  /** One strategy's round: fill its buckets, then walk them. The source walks them by key; the outcome is the
      same in every order, so the model takes any. */
  method AddStrategy(
    candidates: CandidateMap, records: seq<BlockingRecord>, strategy: Strategy, minLength: int)
    returns (after: CandidateMap)
    requires DistinctIds(records) && NoEmptyEntry(candidates)
    ensures NoEmptyEntry(after)
    ensures forall p: Pair ::
      ReasonsAt(after, p) == ReasonsAt(candidates, p) + ReasonFrom(records, strategy, minLength, p)
  {
    var buckets := FillBuckets(records, strategy, minLength);
    after := candidates;
    var todo := buckets.Keys;
    ghost var done := {};
    while todo != {}
      invariant done !! todo && done + todo == buckets.Keys
      invariant NoEmptyEntry(after)
      invariant forall p: Pair ::
        ReasonsAt(after, p) == ReasonsAt(candidates, p) + ReasonIfDone(done, records, strategy, minLength, p)
      decreases |todo|
    {
      ghost var before := after;
      var key :| key in todo;
      var pairs := PairsFromBucket(buckets[key]);
      BucketPairsShareKey(buckets, records, strategy, minLength, key, pairs);
      after := AddPairs(after, pairs, Reason(strategy.reason, key));
      OneMoreBucket(before, after, candidates, records, strategy, minLength, done, key, pairs);
      todo := todo - {key};
      done := done + {key};
    }
    assert done == buckets.Keys;
    AllBucketsDone(buckets, records, strategy, minLength);
  }

  lemma BucketPairsShareKey(
    buckets: Buckets, records: seq<BlockingRecord>, strategy: Strategy, minLength: int, key: string, pairs: seq<Pair>)
    requires GroupsByKey(buckets, records, strategy, minLength) && key in buckets
    requires forall p: Pair :: p in pairs <==> p.a in buckets[key] && p.b in buckets[key]
    ensures forall p: Pair :: p in pairs <==> SharedKey(records, strategy, minLength, p) == Some(key)
  {
    forall p: Pair
      ensures p in pairs <==> SharedKey(records, strategy, minLength, p) == Some(key)
    {
      assert p in pairs <==> Filed(buckets, key, p.a) && Filed(buckets, key, p.b);
    }
  }

  lemma OneMoreBucket(
    before: CandidateMap, after: CandidateMap, start: CandidateMap, records: seq<BlockingRecord>, strategy: Strategy,
    minLength: int, done: set<string>, key: string, pairs: seq<Pair>)
    requires key !in done
    requires forall p: Pair :: p in pairs <==> SharedKey(records, strategy, minLength, p) == Some(key)
    requires forall p: Pair ::
      ReasonsAt(before, p) == ReasonsAt(start, p) + ReasonIfDone(done, records, strategy, minLength, p)
    requires forall p: Pair ::
      ReasonsAt(after, p) == ReasonsAt(before, p) + if p in pairs then [Reason(strategy.reason, key)] else []
    ensures forall p: Pair ::
      ReasonsAt(after, p) == ReasonsAt(start, p) + ReasonIfDone(done + {key}, records, strategy, minLength, p)
  {
    forall p: Pair
      ensures ReasonsAt(after, p) == ReasonsAt(start, p) + ReasonIfDone(done + {key}, records, strategy, minLength, p)
    {
      if p in pairs {
        assert ReasonIfDone(done, records, strategy, minLength, p) == [];
      }
    }
  }

  lemma AllBucketsDone(buckets: Buckets, records: seq<BlockingRecord>, strategy: Strategy, minLength: int)
    requires GroupsByKey(buckets, records, strategy, minLength)
    ensures forall p: Pair ::
      ReasonIfDone(buckets.Keys, records, strategy, minLength, p) == ReasonFrom(records, strategy, minLength, p)
  {
    forall p: Pair
      ensures ReasonIfDone(buckets.Keys, records, strategy, minLength, p)
           == ReasonFrom(records, strategy, minLength, p)
    {
      var key := SharedKey(records, strategy, minLength, p);
      if key.Some? {
        assert Filed(buckets, key.value, p.a);
      }
    }
  }

  /** Only known records share a key. */
  lemma ReasonsNeedKnownRecords(
    records: seq<BlockingRecord>, strategies: seq<Strategy>, minLength: int, p: Pair)
    ensures AgreeingReasons(records, strategies, minLength, p) != [] ==> p in AllPairs(Ids(records))
  {
    if !Inside(p, Ids(records)) {
      LookupFindsId(records, p.a);
      LookupFindsId(records, p.b);
      UnknownHasNoReason(records, strategies, minLength, p);
    }
  }

  lemma {:induction false} UnknownHasNoReason(
    records: seq<BlockingRecord>, strategies: seq<Strategy>, minLength: int, p: Pair)
    requires Lookup(records, p.a).None? || Lookup(records, p.b).None?
    ensures AgreeingReasons(records, strategies, minLength, p) == []
    decreases |strategies|
  {
    if strategies != [] {
      UnknownHasNoReason(records, strategies[..|strategies| - 1], minLength, p);
    }
  }

  /** The map the strategies leave behind is the all-pairs specification. */
  ghost predicate Specified(
    candidates: CandidateMap, records: seq<BlockingRecord>, strategies: seq<Strategy>, minLength: int)
  {
    NoEmptyEntry(candidates) &&
    forall p: Pair :: ReasonsAt(candidates, p) == AgreeingReasons(records, strategies, minLength, p)
  }

  lemma SpecifiedKeys(
    candidates: CandidateMap, records: seq<BlockingRecord>, strategies: seq<Strategy>, minLength: int)
    requires Specified(candidates, records, strategies, minLength)
    ensures candidates.Keys == AgreeingPairs(records, strategies, minLength)
  {
    forall p: Pair
      ensures p in candidates <==> p in AgreeingPairs(records, strategies, minLength)
    {
      assert p in candidates <==> ReasonsAt(candidates, p) != [];
      ReasonsNeedKnownRecords(records, strategies, minLength, p);
    }
  }

  method ListCandidates(
    candidates: CandidateMap, ghost records: seq<BlockingRecord>, ghost strategies: seq<Strategy>,
    ghost minLength: int)
    returns (r: seq<Candidate>)
    requires Specified(candidates, records, strategies, minLength)
    ensures r == Candidates(records, strategies, minLength)
  {
    SpecifiedKeys(candidates, records, strategies, minLength);
    var pairs := SortedPairs(candidates.Keys);
    r := [];
    for n := 0 to |pairs|
      invariant r == Listed(pairs[..n], records, strategies, minLength)
    {
      assert pairs[n] in candidates && candidates[pairs[n]] == ReasonsAt(candidates, pairs[n]);
      ListedOneMore(pairs, n, records, strategies, minLength);
      r := r + [Candidate(pairs[n], SortReasons(candidates[pairs[n]]))];
    }
    assert pairs[..|pairs|] == pairs;
  }

  lemma ListedOneMore(
    pairs: seq<Pair>, n: nat, records: seq<BlockingRecord>, strategies: seq<Strategy>, minLength: int)
    requires n < |pairs|
    ensures Listed(pairs[..n + 1], records, strategies, minLength) == Listed(pairs[..n], records, strategies, minLength)
      + [Candidate(pairs[n], SortReasons(AgreeingReasons(records, strategies, minLength, pairs[n])))]
  {
  }

  /** `generate_candidates`: bucketed blocking gives exactly what comparing every two records gives. */
  method GenerateCandidates(records: seq<BlockingRecord>, strategies: seq<Strategy>, minLength: int)
    returns (r: seq<Candidate>)
    requires DistinctIds(records)
    ensures r == Candidates(records, strategies, minLength)
  {
    var candidates: CandidateMap := map[];
    for n := 0 to |strategies|
      invariant Specified(candidates, records, strategies[..n], minLength)
    {
      candidates := AddStrategy(candidates, records, strategies[n], minLength);
      assert strategies[..n + 1][..n] == strategies[..n];
    }
    assert strategies[..|strategies|] == strategies;
    r := ListCandidates(candidates, records, strategies, minLength);
  }
}
