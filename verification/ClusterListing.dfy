/** The order clusters are listed in and the numbers they carry, for both builders. */
module ClusterListing {
  import opened Records
  import opened Partitions
  import opened GreedyPass
  import opened Resolution
  import opened Authorization
  import opened Clustering
  import opened Integration

  // ---- components are listed by least record ----------------------------------------------------------------------

  /** Every group holds a record, and its first record is smaller than that of every later group. */
  ghost predicate LedInOrder(components: seq<seq<RecordId>>) {
    && (forall i :: 0 <= i < |components| ==> components[i] != [])
    && (forall i, j :: 0 <= i < j < |components| ==> components[i][0] < components[j][0])
  }

  lemma LeadsWithLeast(ids: set<RecordId>, x: RecordId)
    requires x in ids && forall y :: y in ids ==> x <= y
    ensures SortedIds(ids) != [] && SortedIds(ids)[0] == x
  {
    var s := SortedIds(ids);
    assert x in s && s[0] in s;
  }

  lemma LedByItsName(p: Partition, i: nat)
    requires Canonical(p) && i < |ComponentList(p)|
    ensures ComponentList(p)[i] != [] && ComponentList(p)[i][0] == SortedIds(ClassNames(p))[i]
  {
    var name := SortedIds(ClassNames(p))[i];
    assert name in SortedIds(ClassNames(p)) && Names(p, name, name);
    NamedByLeastMember(p, name);
    LeadsWithLeast(Component(p, name), name);
  }

  lemma ComponentsAreLedInOrder(p: Partition)
    requires Canonical(p)
    ensures LedInOrder(ComponentList(p))
  {
    forall i | 0 <= i < |ComponentList(p)|
      ensures ComponentList(p)[i] != [] && ComponentList(p)[i][0] == SortedIds(ClassNames(p))[i]
    {
      LedByItsName(p, i);
    }
  }

  /** Clusters come in order of their least record, so no component is listed twice. */
  ghost predicate LeastRecordsAscend(clusters: seq<EntityCluster>) {
    && (forall i :: 0 <= i < |clusters| ==> clusters[i].members != [])
    && (forall i, j :: 0 <= i < j < |clusters| ==> clusters[i].members[0] < clusters[j].members[0])
  }

  ghost predicate IdsDiffer(clusters: seq<EntityCluster>) {
    forall i, j :: 0 <= i < j < |clusters| ==> clusters[i].id != clusters[j].id
  }

  // ---- review-aware clusters: two series ------------------------------------------------------------------------------

  predicate SameSeries(c: EntityCluster, d: EntityCluster) {
    c.id.AutoCluster? <==> d.id.AutoCluster?
  }

  /** The places of the earlier clusters of the same series. */
  ghost function Earlier(clusters: seq<EntityCluster>, i: int): set<int>
    requires 0 <= i < |clusters|
  {
    set j | 0 <= j < i && SameSeries(clusters[j], clusters[i])
  }

  ghost predicate NumberedAt(clusters: seq<EntityCluster>, i: int)
    requires 0 <= i < |clusters|
  {
    clusters[i].id.index == |Earlier(clusters, i)| + 1
  }

  /** Each series reads 1, 2, 3 and so on. */
  ghost predicate NumberedBySeries(clusters: seq<EntityCluster>) {
    forall i :: 0 <= i < |clusters| ==> NumberedAt(clusters, i)
  }

  ghost function AutoPlaces(clusters: seq<EntityCluster>): set<int> {
    set j | 0 <= j < |clusters| && clusters[j].id.AutoCluster?
  }

  ghost function HumanPlaces(clusters: seq<EntityCluster>): set<int> {
    set j | 0 <= j < |clusters| && !clusters[j].id.AutoCluster?
  }

  lemma {:induction false} PlacesAreCounted(clusters: seq<EntityCluster>)
    ensures |AutoPlaces(clusters)| == AutoCount(clusters)
    ensures |HumanPlaces(clusters)| == |clusters| - AutoCount(clusters)
    decreases |clusters|
  {
    if clusters != [] {
      var n := |clusters| - 1;
      PlacesAreCounted(clusters[..n]);
      if clusters[n].id.AutoCluster? {
        assert AutoPlaces(clusters) == AutoPlaces(clusters[..n]) + {n};
        assert HumanPlaces(clusters) == HumanPlaces(clusters[..n]);
      } else {
        assert AutoPlaces(clusters) == AutoPlaces(clusters[..n]);
        assert HumanPlaces(clusters) == HumanPlaces(clusters[..n]) + {n};
      }
    }
  }

  lemma NumberedOneMore(front: seq<EntityCluster>, next: EntityCluster)
    requires NumberedBySeries(front)
    requires next.id.index == (if next.id.AutoCluster? then AutoCount(front) else |front| - AutoCount(front)) + 1
    ensures NumberedBySeries(front + [next])
  {
    var clusters := front + [next];
    forall i | 0 <= i < |clusters|
      ensures NumberedAt(clusters, i)
    {
      if i < |front| {
        assert NumberedAt(front, i);
        StaysNumbered(front, next, i);
      } else {
        EarlierThanNext(front, next);
      }
    }
  }

  lemma StaysNumbered(front: seq<EntityCluster>, next: EntityCluster, i: nat)
    requires i < |front| && NumberedAt(front, i)
    ensures NumberedAt(front + [next], i)
  {
    var clusters := front + [next];
    forall j | 0 <= j <= i
      ensures clusters[j] == front[j]
    {
    }
    assert Earlier(clusters, i) == Earlier(front, i);
  }

  lemma EarlierThanNext(front: seq<EntityCluster>, next: EntityCluster)
    ensures |Earlier(front + [next], |front|)|
            == if next.id.AutoCluster? then AutoCount(front) else |front| - AutoCount(front)
  {
    PlacesAreCounted(front);
    assert Earlier(front + [next], |front|) == if next.id.AutoCluster? then AutoPlaces(front) else HumanPlaces(front);
  }

  lemma AscendOneMore(front: seq<EntityCluster>, next: EntityCluster)
    requires LeastRecordsAscend(front) && next.members != []
    requires forall c :: c in front ==> c.members != [] && c.members[0] < next.members[0]
    ensures LeastRecordsAscend(front + [next])
  {
    assert forall i :: 0 <= i < |front| ==> front[i] in front;
  }

  lemma {:induction false} ReviewClustersAreListed(
    components: seq<seq<RecordId>>, auto: seq<Pair>, human: seq<Pair>, severe: set<Pair>)
    requires LedInOrder(components)
    ensures LeastRecordsAscend(ReviewClusters(components, auto, human, severe))
    ensures NumberedBySeries(ReviewClusters(components, auto, human, severe))
    decreases |components|
  {
    if components != [] {
      var n := |components| - 1;
      var front := ReviewClusters(components[..n], auto, human, severe);
      ReviewClustersAreListed(components[..n], auto, human, severe);
      var next := NextCluster(front, components[n], auto, human, severe);
      if next.Some? {
        forall c | c in front
          ensures c.members != [] && c.members[0] < components[n][0]
        {
          ReviewClusterComesFrom(components[..n], auto, human, severe, c);
          var k :| 0 <= k < n && components[..n][k] == c.members;
          assert components[k][0] < components[n][0];
        }
        AscendOneMore(front, next.value);
        NumberedOneMore(front, next.value);
      }
    }
  }

  lemma NumbersDiffer(clusters: seq<EntityCluster>)
    requires NumberedBySeries(clusters)
    ensures IdsDiffer(clusters)
  {
    forall i, j | 0 <= i < j < |clusters|
      ensures clusters[i].id != clusters[j].id
    {
      if SameSeries(clusters[i], clusters[j]) {
        assert NumberedAt(clusters, i) && NumberedAt(clusters, j);
        assert Earlier(clusters, i) + {i} <= Earlier(clusters, j);
        SubsetCount(Earlier(clusters, i) + {i}, Earlier(clusters, j));
      }
    }
  }

  /** The final clusters are listed by least record, each series is numbered 1, 2, 3 and so on, and no two clusters
      share an id. */
  lemma FinalClustersAreListed(
    ids: set<RecordId>, auto: seq<Pair>, matches: set<Pair>, noMatches: set<Pair>, config: Config)
    requires Grounded(ids, auto, matches)
    ensures LeastRecordsAscend(FinalClusters(ids, auto, matches, noMatches, config))
    ensures NumberedBySeries(FinalClusters(ids, auto, matches, noMatches, config))
    ensures IdsDiffer(FinalClusters(ids, auto, matches, noMatches, config))
  {
    var part := HumanPass(ids, auto, matches, noMatches, config).part;
    HumanPassIsCanonical(ids, auto, matches, noMatches, config);
    ComponentsAreLedInOrder(part);
    ReviewClustersAreListed(
      ComponentList(part), Chosen(auto, AutoPass(ids, auto, noMatches, config).taken), SortedPairs(matches),
      config.severe);
    NumbersDiffer(FinalClusters(ids, auto, matches, noMatches, config));
  }

  // ---- automatic clusters: one series over all components --------------------------------------------------------------

  /** The components whose least record is smaller, small ones included. */
  ghost function LedBefore(p: Partition, x: RecordId): set<RecordId> {
    set name | name in ClassNames(p) && name < x
  }

  /** Each cluster is numbered by its place among all components. */
  ghost predicate NumberedByPlace(clusters: seq<EntityCluster>, p: Partition) {
    forall c :: c in clusters ==> c.members != [] && c.id == AutoCluster(|LedBefore(p, c.members[0])| + 1)
  }

  lemma {:induction false} AscendingHasSize(s: seq<RecordId>)
    requires AscendingIds(s)
    ensures |IdSet(s)| == |s|
    decreases |s|
  {
    if s != [] {
      var n := |s| - 1;
      AscendingHasSize(s[..n]);
      assert s == s[..n] + [s[n]];
      assert IdSet(s) == IdSet(s[..n]) + {s[n]};
    }
  }

  lemma PlaceIsCounted(p: Partition, k: nat)
    requires Canonical(p) && k < |ComponentList(p)|
    ensures ComponentList(p)[k] != [] && |LedBefore(p, ComponentList(p)[k][0])| == k
  {
    var names := SortedIds(ClassNames(p));
    LedByItsName(p, k);
    SeenSoFar(ClassNames(p), names, k);
    AscendingHasSize(names[..k]);
    assert LedBefore(p, names[k]) == IdSet(names[..k]);
  }

  lemma {:induction false} EntityClustersAscend(
    components: seq<seq<RecordId>>, accepted: seq<Pair>, severe: set<Pair>)
    requires LedInOrder(components)
    ensures LeastRecordsAscend(EntityClusters(components, accepted, severe))
    decreases |components|
  {
    if components != [] {
      var n := |components| - 1;
      var front := EntityClusters(components[..n], accepted, severe);
      EntityClustersAscend(components[..n], accepted, severe);
      if |components[n]| >= 2 {
        forall c | c in front
          ensures c.members != [] && c.members[0] < components[n][0]
        {
          ClusterComesFrom(components[..n], accepted, severe, c);
          var k :| 0 <= k < n && components[..n][k] == c.members;
          assert components[k][0] < components[n][0];
        }
        AscendOneMore(front, EntityCluster(AutoCluster(|components|), components[n],
                                           Within(accepted, IdSet(components[n])), Blocked(IdSet(components[n]), severe)));
      } else {
        assert front + [] == front;
      }
    }
  }

  lemma {:induction false} PlaceOfCluster(
    components: seq<seq<RecordId>>, accepted: seq<Pair>, severe: set<Pair>, c: EntityCluster) returns (k: nat)
    requires c in EntityClusters(components, accepted, severe)
    ensures k < |components| && components[k] == c.members && c.id == AutoCluster(k + 1)
    decreases |components|
  {
    var n := |components| - 1;
    if c in EntityClusters(components[..n], accepted, severe) {
      k := PlaceOfCluster(components[..n], accepted, severe, c);
    } else {
      k := n;
    }
  }

  lemma PlacesDiffer(clusters: seq<EntityCluster>, p: Partition)
    requires LeastRecordsAscend(clusters) && NumberedByPlace(clusters, p)
    requires forall c :: c in clusters ==> c.members != [] && c.members[0] in ClassNames(p)
    ensures IdsDiffer(clusters)
  {
    forall i, j | 0 <= i < j < |clusters|
      ensures clusters[i].id != clusters[j].id
    {
      var x, y := clusters[i].members[0], clusters[j].members[0];
      assert clusters[i] in clusters && clusters[j] in clusters;
      assert LedBefore(p, x) + {x} <= LedBefore(p, y);
      SubsetCount(LedBefore(p, x) + {x}, LedBefore(p, y));
    }
  }

  /** Automatic clusters are listed by least record too, each numbered by its place among all components, and no two
      share an id. */
  lemma AutomaticClustersAreListed(p: Partition, accepted: seq<Pair>, severe: set<Pair>)
    requires Canonical(p)
    ensures LeastRecordsAscend(EntityClusters(ComponentList(p), accepted, severe))
    ensures NumberedByPlace(EntityClusters(ComponentList(p), accepted, severe), p)
    ensures IdsDiffer(EntityClusters(ComponentList(p), accepted, severe))
  {
    var clusters := EntityClusters(ComponentList(p), accepted, severe);
    ComponentsAreLedInOrder(p);
    EntityClustersAscend(ComponentList(p), accepted, severe);
    forall c | c in clusters
      ensures c.members != [] && c.members[0] in ClassNames(p)
      ensures c.id == AutoCluster(|LedBefore(p, c.members[0])| + 1)
    {
      var k := PlaceOfCluster(ComponentList(p), accepted, severe, c);
      PlaceIsCounted(p, k);
      LedByItsName(p, k);
      assert SortedIds(ClassNames(p))[k] in SortedIds(ClassNames(p));
    }
    PlacesDiffer(clusters, p);
  }
}
