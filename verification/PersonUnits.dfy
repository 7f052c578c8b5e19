/** The connected components of hard-negative pairs, as the units a split assignment moves whole. */
module PersonUnits {
  import opened Results
  import opened Records
  import opened Partitions
  import opened Resolution
  import opened UnionFind
  import opened PersonUnionFinds

  type PersonPair = (PersonId, PersonId)

  function People(persons: seq<PersonId>): set<PersonId> {
    set x | x in persons
  }

  /** The hard-negative pairs between two different known people, as edges. */
  function Edges(pairs: seq<PersonPair>, people: set<PersonId>): (edges: seq<Pair>)
    ensures Known(edges, people)
  {
    if pairs == [] then [] else
      var last := pairs[|pairs| - 1];
      Edges(pairs[..|pairs| - 1], people) +
      if last.0 in people && last.1 in people && last.0 != last.1 then [Ordered(last.0, last.1)] else []
  }

  lemma {:induction false} EdgeComesFrom(pairs: seq<PersonPair>, people: set<PersonId>, e: Pair)
    ensures e in Edges(pairs, people) <==>
      exists i :: 0 <= i < |pairs| && Inside(e, people) && (pairs[i] == (e.a, e.b) || pairs[i] == (e.b, e.a))
    decreases |pairs|
  {
    if pairs != [] {
      var n := |pairs| - 1;
      EdgeComesFrom(pairs[..n], people, e);
      assert forall i :: 0 <= i < n ==> pairs[..n][i] == pairs[i];
      if Inside(e, people) && (pairs[n] == (e.a, e.b) || pairs[n] == (e.b, e.a)) {
        assert Edges(pairs, people)[|Edges(pairs, people)| - 1] == e;
      }
    }
  }

  /** People joined by hard-negative pairs among the people assigned. */
  ghost predicate MustStayTogether(persons: seq<PersonId>, pairs: seq<PersonPair>, x: PersonId, y: PersonId) {
    Connected(EdgeSet(Edges(pairs, People(persons))), x, y)
  }

  function Components(persons: seq<PersonId>, pairs: seq<PersonPair>): Partition {
    MergeAll(Discrete(People(persons)), Edges(pairs, People(persons)))
  }

  /** How many units hold `x`. */
  function Holds(units: seq<Unit>, x: PersonId): nat {
    if units == [] then 0 else
      Holds(units[..|units| - 1], x) + if x in units[|units| - 1] then 1 else 0
  }

  ghost predicate IsClass(p: Partition, unit: Unit) {
    exists x :: x in p && unit == Component(p, x)
  }

  /** The units are the connected components, each person in exactly one of them. */
  ghost predicate AreUnits(units: seq<Unit>, persons: seq<PersonId>, pairs: seq<PersonPair>) {
    var p := Components(persons, pairs);
    && (forall i :: 0 <= i < |units| ==> IsClass(p, units[i]))
    && (forall x :: Holds(units, x) == if x in persons then 1 else 0)
  }

  method PairPersonUnits(persons: seq<PersonId>, pairs: seq<PersonPair>) returns (units: seq<Unit>)
    ensures AreUnits(units, persons, pairs)
  {
    var people := People(persons);
    var unionFind := new PersonUnionFind(people);
    JoinPairs(unionFind, pairs, people);
    units := CollectUnits(unionFind, persons);
  }

  /** The union loop over the pairs whose people are both known. */
  method JoinPairs(unionFind: PersonUnionFind, pairs: seq<PersonPair>, people: set<PersonId>)
    requires unionFind.Valid() && unionFind.classes == Discrete(people)
    modifies unionFind
    ensures unionFind.Valid() && unionFind.classes == MergeAll(Discrete(people), Edges(pairs, people))
  {
    var n := 0;
    while n < |pairs|
      invariant n <= |pairs| && unionFind.Valid()
      invariant unionFind.classes == MergeAll(Discrete(people), Edges(pairs[..n], people))
    {
      var left, right := pairs[n].0, pairs[n].1;
      OneMorePair(pairs, people, n);
      if left in people && right in people {
        unionFind.Union(left, right);
      }
      n := n + 1;
    }
    assert pairs[..n] == pairs;
  }

  lemma OneMorePair(pairs: seq<PersonPair>, people: set<PersonId>, n: nat)
    requires n < |pairs|
    ensures
      var before := MergeAll(Discrete(people), Edges(pairs[..n], people));
      var left, right := pairs[n].0, pairs[n].1;
      MergeAll(Discrete(people), Edges(pairs[..n + 1], people)) ==
        if left in people && right in people && left != right then Merge(before, Ordered(left, right)) else before
  {
    assert pairs[..n + 1][..n] == pairs[..n];
    var edges := Edges(pairs[..n], people);
    var left, right := pairs[n].0, pairs[n].1;
    if left in people && right in people && left != right {
      assert (edges + [Ordered(left, right)])[..|edges|] == edges;
    } else {
      assert edges + [] == edges;
    }
  }

  /** People seen so far, grouped under the root `find` answers for them; every root opens one group. */
  ghost predicate GroupedUnder(
    parent: ParentMap, p: Partition, seen: set<PersonId>, order: seq<PersonId>, groups: map<PersonId, Unit>)
  {
    && (forall r :: r in order <==> r in groups)
    && (forall i, j :: 0 <= i < j < |order| ==> order[i] != order[j])
    && (forall r :: r in groups ==> Link(parent, r, r) && r in p && groups[r] == Component(p, r) * seen)
    && (forall x :: x in seen ==> exists r :: r in groups && Same(p, x, r))
  }

  /** `setdefault(root, set()).add(person)` */
  function AddPerson(order: seq<PersonId>, groups: map<PersonId, Unit>, person: PersonId, root: PersonId)
    : (seq<PersonId>, map<PersonId, Unit>)
  {
    if root in groups then (order, groups[root := groups[root] + {person}])
    else (order + [root], groups[root := {person}])
  }

  method GroupPeople(unionFind: PersonUnionFind, persons: seq<PersonId>)
    returns (order: seq<PersonId>, groups: map<PersonId, Unit>)
    requires unionFind.Valid() && unionFind.classes.Keys == People(persons)
    modifies unionFind`parent
    ensures unionFind.Valid()
    ensures GroupedUnder(unionFind.parent, unionFind.classes, People(persons), order, groups)
  {
    order, groups := [], map[];
    var n := 0;
    while n < |persons|
      invariant n <= |persons| && unionFind.Valid()
      invariant GroupedUnder(unionFind.parent, unionFind.classes, People(persons[..n]), order, groups)
    {
      assert persons[n] in unionFind.classes;
      ghost var before := unionFind.parent;
      var root := unionFind.Find(persons[n]);
      GroupGrows(unionFind.parent, before, unionFind.classes, persons, n, order, groups, persons[n], root);
      var grown := AddPerson(order, groups, persons[n], root);
      order, groups := grown.0, grown.1;
      n := n + 1;
    }
    assert persons[..n] == persons;
  }

  function UnitList(order: seq<PersonId>, groups: map<PersonId, Unit>): (units: seq<Unit>)
    requires forall k :: 0 <= k < |order| ==> order[k] in groups
    ensures |units| == |order| && forall k :: 0 <= k < |order| ==> units[k] == groups[order[k]]
  {
    seq(|order|, k requires 0 <= k < |order| => groups[order[k]])
  }

  method CollectUnits(unionFind: PersonUnionFind, persons: seq<PersonId>) returns (units: seq<Unit>)
    requires unionFind.Valid() && unionFind.classes.Keys == People(persons)
    modifies unionFind`parent
    ensures unionFind.classes == old(unionFind.classes)
    ensures forall i :: 0 <= i < |units| ==> IsClass(unionFind.classes, units[i])
    ensures forall x :: Holds(units, x) == if x in persons then 1 else 0
  {
    var order, groups := GroupPeople(unionFind, persons);
    units := UnitList(order, groups);
    GroupsAreUnits(unionFind.parent, unionFind.classes, persons, order, groups, units);
  }

  lemma GroupsAreUnits(
    parent: ParentMap, p: Partition, persons: seq<PersonId>, order: seq<PersonId>, groups: map<PersonId, Unit>,
    units: seq<Unit>)
    requires GroupedUnder(parent, p, People(persons), order, groups) && Rooted(parent, p) && p.Keys == People(persons)
    requires |units| == |order| && forall k :: 0 <= k < |order| ==> order[k] in groups && units[k] == groups[order[k]]
    ensures forall i :: 0 <= i < |units| ==> IsClass(p, units[i])
    ensures forall x :: Holds(units, x) == if x in persons then 1 else 0
  {
    GroupsAreClasses(parent, p, persons, order, groups, units);
    GroupsAreDisjoint(parent, p, persons, order, groups, units);
    GroupsCoverAll(parent, p, persons, order, groups, units);
    UnitsAreComponents(units, p, persons);
  }

  /** One person more: the part of their class seen so far grows by them, and no other class's part changes. */
  lemma ClassPartGrows(
    parent: ParentMap, p: Partition, seen: set<PersonId>, person: PersonId, root: PersonId, r: PersonId)
    requires Rooted(parent, p) && Link(parent, root, root) && Link(parent, r, r) && r in p
    requires Same(p, person, root)
    ensures Component(p, r) * (seen + {person}) == Component(p, r) * seen + if r == root then {person} else {}
  {
    if r != root {
      assert !Same(p, r, root);
      assert person !in Component(p, r);
    }
  }

  lemma FirstOfItsClass(
    parent: ParentMap, before: ParentMap, p: Partition, seen: set<PersonId>, order: seq<PersonId>,
    groups: map<PersonId, Unit>, root: PersonId)
    requires Rooted(parent, p) && GroupedUnder(before, p, seen, order, groups)
    requires forall y :: Link(before, y, y) ==> Link(parent, y, y)
    requires Link(parent, root, root) && root in p && root !in groups
    ensures Component(p, root) * seen == {}
  {
    forall x | x in Component(p, root)
      ensures x !in seen
    {
      if x in seen {
        NewRootIsUnseen(parent, before, p, seen, order, groups, root, x);
      }
    }
  }

  lemma GroupsGrow(
    parent: ParentMap, before: ParentMap, p: Partition, seen: set<PersonId>, order: seq<PersonId>,
    groups: map<PersonId, Unit>, person: PersonId, root: PersonId, r: PersonId)
    requires person in p && Rooted(parent, p) && GroupedUnder(before, p, seen, order, groups)
    requires forall x :: Link(before, x, x) ==> Link(parent, x, x)
    requires Link(parent, root, root) && Same(p, person, root)
    requires r in AddPerson(order, groups, person, root).1
    ensures Link(parent, r, r) && r in p
    ensures AddPerson(order, groups, person, root).1[r] == Component(p, r) * (seen + {person})
  {
    if r in groups {
      assert Link(before, r, r);
    } else {
      FirstOfItsClass(parent, before, p, seen, order, groups, root);
    }
    ClassPartGrows(parent, p, seen, person, root, r);
  }

  lemma GroupGrows(
    parent: ParentMap, before: ParentMap, p: Partition, persons: seq<PersonId>, n: nat, order: seq<PersonId>,
    groups: map<PersonId, Unit>, person: PersonId, root: PersonId)
    requires n < |persons| && persons[n] == person && person in p && Rooted(parent, p)
    requires GroupedUnder(before, p, People(persons[..n]), order, groups)
    requires forall x :: Link(before, x, x) ==> Link(parent, x, x)
    requires Link(parent, root, root) && Same(p, person, root)
    ensures GroupedUnder(parent, p, People(persons[..n + 1]),
                         AddPerson(order, groups, person, root).0, AddPerson(order, groups, person, root).1)
  {
    var seen, now := People(persons[..n]), People(persons[..n + 1]);
    var groups' := AddPerson(order, groups, person, root).1;
    assert persons[..n + 1] == persons[..n] + [person];
    assert now == seen + {person};
    forall r | r in groups'
      ensures Link(parent, r, r) && r in p && groups'[r] == Component(p, r) * now
    {
      GroupsGrow(parent, before, p, seen, order, groups, person, root, r);
    }
    forall x | x in now
      ensures exists r :: r in groups' && Same(p, x, r)
    {
      if x in seen {
        var r :| r in groups && Same(p, x, r);
        assert r in groups';
      } else {
        assert root in groups' && Same(p, x, root);
      }
    }
  }

  lemma NewRootIsUnseen(
    parent: ParentMap, before: ParentMap, p: Partition, seen: set<PersonId>, order: seq<PersonId>,
    groups: map<PersonId, Unit>, root: PersonId, x: PersonId)
    requires Rooted(parent, p) && GroupedUnder(before, p, seen, order, groups)
    requires forall y :: Link(before, y, y) ==> Link(parent, y, y)
    requires Link(parent, root, root) && x in seen && Same(p, x, root)
    ensures root in groups
  {
    var r :| r in groups && Same(p, x, r);
    assert Link(parent, r, r);
  }

  lemma GroupsAreClasses(
    parent: ParentMap, p: Partition, persons: seq<PersonId>, order: seq<PersonId>, groups: map<PersonId, Unit>,
    units: seq<Unit>)
    requires GroupedUnder(parent, p, People(persons), order, groups) && Rooted(parent, p) && p.Keys == People(persons)
    requires |units| == |order| && forall k :: 0 <= k < |order| ==> order[k] in groups && units[k] == groups[order[k]]
    ensures forall i :: 0 <= i < |units| ==> IsClass(p, units[i])
    ensures forall i :: 0 <= i < |units| ==> units[i] == Component(p, order[i])
  {
    forall i | 0 <= i < |units|
      ensures order[i] in p && units[i] == Component(p, order[i]) && IsClass(p, units[i])
    {
      assert Component(p, order[i]) * People(persons) == Component(p, order[i]);
    }
  }

  lemma GroupsAreDisjoint(
    parent: ParentMap, p: Partition, persons: seq<PersonId>, order: seq<PersonId>, groups: map<PersonId, Unit>,
    units: seq<Unit>)
    requires GroupedUnder(parent, p, People(persons), order, groups) && Rooted(parent, p) && p.Keys == People(persons)
    requires |units| == |order| && forall k :: 0 <= k < |order| ==> order[k] in groups && units[k] == groups[order[k]]
    ensures forall i, j :: 0 <= i < j < |units| ==> units[i] !! units[j]
  {
    forall i, j | 0 <= i < j < |units|
      ensures units[i] !! units[j]
    {
      assert order[i] in groups && order[j] in groups;
      assert Link(parent, order[i], order[i]) && Link(parent, order[j], order[j]);
      assert !Same(p, order[i], order[j]);
    }
  }

  lemma GroupsCoverAll(
    parent: ParentMap, p: Partition, persons: seq<PersonId>, order: seq<PersonId>, groups: map<PersonId, Unit>,
    units: seq<Unit>)
    requires GroupedUnder(parent, p, People(persons), order, groups) && Rooted(parent, p) && p.Keys == People(persons)
    requires |units| == |order| && forall k :: 0 <= k < |order| ==> order[k] in groups && units[k] == groups[order[k]]
    ensures forall x :: x in persons ==> exists i :: 0 <= i < |units| && x in units[i]
  {
    forall x | x in persons
      ensures exists i :: 0 <= i < |units| && x in units[i]
    {
      assert x in People(persons);
      var r :| r in groups && Same(p, x, r);
      assert r in order;
      var i :| 0 <= i < |order| && order[i] == r;
      assert x in units[i];
    }
  }

  lemma {:induction false} DisjointHoldOnce(units: seq<Unit>, x: PersonId)
    requires forall i, j :: 0 <= i < j < |units| ==> units[i] !! units[j]
    ensures Holds(units, x) == if exists i :: 0 <= i < |units| && x in units[i] then 1 else 0
    decreases |units|
  {
    if units != [] {
      var n := |units| - 1;
      DisjointHoldOnce(units[..n], x);
      if x in units[n] {
        assert forall i :: 0 <= i < n ==> x !in units[..n][i];
      } else if i :| 0 <= i < |units| && x in units[i] {
        assert x in units[..n][i];
      }
    }
  }

  lemma UnitsAreComponents(units: seq<Unit>, p: Partition, persons: seq<PersonId>)
    requires p.Keys == People(persons)
    requires forall i :: 0 <= i < |units| ==> IsClass(p, units[i])
    requires forall i, j :: 0 <= i < j < |units| ==> units[i] !! units[j]
    requires forall x :: x in persons ==> exists i :: 0 <= i < |units| && x in units[i]
    ensures forall x :: Holds(units, x) == if x in persons then 1 else 0
  {
    forall x
      ensures Holds(units, x) == if x in persons then 1 else 0
    {
      DisjointHoldOnce(units, x);
      if i :| 0 <= i < |units| && x in units[i] {
        var y :| y in p && units[i] == Component(p, y);
        assert x in p;
      }
    }
  }
}
