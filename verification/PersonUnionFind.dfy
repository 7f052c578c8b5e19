/** Units of people that must stay together: connected components of hard-negative pairs, built by a
    union-find whose links follow no order on ids. A ghost rank shows that `find` still terminates. */
module PersonUnionFinds {
  import opened Records
  import opened Partitions
  import opened UnionFind

  type PersonId = RecordId

  type Unit = set<PersonId>

  type Rank = map<PersonId, nat>

  function RankOf(rank: Rank, x: PersonId): nat {
    if x in rank then rank[x] else 0
  }

  /** Every proper link leads to a lower rank. */
  ghost predicate Falls(parent: ParentMap, rank: Rank) {
    forall x, y {:trigger Link(parent, x, y)} :: Link(parent, x, y) ==>
      y in parent && (x != y ==> RankOf(rank, y) < RankOf(rank, x))
  }

  /** Links stay inside classes, and no class has two members linked to themselves. */
  ghost predicate Rooted(parent: ParentMap, p: Partition) {
    && p.Keys == parent.Keys
    && (forall x, y {:trigger Link(parent, x, y)} :: Link(parent, x, y) ==> Same(p, x, y))
    && (forall x, y {:trigger Link(parent, x, x), Link(parent, y, y)} ::
          Link(parent, x, x) && Link(parent, y, y) && Same(p, x, y) ==> x == y)
  }

  lemma ShortcutStaysRooted(parent: ParentMap, rank: Rank, p: Partition, node: PersonId, target: PersonId)
    requires Falls(parent, rank) && Rooted(parent, p)
    requires Same(p, node, target) && RankOf(rank, target) < RankOf(rank, node) && parent[node] != node
    ensures Falls(parent[node := target], rank) && Rooted(parent[node := target], p)
  {
    var shorter := parent[node := target];
    assert shorter.Keys == parent.Keys;
    forall x, y | Link(shorter, x, y)
      ensures y in shorter && (x != y ==> RankOf(rank, y) < RankOf(rank, x)) && Same(p, x, y)
    {
      assert (x == node && y == target) || Link(parent, x, y);
    }
    forall x, y | Link(shorter, x, x) && Link(shorter, y, y) && Same(p, x, y)
      ensures x == y
    {
      assert Link(parent, x, x) && Link(parent, y, y);
    }
  }

  /** Ranks after linking `below` under `above`: the whole moved class rises past its new root. */
  ghost function Raised(rank: Rank, p: Partition, below: PersonId, above: PersonId): Rank {
    map x | x in p :: RankOf(rank, x) + if Same(p, x, below) then RankOf(rank, above) + 1 else 0
  }

  lemma LinkStaysRooted(parent: ParentMap, rank: Rank, p: Partition, e: Pair, below: PersonId, above: PersonId)
    requires Falls(parent, rank) && Rooted(parent, p) && Inside(e, p.Keys)
    requires Link(parent, below, below) && Link(parent, above, above) && below != above
    requires (Same(p, e.a, above) && Same(p, e.b, below)) || (Same(p, e.a, below) && Same(p, e.b, above))
    ensures Falls(parent[below := above], Raised(rank, p, below, above))
    ensures Rooted(parent[below := above], Merge(p, e))
  {
    var linked, raised, q := parent[below := above], Raised(rank, p, below, above), Merge(p, e);
    assert linked.Keys == parent.Keys;
    forall x, y | Link(linked, x, y)
      ensures y in linked && (x != y ==> RankOf(raised, y) < RankOf(raised, x)) && Same(q, x, y)
    {
      assert (x == below && y == above) || Link(parent, x, y);
      assert Same(p, above, below) ==> above == below;
    }
    forall x, y | Link(linked, x, x) && Link(linked, y, y) && Same(q, x, y)
      ensures x == y
    {
      assert x != below && y != below && Link(parent, x, x) && Link(parent, y, y);
      MergeJoins(p, e, x, y);
      assert Same(p, x, above) ==> x == above;
      assert Same(p, x, below) ==> x == below;
      assert Same(p, y, above) ==> y == above;
      assert Same(p, y, below) ==> y == below;
    }
  }

  class PersonUnionFind {
    var parent: ParentMap
    ghost var rank: Rank
    ghost var classes: Partition

    ghost predicate Valid()
      reads this
    {
      Falls(parent, rank) && Rooted(parent, classes)
    }

    constructor (persons: set<PersonId>)
      ensures Valid() && classes == Discrete(persons)
    {
      parent := map person | person in persons :: person;
      rank := map person | person in persons :: 0;
      classes := Discrete(persons);
    }

    /** Path halving; terminates because every step goes to a lower rank. */
    method Find(start: PersonId) returns (root: PersonId)
      requires Valid() && start in parent
      modifies this`parent
      ensures Valid()
      ensures Link(parent, root, root) && Same(classes, start, root)
      ensures forall x :: Link(old(parent), x, x) ==> Link(parent, x, x)
    {
      var node := start;
      while parent[node] != node
        invariant Valid() && Same(classes, start, node)
        invariant forall x :: Link(old(parent), x, x) ==> Link(parent, x, x)
        decreases RankOf(rank, node)
      {
        var next := parent[node];
        assert Link(parent, node, next) && Link(parent, next, parent[next]);
        ShortcutStaysRooted(parent, rank, classes, node, parent[next]);
        parent := parent[node := parent[next]];
        node := parent[node];
      }
      root := node;
    }

    method Union(left: PersonId, right: PersonId)
      requires Valid() && left in parent && right in parent
      modifies this
      ensures Valid()
      ensures classes == if left == right then old(classes) else Merge(old(classes), Ordered(left, right))
    {
      var rootLeft := Find(left);
      var rootRight := Find(right);
      if rootLeft != rootRight {
        assert left != right by {
          assert Same(classes, rootLeft, rootRight) ==> rootLeft == rootRight;
        }
        var e := Ordered(left, right);
        LinkStaysRooted(parent, rank, classes, e, rootRight, rootLeft);
        rank := Raised(rank, classes, rootRight, rootLeft);
        parent := parent[rootRight := rootLeft];
        classes := Merge(classes, e);
      } else if left != right {
        UnionOfOneClass(classes, Ordered(left, right));
      }
    }
  }
}
