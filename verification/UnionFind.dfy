/** The two id-ordered union-find structures: recursive find with full compression, and find with path
    halving. Both keep every parent link pointing at an id no larger than the node's own. */
module UnionFind {
  import opened Records
  import opened Partitions

  type ParentMap = map<RecordId, RecordId>

  predicate Link(parent: ParentMap, x: RecordId, y: RecordId) {
    x in parent && parent[x] == y
  }

  ghost predicate OrderedById(parent: ParentMap) {
    forall x, y {:trigger Link(parent, x, y)} :: Link(parent, x, y) ==> y in parent && y <= x
  }

  /** Parent links stay inside the classes of `p`, and a node linked to itself names its class. */
  ghost predicate Represents(parent: ParentMap, p: Partition) {
    && p.Keys == parent.Keys
    && forall x, y {:trigger Link(parent, x, y)} :: Link(parent, x, y) ==>
         Same(p, x, y) && (x == y ==> Names(p, x, x))
  }

  /** Following parent links from `x` leads down to the one member linked to itself. */
  lemma {:induction false} LinksLeadToName(parent: ParentMap, p: Partition, x: RecordId)
    requires OrderedById(parent) && Represents(parent, p) && x in parent
    ensures p[x] <= x && Link(parent, p[x], p[x])
    decreases x
  {
    assert Link(parent, x, parent[x]);
    if parent[x] != x {
      LinksLeadToName(parent, p, parent[x]);
    }
  }

  lemma RepresentedIsCanonical(parent: ParentMap, p: Partition)
    requires OrderedById(parent) && Represents(parent, p)
    ensures Canonical(p)
  {
    forall x, name | Names(p, x, name)
      ensures name <= x && Names(p, name, name)
    {
      LinksLeadToName(parent, p, x);
    }
  }

  /** A forest represents only one partition. */
  lemma {:induction false} RepresentedIsUnique(parent: ParentMap, p: Partition, q: Partition, x: RecordId)
    requires OrderedById(parent) && Represents(parent, p) && Represents(parent, q) && x in parent
    ensures p[x] == q[x]
    decreases x
  {
    assert Link(parent, x, parent[x]);
    if parent[x] != x {
      RepresentedIsUnique(parent, p, q, parent[x]);
    }
  }

  /** Re-pointing a node lower down its own class changes no class. */
  lemma CompressKeepsClasses(parent: ParentMap, p: Partition, node: RecordId, target: RecordId)
    requires OrderedById(parent) && Represents(parent, p)
    requires Same(p, node, target) && target < node
    ensures OrderedById(parent[node := target]) && Represents(parent[node := target], p)
  {
    var shorter := parent[node := target];
    assert shorter.Keys == parent.Keys;
    forall x, y | Link(shorter, x, y)
      ensures y in shorter && y <= x && Same(p, x, y) && (x == y ==> Names(p, x, x))
    {
      assert (x == node && y == target) || Link(parent, x, y);
    }
  }

  /** Linking the larger of two roots below the smaller is a union of their classes. */
  lemma LinkMergesClasses(parent: ParentMap, p: Partition, e: Pair, low: RecordId, high: RecordId)
    requires OrderedById(parent) && Represents(parent, p)
    requires Inside(e, p.Keys) && low < high
    requires (p[e.a] == low && p[e.b] == high) || (p[e.a] == high && p[e.b] == low)
    ensures OrderedById(parent[high := low]) && Represents(parent[high := low], Merge(p, e))
  {
    LinksLeadToName(parent, p, e.a);
    LinksLeadToName(parent, p, e.b);
    var linked := parent[high := low];
    assert linked.Keys == parent.Keys;
    forall x, y | Link(linked, x, y)
      ensures y in linked && y <= x && Same(Merge(p, e), x, y) && (x == y ==> Names(Merge(p, e), x, x))
    {
      assert (x == high && y == low) || Link(parent, x, y);
    }
  }

  lemma UnionOfOneClass(p: Partition, e: Pair)
    requires Inside(e, p.Keys) && p[e.a] == p[e.b]
    ensures Merge(p, e) == p
  {
  }

  /** The members of `p` whose class is named in `targets`. */
  function Under(p: Partition, targets: set<RecordId>): set<RecordId> {
    set y | y in p && p[y] in targets
  }

  lemma UnderOneRoot(p: Partition, x: RecordId)
    requires x in p
    ensures Under(p, {p[x]}) == Component(p, x)
  {
  }

  lemma UnderBothRoots(p: Partition, e: Pair)
    requires Inside(e, p.Keys)
    ensures Under(p, {p[e.a], p[e.b]}) == Proposed(p, e)
  {
  }

  /** Recursive find with full compression. */
  class CompressingUnionFind {
    var parent: ParentMap
    ghost var classes: Partition

    ghost predicate Valid()
      reads this
    {
      OrderedById(parent) && Represents(parent, classes)
    }

    constructor (members: set<RecordId>)
      ensures Valid() && classes == Discrete(members)
    {
      parent := map member | member in members :: member;
      classes := Discrete(members);
    }

    method Find(node: RecordId) returns (root: RecordId)
      requires Valid() && node in parent
      modifies this
      ensures Valid() && classes == old(classes)
      ensures root == classes[node] && root <= node
      decreases node
    {
      LinksLeadToName(parent, classes, node);
      assert Link(parent, node, parent[node]);
      if parent[node] != node {
        var above := Find(parent[node]);
        CompressKeepsClasses(parent, classes, node, above);
        parent := parent[node := above];
      }
      root := parent[node];
    }

    /** Joins two classes; false when they already were one. */
    method Union(e: Pair) returns (joined: bool)
      requires Valid() && Inside(e, parent.Keys)
      modifies this
      ensures Valid() && classes == Merge(old(classes), e)
      ensures joined <==> !Same(old(classes), e.a, e.b)
    {
      var rootLeft := Find(e.a);
      var rootRight := Find(e.b);
      if rootLeft == rootRight {
        UnionOfOneClass(classes, e);
        return false;
      }
      if rootLeft < rootRight {
        LinkMergesClasses(parent, classes, e, rootLeft, rootRight);
        parent := parent[rootRight := rootLeft];
      } else {
        LinkMergesClasses(parent, classes, e, rootRight, rootLeft);
        parent := parent[rootLeft := rootRight];
      }
      classes := Merge(classes, e);
      joined := true;
    }

    /** The members whose root is one of `targets`. */
    method MembersUnder(targets: set<RecordId>) returns (members: set<RecordId>)
      requires Valid()
      modifies this
      ensures Valid() && classes == old(classes)
      ensures members == Under(classes, targets)
    {
      members := {};
      var todo := parent.Keys;
      while todo != {}
        invariant Valid() && classes == old(classes) && todo <= parent.Keys
        invariant members == set y | y in parent.Keys - todo && classes[y] in targets
        decreases todo
      {
        var member :| member in todo;
        todo := todo - {member};
        var root := Find(member);
        if root in targets {
          members := members + {member};
        }
      }
    }

    method MembersOf(node: RecordId) returns (members: set<RecordId>)
      requires Valid() && node in parent
      modifies this
      ensures Valid() && classes == old(classes)
      ensures members == Component(classes, node)
    {
      var root := Find(node);
      UnderOneRoot(classes, node);
      members := MembersUnder({root});
    }

    /** `find` of every member. */
    method Roots() returns (roots: Partition)
      requires Valid()
      modifies this
      ensures Valid() && classes == old(classes)
      ensures roots == classes
    {
      roots := map[];
      var todo := parent.Keys;
      while todo != {}
        invariant Valid() && classes == old(classes) && todo <= parent.Keys
        invariant roots.Keys == parent.Keys - todo
        invariant forall y :: y in roots ==> roots[y] == classes[y]
        decreases todo
      {
        var member :| member in todo;
        todo := todo - {member};
        var root := Find(member);
        roots := roots[member := root];
      }
    }
  }

  /** Find with path halving, as the closures over one `parent` dictionary do it. */
  class HalvingUnionFind {
    var parent: ParentMap
    ghost var classes: Partition

    ghost predicate Valid()
      reads this
    {
      OrderedById(parent) && Represents(parent, classes)
    }

    constructor (members: set<RecordId>)
      ensures Valid() && classes == Discrete(members)
    {
      parent := map member | member in members :: member;
      classes := Discrete(members);
    }

    method Find(start: RecordId) returns (root: RecordId)
      requires Valid() && start in parent
      modifies this
      ensures Valid() && classes == old(classes)
      ensures root == classes[start]
    {
      var node := start;
      while parent[node] != node
        invariant Valid() && classes == old(classes)
        invariant node in parent && classes[node] == classes[start]
        decreases node
      {
        var next := parent[node];
        assert Link(parent, node, next) && Link(parent, next, parent[next]);
        CompressKeepsClasses(parent, classes, node, parent[next]);
        parent := parent[node := parent[next]];
        node := parent[node];
      }
      assert Link(parent, node, node);
      root := node;
    }

    /** The members of the two classes a union along `e` would join. */
    method ComponentMembers(e: Pair) returns (proposed: set<RecordId>)
      requires Valid() && Inside(e, parent.Keys)
      modifies this
      ensures Valid() && classes == old(classes)
      ensures proposed == Proposed(classes, e)
    {
      var leftRoot := Find(e.a);
      var rightRoot := Find(e.b);
      proposed := {};
      var todo := parent.Keys;
      while todo != {}
        invariant Valid() && classes == old(classes) && todo <= parent.Keys
        invariant proposed == set y | y in parent.Keys - todo && classes[y] in {leftRoot, rightRoot}
        decreases todo
      {
        var member :| member in todo;
        todo := todo - {member};
        var found := Find(member);
        if found in {leftRoot, rightRoot} {
          proposed := proposed + {member};
        }
      }
    }

    method Union(e: Pair)
      requires Valid() && Inside(e, parent.Keys)
      modifies this
      ensures Valid() && classes == Merge(old(classes), e)
    {
      var rootLeft := Find(e.a);
      var rootRight := Find(e.b);
      if rootLeft == rootRight {
        UnionOfOneClass(classes, e);
        return;
      }
      if rootLeft < rootRight {
        LinkMergesClasses(parent, classes, e, rootLeft, rootRight);
        parent := parent[rootRight := rootLeft];
      } else {
        LinkMergesClasses(parent, classes, e, rootRight, rootLeft);
        parent := parent[rootLeft := rootRight];
      }
      classes := Merge(classes, e);
    }

    /** `find` of every member. */
    method Roots() returns (roots: Partition)
      requires Valid()
      modifies this
      ensures Valid() && classes == old(classes)
      ensures roots == classes
    {
      roots := map[];
      var todo := parent.Keys;
      while todo != {}
        invariant Valid() && classes == old(classes) && todo <= parent.Keys
        invariant roots.Keys == parent.Keys - todo
        invariant forall y :: y in roots ==> roots[y] == classes[y]
        decreases todo
      {
        var member :| member in todo;
        todo := todo - {member};
        var root := Find(member);
        roots := roots[member := root];
      }
    }
  }
}
