/** Nodes and edges as the graph queries see them.  Identifiers and relations are numbers that stand for
    strings in their order. */
module GraphFacts {
  type Id = nat

  type Relation = nat

  datatype Node = Node(id: Id, detail: string)

  datatype Edge = Edge(source: Id, target: Id, relation: Relation)

  /** The order of edgeKey and pathEdgeKey: source, then target, then relation. */
  predicate KeyLess(a: Edge, b: Edge) {
    || a.source < b.source
    || (a.source == b.source && a.target < b.target)
    || (a.source == b.source && a.target == b.target && a.relation < b.relation)
  }

  predicate KeyAtMost(a: Edge, b: Edge) {
    a == b || KeyLess(a, b)
  }

  ghost predicate Ascending(edges: seq<Edge>) {
    forall i, j :: 0 <= i < j < |edges| ==> KeyAtMost(edges[i], edges[j])
  }

  ghost predicate StrictlyAscending(edges: seq<Edge>) {
    forall i, j :: 0 <= i < j < |edges| ==> KeyLess(edges[i], edges[j])
  }

  ghost predicate Increasing(ids: seq<Id>) {
    forall i, j :: 0 <= i < j < |ids| ==> ids[i] < ids[j]
  }

  lemma InsertedInOrder(sorted: seq<Edge>, i: nat, edge: Edge)
    requires Ascending(sorted) && i <= |sorted|
    requires forall j :: 0 <= j < i ==> KeyLess(sorted[j], edge)
    requires i < |sorted| ==> !KeyLess(sorted[i], edge)
    ensures Ascending(sorted[..i] + [edge] + sorted[i..])
    ensures StrictlyAscending(sorted) && edge !in sorted ==> StrictlyAscending(sorted[..i] + [edge] + sorted[i..])
  {
    var more := sorted[..i] + [edge] + sorted[i..];
    forall j | i < j < |more|
      ensures KeyAtMost(edge, more[j])
    {
      assert more[j] == sorted[j - 1] && KeyAtMost(sorted[i], sorted[j - 1]);
    }
    forall a, b | 0 <= a < b < |more|
      ensures KeyAtMost(more[a], more[b])
      ensures StrictlyAscending(sorted) && edge !in sorted ==> KeyLess(more[a], more[b])
    {
      if a == i {
        assert more[b] == sorted[b - 1];
      } else if b == i {
        assert more[a] == sorted[a];
      } else {
        var c, d := if a < i then a else a - 1, if b < i then b else b - 1;
        assert more[a] == sorted[c] && more[b] == sorted[d];
        hide KeyLess;
      }
    }
  }

  method InsertEdge(sorted: seq<Edge>, edge: Edge) returns (more: seq<Edge>)
    requires Ascending(sorted)
    ensures Ascending(more)
    ensures StrictlyAscending(sorted) && edge !in sorted ==> StrictlyAscending(more)
    ensures forall e :: e in more <==> e in sorted || e == edge
  {
    var i := 0;
    while i < |sorted| && KeyLess(sorted[i], edge)
      invariant 0 <= i <= |sorted|
      invariant forall j :: 0 <= j < i ==> KeyLess(sorted[j], edge)
    {
      i := i + 1;
    }
    hide KeyLess, Ascending, StrictlyAscending;
    InsertedInOrder(sorted, i, edge);
    more := sorted[..i] + [edge] + sorted[i..];
    assert sorted == sorted[..i] + sorted[i..];
  }

  method SortEdges(edges: seq<Edge>) returns (sorted: seq<Edge>)
    ensures Ascending(sorted)
    ensures forall e :: e in sorted <==> e in edges
  {
    sorted := [];
    for i := 0 to |edges|
      invariant Ascending(sorted)
      invariant forall e :: e in sorted <==> e in edges[..i]
    {
      sorted := InsertEdge(sorted, edges[i]);
    }
  }

  /** sortedEdges: the values of a map keyed by the edge key. */
  method SortedEdges(edges: set<Edge>) returns (sorted: seq<Edge>)
    ensures StrictlyAscending(sorted)
    ensures forall e :: e in sorted <==> e in edges
  {
    sorted := [];
    var remaining := edges;
    while remaining != {}
      invariant remaining <= edges
      invariant StrictlyAscending(sorted)
      invariant forall e :: e in sorted <==> e in edges - remaining
      decreases remaining
    {
      var edge :| edge in remaining;
      remaining := remaining - {edge};
      sorted := InsertEdge(sorted, edge);
    }
  }

  ghost predicate IsLeast(id: Id, ids: set<Id>) {
    id in ids && forall other :: other in ids ==> id <= other
  }

  lemma LeastExists(ids: set<Id>)
    requires ids != {}
    ensures exists id :: IsLeast(id, ids)
  {
    var first :| first in ids;
    if ids == {first} {
      assert IsLeast(first, ids);
    } else {
      var rest := ids - {first};
      LeastExists(rest);
      var least :| IsLeast(least, rest);
      assert ids == rest + {first};
      assert IsLeast(if first < least then first else least, ids);
    }
  }

  method Least(ids: set<Id>) returns (least: Id)
    requires ids != {}
    ensures IsLeast(least, ids)
  {
    LeastExists(ids);
    least :| least in ids && forall other :: other in ids ==> least <= other;
  }

  /** uniqueSortedStrings */
  method UniqueSorted(ids: set<Id>) returns (sorted: seq<Id>)
    ensures Increasing(sorted) && |sorted| == |ids|
    ensures forall id :: id in sorted <==> id in ids
  {
    sorted := [];
    var remaining := ids;
    while remaining != {}
      invariant remaining <= ids
      invariant Increasing(sorted) && |sorted| + |remaining| == |ids|
      invariant forall id, other :: id in sorted && other in remaining ==> id < other
      invariant forall id :: id in sorted <==> id in ids - remaining
      decreases remaining
    {
      var least := Least(remaining);
      assert forall i :: 0 <= i < |sorted| ==> sorted[i] in sorted;
      remaining := remaining - {least};
      sorted := sorted + [least];
    }
  }
}
