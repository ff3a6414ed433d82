/** The shortest path between two nodes of a list of facts, and which one of several it is. */
module ShortestPath {
  import opened Wrappers
  import opened GraphFacts

  // ----- walks ------------------------------------------------------------------------------

  /** Where an edge leads from a node, or None when it does not touch the node that way. */
  function OtherEnd(id: Id, edge: Edge, undirected: bool): Option<Id> {
    if undirected && edge.target == id then Some(edge.source)
    else if edge.source == id then Some(edge.target)
    else None
  }

  /** The node ids and edges of a list of facts. */
  datatype Web = Web(ids: set<Id>, edges: set<Edge>, undirected: bool)

  function WebOf(nodes: seq<Node>, edges: seq<Edge>, undirected: bool): Web {
    Web((set node | node in nodes :: node.id), (set edge | edge in edges), undirected)
  }

  /** The edge leads from a to b inside the web. */
  predicate Leads(web: Web, a: Id, edge: Edge, b: Id) {
    edge in web.edges && OtherEnd(a, edge, web.undirected) == Some(b) && b in web.ids
  }

  /** A walk is a sequence of edges; this is the node it ends at. */
  function Follow(web: Web, source: Id, walk: seq<Edge>): Option<Id> {
    if walk == [] then if source in web.ids then Some(source) else None
    else
      var last := walk[|walk| - 1];
      match Follow(web, source, walk[..|walk| - 1])
      case None => None
      case Some(a) =>
        match OtherEnd(a, last, web.undirected)
        case None => None
        case Some(b) => if last in web.edges && b in web.ids then Some(b) else None
  }

  predicate IsWalk(web: Web, source: Id, walk: seq<Edge>, target: Id) {
    Follow(web, source, walk) == Some(target)
  }

  lemma Append(web: Web, source: Id, walk: seq<Edge>, a: Id, edge: Edge, b: Id)
    requires IsWalk(web, source, walk, a) && Leads(web, a, edge, b)
    ensures IsWalk(web, source, walk + [edge], b)
  {
    assert (walk + [edge])[..|walk|] == walk;
  }

  lemma OnlyEmptyWalk(web: Web, source: Id, target: Id)
    requires IsWalk(web, source, [], target)
    ensures target == source
  {}

  lemma LastStep(web: Web, source: Id, walk: seq<Edge>, b: Id) returns (a: Id)
    requires IsWalk(web, source, walk, b) && walk != []
    ensures IsWalk(web, source, walk[..|walk| - 1], a) && Leads(web, a, walk[|walk| - 1], b)
  {
    a := Follow(web, source, walk[..|walk| - 1]).value;
  }

  // ----- the order of walks -----------------------------------------------------------------

  /** At the first difference, the smaller edge key decides. */
  predicate LexLess(p: seq<Edge>, q: seq<Edge>)
    requires |p| == |q|
  {
    p != [] && (LexLess(p[..|p| - 1], q[..|q| - 1])
      || (p[..|p| - 1] == q[..|q| - 1] && KeyLess(p[|p| - 1], q[|q| - 1])))
  }

  /** Fewer edges first, then smaller edge keys. */
  predicate Before(p: seq<Edge>, q: seq<Edge>) {
    |p| < |q| || (|p| == |q| && LexLess(p, q))
  }

  predicate AtMost(p: seq<Edge>, q: seq<Edge>) {
    p == q || Before(p, q)
  }

  lemma {:induction false} LexTransitive(p: seq<Edge>, q: seq<Edge>, r: seq<Edge>)
    requires |p| == |q| == |r| && LexLess(p, q) && LexLess(q, r)
    ensures LexLess(p, r)
  {
    var last := |p| - 1;
    if LexLess(p[..last], q[..last]) && LexLess(q[..last], r[..last]) {
      LexTransitive(p[..last], q[..last], r[..last]);
    }
  }

  lemma {:induction false} LexIrreflexive(p: seq<Edge>)
    ensures !LexLess(p, p)
  {
    if p != [] {
      LexIrreflexive(p[..|p| - 1]);
    }
  }

  lemma BeforeTransitive(p: seq<Edge>, q: seq<Edge>, r: seq<Edge>)
    requires AtMost(p, q) && AtMost(q, r)
    ensures AtMost(p, r) && (Before(p, q) || Before(q, r) ==> Before(p, r))
  {
    if |p| == |q| == |r| && p != q && q != r {
      LexTransitive(p, q, r);
    }
  }

  lemma NotBoth(p: seq<Edge>, q: seq<Edge>)
    requires AtMost(p, q) && AtMost(q, p)
    ensures p == q
  {
    if p != q {
      LexTransitive(p, q, p);
      LexIrreflexive(p);
    }
  }

  lemma ExtendAtMost(p: seq<Edge>, q: seq<Edge>, edge: Edge)
    requires AtMost(p, q)
    ensures AtMost(p + [edge], q + [edge])
  {
    assert (p + [edge])[..|p|] == p && (q + [edge])[..|q|] == q;
  }

  lemma ExtendBefore(p: seq<Edge>, e: Edge, q: seq<Edge>, f: Edge)
    requires Before(p, q) || (p == q && KeyLess(e, f))
    ensures Before(p + [e], q + [f])
  {
    assert (p + [e])[..|p|] == p && (q + [f])[..|q|] == q;
  }

  /** No walk from source to target comes before this one. */
  ghost predicate First(web: Web, source: Id, walk: seq<Edge>, target: Id) {
    IsWalk(web, source, walk, target) && forall other :: IsWalk(web, source, other, target) ==> AtMost(walk, other)
  }

  /** There is one first walk, so it depends on the sets of ids and edges only. */
  lemma FirstIsUnique(web: Web, source: Id, p: seq<Edge>, q: seq<Edge>, target: Id)
    requires First(web, source, p, target) && First(web, source, q, target)
    ensures p == q
  {
    NotBoth(p, q);
  }

  // ----- the breadth-first search -----------------------------------------------------------

  /** What the queue has seen: log holds every enqueued id in order, the ids before head are expanded, and
      path is the walk to each id that the predecessors spell out. */
  datatype Trace = Trace(log: seq<Id>, head: nat, path: map<Id, seq<Edge>>)

  ghost predicate Logged(web: Web, source: Id, trace: Trace) {
    && trace.head <= |trace.log|
    && (forall id :: id in trace.log <==> id in trace.path)
    && (forall id :: id in trace.path ==> IsWalk(web, source, trace.path[id], id))
    && source in trace.path && trace.path[source] == []
  }

  ghost predicate InOrder(trace: Trace)
    requires forall id :: id in trace.log ==> id in trace.path
  {
    forall i, j :: 0 <= i < j < |trace.log| ==> Before(trace.path[trace.log[i]], trace.path[trace.log[j]])
  }

  /** Walks that come before every extension of p. */
  predicate Precedes(walk: seq<Edge>, p: seq<Edge>) {
    |walk| <= |p| || (|walk| == |p| + 1 && LexLess(walk[..|p|], p))
  }

  /** An expanded node has passed on its walk along every edge. */
  ghost predicate Relaxed(web: Web, path: map<Id, seq<Edge>>, a: Id)
    requires a in path
  {
    forall edge, b :: Leads(web, a, edge, b) ==> b in path && AtMost(path[b], path[a] + [edge])
  }

  ghost predicate Searched(web: Web, source: Id, trace: Trace) {
    && Logged(web, source, trace) && InOrder(trace)
    && (forall i :: 0 <= i < trace.head ==> Relaxed(web, trace.path, trace.log[i]))
    && (trace.head < |trace.log| ==>
      forall id :: id in trace.path ==> Precedes(trace.path[id], trace.path[trace.log[trace.head]]))
  }

  lemma QueueFrom(log: seq<Id>, head: nat)
    requires head <= |log|
    ensures forall i :: head <= i < |log| ==> log[i] in log[head..]
  {
    forall i | head <= i < |log|
      ensures log[i] in log[head..]
    {
      assert log[head..][i - head] == log[i];
    }
  }

  ghost predicate IsWaiting(web: Web, source: Id, trace: Trace, walk: seq<Edge>, m: Id)
    requires Logged(web, source, trace)
  {
    IsWalk(web, source, walk, m) && m in trace.log[trace.head..] && AtMost(trace.path[m], walk)
  }

  /** Some part of the walk ends at a node that is still in the queue and was reached as early. */
  ghost predicate PassesQueue(web: Web, source: Id, trace: Trace, walk: seq<Edge>)
    requires Logged(web, source, trace)
  {
    exists k, m :: 0 <= k < |walk| && IsWaiting(web, source, trace, walk[..k], m)
  }

  /** A walk whose earlier nodes are all expanded is not before the walk that was found. */
  lemma {:induction false} RelaxedWalk(web: Web, source: Id, trace: Trace, walk: seq<Edge>, target: Id)
    requires Searched(web, source, trace) && IsWalk(web, source, walk, target)
    ensures (target in trace.path && AtMost(trace.path[target], walk)) || PassesQueue(web, source, trace, walk)
  {
    hide Follow, InOrder, Precedes, Before;
    if walk == [] {
      OnlyEmptyWalk(web, source, target);
    } else {
      var last := |walk| - 1;
      var a := LastStep(web, source, walk, target);
      RelaxedWalk(web, source, trace, walk[..last], a);
      if a in trace.path && AtMost(trace.path[a], walk[..last]) {
        if a in trace.log[trace.head..] {
          assert IsWaiting(web, source, trace, walk[..last], a);
        } else {
          var i :| 0 <= i < |trace.log| && trace.log[i] == a;
          QueueFrom(trace.log, trace.head);
          assert Relaxed(web, trace.path, a);
          ExtendAtMost(trace.path[a], walk[..last], walk[last]);
          assert walk[..last] + [walk[last]] == walk;
          BeforeTransitive(trace.path[target], trace.path[a] + [walk[last]], walk);
        }
      } else {
        var k, m :| 0 <= k < |walk[..last]| && IsWaiting(web, source, trace, walk[..last][..k], m);
        assert walk[..last][..k] == walk[..k];
      }
    }
  }

  /** Once the target is next in the queue its walk is the first one. */
  lemma NextIsFirst(web: Web, source: Id, trace: Trace, target: Id)
    requires Searched(web, source, trace) && trace.head < |trace.log| && trace.log[trace.head] == target
    ensures First(web, source, trace.path[target], target)
  {
    forall walk | IsWalk(web, source, walk, target)
      ensures AtMost(trace.path[target], walk)
    {
      RelaxedWalk(web, source, trace, walk, target);
      if PassesQueue(web, source, trace, walk) {
        var k, m :| 0 <= k < |walk| && IsWaiting(web, source, trace, walk[..k], m);
        var j :| 0 <= j < |trace.log[trace.head..]| && trace.log[trace.head..][j] == m;
        assert trace.log[trace.head + j] == m;
        assert AtMost(trace.path[target], trace.path[m]);
        BeforeTransitive(trace.path[target], trace.path[m], walk[..k]);
        BeforeTransitive(trace.path[target], walk[..k], walk);
      }
    }
  }

  /** With an empty queue, a node that was not seen cannot be walked to. */
  lemma NothingLeft(web: Web, source: Id, trace: Trace, target: Id)
    requires Searched(web, source, trace) && trace.head == |trace.log| && target !in trace.path
    ensures forall walk :: !IsWalk(web, source, walk, target)
  {
    forall walk
      ensures !IsWalk(web, source, walk, target)
    {
      if IsWalk(web, source, walk, target) {
        RelaxedWalk(web, source, trace, walk, target);
      }
    }
  }

  // ----- expanding one node -----------------------------------------------------------------

  /** A walk found before, or through one of the edges already looked at. */
  predicate Reached(walk: seq<Edge>, p: seq<Edge>, edges: seq<Edge>) {
    Precedes(walk, p) || (|walk| == |p| + 1 && walk[..|p|] == p && walk[|p|] in edges)
  }

  /** The first j edges of the node at the head of the queue are done. */
  ghost predicate Expanding(web: Web, source: Id, trace: Trace, edges: seq<Edge>, j: nat)
    requires j <= |edges|
  {
    && Logged(web, source, trace) && InOrder(trace) && trace.head < |trace.log|
    && (forall i :: 0 <= i < trace.head ==> Relaxed(web, trace.path, trace.log[i]))
    && (forall edge, b :: edge in edges[..j] && Leads(web, trace.log[trace.head], edge, b) ==>
      b in trace.path && AtMost(trace.path[b], trace.path[trace.log[trace.head]] + [edge]))
    && (forall id :: id in trace.path ==> Reached(trace.path[id], trace.path[trace.log[trace.head]], edges[..j]))
  }

  lemma ReachedBefore(walk: seq<Edge>, p: seq<Edge>, edges: seq<Edge>, j: nat)
    requires Ascending(edges) && j < |edges| && Reached(walk, p, edges[..j])
    ensures AtMost(walk, p + [edges[j]])
    ensures walk != p + [edges[j]] ==> Before(walk, p + [edges[j]])
  {
    if |walk| == |p| + 1 {
      assert walk == walk[..|p|] + [walk[|p|]];
      if !LexLess(walk[..|p|], p) {
        assert KeyAtMost(walk[|p|], edges[j]);
      }
      if LexLess(walk[..|p|], p) || KeyLess(walk[|p|], edges[j]) {
        ExtendBefore(walk[..|p|], walk[|p|], p, edges[j]);
      }
    }
  }

  lemma ReachedStays(walk: seq<Edge>, p: seq<Edge>, edges: seq<Edge>, j: nat)
    requires j < |edges| && Reached(walk, p, edges[..j])
    ensures Reached(walk, p, edges[..j + 1])
  {
    assert edges[..j + 1] == edges[..j] + [edges[j]];
  }

  lemma PassOver(web: Web, source: Id, trace: Trace, edges: seq<Edge>, j: nat)
    requires j < |edges| && Ascending(edges) && Expanding(web, source, trace, edges, j)
    requires forall b :: Leads(web, trace.log[trace.head], edges[j], b) ==> b in trace.path
    ensures Expanding(web, source, trace, edges, j + 1)
  {
    var p := trace.path[trace.log[trace.head]];
    assert edges[..j + 1] == edges[..j] + [edges[j]];
    forall id | id in trace.path
      ensures Reached(trace.path[id], p, edges[..j + 1]) && AtMost(trace.path[id], p + [edges[j]])
    {
      ReachedStays(trace.path[id], p, edges, j);
      ReachedBefore(trace.path[id], p, edges, j);
    }
    hide Reached, Before, Leads, IsWalk, Relaxed;
  }

  function Discovered(trace: Trace, edge: Edge, b: Id): Trace
    requires trace.head < |trace.log| && trace.log[trace.head] in trace.path
  {
    Trace(trace.log + [b], trace.head, trace.path[b := trace.path[trace.log[trace.head]] + [edge]])
  }

  lemma DiscoverLogged(web: Web, source: Id, trace: Trace, edge: Edge, b: Id)
    requires Logged(web, source, trace) && trace.head < |trace.log| && b !in trace.path
    requires Leads(web, trace.log[trace.head], edge, b)
    ensures Logged(web, source, Discovered(trace, edge, b))
  {
    Append(web, source, trace.path[trace.log[trace.head]], trace.log[trace.head], edge, b);
    hide IsWalk, Leads;
  }

  lemma DiscoverRelaxed(web: Web, trace: Trace, edge: Edge, b: Id)
    requires trace.head < |trace.log| && b !in trace.path
    requires forall i :: 0 <= i < |trace.log| ==> trace.log[i] in trace.path
    requires forall i :: 0 <= i < trace.head ==> Relaxed(web, trace.path, trace.log[i])
    ensures var after := Discovered(trace, edge, b);
      forall i :: 0 <= i < after.head ==> after.log[i] in after.path && Relaxed(web, after.path, after.log[i])
  {
    hide AtMost, Leads;
  }

  lemma DiscoverIsLater(web: Web, source: Id, trace: Trace, edges: seq<Edge>, j: nat, b: Id, id: Id)
    requires j < |edges| && Ascending(edges) && Expanding(web, source, trace, edges, j)
    requires Leads(web, trace.log[trace.head], edges[j], b) && b !in trace.path && id in trace.path
    ensures Before(trace.path[id], trace.path[trace.log[trace.head]] + [edges[j]])
    ensures Reached(trace.path[id], trace.path[trace.log[trace.head]], edges[..j + 1])
  {
    var p := trace.path[trace.log[trace.head]];
    Append(web, source, p, trace.log[trace.head], edges[j], b);
    hide InOrder, Relaxed, AtMost;
    ReachedStays(trace.path[id], p, edges, j);
    ReachedBefore(trace.path[id], p, edges, j);
  }

  lemma DiscoverInOrder(trace: Trace, edge: Edge, b: Id)
    requires trace.head < |trace.log| && b !in trace.path
    requires forall id :: id in trace.log <==> id in trace.path
    requires InOrder(trace)
    requires forall id :: id in trace.path ==> Before(trace.path[id], trace.path[trace.log[trace.head]] + [edge])
    ensures var after := Discovered(trace, edge, b);
      (forall id :: id in after.log ==> id in after.path) && InOrder(after)
  {
    hide Before;
    var after := Discovered(trace, edge, b);
    forall i, j | 0 <= i < j < |after.log|
      ensures Before(after.path[after.log[i]], after.path[after.log[j]])
    {
      assert i < |trace.log| && after.log[i] == trace.log[i] && trace.log[i] in trace.log;
    }
  }

  lemma DiscoverDone(web: Web, trace: Trace, edges: seq<Edge>, j: nat, b: Id, p: seq<Edge>)
    requires j < |edges| && trace.head < |trace.log| && b !in trace.path
    requires Leads(web, trace.log[trace.head], edges[j], b)
    requires trace.log[trace.head] in trace.path && p == trace.path[trace.log[trace.head]]
    requires forall edge, c :: edge in edges[..j] && Leads(web, trace.log[trace.head], edge, c) ==>
      c in trace.path && AtMost(trace.path[c], p + [edge])
    ensures forall edge, c :: edge in edges[..j + 1] && Leads(web, trace.log[trace.head], edge, c) ==>
      c in Discovered(trace, edges[j], b).path && AtMost(Discovered(trace, edges[j], b).path[c], p + [edge])
  {
    assert edges[..j + 1] == edges[..j] + [edges[j]];
    hide Before;
    forall c | Leads(web, trace.log[trace.head], edges[j], c)
      ensures c == b
    {}
    hide Leads;
  }

  lemma Discover(web: Web, source: Id, trace: Trace, edges: seq<Edge>, j: nat, b: Id)
    requires j < |edges| && Ascending(edges) && Expanding(web, source, trace, edges, j)
    requires Leads(web, trace.log[trace.head], edges[j], b) && b !in trace.path
    ensures Expanding(web, source, Discovered(trace, edges[j], b), edges, j + 1)
  {
    hide Reached, Before, AtMost, Leads, IsWalk, Relaxed, InOrder, Ascending;
    var p, after := trace.path[trace.log[trace.head]], Discovered(trace, edges[j], b);
    forall id | id in trace.path
      ensures Reached(trace.path[id], p, edges[..j + 1]) && Before(trace.path[id], p + [edges[j]])
    {
      DiscoverIsLater(web, source, trace, edges, j, b, id);
    }
    DiscoverLogged(web, source, trace, edges[j], b);
    DiscoverRelaxed(web, trace, edges[j], b);
    DiscoverInOrder(trace, edges[j], b);
    DiscoverDone(web, trace, edges, j, b, p);
    NewlyReached(p, edges, j);
    assert trace.log[trace.head] in trace.log && after.path[after.log[after.head]] == p;
  }

  lemma NewlyReached(p: seq<Edge>, edges: seq<Edge>, j: nat)
    requires j < |edges|
    ensures Reached(p + [edges[j]], p, edges[..j + 1])
  {
    assert edges[..j + 1] == edges[..j] + [edges[j]];
  }

  /** Every edge of the head was looked at: the queue moves on. */
  lemma Advance(web: Web, source: Id, trace: Trace, edges: seq<Edge>)
    requires Expanding(web, source, trace, edges, |edges|)
    requires forall edge, b :: Leads(web, trace.log[trace.head], edge, b) ==> edge in edges
    ensures Searched(web, source, trace.(head := trace.head + 1))
  {
    var a := trace.log[trace.head];
    assert edges[..|edges|] == edges;
    assert Relaxed(web, trace.path, a);
    if trace.head + 1 < |trace.log| {
      var next := trace.log[trace.head + 1];
      forall id | id in trace.path
        ensures Precedes(trace.path[id], trace.path[next])
      {
        NextPrecedes(trace.path[id], trace.path[a], trace.path[next], edges);
      }
    }
    hide Reached, Before, AtMost, Leads, IsWalk, Relaxed, Precedes;
  }

  lemma NextPrecedes(walk: seq<Edge>, p: seq<Edge>, next: seq<Edge>, edges: seq<Edge>)
    requires Reached(walk, p, edges) && Reached(next, p, edges) && Before(p, next)
    ensures Precedes(walk, next)
  {
    if |walk| == |p| + 1 && |next| == |p| && LexLess(walk[..|p|], p) {
      LexTransitive(walk[..|p|], p, next);
    }
  }

  // ----- shortestPath -----------------------------------------------------------------------

  datatype Predecessor = Predecessor(nodeId: Id, edge: Edge)

  datatype PathResult = PathResult(nodes: seq<Node>, edges: seq<Edge>)

  type Adjacency = map<Id, seq<Edge>>

  function ListAt(adjacency: Adjacency, id: Id): seq<Edge> {
    if id in adjacency then adjacency[id] else []
  }

  /** The lists hold every edge that leads from their node. */
  ghost predicate Lists(web: Web, adjacency: Adjacency) {
    forall id :: IsList(web, id, ListAt(adjacency, id))
  }

  ghost predicate IsList(web: Web, id: Id, edges: seq<Edge>) {
    forall edge :: edge in edges <==> edge in web.edges && OtherEnd(id, edge, web.undirected).Some?
  }

  ghost predicate SortedLists(adjacency: Adjacency) {
    forall id :: id in adjacency ==> Ascending(adjacency[id])
  }

  function Listed(adjacency: Adjacency, id: Id, edge: Edge): Adjacency {
    adjacency[id := ListAt(adjacency, id) + [edge]]
  }

  ghost predicate ListsAmong(adjacency: Adjacency, edges: seq<Edge>, undirected: bool) {
    forall id, edge :: edge in ListAt(adjacency, id) <==> edge in edges && OtherEnd(id, edge, undirected).Some?
  }

  lemma ListOne(adjacency: Adjacency, edges: seq<Edge>, edge: Edge, undirected: bool)
    requires ListsAmong(adjacency, edges, undirected)
    ensures var bySource := Listed(adjacency, edge.source, edge);
      ListsAmong(if undirected then Listed(bySource, edge.target, edge) else bySource, edges + [edge], undirected)
  {
    var bySource := Listed(adjacency, edge.source, edge);
    forall id, other
      ensures other in ListAt(bySource, id) <==> other in ListAt(adjacency, id) || (id == edge.source && other == edge)
      ensures other in ListAt(Listed(bySource, edge.target, edge), id) <==>
        other in ListAt(bySource, id) || (id == edge.target && other == edge)
    {}
    hide ListAt, Listed;
  }

  method EdgesBySource(edges: seq<Edge>, undirected: bool) returns (adjacency: Adjacency)
    ensures SortedLists(adjacency) && ListsAmong(adjacency, edges, undirected)
  {
    adjacency := map[];
    for i := 0 to |edges|
      invariant ListsAmong(adjacency, edges[..i], undirected)
    {
      hide ListsAmong;
      var edge := edges[i];
      ListOne(adjacency, edges[..i], edge, undirected);
      adjacency := Listed(adjacency, edge.source, edge);
      if undirected {
        adjacency := Listed(adjacency, edge.target, edge);
      }
      assert edges[..i + 1] == edges[..i] + [edge];
    }
    assert edges[..|edges|] == edges;
    adjacency := SortLists(adjacency);
  }

  method SortLists(lists: Adjacency) returns (adjacency: Adjacency)
    ensures SortedLists(adjacency)
    ensures forall id, edge :: edge in ListAt(adjacency, id) <==> edge in ListAt(lists, id)
  {
    adjacency := lists;
    var remaining := lists.Keys;
    while remaining != {}
      invariant adjacency.Keys == lists.Keys && remaining <= lists.Keys
      invariant forall id :: id in adjacency && id !in remaining ==> Ascending(adjacency[id])
      invariant forall id, edge :: edge in ListAt(adjacency, id) <==> edge in ListAt(lists, id)
      decreases remaining
    {
      var id :| id in remaining;
      var sorted := SortEdges(adjacency[id]);
      adjacency := adjacency[id := sorted];
      remaining := remaining - {id};
    }
  }

  ghost predicate Predecessors(web: Web, source: Id, trace: Trace, predecessors: map<Id, Predecessor>) {
    && predecessors.Keys + {source} == trace.path.Keys && source !in predecessors
    && forall id :: id in predecessors ==>
      && predecessors[id].nodeId in trace.path
      && trace.path[id] == trace.path[predecessors[id].nodeId] + [predecessors[id].edge]
  }

  lemma ExpandStarts(web: Web, source: Id, trace: Trace, edges: seq<Edge>)
    requires Searched(web, source, trace) && trace.head < |trace.log|
    ensures Expanding(web, source, trace, edges, 0)
  {}

  lemma DiscoverPredecessor(web: Web, source: Id, trace: Trace, predecessors: map<Id, Predecessor>, edge: Edge, b: Id)
    requires Logged(web, source, trace) && trace.head < |trace.log| && b !in trace.path
    requires Predecessors(web, source, trace, predecessors)
    ensures Predecessors(web, source, Discovered(trace, edge, b),
      predecessors[b := Predecessor(trace.log[trace.head], edge)])
  {
    hide IsWalk;
    assert trace.log[trace.head] in trace.log;
  }

  /** The queue, what was seen, and the trace they come from. */
  ghost predicate Agree(web: Web, source: Id, trace: Trace, queue: seq<Id>, start: nat, seen: set<Id>,
          predecessors: map<Id, Predecessor>) {
    && start <= |trace.log| && queue == trace.log[start..]
    && seen == trace.path.Keys
    && Predecessors(web, source, trace, predecessors)
  }

  lemma DiscoverAgrees(web: Web, source: Id, trace: Trace, queue: seq<Id>, seen: set<Id>,
          predecessors: map<Id, Predecessor>, edge: Edge, b: Id)
    requires Logged(web, source, trace) && trace.head < |trace.log| && b !in trace.path
    requires Agree(web, source, trace, queue, trace.head + 1, seen, predecessors)
    ensures Agree(web, source, Discovered(trace, edge, b), queue + [b], trace.head + 1, seen + {b},
                  predecessors[b := Predecessor(trace.log[trace.head], edge)])
  {
    DiscoverPredecessor(web, source, trace, predecessors, edge, b);
    hide Logged, Predecessors;
  }

  /** The search while the node is being expanded and j of its edges are done. */
  ghost predicate Visiting(web: Web, source: Id, trace: Trace, nodeId: Id, edges: seq<Edge>, j: nat, queue: seq<Id>,
          seen: set<Id>, predecessors: map<Id, Predecessor>)
    requires j <= |edges|
  {
    && Expanding(web, source, trace, edges, j) && trace.log[trace.head] == nodeId
    && Agree(web, source, trace, queue, trace.head + 1, seen, predecessors)
  }

  lemma VisitSeen(web: Web, source: Id, trace: Trace, nodeId: Id, edges: seq<Edge>, j: nat, queue: seq<Id>,
          seen: set<Id>, predecessors: map<Id, Predecessor>, neighbor: Id)
    requires j < |edges| && Ascending(edges)
      && Visiting(web, source, trace, nodeId, edges, j, queue, seen, predecessors)
    requires OtherEnd(nodeId, edges[j], web.undirected) == Some(neighbor) && (neighbor !in web.ids || neighbor in seen)
    ensures Visiting(web, source, trace, nodeId, edges, j + 1, queue, seen, predecessors)
  {
    hide Logged, InOrder, Relaxed, Reached, AtMost, Predecessors;
    PassOver(web, source, trace, edges, j);
  }

  lemma VisitNew(web: Web, source: Id, trace: Trace, nodeId: Id, edges: seq<Edge>, j: nat, queue: seq<Id>,
          seen: set<Id>, predecessors: map<Id, Predecessor>, neighbor: Id)
    requires j < |edges| && Ascending(edges)
      && Visiting(web, source, trace, nodeId, edges, j, queue, seen, predecessors)
    requires Leads(web, nodeId, edges[j], neighbor) && neighbor !in seen
    ensures trace.head < |trace.log| && trace.log[trace.head] in trace.path
    ensures Visiting(web, source, Discovered(trace, edges[j], neighbor), nodeId, edges, j + 1, queue + [neighbor], seen
      + {neighbor},
                     predecessors[neighbor := Predecessor(nodeId, edges[j])])
  {
    hide Expanding, Predecessors, Agree, Leads, Logged, Discovered, Ascending;
    VisitingLogged(web, source, trace, nodeId, edges, j, queue, seen, predecessors);
    DiscoveredHead(trace, edges[j], neighbor);
    Discover(web, source, trace, edges, j, neighbor);
    DiscoverAgrees(web, source, trace, queue, seen, predecessors, edges[j], neighbor);
    NowVisiting(web, source, Discovered(trace, edges[j], neighbor), nodeId, edges, j + 1, queue + [neighbor],
                seen + {neighbor}, predecessors[neighbor := Predecessor(nodeId, edges[j])]);
  }

  lemma NowVisiting(web: Web, source: Id, trace: Trace, nodeId: Id, edges: seq<Edge>, j: nat, queue: seq<Id>,
          seen: set<Id>, predecessors: map<Id, Predecessor>)
    requires j <= |edges| && Expanding(web, source, trace, edges, j) && trace.log[trace.head] == nodeId
    requires Agree(web, source, trace, queue, trace.head + 1, seen, predecessors)
    ensures Visiting(web, source, trace, nodeId, edges, j, queue, seen, predecessors)
  {}

  lemma VisitingLogged(web: Web, source: Id, trace: Trace, nodeId: Id, edges: seq<Edge>, j: nat, queue: seq<Id>,
          seen: set<Id>, predecessors: map<Id, Predecessor>)
    requires j <= |edges| && Visiting(web, source, trace, nodeId, edges, j, queue, seen, predecessors)
    ensures Logged(web, source, trace) && trace.head < |trace.log| && trace.log[trace.head] in trace.path
    ensures seen == trace.path.Keys
  {
    hide InOrder, Relaxed, Reached, Predecessors, IsWalk;
    assert trace.log[trace.head] in trace.log;
  }

  lemma DiscoveredHead(trace: Trace, edge: Edge, b: Id)
    requires trace.head < |trace.log| && trace.log[trace.head] in trace.path
    ensures var after := Discovered(trace, edge, b);
      after.head == trace.head < |after.log| && after.log[after.head] == trace.log[trace.head]
  {}

  lemma VisitStarts(web: Web, source: Id, trace: Trace, nodeId: Id, edges: seq<Edge>, queue: seq<Id>, seen: set<Id>,
          predecessors: map<Id, Predecessor>)
    requires Searched(web, source, trace) && trace.head < |trace.log| && trace.log[trace.head] == nodeId
    requires Agree(web, source, trace, queue, trace.head + 1, seen, predecessors)
    ensures Visiting(web, source, trace, nodeId, edges, 0, queue, seen, predecessors)
  {
    ExpandStarts(web, source, trace, edges);
    hide Logged, InOrder, Relaxed, Precedes, Reached, Predecessors;
  }

  lemma ListedLeads(web: Web, nodeId: Id, edges: seq<Edge>, edge: Edge, neighbor: Id)
    requires IsList(web, nodeId, edges) && edge in edges
    requires neighbor == if web.undirected && edge.target == nodeId then edge.source else edge.target
    ensures OtherEnd(nodeId, edge, web.undirected) == Some(neighbor)
    ensures neighbor in web.ids ==> Leads(web, nodeId, edge, neighbor)
  {}

  method ExpandNode(ids: set<Id>, nodeId: Id, edges: seq<Edge>, queue: seq<Id>, seen0: set<Id>,
          predecessors0: map<Id, Predecessor>, undirected: bool,
                    ghost web: Web, ghost source: Id, ghost trace0: Trace)
    returns (frontier: seq<Id>, seen: set<Id>, predecessors: map<Id, Predecessor>, ghost trace: Trace)
    requires web.ids == ids && web.undirected == undirected && Ascending(edges)
    requires IsList(web, nodeId, edges)
    requires Searched(web, source, trace0) && trace0.head < |trace0.log| && trace0.log[trace0.head] == nodeId
    requires Agree(web, source, trace0, queue, trace0.head + 1, seen0, predecessors0)
    ensures Searched(web, source, trace)
    ensures Agree(web, source, trace, frontier, trace.head, seen, predecessors)
    ensures (seen == seen0 && frontier == queue) || ids - seen < ids - seen0
  {
    hide Visiting, Searched, Ascending, Agree, IsList, Discovered, Leads;
    frontier, seen, predecessors, trace := queue, seen0, predecessors0, trace0;
    VisitStarts(web, source, trace, nodeId, edges, queue, seen, predecessors);
    for j := 0 to |edges|
      invariant Visiting(web, source, trace, nodeId, edges, j, frontier, seen, predecessors)
      invariant (seen == seen0 && frontier == queue) || ids - seen < ids - seen0
    {
      var edge := edges[j];
      var neighbor := if undirected && edge.target == nodeId then edge.source else edge.target;
      ListedLeads(web, nodeId, edges, edge, neighbor);
      if neighbor !in ids || neighbor in seen {
        VisitSeen(web, source, trace, nodeId, edges, j, frontier, seen, predecessors, neighbor);
        continue;
      }
      VisitNew(web, source, trace, nodeId, edges, j, frontier, seen, predecessors, neighbor);
      assert neighbor in ids - seen && neighbor !in ids - (seen + {neighbor});
      trace := Discovered(trace, edge, neighbor);
      seen := seen + {neighbor};
      predecessors := predecessors[neighbor := Predecessor(nodeId, edge)];
      frontier := frontier + [neighbor];
    }
    AdvanceVisit(web, source, trace, nodeId, edges, frontier, seen, predecessors);
    trace := trace.(head := trace.head + 1);
  }

  lemma AdvanceVisit(web: Web, source: Id, trace: Trace, nodeId: Id, edges: seq<Edge>, queue: seq<Id>, seen: set<Id>,
          predecessors: map<Id, Predecessor>)
    requires Visiting(web, source, trace, nodeId, edges, |edges|, queue, seen, predecessors)
    requires IsList(web, nodeId, edges)
    ensures Searched(web, source, trace.(head := trace.head + 1))
    ensures Agree(web, source, trace.(head := trace.head + 1), queue, trace.head + 1, seen, predecessors)
  {
    hide Logged, InOrder, Relaxed, Reached, AtMost, Precedes;
    Advance(web, source, trace, edges);
  }

  lemma SearchStarts(web: Web, source: Id)
    requires source in web.ids
    ensures Searched(web, source, Trace([source], 0, map[source := []]))
    ensures Agree(web, source, Trace([source], 0, map[source := []]), [source], 0, {source}, map[])
  {}

  /** Before the next node is taken from the queue. */
  ghost predicate Running(web: Web, source: Id, trace: Trace, queue: seq<Id>, seen: set<Id>,
          predecessors: map<Id, Predecessor>) {
    Searched(web, source, trace) && Agree(web, source, trace, queue, trace.head, seen, predecessors)
  }

  lemma Running0(web: Web, source: Id)
    requires source in web.ids
    ensures Running(web, source, Trace([source], 0, map[source := []]), [source], {source}, map[])
  {
    SearchStarts(web, source);
  }

  lemma TakeNext(web: Web, source: Id, trace: Trace, queue: seq<Id>, seen: set<Id>, predecessors: map<Id, Predecessor>)
    requires Running(web, source, trace, queue, seen, predecessors) && queue != []
    ensures Searched(web, source, trace) && trace.head < |trace.log| && trace.log[trace.head] == queue[0]
    ensures Agree(web, source, trace, queue[1..], trace.head + 1, seen, predecessors)
    ensures queue[0] in seen
  {
    hide Predecessors, InOrder, Relaxed, Precedes, IsWalk;
    assert trace.log[trace.head] in trace.log;
  }

  /** What the search leaves behind when it stops. */
  ghost predicate Settled(web: Web, source: Id, target: Id, trace: Trace, seen: set<Id>,
          predecessors: map<Id, Predecessor>) {
    && seen == trace.path.Keys && Predecessors(web, source, trace, predecessors)
    && Logged(web, source, trace)
    && (if target in seen then First(web, source, trace.path[target], target)
      else forall walk :: !IsWalk(web, source, walk, target))
  }

  lemma StopAtTarget(web: Web, source: Id, trace: Trace, queue: seq<Id>, seen: set<Id>,
          predecessors: map<Id, Predecessor>, target: Id)
    requires Running(web, source, trace, queue, seen, predecessors) && queue != [] && queue[0] == target
    ensures Settled(web, source, target, trace, seen, predecessors)
  {
    TakeNext(web, source, trace, queue, seen, predecessors);
    NextIsFirst(web, source, trace, target);
    hide Predecessors, InOrder, Relaxed, Precedes, IsWalk, First;
  }

  lemma StopWhenEmpty(web: Web, source: Id, trace: Trace, seen: set<Id>, predecessors: map<Id, Predecessor>, target: Id)
    requires Running(web, source, trace, [], seen, predecessors)
    ensures Settled(web, source, target, trace, seen, predecessors)
  {
    assert trace.head == |trace.log|;
    if target !in seen {
      NothingLeft(web, source, trace, target);
    } else {
      EverySeenIsFirst(web, source, trace, target);
    }
    hide Predecessors, InOrder, Relaxed, Precedes, IsWalk, First;
  }

  /** The loop over the queue; it stops when the target is next. */
  method Search(ids: set<Id>, undirected: bool, adjacency: Adjacency, source: Id, target: Id, ghost web: Web)
    returns (seen: set<Id>, predecessors: map<Id, Predecessor>, ghost trace: Trace)
    requires web.ids == ids && web.undirected == undirected && source in ids
    requires SortedLists(adjacency) && Lists(web, adjacency)
    ensures Settled(web, source, target, trace, seen, predecessors)
  {
    hide Searched, Agree, Running, Settled;
    var frontier := [source];
    seen, predecessors, trace := {source}, map[], Trace([source], 0, map[source := []]);
    Running0(web, source);
    while |frontier| > 0
      invariant Running(web, source, trace, frontier, seen, predecessors)
      decreases ids - seen, |frontier|
    {
      var nodeId := frontier[0];
      if nodeId == target {
        StopAtTarget(web, source, trace, frontier, seen, predecessors, target);
        return;
      }
      TakeNext(web, source, trace, frontier, seen, predecessors);
      var edges := ListAt(adjacency, nodeId);
      assert IsList(web, nodeId, edges) && Ascending(edges);
      frontier, seen, predecessors, trace :=
        ExpandNode(ids, nodeId, edges, frontier[1..], seen, predecessors, undirected, web, source, trace);
      assert Running(web, source, trace, frontier, seen, predecessors) by {
        RunsOn(web, source, trace, frontier, seen, predecessors);
      }
    }
    StopWhenEmpty(web, source, trace, seen, predecessors, target);
  }

  lemma RunsOn(web: Web, source: Id, trace: Trace, queue: seq<Id>, seen: set<Id>, predecessors: map<Id, Predecessor>)
    requires Searched(web, source, trace) && Agree(web, source, trace, queue, trace.head, seen, predecessors)
    ensures Running(web, source, trace, queue, seen, predecessors)
  {}

  /** With an empty queue every walk found is the first one. */
  lemma EverySeenIsFirst(web: Web, source: Id, trace: Trace, target: Id)
    requires Searched(web, source, trace) && trace.head == |trace.log| && target in trace.path
    ensures First(web, source, trace.path[target], target)
  {
    forall walk | IsWalk(web, source, walk, target)
      ensures AtMost(trace.path[target], walk)
    {
      RelaxedWalk(web, source, trace, walk, target);
    }
  }

  // ----- reading the path back --------------------------------------------------------------

  /** The nodes a walk passes, from source to end. */
  function Trail(web: Web, source: Id, walk: seq<Edge>): (ids: seq<Id>)
    requires Follow(web, source, walk).Some?
    ensures |ids| == |walk| + 1
    ensures ids[0] == source && ids[|walk|] == Follow(web, source, walk).value
  {
    if walk == [] then [source]
    else Trail(web, source, walk[..|walk| - 1]) + [Follow(web, source, walk).value]
  }

  function Reversed<T>(s: seq<T>): (r: seq<T>)
    ensures |r| == |s|
    ensures forall i :: 0 <= i < |s| ==> r[i] == s[|s| - 1 - i]
  {
    if s == [] then [] else Reversed(s[1..]) + [s[0]]
  }

  lemma {:induction false} ReversedAppend<T>(s: seq<T>, x: T)
    ensures Reversed(s + [x]) == [x] + Reversed(s)
  {
    if s == [] {
      assert [x][1..] == [];
    } else {
      ReversedAppend(s[1..], x);
      assert (s + [x])[1..] == s[1..] + [x];
    }
  }

  /** reverseNodes and reverseEdges */
  method ReverseInPlace<T>(a: array<T>)
    modifies a
    ensures a[..] == Reversed(old(a[..]))
  {
    var left, right := 0, a.Length - 1;
    while left < right
      invariant 0 <= left <= right + 1 && left + right == a.Length - 1
      invariant forall k :: 0 <= k < left || right < k < a.Length ==> a[k] == old(a[a.Length - 1 - k])
      invariant forall k :: left <= k <= right ==> a[k] == old(a[k])
    {
      a[left], a[right] := a[right], a[left];
      left, right := left + 1, right - 1;
    }
  }

  method Reverse<T>(s: seq<T>) returns (r: seq<T>)
    ensures r == Reversed(s)
  {
    var a := new T[|s|](i requires 0 <= i < |s| => s[i]);
    assert a[..] == s;
    ReverseInPlace(a);
    r := a[..];
  }

  /** What is left of the trail to read when the walk was read back to the node. */
  ghost predicate ReadBack(web: Web, source: Id, trace: Trace, target: Id, nodeId: Id, ids: seq<Id>, edges: seq<Edge>)
    requires Logged(web, source, trace) && target in trace.path && nodeId in trace.path
  {
    && |ids| == |edges| + 1
    && trace.path[target] == trace.path[nodeId] + Reversed(edges)
    && Trail(web, source, trace.path[target]) == Trail(web, source, trace.path[nodeId])[..|trace.path[nodeId]|]
      + Reversed(ids)
  }

  lemma EdgesBack(walk: seq<Edge>, shorter: seq<Edge>, edge: Edge, edges: seq<Edge>)
    requires walk == shorter + [edge] + Reversed(edges)
    ensures walk == shorter + Reversed(edges + [edge])
  {
    ReversedAppend(edges, edge);
  }

  lemma IdsBack(trail: seq<Id>, longer: seq<Id>, shorter: seq<Id>, id: Id, ids: seq<Id>)
    requires |longer| > 1 && longer[..|longer| - 1] == shorter && trail == shorter + Reversed(ids)
    requires |shorter| > 0 && shorter[|shorter| - 1] == id
    ensures trail == shorter[..|shorter| - 1] + Reversed(ids + [id])
  {
    ReversedAppend(ids, id);
    assert shorter == shorter[..|shorter| - 1] + [id];
    hide Reversed;
  }

  lemma TrailGrows(web: Web, source: Id, walk: seq<Edge>)
    requires Follow(web, source, walk).Some? && walk != []
    ensures Follow(web, source, walk[..|walk| - 1]).Some?
    ensures Trail(web, source, walk)[..|walk|] == Trail(web, source, walk[..|walk| - 1])
  {}

  lemma ReadOneBack(web: Web, source: Id, trace: Trace, predecessors: map<Id, Predecessor>, target: Id, nodeId: Id,
          ids: seq<Id>, edges: seq<Edge>)
    requires Logged(web, source, trace) && Predecessors(web, source, trace, predecessors)
    requires target in trace.path && nodeId in predecessors && ReadBack(web, source, trace, target, nodeId, ids, edges)
    ensures var previous := predecessors[nodeId];
      && ReadBack(web, source, trace, target, previous.nodeId, ids + [previous.nodeId], edges + [previous.edge])
      && |trace.path[previous.nodeId]| < |trace.path[nodeId]|
  {
    hide Reversed, Trail;
    var previous := predecessors[nodeId];
    var walk, shorter := trace.path[nodeId], trace.path[previous.nodeId];
    assert walk == shorter + [previous.edge] && walk[..|walk| - 1] == shorter;
    assert IsWalk(web, source, shorter, previous.nodeId) && IsWalk(web, source, walk, nodeId);
    TrailGrows(web, source, walk);
    hide Follow, Logged, Predecessors;
    EdgesBack(trace.path[target], shorter, previous.edge, edges);
    IdsBack(Trail(web, source, trace.path[target]), Trail(web, source, walk), Trail(web, source, shorter),
      previous.nodeId, ids);
  }

  lemma ReadBackStart(web: Web, source: Id, trace: Trace, target: Id)
    requires Logged(web, source, trace) && target in trace.path
    ensures ReadBack(web, source, trace, target, target, [target], [])
  {
    var trail := Trail(web, source, trace.path[target]);
    assert IsWalk(web, source, trace.path[target], target);
    hide Follow;
    assert trail == trail[..|trace.path[target]|] + [target];
  }

  /** The loop that follows the predecessors back to the source. */
  method ReadPath(source: Id, target: Id, predecessors: map<Id, Predecessor>, ghost web: Web,
          ghost trace: Trace) returns (ids: seq<Id>, edges: seq<Edge>)
    requires Logged(web, source, trace) && Predecessors(web, source, trace, predecessors) && target in trace.path
    ensures Reversed(edges) == trace.path[target] && Reversed(ids) == Trail(web, source, trace.path[target])
  {
    hide Reversed, Trail, Follow;
    var nodeId := target;
    ids, edges := [target], [];
    ReadBackStart(web, source, trace, target);
    while nodeId != source
      invariant nodeId in trace.path && ReadBack(web, source, trace, target, nodeId, ids, edges)
      decreases |trace.path[nodeId]|
    {
      hide ReadBack, Logged;
      ReadOneBack(web, source, trace, predecessors, target, nodeId, ids, edges);
      var previous := predecessors[nodeId];
      ids := ids + [previous.nodeId];
      edges := edges + [previous.edge];
      nodeId := previous.nodeId;
    }
  }

  /** The nodes of the facts by id; a later duplicate replaces an earlier one. */
  method NodesById(nodes: seq<Node>) returns (byId: map<Id, Node>)
    ensures byId.Keys == set node | node in nodes :: node.id
    ensures forall id :: id in byId ==> byId[id].id == id && byId[id] in nodes
  {
    byId := map[];
    for i := 0 to |nodes|
      invariant byId.Keys == set node | node in nodes[..i] :: node.id
      invariant forall id :: id in byId ==> byId[id].id == id && byId[id] in nodes
    {
      assert nodes[..i + 1] == nodes[..i] + [nodes[i]];
      byId := byId[nodes[i].id := nodes[i]];
    }
    assert nodes[..|nodes|] == nodes;
  }

  function IdsOf(nodes: seq<Node>): seq<Id> {
    seq(|nodes|, i requires 0 <= i < |nodes| => nodes[i].id)
  }

  /** The facts contain the first of all walks from source to target, as nodes and edges; or there is no
      walk, and the result is empty. */
  ghost predicate Finds(web: Web, source: Id, target: Id, result: PathResult) {
    if result.nodes == [] then result.edges == [] && forall walk :: !IsWalk(web, source, walk, target)
    else First(web, source, result.edges, target) && IdsOf(result.nodes) == Trail(web, source, result.edges)
  }

  lemma NoEnds(web: Web, source: Id, target: Id)
    requires source !in web.ids || target !in web.ids
    ensures Finds(web, source, target, PathResult([], []))
  {
    forall walk
      ensures !IsWalk(web, source, walk, target)
    {
      WalkEnds(web, source, walk);
    }
  }

  lemma NothingSeen(web: Web, source: Id, target: Id, trace: Trace, seen: set<Id>, predecessors: map<Id, Predecessor>)
    requires Settled(web, source, target, trace, seen, predecessors) && target !in seen
    ensures Finds(web, source, target, PathResult([], []))
  {}

  function NodesOf(byId: map<Id, Node>, ids: seq<Id>): seq<Node>
    requires forall id :: id in ids ==> id in byId
  {
    seq(|ids|, i requires 0 <= i < |ids| => byId[ids[i]])
  }

  lemma NodesHaveIds(byId: map<Id, Node>, ids: seq<Id>)
    requires forall id :: id in ids ==> id in byId
    requires forall id :: id in byId ==> byId[id].id == id
    ensures IdsOf(NodesOf(byId, ids)) == ids
    ensures forall node :: node in NodesOf(byId, ids) ==> exists id :: id in byId && byId[id] == node
  {
    forall i | 0 <= i < |ids|
      ensures IdsOf(NodesOf(byId, ids))[i] == ids[i]
    {
      assert ids[i] in ids;
    }
  }

  lemma FoundBack(web: Web, source: Id, target: Id, trace: Trace, seen: set<Id>, predecessors: map<Id, Predecessor>,
          nodes: seq<Node>, edges: seq<Edge>)
    requires Settled(web, source, target, trace, seen, predecessors) && target in seen && target in trace.path
    requires edges == trace.path[target] && Follow(web, source, edges).Some?
    requires IdsOf(nodes) == Trail(web, source, edges)
    ensures Finds(web, source, target, PathResult(nodes, edges))
  {}

  // ----- the path in terms of sources and targets -------------------------------------------

  predicate Joins(edge: Edge, undirected: bool, a: Id, b: Id) {
    || (edge.source == a && edge.target == b)
    || (undirected && edge.target == a && edge.source == b)
  }

  /** The edges lead from the source to the target through these ids, which all belong to nodes of the facts. */
  ghost predicate Spans(nodes: seq<Node>, edges: seq<Edge>, undirected: bool, source: Id, target: Id, ids: seq<Id>,
          walk: seq<Edge>) {
    && |ids| == |walk| + 1 && ids[0] == source && ids[|walk|] == target
    && (forall i :: 0 <= i < |ids| ==> exists node :: node in nodes && node.id == ids[i])
    && forall i :: 0 <= i < |walk| ==> walk[i] in edges && Joins(walk[i], undirected, ids[i], ids[i + 1])
  }

  predicate Smaller(p: Edge, q: Edge) {
    if p.source != q.source then p.source < q.source
    else if p.target != q.target then p.target < q.target
    else p.relation < q.relation
  }

  /** At the first difference p is the smaller one. */
  ghost predicate SmallerAtFirst(p: seq<Edge>, q: seq<Edge>)
    requires |p| == |q|
  {
    exists i :: 0 <= i < |p| && p[..i] == q[..i] && Smaller(p[i], q[i])
  }

  /** Fewer edges, or as many and at the first difference the smaller source, target or relation. */
  ghost predicate ComesFirst(p: seq<Edge>, q: seq<Edge>) {
    || |p| < |q|
    || p == q
    || (|p| == |q| && SmallerAtFirst(p, q))
  }

  /** The path is empty exactly without a way from source to target; otherwise it is one, and none precedes it. */
  ghost predicate FindsFirst(nodes: seq<Node>, edges: seq<Edge>, undirected: bool, source: Id, target: Id,
          result: PathResult) {
    if result.nodes == [] then
      result.edges == [] && forall ids, walk :: !Spans(nodes, edges, undirected, source, target, ids, walk)
    else
      && (exists ids :: Spans(nodes, edges, undirected, source, target, ids, result.edges)
                        && |ids| == |result.nodes| && forall i :: 0 <= i < |ids| ==> result.nodes[i].id == ids[i])
      && forall ids, walk :: Spans(nodes, edges, undirected, source, target, ids, walk) ==>
        ComesFirst(result.edges, walk)
  }

  lemma SmallerNext(p: seq<Edge>, q: seq<Edge>)
    requires |p| == |q| && p != []
    ensures var last := |p| - 1;
      SmallerAtFirst(p, q) <==>
        SmallerAtFirst(p[..last], q[..last]) || (p[..last] == q[..last] && Smaller(p[last], q[last]))
  {
    var last := |p| - 1;
    var p0, q0 := p[..last], q[..last];
    hide Smaller;
    if i :| 0 <= i < last && p0[..i] == q0[..i] && Smaller(p0[i], q0[i]) {
      assert p[..i] == p0[..i] && q[..i] == q0[..i];
    }
    if i :| 0 <= i < last && p[..i] == q[..i] && Smaller(p[i], q[i]) {
      assert p[..i] == p0[..i] && q[..i] == q0[..i] && p0[i] == p[i] && q0[i] == q[i];
    }
  }

  lemma {:induction false} FirstDifference(p: seq<Edge>, q: seq<Edge>)
    requires |p| == |q|
    ensures LexLess(p, q) <==> SmallerAtFirst(p, q)
  {
    if p != [] {
      var last := |p| - 1;
      FirstDifference(p[..last], q[..last]);
      SmallerNext(p, q);
      hide SmallerAtFirst;
    }
  }

  lemma AtMostIsFirst(p: seq<Edge>, q: seq<Edge>)
    ensures AtMost(p, q) <==> ComesFirst(p, q)
  {
    if |p| == |q| {
      FirstDifference(p, q);
    }
  }

  lemma EdgeLeads(nodes: seq<Node>, edges: seq<Edge>, undirected: bool, a: Id, edge: Edge, b: Id)
    ensures Leads(WebOf(nodes, edges, undirected), a, edge, b) <==>
      edge in edges && (exists node :: node in nodes && node.id == b) && Joins(edge, undirected, a, b)
  {}

  lemma {:induction false} SpansIsWalk(nodes: seq<Node>, edges: seq<Edge>, undirected: bool, source: Id, target: Id,
          ids: seq<Id>, walk: seq<Edge>)
    requires Spans(nodes, edges, undirected, source, target, ids, walk)
    ensures IsWalk(WebOf(nodes, edges, undirected), source, walk, target)
    decreases |walk|
  {
    if walk != [] {
      var last := |walk| - 1;
      assert forall i :: 0 <= i < last ==> walk[..last][i] == walk[i] && Joins(walk[i], undirected, ids[i], ids[i + 1]);
      SpansIsWalk(nodes, edges, undirected, source, ids[last], ids[..|walk|], walk[..last]);
      EdgeLeads(nodes, edges, undirected, ids[last], walk[last], target);
      Append(WebOf(nodes, edges, undirected), source, walk[..last], ids[last], walk[last], target);
      assert walk[..last] + [walk[last]] == walk;
    }
  }

  lemma {:induction false} WalkSpans(nodes: seq<Node>, edges: seq<Edge>, undirected: bool, source: Id, target: Id,
          walk: seq<Edge>)
    requires IsWalk(WebOf(nodes, edges, undirected), source, walk, target)
    ensures Spans(nodes, edges, undirected, source, target, Trail(WebOf(nodes, edges, undirected), source, walk), walk)
    decreases |walk|
  {
    var web := WebOf(nodes, edges, undirected);
    if walk != [] {
      var last := |walk| - 1;
      var a := LastStep(web, source, walk, target);
      WalkSpans(nodes, edges, undirected, source, a, walk[..last]);
      EdgeLeads(nodes, edges, undirected, a, walk[last], target);
      hide Joins, IsWalk, Follow;
      SpansOn(nodes, edges, undirected, source, a, target, Trail(web, source, walk[..last]), walk[..last], walk[last]);
      assert walk[..last] + [walk[last]] == walk;
    }
  }

  lemma SpansOn(nodes: seq<Node>, edges: seq<Edge>, undirected: bool, source: Id, a: Id, b: Id, ids: seq<Id>,
          walk: seq<Edge>, edge: Edge)
    requires Spans(nodes, edges, undirected, source, a, ids, walk)
    requires edge in edges && (exists node :: node in nodes && node.id == b) && Joins(edge, undirected, a, b)
    ensures Spans(nodes, edges, undirected, source, b, ids + [b], walk + [edge])
  {
    var longer, more := ids + [b], walk + [edge];
    forall i | 0 <= i < |more|
      ensures more[i] in edges && Joins(more[i], undirected, longer[i], longer[i + 1])
    {
      assert i < |walk| ==> more[i] == walk[i] && longer[i] == ids[i] && longer[i + 1] == ids[i + 1];
    }
  }

  lemma FoundIsFirst(nodes: seq<Node>, edges: seq<Edge>, undirected: bool, source: Id, target: Id, result: PathResult)
    requires Finds(WebOf(nodes, edges, undirected), source, target, result)
    ensures FindsFirst(nodes, edges, undirected, source, target, result)
  {
    var web := WebOf(nodes, edges, undirected);
    hide Spans, IsWalk, AtMost, ComesFirst, Trail;
    forall ids, walk | Spans(nodes, edges, undirected, source, target, ids, walk)
      ensures IsWalk(web, source, walk, target)
    {
      SpansIsWalk(nodes, edges, undirected, source, target, ids, walk);
    }
    if result.nodes != [] {
      WalkSpans(nodes, edges, undirected, source, target, result.edges);
      forall ids, walk | Spans(nodes, edges, undirected, source, target, ids, walk)
        ensures ComesFirst(result.edges, walk)
      {
        AtMostIsFirst(result.edges, walk);
      }
    }
  }

  method ShortestPath(nodes: seq<Node>, edges: seq<Edge>, source: Id, target: Id, undirected: bool)
    returns (result: PathResult)
    ensures Finds(WebOf(nodes, edges, undirected), source, target, result)
    ensures FindsFirst(nodes, edges, undirected, source, target, result)
    ensures forall node :: node in result.nodes ==> node in nodes
  {
    hide FindsFirst;
    ghost var web := WebOf(nodes, edges, undirected);
    var byId := NodesById(nodes);
    if source !in byId || target !in byId {
      NoEnds(web, source, target);
      FoundIsFirst(nodes, edges, undirected, source, target, PathResult([], []));
      return PathResult([], []);
    }
    var adjacency := EdgesBySource(edges, undirected);
    assert Lists(web, adjacency);
    var seen, predecessors;
    ghost var trace;
    seen, predecessors, trace := Search(byId.Keys, undirected, adjacency, source, target, web);
    if target !in seen {
      NothingSeen(web, source, target, trace, seen, predecessors);
      FoundIsFirst(nodes, edges, undirected, source, target, PathResult([], []));
      return PathResult([], []);
    }
    var ids, pathEdges := ReadPath(source, target, predecessors, web, trace);
    var orderedIds := Reverse(ids);
    var orderedEdges := Reverse(pathEdges);
    TrailInside(web, source, orderedEdges);
    var pathNodes := NodesOf(byId, orderedIds);
    NodesHaveIds(byId, orderedIds);
    FoundBack(web, source, target, trace, seen, predecessors, pathNodes, orderedEdges);
    FoundIsFirst(nodes, edges, undirected, source, target, PathResult(pathNodes, orderedEdges));
    return PathResult(pathNodes, orderedEdges);
  }

  lemma {:induction false} WalkEnds(web: Web, source: Id, walk: seq<Edge>)
    ensures Follow(web, source, walk).Some? ==> source in web.ids && Follow(web, source, walk).value in web.ids
  {
    if walk != [] {
      WalkEnds(web, source, walk[..|walk| - 1]);
    }
  }

  lemma {:induction false} TrailInside(web: Web, source: Id, walk: seq<Edge>)
    requires Follow(web, source, walk).Some?
    ensures forall id :: id in Trail(web, source, walk) ==> id in web.ids
  {
    WalkEnds(web, source, walk);
    if walk != [] {
      TrailInside(web, source, walk[..|walk| - 1]);
    }
  }

  /** No walk to the target has fewer edges than the path found. */
  lemma PathIsShortest(web: Web, source: Id, target: Id, result: PathResult, walk: seq<Edge>)
    requires Finds(web, source, target, result) && IsWalk(web, source, walk, target)
    ensures result.nodes != [] && IsWalk(web, source, result.edges, target) && |result.edges| <= |walk|
  {
    assert AtMost(result.edges, walk);
  }

  /** Facts listed in another order, or with duplicates, give the same path. */
  lemma OrderDoesNotMatter(nodes: seq<Node>, edges: seq<Edge>, otherNodes: seq<Node>, otherEdges: seq<Edge>,
          undirected: bool, source: Id, target: Id, result: PathResult, other: PathResult)
    requires forall node :: node in nodes <==> node in otherNodes
    requires forall edge :: edge in edges <==> edge in otherEdges
    requires Finds(WebOf(nodes, edges, undirected), source, target, result)
    requires Finds(WebOf(otherNodes, otherEdges, undirected), source, target, other)
    ensures result.edges == other.edges && IdsOf(result.nodes) == IdsOf(other.nodes)
  {
    var web := WebOf(nodes, edges, undirected);
    assert WebOf(otherNodes, otherEdges, undirected) == web;
    if result.nodes == [] {
      assert !IsWalk(web, source, other.edges, target);
    } else {
      assert IsWalk(web, source, result.edges, target);
      FirstIsUnique(web, source, result.edges, other.edges, target);
    }
  }
}
