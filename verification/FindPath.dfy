/** A path between two nodes of a snapshot: a bounded traversal, then the shortest path in what it returned. */
module FindPath {
  import opened Wrappers
  import opened GraphFacts
  import opened Sequences
  import opened ShortestPath
  import opened Traversal

  // ----- walks through the whole graph ------------------------------------------------------

  /** Where a walk of followed edges through in-scope nodes ends; the last node may be out of scope. */
  function Wander(g: Graph, request: TraversalRequest, source: Id, walk: seq<Edge>): Option<Id> {
    if walk == [] then if source in g.nodes then Some(source) else None
    else
      var last := walk[|walk| - 1];
      match Wander(g, request, source, walk[..|walk| - 1])
      case None => None
      case Some(a) =>
        match Neighbor(a, last, request.direction)
        case None => None
        case Some(b) => if InScope(request, a) && Follows(g, request, a, last, b) then Some(b) else None
  }

  predicate Reaches(g: Graph, request: TraversalRequest, source: Id, walk: seq<Edge>, target: Id) {
    Wander(g, request, source, walk) == Some(target)
  }

  lemma LastReach(g: Graph, request: TraversalRequest, source: Id, walk: seq<Edge>, b: Id) returns (a: Id)
    requires Reaches(g, request, source, walk, b) && walk != []
    ensures Reaches(g, request, source, walk[..|walk| - 1], a)
    ensures InScope(request, a) && Follows(g, request, a, walk[|walk| - 1], b)
  {
    a := Wander(g, request, source, walk[..|walk| - 1]).value;
  }

  lemma {:induction false} ReachedWithin(g: Graph, request: TraversalRequest, source: Id, walk: seq<Edge>, target: Id)
    requires request.start == [source] && Reaches(g, request, source, walk, target)
    ensures target in Within(g, request, |walk|)
  {
    if walk != [] {
      var last := |walk| - 1;
      var a := LastReach(g, request, source, walk, target);
      ReachedWithin(g, request, source, walk[..last], a);
      assert target in Step(g, request, Within(g, request, last));
    }
  }

  lemma {:induction false} WithinIsReached(g: Graph, request: TraversalRequest, source: Id, k: nat,
          target: Id) returns (walk: seq<Edge>)
    requires request.start == [source] && target in Within(g, request, k)
    ensures |walk| <= k && Reaches(g, request, source, walk, target)
    decreases k
  {
    if k == 0 {
      walk := [];
    } else if target in Within(g, request, k - 1) {
      walk := WithinIsReached(g, request, source, k - 1, target);
    } else {
      var a, edge :| a in Within(g, request, k - 1) && InScope(request, a) && Follows(g, request, a, edge, target);
      var before := WithinIsReached(g, request, source, k - 1, a);
      walk := before + [edge];
      assert walk[..|before|] == before;
    }
  }

  /** A walk that reaches the target is a chain of edges from the source, told by sources and targets. */
  lemma {:induction false} ReachIsChain(g: Graph, request: TraversalRequest, source: Id, walk: seq<Edge>, target: Id)
    requires request.start == [source]
    ensures Reaches(g, request, source, walk, target) <==> exists ids :: ChainTo(g, request, ids, walk, target)
  {
    if walk == [] {
      if source in g.nodes {
        assert ChainTo(g, request, [source], walk, source);
      }
    } else {
      var last := |walk| - 1;
      if Reaches(g, request, source, walk, target) {
        var a := LastReach(g, request, source, walk, target);
        ReachIsChain(g, request, source, walk[..last], a);
        hide IsChain, Wander;
        var ids :| ChainTo(g, request, ids, walk[..last], a);
        ChainGrows(g, request, ids, walk[..last], a, walk[last], target);
        assert walk[..last] + [walk[last]] == walk;
      }
      if ids :| ChainTo(g, request, ids, walk, target) {
        ChainPrefix(g, request, ids, walk);
        ReachIsChain(g, request, source, walk[..last], ids[last]);
        CrossesToNeighbor(request, walk[last], ids[last], target);
      }
    }
  }

  lemma ChainPrefix(g: Graph, request: TraversalRequest, ids: seq<Id>, edges: seq<Edge>)
    requires IsChain(g, request, ids, edges) && edges != []
    ensures ChainTo(g, request, ids[..|edges|], edges[..|edges| - 1], ids[|edges| - 1])
    ensures var last := |edges| - 1;
      Crosses(request.direction, edges[last], ids[last], ids[last + 1])
  {}

  // ----- the traversal's facts hold the same walks ------------------------------------------

  function FactsWeb(request: TraversalRequest, facts: TraversalResult): Web {
    WebOf(facts.nodes, facts.edges, request.direction == Both)
  }

  lemma NeighborIsOtherEnd(id: Id, edge: Edge, direction: Direction)
    requires direction != Incoming
    ensures Neighbor(id, edge, direction) == OtherEnd(id, edge, direction == Both)
  {}

  lemma FactsOf(request: TraversalRequest, facts: TraversalResult)
    ensures FactsWeb(request, facts).ids == Ids(facts.nodes)
    ensures FactsWeb(request, facts).edges == EdgeSet(facts.edges)
    ensures FactsWeb(request, facts).undirected == (request.direction == Both)
  {}

  lemma StepFrom(g: Graph, request: TraversalRequest, ids: set<Id>, a: Id, edge: Edge, b: Id)
    requires a in ids && InScope(request, a) && Follows(g, request, a, edge, b)
    ensures b in Step(g, request, ids) && edge in EdgesFrom(g, request, ids)
  {}

  lemma ReturnedEdge(g: Graph, request: TraversalRequest, facts: TraversalResult, a: Id, edge: Edge, b: Id, depth: nat)
    requires !Malformed(request) && request.direction != Incoming && Complete(g, request, facts)
    requires a in Within(g, request, depth) && depth < request.maxDepth
    requires InScope(request, a) && Follows(g, request, a, edge, b)
    ensures Leads(FactsWeb(request, facts), a, edge, b)
  {
    hide InScope, Within, Step, EdgesFrom, FactsWeb;
    FactsOf(request, facts);
    NeighborIsOtherEnd(a, edge, request.direction);
    WithinGrows(g, request, depth, request.maxDepth - 1);
    StepFrom(g, request, Within(g, request, request.maxDepth - 1), a, edge, b);
    WithinNext(g, request, request.maxDepth - 1);
  }

  /** A complete traversal returned every walk that fits its depth. */
  lemma {:induction false} ReachedInFacts(g: Graph, request: TraversalRequest, facts: TraversalResult, source: Id,
          walk: seq<Edge>, target: Id)
    requires !Malformed(request) && request.start == [source] && request.direction != Incoming
    requires Complete(g, request, facts)
    requires Reaches(g, request, source, walk, target) && |walk| <= request.maxDepth
    ensures IsWalk(FactsWeb(request, facts), source, walk, target)
  {
    FactsOf(request, facts);
    if walk == [] {
      WithinGrows(g, request, 0, request.maxDepth);
    } else {
      var last := |walk| - 1;
      var a := LastReach(g, request, source, walk, target);
      ReachedInFacts(g, request, facts, source, walk[..last], a);
      ReachedWithin(g, request, source, walk[..last], a);
      ReturnedEdge(g, request, facts, a, walk[last], target, last);
      hide Within, Complete, Follows, Malformed, InScope, FactsWeb, Leads, IsWalk;
      Append(FactsWeb(request, facts), source, walk[..last], a, walk[last], target);
      assert walk[..last] + [walk[last]] == walk;
    }
  }

  /** An edge that the traversal followed is followed from this node too. */
  ghost predicate Retraces(g: Graph, request: TraversalRequest, facts: TraversalResult) {
    forall a, edge, b {:trigger Leads(FactsWeb(request, facts), a, edge, b)} ::
      a in Ids(facts.nodes) && Leads(FactsWeb(request, facts), a, edge, b) ==>
        InScope(request, a) && Follows(g, request, a, edge, b)
  }

  lemma {:induction false} FactsAreReached(g: Graph, request: TraversalRequest, facts: TraversalResult, source: Id,
          walk: seq<Edge>, target: Id)
    requires !Malformed(request) && request.direction != Incoming && Sound(g, request, facts)
    requires Retraces(g, request, facts) && IsWalk(FactsWeb(request, facts), source, walk, target)
    ensures Reaches(g, request, source, walk, target)
  {
    FactsOf(request, facts);
    if walk == [] {
      assert exists node :: node in facts.nodes && node.id == source;
    } else {
      var last := |walk| - 1;
      var a := LastStep(FactsWeb(request, facts), source, walk, target);
      FactsAreReached(g, request, facts, source, walk[..last], a);
      WalkEnds(FactsWeb(request, facts), source, walk[..last]);
      NeighborIsOtherEnd(a, walk[last], request.direction);
    }
  }

  /** Outgoing edges were followed from their source, which is in scope. */
  lemma OutgoingRetraces(g: Graph, request: TraversalRequest, facts: TraversalResult)
    requires !Malformed(request) && request.direction == Outgoing && Sound(g, request, facts)
    ensures Retraces(g, request, facts)
  {
    FactsOf(request, facts);
    forall a, edge, b | a in Ids(facts.nodes) && Leads(FactsWeb(request, facts), a, edge, b)
      ensures InScope(request, a) && Follows(g, request, a, edge, b)
    {
      assert edge in FollowedEdges(g, request, request.maxDepth);
    }
  }

  /** Without a scope boundary every returned node is in scope. */
  lemma UnboundedRetraces(g: Graph, request: TraversalRequest, facts: TraversalResult)
    requires !Malformed(request) && request.direction == Both && Sound(g, request, facts)
    requires facts.boundary.None? && BoundaryAt(g, request, facts.boundary, Ids(facts.nodes), request.maxDepth)
    ensures Retraces(g, request, facts)
  {
    FactsOf(request, facts);
    forall a, edge, b | a in Ids(facts.nodes) && Leads(FactsWeb(request, facts), a, edge, b)
      ensures InScope(request, a) && Follows(g, request, a, edge, b)
    {
      assert edge in FollowedEdges(g, request, request.maxDepth);
      assert a in Scoped(request, Ids(facts.nodes));
      NeighborIsOtherEnd(a, edge, request.direction);
    }
  }

  /** What the returned edges join to the source within k steps ends a walk in the facts of that length. */
  lemma {:induction false} JoinedWalk(request: TraversalRequest, facts: TraversalResult, source: Id, k: nat,
          target: Id) returns (walk: seq<Edge>)
    requires request.direction != Incoming && source in Ids(facts.nodes)
    requires forall edge :: edge in facts.edges ==> edge.source in Ids(facts.nodes) && edge.target in Ids(facts.nodes)
    requires target in Joined(request, {source}, EdgeSet(facts.edges), k)
    ensures |walk| <= k && IsWalk(FactsWeb(request, facts), source, walk, target)
    decreases k
  {
    FactsOf(request, facts);
    if k == 0 {
      walk := [];
    } else if target in Joined(request, {source}, EdgeSet(facts.edges), k - 1) {
      walk := JoinedWalk(request, facts, source, k - 1, target);
    } else {
      var a, edge :| a in Joined(request, {source}, EdgeSet(facts.edges), k - 1) && edge in EdgeSet(facts.edges)
        && InScope(request, a) && Neighbor(a, edge, request.direction) == Some(target);
      var before := JoinedWalk(request, facts, source, k - 1, a);
      NeighborIsOtherEnd(a, edge, request.direction);
      Append(FactsWeb(request, facts), source, before, a, edge, target);
      walk := before + [edge];
    }
  }

  lemma SourceIsReturned(g: Graph, request: TraversalRequest, facts: TraversalResult, source: Id, target: Id)
    requires !Malformed(request) && request.start == [source] && Traversed(g, request, facts)
    requires target in Ids(facts.nodes)
    ensures source in Ids(facts.nodes) && Starts(g, request) == {source}
  {
    if source in g.nodes {
      assert Starts(g, request) == {source};
      hide Sound, BoundaryAt, CutOff, Follows, Step;
      WithinGrows(g, request, 0, request.maxDepth);
      if NodeLimit in facts.reasons && !(Ids(facts.nodes) < {source}) {
        var k: nat :| Within(g, request, k) <= Ids(facts.nodes);
        WithinGrows(g, request, 0, k);
      }
    } else {
      assert Starts(g, request) == {};
      NowhereFromNothing(g, request, request.maxDepth);
    }
  }

  lemma {:induction false} NowhereFromNothing(g: Graph, request: TraversalRequest, k: nat)
    requires Starts(g, request) == {}
    ensures Within(g, request, k) == {}
  {
    if k > 0 {
      NowhereFromNothing(g, request, k - 1);
    }
  }

  /** With or without a limit: the target has a path exactly when the traversal returned it, and the path
      fits the depth. */
  lemma FoundIfReturned(g: Graph, request: TraversalRequest, facts: TraversalResult, source: Id, target: Id,
          path: PathResult)
    requires !Malformed(request) && request.start == [source] && request.direction != Incoming
    requires Traversed(g, request, facts) && Finds(FactsWeb(request, facts), source, target, path)
    ensures path.nodes != [] <==> target in Ids(facts.nodes)
    ensures path.nodes != [] ==> |path.edges| <= request.maxDepth
  {
    FactsOf(request, facts);
    if target in Ids(facts.nodes) {
      SourceIsReturned(g, request, facts, source, target);
      var walk := JoinedWalk(request, facts, source, request.maxDepth, target);
      assert path.nodes != [] ==> AtMost(path.edges, walk);
    } else if path.nodes != [] {
      WalkEnds(FactsWeb(request, facts), source, path.edges);
    }
  }

  // ----- the composition --------------------------------------------------------------------

  ghost predicate CanReach(g: Graph, request: TraversalRequest, source: Id, target: Id) {
    exists walk :: |walk| <= request.maxDepth && Reaches(g, request, source, walk, target)
  }

  /** The path is the first of all walks that fit the depth: a shortest one. */
  ghost predicate FirstReach(g: Graph, request: TraversalRequest, source: Id, target: Id, walk: seq<Edge>) {
    && |walk| <= request.maxDepth && Reaches(g, request, source, walk, target)
    && forall other :: |other| <= request.maxDepth && Reaches(g, request, source, other, target) ==> AtMost(walk, other)
  }

  /** In a complete traversal a path is found exactly when some walk through the graph fits the depth. */
  lemma FoundIfReachable(g: Graph, request: TraversalRequest, facts: TraversalResult, source: Id, target: Id,
          path: PathResult)
    requires !Malformed(request) && request.start == [source] && request.direction != Incoming
    requires Complete(g, request, facts) && Finds(FactsWeb(request, facts), source, target, path)
    ensures path.nodes != [] <==> CanReach(g, request, source, target)
    ensures path.nodes != [] ==>
      forall other ::
        |other| <= request.maxDepth && Reaches(g, request, source, other, target) ==> AtMost(path.edges, other)
  {
    forall walk | |walk| <= request.maxDepth && Reaches(g, request, source, walk, target)
      ensures path.nodes != [] && AtMost(path.edges, walk)
    {
      ReachedInFacts(g, request, facts, source, walk, target);
    }
    if path.nodes != [] {
      WalkEnds(FactsWeb(request, facts), source, path.edges);
      FactsOf(request, facts);
      var walk := WithinIsReached(g, request, source, request.maxDepth, target);
      assert |walk| <= request.maxDepth && Reaches(g, request, source, walk, target);
    }
  }

  /** What FindPathSnapshot's directed search promises about the whole graph. */
  ghost predicate AnswersDirected(g: Graph, request: TraversalRequest, facts: TraversalResult, source: Id, target: Id,
          path: PathResult) {
    && (path.nodes != [] <==> target in Ids(facts.nodes))
    && (path.nodes != [] ==>
      && Reaches(g, request, source, path.edges, target)
      && |path.nodes| == |path.edges| + 1 && |path.edges| <= request.maxDepth)
    && (NodeLimit !in facts.reasons ==>
      && (path.nodes != [] <==> CanReach(g, request, source, target))
      && (path.nodes != [] ==> FirstReach(g, request, source, target, path.edges)))
  }

  lemma DirectedPathTheorem(g: Graph, request: TraversalRequest, facts: TraversalResult, source: Id, target: Id,
          path: PathResult)
    requires !Malformed(request) && request.start == [source] && request.direction == Outgoing
    requires Traversed(g, request, facts) && Finds(FactsWeb(request, facts), source, target, path)
    ensures AnswersDirected(g, request, facts, source, target, path)
  {
    FoundIfReturned(g, request, facts, source, target, path);
    if path.nodes != [] {
      OutgoingRetraces(g, request, facts);
      FactsAreReached(g, request, facts, source, path.edges, target);
      assert |IdsOf(path.nodes)| == |path.nodes|;
    }
    if NodeLimit !in facts.reasons {
      FoundIfReachable(g, request, facts, source, target, path);
    }
  }

  // ----- the fallback -----------------------------------------------------------------------

  /** Everything within the depth, with the edges followed there.  The fallback searches these edges again,
      without asking which end was in scope. */
  ghost function LooseWeb(g: Graph, request: TraversalRequest): Web
    requires request.maxDepth >= 0
  {
    Web(Within(g, request, request.maxDepth), FollowedEdges(g, request, request.maxDepth), request.direction == Both)
  }

  ghost predicate LooseWalk(g: Graph, request: TraversalRequest, source: Id, walk: seq<Edge>, target: Id)
    requires request.maxDepth >= 0
  {
    IsWalk(LooseWeb(g, request), source, walk, target)
  }

  /** Some walk through the scope that fits the depth comes before every loose walk. */
  ghost predicate ScopeComesFirst(g: Graph, request: TraversalRequest, source: Id, target: Id)
    requires request.maxDepth >= 0
  {
    exists walk :: |walk| <= request.maxDepth && Reaches(g, request, source, walk, target)
      && forall other :: LooseWalk(g, request, source, other, target) ==> AtMost(walk, other)
  }

  /** Everything within the depth lies in the scope, the last step included. */
  ghost predicate AllInScope(g: Graph, request: TraversalRequest)
    requires request.maxDepth >= 0
  {
    forall id :: id in Within(g, request, request.maxDepth) ==> InScope(request, id)
  }

  lemma CompleteIsLoose(g: Graph, request: TraversalRequest, facts: TraversalResult)
    requires !Malformed(request) && Complete(g, request, facts)
    ensures FactsWeb(request, facts) == LooseWeb(g, request)
  {
    FactsOf(request, facts);
  }

  /** Without a node limit a scope boundary is reported exactly when the depth reaches out of the scope. */
  lemma BoundaryIsMet(g: Graph, request: TraversalRequest, facts: TraversalResult)
    requires !Malformed(request) && Traversed(g, request, facts) && NodeLimit !in facts.reasons
    ensures facts.boundary.None? <==> AllInScope(g, request)
  {
    var ids := Within(g, request, request.maxDepth);
    assert Ids(facts.nodes) == ids && BoundaryAt(g, request, facts.boundary, ids, request.maxDepth);
    hide Traversed, Complete, Within, InScope;
    assert forall id :: id in Scoped(request, ids) <==> id in ids && InScope(request, id);
  }

  /** The fallback's path stays in the scope exactly when a walk through the scope comes before all that the
      search may also take. */
  lemma StaysInScope(g: Graph, request: TraversalRequest, facts: TraversalResult, source: Id, target: Id,
          path: PathResult)
    requires !Malformed(request) && request.start == [source] && request.direction == Both
    requires Complete(g, request, facts) && Finds(FactsWeb(request, facts), source, target, path)
    requires path.nodes != [] && |path.edges| <= request.maxDepth
    ensures Reaches(g, request, source, path.edges, target) <==> ScopeComesFirst(g, request, source, target)
  {
    FoundIfReachable(g, request, facts, source, target, path);
    CompleteIsLoose(g, request, facts);
    hide Complete, LooseWeb, FactsWeb, Wander, Reaches, Malformed;
    forall walk | |walk| <= request.maxDepth && Reaches(g, request, source, walk, target)
      && forall other :: LooseWalk(g, request, source, other, target) ==> AtMost(walk, other)
      ensures walk == path.edges
    {
      assert LooseWalk(g, request, source, path.edges, target);
      NotBoth(walk, path.edges);
    }
    assert forall other :: LooseWalk(g, request, source, other, target) ==> AtMost(path.edges, other);
  }

  // ----- a condition under which the fallback stays in the scope ----------------------------

  predicate Touches(edge: Edge, id: Id) {
    edge.source == id || edge.target == id
  }

  ghost predicate DeadEnd(edges: set<Edge>, id: Id) {
    forall e, f :: e in edges && f in edges && Touches(e, id) && Touches(f, id) ==> e == f
  }

  /** A node outside the scope is the end of at most one of the edges followed within the depth. */
  ghost predicate OutsideIsDeadEnd(g: Graph, request: TraversalRequest)
    requires request.maxDepth >= 0
  {
    forall id :: id in Within(g, request, request.maxDepth) && !InScope(request, id) ==>
      DeadEnd(FollowedEdges(g, request, request.maxDepth), id)
  }

  lemma {:induction false} WalkPrefix(web: Web, source: Id, walk: seq<Edge>, k: nat, target: Id) returns (a: Id)
    requires k <= |walk| && IsWalk(web, source, walk, target)
    ensures IsWalk(web, source, walk[..k], a)
  {
    if k == |walk| {
      assert walk[..k] == walk;
      a := target;
    } else {
      var b := LastStep(web, source, walk, target);
      a := WalkPrefix(web, source, walk[..|walk| - 1], k, b);
      assert walk[..|walk| - 1][..k] == walk[..k];
    }
  }

  /** Walks that end at the same node go on in the same way. */
  lemma {:induction false} SameContinuation(web: Web, source: Id, walk: seq<Edge>, other: seq<Edge>, more: seq<Edge>,
          a: Id, target: Id)
    requires IsWalk(web, source, walk, a) && IsWalk(web, source, other, a)
    requires IsWalk(web, source, walk + more, target)
    ensures IsWalk(web, source, other + more, target)
  {
    if more == [] {
      assert walk + more == walk && other + more == other;
    } else {
      var last := |more| - 1;
      var b := LastStep(web, source, walk + more, target);
      assert (walk + more)[..|walk + more| - 1] == walk + more[..last];
      SameContinuation(web, source, walk, other, more[..last], a, b);
      Append(web, source, other + more[..last], b, more[last], target);
      assert other + more[..last] + [more[last]] == other + more;
    }
  }

  /** A walk that goes along an edge and straight back is not a first one. */
  lemma NoTurningBack(web: Web, source: Id, walk: seq<Edge>, k: nat, target: Id, a: Id, b: Id, c: Id)
    requires web.undirected && k + 2 <= |walk| && IsWalk(web, source, walk, target)
    requires IsWalk(web, source, walk[..k], a) && Leads(web, a, walk[k], b) && Leads(web, b, walk[k + 1], c)
    requires forall other :: IsWalk(web, source, other, target) ==> AtMost(walk, other)
    ensures walk[k] != walk[k + 1]
  {
    if walk[k] == walk[k + 1] {
      hide IsWalk;
      assert a == c;
      Append(web, source, walk[..k], a, walk[k], b);
      Append(web, source, walk[..k] + [walk[k]], b, walk[k + 1], c);
      assert walk[..k] + [walk[k]] + [walk[k + 1]] + walk[k + 2..] == walk;
      assert |walk[..k] + walk[k + 2..]| < |walk|;
      SameContinuation(web, source, walk[..k] + [walk[k]] + [walk[k + 1]], walk[..k], walk[k + 2..], a, target);
    }
  }

  /** From a source outside the scope no edge is followed. */
  lemma {:induction false} OutsideSourceIsStuck(g: Graph, request: TraversalRequest, source: Id, k: nat)
    requires request.start == [source] && !InScope(request, source)
    ensures Within(g, request, k) <= {source} && FollowedEdges(g, request, k) == {}
  {
    if k > 0 {
      OutsideSourceIsStuck(g, request, source, k - 1);
    }
  }

  lemma FollowedAgain(g: Graph, request: TraversalRequest, a: Id, edge: Edge, b: Id)
    requires request.maxDepth >= 0 && request.direction == Both && Leads(LooseWeb(g, request), a, edge, b)
    ensures Follows(g, request, a, edge, b) && Touches(edge, a) && Touches(edge, b)
  {
    NeighborIsOtherEnd(a, edge, Both);
    WithinVisible(g, request, request.maxDepth);
  }

  lemma {:induction false} WithinVisible(g: Graph, request: TraversalRequest, k: nat)
    ensures Within(g, request, k) <= g.nodes.Keys
  {
    if k > 0 {
      WithinVisible(g, request, k - 1);
    }
  }

  lemma ReachOn(g: Graph, request: TraversalRequest, source: Id, walk: seq<Edge>, a: Id, edge: Edge, b: Id)
    requires Reaches(g, request, source, walk, a) && InScope(request, a) && Follows(g, request, a, edge, b)
    ensures Reaches(g, request, source, walk + [edge], b)
  {
    assert (walk + [edge])[..|walk|] == walk;
  }

  /** A first walk leaves no node outside the scope. */
  lemma LeavesNothingOutside(g: Graph, request: TraversalRequest, source: Id, walk: seq<Edge>, target: Id, k: nat,
          a: Id, b: Id)
    requires request.maxDepth >= 0 && request.start == [source] && request.direction == Both
    requires OutsideIsDeadEnd(g, request) && 0 < k <= |walk| && LooseWalk(g, request, source, walk, target)
    requires forall other :: LooseWalk(g, request, source, other, target) ==> AtMost(walk, other)
    requires LooseWalk(g, request, source, walk[..k - 1], a) && Leads(LooseWeb(g, request), a, walk[k - 1], b)
    ensures InScope(request, a)
  {
    var web := LooseWeb(g, request);
    if !InScope(request, a) {
      if k == 1 {
        OutsideSourceIsStuck(g, request, source, request.maxDepth);
      } else {
        var c := LastStep(web, source, walk[..k - 1], a);
        assert walk[..k - 1][..k - 2] == walk[..k - 2];
        FollowedAgain(g, request, c, walk[k - 2], a);
        FollowedAgain(g, request, a, walk[k - 1], b);
        NoTurningBack(web, source, walk, k - 2, target, c, a, b);
      }
    }
  }

  lemma StartIsVisible(g: Graph, request: TraversalRequest, source: Id)
    requires request.maxDepth >= 0 && source in LooseWeb(g, request).ids
    ensures Reaches(g, request, source, [], source)
  {
    WithinVisible(g, request, request.maxDepth);
  }

  /** Where nothing outside the scope can be passed through, the first of all loose walks stays inside. */
  lemma {:induction false} FirstStaysInScope(g: Graph, request: TraversalRequest, source: Id, walk: seq<Edge>,
          target: Id, k: nat) returns (b: Id)
    requires request.maxDepth >= 0 && request.start == [source] && request.direction == Both
    requires OutsideIsDeadEnd(g, request) && k <= |walk| && LooseWalk(g, request, source, walk, target)
    requires forall other :: LooseWalk(g, request, source, other, target) ==> AtMost(walk, other)
    ensures Reaches(g, request, source, walk[..k], b) && LooseWalk(g, request, source, walk[..k], b)
  {
    hide Within, FollowedEdges, AtMost, OutsideIsDeadEnd, Follows, InScope, Reaches;
    var web := LooseWeb(g, request);
    b := WalkPrefix(web, source, walk, k, target);
    if k == 0 {
      StartIsVisible(g, request, source);
    } else {
      var a := LastStep(web, source, walk[..k], b);
      assert walk[..k][..k - 1] == walk[..k - 1];
      var c := FirstStaysInScope(g, request, source, walk, target, k - 1);
      FollowedAgain(g, request, a, walk[k - 1], b);
      LeavesNothingOutside(g, request, source, walk, target, k, a, b);
      ReachOn(g, request, source, walk[..k - 1], a, walk[k - 1], b);
      assert walk[..k - 1] + [walk[k - 1]] == walk[..k];
    }
  }

  /** If every node outside the scope is a dead end, the fallback's path stays in the scope. */
  lemma DeadEndsKeepScope(g: Graph, request: TraversalRequest, source: Id, walk: seq<Edge>, target: Id)
    requires request.maxDepth >= 0 && request.start == [source] && request.direction == Both
    requires LooseWalk(g, request, source, walk, target)
    requires forall other :: LooseWalk(g, request, source, other, target) ==> AtMost(walk, other)
    ensures OutsideIsDeadEnd(g, request) ==> Reaches(g, request, source, walk, target)
  {
    if OutsideIsDeadEnd(g, request) {
      hide OutsideIsDeadEnd, Within, FollowedEdges;
      var b := FirstStaysInScope(g, request, source, walk, target, |walk|);
      assert walk[..|walk|] == walk;
    }
  }

  /** The fallback also finds a path exactly when there is one, and it says when that path is sure to stay
      inside the scope. */
  ghost predicate AnswersUndirected(g: Graph, request: TraversalRequest, facts: TraversalResult, source: Id, target: Id,
          path: PathResult)
    requires request.maxDepth >= 0
  {
    && (path.nodes != [] <==> target in Ids(facts.nodes))
    && (path.nodes != [] ==> |path.edges| <= request.maxDepth)
    && (NodeLimit !in facts.reasons ==>
      && (path.nodes != [] <==> CanReach(g, request, source, target))
      && (facts.boundary.None? <==> AllInScope(g, request))
      && (path.nodes != [] ==>
        && LooseWalk(g, request, source, path.edges, target)
        && (forall other :: LooseWalk(g, request, source, other, target) ==> AtMost(path.edges, other))
        && (Reaches(g, request, source, path.edges, target) <==> ScopeComesFirst(g, request, source, target))
        && (OutsideIsDeadEnd(g, request) ==> Reaches(g, request, source, path.edges, target))
        && (Reaches(g, request, source, path.edges, target) ==> FirstReach(g, request, source, target, path.edges))))
    && (path.nodes != [] && facts.boundary.None? ==> Reaches(g, request, source, path.edges, target))
  }

  lemma UndirectedPathTheorem(g: Graph, request: TraversalRequest, facts: TraversalResult, source: Id, target: Id,
          path: PathResult)
    requires !Malformed(request) && request.start == [source] && request.direction == Both
    requires Traversed(g, request, facts) && Finds(FactsWeb(request, facts), source, target, path)
    ensures AnswersUndirected(g, request, facts, source, target, path)
  {
    FoundIfReturned(g, request, facts, source, target, path);
    if path.nodes != [] && facts.boundary.None? {
      UnboundedRetraces(g, request, facts);
      FactsAreReached(g, request, facts, source, path.edges, target);
    }
    if NodeLimit !in facts.reasons {
      FoundIfReachable(g, request, facts, source, target, path);
      BoundaryIsMet(g, request, facts);
      CompleteIsLoose(g, request, facts);
      if path.nodes != [] {
        StaysInScope(g, request, facts, source, target, path);
        DeadEndsKeepScope(g, request, source, path.edges, target);
      }
    }
  }

  // ----- FindPathSnapshot -------------------------------------------------------------------

  const MAX_SEEDS_PER_TERM := 3

  datatype PathRequest = PathRequest(scope: set<Id>, relations: set<Relation>, maxDepth: int, maxNodes: int,
    allowFallback: bool)

  datatype Candidates = Candidates(nodes: seq<Node>, remainder: nat)

  datatype FoundPath = FoundPath(sources: Candidates, targets: Candidates, path: PathResult, boundary: Option<Node>,
    fallbackAttempted: bool, fallbackUsed: bool)

  /** ambiguousPathCandidates and pathCandidateRemainder */
  function Ambiguous(nodes: seq<Node>): (c: Candidates)
    ensures |nodes| != 1 ==>
      c.nodes <= nodes && |c.nodes| == Min(|nodes|, 3) && |c.nodes| + c.remainder == |nodes|
    ensures |nodes| == 1 ==> c == Candidates([], 0)
  {
    if |nodes| == 1 then Candidates([], 0)
    else if |nodes| <= MAX_SEEDS_PER_TERM then Candidates(nodes, 0)
    else Candidates(nodes[..MAX_SEEDS_PER_TERM], |nodes| - MAX_SEEDS_PER_TERM)
  }

  function Query(request: PathRequest, source: Id, direction: Direction): TraversalRequest {
    TraversalRequest([source], request.scope, direction, request.relations, request.maxDepth, request.maxNodes)
  }

  const NO_PATH := PathResult([], [])

  const NO_CANDIDATES := Candidates([], 0)

  /** The facts are all that the edges' sources and targets let the query reach, and the path is the first one
      through them. */
  ghost predicate PathOfFacts(g: Graph, query: TraversalRequest, facts: TraversalResult, source: Id, target: Id,
          path: PathResult) {
    Charted(g, query, facts) && FindsFirst(facts.nodes, facts.edges, query.direction == Both, source, target, path)
  }

  /** directedPath and undirectedPath on what one traversal returned. */
  method PathIn(g: Graph, query: TraversalRequest, source: Id,
          target: Id) returns (outcome: Result<PathResult, TraversalError>, facts: TraversalResult)
    requires g.Valid() && !Malformed(query) && query.start == [source] && query.direction != Incoming
    ensures outcome.Err? ==> source in g.nodes && !InScope(query, source) && outcome.error == StartOutsideScope(source)
    ensures outcome.Ok? ==>
      && Traversed(g, query, facts) && Finds(FactsWeb(query, facts), source, target, outcome.value)
      && PathOfFacts(g, query, facts, source, target, outcome.value)
  {
    hide Traversed, Finds, Charted, FindsFirst;
    var traversal := Traverse(g, query);
    if traversal.Err? {
      return Err(traversal.error), TraversalResult([], [], [], None);
    }
    facts := traversal.value;
    var path := ShortestPath.ShortestPath(facts.nodes, facts.edges, source, target, query.direction == Both);
    return Ok(path), facts;
  }

  /** A result for two unique endpoints: from the directed search, or from the fallback after that. */
  ghost predicate Answers(g: Graph, request: PathRequest, source: Id, target: Id, found: FoundPath,
          directed: TraversalResult, fallback: TraversalResult)
    requires request.maxDepth >= 0 && request.maxNodes > 0
  {
    var outgoing := TraversalRequest([source], request.scope, Outgoing, request.relations, request.maxDepth,
      request.maxNodes);
    var both := outgoing.(direction := Both);
    && found.sources == found.targets == Candidates([], 0)
    && Traversed(g, outgoing, directed)
    && (if found.fallbackAttempted then
          && request.allowFallback && found.fallbackUsed == (found.path.nodes != [])
          && (NodeLimit !in directed.reasons ==> !CanReach(g, outgoing, source, target))
          && Traversed(g, both, fallback) && AnswersUndirected(g, both, fallback, source, target, found.path)
          && PathOfFacts(g, both, fallback, source, target, found.path)
        else
          && !found.fallbackUsed && (request.allowFallback ==> found.path.nodes != [])
          && AnswersDirected(g, outgoing, directed, source, target, found.path)
          && PathOfFacts(g, outgoing, directed, source, target, found.path))
    && found.boundary
      == (if found.path.nodes == [] then None else if found.fallbackAttempted then fallback.boundary
      else directed.boundary)
  }

  /** FindPathSnapshot, given what the lookups of its two endpoints matched; the traversals are returned to
      state what the path means. */
  method FindPathSnapshot(g: Graph, sources: seq<Node>, targets: seq<Node>, request: PathRequest)
    returns (outcome: Result<FoundPath, TraversalError>, ghost directed: TraversalResult,
      ghost fallback: TraversalResult)
    requires g.Valid()
    ensures request.maxDepth < 0 || request.maxNodes <= 0 ==> outcome == Err(InvalidRequest)
    ensures outcome.Err? && request.maxDepth >= 0 && request.maxNodes > 0 ==>
      |sources| == |targets| == 1 && outcome.error == StartOutsideScope(sources[0].id) && request.scope != {}
        && sources[0].id !in request.scope
    ensures outcome.Ok? && (|sources| != 1 || |targets| != 1) ==>
      outcome.value == FoundPath(Ambiguous(sources), Ambiguous(targets), NO_PATH, None, false, false)
    ensures outcome.Ok? && |sources| == |targets| == 1 ==>
      request.maxDepth >= 0 && request.maxNodes > 0
        && Answers(g, request, sources[0].id, targets[0].id, outcome.value, directed, fallback)
  {
    directed, fallback := TraversalResult([], [], [], None), TraversalResult([], [], [], None);
    if request.maxDepth < 0 || request.maxNodes <= 0 {
      outcome := Err(InvalidRequest);
      return;
    }
    if |sources| != 1 || |targets| != 1 {
      outcome := Ok(FoundPath(Ambiguous(sources), Ambiguous(targets), NO_PATH, None, false, false));
      return;
    }
    hide Traversed, Finds, AnswersDirected, AnswersUndirected, CanReach, PathOfFacts;
    var source, target := sources[0].id, targets[0].id;
    var query := Query(request, source, Outgoing);
    var first, facts := PathIn(g, query, source, target);
    if first.Err? {
      outcome := Err(first.error);
      return;
    }
    directed := facts;
    DirectedPathTheorem(g, query, facts, source, target, first.value);
    if |first.value.nodes| > 0 || !request.allowFallback {
      var boundary := WithBoundary(first.value, facts.boundary);
      outcome := Ok(FoundPath(NO_CANDIDATES, NO_CANDIDATES, first.value, boundary, false, false));
      return;
    }
    NothingDirected(g, query, facts, source, target, first.value);
    var undirectedQuery := Query(request, source, Both);
    var second, moreFacts := PathIn(g, undirectedQuery, source, target);
    if second.Err? {
      outcome := Err(second.error);
      return;
    }
    fallback := moreFacts;
    UndirectedPathTheorem(g, undirectedQuery, moreFacts, source, target, second.value);
    var boundary := WithBoundary(second.value, moreFacts.boundary);
    outcome := Ok(FoundPath(NO_CANDIDATES, NO_CANDIDATES, second.value, boundary, true, |second.value.nodes| > 0));
  }

  /** withTraversalScopeBoundary */
  function WithBoundary(path: PathResult, boundary: Option<Node>): Option<Node> {
    if path.nodes == [] then None else boundary
  }

  lemma NothingDirected(g: Graph, request: TraversalRequest, facts: TraversalResult, source: Id, target: Id,
          path: PathResult)
    requires AnswersDirected(g, request, facts, source, target, path) && path.nodes == []
    ensures NodeLimit !in facts.reasons ==> !CanReach(g, request, source, target)
  {}

  // ----- when no node limit can be met ------------------------------------------------------

  lemma {:induction false} DistinctIds(nodes: seq<Node>)
    requires forall i, j :: 0 <= i < j < |nodes| ==> nodes[i].id < nodes[j].id
    ensures |Ids(nodes)| == |nodes|
  {
    if nodes != [] {
      var before, last := nodes[..|nodes| - 1], nodes[|nodes| - 1];
      DistinctIds(before);
      assert nodes == before + [last];
      assert Ids(nodes) == Ids(before) + {last.id} && last.id !in Ids(before);
    }
  }

  lemma SubsetIsNoLarger(ids: set<Id>, all: set<Id>)
    requires ids <= all
    ensures |ids| <= |all|
  {
    assert all == ids + (all - ids);
  }

  /** A graph with fewer nodes than the limit is never cut off by it. */
  lemma FewNodesNoLimit(g: Graph, request: TraversalRequest, facts: TraversalResult)
    requires !Malformed(request) && Traversed(g, request, facts) && |g.nodes| < request.maxNodes
    ensures NodeLimit !in facts.reasons
  {
    DistinctIds(facts.nodes);
    SubsetIsNoLarger(Ids(facts.nodes), g.nodes.Keys);
    assert |g.nodes| == |g.nodes.Keys|;
  }

  // ----- a fallback path that leaves the scope ----------------------------------------------

  const DETOUR_GRAPH := Graph(map[0 := Node(0, ""), 1 := Node(1, ""), 2 := Node(2, ""), 3 := Node(3, "")],
                              [Edge(0, 2, 0), Edge(1, 2, 0), Edge(3, 0, 0), Edge(3, 1, 0)])

  const DETOUR_REQUEST := PathRequest({0, 1, 3}, {}, 3, 10, true)

  const DETOUR_QUERY := Query(DETOUR_REQUEST, 0, Both)

  const OUTSIDE := [Edge(0, 2, 0), Edge(1, 2, 0)]

  const INSIDE := [Edge(3, 0, 0), Edge(3, 1, 0)]

  /** Going forward only, the source reaches nothing but the node outside the scope. */
  lemma {:induction false} ForwardIsStuck(k: nat)
    ensures Within(DETOUR_GRAPH, Query(DETOUR_REQUEST, 0, Outgoing), k) <= {0, 2}
  {
    if k > 0 {
      ForwardIsStuck(k - 1);
    }
  }

  lemma NoForwardPath()
    ensures !CanReach(DETOUR_GRAPH, Query(DETOUR_REQUEST, 0, Outgoing), 0, 1)
  {
    var request := Query(DETOUR_REQUEST, 0, Outgoing);
    forall walk
      ensures !Reaches(DETOUR_GRAPH, request, 0, walk, 1)
    {
      ForwardIsStuck(|walk|);
      if Reaches(DETOUR_GRAPH, request, 0, walk, 1) {
        ReachedWithin(DETOUR_GRAPH, request, 0, walk, 1);
      }
    }
  }

  lemma InsideDetour()
    ensures Reaches(DETOUR_GRAPH, DETOUR_QUERY, 0, INSIDE, 1)
  {
    assert INSIDE[..1] == [Edge(3, 0, 0)] && [Edge(3, 0, 0)][..0] == [];
    assert Wander(DETOUR_GRAPH, DETOUR_QUERY, 0, [Edge(3, 0, 0)]) == Some(3);
  }

  lemma LooseStep(g: Graph, request: TraversalRequest, a: Id, edge: Edge, b: Id, depth: nat)
    requires request.direction == Both && a in Within(g, request, depth) && depth < request.maxDepth
    requires InScope(request, a) && Follows(g, request, a, edge, b)
    ensures edge in FollowedEdges(g, request, request.maxDepth)
    ensures a in Within(g, request, request.maxDepth) && b in Within(g, request, request.maxDepth)
  {
    hide InScope, Within, Step, EdgesFrom;
    WithinGrows(g, request, depth, request.maxDepth - 1);
    StepFrom(g, request, Within(g, request, request.maxDepth - 1), a, edge, b);
    WithinNext(g, request, request.maxDepth - 1);
  }

  lemma SourceFirst(g: Graph, request: TraversalRequest)
    requires request.start == [0] && 0 in g.nodes
    ensures 0 in Within(g, request, 0)
  {}

  lemma TwoEdgeWalk(web: Web, source: Id, first: Edge, middle: Id, second: Edge, target: Id)
    requires source in web.ids && Leads(web, source, first, middle) && Leads(web, middle, second, target)
    ensures IsWalk(web, source, [first, second], target)
  {
    assert IsWalk(web, source, [], source);
    hide Leads;
    Append(web, source, [], source, first, middle);
    Append(web, source, [] + [first], middle, second, target);
    assert [] + [first] + [second] == [first, second];
  }

  lemma OutsideIsLoose()
    ensures LooseWalk(DETOUR_GRAPH, DETOUR_QUERY, 0, OUTSIDE, 1)
  {
    var g, request := DETOUR_GRAPH, DETOUR_QUERY;
    InsideDetour();
    ReachedWithin(g, request, 0, INSIDE, 1);
    SourceFirst(g, request);
    hide Within, Starts, Reaches, Wander;
    LooseStep(g, request, 0, Edge(0, 2, 0), 2, 0);
    LooseStep(g, request, 1, Edge(1, 2, 0), 2, 2);
    hide Within, FollowedEdges, InScope;
    TwoEdgeWalk(LooseWeb(g, request), 0, Edge(0, 2, 0), 2, Edge(1, 2, 0), 1);
  }

  lemma AtMostOutside(walk: seq<Edge>)
    ensures AtMost(walk, OUTSIDE) ==> |walk| <= 2 && (|walk| == 2 ==> walk[0] != Edge(3, 0, 0))
  {
    if |walk| == 2 && walk[0] == Edge(3, 0, 0) {
      assert walk[..1] == [Edge(3, 0, 0)] && OUTSIDE[..1] == [Edge(0, 2, 0)];
      assert walk[..1][..0] == [] == OUTSIDE[..1][..0];
      assert !LexLess(walk[..1], OUTSIDE[..1]) && walk[..1] != OUTSIDE[..1];
    }
  }

  lemma TwoSteps(walk: seq<Edge>)
    requires |walk| <= 2 && Reaches(DETOUR_GRAPH, DETOUR_QUERY, 0, walk, 1)
    ensures |walk| == 2 && walk[0] == Edge(3, 0, 0)
  {
    var g, request := DETOUR_GRAPH, DETOUR_QUERY;
    if walk != [] {
      var a := LastReach(g, request, 0, walk, 1);
      assert a == 3;
      if |walk| == 2 {
        var b := LastReach(g, request, 0, walk[..1], a);
        assert walk[..1][..0] == [] && b == 0;
      }
    }
  }

  lemma ScopeIsSecond()
    ensures !ScopeComesFirst(DETOUR_GRAPH, DETOUR_QUERY, 0, 1)
  {
    OutsideIsLoose();
    hide LooseWalk, LexLess, Wander;
    forall walk | Reaches(DETOUR_GRAPH, DETOUR_QUERY, 0, walk, 1)
      ensures !AtMost(walk, OUTSIDE)
    {
      AtMostOutside(walk);
      if |walk| <= 2 {
        TwoSteps(walk);
      }
    }
  }

  /** Every answer at this graph comes from the fallback, and its path runs through a node outside the scope
      although a path inside it is as short. */
  lemma FallbackLeavesScope(found: FoundPath, directed: TraversalResult, fallback: TraversalResult)
    requires Answers(DETOUR_GRAPH, DETOUR_REQUEST, 0, 1, found, directed, fallback)
    ensures found.fallbackAttempted && found.path.nodes != [] && |found.path.edges| == |INSIDE|
    ensures !Reaches(DETOUR_GRAPH, DETOUR_QUERY, 0, found.path.edges, 1)
    ensures Reaches(DETOUR_GRAPH, DETOUR_QUERY, 0, INSIDE, 1)
  {
    hide Traversed, CanReach, ScopeComesFirst, LooseWalk, Wander, AnswersDirected, AnswersUndirected, Reaches,
      PathOfFacts;
    assert |DETOUR_GRAPH.nodes| == 4 by {
      assert DETOUR_GRAPH.nodes.Keys == {0, 1, 2, 3};
    }
    NoForwardPath();
    FallbackMustAnswer(DETOUR_GRAPH, DETOUR_REQUEST, 0, 1, found, directed, fallback);
    InsideDetour();
    ReachableWith(DETOUR_GRAPH, DETOUR_QUERY, 0, 1, INSIDE);
    OutsideIsLoose();
    ScopeIsSecond();
    LooseAnswer(DETOUR_GRAPH, DETOUR_QUERY, fallback, 0, 1, found.path, OUTSIDE);
    ShortIsLoose(found.path.edges);
  }

  /** Where the directed search finds nothing and no node limit can be met, the fallback answers. */
  lemma FallbackMustAnswer(g: Graph, request: PathRequest, source: Id, target: Id, found: FoundPath,
          directed: TraversalResult, fallback: TraversalResult)
    requires request.maxDepth >= 0 && |g.nodes| < request.maxNodes && request.allowFallback
    requires Answers(g, request, source, target, found, directed, fallback)
    requires !CanReach(g, Query(request, source, Outgoing), source, target)
    ensures found.fallbackAttempted && NodeLimit !in fallback.reasons
    ensures AnswersUndirected(g, Query(request, source, Both), fallback, source, target, found.path)
  {
    hide Traversed, CanReach, AnswersUndirected, PathOfFacts;
    FewNodesNoLimit(g, Query(request, source, Outgoing), directed);
    if found.fallbackAttempted {
      FewNodesNoLimit(g, Query(request, source, Both), fallback);
    }
  }

  lemma ReachableWith(g: Graph, request: TraversalRequest, source: Id, target: Id, walk: seq<Edge>)
    requires |walk| <= request.maxDepth && Reaches(g, request, source, walk, target)
    ensures CanReach(g, request, source, target)
  {}

  lemma LooseAnswer(g: Graph, request: TraversalRequest, facts: TraversalResult, source: Id, target: Id,
          path: PathResult,
          walk: seq<Edge>)
    requires request.maxDepth >= 0 && AnswersUndirected(g, request, facts, source, target, path)
      && NodeLimit !in facts.reasons
    requires CanReach(g, request, source, target) && !ScopeComesFirst(g, request, source, target)
    requires LooseWalk(g, request, source, walk, target)
    ensures path.nodes != [] && LooseWalk(g, request, source, path.edges, target) && |path.edges| <= |walk|
    ensures !Reaches(g, request, source, path.edges, target)
  {
    hide CanReach, ScopeComesFirst, LooseWalk, Reaches;
    assert AtMost(path.edges, walk);
  }

  /** No single edge joins the two ends. */
  lemma ShortIsLoose(walk: seq<Edge>)
    requires LooseWalk(DETOUR_GRAPH, DETOUR_QUERY, 0, walk, 1)
    ensures |walk| >= 2
  {
    var web := LooseWeb(DETOUR_GRAPH, DETOUR_QUERY);
    hide Within;
    if walk != [] {
      var a := LastStep(web, 0, walk, 1);
      assert walk[|walk| - 1] in DETOUR_GRAPH.edges;
    }
  }
}
