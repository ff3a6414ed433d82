/** The bounded breadth-first traversal of one snapshot's graph. */
module Traversal {
  import opened Wrappers
  import opened GraphFacts
  import opened Sequences

  datatype Direction = Incoming | Outgoing | Both

  datatype Reason = DepthLimit | NodeLimit

  /** The visible nodes and edges of one snapshot. */
  datatype Graph = Graph(nodes: map<Id, Node>, edges: seq<Edge>) {
    ghost predicate Valid() {
      forall id :: id in nodes ==> nodes[id].id == id
    }
  }

  /** An empty scope or an empty set of relations does not restrict anything. */
  datatype TraversalRequest = TraversalRequest(start: seq<Id>, scope: set<Id>, direction: Direction,
    relations: set<Relation>, maxDepth: int, maxNodes: int)

  datatype TraversalResult = TraversalResult(nodes: seq<Node>, edges: seq<Edge>, reasons: seq<Reason>,
    boundary: Option<Node>)

  datatype TraversalError = InvalidRequest | StartOutsideScope(id: Id)

  // ----- what the traversal is for ----------------------------------------------------------

  /** traversalNeighbor */
  function Neighbor(id: Id, edge: Edge, direction: Direction): Option<Id> {
    if direction != Incoming && edge.source == id then Some(edge.target)
    else if direction != Outgoing && edge.target == id then Some(edge.source)
    else None
  }

  predicate Allowed(request: TraversalRequest, edge: Edge) {
    request.relations == {} || edge.relation in request.relations
  }

  predicate InScope(request: TraversalRequest, id: Id) {
    request.scope == {} || id in request.scope
  }

  /** The traversal goes from a along the edge to the visible node b. */
  predicate Follows(g: Graph, request: TraversalRequest, a: Id, edge: Edge, b: Id) {
    edge in g.edges && Allowed(request, edge) && Neighbor(a, edge, request.direction) == Some(b) && b in g.nodes
  }

  ghost function Starts(g: Graph, request: TraversalRequest): set<Id> {
    set id | id in request.start && id in g.nodes
  }

  /** One step from the in-scope nodes of a set. */
  ghost function Step(g: Graph, request: TraversalRequest, ids: set<Id>): set<Id> {
    set b | b in g.nodes.Keys && exists a, edge :: a in ids && InScope(request, a) && Follows(g, request, a, edge, b)
  }

  /** The nodes within k steps of a start node, walking through in-scope nodes only. */
  ghost function Within(g: Graph, request: TraversalRequest, k: nat): set<Id> {
    if k == 0 then Starts(g, request)
    else Within(g, request, k - 1) + Step(g, request, Within(g, request, k - 1))
  }

  /** The edges the traversal follows from the in-scope nodes of a set. */
  ghost function EdgesFrom(g: Graph, request: TraversalRequest, ids: set<Id>): set<Edge> {
    set edge | edge in g.edges && exists a, b :: a in ids && InScope(request, a) && Follows(g, request, a, edge, b)
  }

  ghost function FollowedEdges(g: Graph, request: TraversalRequest, depth: nat): set<Edge> {
    if depth == 0 then {} else EdgesFrom(g, request, Within(g, request, depth - 1))
  }

  lemma {:induction false} WithinGrows(g: Graph, request: TraversalRequest, k: nat, more: nat)
    requires k <= more
    ensures Within(g, request, k) <= Within(g, request, more)
    decreases more - k
  {
    if k < more {
      WithinGrows(g, request, k, more - 1);
    }
  }

  /** A set of nodes that no step leaves is all there is to reach. */
  lemma {:induction false} ClosedIsAll(g: Graph, request: TraversalRequest, k: nat, more: nat)
    requires k <= more && Step(g, request, Within(g, request, k)) <= Within(g, request, k)
    ensures Within(g, request, more) == Within(g, request, k)
    decreases more - k
  {
    if k < more {
      ClosedIsAll(g, request, k, more - 1);
    }
  }

  /** One step along the given edges. */
  ghost function Onward(request: TraversalRequest, edges: set<Edge>, ids: set<Id>): set<Id> {
    set a, edge | a in ids && edge in edges && InScope(request, a) && Neighbor(a, edge, request.direction).Some? ::
      Neighbor(a, edge, request.direction).value
  }

  /** The nodes that k steps along the given edges join to a start node. */
  ghost function Joined(request: TraversalRequest, starts: set<Id>, edges: set<Edge>, k: nat): set<Id> {
    if k == 0 then starts
    else Joined(request, starts, edges, k - 1) + Onward(request, edges, Joined(request, starts, edges, k - 1))
  }

  lemma OnwardGrows(request: TraversalRequest, edges: set<Edge>, more: set<Edge>, fewer: set<Id>, ids: set<Id>)
    requires edges <= more && fewer <= ids
    ensures Onward(request, edges, fewer) <= Onward(request, more, ids)
  {}

  lemma {:induction false} JoinedGrows(request: TraversalRequest, starts: set<Id>, edges: set<Edge>, more: set<Edge>,
          k: nat,
          later: nat)
    requires edges <= more && k <= later
    ensures Joined(request, starts, edges, k) <= Joined(request, starts, more, later)
    decreases later
  {
    hide Onward;
    if k < later {
      JoinedGrows(request, starts, edges, more, k, later - 1);
    } else if k > 0 {
      JoinedGrows(request, starts, edges, more, k - 1, later - 1);
      OnwardGrows(request, edges, more, Joined(request, starts, edges, k - 1),
        Joined(request, starts, more, later - 1));
    }
  }

  // ----- the search in progress -------------------------------------------------------------

  datatype Search = Search(selected: map<Id, Node>, edges: set<Edge>, next: seq<Id>, reasons: seq<Reason>,
    boundary: Option<Node>)

  predicate IsNode(g: Graph, node: Node) {
    node.id in g.nodes && g.nodes[node.id] == node
  }

  ghost predicate Selected(g: Graph, request: TraversalRequest, search: Search) {
    && |search.selected| <= request.maxNodes
    && (forall id :: id in search.selected ==> id in g.nodes && search.selected[id] == g.nodes[id])
    && (forall edge :: edge in search.edges ==> edge.source in search.selected && edge.target in search.selected)
    && (search.boundary.Some? ==> IsNode(g, search.boundary.value))
  }

  function Scoped(request: TraversalRequest, ids: set<Id>): set<Id> {
    set id | id in ids && InScope(request, id)
  }

  function Fresh(before: Search, after: Search): set<Id> {
    after.selected.Keys - before.selected.Keys
  }

  /** What following the given edges to the given nodes may change. */
  ghost predicate Grows(request: TraversalRequest, before: Search, after: Search, reached: set<Id>,
          followed: set<Edge>) {
    && before.selected.Keys <= after.selected.Keys && Fresh(before, after) <= reached
    && before.edges <= after.edges <= before.edges + followed
    && (|before.selected| == request.maxNodes ==> after.selected.Keys == before.selected.Keys)
    && Limits(request, before, after, reached)
    && Members(after.next) == Members(before.next) + Scoped(request, Fresh(before, after))
    && Bounds(request, before, after, reached)
  }

  /** The node limit is reported for a reachable node that found no place, or for an out-of-scope one. */
  ghost predicate Limits(request: TraversalRequest, before: Search, after: Search, reached: set<Id>) {
    && (NodeLimit in before.reasons ==> NodeLimit in after.reasons)
    && (NodeLimit in after.reasons && NodeLimit !in before.reasons ==>
      |after.selected| == request.maxNodes && (after.boundary.Some? || !(reached <= after.selected.Keys)))
    && (DepthLimit in after.reasons ==> DepthLimit in before.reasons)
  }

  /** The first out-of-scope node that is met becomes the boundary. */
  ghost predicate Bounds(request: TraversalRequest, before: Search, after: Search, reached: set<Id>) {
    if before.boundary.Some? then after.boundary == before.boundary
    else if after.boundary.None? then Fresh(before, after) == Scoped(request, Fresh(before, after))
    else after.boundary.value.id in reached && !InScope(request, after.boundary.value.id)
  }

  /** Every node that came along touches an edge that came along with it. */
  ghost predicate Tied(before: Search, after: Search, followed: set<Edge>) {
    && before.selected.Keys <= after.selected.Keys && before.edges <= after.edges
    && forall b :: b in Fresh(before, after) ==>
      exists edge :: edge in after.edges && edge in followed && (edge.source == b || edge.target == b)
  }

  lemma TiedTwice(s: Search, t: Search, u: Search, first: set<Edge>, second: set<Edge>)
    requires Tied(s, t, first) && Tied(t, u, second)
    ensures Tied(s, u, first + second)
  {
    forall b | b in Fresh(s, u)
      ensures exists edge :: edge in u.edges && edge in first + second && (edge.source == b || edge.target == b)
    {
      if b in Fresh(s, t) {
        var edge :| edge in t.edges && edge in first && (edge.source == b || edge.target == b);
        assert edge in u.edges && edge in first + second;
      } else {
        assert b in Fresh(t, u);
        var edge :| edge in u.edges && edge in second && (edge.source == b || edge.target == b);
        assert edge in first + second;
      }
    }
  }

  lemma TiedTo(before: Search, after: Search, followed: set<Edge>, more: set<Edge>)
    requires Tied(before, after, followed) && followed <= more
    ensures Tied(before, after, more)
  {}

  /** Everything the traversal can follow from a is selected. */
  ghost predicate Covered(g: Graph, request: TraversalRequest, search: Search, a: Id) {
    forall edge, b :: Follows(g, request, a, edge, b) ==> b in search.selected && edge in search.edges
  }

  lemma StepsCombine(g: Graph, request: TraversalRequest, first: set<Id>, second: set<Id>)
    ensures Step(g, request, first + second) == Step(g, request, first) + Step(g, request, second)
    ensures EdgesFrom(g, request, first + second) == EdgesFrom(g, request, first) + EdgesFrom(g, request, second)
  {
    forall b | b in Step(g, request, first + second)
      ensures b in Step(g, request, first) + Step(g, request, second)
    {
      var a, edge :| a in first + second && InScope(request, a) && Follows(g, request, a, edge, b);
    }
    forall edge | edge in EdgesFrom(g, request, first + second)
      ensures edge in EdgesFrom(g, request, first) + EdgesFrom(g, request, second)
    {
      var a, b :| a in first + second && InScope(request, a) && Follows(g, request, a, edge, b);
    }
  }

  lemma GrowsTwice(request: TraversalRequest, s: Search, t: Search, u: Search, first: set<Id>, second: set<Id>,
          firstEdges: set<Edge>, secondEdges: set<Edge>)
    requires Grows(request, s, t, first, firstEdges) && Grows(request, t, u, second, secondEdges)
    ensures Grows(request, s, u, first + second, firstEdges + secondEdges)
  {
    hide InScope;
    assert Fresh(s, u) == Fresh(s, t) + Fresh(t, u);
  }

  /** addTruncationReason */
  method AddReason(reasons: seq<Reason>, reason: Reason) returns (more: seq<Reason>)
    ensures forall other :: other in more <==> other in reasons || other == reason
  {
    more := if reason in reasons then reasons else reasons + [reason];
  }

  /** readIncidentEdges */
  method IncidentEdges(g: Graph, id: Id) returns (edges: seq<Edge>)
    ensures forall edge :: edge in edges <==> edge in g.edges && (edge.source == id || edge.target == id)
  {
    edges := [];
    for i := 0 to |g.edges|
      invariant forall edge :: edge in edges <==> edge in g.edges[..i] && (edge.source == id || edge.target == id)
    {
      if g.edges[i].source == id || g.edges[i].target == id {
        edges := edges + [g.edges[i]];
      }
    }
    edges := SortEdges(edges);
  }

  lemma OneStep(g: Graph, request: TraversalRequest, a: Id, edge: Edge, b: Id)
    requires InScope(request, a) && Follows(g, request, a, edge, b)
    ensures b in Step(g, request, {a}) && edge in EdgesFrom(g, request, {a})
  {}

  lemma SelectOne(g: Graph, request: TraversalRequest, search: Search, edge: Edge, b: Id, other: Id)
    requires Selected(g, request, search) && |search.selected| < request.maxNodes
    requires b in g.nodes && b !in search.selected && other in search.selected
    requires edge.source == b || edge.source == other
    requires edge.target == b || edge.target == other
    ensures Selected(g, request, search.(selected := search.selected[b := g.nodes[b]], edges := search.edges + {edge}))
    ensures search.selected[b := g.nodes[b]].Keys - search.selected.Keys == {b}
  {}

  /** The body of the innermost loop, once the edge is known to lead to a visible neighbour. */
  method VisitNeighbor(g: Graph, request: TraversalRequest, search: Search, id: Id, edge: Edge,
          neighbor: Id) returns (after: Search)
    requires g.Valid() && Selected(g, request, search) && id in search.selected
    requires Follows(g, request, id, edge, neighbor)
    ensures Selected(g, request, after) && Grows(request, search, after, {neighbor}, {edge})
      && Tied(search, after, {edge})
    ensures NodeLimit in after.reasons || (neighbor in after.selected && edge in after.edges)
  {
    after := search;
    if !InScope(request, neighbor) {
      if after.boundary.None? {
        after := after.(boundary := Some(g.nodes[neighbor]));
      }
      if |after.selected| == request.maxNodes {
        var reasons := AddReason(after.reasons, NodeLimit);
        return after.(reasons := reasons);
      }
      if neighbor !in search.selected {
        SelectOne(g, request, search, edge, neighbor, id);
      }
      return after.(selected := after.selected[neighbor := g.nodes[neighbor]], edges := after.edges + {edge});
    }
    if neighbor !in after.selected {
      if |after.selected| == request.maxNodes {
        var reasons := AddReason(after.reasons, NodeLimit);
        return after.(reasons := reasons);
      }
      SelectOne(g, request, search, edge, neighbor, id);
      after := after.(selected := after.selected[neighbor := g.nodes[neighbor]], next := after.next + [neighbor]);
    }
    after := after.(edges := after.edges + {edge});
  }

  method VisitEdge(g: Graph, request: TraversalRequest, search: Search, id: Id, edge: Edge) returns (after: Search)
    requires g.Valid() && edge in g.edges && Selected(g, request, search)
    requires id in search.selected && InScope(request, id)
    ensures Selected(g, request, after)
    ensures Grows(request, search, after, Step(g, request, {id}), EdgesFrom(g, request, {id}))
    ensures Tied(search, after, EdgesFrom(g, request, {id}))
    ensures NodeLimit !in after.reasons ==>
      forall b :: Follows(g, request, id, edge, b) ==> b in after.selected && edge in after.edges
  {
    hide Selected, Step, EdgesFrom;
    if !Allowed(request, edge) {
      return search;
    }
    var found := Neighbor(id, edge, request.direction);
    if found.None? || found.value !in g.nodes {
      return search;
    }
    OneStep(g, request, id, edge, found.value);
    after := VisitNeighbor(g, request, search, id, edge, found.value);
    TiedTo(search, after, {edge}, EdgesFrom(g, request, {id}));
  }

  lemma CoveredStays(g: Graph, request: TraversalRequest, before: Search, after: Search, reached: set<Id>,
          followed: set<Edge>, a: Id)
    requires Covered(g, request, before, a) && Grows(request, before, after, reached, followed)
    ensures Covered(g, request, after, a)
  {}

  /** What has been followed from a so far. */
  ghost predicate CoveredBy(g: Graph, request: TraversalRequest, search: Search, a: Id, edges: seq<Edge>) {
    forall edge, b :: edge in edges && Follows(g, request, a, edge, b) ==> b in search.selected && edge in search.edges
  }

  lemma CoveredByMore(g: Graph, request: TraversalRequest, before: Search, after: Search, reached: set<Id>,
          followed: set<Edge>, a: Id, edges: seq<Edge>, edge: Edge)
    requires CoveredBy(g, request, before, a, edges) && Grows(request, before, after, reached, followed)
    requires forall b :: Follows(g, request, a, edge, b) ==> b in after.selected && edge in after.edges
    ensures CoveredBy(g, request, after, a, edges + [edge])
  {}

  method ExpandNode(g: Graph, request: TraversalRequest, search: Search, id: Id) returns (after: Search)
    requires g.Valid() && Selected(g, request, search)
    requires id in search.selected && InScope(request, id)
    ensures Selected(g, request, after)
    ensures Grows(request, search, after, Step(g, request, {id}), EdgesFrom(g, request, {id}))
    ensures Tied(search, after, EdgesFrom(g, request, {id}))
    ensures NodeLimit !in after.reasons ==> Covered(g, request, after, id)
  {
    after := search;
    var edges := IncidentEdges(g, id);
    ghost var reached, followed := Step(g, request, {id}), EdgesFrom(g, request, {id});
    for i := 0 to |edges|
      invariant Selected(g, request, after) && Grows(request, search, after, reached, followed)
        && Tied(search, after, followed)
      invariant NodeLimit !in after.reasons ==> CoveredBy(g, request, after, id, edges[..i])
    {
      hide Selected, Step, EdgesFrom, Follows, CoveredBy, Tied;
      ghost var before := after;
      after := VisitEdge(g, request, after, id, edges[i]);
      GrowsTwice(request, search, before, after, reached, reached, followed, followed);
      TiedTwice(search, before, after, followed, followed);
      assert reached + reached == reached && followed + followed == followed;
      if NodeLimit !in after.reasons {
        CoveredByMore(g, request, before, after, reached, followed, id, edges[..i], edges[i]);
      }
      assert edges[..i + 1] == edges[..i] + [edges[i]];
    }
    assert edges[..|edges|] == edges;
  }

  /** Some nodes have been expanded one after the other. */
  ghost predicate Expanded(g: Graph, request: TraversalRequest, search: Search, after: Search, done: set<Id>) {
    && Selected(g, request, after)
    && Grows(request, search, after, Step(g, request, done), EdgesFrom(g, request, done))
    && Tied(search, after, EdgesFrom(g, request, done))
    && (NodeLimit !in after.reasons ==> forall id :: id in done ==> Covered(g, request, after, id))
  }

  lemma ExpandedNone(g: Graph, request: TraversalRequest, search: Search)
    requires Selected(g, request, search)
    ensures Expanded(g, request, search, search, {})
  {
    hide Step, EdgesFrom, Covered, Selected;
  }

  lemma ExpandedNext(g: Graph, request: TraversalRequest, search: Search, before: Search, after: Search, done: set<Id>,
          id: Id)
    requires Expanded(g, request, search, before, done) && Selected(g, request, after)
    requires Grows(request, before, after, Step(g, request, {id}), EdgesFrom(g, request, {id}))
    requires Tied(before, after, EdgesFrom(g, request, {id}))
    requires NodeLimit !in after.reasons ==> Covered(g, request, after, id)
    ensures Expanded(g, request, search, after, done + {id})
  {
    var reached, followed := Step(g, request, {id}), EdgesFrom(g, request, {id});
    assert NodeLimit in before.reasons ==> NodeLimit in after.reasons;
    hide Step, EdgesFrom, Covered, Selected, Tied, Grows;
    GrowsTwice(request, search, before, after, Step(g, request, done), reached, EdgesFrom(g, request, done), followed);
    TiedTwice(search, before, after, EdgesFrom(g, request, done), followed);
    StepsCombine(g, request, done, {id});
    if NodeLimit !in after.reasons {
      forall other | other in done
        ensures Covered(g, request, after, other)
      {
        CoveredStays(g, request, before, after, reached, followed, other);
      }
    }
  }

  method ExpandFrontier(g: Graph, request: TraversalRequest, search: Search, frontier: seq<Id>) returns (after: Search)
    requires g.Valid() && Selected(g, request, search)
    requires forall id :: id in frontier ==> id in search.selected && InScope(request, id)
    ensures Expanded(g, request, search, after, Members(frontier))
  {
    after := search;
    ExpandedNone(g, request, search);
    for i := 0 to |frontier|
      invariant Expanded(g, request, search, after, Members(frontier[..i]))
    {
      assert frontier[i] in frontier;
      OneMember(frontier, i);
      ghost var before := after;
      assert Selected(g, request, after) && frontier[i] in after.selected;
      hide Step, EdgesFrom, Covered, Selected, Tied, Grows, Expanded, Members;
      after := ExpandNode(g, request, after, frontier[i]);
      ExpandedNext(g, request, search, before, after, Members(frontier[..i]), frontier[i]);
    }
    assert frontier[..|frontier|] == frontier;
  }

  // ----- level by level ---------------------------------------------------------------------

  /** A traversal that ran into the node limit spent it on the nearest nodes. */
  ghost predicate NearestFirst(g: Graph, request: TraversalRequest, ids: set<Id>) {
    exists k {:trigger Within(g, request, k)} ::
      0 <= k < request.maxDepth && Within(g, request, k) <= ids <= Within(g, request, k + 1)
  }

  ghost predicate LimitedAt(g: Graph, request: TraversalRequest, boundary: Option<Node>, ids: set<Id>, depth: nat) {
    |ids| == request.maxNodes && NearestFirst(g, request, ids)
      && (boundary.Some? || !(Within(g, request, depth) <= ids))
  }

  ghost predicate CompleteAt(g: Graph, request: TraversalRequest, search: Search, expanded: set<Id>, depth: nat) {
    && search.selected.Keys == Within(g, request, depth)
    && EdgesFrom(g, request, expanded) <= search.edges
    && Step(g, request, expanded) <= search.selected.Keys
    && (depth > 0 ==> Scoped(request, Within(g, request, depth - 1)) <= expanded)
  }

  ghost predicate BoundaryAt(g: Graph, request: TraversalRequest, boundary: Option<Node>, ids: set<Id>, depth: nat) {
    match boundary
    case None => Scoped(request, ids) == ids
    case Some(node) => node.id in Within(g, request, depth) && !InScope(request, node.id)
  }

  /** Before the level at this depth: the nodes of expanded are done, the frontier is next. */
  ghost predicate AtDepth(g: Graph, request: TraversalRequest, search: Search, expanded: set<Id>, depth: nat) {
    && search.selected.Keys <= Within(g, request, depth)
    && expanded + Members(search.next) == Scoped(request, search.selected.Keys)
    && search.edges <= EdgesFrom(g, request, expanded)
    && expanded <= (if depth == 0 then {} else Within(g, request, depth - 1))
    && DepthLimit !in search.reasons
    && BoundaryAt(g, request, search.boundary, search.selected.Keys, depth)
    && (if NodeLimit in search.reasons then LimitedAt(g, request, search.boundary, search.selected.Keys, depth)
        else CompleteAt(g, request, search, expanded, depth))
  }

  lemma StepsGrow(g: Graph, request: TraversalRequest, fewer: set<Id>, more: set<Id>)
    requires fewer <= more
    ensures Step(g, request, fewer) <= Step(g, request, more)
    ensures EdgesFrom(g, request, fewer) <= EdgesFrom(g, request, more)
  {
    assert fewer + more == more;
    StepsCombine(g, request, fewer, more);
  }

  lemma OnlyScopedStep(g: Graph, request: TraversalRequest, ids: set<Id>)
    ensures Step(g, request, Scoped(request, ids)) == Step(g, request, ids)
    ensures EdgesFrom(g, request, Scoped(request, ids)) == EdgesFrom(g, request, ids)
  {
    forall b | b in Step(g, request, ids)
      ensures b in Step(g, request, Scoped(request, ids))
    {
      var a, edge :| a in ids && InScope(request, a) && Follows(g, request, a, edge, b);
      assert a in Scoped(request, ids);
    }
    forall edge | edge in EdgesFrom(g, request, ids)
      ensures edge in EdgesFrom(g, request, Scoped(request, ids))
    {
      var a, b :| a in ids && InScope(request, a) && Follows(g, request, a, edge, b);
      assert a in Scoped(request, ids);
    }
    StepsGrow(g, request, Scoped(request, ids), ids);
  }

  lemma CoveredSteps(g: Graph, request: TraversalRequest, search: Search, ids: set<Id>)
    requires forall id :: id in ids ==> Covered(g, request, search, id)
    ensures Step(g, request, ids) <= search.selected.Keys && EdgesFrom(g, request, ids) <= search.edges
  {}

  lemma WithinNext(g: Graph, request: TraversalRequest, depth: nat)
    ensures Within(g, request, depth + 1) == Within(g, request, depth) + Step(g, request, Within(g, request, depth))
  {}

  lemma LevelIsComplete(g: Graph, request: TraversalRequest, before: Search, after: Search, expanded: set<Id>,
          frontier: set<Id>, depth: nat)
    requires CompleteAt(g, request, before, expanded, depth)
    requires expanded + frontier == Scoped(request, before.selected.Keys)
    requires Grows(request, before.(next := []), after, Step(g, request, frontier), EdgesFrom(g, request, frontier))
    requires forall id :: id in frontier ==> Covered(g, request, after, id)
    ensures CompleteAt(g, request, after, expanded + frontier, depth + 1)
  {
    hide Step, EdgesFrom, Covered, Scoped, Within, Limits, Bounds, Members;
    var ids, reached := before.selected.Keys, Step(g, request, frontier);
    CoveredSteps(g, request, after, frontier);
    StepsCombine(g, request, expanded, frontier);
    OnlyScopedStep(g, request, ids);
    WithinNext(g, request, depth);
    assert Step(g, request, ids) == Step(g, request, expanded) + reached;
    assert Within(g, request, depth + 1) == ids + reached;
    assert after.selected.Keys == ids + Fresh(before.(next := []), after);
  }

  lemma LevelIsNearest(g: Graph, request: TraversalRequest, before: set<Id>, after: set<Id>, depth: nat)
    requires depth < request.maxDepth && before == Within(g, request, depth)
    requires before <= after <= before + Step(g, request, before)
    ensures NearestFirst(g, request, after)
  {
    assert Within(g, request, depth + 1) == before + Step(g, request, before);
  }

  lemma ScopedUnion(request: TraversalRequest, first: set<Id>, second: set<Id>)
    ensures Scoped(request, first + second) == Scoped(request, first) + Scoped(request, second)
  {}

  lemma LevelEnds(g: Graph, request: TraversalRequest, before: Search, after: Search, expanded: set<Id>,
          frontier: set<Id>, depth: nat)
    requires depth < request.maxDepth && frontier <= before.selected.Keys
    requires if NodeLimit in before.reasons then LimitedAt(g, request, before.boundary, before.selected.Keys, depth)
      else CompleteAt(g, request, before, expanded, depth)
    requires expanded + frontier == Scoped(request, before.selected.Keys)
    requires Grows(request, before.(next := []), after, Step(g, request, frontier), EdgesFrom(g, request, frontier))
    requires NodeLimit !in after.reasons ==> forall id :: id in frontier ==> Covered(g, request, after, id)
    ensures if NodeLimit in after.reasons then LimitedAt(g, request, after.boundary, after.selected.Keys, depth + 1)
      else CompleteAt(g, request, after, expanded + frontier, depth + 1)
  {
    WithinNext(g, request, depth);
    hide Step, EdgesFrom, Covered, NearestFirst, Within, Scoped, Members;
    if NodeLimit !in after.reasons {
      LevelIsComplete(g, request, before, after, expanded, frontier, depth);
    } else if NodeLimit !in before.reasons {
      StepsGrow(g, request, frontier, before.selected.Keys);
      LevelIsNearest(g, request, before.selected.Keys, after.selected.Keys, depth);
      assert |after.selected| == |after.selected.Keys|;
    } else {
      assert |before.selected| == |before.selected.Keys|;
    }
  }

  lemma BoundaryNext(g: Graph, request: TraversalRequest, before: Search, after: Search, reached: set<Id>, depth: nat)
    requires BoundaryAt(g, request, before.boundary, before.selected.Keys, depth)
    requires Bounds(request, before, after, reached) && before.selected.Keys <= after.selected.Keys
    requires reached <= Within(g, request, depth + 1)
    ensures BoundaryAt(g, request, after.boundary, after.selected.Keys, depth + 1)
  {
    WithinGrows(g, request, depth, depth + 1);
    ScopedUnion(request, before.selected.Keys, Fresh(before, after));
    assert after.selected.Keys == before.selected.Keys + Fresh(before, after);
    hide Within;
  }

  lemma NextFrontier(request: TraversalRequest, before: Search, after: Search, expanded: set<Id>, reached: set<Id>,
          followed: set<Edge>)
    requires expanded + Members(before.next) == Scoped(request, before.selected.Keys)
    requires Grows(request, before.(next := []), after, reached, followed)
    ensures (expanded + Members(before.next)) + Members(after.next) == Scoped(request, after.selected.Keys)
    ensures Members(before.next) <= before.selected.Keys
    ensures after.selected.Keys <= before.selected.Keys + reached
  {
    hide Limits, Bounds, InScope, Scoped, Fresh, Members;
    SelectedGrows(before.(next := []), after);
    ScopedUnion(request, before.selected.Keys, Fresh(before.(next := []), after));
    ScopedWithin(request, before.selected.Keys);
    NoMembers();
  }

  lemma SelectedGrows(before: Search, after: Search)
    requires before.selected.Keys <= after.selected.Keys
    ensures after.selected.Keys == before.selected.Keys + Fresh(before, after)
  {}

  lemma ScopedWithin(request: TraversalRequest, ids: set<Id>)
    ensures Scoped(request, ids) <= ids
  {}

  lemma NoMembers()
    ensures Members<Id>([]) == {}
  {}

  lemma NextDepth(g: Graph, request: TraversalRequest, before: Search, after: Search, expanded: set<Id>,
          frontier: set<Id>, depth: nat)
    requires depth < request.maxDepth && AtDepth(g, request, before, expanded, depth)
      && frontier == Members(before.next)
    requires Grows(request, before.(next := []), after, Step(g, request, frontier), EdgesFrom(g, request, frontier))
    requires NodeLimit !in after.reasons ==> forall id :: id in frontier ==> Covered(g, request, after, id)
    ensures AtDepth(g, request, after, expanded + frontier, depth + 1)
  {
    hide Step, EdgesFrom, Covered, NearestFirst, CompleteAt, LimitedAt, BoundaryAt, InScope, Within, Members, Scoped,
      Bounds;
    NextFrontier(request, before, after, expanded, Step(g, request, frontier), EdgesFrom(g, request, frontier));
    StepsGrow(g, request, frontier, Within(g, request, depth));
    StepsCombine(g, request, expanded, frontier);
    WithinNext(g, request, depth);
    LevelEnds(g, request, before, after, expanded, frontier, depth);
    BoundaryNext(g, request, before.(next := []), after, Step(g, request, frontier), depth);
    if depth > 0 {
      WithinGrows(g, request, depth - 1, depth);
    }
  }

  /** The nodes selected so far are joined to the starts by the edges selected so far. */
  ghost predicate JoinedAt(g: Graph, request: TraversalRequest, search: Search, depth: nat) {
    search.selected.Keys <= Joined(request, Starts(g, request), search.edges, depth)
  }

  lemma EntersFrom(g: Graph, request: TraversalRequest, frontier: set<Id>, edge: Edge, b: Id) returns (a: Id)
    requires edge in EdgesFrom(g, request, frontier) && b !in frontier && (edge.source == b || edge.target == b)
    ensures a in frontier && InScope(request, a) && Neighbor(a, edge, request.direction) == Some(b)
  {
    var c;
    a, c :| a in frontier && InScope(request, a) && Follows(g, request, a, edge, c);
  }

  lemma JoinedNext(g: Graph, request: TraversalRequest, before: Search, after: Search, frontier: set<Id>, depth: nat)
    requires JoinedAt(g, request, before, depth) && frontier <= before.selected.Keys
    requires Tied(before.(next := []), after, EdgesFrom(g, request, frontier))
    ensures JoinedAt(g, request, after, depth + 1)
  {
    var starts := Starts(g, request);
    JoinedGrows(request, starts, before.edges, after.edges, depth, depth);
    forall b | b in after.selected
      ensures b in Joined(request, starts, after.edges, depth + 1)
    {
      if b !in before.selected {
        assert b in Fresh(before.(next := []), after);
        var edge :| edge in after.edges && edge in EdgesFrom(g, request, frontier)
          && (edge.source == b || edge.target == b);
        var a := EntersFrom(g, request, frontier, edge, b);
        hide EdgesFrom, InScope, Tied, Starts;
        assert b in Onward(request, after.edges, Joined(request, starts, after.edges, depth));
      }
    }
  }

  // ----- the end of the search --------------------------------------------------------------

  lemma NoEdgesFromNowhere(g: Graph, request: TraversalRequest)
    ensures EdgesFrom(g, request, {}) == {} && Step(g, request, {}) == {}
  {}

  /** All levels were done. */
  lemma FollowedAtEnd(g: Graph, request: TraversalRequest, edges: set<Edge>, expanded: set<Id>, end: nat)
    requires edges <= EdgesFrom(g, request, expanded)
    requires expanded <= (if end == 0 then {} else Within(g, request, end - 1))
    ensures edges <= FollowedEdges(g, request, end)
    ensures EdgesFrom(g, request, expanded) <= edges ==>
      (end > 0 ==> Scoped(request, Within(g, request, end - 1)) <= expanded) ==>
      FollowedEdges(g, request, end) <= edges
  {
    hide Step, EdgesFrom, InScope, Scoped, Within;
    NoEdgesFromNowhere(g, request);
    if end == 0 {
      assert expanded == {};
    } else {
      var last := Within(g, request, end - 1);
      OnlyScopedStep(g, request, last);
      StepsGrow(g, request, expanded, last);
      if Scoped(request, last) <= expanded {
        StepsGrow(g, request, Scoped(request, last), expanded);
      }
    }
  }

  /** The frontier ran empty at an earlier level. */
  lemma FollowedEarly(g: Graph, request: TraversalRequest, ids: set<Id>, edges: set<Edge>, depth: nat, end: nat)
    requires depth < end && ids <= Within(g, request, depth)
    requires edges <= EdgesFrom(g, request, Scoped(request, ids))
    ensures edges <= FollowedEdges(g, request, end)
    ensures ids == Within(g, request, depth) && EdgesFrom(g, request, Scoped(request, ids)) <= edges ==>
      Step(g, request, Scoped(request, ids)) <= ids ==>
      FollowedEdges(g, request, end) <= edges && ids == Within(g, request, end)
  {
    hide Step, EdgesFrom, InScope, Scoped, Within;
    OnlyScopedStep(g, request, ids);
    WithinGrows(g, request, depth, end - 1);
    StepsGrow(g, request, ids, Within(g, request, end - 1));
    if ids == Within(g, request, depth) && Step(g, request, Scoped(request, ids)) <= ids {
      ClosedIsAll(g, request, depth, end - 1);
      ClosedIsAll(g, request, depth, end);
    }
  }

  lemma AllFollowed(g: Graph, request: TraversalRequest, search: Search, expanded: set<Id>, depth: nat, end: nat)
    requires AtDepth(g, request, search, expanded, depth)
    requires depth == end || (depth < end && search.next == [])
    ensures search.edges <= FollowedEdges(g, request, end)
    ensures NodeLimit !in search.reasons ==>
      FollowedEdges(g, request, end) <= search.edges && search.selected.Keys == Within(g, request, end)
  {
    assert search.next == [] ==> Members(search.next) == {};
    hide Step, EdgesFrom, NearestFirst, LimitedAt, BoundaryAt, InScope, Members, Scoped, Within, FollowedEdges;
    if depth == end {
      FollowedAtEnd(g, request, search.edges, expanded, end);
    } else {
      assert expanded == Scoped(request, search.selected.Keys);
      FollowedEarly(g, request, search.selected.Keys, search.edges, depth, end);
    }
  }

  /** Without any reason to stop, nothing further can be reached. */
  lemma NothingFurther(g: Graph, request: TraversalRequest, search: Search, expanded: set<Id>, depth: nat, k: nat)
    requires AtDepth(g, request, search, expanded, depth) && NodeLimit !in search.reasons
    requires forall a, edge, b :: a in search.next && Follows(g, request, a, edge, b) ==> b in search.selected
    ensures Within(g, request, k) <= search.selected.Keys
  {
    var ids := search.selected.Keys;
    assert Step(g, request, Members(search.next)) <= ids;
    StepsCombine(g, request, expanded, Members(search.next));
    OnlyScopedStep(g, request, ids);
    hide Step, EdgesFrom, NearestFirst, LimitedAt, BoundaryAt, InScope, Members, Scoped, Within, Follows;
    if depth <= k {
      ClosedIsAll(g, request, depth, k);
    } else {
      WithinGrows(g, request, k, depth);
    }
  }

  // ----- the result -------------------------------------------------------------------------

  function Ids(nodes: seq<Node>): set<Id> {
    set node | node in nodes :: node.id
  }

  function EdgeSet(edges: seq<Edge>): set<Edge> {
    set edge | edge in edges
  }

  predicate Malformed(request: TraversalRequest) {
    |request.start| == 0 || request.maxDepth < 0 || request.maxNodes <= 0
  }

  /** Never too many nodes, only visible and reachable ones, and only edges that were followed and whose
      ends are both returned; the returned edges alone join every node to a start within the depth; nodes
      and edges come sorted and without duplicates. */
  ghost predicate Sound(g: Graph, request: TraversalRequest, result: TraversalResult)
    requires !Malformed(request)
  {
    && |result.nodes| <= request.maxNodes
    && (forall i, j :: 0 <= i < j < |result.nodes| ==> result.nodes[i].id < result.nodes[j].id)
    && (forall node :: node in result.nodes ==> node.id in g.nodes && g.nodes[node.id] == node)
    && Ids(result.nodes) <= Within(g, request, request.maxDepth)
    && StrictlyAscending(result.edges)
    && EdgeSet(result.edges) <= FollowedEdges(g, request, request.maxDepth)
    && (forall edge :: edge in result.edges ==> edge.source in Ids(result.nodes) && edge.target in Ids(result.nodes))
    && Ids(result.nodes) <= Joined(request, Starts(g, request), EdgeSet(result.edges), request.maxDepth)
  }

  ghost predicate Complete(g: Graph, request: TraversalRequest, result: TraversalResult)
    requires !Malformed(request)
  {
    && Ids(result.nodes) == Within(g, request, request.maxDepth)
    && EdgeSet(result.edges) == FollowedEdges(g, request, request.maxDepth)
  }

  predicate LeadsOut(request: TraversalRequest, id: Id, edge: Edge, ids: set<Id>) {
    Allowed(request, edge) && match Neighbor(id, edge, request.direction)
      case Some(neighbor) => neighbor !in ids
      case None => false
  }

  /** Some returned in-scope node has an allowed edge to a node that is not returned. */
  ghost predicate CutOff(g: Graph, request: TraversalRequest, ids: set<Id>) {
    exists a, edge :: a in ids && InScope(request, a) && edge in g.edges && LeadsOut(request, a, edge, ids)
  }

  /** hasTraversableNeighbor */
  method HasTraversableNeighbor(g: Graph, edges: seq<Edge>, id: Id, request: TraversalRequest,
          selected: map<Id, Node>) returns (found: bool)
    ensures found <==> exists edge :: edge in edges && LeadsOut(request, id, edge, selected.Keys)
  {
    for i := 0 to |edges|
      invariant forall edge :: edge in edges[..i] ==> !LeadsOut(request, id, edge, selected.Keys)
    {
      if LeadsOut(request, id, edges[i], selected.Keys) {
        return true;
      }
    }
    return false;
  }

  method CheckDepth(g: Graph, request: TraversalRequest, search: Search, frontier: seq<Id>)
    returns (reasons: seq<Reason>)
    requires forall id :: id in frontier ==> id in search.selected && InScope(request, id)
    ensures NodeLimit in reasons <==> NodeLimit in search.reasons
    ensures DepthLimit in search.reasons ==> DepthLimit in reasons
    ensures DepthLimit in reasons ==> DepthLimit in search.reasons || CutOff(g, request, search.selected.Keys)
    ensures DepthLimit !in reasons ==>
      forall a, edge, b :: a in frontier && Follows(g, request, a, edge, b) ==> b in search.selected
  {
    reasons := search.reasons;
    for i := 0 to |frontier|
      invariant forall a, edge, b :: a in frontier[..i] && Follows(g, request, a, edge, b) ==> b in search.selected
    {
      var edges := IncidentEdges(g, frontier[i]);
      var found := HasTraversableNeighbor(g, edges, frontier[i], request, search.selected);
      if found {
        assert frontier[i] in frontier;
        reasons := AddReason(reasons, DepthLimit);
        return;
      }
    }
    assert frontier[..|frontier|] == frontier;
  }

  /** sortedNodes */
  method SortedNodes(g: Graph, selected: map<Id, Node>) returns (nodes: seq<Node>)
    requires g.Valid() && forall id :: id in selected ==> id in g.nodes && selected[id] == g.nodes[id]
    ensures Ids(nodes) == selected.Keys && |nodes| == |selected|
    ensures forall i, j :: 0 <= i < j < |nodes| ==> nodes[i].id < nodes[j].id
    ensures forall node :: node in nodes ==> node.id in g.nodes && g.nodes[node.id] == node
  {
    var ids := UniqueSorted(selected.Keys);
    nodes := [];
    for i := 0 to |ids|
      invariant |nodes| == i
      invariant forall j :: 0 <= j < i ==> ids[j] in selected && nodes[j] == selected[ids[j]] && nodes[j].id == ids[j]
    {
      assert ids[i] in ids;
      nodes := nodes + [selected[ids[i]]];
    }
    assert |selected| == |selected.Keys|;
    forall id | id in selected.Keys
      ensures id in Ids(nodes)
    {
      var i :| 0 <= i < |ids| && ids[i] == id;
      assert nodes[i] in nodes;
    }
  }

  /** The visible ones of the start ids in done are selected and make up the frontier. */
  ghost predicate Started(g: Graph, request: TraversalRequest, selected: map<Id, Node>, next: seq<Id>, done: set<Id>) {
    && |selected| <= request.maxNodes
    && selected.Keys == Members(next) == done * g.nodes.Keys
    && (forall id :: id in selected ==> id in g.nodes && selected[id] == g.nodes[id] && InScope(request, id))
  }

  ghost predicate TooManyStarts(g: Graph, request: TraversalRequest, selected: map<Id, Node>) {
    && |selected| == request.maxNodes && selected.Keys < Starts(g, request)
    && (forall id :: id in selected ==> id in g.nodes && selected[id] == g.nodes[id] && InScope(request, id))
  }

  lemma OneMoreSelected(selected: map<Id, Node>, id: Id, node: Node)
    requires id !in selected
    ensures selected[id := node].Keys == selected.Keys + {id} && |selected[id := node]| == |selected| + 1
  {}

  lemma OneMoreMember(next: seq<Id>, id: Id)
    ensures Members(next + [id]) == Members(next) + {id}
  {}

  lemma StartOne(g: Graph, request: TraversalRequest, selected: map<Id, Node>, next: seq<Id>, done: set<Id>, id: Id)
    requires Started(g, request, selected, next, done) && |selected| < request.maxNodes
    requires id in g.nodes && id !in done && InScope(request, id)
    ensures Started(g, request, selected[id := g.nodes[id]], next + [id], done + {id})
  {
    hide Members, InScope;
    assert id !in selected.Keys;
    OneMoreSelected(selected, id, g.nodes[id]);
    OneMoreMember(next, id);
    assert (done + {id}) * g.nodes.Keys == done * g.nodes.Keys + {id};
  }

  lemma StartNone(g: Graph, request: TraversalRequest, selected: map<Id, Node>, next: seq<Id>, done: set<Id>, id: Id)
    requires Started(g, request, selected, next, done) && id !in g.nodes
    ensures Started(g, request, selected, next, done + {id})
  {}

  /** The visible start nodes become the first frontier. */
  method SelectStarts(g: Graph, request: TraversalRequest) returns (outcome: Result<Search, TraversalError>)
    requires !Malformed(request)
    ensures match outcome
      case Err(error) => error.StartOutsideScope? && error.id in Starts(g, request) && !InScope(request, error.id)
      case Ok(search) =>
        && search.edges == {} && search.boundary.None?
        && (if search.reasons == [] then Started(g, request, search.selected, search.next, Members(request.start))
            else search.reasons == [NodeLimit] && TooManyStarts(g, request, search.selected))
  {
    var selected: map<Id, Node>, next: seq<Id> := map[], [];
    var ids := UniqueSorted(Members(request.start));
    for i := 0 to |ids|
      invariant Started(g, request, selected, next, Members(ids[..i]))
    {
      hide Started, InScope, Starts, TooManyStarts;
      var id := ids[i];
      assert id in ids && id in request.start && id !in ids[..i];
      OneMember(ids, i);
      if id !in g.nodes {
        StartNone(g, request, selected, next, Members(ids[..i]), id);
        continue;
      }
      VisibleStart(g, request, id);
      if !InScope(request, id) {
        return Err(StartOutsideScope(id));
      }
      if |selected| == request.maxNodes {
        MoreStarts(g, request, selected, next, Members(ids[..i]), id);
        return Ok(Search(selected, {}, next, [NodeLimit], None));
      }
      StartBound(g, request, selected, next, Members(ids[..i]));
      StartOne(g, request, selected, next, Members(ids[..i]), id);
      selected, next := selected[id := g.nodes[id]], next + [id];
    }
    assert ids[..|ids|] == ids && Members(ids) == Members(request.start);
    return Ok(Search(selected, {}, next, [], None));
  }

  lemma VisibleStart(g: Graph, request: TraversalRequest, id: Id)
    requires id in request.start && id in g.nodes
    ensures id in Starts(g, request)
  {}

  lemma OneMember(ids: seq<Id>, i: nat)
    requires i < |ids|
    ensures Members(ids[..i + 1]) == Members(ids[..i]) + {ids[i]} && Members(ids[..i]) <= Members(ids)
  {}

  lemma StartBound(g: Graph, request: TraversalRequest, selected: map<Id, Node>, next: seq<Id>, done: set<Id>)
    requires Started(g, request, selected, next, done)
    ensures |selected| <= request.maxNodes
  {}

  lemma MoreStarts(g: Graph, request: TraversalRequest, selected: map<Id, Node>, next: seq<Id>, done: set<Id>, id: Id)
    requires Started(g, request, selected, next, done) && done <= Members(request.start)
    requires id in Starts(g, request) && id !in done && |selected| == request.maxNodes
    ensures TooManyStarts(g, request, selected)
  {
    assert id !in selected.Keys;
  }

  lemma StartsInScope(g: Graph, request: TraversalRequest, search: Search)
    requires Started(g, request, search.selected, search.next, Members(request.start))
    ensures forall id :: id in request.start && id in g.nodes ==> request.scope == {} || id in request.scope
  {
    forall id | id in request.start && id in g.nodes
      ensures InScope(request, id)
    {
      assert id in search.selected.Keys;
    }
  }

  lemma StartsAtDepth(g: Graph, request: TraversalRequest, search: Search)
    requires search.edges == {} && search.boundary.None? && search.reasons == []
    requires Started(g, request, search.selected, search.next, Members(request.start))
    ensures Selected(g, request, search) && AtDepth(g, request, search, {}, 0) && JoinedAt(g, request, search, 0)
  {
    NoEdgesFromNowhere(g, request);
    assert search.selected.Keys == Starts(g, request);
    assert Scoped(request, search.selected.Keys) == search.selected.Keys;
  }

  /** Everything the traversal promises about a result. */
  ghost predicate Traversed(g: Graph, request: TraversalRequest, result: TraversalResult)
    requires !Malformed(request)
  {
    && Sound(g, request, result)
    && (NodeLimit !in result.reasons ==> Complete(g, request, result))
    && (NodeLimit in result.reasons ==>
      && |result.nodes| == request.maxNodes
      && (Ids(result.nodes) < Starts(g, request) || NearestFirst(g, request, Ids(result.nodes)))
      && (result.boundary.Some? || Ids(result.nodes) < Within(g, request, request.maxDepth)))
    && (DepthLimit in result.reasons ==> CutOff(g, request, Ids(result.nodes)))
    && (result.reasons == [] ==> forall k :: Within(g, request, k) <= Ids(result.nodes))
    && BoundaryAt(g, request, result.boundary, Ids(result.nodes), request.maxDepth)
    && (result.boundary.Some? ==> IsNode(g, result.boundary.value))
  }

  // ----- the result in terms of sources and targets -----------------------------------------

  /** The direction allows going from one end of the edge to the other. */
  predicate Crosses(direction: Direction, edge: Edge, from: Id, to: Id) {
    match direction
    case Outgoing => edge.source == from && edge.target == to
    case Incoming => edge.target == from && edge.source == to
    case Both => (edge.source == from && edge.target == to) || (edge.target == from && edge.source == to)
  }

  /** The edges lead from a start through visible nodes, all but the last of them in scope. */
  ghost predicate IsChain(g: Graph, request: TraversalRequest, ids: seq<Id>, edges: seq<Edge>) {
    && |ids| == |edges| + 1 && ids[0] in request.start
    && (forall i :: 0 <= i < |ids| ==> ids[i] in g.nodes)
    && forall i :: 0 <= i < |edges| ==>
      && edges[i] in g.edges && (request.relations == {} || edges[i].relation in request.relations)
      && (request.scope == {} || ids[i] in request.scope)
      && Crosses(request.direction, edges[i], ids[i], ids[i + 1])
  }

  ghost predicate ChainTo(g: Graph, request: TraversalRequest, ids: seq<Id>, edges: seq<Edge>, id: Id) {
    IsChain(g, request, ids, edges) && ids[|edges|] == id
  }

  lemma CrossesToNeighbor(request: TraversalRequest, edge: Edge, from: Id, to: Id)
    ensures Crosses(request.direction, edge, from, to) <==> Neighbor(from, edge, request.direction) == Some(to)
  {}

  lemma ChainGrows(g: Graph, request: TraversalRequest, ids: seq<Id>, edges: seq<Edge>, a: Id, edge: Edge, b: Id)
    requires ChainTo(g, request, ids, edges, a) && InScope(request, a) && Follows(g, request, a, edge, b)
    ensures ChainTo(g, request, ids + [b], edges + [edge], b)
  {
    CrossesToNeighbor(request, edge, a, b);
  }

  lemma {:induction false} ChainIsWithin(g: Graph, request: TraversalRequest, ids: seq<Id>, edges: seq<Edge>)
    requires IsChain(g, request, ids, edges)
    ensures ids[|edges|] in Within(g, request, |edges|)
    ensures edges != [] ==> edges[|edges| - 1] in FollowedEdges(g, request, |edges|)
    decreases |edges|
  {
    if edges != [] {
      var last := |edges| - 1;
      ChainIsWithin(g, request, ids[..|edges|], edges[..last]);
      CrossesToNeighbor(request, edges[last], ids[last], ids[|edges|]);
      assert Follows(g, request, ids[last], edges[last], ids[|edges|]);
    }
  }

  lemma {:induction false} WithinIsChained(g: Graph, request: TraversalRequest, k: nat,
          id: Id) returns (ids: seq<Id>, edges: seq<Edge>)
    requires id in Within(g, request, k)
    ensures |edges| <= k && ChainTo(g, request, ids, edges, id)
    decreases k
  {
    if k == 0 {
      ids, edges := [id], [];
    } else if id in Within(g, request, k - 1) {
      ids, edges := WithinIsChained(g, request, k - 1, id);
    } else {
      var a, edge :| a in Within(g, request, k - 1) && InScope(request, a) && Follows(g, request, a, edge, id);
      ids, edges := WithinIsChained(g, request, k - 1, a);
      hide IsChain, Follows;
      ChainGrows(g, request, ids, edges, a, edge, id);
      ids, edges := ids + [id], edges + [edge];
    }
  }

  lemma FollowedIsChained(g: Graph, request: TraversalRequest, k: nat,
          edge: Edge) returns (ids: seq<Id>, edges: seq<Edge>)
    requires edge in FollowedEdges(g, request, k)
    ensures 0 < |edges| <= k && IsChain(g, request, ids, edges) && edges[|edges| - 1] == edge
  {
    var a, b :| a in Within(g, request, k - 1) && InScope(request, a) && Follows(g, request, a, edge, b);
    ids, edges := WithinIsChained(g, request, k - 1, a);
    ChainGrows(g, request, ids, edges, a, edge, b);
    ids, edges := ids + [b], edges + [edge];
  }

  lemma {:induction false} JoinedIsChained(g: Graph, request: TraversalRequest, returned: set<Edge>, k: nat,
          id: Id) returns (ids: seq<Id>, edges: seq<Edge>)
    requires id in Joined(request, Starts(g, request), returned, k)
    requires forall edge :: edge in returned ==>
      edge in g.edges && Allowed(request, edge) && edge.source in g.nodes && edge.target in g.nodes
    ensures |edges| <= k && ChainTo(g, request, ids, edges, id) && forall edge :: edge in edges ==> edge in returned
    decreases k
  {
    if k == 0 {
      ids, edges := [id], [];
    } else if id in Joined(request, Starts(g, request), returned, k - 1) {
      ids, edges := JoinedIsChained(g, request, returned, k - 1, id);
    } else {
      var a, edge :| a in Joined(request, Starts(g, request), returned, k - 1) && edge in returned
        && InScope(request, a) && Neighbor(a, edge, request.direction) == Some(id);
      ids, edges := JoinedIsChained(g, request, returned, k - 1, a);
      hide IsChain;
      ChainGrows(g, request, ids, edges, a, edge, id);
      ids, edges := ids + [id], edges + [edge];
    }
  }

  /** A chain of returned edges leads to the node. */
  ghost predicate Connected(g: Graph, request: TraversalRequest, returned: seq<Edge>, id: Id) {
    exists ids, edges ::
      ChainTo(g, request, ids, edges, id) && |edges| <= request.maxDepth && forall edge ::
        edge in edges ==> edge in returned
  }

  /** A chain ends with the edge. */
  ghost predicate Crossed(g: Graph, request: TraversalRequest, edge: Edge) {
    exists ids, edges ::
      IsChain(g, request, ids, edges) && 0 < |edges| <= request.maxDepth && edges[|edges| - 1] == edge
  }

  /** Whatever ends a chain of at most that many edges is returned, with the chain's last edge. */
  ghost predicate Exhausted(g: Graph, request: TraversalRequest, result: TraversalResult, depth: int) {
    forall ids, edges :: IsChain(g, request, ids, edges) && |edges| <= depth ==>
      && ids[|edges|] in g.nodes && g.nodes[ids[|edges|]] in result.nodes
      && (edges != [] ==> edges[|edges| - 1] in result.edges)
  }

  /** The boundary is a visible node outside the scope that a chain leads to; without one, every returned
      node lies in the scope. */
  ghost predicate Bordered(g: Graph, request: TraversalRequest, result: TraversalResult) {
    match result.boundary
    case None => forall node :: node in result.nodes ==> request.scope == {} || node.id in request.scope
    case Some(node) =>
      && node.id in g.nodes && node == g.nodes[node.id] && request.scope != {} && node.id !in request.scope
      && exists ids, edges :: ChainTo(g, request, ids, edges, node.id) && |edges| <= request.maxDepth
  }

  /** An edge can be crossed from a returned node in scope to one that is not returned. */
  ghost predicate CanGoOn(g: Graph, request: TraversalRequest, result: TraversalResult) {
    exists node, edge, b ::
      node in result.nodes && (request.scope == {} || node.id in request.scope)
      && edge in g.edges && (request.relations == {} || edge.relation in request.relations)
      && Crosses(request.direction, edge, node.id, b) && b !in Ids(result.nodes)
  }

  /** Some chain, however long, leads to a node that is not returned. */
  ghost predicate Missing(g: Graph, request: TraversalRequest, result: TraversalResult) {
    exists ids, edges :: IsChain(g, request, ids, edges) && ids[|edges|] !in Ids(result.nodes)
  }

  /** What a result means, told by the sources and targets of the edges alone. */
  ghost predicate Charted(g: Graph, request: TraversalRequest, result: TraversalResult) {
    && (forall node :: node in result.nodes ==> Connected(g, request, result.edges, node.id))
    && (forall edge :: edge in result.edges ==> Crossed(g, request, edge))
    && (NodeLimit !in result.reasons ==> Exhausted(g, request, result, request.maxDepth))
    && (result.reasons == [] ==> !Missing(g, request, result))
    && (DepthLimit in result.reasons ==> CanGoOn(g, request, result))
    && Bordered(g, request, result)
  }

  lemma ReturnedEdges(g: Graph, request: TraversalRequest, result: TraversalResult, edge: Edge)
    requires !Malformed(request) && Sound(g, request, result) && edge in EdgeSet(result.edges)
    ensures edge in g.edges && Allowed(request, edge) && edge.source in g.nodes && edge.target in g.nodes
  {
    assert edge in FollowedEdges(g, request, request.maxDepth);
    hide Within;
  }

  lemma IsConnected(g: Graph, request: TraversalRequest, result: TraversalResult, id: Id)
    requires !Malformed(request) && Sound(g, request, result) && id in Ids(result.nodes)
    ensures Connected(g, request, result.edges, id)
  {
    hide IsChain, Within, Joined, Neighbor, FollowedEdges;
    forall edge | edge in EdgeSet(result.edges)
      ensures edge in g.edges && Allowed(request, edge) && edge.source in g.nodes && edge.target in g.nodes
    {
      ReturnedEdges(g, request, result, edge);
    }
    var ids, edges := JoinedIsChained(g, request, EdgeSet(result.edges), request.maxDepth, id);
  }

  lemma IsCrossed(g: Graph, request: TraversalRequest, result: TraversalResult, edge: Edge)
    requires !Malformed(request) && Sound(g, request, result) && edge in result.edges
    ensures Crossed(g, request, edge)
  {
    hide IsChain, Within, Joined, Neighbor, FollowedEdges;
    assert edge in EdgeSet(result.edges);
    var ids, edges := FollowedIsChained(g, request, request.maxDepth, edge);
  }

  lemma IsBordered(g: Graph, request: TraversalRequest, result: TraversalResult)
    requires !Malformed(request) && BoundaryAt(g, request, result.boundary, Ids(result.nodes), request.maxDepth)
    requires result.boundary.Some? ==> IsNode(g, result.boundary.value)
    ensures Bordered(g, request, result)
  {
    hide IsChain, Within;
    if result.boundary.Some? {
      var ids, edges := WithinIsChained(g, request, request.maxDepth, result.boundary.value.id);
    } else {
      forall node | node in result.nodes
        ensures request.scope == {} || node.id in request.scope
      {
        assert node.id in Scoped(request, Ids(result.nodes));
      }
    }
  }

  lemma GoesOn(g: Graph, request: TraversalRequest, result: TraversalResult)
    requires CutOff(g, request, Ids(result.nodes))
    ensures CanGoOn(g, request, result)
  {
    var a, edge :| a in Ids(result.nodes) && InScope(request, a) && edge in g.edges
      && LeadsOut(request, a, edge, Ids(result.nodes));
    var node :| node in result.nodes && node.id == a;
    CrossesToNeighbor(request, edge, node.id, Neighbor(a, edge, request.direction).value);
  }

  lemma NothingIsMissing(g: Graph, request: TraversalRequest, result: TraversalResult)
    requires forall k :: Within(g, request, k) <= Ids(result.nodes)
    ensures !Missing(g, request, result)
  {
    hide Within;
    if ids, edges :| IsChain(g, request, ids, edges) && ids[|edges|] !in Ids(result.nodes) {
      ChainIsWithin(g, request, ids, edges);
      assert false;
    }
  }

  /** The result of a traversal, told without its way of looking for neighbours. */
  lemma TraversedIsCharted(g: Graph, request: TraversalRequest, result: TraversalResult)
    requires !Malformed(request) && Traversed(g, request, result)
    ensures Charted(g, request, result)
  {
    hide IsChain, Within, Joined, FollowedEdges, Connected, Crossed, Exhausted, Bordered, CanGoOn, CutOff, BoundaryAt,
      NearestFirst, Missing;
    forall node | node in result.nodes
      ensures Connected(g, request, result.edges, node.id)
    {
      IsConnected(g, request, result, node.id);
    }
    forall edge | edge in result.edges
      ensures Crossed(g, request, edge)
    {
      IsCrossed(g, request, result, edge);
    }
    IsBordered(g, request, result);
    if NodeLimit !in result.reasons {
      IsExhausted(g, request, result);
    }
    if DepthLimit in result.reasons {
      GoesOn(g, request, result);
    }
    if result.reasons == [] {
      NothingIsMissing(g, request, result);
    }
  }

  lemma IsExhausted(g: Graph, request: TraversalRequest, result: TraversalResult)
    requires !Malformed(request) && Sound(g, request, result) && Complete(g, request, result)
    ensures Exhausted(g, request, result, request.maxDepth)
  {
    hide Within, FollowedEdges, Joined;
    forall ids, edges | IsChain(g, request, ids, edges) && |edges| <= request.maxDepth
      ensures ids[|edges|] in g.nodes && g.nodes[ids[|edges|]] in result.nodes
      ensures edges != [] ==> edges[|edges| - 1] in result.edges
    {
      ChainIsWithin(g, request, ids, edges);
      WithinGrows(g, request, |edges|, request.maxDepth);
      FollowedGrows(g, request, |edges|, request.maxDepth);
      assert ids[|edges|] in Ids(result.nodes);
      assert edges != [] ==> edges[|edges| - 1] in EdgeSet(result.edges);
    }
  }

  lemma FollowedGrows(g: Graph, request: TraversalRequest, k: nat, more: nat)
    requires k <= more
    ensures FollowedEdges(g, request, k) <= FollowedEdges(g, request, more)
  {
    if k > 0 {
      WithinGrows(g, request, k - 1, more - 1);
      hide Within, Follows;
    }
  }

  method Report(g: Graph, search: Search, reasons: seq<Reason>) returns (result: TraversalResult)
    requires g.Valid() && forall id :: id in search.selected ==> id in g.nodes && search.selected[id] == g.nodes[id]
    ensures result.reasons == reasons && result.boundary == search.boundary
    ensures Ids(result.nodes) == search.selected.Keys && |result.nodes| == |search.selected|
    ensures forall i, j :: 0 <= i < j < |result.nodes| ==> result.nodes[i].id < result.nodes[j].id
    ensures forall node :: node in result.nodes ==> node.id in g.nodes && g.nodes[node.id] == node
    ensures EdgeSet(result.edges) == search.edges && StrictlyAscending(result.edges)
  {
    var nodes := SortedNodes(g, search.selected);
    var edges := SortedEdges(search.edges);
    result := TraversalResult(nodes, edges, reasons, search.boundary);
  }

  lemma FrontierIsSelected(g: Graph, request: TraversalRequest, search: Search, expanded: set<Id>, depth: nat)
    requires AtDepth(g, request, search, expanded, depth)
    ensures forall id :: id in search.next ==> id in search.selected && InScope(request, id)
  {
    forall id | id in search.next
      ensures id in search.selected && InScope(request, id)
    {
      assert id in Scoped(request, search.selected.Keys);
    }
  }

  lemma SelectedAlone(g: Graph, request: TraversalRequest, search: Search)
    requires Selected(g, request, search)
    ensures Selected(g, request, search.(next := []))
  {}

  method ExpandLevel(g: Graph, request: TraversalRequest, search: Search, depth: nat,
          ghost expanded: set<Id>) returns (after: Search)
    requires g.Valid() && depth < request.maxDepth && Selected(g, request, search)
    requires AtDepth(g, request, search, expanded, depth) && JoinedAt(g, request, search, depth)
    ensures Selected(g, request, after) && AtDepth(g, request, after, expanded + Members(search.next), depth + 1)
    ensures JoinedAt(g, request, after, depth + 1)
  {
    hide AtDepth, Grows, Covered, Step, EdgesFrom, Selected, Tied, JoinedAt;
    FrontierIsSelected(g, request, search, expanded, depth);
    SelectedAlone(g, request, search);
    assert Members(search.next) <= search.selected.Keys;
    hide Members;
    after := ExpandFrontier(g, request, search.(next := []), search.next);
    JoinedNext(g, request, search, after, Members(search.next), depth);
    NextDepth(g, request, search, after, expanded, Members(search.next), depth);
  }

  /** The loop over depths. */
  method ExpandLevels(g: Graph, request: TraversalRequest, start: Search) returns (search: Search, depth: nat,
          ghost expanded: set<Id>)
    requires g.Valid() && request.maxDepth >= 0 && Selected(g, request, start) && AtDepth(g, request, start, {}, 0)
    requires JoinedAt(g, request, start, 0)
    ensures Selected(g, request, search) && AtDepth(g, request, search, expanded, depth)
      && JoinedAt(g, request, search, depth)
    ensures depth == request.maxDepth || (depth < request.maxDepth && search.next == [])
  {
    hide AtDepth, Selected, JoinedAt;
    search, depth, expanded := start, 0, {};
    while depth < request.maxDepth && |search.next| > 0
      invariant depth <= request.maxDepth
      invariant Selected(g, request, search) && AtDepth(g, request, search, expanded, depth)
        && JoinedAt(g, request, search, depth)
    {
      ghost var frontier := Members(search.next);
      search := ExpandLevel(g, request, search, depth, expanded);
      expanded, depth := expanded + frontier, depth + 1;
    }
  }

  lemma EndOfSearch(g: Graph, request: TraversalRequest, search: Search, expanded: set<Id>, depth: nat,
          reasons: seq<Reason>)
    requires !Malformed(request) && AtDepth(g, request, search, expanded, depth)
    requires depth == request.maxDepth || (depth < request.maxDepth && search.next == [])
    requires NodeLimit in reasons <==> NodeLimit in search.reasons
    requires DepthLimit !in reasons ==>
      forall a, edge, b :: a in search.next && Follows(g, request, a, edge, b) ==> b in search.selected
    ensures search.selected.Keys <= Within(g, request, request.maxDepth)
      && search.edges <= FollowedEdges(g, request, request.maxDepth)
    ensures NodeLimit !in reasons ==>
      search.selected.Keys == Within(g, request, request.maxDepth)
        && search.edges == FollowedEdges(g, request, request.maxDepth)
    ensures NodeLimit in reasons ==> LimitedAt(g, request, search.boundary, search.selected.Keys, request.maxDepth)
    ensures reasons == [] ==> forall k :: Within(g, request, k) <= search.selected.Keys
    ensures BoundaryAt(g, request, search.boundary, search.selected.Keys, request.maxDepth)
  {
    AllFollowed(g, request, search, expanded, depth, request.maxDepth);
    WithinGrows(g, request, depth, request.maxDepth);
    if reasons == [] {
      forall k {
        NothingFurther(g, request, search, expanded, depth, k);
      }
    }
    hide Within, FollowedEdges, NearestFirst, Follows, EdgesFrom, CompleteAt, Scoped;
  }

  lemma JoinedAtEnd(g: Graph, request: TraversalRequest, search: Search, depth: nat)
    requires JoinedAt(g, request, search, depth) && depth <= request.maxDepth
    ensures search.selected.Keys <= Joined(request, Starts(g, request), search.edges, request.maxDepth)
  {
    JoinedGrows(request, Starts(g, request), search.edges, search.edges, depth, request.maxDepth);
  }

  method Conclude(g: Graph, request: TraversalRequest, search: Search, depth: nat,
          ghost expanded: set<Id>) returns (result: TraversalResult)
    requires g.Valid() && !Malformed(request) && Selected(g, request, search)
      && AtDepth(g, request, search, expanded, depth)
    requires JoinedAt(g, request, search, depth)
    requires depth == request.maxDepth || (depth < request.maxDepth && search.next == [])
    ensures Traversed(g, request, result)
  {
    hide AtDepth, BoundaryAt, Within, FollowedEdges, CutOff, NearestFirst, Follows, InScope, Joined, JoinedAt;
    JoinedAtEnd(g, request, search, depth);
    FrontierIsSelected(g, request, search, expanded, depth);
    var reasons := CheckDepth(g, request, search, search.next);
    EndOfSearch(g, request, search, expanded, depth, reasons);
    result := Report(g, search, reasons);
    NoDepthLimit(g, request, search, expanded, depth);
    assert |search.selected| == |search.selected.Keys|;
    SomeReason(reasons);
  }

  lemma SomeReason(reasons: seq<Reason>)
    ensures reasons == [] || NodeLimit in reasons || DepthLimit in reasons
  {
    if reasons != [] {
      match reasons[0]
      case NodeLimit =>
      case DepthLimit =>
    }
  }

  lemma NoDepthLimit(g: Graph, request: TraversalRequest, search: Search, expanded: set<Id>, depth: nat)
    requires AtDepth(g, request, search, expanded, depth)
    ensures DepthLimit !in search.reasons
  {}

  /** Traverse */
  method Traverse(g: Graph, request: TraversalRequest) returns (outcome: Result<TraversalResult, TraversalError>)
    requires g.Valid()
    ensures |request.start| == 0 || request.maxDepth < 0 || request.maxNodes <= 0 <==> outcome == Err(InvalidRequest)
    ensures outcome.Err? && outcome.error != InvalidRequest ==>
      var id := outcome.error.id;
      id in request.start && id in g.nodes && request.scope != {} && id !in request.scope
    ensures outcome.Ok? && NodeLimit !in outcome.value.reasons ==>
      forall id :: id in request.start && id in g.nodes ==> request.scope == {} || id in request.scope
    ensures outcome.Ok? ==> Traversed(g, request, outcome.value) && Charted(g, request, outcome.value)
  {
    if Malformed(request) {
      return Err(InvalidRequest);
    }
    var started := SelectStarts(g, request);
    if started.Err? {
      return Err(started.error);
    }
    if started.value.reasons != [] {
      var limited := ReportStarts(g, request, started.value);
      hide Traversed, Charted;
      TraversedIsCharted(g, request, limited);
      return Ok(limited);
    }
    hide AtDepth, Traversed, Charted, Selected, JoinedAt;
    StartsAtDepth(g, request, started.value);
    StartsInScope(g, request, started.value);
    var search, depth;
    ghost var expanded;
    search, depth, expanded := ExpandLevels(g, request, started.value);
    var result := Conclude(g, request, search, depth, expanded);
    TraversedIsCharted(g, request, result);
    return Ok(result);
  }

  /** The start nodes alone exceed the node limit. */
  method ReportStarts(g: Graph, request: TraversalRequest, search: Search) returns (result: TraversalResult)
    requires g.Valid() && !Malformed(request) && search.edges == {} && search.boundary.None?
    requires search.reasons == [NodeLimit] && TooManyStarts(g, request, search.selected)
    ensures Traversed(g, request, result) && NodeLimit in result.reasons
  {
    WithinGrows(g, request, 0, request.maxDepth);
    JoinedGrows(request, Starts(g, request), {}, {}, 0, request.maxDepth);
    result := Report(g, search, search.reasons);
    assert Scoped(request, search.selected.Keys) == search.selected.Keys;
    assert forall edge :: edge in result.edges ==> edge in EdgeSet(result.edges);
  }
}
