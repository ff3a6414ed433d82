/** What a publication stores, told by the ids, keys and positions of the facts it was given. */
module StoredFacts {
  import opened ContributionHistory
  import opened ContributionTables
  import opened DependencyReplacement
  import GD = GraphDatabase
  import opened StoreRuns

  // ----- one source's facts -----------------------------------------------------------------

  /** The payload stands at the first index with its node id. */
  ghost predicate FirstNode(payloads: seq<Payload>, payload: Payload) {
    payload.NodeFact? && exists i :: 0 <= i < |payloads| && payloads[i] == payload && forall j :: 0 <= j < i ==>
      payloads[j].NodeFact? ==> payloads[j].text.id != payload.text.id
  }

  /** The payload stands at the first index with its key. */
  ghost predicate FirstFact(payloads: seq<Payload>, payload: Payload) {
    payload.Fact? && exists i :: 0 <= i < |payloads| && payloads[i] == payload && forall j :: 0 <= j < i ==>
      payloads[j].Fact? ==> payloads[j].key != payload.key
  }

  /** A table of nodes holds the first of each id, one of other facts the first of each key, and the table of
      headers the first header. */
  ghost predicate KeepsFirsts(payloads: seq<Payload>, kept: set<Payload>) {
    && ((forall i :: 0 <= i < |payloads| ==> payloads[i].NodeFact?) ==>
      forall payload :: payload in kept <==> FirstNode(payloads, payload))
    && ((forall i :: 0 <= i < |payloads| ==> payloads[i].Fact?) ==>
      forall payload :: payload in kept <==> FirstFact(payloads, payload))
    && ((forall i :: 0 <= i < |payloads| ==> payloads[i].Header?) ==>
      kept == if payloads == [] then {} else {payloads[0]})
  }

  ghost predicate HoldsFacts(record: Record, facts: Facts) {
    forall t: Table :: KeepsFirsts(facts[t], record[t])
  }

  ghost predicate FirstOfKey(payloads: seq<Payload>, payload: Payload) {
    exists i :: 0 <= i < |payloads| && payloads[i] == payload && !KeyBefore(payloads, i, payload)
  }

  ghost predicate KeyBefore(payloads: seq<Payload>, i: nat, payload: Payload) {
    exists j :: 0 <= j < i && j < |payloads| && payloads[j].Key() == payload.Key()
  }

  lemma FirstOfKeyNext(before: seq<Payload>, last: Payload, payload: Payload)
    ensures FirstOfKey(before + [last], payload) <==>
      FirstOfKey(before, payload) || (payload == last && !KeyBefore(before, |before|, last))
  {
    var payloads := before + [last];
    forall i: nat | i <= |before|
      ensures KeyBefore(payloads, i, payload) <==> KeyBefore(before, i, payload)
    {
      if j :| 0 <= j < i && payloads[j].Key() == payload.Key() {
        assert before[j].Key() == payload.Key();
      }
      if j :| 0 <= j < i && j < |before| && before[j].Key() == payload.Key() {
        assert payloads[j].Key() == payload.Key();
      }
    }
    hide KeyBefore;
    if FirstOfKey(payloads, payload) {
      var i :| 0 <= i < |payloads| && payloads[i] == payload && !KeyBefore(payloads, i, payload);
      assert i < |before| ==> before[i] == payload && !KeyBefore(before, i, payload);
    }
    if i :| 0 <= i < |before| && before[i] == payload && !KeyBefore(before, i, payload) {
      assert payloads[i] == payload;
    }
    if payload == last && !KeyBefore(before, |before|, last) {
      assert payloads[|before|] == last;
    }
  }

  ghost predicate KeepsFirstKeys(payloads: seq<Payload>, kept: set<Payload>) {
    && (forall payload :: payload in kept <==> FirstOfKey(payloads, payload))
    && forall i :: 0 <= i < |payloads| ==> KeyIn(kept, payloads[i])
  }

  ghost predicate KeyIn(kept: set<Payload>, payload: Payload) {
    exists taken :: taken in kept && taken.Key() == payload.Key()
  }

  lemma KeyTaken(before: seq<Payload>, kept: set<Payload>, last: Payload)
    requires KeepsFirstKeys(before, kept)
    ensures KeyBefore(before, |before|, last) <==> KeyIn(kept, last)
  {
    if KeyBefore(before, |before|, last) {
      var j :| 0 <= j < |before| && before[j].Key() == last.Key();
      assert KeyIn(kept, before[j]);
    }
    if taken :| taken in kept && taken.Key() == last.Key() {
      var i :| 0 <= i < |before| && before[i] == taken;
      assert before[i].Key() == last.Key();
    }
  }

  lemma KeepNext(before: seq<Payload>, kept: set<Payload>, last: Payload)
    requires KeepsFirstKeys(before, kept)
    ensures KeepsFirstKeys(before + [last], if KeyIn(kept, last) then kept else kept + {last})
  {
    var after := if KeyIn(kept, last) then kept else kept + {last};
    KeyTaken(before, kept, last);
    forall payload
      ensures payload in after <==> FirstOfKey(before + [last], payload)
    {
      FirstOfKeyNext(before, last, payload);
    }
    assert !KeyIn(kept, last) ==> last in after;
    hide FirstOfKey, KeyBefore;
    forall i | 0 <= i <= |before|
      ensures KeyIn(after, (before + [last])[i])
    {
      assert i < |before| ==> KeyIn(kept, before[i]);
    }
  }

  lemma KeptNext(before: seq<Payload>, last: Payload)
    ensures FirstPerKey(before + [last])
      == if KeyIn(FirstPerKey(before), last) then FirstPerKey(before) else FirstPerKey(before) + {last}
  {
    assert (before + [last])[..|before|] == before;
  }

  /** The rows kept are the first of each key, and every key is kept. */
  lemma {:induction false} FirstsKept(payloads: seq<Payload>)
    ensures KeepsFirstKeys(payloads, FirstPerKey(payloads))
  {
    if payloads == [] {
      assert FirstPerKey(payloads) == {};
    } else {
      var before, last := payloads[..|payloads| - 1], payloads[|payloads| - 1];
      hide KeepsFirstKeys, KeyIn, FirstPerKey;
      FirstsKept(before);
      KeepNext(before, FirstPerKey(before), last);
      KeptNext(before, last);
      assert payloads == before + [last];
    }
  }

  lemma FirstNodeOfKey(payloads: seq<Payload>, payload: Payload)
    requires forall i :: 0 <= i < |payloads| ==> payloads[i].NodeFact?
    ensures FirstOfKey(payloads, payload) <==> FirstNode(payloads, payload)
  {
    if i :| 0 <= i < |payloads| && payloads[i] == payload && !KeyBefore(payloads, i, payload) {
      assert forall j :: 0 <= j < i ==> payloads[j].Key() != payload.Key();
    }
    if FirstNode(payloads, payload) {
      var i :| 0 <= i < |payloads| && payloads[i] == payload && forall j :: 0 <= j < i ==>
        payloads[j].NodeFact? ==> payloads[j].text.id != payload.text.id;
      assert !KeyBefore(payloads, i, payload);
    }
  }

  lemma FirstFactOfKey(payloads: seq<Payload>, payload: Payload)
    requires forall i :: 0 <= i < |payloads| ==> payloads[i].Fact?
    ensures FirstOfKey(payloads, payload) <==> FirstFact(payloads, payload)
  {
    if i :| 0 <= i < |payloads| && payloads[i] == payload && !KeyBefore(payloads, i, payload) {
      assert forall j :: 0 <= j < i ==> payloads[j].Key() != payload.Key();
    }
    if FirstFact(payloads, payload) {
      var i :| 0 <= i < |payloads| && payloads[i] == payload && forall j :: 0 <= j < i ==>
        payloads[j].Fact? ==> payloads[j].key != payload.key;
      assert !KeyBefore(payloads, i, payload);
    }
  }

  lemma OneHeader(payloads: seq<Payload>)
    requires forall i :: 0 <= i < |payloads| ==> payloads[i].Header?
    ensures forall payload :: FirstOfKey(payloads, payload) <==> payloads != [] && payload == payloads[0]
  {
    forall payload
      ensures FirstOfKey(payloads, payload) <==> payloads != [] && payload == payloads[0]
    {
      if i :| 0 <= i < |payloads| && payloads[i] == payload && !KeyBefore(payloads, i, payload) {
        assert i > 0 ==> payloads[0].Key() == payload.Key();
      }
      if payloads != [] && payload == payloads[0] {
        assert !KeyBefore(payloads, 0, payload);
      }
    }
  }

  lemma StoredFirsts(payloads: seq<Payload>)
    ensures KeepsFirsts(payloads, FirstPerKey(payloads))
  {
    FirstsKept(payloads);
    hide FirstPerKey, FirstOfKey, FirstNode, FirstFact;
    var kept := FirstPerKey(payloads);
    if forall i :: 0 <= i < |payloads| ==> payloads[i].NodeFact? {
      forall payload
        ensures payload in kept <==> FirstNode(payloads, payload)
      {
        FirstNodeOfKey(payloads, payload);
      }
    }
    if forall i :: 0 <= i < |payloads| ==> payloads[i].Fact? {
      forall payload
        ensures payload in kept <==> FirstFact(payloads, payload)
      {
        FirstFactOfKey(payloads, payload);
      }
    }
    if forall i :: 0 <= i < |payloads| ==> payloads[i].Header? {
      OneHeader(payloads);
    }
  }

  /** What a publication stores of a source: the first fact of each id or key. */
  lemma StoredHolds(contribution: Contribution)
    ensures HoldsFacts(Stored(contribution), contribution.facts)
  {
    hide KeepsFirsts, FirstPerKey;
    forall t: Table
      ensures KeepsFirsts(contribution.facts[t], Stored(contribution)[t])
    {
      StoredFirsts(contribution.facts[t]);
    }
  }

  /** Facts with distinct ids or keys are all stored. */
  lemma DistinctFactsStored(record: Record, facts: Facts, t: Table)
    requires HoldsFacts(record, facts)
    requires (forall i :: 0 <= i < |facts[t]| ==> facts[t][i].NodeFact?)
      || forall i :: 0 <= i < |facts[t]| ==> facts[t][i].Fact?
    requires forall i, j :: 0 <= i < j < |facts[t]| ==>
      && (facts[t][i].NodeFact? && facts[t][j].NodeFact? ==> facts[t][i].text.id != facts[t][j].text.id)
      && (facts[t][i].Fact? && facts[t][j].Fact? ==> facts[t][i].key != facts[t][j].key)
    ensures record[t] == set payload | payload in facts[t]
  {
    var payloads := facts[t];
    assert KeepsFirsts(payloads, record[t]);
    forall i | 0 <= i < |payloads|
      ensures payloads[i] in record[t]
    {
      assert FirstNode(payloads, payloads[i]) || FirstFact(payloads, payloads[i]);
    }
  }

  // ----- a whole publication ----------------------------------------------------------------

  ghost predicate Updates(update: seq<Contribution>, path: Path) {
    exists i :: 0 <= i < |update| && update[i].path == path
  }

  /** The version's facts: every updated source holds its own facts and every other what the head held; the
      workspace nodes are the first of each id, and the edges those taken over and the first new ones. */
  ghost predicate Publishes(head: GD.VersionFacts, request: GD.PublishRequest, facts: GD.VersionFacts) {
    && (forall path :: path in facts.contributions <==> path in head.contributions || Updates(request.update, path))
    && (forall path :: path in head.contributions && !Updates(request.update, path) ==>
      path in facts.contributions && facts.contributions[path] == head.contributions[path])
    && (forall i :: 0 <= i < |request.update| ==>
      && request.update[i].path in facts.contributions
      && HoldsFacts(facts.contributions[request.update[i].path], request.update[i].facts))
    && NodesAdded(map[], request.nodes, facts.nodes)
    && EdgesPublished(head.edges, request, facts.edges)
  }

  lemma UpdatedPaths(update: seq<Contribution>)
    ensures forall path :: path in Written(update) <==> Updates(update, path)
  {
    WrittenPaths(update);
    hide Written;
    forall path
      ensures path in Written(update) <==> Updates(update, path)
    {
      assert path in Written(update).Keys <==>
        exists contribution :: contribution in update && contribution.path == path;
      if contribution :| contribution in update && contribution.path == path {
        var i :| 0 <= i < |update| && update[i] == contribution;
      }
    }
  }

  lemma {:induction false} WrittenFacts(update: seq<Contribution>)
    requires DistinctPaths(update)
    ensures forall i :: 0 <= i < |update| ==>
      update[i].path in Written(update) && HoldsFacts(Written(update)[update[i].path], update[i].facts)
  {
    if update != [] {
      var before, last := update[..|update| - 1], update[|update| - 1];
      WrittenFacts(before);
      StoredHolds(last);
      hide HoldsFacts, Stored;
      forall i | 0 <= i < |update|
        ensures update[i].path in Written(update) && HoldsFacts(Written(update)[update[i].path], update[i].facts)
      {
        assert i < |before| ==> before[i] == update[i];
      }
    }
  }

  lemma PublicationStores(head: GD.VersionFacts, request: GD.PublishRequest)
    requires DistinctPaths(request.update)
    ensures Publishes(head, request, GD.PublishedFacts(head, request))
  {
    UpdatedPaths(request.update);
    WrittenFacts(request.update);
    PublishedEdges(head, request);
    hide HoldsFacts, Written, NodesAdded, EdgesPublished, GD.StoreNodes, GD.StoreEdges;
  }

  // ----- replaced dependencies --------------------------------------------------------------

  /** The record holds the given dependencies, the first of each key, and otherwise what it held. */
  ghost predicate NewDependencies(before: Record, dependencies: seq<Payload>, after: Record) {
    KeepsFirsts(dependencies, after[Dependencies]) && forall t: Table :: t != Dependencies ==> after[t] == before[t]
  }

  /** The records of the named paths hold the given dependencies; nothing else changes. */
  ghost predicate DependenciesReplaced(before: map<Path, Record>, contributions: seq<Contribution>,
          after: map<Path, Record>) {
    && before.Keys == after.Keys
    && (forall path :: path in before && !Updates(contributions, path) ==>
      path in after && after[path] == before[path])
    && forall i :: 0 <= i < |contributions| && contributions[i].path in before ==>
      && contributions[i].path in after
      && NewDependencies(before[contributions[i].path], contributions[i].facts[Dependencies],
        after[contributions[i].path])
  }

  lemma GivenDependencies(record: Record, contribution: Contribution)
    ensures NewDependencies(record, contribution.facts[Dependencies], WithDependencies(record, contribution))
  {
    StoredHolds(contribution);
    assert KeepsFirsts(contribution.facts[Dependencies], Stored(contribution)[Dependencies]);
    hide KeepsFirsts, Stored;
  }

  lemma ReplacementHolds(records: map<Path, Record>, contributions: seq<Contribution>)
    requires DistinctPaths(contributions)
    ensures DependenciesReplaced(records, contributions, WithAllDependencies(records, contributions))
  {
    hide WithAllDependencies, WithDependencies, NewDependencies;
    ReplacedPaths(records, contributions);
    var after := WithAllDependencies(records, contributions);
    forall path | path in records && !Updates(contributions, path)
      ensures path in after && after[path] == records[path]
    {
      UntouchedRecord(records, contributions, path);
    }
    forall i | 0 <= i < |contributions| && contributions[i].path in records
      ensures contributions[i].path in after
      ensures NewDependencies(records[contributions[i].path], contributions[i].facts[Dependencies],
        after[contributions[i].path])
    {
      ReplacedRecord(records, contributions, i);
      GivenDependencies(records[contributions[i].path], contributions[i]);
    }
  }
}
