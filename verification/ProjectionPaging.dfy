/** Reading resolver projections page by page, and resolving the changed sources among them. */
module ProjectionPaging {
  import opened Wrappers
  import opened GraphFacts
  import opened Sequences

  /** A project and a language. */
  datatype Group = Group(project: string, language: string)

  datatype PagingError = InvalidRequest | Unavailable

  /** The visible contribution headers of a snapshot; paths are numbers in their order, 0 is the empty one. */
  type Headers = map<Id, Group>

  /** The paths of the group after the given one, in order. */
  ghost predicate IsListing(headers: Headers, group: Group, after: Id, paths: seq<Id>) {
    Increasing(paths) && forall path :: path in paths <==> path in headers && headers[path] == group && path > after
  }

  lemma {:induction false} ListingIsUnique(headers: Headers, group: Group, after: Id, first: seq<Id>, second: seq<Id>)
    requires IsListing(headers, group, after, first) && IsListing(headers, group, after, second)
    ensures first == second
  {
    SameSorted(first, second);
  }

  lemma TailMembers(paths: seq<Id>)
    requires Increasing(paths) && paths != []
    ensures forall path :: path in paths[1..] <==> path in paths && path != paths[0]
  {
    assert paths == [paths[0]] + paths[1..];
  }

  lemma {:induction false} SameSorted(first: seq<Id>, second: seq<Id>)
    requires Increasing(first) && Increasing(second) && forall path :: path in first <==> path in second
    ensures first == second
  {
    if first == [] {
      assert forall i :: 0 <= i < |second| ==> second[i] in second;
    } else {
      assert first[0] in second && second != [] && second[0] in first;
      var i :| 0 <= i < |first| && first[i] == second[0];
      var j :| 0 <= j < |second| && second[j] == first[0];
      assert first[0] == second[0];
      TailMembers(first);
      TailMembers(second);
      SameSorted(first[1..], second[1..]);
    }
  }

  /** What comes after the k-th path of a listing is the rest of it. */
  lemma RestOfListing(headers: Headers, group: Group, after: Id, paths: seq<Id>, k: nat)
    requires IsListing(headers, group, after, paths) && 0 < k <= |paths|
    ensures IsListing(headers, group, paths[k - 1], paths[k..])
  {
    forall path
      ensures path in paths[k..] <==> path in headers && headers[path] == group && path > paths[k - 1]
    {
      if path in paths && path > paths[k - 1] {
        var i :| 0 <= i < |paths| && paths[i] == path;
        assert i >= k && paths[k..][i - k] == path;
      }
      if path in paths[k..] {
        var i :| 0 <= i < |paths[k..]| && paths[k..][i] == path;
        assert paths[k + i] == path;
      }
      assert paths[k - 1] in paths;
    }
  }

  /** ResolverProjectionPage: WHERE source_path > ? ORDER BY source_path LIMIT ? */
  method ProjectionPage(headers: Headers, group: Group, after: Id, limit: int,
          reliable: bool) returns (page: Result<seq<Id>, PagingError>)
    ensures group.project == "" || group.language == "" || limit <= 0 ==> page == Err(InvalidRequest)
    ensures reliable && group.project != "" && group.language != "" && limit > 0 ==> page.Ok?
    ensures page.Ok? ==>
      limit > 0 && forall paths ::
      IsListing(headers, group, after, paths) ==> page.value == paths[..Min(limit, |paths|)]
  {
    if group.project == "" || group.language == "" || limit <= 0 {
      return Err(InvalidRequest);
    }
    var busy: bool := *;
    if busy && !reliable {
      return Err(Unavailable);
    }
    var sorted := UniqueSorted(set path | path in headers && headers[path] == group && path > after);
    assert IsListing(headers, group, after, sorted);
    forall paths | IsListing(headers, group, after, paths)
      ensures paths == sorted
    {
      ListingIsUnique(headers, group, after, paths, sorted);
    }
    return Ok(sorted[..Min(limit, |sorted|)]);
  }

  /** The key of the last path read, or the empty path. */
  ghost predicate ReadUpTo(paths: seq<Id>, k: nat, after: Id) {
    k <= |paths| && after == if k == 0 then 0 else paths[k - 1]
  }

  lemma NextPage(headers: Headers, group: Group, paths: seq<Id>, k: nat, after: Id)
    requires IsListing(headers, group, 0, paths) && ReadUpTo(paths, k, after)
    ensures IsListing(headers, group, after, paths[k..])
  {
    if k > 0 {
      RestOfListing(headers, group, 0, paths, k);
    }
  }

  lemma PageIsPart(headers: Headers, group: Group, paths: seq<Id>, k: nat, after: Id, page: seq<Id>, limit: nat)
    requires limit > 0 && IsListing(headers, group, 0, paths) && ReadUpTo(paths, k, after)
    requires forall rest :: IsListing(headers, group, after, rest) ==> page == rest[..Min(limit, |rest|)]
    ensures page == [] ==> k == |paths|
    ensures k + |page| <= |paths| && page == paths[k..k + |page|] && Increasing(page)
    ensures page != [] ==> ReadUpTo(paths, k + |page|, page[|page| - 1])
  {
    NextPage(headers, group, paths, k, after);
    assert page == paths[k..][..Min(limit, |paths[k..]|)];
  }

  // ----- visiting every page ----------------------------------------------------------------

  ghost predicate HasRead(paths: seq<Id>, k: nat, read: seq<Id>) {
    k <= |paths| && read == paths[..k]
  }

  lemma ReadAll(paths: seq<Id>)
    ensures HasRead(paths, 0, [])
    ensures forall read {:trigger HasRead(paths, |paths|, read)} :: HasRead(paths, |paths|, read) ==> read == paths
  {}

  lemma ReadMore(paths: seq<Id>, k: nat, read: seq<Id>, page: seq<Id>)
    requires HasRead(paths, k, read) && k + |page| <= |paths| && page == paths[k..k + |page|]
    ensures HasRead(paths, k + |page|, read + page)
  {}

  /** The loop over pages: every matching path is visited, once and in order, whatever the page size. */
  method VisitPages(headers: Headers, group: Group, limit: nat, reliable: bool)
    returns (visited: Result<seq<Id>, PagingError>)
    requires limit > 0
    ensures visited.Ok? ==> IsListing(headers, group, 0, visited.value)
    ensures reliable && group.project != "" && group.language != "" ==> visited.Ok?
  {
    ghost var paths := Listing(headers, group);
    hide Increasing, IsListing, ReadUpTo, HasRead;
    ReadAll(paths);
    var read: seq<Id>, after: Id := [], 0;
    ghost var k := 0;
    assert ReadUpTo(paths, 0, after) by {
      StartsBefore(paths);
    }
    while true
      invariant k <= |paths| && HasRead(paths, k, read) && ReadUpTo(paths, k, after)
      decreases |paths| - k
    {
      var page := ProjectionPage(headers, group, after, limit, reliable);
      if page.Err? {
        return Err(page.error);
      }
      PageIsPart(headers, group, paths, k, after, page.value, limit);
      if page.value == [] {
        break;
      }
      ReadMore(paths, k, read, page.value);
      after := page.value[|page.value| - 1];
      read := read + page.value;
      k := k + |page.value|;
    }
    return Ok(read);
  }

  ghost function Listing(headers: Headers, group: Group): (paths: seq<Id>)
    ensures IsListing(headers, group, 0, paths)
  {
    ListingExists(headers, set path | path in headers && headers[path] == group && path > 0);
    var paths :| Increasing(paths) && forall path ::
      path in paths <==> path in (set path | path in headers && headers[path] == group && path > 0);
    paths
  }

  lemma {:induction false} ListingExists(headers: Headers, ids: set<Id>)
    ensures exists paths :: Increasing(paths) && forall path :: path in paths <==> path in ids
    decreases ids
  {
    if ids == {} {
      assert Increasing([]) && forall path :: path in [] <==> path in ids;
    } else {
      LeastExists(ids);
      var least :| IsLeast(least, ids);
      ListingExists(headers, ids - {least});
      var rest :| Increasing(rest) && forall path :: path in rest <==> path in ids - {least};
      assert forall i :: 0 <= i < |rest| ==> rest[i] in rest;
      assert Increasing([least] + rest) && forall path :: path in [least] + rest <==> path in ids;
    }
  }

  // ----- the incremental resolver -----------------------------------------------------------

  /** The overrides found on one page. */
  method PageOverrides(page: seq<Id>, overrides: map<Id, Group>, deleted: set<Id>) returns (found: seq<Id>)
    requires Increasing(page)
    ensures Distinct(found) && forall path :: path in found <==> path in page && path in overrides && path !in deleted
  {
    found := [];
    for i := 0 to |page|
      invariant Distinct(found)
      invariant forall path :: path in found <==> path in page[..i] && path in overrides && path !in deleted
    {
      assert page[..i + 1] == page[..i] + [page[i]];
      if page[i] in deleted || page[i] !in overrides {
        continue;
      }
      found := found + [page[i]];
    }
    assert page[..|page|] == page;
  }

  lemma DistinctParts(first: seq<Id>, second: seq<Id>)
    requires Distinct(first) && Distinct(second) && forall path :: path in first ==> path !in second
    ensures Distinct(first + second)
  {
    var both := first + second;
    forall i, j | 0 <= i < j < |both|
      ensures both[i] != both[j]
    {
      if i < |first| <= j {
        assert both[i] in first && both[j] == second[j - |first|] && both[j] in second;
      }
    }
  }

  /** Which overrides one group's pages and leftover loop hand to the resolver. */
  predicate Resolves(headers: Headers, group: Group, overrides: map<Id, Group>, deleted: set<Id>, path: Id) {
    path in overrides && path !in deleted && (overrides[path] == group || (path in headers && headers[path] == group))
  }

  lemma PageAddsOverrides(paths: seq<Id>, k: nat, page: seq<Id>, resolved: seq<Id>, found: seq<Id>,
          overrides: map<Id, Group>, deleted: set<Id>)
    requires Increasing(paths) && k + |page| <= |paths| && page == paths[k..k + |page|]
    requires Distinct(resolved) && forall path ::
      path in resolved <==> path in paths[..k] && path in overrides && path !in deleted
    requires Distinct(found) && forall path :: path in found <==> path in page && path in overrides && path !in deleted
    ensures Distinct(resolved + found)
    ensures forall path ::
      path in resolved + found <==> path in paths[..k + |page|] && path in overrides && path !in deleted
  {
    assert paths[..k + |page|] == paths[..k] + page;
    forall path | path in resolved
      ensures path !in found
    {
      assert path in paths[..k];
    }
    DistinctParts(resolved, found);
  }

  /** After k paths: what is processed, and which overrides were resolved. */
  ghost predicate Reading(paths: seq<Id>, k: nat, processed: set<Id>, resolved: seq<Id>, overrides: map<Id, Group>,
          deleted: set<Id>) {
    && k <= |paths| && (forall path :: path in processed <==> path in paths[..k])
    && Distinct(resolved) && forall path ::
      path in resolved <==> path in paths[..k] && path in overrides && path !in deleted
  }

  lemma ReadOn(paths: seq<Id>, k: nat, processed: set<Id>, resolved: seq<Id>, page: seq<Id>, found: seq<Id>,
          overrides: map<Id, Group>, deleted: set<Id>)
    requires Increasing(paths) && Reading(paths, k, processed, resolved, overrides, deleted)
    requires k + |page| <= |paths| && page == paths[k..k + |page|]
    requires Distinct(found) && forall path :: path in found <==> path in page && path in overrides && path !in deleted
    ensures Reading(paths, k + |page|, processed + (set path | path in page), resolved + found, overrides, deleted)
  {
    assert paths[..k + |page|] == paths[..k] + page;
    PageAddsOverrides(paths, k, page, resolved, found, overrides, deleted);
  }

  lemma ReadNothing(paths: seq<Id>, overrides: map<Id, Group>, deleted: set<Id>)
    ensures Reading(paths, 0, {}, [], overrides, deleted)
  {}

  /** One page and the overrides found on it. */
  method ReadNextPage(headers: Headers, group: Group, overrides: map<Id, Group>, deleted: set<Id>, limit: nat,
          reliable: bool,
          after: Id, processed: set<Id>, calls: seq<Id>, ghost paths: seq<Id>, ghost k: nat)
    returns (page: Result<seq<Id>, PagingError>, found: seq<Id>)
    requires limit > 0 && IsListing(headers, group, 0, paths) && ReadUpTo(paths, k, after)
    requires Reading(paths, k, processed, calls, overrides, deleted)
    ensures page.Ok? ==>
      && (if page.value == [] then k == |paths| else ReadUpTo(paths, k + |page.value|, page.value[|page.value| - 1]))
      && Reading(paths, k + |page.value|, processed + (set path | path in page.value), calls + found, overrides,
        deleted)
    ensures reliable && group.project != "" && group.language != "" ==> page.Ok?
  {
    assert Increasing(paths);
    hide Increasing, IsListing, Reading, Distinct, ReadUpTo;
    found := [];
    page := ProjectionPage(headers, group, after, limit, reliable);
    if page.Ok? {
      PageIsPart(headers, group, paths, k, after, page.value, limit);
      hide Min;
      found := PageOverrides(page.value, overrides, deleted);
      ReadOn(paths, k, processed, calls, page.value, found, overrides, deleted);
    }
  }

  /** The loop over pages. */
  method ReadPages(headers: Headers, group: Group, overrides: map<Id, Group>, deleted: set<Id>, limit: nat,
          reliable: bool, ghost paths: seq<Id>)
    returns (outcome: Outcome<PagingError>, processed: set<Id>, calls: seq<Id>)
    requires limit > 0 && IsListing(headers, group, 0, paths)
    ensures outcome.Pass? ==> Reading(paths, |paths|, processed, calls, overrides, deleted)
    ensures reliable && group.project != "" && group.language != "" ==> outcome.Pass?
  {
    var after: Id := 0;
    processed, calls := {}, [];
    ghost var k := 0;
    ReadNothing(paths, overrides, deleted);
    StartsBefore(paths);
    while true
      invariant k <= |paths| && ReadUpTo(paths, k, after) && Reading(paths, k, processed, calls, overrides, deleted)
      decreases |paths| - k
    {
      hide IsListing, Reading;
      var page, found :=
        ReadNextPage(headers, group, overrides, deleted, limit, reliable, after, processed, calls, paths, k);
      if page.Err? {
        outcome := Fail(page.error);
        return;
      }
      if page.value == [] {
        break;
      }
      processed := processed + set path | path in page.value;
      calls := calls + found;
      after := page.value[|page.value| - 1];
      k := k + |page.value|;
    }
    outcome := Pass;
  }

  lemma StartsBefore(paths: seq<Id>)
    ensures ReadUpTo(paths, 0, 0)
  {}

  /** resolveJavaScriptProjectionPages and its siblings: the pages first, then the overrides no page held. */
  method ResolvePages(headers: Headers, group: Group, overrides: map<Id, Group>, deleted: set<Id>, limit: nat,
          reliable: bool)
    returns (resolved: Result<seq<Id>, PagingError>)
    requires limit > 0 && forall path :: path in headers ==> path > 0
    ensures resolved.Ok? ==>
      Distinct(resolved.value) && forall path ::
      path in resolved.value <==> Resolves(headers, group, overrides, deleted, path)
    ensures reliable && group.project != "" && group.language != "" ==> resolved.Ok?
  {
    ghost var paths := Listing(headers, group);
    var outcome, processed, calls := ReadPages(headers, group, overrides, deleted, limit, reliable, paths);
    if outcome.Fail? {
      return Err(outcome.error);
    }
    assert paths[..|paths|] == paths;
    var rest := Leftovers(group, overrides, deleted, processed);
    hide Increasing, Distinct;
    DistinctParts(calls, rest);
    return Ok(calls + rest);
  }

  /** The loop over the overrides; its order does not matter. */
  method Leftovers(group: Group, overrides: map<Id, Group>, deleted: set<Id>, processed: set<Id>)
    returns (rest: seq<Id>)
    ensures Distinct(rest)
    ensures forall path ::
      path in rest <==> path in overrides && overrides[path] == group && path !in deleted && path !in processed
  {
    rest := [];
    var remaining := overrides.Keys;
    while remaining != {}
      invariant remaining <= overrides.Keys && Distinct(rest)
      invariant forall path :: path in rest <==>
        path in overrides && path !in remaining && overrides[path] == group && path !in deleted && path !in processed
      decreases remaining
    {
      var path :| path in remaining;
      remaining := remaining - {path};
      if overrides[path] != group || path in deleted || path in processed {
        continue;
      }
      rest := rest + [path];
    }
  }

  /** A stored header of the group belongs to a changed source of another group. */
  ghost predicate Moved(headers: Headers, group: Group, overrides: map<Id, Group>, deleted: set<Id>) {
    exists path ::
      path in headers && headers[path] == group && path in overrides && path !in deleted && overrides[path] != group
  }

  /** A group's run resolves exactly the group's own changed sources unless one of its stored headers
      belongs to a source that moved to another group. */
  lemma ResolvesOwnUnlessMoved(headers: Headers, group: Group, overrides: map<Id, Group>, deleted: set<Id>)
    ensures (forall path ::
      Resolves(headers, group, overrides, deleted, path) <==>
      path in overrides && path !in deleted && overrides[path] == group)
       <==> !Moved(headers, group, overrides, deleted)
  {
    if Moved(headers, group, overrides, deleted) {
      var path :| path in headers && headers[path] == group && path in overrides && path !in deleted
        && overrides[path] != group;
      assert Resolves(headers, group, overrides, deleted, path);
    }
  }
}
