/** PublishBatch up to the resolvers: which sources a batch updates, and how often each of them is resolved. */
module IncrementalBatch {
  import opened GraphFacts
  import opened Intervals
  import opened ProjectionPaging
  import opened Sequences
  import opened Wrappers

  /** A batch of more sources than one page holds is resolved from a table of staged sources. */
  const PAGE_SIZE := 128

  /** A discovered source file and the project that owns it. */
  datatype Source = Source(path: Id, project: string)

  /** The language of every path that has a registered extractor. */
  type Languages = map<Id, string>

  // ----- all groups of an update ------------------------------------------------------------

  /** One source handed to the resolver of one group. */
  datatype Call = Call(group: Group, path: Id)

  function Times(calls: seq<Call>, path: Id): nat {
    if calls == [] then 0
    else Times(calls[..|calls| - 1], path) + if calls[|calls| - 1].path == path then 1 else 0
  }

  /** A changed source is resolved in its own group, and again in the group of its stored header when that is
      another one; each only if some discovered source is in that group. */
  function Share(headers: Headers, groups: set<Group>, overrides: map<Id, Group>, deleted: set<Id>, path: Id): nat {
    if path !in overrides || path in deleted then 0
    else
      One(overrides[path] in groups)
      + One(path in headers && headers[path] != overrides[path] && headers[path] in groups)
  }

  lemma {:induction false} TimesOfBoth(first: seq<Call>, second: seq<Call>, path: Id)
    ensures Times(first + second, path) == Times(first, path) + Times(second, path)
  {
    if second == [] {
      assert first + second == first;
    } else {
      TimesOfBoth(first, second[..|second| - 1], path);
      assert (first + second)[..|first + second| - 1] == first + second[..|second| - 1];
    }
  }

  function CallsOf(group: Group, paths: seq<Id>): seq<Call> {
    seq(|paths|, i requires 0 <= i < |paths| => Call(group, paths[i]))
  }

  lemma {:induction false} TimesOfGroup(group: Group, paths: seq<Id>, path: Id)
    requires Distinct(paths)
    ensures Times(CallsOf(group, paths), path) == One(path in paths)
  {
    if paths != [] {
      var before := paths[..|paths| - 1];
      TimesOfGroup(group, before, path);
      assert CallsOf(group, paths)[..|paths| - 1] == CallsOf(group, before);
      assert paths == before + [paths[|paths| - 1]];
    }
  }

  lemma GroupAddsShare(headers: Headers, groups: set<Group>, group: Group, overrides: map<Id, Group>, deleted: set<Id>,
          path: Id)
    requires group !in groups
    ensures Share(headers, groups + {group}, overrides, deleted, path)
         == Share(headers, groups, overrides, deleted, path) + One(Resolves(headers, group, overrides, deleted, path))
  {}

  /** Every source so far was handed on as often as its share says. */
  ghost predicate Shared(headers: Headers, groups: set<Group>, overrides: map<Id, Group>, deleted: set<Id>,
          calls: seq<Call>) {
    forall path :: Times(calls, path) == Share(headers, groups, overrides, deleted, path)
  }

  lemma ShareMore(headers: Headers, groups: set<Group>, group: Group, overrides: map<Id, Group>, deleted: set<Id>,
          calls: seq<Call>, resolved: seq<Id>)
    requires Shared(headers, groups, overrides, deleted, calls) && group !in groups && Distinct(resolved)
    requires forall path :: path in resolved <==> Resolves(headers, group, overrides, deleted, path)
    ensures Shared(headers, groups + {group}, overrides, deleted, calls + CallsOf(group, resolved))
  {
    hide Distinct, Resolves;
    forall path
      ensures Times(calls + CallsOf(group, resolved), path)
        == Share(headers, groups + {group}, overrides, deleted, path)
    {
      TimesOfBoth(calls, CallsOf(group, resolved), path);
      TimesOfGroup(group, resolved, path);
      GroupAddsShare(headers, groups, group, overrides, deleted, path);
    }
  }


  // ----- the groups of the workspace --------------------------------------------------------

  function Paths(discovered: seq<Source>): set<Id> {
    set source | source in discovered :: source.path
  }

  function GroupsOf(discovered: seq<Source>, languages: Languages): set<Group> {
    set source | source in discovered && source.path in languages :: Group(source.project, languages[source.path])
  }

  predicate Resolvable(group: Group, supported: set<string>) {
    group.project != "" && group.language != "" && group.language in supported
  }

  /** resolveIncrementalWorkspaceFacts: every group that has a discovered source, one after the other, given
      the languages that have a resolver. */
  method ResolveIncrementalWorkspace(headers: Headers, groups: set<Group>, overrides: map<Id, Group>,
          deleted: set<Id>, supported: set<string>, limit: nat, reliable: bool)
    returns (result: Result<seq<Call>, PagingError>)
    requires limit > 0 && forall path :: path in headers ==> path > 0
    ensures result.Ok? ==> Shared(headers, groups, overrides, deleted, result.value)
    ensures (exists group :: group in groups && group.language !in supported) ==> result.Err?
    ensures reliable && (forall group :: group in groups ==> Resolvable(group, supported)) ==> result.Ok?
  {
    var calls: seq<Call> := [];
    var remaining := groups;
    hide Resolves, Distinct;
    while remaining != {}
      invariant remaining <= groups && Shared(headers, groups - remaining, overrides, deleted, calls)
      invariant forall group :: group in groups - remaining ==> group.language in supported
      decreases remaining
    {
      var group :| group in remaining;
      if group.language !in supported {
        return Err(InvalidRequest);
      }
      var resolved := ResolvePages(headers, group, overrides, deleted, limit, reliable);
      if resolved.Err? {
        return Err(resolved.error);
      }
      ShareMore(headers, groups - remaining, group, overrides, deleted, calls, resolved.value);
      calls := calls + CallsOf(group, resolved.value);
      assert groups - (remaining - {group}) == groups - remaining + {group};
      remaining := remaining - {group};
    }
    assert groups - {} == groups;
    return Ok(calls);
  }

  // ----- which sources a batch updates ------------------------------------------------------

  /** A contribution of the batch and its group; a deletion belongs to no project. */
  datatype Update = Update(path: Id, group: Group)

  const NO_PROJECT := ""

  /** The changed paths that are not discovered but could be indexed. */
  function DeletedPaths(files: set<Id>, languages: Languages, changed: set<Id>): set<Id> {
    changed * languages.Keys - files
  }

  /** The changed files, the files that depend on changed ones, and the deletions. */
  function UpdatedPaths(files: set<Id>, languages: Languages, changed: set<Id>, affected: set<Id>): set<Id> {
    files * (changed + affected) + DeletedPaths(files, languages, changed)
  }

  /** The project of each discovered path. */
  ghost predicate OwnedBy(projects: map<Id, string>, discovered: seq<Source>) {
    projects.Keys == Paths(discovered)
    && forall path :: path in projects ==> Source(path, projects[path]) in discovered
  }

  method IndexByPath(discovered: seq<Source>) returns (projects: map<Id, string>)
    ensures OwnedBy(projects, discovered)
  {
    projects := map[];
    for i := 0 to |discovered|
      invariant OwnedBy(projects, discovered[..i])
    {
      assert discovered[..i + 1] == discovered[..i] + [discovered[i]];
      projects := projects[discovered[i].path := discovered[i].project];
    }
    assert discovered[..|discovered|] == discovered;
  }

  function GroupAt(projects: map<Id, string>, languages: Languages, path: Id): Group
    requires path in languages
  {
    Group(if path in projects then projects[path] else NO_PROJECT, languages[path])
  }

  /** One update per path, in the path's group. */
  ghost predicate Covers(updates: seq<Update>, projects: map<Id, string>, languages: Languages, paths: set<Id>) {
    && |updates| == |paths| && paths <= languages.Keys
    && (forall path :: path in paths ==> Update(path, GroupAt(projects, languages, path)) in updates)
    && forall update :: update in updates ==>
      update.path in paths && update.group == GroupAt(projects, languages, update.path)
  }

  lemma CoversOneMore(updates: seq<Update>, projects: map<Id, string>, languages: Languages, paths: set<Id>, path: Id)
    requires Covers(updates, projects, languages, paths) && path !in paths && path in languages
    ensures Covers(updates + [Update(path, GroupAt(projects, languages, path))], projects, languages, paths + {path})
  {}

  lemma CoversBoth(first: seq<Update>, second: seq<Update>, projects: map<Id, string>, languages: Languages,
          paths: set<Id>, others: set<Id>)
    requires Covers(first, projects, languages, paths) && Covers(second, projects, languages, others)
    requires paths !! others
    ensures Covers(first + second, projects, languages, paths + others)
  {
    assert |paths + others| == |paths| + |others|;
  }

  /** extractDiscoveredSources: a source that cannot be read or has no extractor fails them all. */
  method ExtractDiscovered(paths: seq<Id>, projects: map<Id, string>, languages: Languages, reliable: bool)
    returns (updates: Result<seq<Update>, PagingError>)
    requires Increasing(paths) && Members(paths) <= projects.Keys
    ensures updates.Ok? ==> Covers(updates.value, projects, languages, Members(paths))
    ensures reliable && Members(paths) <= languages.Keys ==> updates.Ok?
  {
    var extracted: seq<Update> := [];
    for i := 0 to |paths|
      invariant Covers(extracted, projects, languages, Members(paths[..i]))
    {
      assert paths[..i + 1] == paths[..i] + [paths[i]];
      assert Members(paths[..i + 1]) == Members(paths[..i]) + {paths[i]};
      var unreadable: bool := *;
      if unreadable && !reliable {
        return Err(Unavailable);
      }
      assert paths[i] in Members(paths);
      if paths[i] !in languages {
        return Err(InvalidRequest);
      }
      CoversOneMore(extracted, projects, languages, Members(paths[..i]), paths[i]);
      extracted := extracted + [Update(paths[i], GroupAt(projects, languages, paths[i]))];
    }
    assert paths[..|paths|] == paths;
    return Ok(extracted);
  }

  lemma OneMoreMember(paths: seq<Id>, i: nat)
    requires Increasing(paths) && i < |paths|
    ensures Members(paths[..i + 1]) == Members(paths[..i]) + {paths[i]}
    ensures paths[i] !in Members(paths[..i]) && forall path :: path in paths[..i] ==> path < paths[i]
  {
    assert paths[..i + 1] == paths[..i] + [paths[i]];
  }

  lemma StaysIncreasing(files: seq<Id>, paths: seq<Id>, i: nat)
    requires Increasing(files) && Increasing(paths) && i < |paths| && Members(files) <= Members(paths[..i])
    ensures Increasing(files + [paths[i]]) && Members(files + [paths[i]]) == Members(files) + {paths[i]}
  {
    OneMoreMember(paths, i);
    assert forall j :: 0 <= j < |files| ==> files[j] in Members(files);
  }

  predicate AllSupported(languages: Languages, supported: set<string>) {
    forall path :: path in languages ==> languages[path] != "" && languages[path] in supported
  }

  /** The changed paths looked at so far, taken apart into files and deletions. */
  ghost predicate Sorted(changed: seq<Id>, i: nat, projects: map<Id, string>, languages: Languages,
          files: seq<Id>, deletions: seq<Update>, deleted: set<Id>) {
    && i <= |changed| && Increasing(files) && Members(files) == Members(changed[..i]) * projects.Keys
    && deleted == DeletedPaths(projects.Keys, languages, Members(changed[..i]))
    && Covers(deletions, projects, languages, deleted)
  }

  lemma DeletedStep(files: set<Id>, languages: Languages, changed: set<Id>, path: Id)
    ensures if path in languages && path !in files then
      DeletedPaths(files, languages, changed + {path}) == DeletedPaths(files, languages, changed) + {path}
      else DeletedPaths(files, languages, changed + {path}) == DeletedPaths(files, languages, changed)
    ensures path !in changed ==> path !in DeletedPaths(files, languages, changed)
  {}

  lemma FileStep(files: set<Id>, changed: set<Id>, path: Id)
    ensures if path in files then (changed + {path}) * files == changed * files + {path}
      else (changed + {path}) * files == changed * files
    ensures changed * files <= changed
  {}

  lemma SortedNone(changed: seq<Id>, projects: map<Id, string>, languages: Languages)
    ensures Sorted(changed, 0, projects, languages, [], [], {})
  {}

  lemma SortedFile(changed: seq<Id>, i: nat, projects: map<Id, string>, languages: Languages, files: seq<Id>,
          deletions: seq<Update>, deleted: set<Id>)
    requires Increasing(changed) && i < |changed|
    requires Sorted(changed, i, projects, languages, files, deletions, deleted) && changed[i] in projects
    ensures Sorted(changed, i + 1, projects, languages, files + [changed[i]], deletions, deleted)
  {
    OneMoreMember(changed, i);
    FileStep(projects.Keys, Members(changed[..i]), changed[i]);
    DeletedStep(projects.Keys, languages, Members(changed[..i]), changed[i]);
    StaysIncreasing(files, changed, i);
    hide Covers, Increasing, Members, DeletedPaths;
  }

  lemma SortedOther(changed: seq<Id>, i: nat, projects: map<Id, string>, languages: Languages, files: seq<Id>,
          deletions: seq<Update>, deleted: set<Id>)
    requires Increasing(changed) && i < |changed|
    requires Sorted(changed, i, projects, languages, files, deletions, deleted) && changed[i] !in projects
    ensures if changed[i] in languages then
      Sorted(changed, i + 1, projects, languages, files,
        deletions + [Update(changed[i], Group(NO_PROJECT, languages[changed[i]]))], deleted + {changed[i]})
      else Sorted(changed, i + 1, projects, languages, files, deletions, deleted)
  {
    OneMoreMember(changed, i);
    FileStep(projects.Keys, Members(changed[..i]), changed[i]);
    DeletedStep(projects.Keys, languages, Members(changed[..i]), changed[i]);
    hide Covers, Increasing, Members, DeletedPaths;
    if changed[i] in languages {
      CoversOneMore(deletions, projects, languages, deleted, changed[i]);
    }
  }

  lemma SortedAll(changed: seq<Id>, projects: map<Id, string>, languages: Languages, files: seq<Id>,
          deletions: seq<Update>, deleted: set<Id>)
    requires Sorted(changed, |changed|, projects, languages, files, deletions, deleted)
    ensures Increasing(files) && Members(files) == Members(changed) * projects.Keys
    ensures deleted == DeletedPaths(projects.Keys, languages, Members(changed))
    ensures Covers(deletions, projects, languages, deleted)
  {
    assert changed[..|changed|] == changed;
  }

  /** extractChangedSources: files that exist are extracted, and the others become deletions without a project. */
  method ExtractChanged(changed: seq<Id>, projects: map<Id, string>, languages: Languages, supported: set<string>,
          reliable: bool)
    returns (outcome: Outcome<PagingError>, updates: seq<Update>, deleted: set<Id>)
    requires Increasing(changed)
    ensures outcome.Pass? ==>
      && deleted == DeletedPaths(projects.Keys, languages, Members(changed))
      && Covers(updates, projects, languages, projects.Keys * Members(changed) + deleted)
    ensures reliable && projects.Keys <= languages.Keys && AllSupported(languages, supported) ==> outcome.Pass?
  {
    var files: seq<Id>, deletions: seq<Update> := [], [];
    updates, deleted := [], {};
    SortedNone(changed, projects, languages);
    hide Increasing, Covers, Sorted, Members, DeletedPaths;
    for i := 0 to |changed|
      invariant Sorted(changed, i, projects, languages, files, deletions, deleted)
    {
      if changed[i] in projects {
        SortedFile(changed, i, projects, languages, files, deletions, deleted);
        files := files + [changed[i]];
        continue;
      }
      SortedOther(changed, i, projects, languages, files, deletions, deleted);
      if changed[i] in languages {
        if languages[changed[i]] !in supported {
          return Fail(InvalidRequest), updates, deleted;
        }
        deletions := deletions + [Update(changed[i], Group(NO_PROJECT, languages[changed[i]]))];
        deleted := deleted + {changed[i]};
      }
    }
    SortedAll(changed, projects, languages, files, deletions, deleted);
    var extracted := ExtractDiscovered(files, projects, languages, reliable);
    if extracted.Err? {
      return Fail(extracted.error), updates, deleted;
    }
    FilesAreNotDeleted(projects.Keys, languages, Members(changed));
    CoversBoth(extracted.value, deletions, projects, languages, Members(files), deleted);
    return Pass, extracted.value + deletions, deleted;
  }

  lemma FilesAreNotDeleted(files: set<Id>, languages: Languages, changed: set<Id>)
    ensures files * changed == changed * files && files !! DeletedPaths(files, languages, changed)
  {}

  /** The affected sources that still exist and are not changed themselves. */
  method SelectAffected(affected: seq<Id>, changed: set<Id>, projects: map<Id, string>) returns (files: seq<Id>)
    requires Increasing(affected)
    ensures Increasing(files) && Members(files) == Members(affected) * projects.Keys - changed
  {
    files := [];
    for i := 0 to |affected|
      invariant Increasing(files) && Members(files) == Members(affected[..i]) * projects.Keys - changed
    {
      OneMoreMember(affected, i);
      if affected[i] !in changed && affected[i] in projects {
        StaysIncreasing(files, affected, i);
        files := files + [affected[i]];
      }
    }
    assert affected[..|affected|] == affected;
  }

  /** The updates by path. */
  method IndexUpdates(updates: seq<Update>, ghost projects: map<Id, string>, ghost languages: Languages,
          ghost paths: set<Id>) returns (overrides: map<Id, Group>)
    requires Covers(updates, projects, languages, paths)
    ensures overrides.Keys == paths
    ensures forall path :: path in paths ==> overrides[path] == GroupAt(projects, languages, path)
  {
    overrides := map[];
    for i := 0 to |updates|
      invariant forall j :: 0 <= j < i ==> updates[j].path in overrides
      invariant forall path :: path in overrides ==>
        path in paths && overrides[path] == GroupAt(projects, languages, path)
    {
      assert updates[i] in updates;
      overrides := overrides[updates[i].path := updates[i].group];
    }
    forall path | path in paths
      ensures path in overrides
    {
      var j :| 0 <= j < |updates| && updates[j] == Update(path, GroupAt(projects, languages, path));
    }
  }

  // ----- the batch --------------------------------------------------------------------------

  /** StageResolverSources: an update without project, language or path is refused. */
  predicate Incomplete(update: Update) {
    update.group.project == "" || update.group.language == "" || update.path == 0
  }

  method StageResolverSources(updates: seq<Update>, reliable: bool)
    returns (outcome: Outcome<PagingError>, staged: set<Update>)
    ensures outcome.Pass? ==> staged == Members(updates) && forall update :: update in updates ==>
      update.group.project != "" && update.group.language != "" && update.path != 0
    ensures reliable && outcome.Fail? ==>
      (exists u :: u in updates && (u.group.project == "" || u.group.language == "" || u.path == 0))
  {
    staged := {};
    for i := 0 to |updates|
      invariant staged == Members(updates[..i]) && forall j :: 0 <= j < i ==> !Incomplete(updates[j])
    {
      assert updates[..i + 1] == updates[..i] + [updates[i]];
      if Incomplete(updates[i]) {
        return Fail(InvalidRequest), staged;
      }
      staged := staged + {updates[i]};
    }
    assert updates[..|updates|] == updates;
    var busy: bool := *;
    return if busy && !reliable then Fail(Unavailable) else Pass, staged;
  }

  /** What the staged page query can find: stored headers of exactly the staged path and group. */
  function StagedHeaders(headers: Headers, staged: set<Update>): Headers {
    map path | path in headers && Update(path, headers[path]) in staged :: headers[path]
  }

  /** What a batch hands to the resolvers. */
  datatype Batch = Batch(overrides: map<Id, Group>, deleted: set<Id>, calls: seq<Call>)

  /** How often a batch resolves a path: each remaining source once, and in a batch of at most one page a second
      time if its stored header is in another group that still has a discovered source. */
  function Due(headers: Headers, groups: set<Group>, overrides: map<Id, Group>, deleted: set<Id>, path: Id): nat {
    if path !in overrides || path in deleted then 0
    else if |overrides| <= PAGE_SIZE && path in headers && headers[path] != overrides[path] && headers[path] in groups
    then 2
    else 1
  }

  /** Every source that is not deleted was discovered in its group. */
  ghost predicate Discovered(discovered: seq<Source>, languages: Languages, overrides: map<Id, Group>,
          deleted: set<Id>) {
    forall path :: path in overrides && path !in deleted ==>
      path in languages && overrides[path].language == languages[path]
      && Source(path, overrides[path].project) in discovered
  }

  ghost predicate AsDue(headers: Headers, groups: set<Group>, batch: Batch) {
    forall path :: Times(batch.calls, path) == Due(headers, groups, batch.overrides, batch.deleted, path)
  }

  lemma DiscoveredInGroups(discovered: seq<Source>, languages: Languages, overrides: map<Id, Group>,
          deleted: set<Id>, path: Id)
    requires Discovered(discovered, languages, overrides, deleted) && path in overrides && path !in deleted
    ensures overrides[path] in GroupsOf(discovered, languages)
  {
    var source := Source(path, overrides[path].project);
    assert source in discovered && overrides[path] == Group(source.project, languages[source.path]);
  }

  lemma SharedIsDue(headers: Headers, discovered: seq<Source>, languages: Languages, batch: Batch)
    requires Discovered(discovered, languages, batch.overrides, batch.deleted) && |batch.overrides| <= PAGE_SIZE
    requires Shared(headers, GroupsOf(discovered, languages), batch.overrides, batch.deleted, batch.calls)
    ensures AsDue(headers, GroupsOf(discovered, languages), batch)
  {
    forall path
      ensures Times(batch.calls, path)
        == Due(headers, GroupsOf(discovered, languages), batch.overrides, batch.deleted, path)
    {
      if path in batch.overrides && path !in batch.deleted {
        DiscoveredInGroups(discovered, languages, batch.overrides, batch.deleted, path);
      }
    }
  }

  /** Staged headers are in their source's own group, so nothing is resolved twice. */
  lemma StagedIsDue(headers: Headers, staged: set<Update>, discovered: seq<Source>, languages: Languages, batch: Batch)
    requires Discovered(discovered, languages, batch.overrides, batch.deleted) && |batch.overrides| > PAGE_SIZE
    requires forall update :: update in staged ==>
      update.path in batch.overrides && update.group == batch.overrides[update.path]
    requires Shared(StagedHeaders(headers, staged), GroupsOf(discovered, languages), batch.overrides, batch.deleted,
        batch.calls)
    ensures AsDue(headers, GroupsOf(discovered, languages), batch)
  {
    forall path
      ensures Times(batch.calls, path)
        == Due(headers, GroupsOf(discovered, languages), batch.overrides, batch.deleted, path)
    {
      if path in batch.overrides && path !in batch.deleted {
        DiscoveredInGroups(discovered, languages, batch.overrides, batch.deleted, path);
      }
    }
  }

  /** Every discovered source has a path, a project and a supported language. */
  ghost predicate Indexable(discovered: seq<Source>, languages: Languages, supported: set<string>) {
    AllSupported(languages, supported)
    && forall source :: source in discovered ==>
      source.path > 0 && source.project != NO_PROJECT && source.path in languages
  }

  /** The resolver runs of a batch: over the staged sources if they are more than one page, otherwise over the
      stored headers. */
  method ResolveUpdates(headers: Headers, discovered: seq<Source>, languages: Languages, updates: seq<Update>,
          overrides: map<Id, Group>, deleted: set<Id>, supported: set<string>, reliable: bool)
    returns (result: Result<Batch, PagingError>)
    requires forall path :: path in headers ==> path > 0
    requires |updates| == |overrides| && Discovered(discovered, languages, overrides, deleted)
    requires forall path :: path in overrides ==> Update(path, overrides[path]) in updates
    requires forall update :: update in updates ==>
      update.path in overrides && update.group == overrides[update.path]
    ensures result.Ok? ==>
      result.value.overrides == overrides && result.value.deleted == deleted
      && AsDue(headers, GroupsOf(discovered, languages), result.value)
    ensures |overrides| > PAGE_SIZE ==>
      (exists path :: path in overrides && Incomplete(Update(path, overrides[path]))) ==> result.Err?
    ensures reliable && Indexable(discovered, languages, supported) ==>
      |overrides| <= PAGE_SIZE || deleted == {} ==> result.Ok?
  {
    var groups := GroupsOf(discovered, languages);
    var calls;
    if |updates| > PAGE_SIZE {
      var outcome, staged := StageResolverSources(updates, reliable);
      if outcome.Fail? {
        return Err(outcome.error);
      }
      calls := ResolveIncrementalWorkspace(StagedHeaders(headers, staged), groups, overrides, deleted, supported,
        PAGE_SIZE, reliable);
      if calls.Err? {
        return Err(calls.error);
      }
      StagedIsDue(headers, staged, discovered, languages, Batch(overrides, deleted, calls.value));
    } else {
      calls := ResolveIncrementalWorkspace(headers, groups, overrides, deleted, supported, PAGE_SIZE, reliable);
      if calls.Err? {
        return Err(calls.error);
      }
      SharedIsDue(headers, discovered, languages, Batch(overrides, deleted, calls.value));
    }
    return Ok(Batch(overrides, deleted, calls.value));
  }

  /** A batch too large for one page with a deletion in it: the deletion cannot be staged. */
  predicate Unstageable(files: set<Id>, languages: Languages, changed: set<Id>, affected: set<Id>) {
    |UpdatedPaths(files, languages, changed, affected)| > PAGE_SIZE && DeletedPaths(files, languages, changed) != {}
  }

  lemma UpdatesAreDiscovered(projects: map<Id, string>, discovered: seq<Source>, languages: Languages,
          changed: set<Id>, affected: set<Id>, overrides: map<Id, Group>)
    requires OwnedBy(projects, discovered)
    requires overrides.Keys == UpdatedPaths(projects.Keys, languages, changed, affected)
    requires forall path :: path in overrides ==>
      path in languages && overrides[path] == GroupAt(projects, languages, path)
    ensures Discovered(discovered, languages, overrides, DeletedPaths(projects.Keys, languages, changed))
    ensures forall path :: path in DeletedPaths(projects.Keys, languages, changed) ==>
      path in overrides && Incomplete(Update(path, overrides[path]))
  {}

  lemma AllUpdatedPaths(files: set<Id>, languages: Languages, changed: set<Id>, affected: set<Id>)
    ensures files * changed + DeletedPaths(files, languages, changed) + (affected * files - changed)
         == UpdatedPaths(files, languages, changed, affected)
    ensures files * changed + DeletedPaths(files, languages, changed) !! affected * files - changed
  {}

  method SortedPaths(paths: set<Id>) returns (sorted: seq<Id>)
    ensures Increasing(sorted) && Members(sorted) == paths
  {
    sorted := UniqueSorted(paths);
  }

  /** The changed sources, the deletions, and then the affected sources; nothing if nothing changed. */
  method ExtractBatch(projects: map<Id, string>, languages: Languages, changed: set<Id>, affected: set<Id>,
          supported: set<string>, reliable: bool)
    returns (updates: Result<Option<seq<Update>>, PagingError>, deleted: set<Id>)
    ensures updates.Ok? ==>
      && deleted == DeletedPaths(projects.Keys, languages, changed)
      && (updates.value.None? <==> UpdatedPaths(projects.Keys, languages, changed, {}) == {})
      && (updates.value.Some? ==>
        Covers(updates.value.value, projects, languages, UpdatedPaths(projects.Keys, languages, changed, affected)))
    ensures reliable && projects.Keys <= languages.Keys && AllSupported(languages, supported) ==> updates.Ok?
  {
    AllUpdatedPaths(projects.Keys, languages, changed, affected);
    AllUpdatedPaths(projects.Keys, languages, changed, {});
    hide Increasing, Members, DeletedPaths, UpdatedPaths;
    var changedPaths := SortedPaths(changed);
    var outcome, found;
    outcome, found, deleted := ExtractChanged(changedPaths, projects, languages, supported, reliable);
    if outcome.Fail? {
      return Err(outcome.error), deleted;
    }
    assert found == [] <==> projects.Keys * changed + deleted == {};
    hide Covers;
    if found == [] {
      return Ok(None), deleted;
    }
    var busy: bool := *;
    if busy && !reliable {
      return Err(Unavailable), deleted;
    }
    var affectedPaths := SortedPaths(affected);
    var files := SelectAffected(affectedPaths, changed, projects);
    var extracted := ExtractDiscovered(files, projects, languages, reliable);
    if extracted.Err? {
      return Err(extracted.error), deleted;
    }
    CoversBoth(found, extracted.value, projects, languages, projects.Keys * changed + deleted, Members(files));
    return Ok(Some(found + extracted.value)), deleted;
  }

  /** PublishBatch from the changed paths to the resolvers, given what AffectedSources answers.  On a reliable
      database it is refused exactly when more than one page of sources includes a deletion. */
  method ResolveBatch(headers: Headers, discovered: seq<Source>, languages: Languages, requested: seq<Id>,
          affected: set<Id>, supported: set<string>, reliable: bool)
    returns (result: Result<Option<Batch>, PagingError>)
    requires forall path :: path in headers ==> path > 0
    ensures result.Ok? ==>
      (result.value.None? <==> UpdatedPaths(Paths(discovered), languages, Members(requested), {}) == {})
    ensures result.Ok? && result.value.Some? ==>
      var batch := result.value.value;
      && batch.overrides.Keys == UpdatedPaths(Paths(discovered), languages, Members(requested), affected)
      && batch.deleted == DeletedPaths(Paths(discovered), languages, Members(requested))
      && Discovered(discovered, languages, batch.overrides, batch.deleted)
      && AsDue(headers, GroupsOf(discovered, languages), batch)
    ensures Unstageable(Paths(discovered), languages, Members(requested), affected) ==> result.Err?
    ensures reliable && Indexable(discovered, languages, supported) ==>
      (result.Err? <==> Unstageable(Paths(discovered), languages, Members(requested), affected))
  {
    var projects := IndexByPath(discovered);
    var changed := Members(requested);
    var updates, deleted := ExtractBatch(projects, languages, changed, affected, supported, reliable);
    hide Members, AsDue, AllSupported, GroupsOf;
    if updates.Err? {
      return Err(updates.error);
    }
    if updates.value.None? {
      return Ok(None);
    }
    var overrides := IndexUpdates(updates.value.value, projects, languages,
      UpdatedPaths(projects.Keys, languages, changed, affected));
    UpdatesAreDiscovered(projects, discovered, languages, changed, affected, overrides);
    hide Discovered, UpdatedPaths, DeletedPaths;
    var batch :=
      ResolveUpdates(headers, discovered, languages, updates.value.value, overrides, deleted, supported, reliable);
    if batch.Err? {
      return Err(batch.error);
    }
    return Ok(Some(batch.value));
  }

  // ----- inputs on the other side -----------------------------------------------------------

  const BEFORE := Group("project:a", "go")

  const AFTER := Group("project:b", "go")

  const MOVED_FILES := [Source(1, AFTER.project), Source(2, BEFORE.project)]

  const MOVED_HEADERS: Headers := map[1 := BEFORE, 2 := BEFORE]

  const MOVED_LANGUAGES: Languages := map[1 := "go", 2 := "go"]

  const MOVED_REQUEST: seq<Id> := [1]

  const RESOLVERS := {"go"}

  lemma MovedFiles()
    ensures Paths(MOVED_FILES) == {1, 2} && BEFORE in GroupsOf(MOVED_FILES, MOVED_LANGUAGES)
    ensures forall project :: Source(1, project) in MOVED_FILES ==> project == AFTER.project
    ensures Indexable(MOVED_FILES, MOVED_LANGUAGES, RESOLVERS)
    ensures forall path :: path in MOVED_HEADERS ==> path > 0
  {
    assert MOVED_FILES[0] in MOVED_FILES && MOVED_FILES[1] in MOVED_FILES;
  }

  lemma MovedUpdates()
    ensures DeletedPaths(Paths(MOVED_FILES), MOVED_LANGUAGES, Members(MOVED_REQUEST)) == {}
    ensures UpdatedPaths(Paths(MOVED_FILES), MOVED_LANGUAGES, Members(MOVED_REQUEST), {}) == {1}
    ensures !Unstageable(Paths(MOVED_FILES), MOVED_LANGUAGES, Members(MOVED_REQUEST), {})
  {
    MovedFiles();
    hide Paths, GroupsOf, Indexable;
    assert Members(MOVED_REQUEST) == {1};
  }

  lemma MovedIsDueTwice(batch: Batch)
    requires batch.overrides.Keys == {1} && batch.deleted == {}
    requires Discovered(MOVED_FILES, MOVED_LANGUAGES, batch.overrides, batch.deleted)
    requires AsDue(MOVED_HEADERS, GroupsOf(MOVED_FILES, MOVED_LANGUAGES), batch)
    ensures Times(batch.calls, 1) == 2
  {
    MovedFiles();
    hide GroupsOf, Paths, Indexable, Times;
    assert |batch.overrides.Keys| == 1;
    assert batch.overrides[1].project == AFTER.project;
  }

  /** Two files of project a; then project b takes over the first of them, and its change is published. */
  method MovedSourceTwice() returns (result: Result<Option<Batch>, PagingError>)
    ensures result.Ok? && result.value.Some? && Times(result.value.value.calls, 1) == 2
  {
    hide *;
    MovedFiles();
    MovedUpdates();
    result := ResolveBatch(MOVED_HEADERS, MOVED_FILES, MOVED_LANGUAGES, MOVED_REQUEST, {}, RESOLVERS, true);
    assert {1} != {};
    MovedIsDueTwice(result.value.value);
  }

  function FilesUpTo(n: nat): seq<Source> {
    seq(n, i requires 0 <= i < n => Source(i + 1, BEFORE.project))
  }

  function PathsUpTo(n: nat): seq<Id> {
    seq(n, i requires 0 <= i < n => i + 1)
  }

  function AllGo(paths: set<Id>): Languages {
    map path | path in paths :: BEFORE.language
  }

  lemma UpTo(n: nat)
    ensures Members(PathsUpTo(n)) == Paths(FilesUpTo(n)) == Interval(1, n + 1)
  {
    forall path: Id | path in Interval(1, n + 1)
      ensures path in Members(PathsUpTo(n)) && path in Paths(FilesUpTo(n))
    {
      assert PathsUpTo(n)[path - 1] == path && FilesUpTo(n)[path - 1].path == path;
    }
  }

  lemma LastDeleted(n: nat)
    requires n > 0
    ensures DeletedPaths(Interval(1, n), AllGo(Interval(1, n + 1)), Interval(1, n + 1)) == {n}
    ensures UpdatedPaths(Interval(1, n), AllGo(Interval(1, n + 1)), Interval(1, n + 1), {}) == Interval(1, n + 1)
  {}

  lemma FilesIndexable(n: nat)
    requires n > 0
    ensures Indexable(FilesUpTo(n - 1), AllGo(Interval(1, n + 1)), RESOLVERS)
  {}

  lemma LargeDeletion(n: nat)
    requires n > 0
    ensures Unstageable(Interval(1, n), AllGo(Interval(1, n + 1)), Interval(1, n + 1), {}) <==> n > 128
  {
    LastDeleted(n);
    hide DeletedPaths, UpdatedPaths, Interval, AllGo;
  }

  lemma LastOfFiles(n: nat)
    requires n > 0
    ensures Unstageable(Paths(FilesUpTo(n - 1)), AllGo(Interval(1, n + 1)), Members(PathsUpTo(n)), {}) <==>
      n > 128
  {
    hide *;
    UpTo(n);
    UpTo(n - 1);
    LargeDeletion(n);
  }

  const NO_HEADERS: Headers := map[]

  lemma NothingStored()
    ensures forall path :: path in NO_HEADERS ==> path > 0
  {}

  /** The last of n changed files was deleted: the batch goes through if and only if it is at most one page. */
  method DeleteOneOf(n: nat) returns (result: Result<Option<Batch>, PagingError>)
    requires n > 0
    ensures result.Err? <==> n > 128
  {
    hide *;
    FilesIndexable(n);
    LastOfFiles(n);
    NothingStored();
    result :=
      ResolveBatch(NO_HEADERS, FilesUpTo(n - 1), AllGo(Interval(1, n + 1)), PathsUpTo(n), {}, RESOLVERS, true);
  }
}
