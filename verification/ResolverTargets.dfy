/** What a resolver reads about one source: its header row and seven tables, but not its
    dependencies. */
module ResolverTargets {
  import opened Wrappers
  import opened ContributionTables

  /** The tables ResolverTarget reads besides the contribution's header row. */
  const TARGET_TABLES: set<Table> :=
    {Extensions, Nodes, UnresolvedReferences, ModuleBindings, SymbolReferences, ExportedSurfaces, Diagnostics}

  datatype TargetRequest = TargetRequest(projectId: string, language: string, path: Path) {
    predicate Incomplete() {
      projectId == "" || language == "" || path == ""
    }
  }

  datatype Target = Target(headers: set<Payload>, facts: map<Table, set<Payload>>)

  function Matching(headers: set<Payload>, request: TargetRequest): set<Payload> {
    set header | header in headers && header.Header?
      && header.projectId == request.projectId && header.extractorName == request.language
  }

  function TargetFacts(record: Record): map<Table, set<Payload>> {
    map t: Table | t in TARGET_TABLES :: record[t]
  }

  function TargetOf(record: Record, request: TargetRequest): Option<Target> {
    var headers := Matching(record[FileContributions], request);
    if headers == {} then None else Some(Target(headers, TargetFacts(record)))
  }

  /** What a snapshot answers to the request; the header row is the join partner of every fact. */
  function TargetIn(contents: map<Path, Record>, request: TargetRequest): Option<Target> {
    if request.path in contents then TargetOf(contents[request.path], request) else None
  }

  /** The header is one of the record and names the project and the language asked for. */
  predicate Asked(record: Record, request: TargetRequest, header: Payload) {
    && header in record[FileContributions] && header.Header?
    && header.projectId == request.projectId && header.extractorName == request.language
  }

  /** There is an answer exactly for a path whose header names the project and the language; it carries that
      header and the path's extensions, nodes, references with their bindings, surfaces and diagnostics. */
  ghost predicate Answers(contents: map<Path, Record>, request: TargetRequest, answer: Option<Target>) {
    && (answer.Some? <==> request.path in contents && exists header :: Asked(contents[request.path], request, header))
    && (answer.Some? ==>
      var record, facts := contents[request.path], answer.value.facts;
      && (forall header :: header in answer.value.headers <==> Asked(record, request, header))
      && facts.Keys
        == {Extensions, Nodes, UnresolvedReferences, ModuleBindings, SymbolReferences, ExportedSurfaces, Diagnostics}
      && facts[Extensions] == record[Extensions] && facts[Nodes] == record[Nodes]
      && facts[UnresolvedReferences] == record[UnresolvedReferences] && facts[ModuleBindings] == record[ModuleBindings]
      && facts[SymbolReferences] == record[SymbolReferences]
      && facts[ExportedSurfaces] == record[ExportedSurfaces] && facts[Diagnostics] == record[Diagnostics])
  }

  lemma TargetAnswers(contents: map<Path, Record>, request: TargetRequest)
    ensures Answers(contents, request, TargetIn(contents, request))
  {
    if request.path in contents {
      var record := contents[request.path];
      var headers := Matching(record[FileContributions], request);
      assert forall header :: header in headers <==> Asked(record, request, header);
      if headers == {} {
        assert forall header :: Asked(record, request, header) ==> header in headers;
      } else {
        var header :| header in headers;
        assert Asked(record, request, header);
        assert TargetFacts(record).Keys == TARGET_TABLES;
      }
    }
  }

  /** A path with one header is answered exactly if that header names the project and the language. */
  lemma AnswerOfHeader(contents: map<Path, Record>, request: TargetRequest, answer: Option<Target>, projectId: string,
          language: string, extractorVersion: string)
    requires Answers(contents, request, answer) && request.path in contents
    requires contents[request.path][FileContributions] == {Header(projectId, language, extractorVersion)}
    ensures answer.Some? <==> projectId == request.projectId && language == request.language
    ensures answer.Some? ==> answer.value.headers == {Header(projectId, language, extractorVersion)}
  {
    var header := Header(projectId, language, extractorVersion);
    assert forall other :: Asked(contents[request.path], request, other) ==> other == header;
    assert Asked(contents[request.path], request, header) <==>
      projectId == request.projectId && language == request.language;
  }

  /** A version of the store holds one header per path. */
  lemma OneHeaderPerPath(tables: Tables, path: Path, v: Version)
    requires LockStep(tables) && path in Snapshot(tables, v)
    ensures exists header: Payload :: header.Header? && Snapshot(tables, v)[path][FileContributions] == {header}
  {
    var row :| row in tables[FileContributions] && row.path == path && row.VisibleAt(v);
    assert HasSpan(tables[CatalogCoverage], row) && row.payload.Header?;
    forall other | other in tables[FileContributions] && other.path == path && other.VisibleAt(v)
      ensures other == row
    {
      assert HasSpan(tables[CatalogCoverage], other) && Apart(row, other) && other.payload.Header?;
      assert row.SameKey(other);
    }
    assert Payloads(tables[FileContributions], path, v) == {row.payload};
  }

  /** The queries of ResolverTarget on the rows of one version. */
  method ReadTarget(tables: Tables, version: Version, request: TargetRequest) returns (target: Option<Target>)
    ensures target == TargetIn(Snapshot(tables, version), request)
    ensures Answers(Snapshot(tables, version), request, target)
  {
    TargetAnswers(Snapshot(tables, version), request);
    if request.path !in PathsAt(tables, version) {
      return None;
    }
    var record := RecordAt(tables, request.path, version);
    var headers := Matching(record[FileContributions], request);
    if headers == {} {
      return None;
    }
    return Some(Target(headers, TargetFacts(record)));
  }
}
