/** The two computations of re-exported surfaces, and inputs on which they differ. */
module ReExportResolver {
  import opened Wrappers
  import opened ReExports

  // ----- one reference ----------------------------------------------------------------------

  /** A surface that comes out of the bindings for one of the given surfaces. */
  ghost predicate Comes(kind: Kind, bindings: seq<Binding>, surfaces: seq<Surface>, exported: Surface) {
    exists binding, surface ::
      binding in bindings && surface in surfaces && Matches(kind, binding, surface)
      && exported == Exported(binding, surface)
  }

  /** matchingBindingSurfaces, under the name the binding exports. */
  method MatchBinding(kind: Kind, binding: Binding, surfaces: seq<Surface>) returns (exported: seq<Surface>)
    ensures forall e ::
      e in exported <==>
      exists surface :: surface in surfaces && Matches(kind, binding, surface) && e == Exported(binding, surface)
  {
    exported := [];
    for i := 0 to |surfaces|
      invariant forall e ::
        e in exported <==>
        exists surface :: surface in surfaces[..i] && Matches(kind, binding, surface) && e == Exported(binding, surface)
    {
      assert surfaces[..i + 1] == surfaces[..i] + [surfaces[i]];
      if Matches(kind, binding, surfaces[i]) {
        exported := exported + [Exported(binding, surfaces[i])];
      }
    }
    assert surfaces[..|surfaces|] == surfaces;
  }

  method MatchBindings(kind: Kind, bindings: seq<Binding>, surfaces: seq<Surface>) returns (exported: seq<Surface>)
    ensures forall e :: e in exported <==> Comes(kind, bindings, surfaces, e)
    ensures forall e :: e in exported <==>
      exists binding, surface ::
        && binding in bindings && surface in surfaces
        && (binding.imported == "*" || surface.name == binding.imported)
        && !(kind == ReExport && binding.imported == "*" && binding.exported == "*" && surface.name == "default")
        && e == Surface(surface.node,
          if binding.exported == "" || binding.exported == "*" then surface.name else binding.exported)
  {
    exported := [];
    for i := 0 to |bindings|
      invariant forall e :: e in exported <==> Comes(kind, bindings[..i], surfaces, e)
    {
      assert bindings[..i + 1] == bindings[..i] + [bindings[i]];
      var more := MatchBinding(kind, bindings[i], surfaces);
      exported := exported + more;
    }
    assert bindings[..|bindings|] == bindings;
  }

  // ----- the search -------------------------------------------------------------------------

  /** A surface that one of the references passes on from a file outside the visited ones. */
  ghost predicate PassedBy(project: Project, visited: set<Path>, references: seq<Reference>, exported: Surface) {
    exists reference, target, from ::
      reference in references && LinksTo(project, reference, target) && Simple(project, visited, target, from)
      && ComesFrom(reference, from, exported)
  }

  ghost predicate ComesFrom(reference: Reference, from: Surface, exported: Surface) {
    exists binding ::
      binding in reference.bindings && Matches(ReExport, binding, from) && exported == Exported(binding, from)
  }

  lemma PassedByAll(project: Project, visited: set<Path>, file: Path, exported: Surface)
    requires file in project && file !in visited
    ensures Simple(project, visited, file, exported) <==>
      exported in project[file].own || PassedBy(project, visited + {file}, project[file].references, exported)
  {
    if PassedBy(project, visited + {file}, project[file].references, exported) {
      var reference, target, from :| reference in project[file].references && LinksTo(project, reference, target)
        && Simple(project, visited + {file}, target, from) && ComesFrom(reference, from, exported);
      var binding :| binding in reference.bindings && Matches(ReExport, binding, from)
        && exported == Exported(binding, from);
      assert Link(project, file, target, binding);
      assert Passes(project, file, target, from, exported);
    }
    if Simple(project, visited, file, exported) && exported !in project[file].own {
      var target, from :| Passes(project, file, target, from, exported)
        && Simple(project, visited + {file}, target, from);
      var binding :| Link(project, file, target, binding) && Matches(ReExport, binding, from)
        && exported == Exported(binding, from);
      var reference :| reference in project[file].references && LinksTo(project, reference, target)
        && binding in reference.bindings;
      assert ComesFrom(reference, from, exported);
    }
  }

  lemma PassedByOneMore(project: Project, visited: set<Path>, references: seq<Reference>, reference: Reference,
          exported: Surface)
    ensures PassedBy(project, visited, references + [reference], exported) <==>
      PassedBy(project, visited, references, exported) || PassedBy(project, visited, [reference], exported)
  {
    hide Simple, LinksTo, ComesFrom;
    if PassedBy(project, visited, references + [reference], exported) {
      var one, target, from :| one in references + [reference] && LinksTo(project, one, target)
        && Simple(project, visited, target, from) && ComesFrom(one, from, exported);
    }
  }

  lemma PassedByNone(project: Project, visited: set<Path>, reference: Reference, exported: Surface)
    requires reference.kind != ReExport || Target(project, reference).None?
    ensures !PassedBy(project, visited, [reference], exported)
  {}

  lemma PassedByThis(project: Project, visited: set<Path>, reference: Reference, target: Path, surfaces: seq<Surface>,
          exported: Surface)
    requires LinksTo(project, reference, target)
    requires forall s :: s in surfaces <==> Simple(project, visited, target, s)
    ensures PassedBy(project, visited, [reference], exported) <==>
      Comes(ReExport, reference.bindings, surfaces, exported)
  {
    hide Simple;
    if PassedBy(project, visited, [reference], exported) {
      var one, other, from :| one in [reference] && LinksTo(project, one, other)
        && Simple(project, visited, other, from) && ComesFrom(one, from, exported);
      assert other == target && from in surfaces;
    }
    if Comes(ReExport, reference.bindings, surfaces, exported) {
      var binding, from :| binding in reference.bindings && from in surfaces && Matches(ReExport, binding, from)
        && exported == Exported(binding, from);
      assert ComesFrom(reference, from, exported);
    }
  }

  class PageSearch {
    const project: Project
    /** The files on the way from the first one; each call removes its own file again. */
    var visited: set<Path>

    constructor (project: Project)
      ensures this.project == project && visited == {}
    {
      this.project := project;
      visited := {};
    }

    /** resolverPageExportedSurfaces */
    method ExportedSurfaces(file: Path) returns (surfaces: seq<Surface>)
      requires file in project && visited <= project.Keys
      modifies this
      ensures visited == old(visited)
      ensures forall s :: s in surfaces <==> Simple(project, visited, file, s)
      decreases |project.Keys - visited|
    {
      if file in visited {
        return [];
      }
      ghost var before := visited;
      visited := visited + {file};
      assert project.Keys - before == (project.Keys - visited) + {file};
      surfaces := project[file].own;
      var references := project[file].references;
      for i := 0 to |references|
        invariant visited == before + {file}
        invariant forall s ::
          s in surfaces <==> s in project[file].own || PassedBy(project, visited, references[..i], s)
      {
        hide Simple, PassedBy, Comes, Target, Matches, Exported;
        var reference := references[i];
        assert references[..i + 1] == references[..i] + [reference];
        forall s {
          PassedByOneMore(project, visited, references[..i], reference, s);
        }
        if reference.kind != ReExport || reference.base.None? {
          forall s {
            PassedByNone(project, visited, reference, s);
          }
          continue;
        }
        var target := ResolvePath(project, reference.base.value);
        if target.None? {
          forall s {
            PassedByNone(project, visited, reference, s);
          }
          continue;
        }
        TargetFound(project, reference, target.value);
        var reexported := ExportedSurfaces(target.value);
        forall s {
          PassedByThis(project, visited, reference, target.value, reexported, s);
        }
        var exported := MatchBindings(ReExport, reference.bindings, reexported);
        surfaces := surfaces + exported;
      }
      assert references[..|references|] == references;
      forall s {
        PassedByAll(project, before, file, s);
      }
      visited := visited - {file};
    }
  }

  lemma TargetFound(project: Project, reference: Reference, target: Path)
    requires reference.kind == ReExport && reference.base.Some?
    requires FirstFound(project, Candidates(reference.base.value)) == Some(target)
    ensures LinksTo(project, reference, target) && target in project
  {}

  // ----- the rounds -------------------------------------------------------------------------

  type Table = map<Path, seq<Surface>>

  predicate Has(table: Table, path: Path, surface: Surface) {
    path in table && surface in table[path]
  }

  ghost predicate Grown(before: Table, after: Table) {
    forall path, surface :: Has(before, path, surface) ==> Has(after, path, surface)
  }

  ghost predicate AllDerivable(project: Project, table: Table) {
    forall path, surface :: Has(table, path, surface) ==> Derivable(project, path, surface)
  }

  /** Everything the file can take over from the surfaces of before is in after. */
  ghost predicate Taken(project: Project, before: Table, after: Table, path: Path) {
    forall target, from, exported ::
      Passes(project, path, target, from, exported) && Has(before, target, from) ==> Has(after, path, exported)
  }

  ghost predicate HoldsRounds(project: Project, table: Table, n: nat) {
    forall path, surface :: Derives(project, n, path, surface) ==> Has(table, path, surface)
  }

  lemma PassedIsDerivable(project: Project, path: Path, target: Path, from: Surface, exported: Surface)
    requires Passes(project, path, target, from, exported) && Derivable(project, target, from)
    ensures Derivable(project, path, exported)
  {
    var n: nat :| Derives(project, n, target, from);
    assert Derives(project, n + 1, path, exported);
  }

  lemma OneMoreRound(project: Project, before: Table, after: Table, n: nat)
    requires HoldsRounds(project, before, n) && Grown(before, after)
    requires forall path :: path in project ==> Taken(project, before, after, path)
    ensures HoldsRounds(project, after, n + 1)
  {
    forall path, surface | Derives(project, n + 1, path, surface)
      ensures Has(after, path, surface)
    {
      if surface in project[path].own {
        assert Derives(project, n, path, surface);
      } else {
        var target, from :| Passes(project, path, target, from, surface) && Derives(project, n, target, from);
        assert Has(before, target, from);
      }
    }
  }

  /** A round that changes nothing was the last one needed. */
  lemma {:induction false} NothingMore(project: Project, table: Table, n: nat, more: nat)
    requires HoldsRounds(project, table, n) && n <= more
    requires forall path :: path in project ==> Taken(project, table, table, path)
    ensures HoldsRounds(project, table, more)
    decreases more - n
  {
    if n < more {
      OneMoreRound(project, table, table, n);
      NothingMore(project, table, n + 1, more);
    }
  }

  lemma GrownTwice(a: Table, b: Table, c: Table)
    requires Grown(a, b) && Grown(b, c)
    ensures Grown(a, c)
  {}

  lemma TakenLater(project: Project, a: Table, b: Table, c: Table, path: Path)
    requires Taken(project, a, b, path) && Grown(b, c)
    ensures Taken(project, a, c, path)
  {
    hide Passes;
  }

  lemma TakenEarlier(project: Project, a: Table, b: Table, c: Table, path: Path)
    requires Taken(project, b, c, path) && Grown(a, b)
    ensures Taken(project, a, c, path)
  {
    hide Passes;
  }

  class SurfaceTable {
    var surfaces: Table
    /** For every file the surfaces it already has, by name and node. */
    var seen: map<Path, set<Surface>>

    ghost predicate Valid()
      reads this
    {
      seen.Keys == surfaces.Keys && forall path :: path in seen ==> seen[path] == set s | s in surfaces[path]
    }

    constructor ()
      ensures Valid() && surfaces == map[]
    {
      surfaces, seen := map[], map[];
    }

    /** addSurface */
    method Add(path: Path, surface: Surface) returns (added: bool)
      requires Valid()
      modifies this
      ensures Valid() && added == !Has(old(surfaces), path, surface)
      ensures !added ==> surfaces == old(surfaces)
      ensures added ==>
        surfaces == old(surfaces)[path := (if path in old(surfaces) then old(surfaces)[path] else []) + [surface]]
    {
      if path in seen && surface in seen[path] {
        return false;
      }
      seen := seen[path := (if path in seen then seen[path] else {}) + {surface}];
      surfaces := surfaces[path := (if path in surfaces then surfaces[path] else []) + [surface]];
      return true;
    }

    method AddAll(path: Path, more: seq<Surface>) returns (changed: bool)
      requires Valid()
      modifies this
      ensures Valid()
      ensures forall p, s :: Has(surfaces, p, s) <==> Has(old(surfaces), p, s) || (p == path && s in more)
      ensures !changed ==> surfaces == old(surfaces)
    {
      changed := false;
      for i := 0 to |more|
        invariant Valid()
        invariant forall p, s :: Has(surfaces, p, s) <==> Has(old(surfaces), p, s) || (p == path && s in more[..i])
        invariant !changed ==> surfaces == old(surfaces)
      {
        assert more[..i + 1] == more[..i] + [more[i]];
        var added := Add(path, more[i]);
        changed := changed || added;
      }
      assert more[..|more|] == more;
    }

    /** The bindings of one re-export, each matched against what its target has by then. */
    method TakeOver(project: Project, path: Path, reference: Reference, target: Path) returns (changed: bool)
      requires Valid() && AllDerivable(project, surfaces)
      requires path in project && reference in project[path].references && LinksTo(project, reference, target)
      modifies this
      ensures Valid() && AllDerivable(project, surfaces) && Grown(old(surfaces), surfaces)
      ensures forall from, exported ::
        Has(old(surfaces), target, from) && ComesFrom(reference, from, exported) ==> Has(surfaces, path, exported)
      ensures !changed ==> surfaces == old(surfaces)
    {
      changed := false;
      ghost var before := surfaces;
      for i := 0 to |reference.bindings|
        invariant Valid() && AllDerivable(project, surfaces) && Grown(before, surfaces)
        invariant forall j, from ::
          0 <= j < i && Has(before, target, from) && Matches(ReExport, reference.bindings[j], from) ==>
          Has(surfaces, path, Exported(reference.bindings[j], from))
        invariant !changed ==> surfaces == before
      {
        hide AllDerivable;
        var binding := reference.bindings[i];
        ghost var current := surfaces;
        var exported := MatchBinding(ReExport, binding, if target in surfaces then surfaces[target] else []);
        var added := AddAll(path, exported);
        StillDerivable(project, current, surfaces, path, reference, target, binding, exported);
        changed := changed || added;
      }
    }

    method ResolveFile(project: Project, path: Path) returns (changed: bool)
      requires Valid() && AllDerivable(project, surfaces) && path in project
      modifies this
      ensures Valid() && AllDerivable(project, surfaces) && Grown(old(surfaces), surfaces)
      ensures Taken(project, old(surfaces), surfaces, path)
      ensures !changed ==> surfaces == old(surfaces)
    {
      changed := false;
      ghost var before := surfaces;
      var references := project[path].references;
      for i := 0 to |references|
        invariant Valid() && AllDerivable(project, surfaces) && Grown(before, surfaces)
        invariant TakenBy(project, before, surfaces, path, references[..i])
        invariant !changed ==> surfaces == before
      {
        hide AllDerivable, Target, TakenBy, ComesFrom, Grown;
        assert references[..i + 1] == references[..i] + [references[i]];
        ghost var current := surfaces;
        var reference := references[i];
        if reference.kind != ReExport || reference.base.None? {
          TakesNothing(project, before, surfaces, path, references[..i], reference);
          continue;
        }
        var target := ResolvePath(project, reference.base.value);
        if target.None? {
          TakesNothing(project, before, surfaces, path, references[..i], reference);
          continue;
        }
        TargetFound(project, reference, target.value);
        var more := TakeOver(project, path, reference, target.value);
        TakesOver(project, before, current, surfaces, path, references[..i], reference, target.value);
        GrownTwice(before, current, surfaces);
        changed := changed || more;
      }
      assert references[..|references|] == references;
      TakenByAll(project, before, surfaces, path);
    }

    /** One round over all files. */
    method Round(project: Project, paths: seq<Path>) returns (changed: bool)
      requires Valid() && AllDerivable(project, surfaces)
      requires forall path :: path in paths ==> path in project
      modifies this
      ensures Valid() && AllDerivable(project, surfaces) && Grown(old(surfaces), surfaces)
      ensures forall path :: path in paths ==> Taken(project, old(surfaces), surfaces, path)
      ensures !changed ==> surfaces == old(surfaces)
    {
      changed := false;
      ghost var before := surfaces;
      for i := 0 to |paths|
        invariant Valid() && AllDerivable(project, surfaces) && Grown(before, surfaces)
        invariant forall path :: path in paths[..i] ==> Taken(project, before, surfaces, path)
        invariant !changed ==> surfaces == before
      {
        hide AllDerivable, Taken, Grown;
        assert paths[..i + 1] == paths[..i] + [paths[i]];
        ghost var current := surfaces;
        var more := ResolveFile(project, paths[i]);
        forall path | path in paths[..i + 1]
          ensures Taken(project, before, surfaces, path)
        {
          if path in paths[..i] {
            TakenLater(project, before, current, surfaces, path);
          } else {
            TakenEarlier(project, before, current, surfaces, path);
          }
        }
        GrownTwice(before, current, surfaces);
        changed := changed || more;
      }
      assert paths[..|paths|] == paths;
    }
  }

  lemma StillDerivable(project: Project, before: Table, after: Table, path: Path, reference: Reference, target: Path,
          binding: Binding, exported: seq<Surface>)
    requires AllDerivable(project, before) && path in project && reference in project[path].references
    requires LinksTo(project, reference, target) && binding in reference.bindings
    requires forall p, s :: Has(after, p, s) ==> Has(before, p, s) || (p == path && s in exported)
    requires forall s ::
      s in exported ==>
      exists from :: Has(before, target, from) && Matches(ReExport, binding, from) && s == Exported(binding, from)
    ensures AllDerivable(project, after)
  {
    forall p, s | Has(after, p, s)
      ensures Derivable(project, p, s)
    {
      if !Has(before, p, s) {
        var from :| Has(before, target, from) && Matches(ReExport, binding, from) && s == Exported(binding, from);
        assert Link(project, path, target, binding);
        assert Passes(project, path, target, from, s);
        PassedIsDerivable(project, path, target, from, s);
      }
    }
  }

  /** The references took over what their targets had before. */
  ghost predicate TakenBy(project: Project, before: Table, after: Table, path: Path, references: seq<Reference>) {
    forall reference, target, from, exported ::
      reference in references && LinksTo(project, reference, target) && Has(before, target, from)
        && ComesFrom(reference, from, exported) ==>
        Has(after, path, exported)
  }

  lemma TakesNothing(project: Project, before: Table, after: Table, path: Path, references: seq<Reference>,
          reference: Reference)
    requires TakenBy(project, before, after, path, references)
    requires reference.kind != ReExport || Target(project, reference).None?
    ensures TakenBy(project, before, after, path, references + [reference])
  {
    hide Target, ComesFrom;
  }

  lemma TakesOver(project: Project, before: Table, current: Table, after: Table, path: Path, references: seq<Reference>,
          reference: Reference, target: Path)
    requires TakenBy(project, before, current, path, references) && Grown(before, current) && Grown(current, after)
    requires LinksTo(project, reference, target)
    requires forall from, exported ::
      Has(current, target, from) && ComesFrom(reference, from, exported) ==> Has(after, path, exported)
    ensures TakenBy(project, before, after, path, references + [reference])
  {
    hide Target, ComesFrom;
  }

  lemma TakenByAll(project: Project, before: Table, after: Table, path: Path)
    requires path in project && TakenBy(project, before, after, path, project[path].references)
    ensures Taken(project, before, after, path)
  {
    forall target, from, exported | Passes(project, path, target, from, exported) && Has(before, target, from)
      ensures Has(after, path, exported)
    {
      var binding :| Link(project, path, target, binding) && Matches(ReExport, binding, from)
        && exported == Exported(binding, from);
      var reference :| reference in project[path].references && LinksTo(project, reference, target)
        && binding in reference.bindings;
      assert ComesFrom(reference, from, exported);
    }
  }

  /** resolvedSurfaces: at most as many rounds as there are files. */
  method ResolvedSurfaces(project: Project, paths: seq<Path>) returns (table: Table)
    requires forall path :: path in paths <==> path in project
    requires |paths| == |project.Keys|
    ensures AllDerivable(project, table) && HoldsRounds(project, table, |project.Keys|)
  {
    var surfaces := new SurfaceTable();
    for i := 0 to |paths|
      invariant surfaces.Valid() && AllDerivable(project, surfaces.surfaces)
      invariant forall path, surface ::
        path in paths[..i] && surface in project[path].own ==> Has(surfaces.surfaces, path, surface)
    {
      assert paths[..i + 1] == paths[..i] + [paths[i]];
      forall surface | surface in project[paths[i]].own
        ensures Derivable(project, paths[i], surface)
      {
        assert Derives(project, 0, paths[i], surface);
      }
      hide Derivable;
      var added := surfaces.AddAll(paths[i], project[paths[i]].own);
    }
    assert HoldsRounds(project, surfaces.surfaces, 0);
    for round := 0 to |paths|
      invariant surfaces.Valid() && AllDerivable(project, surfaces.surfaces)
      invariant HoldsRounds(project, surfaces.surfaces, round)
    {
      hide AllDerivable, HoldsRounds, Taken;
      ghost var before := surfaces.surfaces;
      var changed := surfaces.Round(project, paths);
      OneMoreRound(project, before, surfaces.surfaces, round);
      if !changed {
        NothingMore(project, before, round, |paths|);
        break;
      }
    }
    return surfaces.surfaces;
  }

  // ----- where the two agree, and where they do not -----------------------------------------

  /** The search never finds more than the rounds. */
  lemma SearchWithinRounds(project: Project, table: Table, file: Path, surface: Surface)
    requires HoldsRounds(project, table, |project.Keys|) && Simple(project, {}, file, surface)
    ensures Has(table, file, surface)
  {
    SimpleIsDerived(project, {}, file, surface);
    assert project.Keys - {} == project.Keys;
  }

  /** Without renaming on a cycle the search and the rounds give every file the same surfaces. */
  lemma SearchEqualsRounds(project: Project, table: Table, file: Path, surface: Surface)
    requires NoRenameOnCycle(project)
    requires AllDerivable(project, table) && HoldsRounds(project, table, |project.Keys|)
    ensures Has(table, file, surface) <==> Simple(project, {}, file, surface)
  {
    SearchFindsAll(project, file, surface);
  }

  /** A file that re-exports itself under another name: the rounds see the new name, the search does not. */
  lemma SelfRenameDiffers(table: Table, path: Path, node: string)
    requires var project :=
      map[path := Module([Surface(node, "a")], [Reference(ReExport, Some(path), [Binding("a", "b")])])];
      HoldsRounds(project, table, 1)
    ensures var project :=
      map[path := Module([Surface(node, "a")], [Reference(ReExport, Some(path), [Binding("a", "b")])])];
      && !NoRenameOnCycle(project)
      && Has(table, path, Surface(node, "b")) && !Simple(project, {}, path, Surface(node, "b"))
  {
    var reference := Reference(ReExport, Some(path), [Binding("a", "b")]);
    var project: Project := map[path := Module([Surface(node, "a")], [reference])];
    SelfLink(project, path, reference, Binding("a", "b"));
    assert Passes(project, path, path, Surface(node, "a"), Surface(node, "b"));
    assert Derives(project, 0, path, Surface(node, "a"));
    assert Derives(project, 1, path, Surface(node, "b"));
  }

  lemma SelfLink(project: Project, path: Path, reference: Reference, binding: Binding)
    requires path in project && reference in project[path].references && reference.kind == ReExport
    requires reference.base == Some(path) && binding in reference.bindings
    ensures Link(project, path, path, binding) && Connected(project, path, path)
  {
    assert Candidates(path)[0] == path;
    assert IsTour(project, [path], path, path);
  }
}
