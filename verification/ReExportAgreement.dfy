/** Exactly when the recursive search and the rounds compute the same surfaces. */
module ReExportAgreement {
  import opened ReExports
  import opened ReExportResolver
  import opened Sequences

  /** Re-exports in a row: each file gets its surface from the next one. */
  ghost predicate Passed(project: Project, files: seq<Path>, surfaces: seq<Surface>) {
    && |files| == |surfaces| > 0
    && (forall i :: 0 <= i < |files| ==> files[i] in project)
    && forall i :: 0 <= i < |files| - 1 ==> Passes(project, files[i], files[i + 1], surfaces[i + 1], surfaces[i])
  }

  /** Re-exports that lead from a file through different others back to it. */
  ghost predicate Circuit(project: Project, files: seq<Path>, surfaces: seq<Surface>) {
    && Passed(project, files, surfaces) && |files| > 1
    && files[0] == files[|files| - 1] && Distinct(files[1..])
  }

  /** What a circuit makes of a surface the search finds at its file, the search finds there as well. */
  ghost predicate ClosedUnderCircuits(project: Project) {
    forall files, surfaces ::
      Circuit(project, files, surfaces) && Simple(project, {}, files[0], surfaces[|files| - 1]) ==>
      Simple(project, {}, files[0], surfaces[0])
  }

  // ----- simple chains ----------------------------------------------------------------------

  lemma {:induction false} SimpleChain(project: Project, visited: set<Path>, file: Path, surface: Surface)
    returns (files: seq<Path>, surfaces: seq<Surface>)
    requires Simple(project, visited, file, surface)
    ensures Chain(project, files, surfaces) && Distinct(files) && files[0] == file && surfaces[0] == surface
    ensures forall i :: 0 <= i < |files| ==> files[i] !in visited
    decreases project.Keys - visited
  {
    hide Passes;
    if surface in project[file].own {
      files, surfaces := [file], [surface];
    } else {
      var target, from :| Passes(project, file, target, from, surface)
        && Simple(project, visited + {file}, target, from);
      files, surfaces := SimpleChain(project, visited + {file}, target, from);
      files, surfaces := [file] + files, [surface] + surfaces;
    }
  }

  lemma {:induction false} DistinctFits(files: seq<Path>, all: set<Path>)
    requires Distinct(files) && forall i :: 0 <= i < |files| ==> files[i] in all
    ensures |files| <= |all|
  {
    if files != [] {
      var before, last := files[..|files| - 1], files[|files| - 1];
      DistinctFits(before, all - {last});
    }
  }

  lemma {:induction false} ChainDerives(project: Project, files: seq<Path>, surfaces: seq<Surface>)
    requires Chain(project, files, surfaces)
    ensures Derives(project, |files| - 1, files[0], surfaces[0])
    decreases |files|
  {
    hide Passes;
    if |files| > 1 {
      assert Passes(project, files[0], files[1], surfaces[1], surfaces[0]);
      ChainDerives(project, files[1..], surfaces[1..]);
    }
  }

  /** One more re-export of a simple surface fits the rounds there are. */
  lemma SimplePassesInTime(project: Project, file: Path, target: Path, from: Surface, surface: Surface)
    requires file in project && Passes(project, file, target, from, surface) && Simple(project, {}, target, from)
    ensures Derives(project, |project.Keys|, file, surface)
  {
    hide Passes;
    var files, surfaces := SimpleChain(project, {}, target, from);
    ChainDerives(project, files, surfaces);
    DistinctFits(files, project.Keys);
    DerivesMore(project, |files| - 1, |project.Keys| - 1, target, from);
  }

  // ----- closed projects --------------------------------------------------------------------

  lemma PrependChain(project: Project, file: Path, files: seq<Path>, surface: Surface, surfaces: seq<Surface>)
    requires file in project && Chain(project, files, surfaces) && Distinct(files) && file !in files
    requires Passes(project, file, files[0], surfaces[0], surface)
    ensures Simple(project, {}, file, surface)
  {
    hide Passes, Simple;
    var longer, passed := [file] + files, [surface] + surfaces;
    assert Chain(project, longer, passed) && Distinct(longer);
    DistinctIsSimple(project, {}, longer, passed);
  }

  /** A chain that comes past the file is a circuit so far and a simple chain from there. */
  lemma TurnBack(project: Project, file: Path, files: seq<Path>, surface: Surface, surfaces: seq<Surface>, j: nat)
    requires Chain(project, files, surfaces) && Distinct(files) && j < |files| && files[j] == file
    requires Passes(project, file, files[0], surfaces[0], surface)
    ensures Simple(project, {}, file, surfaces[j])
    ensures Circuit(project, [file] + files[..j + 1], [surface] + surfaces[..j + 1])
  {
    hide Passes, Simple;
    assert Chain(project, files[j..], surfaces[j..]) && Distinct(files[j..]);
    DistinctIsSimple(project, {}, files[j..], surfaces[j..]);
    assert ([file] + files[..j + 1])[1..] == files[..j + 1];
  }

  lemma PassClosed(project: Project, file: Path, target: Path, from: Surface, surface: Surface)
    requires ClosedUnderCircuits(project) && file in project
    requires Passes(project, file, target, from, surface) && Simple(project, {}, target, from)
    ensures Simple(project, {}, file, surface)
  {
    var files, surfaces := SimpleChain(project, {}, target, from);
    hide Passes, ClosedUnderCircuits, Chain, Circuit, Distinct, Simple;
    if j :| 0 <= j < |files| && files[j] == file {
      TurnBack(project, file, files, surface, surfaces, j);
      CircuitCloses(project, [file] + files[..j + 1], [surface] + surfaces[..j + 1]);
    } else {
      PrependChain(project, file, files, surface, surfaces);
    }
  }

  lemma CircuitCloses(project: Project, files: seq<Path>, surfaces: seq<Surface>)
    requires ClosedUnderCircuits(project) && Circuit(project, files, surfaces)
    requires Simple(project, {}, files[0], surfaces[|files| - 1])
    ensures Simple(project, {}, files[0], surfaces[0])
  {}

  lemma {:induction false} ClosedFindsAll(project: Project, n: nat, file: Path, surface: Surface)
    requires ClosedUnderCircuits(project) && Derives(project, n, file, surface)
    ensures Simple(project, {}, file, surface)
  {
    hide Passes, ClosedUnderCircuits;
    if surface !in project[file].own {
      var target, from :| Passes(project, file, target, from, surface) && Derives(project, n - 1, target, from);
      ClosedFindsAll(project, n - 1, target, from);
      PassClosed(project, file, target, from, surface);
    }
  }

  // ----- agreement --------------------------------------------------------------------------

  ghost predicate Agree(project: Project, table: Table) {
    forall file, surface :: Has(table, file, surface) <==> Simple(project, {}, file, surface)
  }

  lemma {:induction false} SimpleAlong(project: Project, table: Table, files: seq<Path>, surfaces: seq<Surface>)
    requires HoldsRounds(project, table, |project.Keys|) && Agree(project, table)
    requires Passed(project, files, surfaces) && Simple(project, {}, files[|files| - 1], surfaces[|files| - 1])
    ensures Simple(project, {}, files[0], surfaces[0])
    decreases |files|
  {
    hide Passes, Simple;
    if |files| > 1 {
      assert Passes(project, files[0], files[1], surfaces[1], surfaces[0]);
      SimpleAlong(project, table, files[1..], surfaces[1..]);
      SimplePassesInTime(project, files[0], files[1], surfaces[1], surfaces[0]);
      assert Has(table, files[0], surfaces[0]);
    }
  }

  /** On any project: the search finds for every file what the rounds hold if and only if circuits of
      re-exports lead to nothing the search does not find. */
  lemma SearchEqualsRoundsExactly(project: Project, table: Table)
    requires AllDerivable(project, table) && HoldsRounds(project, table, |project.Keys|)
    ensures Agree(project, table) <==> ClosedUnderCircuits(project)
  {
    if ClosedUnderCircuits(project) {
      forall file, surface
        ensures Has(table, file, surface) <==> Simple(project, {}, file, surface)
      {
        if Has(table, file, surface) {
          var n: nat :| Derives(project, n, file, surface);
          ClosedFindsAll(project, n, file, surface);
        }
        hide ClosedUnderCircuits;
        if Simple(project, {}, file, surface) {
          SearchWithinRounds(project, table, file, surface);
        }
      }
    }
    if Agree(project, table) {
      forall files, surfaces | Circuit(project, files, surfaces) && Simple(project, {}, files[0], surfaces[|files| - 1])
        ensures Simple(project, {}, files[0], surfaces[0])
      {
        SimpleAlong(project, table, files, surfaces);
      }
    }
  }
}
