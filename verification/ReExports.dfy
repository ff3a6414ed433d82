/** Re-exported surfaces of JavaScript modules, computed by a search with a path-local visited set and by
    rounds over all files.  The idea is GetExportedNames, section 16.2.1.6.2 of ECMA-262. */
module ReExports {
  import opened Sequences
  import opened Wrappers

  type Path = string

  datatype Surface = Surface(node: string, name: string)

  datatype Binding = Binding(imported: string, exported: string)

  datatype Kind = Import | Require | ReExport

  /** base is the cleaned path a relative specifier joins to; other specifiers have none. */
  datatype Reference = Reference(kind: Kind, base: Option<Path>, bindings: seq<Binding>)

  datatype Module = Module(own: seq<Surface>, references: seq<Reference>)

  type Project = map<Path, Module>

  // ----- resolving a path -------------------------------------------------------------------

  const EXTENSIONS: seq<string> := [".js", ".jsx", ".mjs", ".cjs", ".ts", ".tsx", ".mts", ".cts"]

  /** path.Join of a cleaned path and a file name */
  function JoinName(base: Path, name: string): Path {
    if base == "." then name else if base == "/" then "/" + name else base + "/" + name
  }

  function WithExtensions(base: Path): (paths: seq<Path>)
    ensures |paths| == |EXTENSIONS| && forall i :: 0 <= i < |EXTENSIONS| ==> paths[i] == base + EXTENSIONS[i]
  {
    seq(|EXTENSIONS|, i requires 0 <= i < |EXTENSIONS| => base + EXTENSIONS[i])
  }

  /** resolverPathCandidates: the path itself, then with an extension, then an index file in it. */
  function Candidates(base: Path): (paths: seq<Path>)
    ensures |paths| == 1 + 2 * |EXTENSIONS|
  {
    [base] + WithExtensions(base) + WithExtensions(JoinName(base, "index"))
  }

  function FirstFound(project: Project, candidates: seq<Path>): (found: Option<Path>)
    ensures match found
      case Some(path) => exists i ::
        0 <= i < |candidates| && candidates[i] == path && path in project && forall j ::
        0 <= j < i ==> candidates[j] !in project
      case None => forall i :: 0 <= i < |candidates| ==> candidates[i] !in project
  {
    if candidates == [] then None
    else if candidates[0] in project then Some(candidates[0])
    else
      var found := FirstFound(project, candidates[1..]);
      assert forall i :: 1 <= i < |candidates| ==> candidates[i] == candidates[1..][i - 1];
      found
  }

  /** The first indexed file that is the stem with an extension. */
  function WithAnExtension(project: Project, stem: Path): Option<Path> {
    if stem + ".js" in project then Some(stem + ".js")
    else if stem + ".jsx" in project then Some(stem + ".jsx")
    else if stem + ".mjs" in project then Some(stem + ".mjs")
    else if stem + ".cjs" in project then Some(stem + ".cjs")
    else if stem + ".ts" in project then Some(stem + ".ts")
    else if stem + ".tsx" in project then Some(stem + ".tsx")
    else if stem + ".mts" in project then Some(stem + ".mts")
    else if stem + ".cts" in project then Some(stem + ".cts")
    else None
  }

  /** The file a cleaned path stands for: itself, or with an extension, or the index file of that folder. */
  function Located(project: Project, base: Path): Option<Path> {
    if base in project then Some(base)
    else if WithAnExtension(project, base).Some? then WithAnExtension(project, base)
    else if base == "." then WithAnExtension(project, "index")
    else if base == "/" then WithAnExtension(project, "/index")
    else WithAnExtension(project, base + "/index")
  }

  lemma {:induction false} FoundInParts(project: Project, first: seq<Path>, second: seq<Path>)
    ensures FirstFound(project, first + second)
      == if FirstFound(project, first).Some? then FirstFound(project, first) else FirstFound(project, second)
  {
    if first == [] {
      assert first + second == second;
    } else {
      FoundInParts(project, first[1..], second);
      assert (first + second)[1..] == first[1..] + second;
    }
  }

  lemma ExtensionsFound(project: Project, stem: Path)
    ensures FirstFound(project, WithExtensions(stem)) == WithAnExtension(project, stem)
  {
    var paths := WithExtensions(stem);
    assert paths[0] == stem + ".js" && paths[1] == stem + ".jsx" && paths[2] == stem + ".mjs";
    assert paths[3] == stem + ".cjs" && paths[4] == stem + ".ts" && paths[5] == stem + ".tsx";
    assert paths[6] == stem + ".mts" && paths[7] == stem + ".cts";
    hide WithExtensions, FirstFound;
    assert |paths| == 8;
  }

  lemma IndexStem(base: Path)
    ensures JoinName(base, "index") == if base == "." then "index" else if base == "/" then "/index"
      else base + "/index"
  {
    assert "/" + "index" == "/index";
    assert base + "/" + "index" == base + "/index";
  }

  lemma ItselfFound(project: Project, base: Path)
    ensures FirstFound(project, [base]) == if base in project then Some(base) else None
  {
    assert [base][1..] == [];
  }

  lemma CandidatesLocate(project: Project, base: Path)
    ensures FirstFound(project, Candidates(base)) == Located(project, base)
  {
    var stem := JoinName(base, "index");
    IndexStem(base);
    hide WithExtensions, WithAnExtension, JoinName, FirstFound;
    FoundInParts(project, [base] + WithExtensions(base), WithExtensions(stem));
    FoundInParts(project, [base], WithExtensions(base));
    ItselfFound(project, base);
    ExtensionsFound(project, base);
    ExtensionsFound(project, stem);
  }

  /** resolvePath */
  method ResolvePath(project: Project, base: Path) returns (found: Option<Path>)
    ensures found == FirstFound(project, Candidates(base)) == Located(project, base)
  {
    CandidatesLocate(project, base);
    var candidates := Candidates(base);
    for i := 0 to |candidates|
      invariant FirstFound(project, candidates) == FirstFound(project, candidates[i..])
    {
      assert candidates[i..][1..] == candidates[i + 1..];
      if candidates[i] in project {
        return Some(candidates[i]);
      }
    }
    return None;
  }

  function Target(project: Project, reference: Reference): Option<Path> {
    if reference.base.None? then None else FirstFound(project, Candidates(reference.base.value))
  }

  // ----- what one binding passes on ---------------------------------------------------------

  /** matchingBindingSurfaces: export * passes everything on but default. */
  predicate Matches(kind: Kind, binding: Binding, surface: Surface) {
    && (binding.imported == "*" || surface.name == binding.imported)
    && !(kind == ReExport && binding.imported == "*" && binding.exported == "*" && surface.name == "default")
  }

  function Exported(binding: Binding, surface: Surface): Surface {
    if binding.exported != "" && binding.exported != "*" then surface.(name := binding.exported) else surface
  }

  predicate Renames(binding: Binding) {
    binding.exported != "" && binding.exported != "*" && binding.exported != binding.imported
  }

  /** A binding renames exactly if it gives some surface it passes on another name. */
  lemma RenamesExactly(binding: Binding)
    ensures Renames(binding) <==>
      exists surface :: Matches(ReExport, binding, surface) && Exported(binding, surface).name != surface.name
  {
    if Renames(binding) {
      var name := if binding.imported != "*" then binding.imported else if binding.exported == "a" then "b" else "a";
      assert Matches(ReExport, binding, Surface("", name)) && Exported(binding, Surface("", name)).name != name;
    }
  }

  predicate LinksTo(project: Project, reference: Reference, target: Path) {
    reference.kind == ReExport && Target(project, reference) == Some(target)
  }

  /** The file re-exports the other one through the binding. */
  ghost predicate Link(project: Project, file: Path, target: Path, binding: Binding) {
    file in project && exists reference ::
      reference in project[file].references && LinksTo(project, reference, target) && binding in reference.bindings
  }

  /** A surface of the target becomes a surface of the file. */
  ghost predicate Passes(project: Project, file: Path, target: Path, surface: Surface, exported: Surface) {
    exists binding ::
      Link(project, file, target, binding) && Matches(ReExport, binding, surface)
      && exported == Exported(binding, surface)
  }

  /** The reference is an export from the target file that names the surface, or passes on everything but the
      default; the surface keeps its node and takes the name it is exported under. */
  predicate PassesOn(project: Project, target: Path, reference: Reference, binding: Binding, surface: Surface,
          exported: Surface) {
    && reference.kind == ReExport && reference.base.Some?
    && Located(project, reference.base.value) == Some(target) && binding in reference.bindings
    && (binding.imported == "*" || surface.name == binding.imported)
    && !(binding.imported == "*" && binding.exported == "*" && surface.name == "default")
    && exported == Surface(surface.node,
      if binding.exported == "" || binding.exported == "*" then surface.name else binding.exported)
  }

  lemma OnePasses(project: Project, target: Path, reference: Reference, binding: Binding, surface: Surface,
          exported: Surface)
    ensures PassesOn(project, target, reference, binding, surface, exported) <==>
      && LinksTo(project, reference, target) && binding in reference.bindings
      && Matches(ReExport, binding, surface) && exported == Exported(binding, surface)
  {
    if reference.base.Some? {
      CandidatesLocate(project, reference.base.value);
    }
    hide Located, FirstFound, Candidates;
  }

  lemma PassesExactly(project: Project, file: Path, target: Path, surface: Surface, exported: Surface)
    ensures Passes(project, file, target, surface, exported) <==>
      file in project && exists reference, binding ::
        reference in project[file].references && PassesOn(project, target, reference, binding, surface, exported)
  {
    hide PassesOn, LinksTo, Matches, Exported;
    if Passes(project, file, target, surface, exported) {
      var binding :| Link(project, file, target, binding) && Matches(ReExport, binding, surface)
        && exported == Exported(binding, surface);
      var reference :| reference in project[file].references && LinksTo(project, reference, target)
        && binding in reference.bindings;
      OnePasses(project, target, reference, binding, surface, exported);
    }
    if file in project {
      forall reference, binding | reference in project[file].references
        && PassesOn(project, target, reference, binding, surface, exported)
        ensures Passes(project, file, target, surface, exported)
      {
        OnePasses(project, target, reference, binding, surface, exported);
        assert Link(project, file, target, binding);
      }
    }
  }

  // ----- the two meanings -------------------------------------------------------------------

  /** The file has the surface through at most n re-exports. */
  ghost predicate Derives(project: Project, n: nat, file: Path, surface: Surface) {
    file in project && (surface in project[file].own
      || (n > 0 && exists target, from ::
        Passes(project, file, target, from, surface) && Derives(project, n - 1, target, from)))
  }

  ghost predicate Derivable(project: Project, file: Path, surface: Surface) {
    exists n: nat :: Derives(project, n, file, surface)
  }

  /** The file has the surface through files that are not visited yet, each used once. */
  ghost predicate Simple(project: Project, visited: set<Path>, file: Path, surface: Surface)
    decreases project.Keys - visited
  {
    file in project && file !in visited && (surface in project[file].own
      || exists target, from ::
        Passes(project, file, target, from, surface) && Simple(project, visited + {file}, target, from))
  }

  lemma {:induction false} DerivesMore(project: Project, n: nat, more: nat, file: Path, surface: Surface)
    requires n <= more && Derives(project, n, file, surface)
    ensures Derives(project, more, file, surface)
    decreases n
  {
    if surface !in project[file].own {
      var target, from :| Passes(project, file, target, from, surface) && Derives(project, n - 1, target, from);
      DerivesMore(project, n - 1, more - 1, target, from);
    }
  }

  /** Whatever the search finds is found within as many rounds as there are files. */
  lemma {:induction false} SimpleIsDerived(project: Project, visited: set<Path>, file: Path, surface: Surface)
    requires Simple(project, visited, file, surface) && visited <= project.Keys
    ensures Derives(project, |project.Keys - visited|, file, surface)
    decreases project.Keys - visited
  {
    hide Passes;
    if surface !in project[file].own {
      var target, from :| Passes(project, file, target, from, surface)
        && Simple(project, visited + {file}, target, from);
      SimpleIsDerived(project, visited + {file}, target, from);
      assert project.Keys - visited == (project.Keys - (visited + {file})) + {file};
    }
  }

  // ----- chains of re-exports ---------------------------------------------------------------

  /** A derivation written out: each entry gets its surface from the next one, the last one owns it. */
  ghost predicate Chain(project: Project, files: seq<Path>, surfaces: seq<Surface>) {
    && |files| == |surfaces| > 0
    && (forall i :: 0 <= i < |files| ==> files[i] in project)
    && surfaces[|files| - 1] in project[files[|files| - 1]].own
    && forall i :: 0 <= i < |files| - 1 ==> Passes(project, files[i], files[i + 1], surfaces[i + 1], surfaces[i])
  }

  lemma {:induction false} ChainOf(project: Project, n: nat, file: Path, surface: Surface) returns (files: seq<Path>,
          surfaces: seq<Surface>)
    requires Derives(project, n, file, surface)
    ensures Chain(project, files, surfaces) && files[0] == file && surfaces[0] == surface
    decreases n
  {
    hide Passes;
    if surface in project[file].own {
      files, surfaces := [file], [surface];
    } else {
      var target, from :| Passes(project, file, target, from, surface) && Derives(project, n - 1, target, from);
      files, surfaces := ChainOf(project, n - 1, target, from);
      files, surfaces := [file] + files, [surface] + surfaces;
    }
  }

  ghost predicate Linked(project: Project, a: Path, b: Path) {
    exists binding :: Link(project, a, b, binding)
  }

  ghost predicate IsTour(project: Project, tour: seq<Path>, a: Path, b: Path) {
    && |tour| > 0 && tour[0] == a && tour[|tour| - 1] == b
    && forall i :: 0 <= i < |tour| - 1 ==> Linked(project, tour[i], tour[i + 1])
  }

  ghost predicate Connected(project: Project, a: Path, b: Path) {
    exists tour :: IsTour(project, tour, a, b)
  }

  /** No re-export that lies on a cycle gives a surface another name; an acyclic project has none. */
  ghost predicate NoRenameOnCycle(project: Project) {
    forall file, target, binding ::
      Link(project, file, target, binding) && Connected(project, target, file) ==> !Renames(binding)
  }

  lemma JoinTours(project: Project, first: seq<Path>, second: seq<Path>, a: Path, b: Path, c: Path)
    requires IsTour(project, first, a, b) && IsTour(project, second, b, c)
    ensures IsTour(project, first + second[1..], a, c)
  {
    hide Linked;
    var tour := first + second[1..];
    forall i | 0 <= i < |tour| - 1
      ensures Linked(project, tour[i], tour[i + 1])
    {
      if i >= |first| - 1 {
        assert tour[i] == second[i - |first| + 1] && tour[i + 1] == second[i - |first| + 2];
      }
    }
  }

  lemma ChainTour(project: Project, files: seq<Path>, surfaces: seq<Surface>, i: nat, j: nat)
    requires Chain(project, files, surfaces) && i <= j < |files|
    ensures IsTour(project, files[i..j + 1], files[i], files[j])
  {
    forall k | i <= k < j
      ensures Linked(project, files[k], files[k + 1])
    {
      assert Passes(project, files[k], files[k + 1], surfaces[k + 1], surfaces[k]);
    }
    hide Linked, Passes;
  }

  lemma CycleThrough(project: Project, files: seq<Path>, surfaces: seq<Surface>, i: nat, j: nat, k: nat)
    requires Chain(project, files, surfaces) && i <= k < j < |files| && files[i] == files[j]
    ensures Connected(project, files[k + 1], files[k])
  {
    hide Chain, IsTour;
    ChainTour(project, files, surfaces, k + 1, j);
    ChainTour(project, files, surfaces, i, k);
    JoinTours(project, files[k + 1..j + 1], files[i..k + 1], files[k + 1], files[j], files[k]);
  }

  lemma PassesUnchanged(project: Project, file: Path, target: Path, surface: Surface, exported: Surface)
    requires NoRenameOnCycle(project) && Connected(project, target, file)
    requires Passes(project, file, target, surface, exported)
    ensures exported == surface
  {
    var binding :| Link(project, file, target, binding) && Matches(ReExport, binding, surface)
      && exported == Exported(binding, surface);
    hide Connected;
  }

  /** Along a cycle without renaming the surface stays the same. */
  lemma {:induction false} CycleKeepsSurface(project: Project, files: seq<Path>, surfaces: seq<Surface>, i: nat,
          j: nat, k: nat)
    requires NoRenameOnCycle(project) && Chain(project, files, surfaces)
    requires i <= k <= j < |files| && files[i] == files[j]
    ensures surfaces[k] == surfaces[j]
    decreases j - k
  {
    if k < j {
      CycleKeepsSurface(project, files, surfaces, i, j, k + 1);
      CycleThrough(project, files, surfaces, i, j, k);
      assert Passes(project, files[k], files[k + 1], surfaces[k + 1], surfaces[k]);
      hide NoRenameOnCycle, Chain, Passes, Connected;
      PassesUnchanged(project, files[k], files[k + 1], surfaces[k + 1], surfaces[k]);
    }
  }

  lemma {:induction false} CutCycles(project: Project, files: seq<Path>,
          surfaces: seq<Surface>) returns (shortFiles: seq<Path>, shortSurfaces: seq<Surface>)
    requires NoRenameOnCycle(project) && Chain(project, files, surfaces)
    ensures Chain(project, shortFiles, shortSurfaces) && Distinct(shortFiles)
    ensures shortFiles[0] == files[0] && shortSurfaces[0] == surfaces[0]
    decreases |files|
  {
    if i, j :| 0 <= i < j < |files| && files[i] == files[j] {
      CycleKeepsSurface(project, files, surfaces, i, j, i);
      var cutFiles, cutSurfaces := files[..i] + files[j..], surfaces[..i] + surfaces[j..];
      ChainIsCut(project, files, surfaces, i, j);
      shortFiles, shortSurfaces := CutCycles(project, cutFiles, cutSurfaces);
    } else {
      shortFiles, shortSurfaces := files, surfaces;
    }
  }

  lemma ChainIsCut(project: Project, files: seq<Path>, surfaces: seq<Surface>, i: nat, j: nat)
    requires Chain(project, files, surfaces) && i < j < |files| && files[i] == files[j] && surfaces[i] == surfaces[j]
    ensures Chain(project, files[..i] + files[j..], surfaces[..i] + surfaces[j..])
  {
    hide Passes;
    var cutFiles, cutSurfaces := files[..i] + files[j..], surfaces[..i] + surfaces[j..];
    forall m | 0 <= m < |cutFiles| - 1
      ensures Passes(project, cutFiles[m], cutFiles[m + 1], cutSurfaces[m + 1], cutSurfaces[m])
    {
      var n := if m < i then m else m + (j - i);
      assert Passes(project, files[n], files[n + 1], surfaces[n + 1], surfaces[n]);
    }
  }

  lemma {:induction false} DistinctIsSimple(project: Project, visited: set<Path>, files: seq<Path>,
          surfaces: seq<Surface>)
    requires Chain(project, files, surfaces) && Distinct(files)
    requires forall i :: 0 <= i < |files| ==> files[i] !in visited
    ensures Simple(project, visited, files[0], surfaces[0])
    decreases |files|
  {
    if |files| > 1 {
      assert Passes(project, files[0], files[1], surfaces[1], surfaces[0]);
      DistinctIsSimple(project, visited + {files[0]}, files[1..], surfaces[1..]);
    }
  }

  /** Without renaming on a cycle the search finds exactly what any number of rounds can derive, and as
      many rounds as there are files are always enough. */
  lemma SearchFindsAll(project: Project, file: Path, surface: Surface)
    requires NoRenameOnCycle(project)
    ensures Simple(project, {}, file, surface) <==> Derivable(project, file, surface)
    ensures Derives(project, |project.Keys|, file, surface) <==> Derivable(project, file, surface)
  {
    if Simple(project, {}, file, surface) {
      SimpleIsDerived(project, {}, file, surface);
      assert project.Keys - {} == project.Keys;
    }
    if Derivable(project, file, surface) {
      var n: nat :| Derives(project, n, file, surface);
      var files, surfaces := ChainOf(project, n, file, surface);
      files, surfaces := CutCycles(project, files, surfaces);
      DistinctIsSimple(project, {}, files, surfaces);
      SimpleIsDerived(project, {}, file, surface);
      assert project.Keys - {} == project.Keys;
    }
  }
}
