/** chewed's analysis core (src/chewed/core.py): import discovery over a
    syntax tree, the per-file filter of `process_package_modules`, and the
    validation and error mapping of `analyze_package`. The tree walk, the
    directory listing, path resolution, file sizes, exclusion patterns and
    the collaborators in other modules are inputs. */
module Core {
  import opened Results
  import opened Strings
  import opened Sorting
  import opened Records
  import opened PyAst

  /** One entry of `_find_imports`: `{"full_path": ..., "type": ...}`. */
  datatype ImportEntry = ImportEntry(fullPath: string, importType: string)

  /** The module text of a from-import as an f-string renders it: a
      relative `from . import x` has no module and renders as "None". */
  function ModuleText(fromModule: Option<string>): string
  {
    match fromModule
    case None => "None"
    case Some(m) => m
  }

  /** The type recorded for an import path: "stdlib" when its first dotted
      segment is a standard-library module, "external" otherwise. */
  function ImportType(fullPath: string, stdlib: set<string>): (r: string)
    ensures r == "stdlib" <==> PrefixBefore(fullPath, '.') in stdlib
    ensures r == "stdlib" || r == "external"
  {
    if PrefixBefore(fullPath, '.') in stdlib then "stdlib" else "external"
  }

  /** The full paths one node contributes, one per alias, in alias order. */
  function ImportPaths(node: Stmt): (r: seq<string>)
    ensures node.Import? ==> r == node.names
    ensures node.ImportFrom? ==> (|r| == |node.names| &&
      forall i :: 0 <= i < |r| ==> r[i] == ModuleText(node.fromModule) + "." + node.names[i])
    ensures !node.Import? && !node.ImportFrom? ==> r == []
  {
    match node
    case Import(names) => names
    case ImportFrom(m, names) => seq(|names|, i requires 0 <= i < |names| => ModuleText(m) + "." + names[i])
    case _ => []
  }

  /** `_find_imports` over the nodes `ast.walk` yields, in walk order. Its
      `package_root` argument is never read and is left out. */
  function FindImports(walk: seq<Stmt>, stdlib: set<string>): (r: seq<ImportEntry>)
    ensures |r| == |FlatMap(walk, ImportPaths)| == AliasCount(walk)
    ensures forall i :: 0 <= i < |r| ==>
      r[i].fullPath == FlatMap(walk, ImportPaths)[i] &&
      (r[i].importType == "stdlib" <==> PrefixBefore(r[i].fullPath, '.') in stdlib) &&
      (PrefixBefore(r[i].fullPath, '.') !in stdlib ==> r[i].importType == "external") &&
      r[i].importType != "internal"
  {
    var paths := FlatMap(walk, ImportPaths);
    AllPathsLength(walk);
    FlatMapSingletons(paths, stdlib);
    FlatMap(paths, (p: string) => [ImportEntry(p, ImportType(p, stdlib))])
  }

  /** Number of aliases over all import nodes. */
  function AliasCount(walk: seq<Stmt>): nat
  {
    if |walk| == 0 then 0 else |ImportPaths(walk[0])| + AliasCount(walk[1..])
  }

  lemma {:induction false} FlatMapSingletons(paths: seq<string>, stdlib: set<string>)
    ensures var r := FlatMap(paths, (p: string) => [ImportEntry(p, ImportType(p, stdlib))]);
      |r| == |paths| && forall i :: 0 <= i < |paths| ==> r[i] == ImportEntry(paths[i], ImportType(paths[i], stdlib))
    decreases |paths|
  {
    if |paths| > 0 {
      FlatMapSingletons(paths[1..], stdlib);
    }
  }

  lemma {:induction false} AllPathsLength(walk: seq<Stmt>)
    ensures |FlatMap(walk, ImportPaths)| == AliasCount(walk)
    decreases |walk|
  {
    if |walk| > 0 {
      AllPathsLength(walk[1..]);
    }
  }

  /** The entries of a walk are those of its parts, in order: duplicates are
      kept and nothing is reordered. */
  lemma FindImportsAppend(a: seq<Stmt>, b: seq<Stmt>, stdlib: set<string>)
    ensures FindImports(a + b, stdlib) == FindImports(a, stdlib) + FindImports(b, stdlib)
  {
    var f := (p: string) => [ImportEntry(p, ImportType(p, stdlib))];
    FlatMapAppend(a, b, ImportPaths);
    FlatMapAppend(FlatMap(a, ImportPaths), FlatMap(b, ImportPaths), f);
  }

  /** A single `import a, b` yields exactly its aliases, in order. */
  lemma PlainImportEntries(names: seq<string>, stdlib: set<string>)
    ensures |FindImports([Import(names)], stdlib)| == |names|
    ensures forall i :: 0 <= i < |names| ==>
      FindImports([Import(names)], stdlib)[i] == ImportEntry(names[i], ImportType(names[i], stdlib))
  {
    assert FlatMap([Import(names)], ImportPaths) == names + FlatMap([Import(names)][1..], ImportPaths);
    assert FlatMap([Import(names)], ImportPaths) == names;
    FlatMapSingletons(names, stdlib);
  }

  /** A module record as `process_modules` returns it: a dictionary, or
      some other value. */
  datatype RawModule = DictRecord(fields: map<string, Value>) | NonDict(repr: string)

  /** What processing one file produced: its module records (possibly
      none), a syntax error, or some other exception. */
  datatype Outcome = Processed(records: seq<RawModule>) | SyntaxFailure(msg: string) | OtherFailure(error: Exc)

  /** A `*.py` file of the package directory: its path, its resolved path,
      its base name, its size in bytes, whether it matches an exclusion
      pattern, and the outcome of processing it. */
  datatype FileRecord = FileRecord(
    path: string,
    resolved: string,
    baseName: string,
    size: nat,
    excluded: bool,
    outcome: Outcome)

  /** An empty `__init__.py`. */
  predicate IsEmptyInit(f: FileRecord)
  {
    f.baseName == "__init__.py" && f.size == 0
  }

  /** A file that, looked at on its own, contributes modules: not excluded,
      not an empty `__init__.py`, and processed into at least one record. */
  predicate Contributes(f: FileRecord)
  {
    !f.excluded && !IsEmptyInit(f) && f.outcome.Processed? && |f.outcome.records| > 0
  }

  /** File `i` is used exactly when it contributes and no earlier file with
      the same resolved path contributed. */
  predicate Kept(files: seq<FileRecord>, i: int)
    requires 0 <= i < |files|
  {
    Contributes(files[i]) &&
    forall j :: 0 <= j < i && Contributes(files[j]) ==> files[j].resolved != files[i].resolved
  }

  /** The records of the kept files among the first `n`, in file order. */
  function KeptModules(files: seq<FileRecord>, n: nat): seq<RawModule>
    requires n <= |files|
  {
    if n == 0 then []
    else KeptModules(files, n - 1) + (if Kept(files, n - 1) then files[n - 1].outcome.records else [])
  }

  /** The resolved paths of the kept files among the first `n`. */
  function KeptPaths(files: seq<FileRecord>, n: nat): set<string>
    requires n <= |files|
  {
    set j | 0 <= j < n && Kept(files, j) :: files[j].resolved
  }

  /** A contributing file shares its resolved path with a kept file at or
      before it. */
  lemma {:induction false} ContributorHasKeptTwin(files: seq<FileRecord>, j: int)
    requires 0 <= j < |files| && Contributes(files[j])
    ensures exists k :: 0 <= k <= j && Kept(files, k) && files[k].resolved == files[j].resolved
    decreases j
  {
    if !Kept(files, j) {
      var j' :| 0 <= j' < j && Contributes(files[j']) && files[j'].resolved == files[j].resolved;
      ContributorHasKeptTwin(files, j');
    }
  }

  /** A file is kept exactly when it contributes and its resolved path is
      not among those already recorded. */
  lemma KeptBySeenPaths(files: seq<FileRecord>, i: int)
    requires 0 <= i < |files|
    ensures Kept(files, i) <==> Contributes(files[i]) && files[i].resolved !in KeptPaths(files, i)
  {
    if Contributes(files[i]) && !Kept(files, i) {
      var j :| 0 <= j < i && Contributes(files[j]) && files[j].resolved == files[i].resolved;
      ContributorHasKeptTwin(files, j);
    }
  }

  /** `process_package_modules`: walks the files in listing order, skipping
      a file whose resolved path was already recorded, an excluded file, an
      empty `__init__.py`, and a file whose processing fails or yields
      nothing; a resolved path is recorded only after its file yields
      records. Failures never escape. */
  method ProcessPackageModules(files: seq<FileRecord>) returns (modules: seq<RawModule>)
    ensures modules == KeptModules(files, |files|)
  {
    modules := [];
    var processed: set<string> := {};
    var i := 0;
    while i < |files|
      invariant 0 <= i <= |files|
      invariant modules == KeptModules(files, i)
      invariant processed == KeptPaths(files, i)
    {
      var f := files[i];
      KeptBySeenPaths(files, i);
      if f.resolved in processed {
      } else if f.excluded {
      } else if IsEmptyInit(f) {
      } else {
        match f.outcome
        case Processed(records) =>
          if |records| > 0 {
            modules := modules + records;
            processed := processed + {f.resolved};
          }
        case SyntaxFailure(_) =>
        case OtherFailure(_) =>
      }
      assert KeptPaths(files, i + 1) == KeptPaths(files, i) + (if Kept(files, i) then {f.resolved} else {});
      i := i + 1;
    }
  }

  /** An excluded file or an empty `__init__.py` contributes nothing, and
      neither does a file whose processing failed. */
  lemma SkippedFilesContributeNothing(files: seq<FileRecord>, i: int)
    requires 0 <= i < |files|
    requires files[i].excluded || IsEmptyInit(files[i]) || !files[i].outcome.Processed?
    ensures KeptModules(files, i + 1) == KeptModules(files, i)
  {
  }

  /** A file that failed does not block a later file with the same resolved
      path: only files that yielded records are recorded. */
  lemma FailedFileDoesNotBlock(files: seq<FileRecord>, j: int, i: int)
    requires 0 <= j < i < |files|
    requires !Contributes(files[j]) && files[j].resolved == files[i].resolved
    requires forall k :: 0 <= k < i && k != j ==> files[k].resolved != files[i].resolved
    ensures Kept(files, i) <==> Contributes(files[i])
  {
  }

  /** A later file with the resolved path of a kept one is skipped, even if
      it would contribute on its own. */
  lemma DuplicateResolvedPathSkipped(files: seq<FileRecord>, j: int, i: int)
    requires 0 <= j < i < |files|
    requires Kept(files, j) && files[j].resolved == files[i].resolved
    ensures !Kept(files, i)
    ensures KeptModules(files, i + 1) == KeptModules(files, i)
  {
  }

  /** The records `process_package_modules` returns are exactly those of
      the contributing files, each resolved path counted once. */
  lemma {:induction false} KeptModulesFromContributors(files: seq<FileRecord>, n: nat, m: RawModule)
    requires n <= |files|
    ensures m in KeptModules(files, n) ==> exists i :: 0 <= i < n && Contributes(files[i]) && m in files[i].outcome.records
    decreases n
  {
    if n > 0 && m in KeptModules(files, n) {
      if m in KeptModules(files, n - 1) {
        KeptModulesFromContributors(files, n - 1, m);
      }
    }
  }

  /** What chewed's `analyze_package` returns. */
  datatype PackageInfo = PackageInfo(
    package: Value,
    path: string,
    modules: seq<RawModule>,
    relationships: Relationships,
    metadata: map<string, Value>)

  const NoValidModules := "No valid modules found"

  /** A module record the analysis keeps: a dictionary with a "name". */
  predicate IsValidModule(m: RawModule)
  {
    m.DictRecord? && "name" in m.fields
  }

  /** The valid module records, in order. */
  function ValidModules(modules: seq<RawModule>): (r: seq<RawModule>)
    ensures |r| <= |modules|
    ensures forall m :: m in r <==> m in modules && IsValidModule(m)
    decreases |modules|
  {
    if |modules| == 0 then []
    else
      var rest := ValidModules(modules[1..]);
      assert forall m :: m in modules[1..] ==> m in modules;
      assert forall m :: m in modules ==> m == modules[0] || m in modules[1..];
      if IsValidModule(modules[0]) then [modules[0]] + rest else rest
  }

  /** Keeping valid modules preserves their relative order: it distributes
      over concatenation. */
  lemma {:induction false} ValidModulesAppend(a: seq<RawModule>, b: seq<RawModule>)
    ensures ValidModules(a + b) == ValidModules(a) + ValidModules(b)
    decreases |a|
  {
    if |a| == 0 {
      assert a + b == b;
    } else {
      assert (a + b)[1..] == a[1..] + b;
      ValidModulesAppend(a[1..], b);
    }
  }

  /** The outer handler: `RuntimeError` and `ValueError` pass through, any
      other exception becomes `RuntimeError("No valid modules found")`. */
  function Reraise(e: Exc): (r: Exc)
    ensures e.RuntimeError? || e.ValueError? ==> r == e
    ensures !(e.RuntimeError? || e.ValueError?) ==> r == RuntimeError(NoValidModules)
  {
    if e.RuntimeError? || e.ValueError? then e else RuntimeError(NoValidModules)
  }

  /** chewed's `analyze_package` once the source path is resolved.
      `sourceText` renders the resolved path and `sourceExists` says whether it
      exists; `modules` is what module processing returns; `packageName`,
      `relate` and `metadata` stand for the package-name lookup, the
      relationship analyser and the metadata fetch. */
  function AnalyzePackage(
    sourceText: string,
    sourceExists: bool,
    modules: Result<seq<RawModule>, Exc>,
    packageName: Result<Value, Exc>,
    relate: (seq<RawModule>, Value) -> Result<Relationships, Exc>,
    metadata: Result<map<string, Value>, Exc>): (r: Result<PackageInfo, Exc>)
    ensures !sourceExists ==> r == Failure(ValueError("Source path does not exist: " + sourceText))
    ensures sourceExists && (modules.Failure? || modules == Success([])) ==> r == Failure(RuntimeError(NoValidModules))
    ensures sourceExists && modules.Success? && |ValidModules(modules.value)| == 0 ==> r == Failure(RuntimeError(NoValidModules))
    ensures r.Failure? && sourceExists ==> r.error.RuntimeError? || r.error.ValueError?
    ensures (sourceExists && modules.Success? && |ValidModules(modules.value)| > 0 &&
      packageName.Success? && metadata.Success?) ==> r.Success?
    ensures sourceExists && modules.Success? && |ValidModules(modules.value)| > 0 && packageName.Failure? ==>
      r == Failure(Reraise(packageName.error))
    ensures sourceExists && modules.Success? && |ValidModules(modules.value)| > 0 && packageName.Success? && metadata.Failure? ==>
      r == Failure(Reraise(metadata.error))
    ensures r.Success? ==>
      && sourceExists && modules.Success? && packageName.Success? && metadata.Success?
      && r.value.package == packageName.value
      && r.value.path == sourceText
      && r.value.modules == ValidModules(modules.value)
      && |r.value.modules| > 0
      && r.value.metadata == metadata.value
      && (relate(r.value.modules, packageName.value).Success? ==>
            r.value.relationships == relate(r.value.modules, packageName.value).value)
      && (relate(r.value.modules, packageName.value).Failure? ==>
            r.value.relationships == EmptyRelationships)
  {
    if !sourceExists then Failure(ValueError("Source path does not exist: " + sourceText))
    else if modules.Failure? || |modules.value| == 0 then Failure(RuntimeError(NoValidModules))
    else
      var valid := ValidModules(modules.value);
      if |valid| == 0 then Failure(RuntimeError(NoValidModules))
      else
        match packageName
        case Failure(e) => Failure(Reraise(e))
        case Success(name) =>
          var relationships := match relate(valid, name)
            case Success(rel) => rel
            case Failure(_) => EmptyRelationships;
          match metadata
          case Failure(e) => Failure(Reraise(e))
          case Success(meta) => Success(PackageInfo(name, sourceText, valid, relationships, meta))
  }

  /** The modules of a successful analysis are the valid records among
      those processed, and a failure of the relationship analyser never
      fails the analysis. */
  lemma RelationshipFailureIsHarmless(
    sourceText: string,
    modules: seq<RawModule>,
    name: Value,
    relate: (seq<RawModule>, Value) -> Result<Relationships, Exc>,
    meta: map<string, Value>)
    requires |ValidModules(modules)| > 0
    requires relate(ValidModules(modules), name).Failure?
    ensures AnalyzePackage(sourceText, true, Success(modules), Success(name), relate, Success(meta)) ==
      Success(PackageInfo(name, sourceText, ValidModules(modules), EmptyRelationships, meta))
  {
    var r := AnalyzePackage(sourceText, true, Success(modules), Success(name), relate, Success(meta));
    assert r.Success?;
    assert r.value.relationships == EmptyRelationships;
  }

  /** The position of the last "/" in a path, or -1 when there is none. */
  function LastSlash(path: string): (k: int)
    ensures -1 <= k < |path|
    ensures k >= 0 ==> path[k] == '/'
    ensures forall j :: k < j < |path| ==> path[j] != '/'
    decreases |path|
  {
    if |path| == 0 then -1
    else if path[|path| - 1] == '/' then |path| - 1
    else LastSlash(path[..|path| - 1])
  }

  /** A string is its prefix of length `i` followed by the rest. */
  lemma SplitAt(s: string, i: nat)
    requires i <= |s|
    ensures s == s[..i] + s[i..]
  {
  }

  /** `Path.name` of a normalised path: its last `/`-separated segment,
      except that the current directory `.` has the empty name. */
  function LastSegment(path: string): (r: string)
    ensures '/' !in r
    ensures |r| <= |path| && path == path[..|path| - |r|] + r
    ensures path != "." && |r| < |path| ==> path[|path| - |r| - 1] == '/'
    ensures path == "." ==> r == ""
  {
    if path == "." then ""
    else
      var k := LastSlash(path);
      SplitAt(path, k + 1);
      path[k + 1..]
  }

  /** `_create_empty_package_info`: the package named after the last path
      segment, no modules, an empty relationship summary and no metadata. */
  function CreateEmptyPackageInfo(pathText: string): (r: PackageInfo)
    ensures r.package.Str? && '/' !in r.package.s
    ensures r.path == pathText && |r.package.s| <= |pathText| && pathText == pathText[..|pathText| - |r.package.s|] + r.package.s
    ensures pathText != "." && |r.package.s| < |pathText| ==> pathText[|pathText| - |r.package.s| - 1] == '/'
    ensures pathText == "." ==> r.package.s == ""
    ensures r.modules == [] && r.relationships == Relationships(map[], []) && r.metadata == map[]
  {
    PackageInfo(Str(LastSegment(pathText)), pathText, [], EmptyRelationships, map[])
  }
}
