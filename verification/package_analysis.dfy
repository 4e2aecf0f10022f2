/** chewdoc's package analysis: the package-name fallback derived from the
    package path, the metadata defaults, the upper-case constant filter, and
    the error mapping of `analyze_package`. Metadata fetching, module
    discovery, file reading, parsing and relationship analysis are
    collaborators whose outcomes are inputs. */
module PackageAnalysis {
  import opened Results
  import opened Strings
  import opened Records
  import opened PyAst
  import Utils

  /** Path components that never name a package: source roots and
      installation directories. */
  predicate IsSkippedPart(part: string)
  {
    part == "src" || part == "site-packages" || part == "dist-packages"
  }

  const UnknownPackage := "unknown-package"

  /** The position of the last component that is not skipped, or -1 when
      every component is skipped. */
  function LastKept(parts: seq<string>): (r: int)
    ensures -1 <= r < |parts|
    ensures r >= 0 ==> !IsSkippedPart(parts[r])
    ensures forall j :: r < j < |parts| ==> IsSkippedPart(parts[j])
    decreases |parts|
  {
    if |parts| == 0 then -1
    else if IsSkippedPart(parts[|parts| - 1]) then LastKept(parts[..|parts| - 1])
    else |parts| - 1
  }

  /** `_derive_package_name` over the components of the resolved path,
      scanning from the last: skipped components are passed over, the
      first other one names the package up to its first "-" (so a
      versioned directory `my-pkg-1.2.3` names `my`), and "unknown-package"
      is the answer when every component is skipped. */
  function DerivePackageName(parts: seq<string>): (r: string)
    ensures LastKept(parts) < 0 ==> r == UnknownPackage
    ensures LastKept(parts) >= 0 ==> r == PrefixBefore(parts[LastKept(parts)], '-')
    decreases |parts|
  {
    if |parts| == 0 then UnknownPackage
    else
      var last := parts[|parts| - 1];
      if IsSkippedPart(last) then DerivePackageName(parts[..|parts| - 1])
      else if '-' in last then PrefixBefore(last, '-')
      else last
  }

  lemma HyphenInUnknownPackage()
    ensures '-' in UnknownPackage
  {
    assert UnknownPackage == "unknown" + "-" + "package";
    assert UnknownPackage[7] == '-';
  }

  /** The derived name is "unknown-package" exactly when every component is
      skipped; any other derived name contains no "-", and a component
      without "-" is taken whole. */
  lemma DerivedNameHasNoHyphen(parts: seq<string>)
    ensures DerivePackageName(parts) == UnknownPackage <==> forall i :: 0 <= i < |parts| ==> IsSkippedPart(parts[i])
    ensures DerivePackageName(parts) != UnknownPackage ==> '-' !in DerivePackageName(parts)
    ensures LastKept(parts) >= 0 && '-' !in parts[LastKept(parts)] ==> DerivePackageName(parts) == parts[LastKept(parts)]
  {
    HyphenInUnknownPackage();
    var k := LastKept(parts);
    if k >= 0 {
      var p := parts[k];
      if '-' !in p {
        assert PrefixBefore(p, '-') == p[..|p|];
      }
    }
  }

  /** The name depends only on the last component that is not skipped:
      whatever precedes it is never looked at. */
  lemma {:induction false} DerivedNameIgnoresEarlierParts(prefix: seq<string>, part: string, suffix: seq<string>)
    requires !IsSkippedPart(part)
    requires forall j :: 0 <= j < |suffix| ==> IsSkippedPart(suffix[j])
    ensures LastKept(prefix + [part] + suffix) == |prefix|
    ensures DerivePackageName(prefix + [part] + suffix) == PrefixBefore(part, '-')
    decreases |suffix|
  {
    var parts := prefix + [part] + suffix;
    if |suffix| == 0 {
      assert parts[|parts| - 1] == part;
    } else {
      assert parts[|parts| - 1] == suffix[|suffix| - 1];
      assert parts[..|parts| - 1] == prefix + [part] + suffix[..|suffix| - 1];
      DerivedNameIgnoresEarlierParts(prefix, part, suffix[..|suffix| - 1]);
    }
  }

  /** A resolved path always starts with its anchor "/", which is never
      skipped: so the fallback never answers "unknown-package", and a path
      whose other components are all skipped (such as `/src`) is named "/". */
  lemma AnchoredPathIsNeverUnknown(rest: seq<string>)
    ensures DerivePackageName(["/"] + rest) != UnknownPackage
    ensures (forall j :: 0 <= j < |rest| ==> IsSkippedPart(rest[j])) ==> DerivePackageName(["/"] + rest) == "/"
  {
    var parts := ["/"] + rest;
    AnchorNotSkipped();
    assert !IsSkippedPart(parts[0]);
    DerivedNameHasNoHyphen(parts);
    if forall j :: 0 <= j < |rest| ==> IsSkippedPart(rest[j]) {
      AnchorNamesAllSkippedPath(rest);
    }
  }

  /** With every later component skipped, the anchor names the package. */
  lemma {:induction false} AnchorNamesAllSkippedPath(rest: seq<string>)
    requires forall j :: 0 <= j < |rest| ==> IsSkippedPart(rest[j])
    ensures DerivePackageName(["/"] + rest) == "/"
    decreases |rest|
  {
    var parts := ["/"] + rest;
    if |rest| == 0 {
      AnchorNotSkipped();
      assert parts == ["/"];
    } else {
      assert parts[..|parts| - 1] == ["/"] + rest[..|rest| - 1];
      assert parts[|parts| - 1] == rest[|rest| - 1];
      AnchorNamesAllSkippedPath(rest[..|rest| - 1]);
    }
  }

  lemma AnchorNotSkipped()
    ensures !IsSkippedPart("/") && '-' !in "/"
  {
    assert |"/"| == 1 && "/"[0] == '/';
  }

  /** The package name used for the analysis: the metadata's "package"
      value when it is truthy, the derived name otherwise. */
  function PackageNameFor(metadata: map<string, Value>, parts: seq<string>): (r: Value)
    ensures "package" in metadata && Truthy(metadata["package"]) ==> r == metadata["package"]
    ensures !("package" in metadata && Truthy(metadata["package"])) ==> r == Str(DerivePackageName(parts))
  {
    if "package" in metadata && Truthy(metadata["package"]) then metadata["package"]
    else Str(DerivePackageName(parts))
  }

  const DefaultPythonRequires := ">=3.6"
  const DefaultLicense := "Proprietary"

  /** The metadata after the package name is stored and the two defaults
      are filled in: only the three touched keys are added, "package" is
      overwritten, and "python_requires" and "license" keep any value they
      already had. */
  function MetadataWithDefaults(metadata: map<string, Value>, parts: seq<string>): (r: map<string, Value>)
    ensures r.Keys == metadata.Keys + {"package", "python_requires", "license"}
    ensures r["package"] == PackageNameFor(metadata, parts)
    ensures "python_requires" in metadata ==> r["python_requires"] == metadata["python_requires"]
    ensures "python_requires" !in metadata ==> r["python_requires"] == Str(DefaultPythonRequires)
    ensures "license" in metadata ==> r["license"] == metadata["license"]
    ensures "license" !in metadata ==> r["license"] == Str(DefaultLicense)
    ensures forall k :: k in metadata && k != "package" ==> r[k] == metadata[k]
  {
    var named := metadata["package" := PackageNameFor(metadata, parts)];
    var withRequires := SetDefault(named, "python_requires", Str(DefaultPythonRequires));
    SetDefault(withRequires, "license", Str(DefaultLicense))
  }

  /** The record stored for one module-level constant: `{"value": v}`. */
  function Wrapped(v: Value): map<string, Value>
  {
    map["value" := v]
  }

  /** The constant table of a module: every extracted (name, value) pair
      whose name is upper case, wrapped; a later pair for the same name
      replaces an earlier one, as in a dictionary comprehension. */
  function UpperConstants(pairs: seq<(string, Value)>): (r: map<string, map<string, Value>>)
    ensures forall k :: k in r ==> IsUpper(k)
    decreases |pairs|
  {
    if |pairs| == 0 then map[]
    else
      var (name, value) := pairs[|pairs| - 1];
      var rest := UpperConstants(pairs[..|pairs| - 1]);
      if IsUpper(name) then rest[name := Wrapped(value)] else rest
  }

  /** A name has an entry exactly when some extracted pair carries it and
      it is upper case. */
  lemma {:induction false} UpperConstantsKeys(pairs: seq<(string, Value)>, k: string)
    ensures k in UpperConstants(pairs) <==> IsUpper(k) && exists i :: 0 <= i < |pairs| && pairs[i].0 == k
    decreases |pairs|
  {
    if |pairs| > 0 {
      var init := pairs[..|pairs| - 1];
      UpperConstantsKeys(init, k);
      assert forall i :: 0 <= i < |init| ==> init[i] == pairs[i];
    }
  }

  /** The entry of a name wraps the value of the last pair carrying it. */
  lemma {:induction false} UpperConstantsLastWins(pairs: seq<(string, Value)>, k: string)
    requires k in UpperConstants(pairs)
    ensures exists i :: (0 <= i < |pairs| && pairs[i].0 == k && UpperConstants(pairs)[k] == Wrapped(pairs[i].1) &&
      forall j :: i < j < |pairs| ==> pairs[j].0 != k)
    decreases |pairs|
  {
    var n := |pairs| - 1;
    var init := pairs[..n];
    if pairs[n].0 == k {
      assert UpperConstants(pairs)[k] == Wrapped(pairs[n].1);
    } else {
      assert k in UpperConstants(init);
      UpperConstantsLastWins(init, k);
      var i :| 0 <= i < |init| && init[i].0 == k && UpperConstants(init)[k] == Wrapped(init[i].1) &&
        (forall j :: i < j < |init| ==> init[j].0 != k);
      assert pairs[i] == init[i];
      assert forall j :: i < j < |pairs| ==> pairs[j].0 != k by {
        forall j | i < j < |pairs| ensures pairs[j].0 != k {
          if j < n { assert pairs[j] == init[j]; }
        }
      }
    }
  }

  /** What module discovery reports for one module, together with the
      outcome of reading and parsing the file at its "path", the first
      exception the docstring, type-information or constant extractor
      raises (if any), and the (name, value) pairs the constant extractor
      finds in the tree. */
  datatype ModuleData = ModuleData(
    fields: map<string, Value>,
    source: Result<seq<Stmt>, Exc>,
    extractorFailure: Option<Exc>,
    constantPairs: seq<(string, Value)>)

  /** The per-module record `analyze_package` collects. The module's
      docstrings and type information are not part of this model. */
  datatype ModuleInfo = ModuleInfo(
    name: Value,
    path: Value,
    body: seq<Stmt>,
    constants: map<string, map<string, Value>>,
    examples: seq<Utils.Example>,
    imports: Value,
    internalDeps: Value)

  /** `[]`, the default for a missing "internal_deps". */
  const EmptyList := Opaque("[]", false)

  /** `d[k]` on a module-data dictionary. */
  function Lookup(fields: map<string, Value>, k: string): (r: Result<Value, Exc>)
    ensures r.Success? <==> k in fields
    ensures r.Success? ==> r.value == fields[k]
    ensures r.Failure? ==> r.error == KeyError(k)
  {
    if k in fields then Success(fields[k]) else Failure(KeyError(k))
  }

  /** The module has a path, its file parsed and its tree passed validation. */
  predicate Validated(md: ModuleData)
  {
    "path" in md.fields && md.source.Success? && Utils.ValidateAst(Utils.WithBody(md.source.value)).Success?
  }

  /** One iteration of the module loop: look up the path, read and parse
      the file, validate the tree, then build the record, reading "name",
      running the extractors and reading "imports" in that order; the first
      failing step decides the error. */
  function AnalyzeModule(md: ModuleData): (r: Result<ModuleInfo, Exc>)
    ensures "path" !in md.fields ==> r == Failure(KeyError("path"))
    ensures "path" in md.fields && md.source.Failure? ==> r == Failure(md.source.error)
    ensures "path" in md.fields && md.source.Success? && Utils.ValidateAst(Utils.WithBody(md.source.value)).Failure? ==>
      r == Failure(Utils.ValidateAst(Utils.WithBody(md.source.value)).error)
    ensures Validated(md) && "name" !in md.fields ==> r == Failure(KeyError("name"))
    ensures Validated(md) && "name" in md.fields && md.extractorFailure.Some? ==> r == Failure(md.extractorFailure.value)
    ensures Validated(md) && "name" in md.fields && md.extractorFailure.None? && "imports" !in md.fields ==>
      r == Failure(KeyError("imports"))
    ensures r.Success? <==> Validated(md) && "name" in md.fields && md.extractorFailure.None? && "imports" in md.fields
    ensures r.Success? ==>
      && r.value.name == md.fields["name"]
      && r.value.path == md.fields["path"]
      && r.value.body == md.source.value
      && r.value.constants == UpperConstants(md.constantPairs)
      && r.value.imports == md.fields["imports"]
      && r.value.internalDeps == (if "internal_deps" in md.fields then md.fields["internal_deps"] else EmptyList)
  {
    var path :- Lookup(md.fields, "path");
    var body :- md.source;
    var _ :- Utils.ValidateAst(Utils.WithBody(body));
    var name :- Lookup(md.fields, "name");
    if md.extractorFailure.Some? then Failure(md.extractorFailure.value)
    else
      var imports :- Lookup(md.fields, "imports");
      var internalDeps := if "internal_deps" in md.fields then md.fields["internal_deps"] else EmptyList;
      Success(ModuleInfo(name, path, body, UpperConstants(md.constantPairs), Utils.FindUsageExamples(body), imports, internalDeps))
  }

  /** The module loop: every module analysed in order, stopping at the
      first failure. */
  function AnalyzeModules(mds: seq<ModuleData>): (r: Result<seq<ModuleInfo>, Exc>)
    ensures r.Success? <==> forall i :: 0 <= i < |mds| ==> AnalyzeModule(mds[i]).Success?
    ensures r.Success? ==> |r.value| == |mds| && forall i :: 0 <= i < |mds| ==> r.value[i] == AnalyzeModule(mds[i]).value
    ensures r.Failure? ==> exists i :: (0 <= i < |mds| && AnalyzeModule(mds[i]) == Failure(r.error) &&
      forall j :: 0 <= j < i ==> AnalyzeModule(mds[j]).Success?)
    decreases |mds|
  {
    if |mds| == 0 then Success([])
    else
      var first :- AnalyzeModule(mds[0]);
      var rest :- AnalyzeModules(mds[1..]);
      assert forall i :: 0 < i < |mds| ==> mds[1..][i - 1] == mds[i];
      Success([first] + rest)
  }

  /** What `analyze_package` returns. The source returns the metadata
      dictionary itself with its "modules" and "relationships" entries
      overwritten; here those two entries are fields of their own and
      `metadata` holds every other entry. */
  datatype PackageInfo = PackageInfo(metadata: map<string, Value>, modules: seq<ModuleInfo>, relationships: Relationships)

  /** The outer handler: a syntax error becomes a `ValueError` naming the
      package path, every other exception a `RuntimeError` carrying its
      message. */
  function WrapError(e: Exc, pathText: string): (r: Exc)
    ensures e.SyntaxError? <==> r.ValueError?
    ensures e.SyntaxError? ==> r.msg == "Syntax error in " + pathText + ": " + e.msg
    ensures !e.SyntaxError? ==> r == RuntimeError("Package analysis failed: " + Message(e))
    ensures StartsWith(r.msg, if e.SyntaxError? then "Syntax error in " else "Package analysis failed: ")
  {
    if e.SyntaxError? then ValueError("Syntax error in " + pathText + ": " + e.msg)
    else RuntimeError("Package analysis failed: " + Message(e))
  }

  /** The entries of the returned dictionary that analysis overwrites. */
  const ResultKeys := {"modules", "relationships"}

  const NoModulesMessage := "No valid modules found in package"

  /** `analyze_package` after the path is fixed. `pathText` renders the
      resolved path and `parts` are its components; `metadata` and
      `modules` are the outcomes of metadata fetching and module discovery;
      `relate` is the relationship analyser. */
  function AnalyzePackage(
    pathText: string,
    parts: seq<string>,
    metadata: Result<map<string, Value>, Exc>,
    modules: Result<seq<ModuleData>, Exc>,
    relate: (seq<ModuleInfo>, Value) -> Result<Relationships, Exc>): (r: Result<PackageInfo, Exc>)
    ensures metadata.Failure? ==> r == Failure(WrapError(metadata.error, pathText))
    ensures metadata.Success? && modules.Failure? ==> r == Failure(WrapError(modules.error, pathText))
    ensures metadata.Success? && modules == Success([]) ==>
      r == Failure(RuntimeError("Package analysis failed: " + NoModulesMessage))
    ensures metadata.Success? && modules.Success? && |modules.value| > 0 ==>
      var analysed := AnalyzeModules(modules.value);
      var name := PackageNameFor(metadata.value, parts);
      && (analysed.Failure? ==> r == Failure(WrapError(analysed.error, pathText)))
      && (analysed.Success? && relate(analysed.value, name).Failure? ==>
            r == Failure(WrapError(relate(analysed.value, name).error, pathText)))
      && (analysed.Success? && relate(analysed.value, name).Success? ==> r.Success?)
    ensures r.Success? ==>
      && metadata.Success? && modules.Success? && |modules.value| > 0
      && r.value.metadata == MetadataWithDefaults(metadata.value, parts) - ResultKeys
      && AnalyzeModules(modules.value) == Success(r.value.modules)
      && relate(r.value.modules, PackageNameFor(metadata.value, parts)) == Success(r.value.relationships)
  {
    match metadata
    case Failure(e) => Failure(WrapError(e, pathText))
    case Success(meta) =>
      var info := MetadataWithDefaults(meta, parts) - ResultKeys;
      match modules
      case Failure(e) => Failure(WrapError(e, pathText))
      case Success(mds) =>
        if |mds| == 0 then Failure(WrapError(ValueError(NoModulesMessage), pathText))
        else
          match AnalyzeModules(mds)
          case Failure(e) => Failure(WrapError(e, pathText))
          case Success(infos) =>
            match relate(infos, PackageNameFor(meta, parts))
            case Failure(e) => Failure(WrapError(e, pathText))
            case Success(rel) => Success(PackageInfo(info, infos, rel))
  }

  /** No exception leaves `analyze_package` unwrapped: every failure is a
      `ValueError` about a syntax error or a `RuntimeError` about the failed
      analysis. */
  lemma AnalysisFailuresAreWrapped(
    pathText: string,
    parts: seq<string>,
    metadata: Result<map<string, Value>, Exc>,
    modules: Result<seq<ModuleData>, Exc>,
    relate: (seq<ModuleInfo>, Value) -> Result<Relationships, Exc>)
    ensures var r := AnalyzePackage(pathText, parts, metadata, modules, relate);
      r.Failure? ==>
        (r.error.ValueError? && StartsWith(r.error.msg, "Syntax error in ")) ||
        (r.error.RuntimeError? && StartsWith(r.error.msg, "Package analysis failed: "))
  {
  }

  /** The module loop reports the failure of the first failing module. */
  lemma {:induction false} FirstFailingModuleDecides(mds: seq<ModuleData>, i: int)
    requires 0 <= i < |mds| && AnalyzeModule(mds[i]).Failure?
    requires forall j :: 0 <= j < i ==> AnalyzeModule(mds[j]).Success?
    ensures AnalyzeModules(mds) == Failure(AnalyzeModule(mds[i]).error)
    decreases i
  {
    if i > 0 {
      assert forall j :: 0 <= j < i - 1 ==> mds[1..][j] == mds[j + 1];
      FirstFailingModuleDecides(mds[1..], i - 1);
    }
  }

  /** A module whose tree has no definition fails the whole analysis when
      every module before it succeeds, with the validation message wrapped. */
  lemma DegenerateModuleFailsAnalysis(
    pathText: string,
    parts: seq<string>,
    meta: map<string, Value>,
    mds: seq<ModuleData>,
    relate: (seq<ModuleInfo>, Value) -> Result<Relationships, Exc>,
    i: int)
    requires 0 <= i < |mds|
    requires forall j :: 0 <= j < i ==> AnalyzeModule(mds[j]).Success?
    requires "path" in mds[i].fields && mds[i].source.Success?
    requires forall k :: 0 <= k < |mds[i].source.value| ==> !Utils.IsDefinition(mds[i].source.value[k])
    ensures AnalyzePackage(pathText, parts, Success(meta), Success(mds), relate) ==
      Failure(RuntimeError("Package analysis failed: " + "Empty or invalid module AST structure"))
  {
    assert AnalyzeModule(mds[i]) == Failure(ValueError("Empty or invalid module AST structure"));
    FirstFailingModuleDecides(mds, i);
  }
}
