/** The string-building helpers of the MyST writer
    (src/chewdoc/formatters/myst_writer.py): import sections, dependency
    nodes, usage examples, signature normalisation, module descriptions,
    code-structure outlines, and the validation and defaults at the start of
    `generate`. File writing and the page templates are not modelled. */
module MystWriter {
  import opened Results
  import opened Strings
  import opened Sorting
  import opened Records
  import opened PyAst
  import Utils

  // ---------------------------------------------------------------------------
  // generate: validation and defaults
  // ---------------------------------------------------------------------------

  /** The keys `generate` fills in when they are absent. */
  const DefaultedKeys := {"name", "package", "version", "author", "license", "python_requires"}

  /** The default `generate` gives an absent key, once "name" is settled. */
  function DefaultFor(k: string, name: Value): Value
  {
    if k == "name" then Str("Unknown Package")
    else if k == "package" then name
    else if k == "version" then Str("0.0.0")
    else if k == "author" then Str("Unknown")
    else if k == "license" then Str("Not specified")
    else Str(">=3.6")
  }

  /** The checks and `setdefault` calls at the top of `generate`: empty data
      or data without "modules" is rejected; absent keys get defaults, and
      "package" defaults to the (possibly defaulted) "name". */
  function GenerateDefaults(data: map<string, Value>): (r: Result<map<string, Value>, Exc>)
    ensures r.Failure? <==> |data| == 0 || "modules" !in data
    ensures r.Failure? ==> r.error == ValueError("Invalid package data")
    ensures r.Success? ==> r.value.Keys == data.Keys + DefaultedKeys
    ensures r.Success? ==> forall k :: k in data ==> r.value[k] == data[k]
    ensures r.Success? ==> r.value["name"] == if "name" in data then data["name"] else Str("Unknown Package")
    ensures r.Success? ==> r.value["package"] == if "package" in data then data["package"] else r.value["name"]
    ensures r.Success? ==> r.value["version"] == if "version" in data then data["version"] else Str("0.0.0")
    ensures r.Success? ==> r.value["author"] == if "author" in data then data["author"] else Str("Unknown")
    ensures r.Success? ==> r.value["license"] == if "license" in data then data["license"] else Str("Not specified")
    ensures r.Success? ==>
      r.value["python_requires"] == if "python_requires" in data then data["python_requires"] else Str(">=3.6")
  {
    if |data| == 0 || "modules" !in data then Failure(ValueError("Invalid package data"))
    else
      var name := if "name" in data then data["name"] else Str("Unknown Package");
      Success(map k | k in data.Keys + DefaultedKeys :: if k in data then data[k] else DefaultFor(k, name))
  }

  // ---------------------------------------------------------------------------
  // Imports
  // ---------------------------------------------------------------------------

  /** An entry of a module's import list: a bare string, or a record whose
      "name", "full_path" and "source" keys may each be missing. */
  datatype ImportItem =
    | PlainImport(path: string)
    | ImportRecord(name: Option<string>, fullPath: Option<string>, source: Option<string>)

  datatype Category = Stdlib | Internal | External

  /** The writer's rule: internal by package prefix, then "no dot" means
      standard library, else external. */
  function Classify(fullPath: string, packageName: string): (c: Category)
    ensures c == Internal <==> StartsWith(fullPath, packageName + ".")
    ensures c == Stdlib <==> !StartsWith(fullPath, packageName + ".") && '.' !in fullPath
    ensures c == External <==> !StartsWith(fullPath, packageName + ".") && '.' in fullPath
  {
    if StartsWith(fullPath, packageName + ".") then Internal
    else if '.' !in fullPath then Stdlib
    else External
  }

  /** One rendered import and the section it belongs to. */
  datatype ImportLine = ImportLine(category: Category, text: string)

  /** "`name`", followed by " from `source`" when the source is non-empty. */
  function EntryText(name: string, source: Option<string>): string
  {
    "`" + name + "`" + (if source.Some? && source.value != "" then " from `" + source.value + "`" else "")
  }

  /** The rendering of one import, or the `KeyError` it raises. A bare
      string is read as a record with that string as name and full path
      and an empty source. */
  function ImportLineOf(imp: ImportItem, packageName: string): (r: Result<ImportLine, Exc>)
    ensures r.Failure? <==> imp.ImportRecord? && (imp.name.None? || imp.fullPath.None?)
    ensures r.Failure? ==> r.error == if imp.name.None? then KeyError("name") else KeyError("full_path")
    ensures imp.ImportRecord? && r.Success? ==>
      && r.value.category == Classify(imp.fullPath.value, packageName)
      && (r.value.category == Internal ==>
            r.value.text == "- [[" + imp.fullPath.value + "|" + EntryText(imp.name.value, imp.source) + "]]")
      && (r.value.category != Internal ==> r.value.text == "- " + EntryText(imp.name.value, imp.source))
    ensures imp.PlainImport? ==> r.Success? && r.value.category == Classify(imp.path, packageName)
  {
    var rec := if imp.PlainImport? then ImportRecord(Some(imp.path), Some(imp.path), Some("")) else imp;
    if rec.name.None? then Failure(KeyError("name"))
    else if rec.fullPath.None? then Failure(KeyError("full_path"))
    else
      var entry := EntryText(rec.name.value, rec.source);
      var fullPath := rec.fullPath.value;
      var category := Classify(fullPath, packageName);
      if category == Internal then Success(ImportLine(Internal, "- [[" + fullPath + "|" + entry + "]]"))
      else Success(ImportLine(category, "- " + entry))
  }

  /** A bare string import renders exactly as a record with name and full
      path equal to the string and no source, so it never gets a " from "
      part. */
  lemma PlainImportIsSourcelessRecord(s: string, packageName: string)
    ensures ImportLineOf(PlainImport(s), packageName) == ImportLineOf(ImportRecord(Some(s), Some(s), None), packageName)
    ensures ImportLineOf(PlainImport(s), packageName).Success?
    ensures ImportLineOf(PlainImport(s), packageName).value.text ==
      if StartsWith(s, packageName + ".") then "- [[" + s + "|`" + s + "`]]" else "- `" + s + "`"
  {
  }

  /** The error of the first import that lacks a key, in list order. */
  function FirstImportError(imps: seq<ImportItem>, packageName: string): (r: Option<Exc>)
    ensures r.None? <==> forall i :: 0 <= i < |imps| ==> ImportLineOf(imps[i], packageName).Success?
    ensures r.Some? ==> exists i :: (0 <= i < |imps| && ImportLineOf(imps[i], packageName) == Failure(r.value) &&
      forall j :: 0 <= j < i ==> ImportLineOf(imps[j], packageName).Success?)
  {
    if |imps| == 0 then None
    else
      var head := ImportLineOf(imps[0], packageName);
      assert forall i :: 0 < i < |imps| ==> imps[i] == imps[1..][i - 1];
      if head.Failure? then
        assert ImportLineOf(imps[0], packageName) == Failure(head.error);
        Some(head.error)
      else
        var rest := FirstImportError(imps[1..], packageName);
        if rest.Some? then
          FirstFailureShifts(imps, packageName, rest.value);
          rest
        else
          rest
  }

  /** A first failure in `imps[1..]` is, one index later, a first failure in `imps` when `imps[0]` renders. */
  lemma FirstFailureShifts(imps: seq<ImportItem>, packageName: string, e: Exc)
    requires |imps| > 0 && ImportLineOf(imps[0], packageName).Success?
    requires exists i :: (0 <= i < |imps[1..]| && ImportLineOf(imps[1..][i], packageName) == Failure(e) &&
      forall j :: 0 <= j < i ==> ImportLineOf(imps[1..][j], packageName).Success?)
    ensures exists i :: (0 <= i < |imps| && ImportLineOf(imps[i], packageName) == Failure(e) &&
      forall j :: 0 <= j < i ==> ImportLineOf(imps[j], packageName).Success?)
  {
    var i :| (0 <= i < |imps[1..]| && ImportLineOf(imps[1..][i], packageName) == Failure(e) &&
      forall j :: 0 <= j < i ==> ImportLineOf(imps[1..][j], packageName).Success?);
    assert forall j :: 0 < j <= i ==> imps[j] == imps[1..][j - 1];
    assert ImportLineOf(imps[i + 1], packageName) == Failure(e);
  }

  /** The text of an import when it belongs to category `c`. */
  function LinesIn(packageName: string, c: Category): ImportItem -> seq<string>
  {
    imp =>
      var l := ImportLineOf(imp, packageName);
      if l.Success? && l.value.category == c then [l.value.text] else []
  }

  /** The lines of category `c`, in input order. */
  function CategoryLines(imps: seq<ImportItem>, packageName: string, c: Category): seq<string>
  {
    FlatMap(imps, LinesIn(packageName, c))
  }

  /** A titled section of sorted lines, or nothing when there are none. */
  function Section(title: string, lines: seq<string>): (r: Option<string>)
    ensures r.Some? <==> |lines| > 0
    ensures r.Some? ==> StartsWith(r.value, title + "\n") && r.value[|title| + 1..] == Join(Sort(lines), "\n")
  {
    if |lines| == 0 then None else Some(title + "\n" + Join(Sort(lines), "\n"))
  }

  /** The non-empty sections in the order standard library, internal, external. */
  function ImportSections(imps: seq<ImportItem>, packageName: string): seq<string>
  {
    Utils.Present([
      Section("### Standard Library", CategoryLines(imps, packageName, Stdlib)),
      Section("### Internal Dependencies", CategoryLines(imps, packageName, Internal)),
      Section("### External Dependencies", CategoryLines(imps, packageName, External))])
  }

  /** Every well-formed import lands in exactly one section. */
  lemma {:induction false} EveryImportInOneCategory(imps: seq<ImportItem>, packageName: string)
    requires FirstImportError(imps, packageName).None?
    ensures |CategoryLines(imps, packageName, Stdlib)| + |CategoryLines(imps, packageName, Internal)|
          + |CategoryLines(imps, packageName, External)| == |imps|
    decreases |imps|
  {
    if |imps| > 0 {
      EveryImportInOneCategory(imps[1..], packageName);
    }
  }

  /** `_format_imports`: "No imports" for an empty list, otherwise the
      non-empty sections joined by blank lines; a missing key raises. */
  function FormatImports(imps: seq<ImportItem>, packageName: string): (r: Result<string, Exc>)
    ensures r.Success? <==> forall i :: 0 <= i < |imps| ==> ImportLineOf(imps[i], packageName).Success?
    ensures r.Failure? ==> exists i :: (0 <= i < |imps| && ImportLineOf(imps[i], packageName) == Failure(r.error) &&
      forall j :: 0 <= j < i ==> ImportLineOf(imps[j], packageName).Success?)
    ensures |imps| == 0 ==> r == Success("No imports")
    ensures |imps| > 0 && r.Success? ==>
      r.value == Join(ImportSections(imps, packageName), "\n\n") && |r.value| > 0 && r.value[0] == '#'
  {
    match FirstImportError(imps, packageName)
    case Some(e) =>
      Failure(e)
    case None =>
      var sections := ImportSections(imps, packageName);
      ImportSectionsHeaded(imps, packageName);
      ImportSectionsNonEmpty(imps, packageName);
      if |sections| == 0 then Success("No imports")
      else
        JoinAsPrefixEach(sections, "\n\n");
        Success(Join(sections, "\n\n"))
  }

  /** An absent section, or one that starts with a "#" heading. */
  predicate Headed(section: Option<string>)
  {
    section.Some? ==> |section.value| > 0 && section.value[0] == '#'
  }

  lemma SectionHeading(title: string, lines: seq<string>)
    requires |title| > 0 && title[0] == '#'
    ensures Section(title, lines).Some? <==> |lines| > 0
    ensures Headed(Section(title, lines))
  {
  }

  /** The three optional sections of a list of imports. */
  function SectionParts(imps: seq<ImportItem>, packageName: string): (r: seq<Option<string>>)
    ensures |r| == 3
    ensures ImportSections(imps, packageName) == Utils.Present(r)
    ensures Headed(r[0]) && Headed(r[1]) && Headed(r[2])
    ensures r[0].Some? <==> |CategoryLines(imps, packageName, Stdlib)| > 0
    ensures r[1].Some? <==> |CategoryLines(imps, packageName, Internal)| > 0
    ensures r[2].Some? <==> |CategoryLines(imps, packageName, External)| > 0
  {
    var std := CategoryLines(imps, packageName, Stdlib);
    var internal := CategoryLines(imps, packageName, Internal);
    var ext := CategoryLines(imps, packageName, External);
    SectionHeading("### Standard Library", std);
    SectionHeading("### Internal Dependencies", internal);
    SectionHeading("### External Dependencies", ext);
    [Section("### Standard Library", std),
     Section("### Internal Dependencies", internal),
     Section("### External Dependencies", ext)]
  }

  /** Keeping the present sections keeps their headings. */
  lemma PresentHeaded(parts: seq<Option<string>>)
    requires forall i :: 0 <= i < |parts| ==> Headed(parts[i])
    ensures forall j :: 0 <= j < |Utils.Present(parts)| ==>
      |Utils.Present(parts)[j]| > 0 && Utils.Present(parts)[j][0] == '#'
  {
    var sections := Utils.Present(parts);
    forall j | 0 <= j < |sections| ensures |sections[j]| > 0 && sections[j][0] == '#' {
      var i :| 0 <= i < |parts| && parts[i] == Some(sections[j]);
      assert Headed(parts[i]);
    }
  }

  /** Every section starts with its "#" heading. */
  lemma ImportSectionsHeaded(imps: seq<ImportItem>, packageName: string)
    ensures forall j :: 0 <= j < |ImportSections(imps, packageName)| ==>
      |ImportSections(imps, packageName)[j]| > 0 && ImportSections(imps, packageName)[j][0] == '#'
  {
    PresentHeaded(SectionParts(imps, packageName));
  }

  /** Well-formed imports, when there are any, produce at least one section. */
  lemma ImportSectionsNonEmpty(imps: seq<ImportItem>, packageName: string)
    requires FirstImportError(imps, packageName).None?
    ensures |imps| > 0 ==> |ImportSections(imps, packageName)| > 0
  {
    var parts := SectionParts(imps, packageName);
    EveryImportInOneCategory(imps, packageName);
    if |imps| > 0 {
      assert !parts[0].None? || !parts[1].None? || !parts[2].None?;
    }
  }


  /** The import that fails first decides the error, whatever follows it. */
  lemma {:induction false} FirstFailingImportDecides(imps: seq<ImportItem>, packageName: string, i: int)
    requires 0 <= i < |imps| && ImportLineOf(imps[i], packageName).Failure?
    requires forall j :: 0 <= j < i ==> ImportLineOf(imps[j], packageName).Success?
    ensures FirstImportError(imps, packageName) == Some(ImportLineOf(imps[i], packageName).error)
    decreases i
  {
    if i > 0 {
      assert forall j :: 0 <= j < i - 1 ==> imps[1..][j] == imps[j + 1];
      FirstFailingImportDecides(imps[1..], packageName, i - 1);
    }
  }


  /** One section depends only on the multiset of the imports. */
  lemma SectionPermutationInvariant(a: seq<ImportItem>, b: seq<ImportItem>, packageName: string, c: Category, title: string)
    requires multiset(a) == multiset(b)
    ensures Section(title, CategoryLines(a, packageName, c)) == Section(title, CategoryLines(b, packageName, c))
  {
    var la, lb := CategoryLines(a, packageName, c), CategoryLines(b, packageName, c);
    FlatMapPermutation(a, b, LinesIn(packageName, c));
    SortPermutationInvariant(la, lb);
    assert |la| == |multiset(la)| == |multiset(lb)| == |lb|;
  }

  /** Every import of a reordering renders when every original one does. */
  lemma WellFormedFrom(a: seq<ImportItem>, b: seq<ImportItem>, packageName: string)
    requires multiset(a) == multiset(b)
    requires FirstImportError(b, packageName).None?
    ensures FirstImportError(a, packageName).None?
  {
    forall i | 0 <= i < |a| ensures ImportLineOf(a[i], packageName).Success? {
      assert a[i] in multiset(b);
      var j :| 0 <= j < |b| && b[j] == a[i];
    }
  }

  /** Whether some import lacks a key does not depend on their order. */
  lemma WellFormedPermutationInvariant(a: seq<ImportItem>, b: seq<ImportItem>, packageName: string)
    requires multiset(a) == multiset(b)
    ensures FirstImportError(a, packageName).None? <==> FirstImportError(b, packageName).None?
  {
    if FirstImportError(b, packageName).None? {
      WellFormedFrom(a, b, packageName);
    }
    if FirstImportError(a, packageName).None? {
      WellFormedFrom(b, a, packageName);
    }
  }

  /** Reordering the imports does not change the rendered text: each
      section is sorted. Whether a key is missing is order-independent too. */
  lemma ImportsPermutationInvariant(a: seq<ImportItem>, b: seq<ImportItem>, packageName: string)
    requires multiset(a) == multiset(b)
    ensures FormatImports(a, packageName).Success? <==> FormatImports(b, packageName).Success?
    ensures FormatImports(a, packageName).Success? ==> FormatImports(a, packageName) == FormatImports(b, packageName)
  {
    WellFormedPermutationInvariant(a, b, packageName);
    SectionPermutationInvariant(a, b, packageName, Stdlib, "### Standard Library");
    SectionPermutationInvariant(a, b, packageName, Internal, "### Internal Dependencies");
    SectionPermutationInvariant(a, b, packageName, External, "### External Dependencies");
    assert ImportSections(a, packageName) == ImportSections(b, packageName);
    assert |a| == |multiset(a)| == |multiset(b)| == |b|;
  }

  // ---------------------------------------------------------------------------
  // Dependencies
  // ---------------------------------------------------------------------------

  /** `s.replace(old, new)` for single characters. */
  function ReplaceChar(s: string, target: char, replacement: char): (r: string)
    ensures |r| == |s|
    ensures forall i :: 0 <= i < |s| ==> r[i] == if s[i] == target then replacement else s[i]
  {
    if |s| == 0 then ""
    else [if s[0] == target then replacement else s[0]] + ReplaceChar(s[1..], target, replacement)
  }

  /** `_clean_node_name`: dots and hyphens become underscores, nothing else changes. */
  function CleanNodeName(name: string): (r: string)
    ensures |r| == |name|
    ensures forall i :: 0 <= i < |name| ==> r[i] == if name[i] == '.' || name[i] == '-' then '_' else name[i]
    ensures '.' !in r && '-' !in r
  {
    ReplaceChar(ReplaceChar(name, '.', '_'), '-', '_')
  }

  lemma CleanNodeNameIdempotent(name: string)
    ensures CleanNodeName(CleanNodeName(name)) == CleanNodeName(name)
  {
  }

  /** Dependency `i` is the first one with its cleaned name. */
  predicate IsFirstOccurrence(deps: seq<string>, i: int)
    requires 0 <= i < |deps|
  {
    forall k :: 0 <= k < i ==> CleanNodeName(deps[k]) != CleanNodeName(deps[i])
  }

  /** Reference selection: the dependencies that are the first with their
      cleaned name, in input order. */
  function FirstOccurrences(deps: seq<string>): seq<string>
  {
    if |deps| == 0 then []
    else FirstOccurrences(deps[..|deps| - 1]) + (if IsFirstOccurrence(deps, |deps| - 1) then [deps[|deps| - 1]] else [])
  }

  function CleanNames(xs: seq<string>): set<string>
  {
    set i | 0 <= i < |xs| :: CleanNodeName(xs[i])
  }

  lemma CleanNamesSnoc(xs: seq<string>, y: string)
    ensures CleanNames(xs + [y]) == CleanNames(xs) + {CleanNodeName(y)}
  {
    var ys := xs + [y];
    forall x | x in CleanNames(xs) ensures x in CleanNames(ys) {
      var i :| 0 <= i < |xs| && x == CleanNodeName(xs[i]);
      assert ys[i] == xs[i];
    }
    assert ys[|xs|] == y;
  }

  /** A dependency is the first with its cleaned name exactly when no earlier
      dependency has that cleaned name. */
  lemma FirstOccurrenceBySeen(deps: seq<string>, i: int)
    requires 0 <= i < |deps|
    ensures IsFirstOccurrence(deps, i) <==> CleanNodeName(deps[i]) !in CleanNames(deps[..i])
  {
    if !IsFirstOccurrence(deps, i) {
      var k :| 0 <= k < i && CleanNodeName(deps[k]) == CleanNodeName(deps[i]);
      assert deps[..i][k] == deps[k];
    }
  }

  /** The kept dependencies cover exactly the cleaned names of the input. */
  lemma {:induction false} FirstOccurrencesCover(deps: seq<string>)
    ensures CleanNames(FirstOccurrences(deps)) == CleanNames(deps)
    decreases |deps|
  {
    if |deps| > 0 {
      var init := deps[..|deps| - 1];
      var last := deps[|deps| - 1];
      FirstOccurrencesCover(init);
      assert deps == init + [last];
      CleanNamesSnoc(init, last);
      FirstOccurrenceBySeen(deps, |deps| - 1);
      var fi := FirstOccurrences(init);
      if IsFirstOccurrence(deps, |deps| - 1) {
        assert FirstOccurrences(deps) == fi + [last];
        CleanNamesSnoc(fi, last);
      } else {
        assert FirstOccurrences(deps) == fi;
      }
    }
  }

  /** The kept dependencies come from the input. */
  lemma {:induction false} FirstOccurrencesFromInput(deps: seq<string>)
    ensures forall x :: x in FirstOccurrences(deps) ==> x in deps
    decreases |deps|
  {
    if |deps| > 0 {
      var init := deps[..|deps| - 1];
      FirstOccurrencesFromInput(init);
      assert forall x :: x in init ==> x in deps;
    }
  }

  /** No two kept dependencies share a cleaned name. */
  lemma {:induction false} FirstOccurrencesDistinct(deps: seq<string>)
    ensures forall i, j :: 0 <= i < j < |FirstOccurrences(deps)| ==>
      CleanNodeName(FirstOccurrences(deps)[i]) != CleanNodeName(FirstOccurrences(deps)[j])
    decreases |deps|
  {
    if |deps| > 0 {
      var init := deps[..|deps| - 1];
      var last := deps[|deps| - 1];
      FirstOccurrencesDistinct(init);
      FirstOccurrencesCover(init);
      FirstOccurrenceBySeen(deps, |deps| - 1);
      var fi := FirstOccurrences(init);
      if IsFirstOccurrence(deps, |deps| - 1) {
        forall j | 0 <= j < |fi| ensures CleanNodeName(fi[j]) != CleanNodeName(last) {
          assert CleanNodeName(fi[j]) in CleanNames(fi);
        }
      }
    }
  }

  /** A Mermaid node: the cleaned name with the original name as its label. */
  function Connection(dep: string): string
  {
    CleanNodeName(dep) + "[" + dep + "]"
  }

  /** The connections of a list of dependencies, in order. */
  function ConnectionsOf(xs: seq<string>): (r: seq<string>)
    ensures |r| == |xs|
    ensures forall i :: 0 <= i < |xs| ==> r[i] == Connection(xs[i])
  {
    if |xs| == 0 then [] else ConnectionsOf(xs[..|xs| - 1]) + [Connection(xs[|xs| - 1])]
  }

  /** One more dependency is kept exactly when its cleaned name has not
      been seen. */
  lemma FirstOccurrencesStep(deps: seq<string>, i: int)
    requires 0 <= i < |deps|
    ensures FirstOccurrences(deps[..i + 1]) ==
      FirstOccurrences(deps[..i]) + (if CleanNodeName(deps[i]) !in CleanNames(deps[..i]) then [deps[i]] else [])
  {
    var prefix := deps[..i + 1];
    assert prefix[..i] == deps[..i];
    FirstOccurrenceBySeen(prefix, i);
  }

  /** One more dependency adds its connection exactly when its cleaned
      name has not been seen. */
  lemma ConnectionsStep(deps: seq<string>, i: int)
    requires 0 <= i < |deps|
    ensures ConnectionsOf(FirstOccurrences(deps[..i + 1])) ==
      ConnectionsOf(FirstOccurrences(deps[..i])) +
      (if CleanNodeName(deps[i]) !in CleanNames(deps[..i]) then [Connection(deps[i])] else [])
  {
    FirstOccurrencesStep(deps, i);
    var before := FirstOccurrences(deps[..i]);
    if CleanNodeName(deps[i]) !in CleanNames(deps[..i]) {
      assert (before + [deps[i]])[..|before|] == before;
    }
  }

  /** One more dependency adds its cleaned name to the seen names, which
      grow only when the name is new. */
  lemma SeenStep(deps: seq<string>, i: int)
    requires 0 <= i < |deps|
    ensures CleanNames(deps[..i + 1]) ==
      if CleanNodeName(deps[i]) in CleanNames(deps[..i]) then CleanNames(deps[..i])
      else CleanNames(deps[..i]) + {CleanNodeName(deps[i])}
  {
    assert deps[..i + 1] == deps[..i] + [deps[i]];
    CleanNamesSnoc(deps[..i], deps[i]);
  }

  /** The dedup loop of `_format_dependencies`, with its `seen` set of cleaned names. */
  method Connections(deps: seq<string>) returns (connections: seq<string>)
    ensures connections == ConnectionsOf(FirstOccurrences(deps))
  {
    connections := [];
    var seen: set<string> := {};
    var i := 0;
    while i < |deps|
      invariant 0 <= i <= |deps|
      invariant connections == ConnectionsOf(FirstOccurrences(deps[..i]))
      invariant seen == CleanNames(deps[..i])
    {
      var dep := deps[i];
      var cleanDep := CleanNodeName(dep);
      ConnectionsStep(deps, i);
      SeenStep(deps, i);
      if cleanDep !in seen {
        connections := connections + [Connection(dep)];
        seen := seen + {cleanDep};
      }
      i := i + 1;
    }
    assert deps[..i] == deps;
  }

  const MaxDependencyNodes := 10

  /** The nodes drawn: the first ten distinct dependencies, as connections. */
  function ShownConnections(deps: seq<string>): (r: seq<string>)
    ensures |r| == if |FirstOccurrences(deps)| < MaxDependencyNodes then |FirstOccurrences(deps)| else MaxDependencyNodes
    ensures forall i :: 0 <= i < |r| ==> r[i] == Connection(FirstOccurrences(deps)[i])
  {
    var firsts := FirstOccurrences(deps);
    var n := if |firsts| < MaxDependencyNodes then |firsts| else MaxDependencyNodes;
    seq(n, i requires 0 <= i < n => Connection(firsts[i]))
  }

  /** `_format_dependencies`: a fixed sentence for no dependencies, otherwise
      the first ten distinct nodes joined by a newline and indent. */
  method FormatDependencies(deps: seq<string>) returns (r: string)
    ensures |deps| == 0 ==> r == "No internal dependencies"
    ensures |deps| > 0 ==> r == Join(ShownConnections(deps), "\n    ")
  {
    if |deps| == 0 {
      return "No internal dependencies";
    }
    var connections := Connections(deps);
    var shown := if |connections| <= MaxDependencyNodes then connections else connections[..MaxDependencyNodes];
    assert shown == ShownConnections(deps);
    r := Join(shown, "\n    ");
  }

  // ---------------------------------------------------------------------------
  // Usage examples
  // ---------------------------------------------------------------------------

  predicate IsDoctest(ex: Utils.Example)
  {
    ex.kind == Some("doctest")
  }

  predicate IsPytest(ex: Utils.Example)
  {
    ex.kind == Some("pytest")
  }

  /** A fenced Python code block around `content`. */
  function CodeFence(content: string): string
  {
    "```python\n" + content + "\n```"
  }

  /** The block of one example, nothing for an example of another type, or
      the `KeyError` for the first key it lacks. */
  function ExampleBlock(ex: Utils.Example): (r: Result<Option<string>, Exc>)
    ensures r.Success? && r.value.Some? <==> (IsDoctest(ex) && ex.content.Some?) || (IsPytest(ex) && ex.name.Some? && ex.content.Some?)
    ensures r.Success? && r.value.None? <==> ex.kind.Some? && !IsDoctest(ex) && !IsPytest(ex)
    ensures ex.kind.None? ==> r == Failure(KeyError("type"))
    ensures IsDoctest(ex) && ex.content.None? ==> r == Failure(KeyError("content"))
    ensures IsDoctest(ex) && ex.content.Some? ==> r == Success(Some(CodeFence(ex.content.value)))
    ensures IsPytest(ex) && ex.name.None? ==> r == Failure(KeyError("name"))
    ensures IsPytest(ex) && ex.name.Some? && ex.content.None? ==> r == Failure(KeyError("content"))
    ensures IsPytest(ex) && ex.name.Some? && ex.content.Some? ==>
      r == Success(Some("**Test case**: `" + ex.name.value + "`\n" + CodeFence(ex.content.value)))
  {
    if ex.kind.None? then Failure(KeyError("type"))
    else if IsDoctest(ex) then
      if ex.content.None? then Failure(KeyError("content"))
      else Success(Some(CodeFence(ex.content.value)))
    else if IsPytest(ex) then
      if ex.name.None? then Failure(KeyError("name"))
      else if ex.content.None? then Failure(KeyError("content"))
      else Success(Some("**Test case**: `" + ex.name.value + "`\n" + CodeFence(ex.content.value)))
    else Success(None)
  }

  /** The blocks one example contributes: its block, none, or its error. */
  function BlockList(b: Result<Option<string>, Exc>): Result<seq<string>, Exc>
  {
    match b
    case Failure(e) => Failure(e)
    case Success(block) => Success(if block.Some? then [block.value] else [])
  }

  /** How many examples render a block. */
  function RenderedCount(examples: seq<Utils.Example>): nat
  {
    if |examples| == 0 then 0
    else (if IsDoctest(examples[0]) || IsPytest(examples[0]) then 1 else 0) + RenderedCount(examples[1..])
  }

  /** The blocks of all examples in order, or the first error. */
  function ExampleBlocks(examples: seq<Utils.Example>): (r: Result<seq<string>, Exc>)
    ensures r.Success? <==> forall i :: 0 <= i < |examples| ==> ExampleBlock(examples[i]).Success?
    ensures r.Success? ==> |r.value| == RenderedCount(examples)
    ensures r.Failure? ==> exists i :: (0 <= i < |examples| && ExampleBlock(examples[i]) == Failure(r.error) &&
      forall j :: 0 <= j < i ==> ExampleBlock(examples[j]).Success?)
  {
    if |examples| == 0 then Success([])
    else
      assert forall i :: 0 < i < |examples| ==> examples[i] == examples[1..][i - 1];
      match ExampleBlock(examples[0])
      case Failure(e) =>
        assert ExampleBlock(examples[0]) == Failure(e);
        Failure(e)
      case Success(block) =>
        match ExampleBlocks(examples[1..])
        case Failure(e) =>
          FirstBlockFailureShifts(examples, e);
          Failure(e)
        case Success(rest) => Success((if block.Some? then [block.value] else []) + rest)
  }

  /** A first failure in `examples[1..]` is, one index later, a first
      failure in `examples` when `examples[0]` renders. */
  lemma FirstBlockFailureShifts(examples: seq<Utils.Example>, e: Exc)
    requires |examples| > 0 && ExampleBlock(examples[0]).Success?
    requires exists i :: (0 <= i < |examples[1..]| && ExampleBlock(examples[1..][i]) == Failure(e) &&
      forall j :: 0 <= j < i ==> ExampleBlock(examples[1..][j]).Success?)
    ensures exists i :: (0 <= i < |examples| && ExampleBlock(examples[i]) == Failure(e) &&
      forall j :: 0 <= j < i ==> ExampleBlock(examples[j]).Success?)
  {
    var i :| (0 <= i < |examples[1..]| && ExampleBlock(examples[1..][i]) == Failure(e) &&
      forall j :: 0 <= j < i ==> ExampleBlock(examples[1..][j]).Success?);
    assert forall j :: 0 < j <= i ==> examples[j] == examples[1..][j - 1];
    assert ExampleBlock(examples[i + 1]) == Failure(e);
  }

  /** Blocks of two runs of examples: the first error, else both block lists. */
  function ChainBlocks(a: Result<seq<string>, Exc>, b: Result<seq<string>, Exc>): Result<seq<string>, Exc>
  {
    if a.Failure? then a else if b.Failure? then b else Success(a.value + b.value)
  }

  /** Blocks of a concatenation chain the blocks of its parts. */
  lemma {:induction false} ExampleBlocksAppend(xs: seq<Utils.Example>, ys: seq<Utils.Example>)
    ensures ExampleBlocks(xs + ys) == ChainBlocks(ExampleBlocks(xs), ExampleBlocks(ys))
    ensures |xs| == 1 ==> ExampleBlocks(xs) == BlockList(ExampleBlock(xs[0]))
    decreases |xs|
  {
    if |xs| == 1 {
      assert xs[1..] == [];
      var head := ExampleBlock(xs[0]);
      assert head.Success? ==>
        ((if head.value.Some? then [head.value.value] else []) + [] == (if head.value.Some? then [head.value.value] else []));
    }
    if |xs| == 0 {
      assert xs + ys == ys;
      assert ExampleBlocks(ys).Success? ==> [] + ExampleBlocks(ys).value == ExampleBlocks(ys).value;
    } else {
      assert (xs + ys)[1..] == xs[1..] + ys;
      assert (xs + ys)[0] == xs[0];
      ExampleBlocksAppend(xs[1..], ys);
      var head := ExampleBlock(xs[0]);
      if head.Success? {
        var pre := if head.value.Some? then [head.value.value] else [];
        var tailXs := ExampleBlocks(xs[1..]);
        if tailXs.Success? && ExampleBlocks(ys).Success? {
          assert ExampleBlocks(xs).value == pre + tailXs.value;
          assert pre + (tailXs.value + ExampleBlocks(ys).value) == (pre + tailXs.value) + ExampleBlocks(ys).value;
        }
      }
    }
  }

  /** `_format_usage_examples`. */
  function FormatUsageExamples(examples: seq<Utils.Example>): (r: Result<string, Exc>)
    ensures |examples| == 0 ==> r == Success("No usage examples found")
    ensures |examples| > 0 ==> (r.Success? <==> forall i :: 0 <= i < |examples| ==> ExampleBlock(examples[i]).Success?)
    ensures |examples| > 0 && r.Success? ==>
      r.value == Join(["## Usage Examples"] + ExampleBlocks(examples).value, "\n\n")
  {
    if |examples| == 0 then Success("No usage examples found")
    else
      match ExampleBlocks(examples)
      case Failure(e) => Failure(e)
      case Success(blocks) => Success(Join(["## Usage Examples"] + blocks, "\n\n"))
  }

  /** An example of any type other than doctest or pytest is skipped
      silently, wherever it stands in a non-empty list. */
  lemma OtherExamplesSkipped(xs: seq<Utils.Example>, x: Utils.Example, ys: seq<Utils.Example>)
    requires x.kind.Some? && !IsDoctest(x) && !IsPytest(x)
    requires |xs + ys| > 0
    ensures FormatUsageExamples(xs + [x] + ys) == FormatUsageExamples(xs + ys)
  {
    assert ExampleBlocks([x]) == Success([]) by {
      assert [x][1..] == [];
    }
    ExampleBlocksAppend(xs, [x]);
    ExampleBlocksAppend(xs + [x], ys);
    ExampleBlocksAppend(xs, ys);
    assert ExampleBlocks(xs).Success? ==> ExampleBlocks(xs).value + [] == ExampleBlocks(xs).value;
    assert ExampleBlocks(xs + [x]) == ExampleBlocks(xs);
  }

  // ---------------------------------------------------------------------------
  // Function signatures
  // ---------------------------------------------------------------------------

  /** One serialised parameter: its "arg" key (maybe missing), and whether
      the dictionary has any other key (which decides its truthiness). */
  datatype SerialArg = SerialArg(arg: Option<string>, hasOtherKeys: bool)

  /** A serialised `ast.arguments` dictionary; missing list keys read as
      empty lists, a missing or `None` single entry as `None`. */
  datatype SerialArguments = SerialArguments(
    posonlyargs: seq<SerialArg>,
    args: seq<SerialArg>,
    vararg: Option<SerialArg>,
    kwonlyargs: seq<SerialArg>,
    kwarg: Option<SerialArg>,
    defaults: seq<Expr>)

  predicate SerialArgTruthy(a: SerialArg)
  {
    a.arg.Some? || a.hasOtherKeys
  }

  const MalformedArguments := ValueError("Malformed arguments node: 'arg'")

  /** Parameters rebuilt from serialised entries: only the names survive. */
  function NormaliseParams(xs: seq<SerialArg>): (r: Result<seq<Param>, Exc>)
    ensures r.Success? <==> forall i :: 0 <= i < |xs| ==> xs[i].arg.Some?
    ensures r.Failure? ==> r.error == MalformedArguments
    ensures r.Success? ==> |r.value| == |xs| && forall i :: 0 <= i < |xs| ==> r.value[i] == Param(xs[i].arg.value, None)
  {
    if |xs| == 0 then Success([])
    else if xs[0].arg.None? then Failure(MalformedArguments)
    else
      assert forall i :: 0 < i < |xs| ==> xs[i] == xs[1..][i - 1];
      match NormaliseParams(xs[1..])
      case Failure(e) => Failure(e)
      case Success(rest) => Success([Param(xs[0].arg.value, None)] + rest)
  }

  /** `*args` / `**kwargs`: a falsy or missing entry gives `None`. */
  function NormaliseOptional(x: Option<SerialArg>): (r: Result<Option<Param>, Exc>)
    ensures r.Failure? <==> x.Some? && SerialArgTruthy(x.value) && x.value.arg.None?
    ensures r.Failure? ==> r.error == MalformedArguments
    ensures r.Success? ==> r.value == if x.Some? && SerialArgTruthy(x.value) then Some(Param(x.value.arg.value, None)) else None
  {
    if x.None? || !SerialArgTruthy(x.value) then Success(None)
    else if x.value.arg.None? then Failure(MalformedArguments)
    else Success(Some(Param(x.value.arg.value, None)))
  }

  /** Every entry that is read has its "arg" key. */
  predicate WellFormedSerialArguments(a: SerialArguments)
  {
    && (forall i :: 0 <= i < |a.posonlyargs| ==> a.posonlyargs[i].arg.Some?)
    && (forall i :: 0 <= i < |a.args| ==> a.args[i].arg.Some?)
    && (a.vararg.Some? && SerialArgTruthy(a.vararg.value) ==> a.vararg.value.arg.Some?)
    && (forall i :: 0 <= i < |a.kwonlyargs| ==> a.kwonlyargs[i].arg.Some?)
    && (a.kwarg.Some? && SerialArgTruthy(a.kwarg.value) ==> a.kwarg.value.arg.Some?)
  }

  /** The serialised-dictionary branch of `_format_function_signature`:
      rebuilds an arguments node from names only, or fails with
      "Malformed arguments node" when an entry lacks "arg". */
  function NormaliseArguments(a: SerialArguments): (r: Result<Arguments, Exc>)
    ensures r.Success? <==> WellFormedSerialArguments(a)
    ensures r.Failure? ==> r.error == MalformedArguments
    ensures r.Success? ==> |r.value.args| == |a.args|
    ensures r.Success? ==> forall i :: 0 <= i < |a.args| ==> r.value.args[i] == Param(a.args[i].arg.value, None)
    ensures r.Success? ==> |r.value.posonlyargs| == |a.posonlyargs| && |r.value.kwonlyargs| == |a.kwonlyargs|
  {
    var posonly :- NormaliseParams(a.posonlyargs);
    var args :- NormaliseParams(a.args);
    var vararg :- NormaliseOptional(a.vararg);
    var kwonly :- NormaliseParams(a.kwonlyargs);
    var kwarg :- NormaliseOptional(a.kwarg);
    Success(Arguments(posonly, args, vararg, kwonly, kwarg, a.defaults))
  }

  /** The "args" entry of a function record. */
  datatype ArgsInput = NativeArgs(node: Arguments) | SerialisedArgs(dict: SerialArguments) | NoArgs

  /** A function record: its arguments and return annotation. */
  datatype FuncInfo = FuncInfo(args: ArgsInput, returnAnn: Option<Expr>)

  /** A constant whose value is a type is rendered through its name. */
  function NormaliseReturn(ret: Option<Expr>): (r: Option<Expr>)
    ensures r.None? <==> ret.None?
    ensures ret.Some? && ret.value.Constant? && ret.value.typeName.Some? ==> r == Some(Name(ret.value.typeName.value))
    ensures ret.Some? && !(ret.value.Constant? && ret.value.typeName.Some?) ==> r == ret
  {
    if ret.Some? && ret.value.Constant? && ret.value.typeName.Some? then Some(Name(ret.value.typeName.value))
    else ret
  }

  /** `_format_function_signature`. */
  function WriterSignature(info: FuncInfo, knownTypes: map<string, string>): (r: Result<string, Exc>)
    ensures info.args.NoArgs? ==> r.Failure?
    ensures info.args.SerialisedArgs? ==> (r.Success? <==> WellFormedSerialArguments(info.args.dict))
    ensures info.args.SerialisedArgs? && r.Failure? ==> r.error == MalformedArguments
    ensures info.args.NativeArgs? ==> r == Success(Utils.SignatureText(info.args.node, NormaliseReturn(info.returnAnn), knownTypes))
  {
    var args :-
      match info.args
      case NativeArgs(node) => Success(node)
      case SerialisedArgs(d) => NormaliseArguments(d)
      case NoArgs => Failure(AttributeError("'NoneType' object has no attribute 'args'"));
    Success(Utils.SignatureText(args, NormaliseReturn(info.returnAnn), knownTypes))
  }

  /** A serialised signature lists the bare parameter names, since the
      annotations were dropped on the way in. */
  lemma SerialisedSignatureListsNames(d: SerialArguments, ret: Option<Expr>, knownTypes: map<string, string>)
    requires WellFormedSerialArguments(d)
    ensures WriterSignature(FuncInfo(SerialisedArgs(d), ret), knownTypes) ==
      Success("(" + Join(ArgNames(d.args), ", ") + ")" + Utils.ReturnSuffix(NormaliseReturn(ret), knownTypes))
  {
    var args := NormaliseArguments(d).value;
    assert Utils.ParamTexts(args.args, knownTypes) == ArgNames(d.args);
  }

  /** The names of well-formed serialised entries. */
  function ArgNames(xs: seq<SerialArg>): (r: seq<string>)
    requires forall i :: 0 <= i < |xs| ==> xs[i].arg.Some?
    ensures |r| == |xs| && forall i :: 0 <= i < |xs| ==> r[i] == xs[i].arg.value
  {
    seq(|xs|, i requires 0 <= i < |xs| => xs[i].arg.value)
  }

  /** A type constant as return annotation renders as its aliased name, not
      as the constant's text. */
  lemma TypeConstantReturnUsesName(args: Arguments, text: string, typeName: string, knownTypes: map<string, string>)
    ensures WriterSignature(FuncInfo(NativeArgs(args), Some(Constant(text, Some(typeName)))), knownTypes) ==
      Success(Utils.SignatureText(args, Some(Name(typeName)), knownTypes))
  {
  }

  // ---------------------------------------------------------------------------
  // Module description, role, layer, code structure
  // ---------------------------------------------------------------------------

  /** The parts of a module record the writer's helpers read. */
  datatype ModuleRecord = ModuleRecord(
    docstrings: Option<map<string, string>>,
    contents: Utils.ModuleContents,
    role: Option<string>,
    layer: Option<string>)

  /** `_get_module_description`: the docstring stored under "module:1" when
      there is one, otherwise the inferred responsibilities. */
  function GetModuleDescription(m: ModuleRecord): (r: string)
    ensures m.docstrings.Some? && "module:1" in m.docstrings.value ==> r == m.docstrings.value["module:1"]
    ensures !(m.docstrings.Some? && "module:1" in m.docstrings.value) ==>
      r == Utils.InferResponsibilities(m.contents)
  {
    if m.docstrings.Some? && "module:1" in m.docstrings.value then m.docstrings.value["module:1"]
    else Utils.InferResponsibilities(m.contents)
  }

  /** `_format_role`. */
  function FormatRole(m: ModuleRecord): (r: string)
    ensures StartsWith(r, "- **Role**: ")
    ensures m.role.Some? ==> r[|"- **Role**: "|..] == m.role.value
    ensures m.role.None? ==> r[|"- **Role**: "|..] == "General purpose module"
  {
    var prefix := "- **Role**: ";
    var r := prefix + (if m.role.Some? then m.role.value else "General purpose module");
    assert r[..|prefix|] == prefix;
    r
  }

  /** `_format_architecture_layer`. */
  function FormatArchitectureLayer(m: ModuleRecord): (r: string)
    ensures StartsWith(r, "- **Architecture Layer**: ")
    ensures m.layer.Some? ==> r[|"- **Architecture Layer**: "|..] == m.layer.value
    ensures m.layer.None? ==> r[|"- **Architecture Layer**: "|..] == "Not specified"
  {
    var prefix := "- **Architecture Layer**: ";
    var r := prefix + (if m.layer.Some? then m.layer.value else "Not specified");
    assert r[..|prefix|] == prefix;
    r
  }

  /** The "Method" lines of a class body: its direct (non-async) function
      definitions, in order. */
  function MethodLines(body: seq<Stmt>): (r: seq<string>)
    ensures |r| <= |body|
    ensures |r| == 0 <==> forall i :: 0 <= i < |body| ==> !body[i].FunctionDef?
    ensures forall j :: 0 <= j < |r| ==> StartsWith(r[j], "  - Method: ")
  {
    if |body| == 0 then []
    else
      assert forall i :: 0 < i < |body| ==> body[i] == body[1..][i - 1];
      var line := if body[0].FunctionDef? then ["  - Method: " + body[0].name] else [];
      assert body[0].FunctionDef? ==> line[0][..|"  - Method: "|] == "  - Method: ";
      line + MethodLines(body[1..])
  }

  /** Method lines follow the class body: the lines of a concatenation are
      those of each part in turn, and one statement gives a line exactly
      when it is a function definition. */
  lemma {:induction false} MethodLinesAppend(a: seq<Stmt>, b: seq<Stmt>)
    ensures MethodLines(a + b) == MethodLines(a) + MethodLines(b)
    ensures |a| == 1 ==> MethodLines(a) == if a[0].FunctionDef? then ["  - Method: " + a[0].name] else []
    decreases |a|
  {
    if |a| > 0 {
      assert (a + b)[1..] == a[1..] + b;
      MethodLinesAppend(a[1..], b);
    } else {
      assert a + b == b;
    }
  }

  predicate IsOutlined(item: Stmt)
  {
    item.ClassDef? || item.FunctionDef?
  }

  /** The outline entry of a top-level statement: a class heading followed
      by its method lines, a function line, or nothing. */
  function StructureEntry(item: Stmt): (r: Option<string>)
    ensures r.Some? <==> IsOutlined(item)
    ensures item.FunctionDef? ==> r == Some("- Function: " + item.name)
    ensures item.ClassDef? ==> StartsWith(r.value, "### Class: " + item.name)
    ensures item.ClassDef? && |MethodLines(item.body)| == 0 ==> r == Some("### Class: " + item.name)
    ensures item.ClassDef? && |MethodLines(item.body)| > 0 ==>
      r.value[|"### Class: " + item.name|..] == "\n" + Join(MethodLines(item.body), "\n")
  {
    match item
    case ClassDef(name, body) =>
      var methods := MethodLines(body);
      var heading := "### Class: " + name;
      var rest := if |methods| > 0 then "\n" + Join(methods, "\n") else "";
      assert (heading + rest)[..|heading|] == heading;
      assert (heading + rest)[|heading|..] == rest;
      assert |methods| == 0 ==> heading + rest == heading;
      Some(heading + rest)
    case FunctionDef(name, _, _, _) => Some("- Function: " + name)
    case _ => None
  }

  /** The entries one statement contributes to the outline. */
  function EntryOf(item: Stmt): seq<string>
  {
    if StructureEntry(item).Some? then [StructureEntry(item).value] else []
  }

  /** The outline entries of a module body, in order. There are entries
      exactly when there is a top-level class or function, and none is
      empty. */
  function Outline(body: seq<Stmt>): (r: seq<string>)
    ensures |r| <= |body|
    ensures |r| > 0 <==> exists i :: 0 <= i < |body| && IsOutlined(body[i])
    ensures forall j :: 0 <= j < |r| ==> r[j] != ""
  {
    if |body| == 0 then []
    else
      assert forall i :: 0 < i < |body| ==> body[i] == body[1..][i - 1];
      EntryOf(body[0]) + Outline(body[1..])
  }

  /** The outline follows the module body: the entries of a concatenation
      are those of each part in turn, and one statement contributes its own
      entry, if any. */
  lemma {:induction false} OutlineAppend(a: seq<Stmt>, b: seq<Stmt>)
    ensures Outline(a + b) == Outline(a) + Outline(b)
    ensures |a| == 1 ==> Outline(a) == EntryOf(a[0])
    decreases |a|
  {
    if |a| > 0 {
      assert (a + b)[1..] == a[1..] + b;
      OutlineAppend(a[1..], b);
    } else {
      assert a + b == b;
    }
  }

  /** `_format_code_structure`: "" for anything that is not a module (`None`
      here); otherwise the outline entries joined by newlines. */
  function FormatCodeStructure(tree: Option<seq<Stmt>>): (r: string)
    ensures r == "" <==> tree.None? || forall i :: 0 <= i < |tree.value| ==> !IsOutlined(tree.value[i])
    ensures tree.Some? ==> r == Join(Outline(tree.value), "\n")
  {
    if tree.None? then ""
    else
      var entries := Outline(tree.value);
      assert |entries| > 0 ==> Join(entries, "\n") != "" by {
        if |entries| > 0 {
          JoinNonEmpty(entries, "\n", 0);
        }
      }
      Join(entries, "\n")
  }
}
