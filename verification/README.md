# chewdoc / chewed documentation generator: a Dafny model of its core

chewdoc analyses a Python package from its syntax trees and renders MyST
documentation pages. chewed (`src/chewed/core.py`) is a second package in the
same repository with its own `analyze_package`. This project models the
string- and sequence-level logic of the pair and proves what it computes:

- how type annotations are rendered from tree fragments and how function
  signatures are assembled (`utils.dfy`, module `Utils`);
- how a module's responsibilities are summarised when it has no docstring, and
  what makes a module tree worth documenting (`Utils`);
- how the MyST writer validates and defaults package data, categorises and
  sorts imports, draws the dependency graph, renders usage examples,
  normalises serialised argument lists, and outlines code structure
  (`myst_writer.dfy`, module `MystWriter`);
- how chewdoc's `analyze_package` derives a package name, defaults metadata,
  filters upper-case constants and maps errors (`package_analysis.dfy`,
  module `PackageAnalysis`);
- how chewed discovers imports, filters the files of a package directory, and
  validates and maps errors in its own `analyze_package` (`core.dfy`, module
  `Core`).

Support modules: `Results` (Option, Result, the Python exceptions involved and
their `str()`), `Strings` (`str.join`, `startswith`, `split(c)[0]`, decimal
rendering, `isupper`), `Sorting` (Python string order, an insertion sort, and
the proof that sorting depends only on the multiset of its input), `Records`
(dictionary values with Python truthiness, `setdefault`, the relationship
summary), and `PyAst` (the syntax-tree shapes the generator inspects).

Everything is a pure function over immutable datatypes, except four methods
that mirror `for` loops of the Python code: the signature formatter, the
dependency dedup loop, the dependency formatter built on it, and the
package-module filter. Each method is proved equal to a closed-form reference
definition.

Parsing, `ast.walk`, the filesystem, `fnmatch`, `sys.stdlib_module_names`,
metadata fetching, module discovery and relationship analysis are not run.
Their results are parameters: a statement sequence in walk order, file
records carrying their resolved path, size, exclusion flag and processing
outcome, a set of standard-library names, and `Result` values or functions
standing for the collaborators.

### Behaviour of the code worth knowing

- chewed's `_find_imports` (src/chewed/core.py:50-51) only ever records
  "stdlib" or "external". It never records "internal", and it ignores its
  `package_root` argument.
- chewdoc's `_format_imports` (src/chewdoc/formatters/myst_writer.py:98-103)
  classifies by the package prefix first. Then a path without "." counts as
  standard library, whatever its name. It does not consult a
  standard-library name set.
- A relative `from . import x` renders as `None.x`, because the f-string
  formats the missing module as `None` (src/chewed/core.py:48).
- A subscript whose slice is a tuple is not joined with ", ". The tuple node
  falls through to the `str(node)` fallback of `get_annotation`
  (src/chewdoc/utils.py:15, 26-27). It is modelled by the `Other` shape.
- `format_function_signature` renders `name` or `name: annotation` only.
  Defaults are never rendered (src/chewdoc/utils.py:96-99).
- A serialised argument list missing an `arg` key fails with
  `ValueError("Malformed arguments node: 'arg'")`
  (src/chewdoc/formatters/myst_writer.py:234-235).
- `get_annotation` tests for `ast.Constant` before `ast.Ellipsis`, and the
  literal `...` is an `ast.Constant` whose value is `Ellipsis`. So a bare
  ellipsis renders as "Ellipsis" (src/chewdoc/utils.py:9-10), and the
  `"..."` branch (src/chewdoc/utils.py:24-25) is never reached. Only an
  ellipsis slice renders as `Base[...]` (src/chewdoc/utils.py:13-14).
- `_derive_package_name` scans `resolve().parts`, and the parts of a
  resolved path start with the anchor "/". The anchor is never skipped, so
  "unknown-package" (src/chewdoc/package_analysis.py:114) is never returned,
  and a path such as `/src` derives the name "/".
- Upper-case constants are filtered with Python's `str.isupper`
  (src/chewdoc/package_analysis.py:81). This is not an "identifier made of
  upper-case letters" test: `"A1"` and `"_X"` pass it.

## Model

| member | source | states |
|---|---|---|
| Utils.GetAnnotation | src/chewdoc/utils.py:5-27 | A name renders as its alias when the alias table has one and as itself otherwise. A subscript renders as `Base[Slice]`, with an ellipsis slice as `Base[...]`. An attribute renders as `Base.attr`. Every binary operation renders as `Left \| Right`, whatever the operator. A bare ellipsis is a constant and renders as "Ellipsis". Other constants and every other shape render as their text, so the function is total. |
| Utils.AliasingIsNameSubstitution | src/chewdoc/utils.py:7-8 | Rendering with an alias table equals rendering, with no aliases, the tree whose names were substituted through the table. |
| Utils.ResolutionIsIdempotent | src/chewdoc/utils.py:7-8 | When no alias maps to another aliased name, substituting names before rendering changes nothing. |
| Utils.RenderingReadsOnlyUsedAliases | src/chewdoc/utils.py:5-27 | Two alias tables that agree on the names occurring in a tree render it identically. |
| Utils.UnionRenderingForgetsStructure | src/chewdoc/utils.py:20-23 | `(a op1 b) op2 c` and `a \| (b \| c)` render to the same text, so operators and grouping are lost. |
| Utils.ParamText | src/chewdoc/utils.py:96-99 | A parameter renders as its name, followed by `: ` and its rendered annotation when that is non-empty. It is exactly its name iff the rendered annotation is empty. |
| Utils.ReturnSuffix | src/chewdoc/utils.py:101-104 | The ` -> R` suffix is present iff there is a return annotation whose rendering is non-empty, and then R is that rendering. |
| Utils.FormatFunctionSignature | src/chewdoc/utils.py:93-104 | The loop builds `(p1, ..., pn)` from `args.args` only, in order, followed by the return suffix. This is proved equal to the reference `SignatureText`. |
| Utils.NamedEntries | src/chewdoc/utils.py:35-37 | Keeps entries with a non-empty name, and only those: every output name is non-empty, it is exactly a name some entry carries, and the output is no longer than the input. |
| Utils.NamedEntriesAppend | src/chewdoc/utils.py:35-37 | The names of a concatenation are the names of its parts, concatenated, and one entry gives its name or nothing. So the names keep the order of the entries. |
| Utils.SafeGetNames | src/chewdoc/utils.py:32-38 | A dictionary or a list gives the names of its named entries. Anything else gives `[]`. |
| Utils.ListedNames | src/chewdoc/utils.py:45 | The listed names are the first min(3, k) names. |
| Utils.MoreSuffix | src/chewdoc/utils.py:47-48 | The suffix is empty iff there are at most 3 names. Otherwise it starts with " (+". |
| Utils.MoreSuffixCountsOmitted | src/chewdoc/utils.py:47-48 | The suffix is empty iff there are at most 3 names. Otherwise it is ` (+d more)`, where the digits d read back as k - 3. |
| Utils.Clause | src/chewdoc/utils.py:43-49 | A category yields a clause iff its collection is truthy. The clause is the category's heading, then the listed names joined with ", ", then the "more" suffix for the full name count. |
| Utils.InferResponsibilities | src/chewdoc/utils.py:40-72 | With classes, functions and constants all missing or empty, the result is the fixed "General utility module..." sentence. Otherwise every present clause appears prefixed by "\n- ", in the order classes, functions, constants. |
| Utils.HasDefinition | src/chewdoc/utils.py:83-84 | True iff some statement of the body is a function definition, a class definition or an assignment. |
| Utils.ValidateAst | src/chewdoc/utils.py:75-85 | Succeeds iff the node has a body with a function definition, class definition or assignment. A non-node raises `TypeError` naming its type. A bodiless node and a degenerate body raise their `ValueError`s. |
| Utils.FindUsageExamples | src/chewdoc/utils.py:88-90 | Always finds no examples. |
| Strings.PrefixBefore | src/chewdoc/package_analysis.py:112 | `s.split(c)[0]` is the longest prefix of s without c. It is shorter than s iff c occurs in s, and then c follows it. |
| Strings.IsUpper | src/chewdoc/package_analysis.py:81 | A string that passes `isupper` is non-empty. |
| Strings.IsUpperExamples | src/chewdoc/package_analysis.py:81 | `isupper` accepts "A1", "_X" and "MAX_SIZE", and rejects "", "_1" and "Ab". |
| Strings.JoinAfterEmpty | src/chewdoc/utils.py:72 | Joining `[""] + parts` with a separator puts the separator in front of every part. |
| Strings.ParseNatToString | src/chewdoc/utils.py:48 | The decimal rendering of a count reads back as that count. |
| Sorting.LexLeqIsPythonOrder | src/chewdoc/formatters/myst_writer.py:107-111 | The order used for sorting is Python's string order: a is at most b iff a is a prefix of b, or at the first index where they differ a has the smaller character. |
| Sorting.LexLeqTotal | src/chewdoc/formatters/myst_writer.py:107-111 | Any two strings are comparable. |
| Sorting.LexLeqAntisymmetric | src/chewdoc/formatters/myst_writer.py:107-111 | Two strings each at most the other are equal. |
| Sorting.LexLeqTransitive | src/chewdoc/formatters/myst_writer.py:107-111 | The order is transitive. |
| Sorting.Sort | src/chewdoc/formatters/myst_writer.py:107-111 | The output is sorted in Python's string order and is a permutation of the input. |
| Sorting.SortedUnique | src/chewdoc/formatters/myst_writer.py:107-111 | Two sorted sequences with the same multiset are equal. |
| Sorting.SortPermutationInvariant | src/chewdoc/formatters/myst_writer.py:107-111 | Sorting a permutation of a list gives the same result. |
| Records.SetDefault | src/chewdoc/package_analysis.py:50-51 | `setdefault` adds the key if absent with the given value and changes no existing entry. |
| MystWriter.GenerateDefaults | src/chewdoc/formatters/myst_writer.py:21-32 | Fails with `ValueError("Invalid package data")` iff the data is empty or lacks "modules". On success it adds exactly the six defaulted keys, keeps every existing value, gives each absent key its default, and defaults "package" to the post-default "name". |
| MystWriter.Classify | src/chewdoc/formatters/myst_writer.py:98-103 | Internal iff the path starts with `package + "."`. Otherwise standard library iff it has no ".". Otherwise external. Exactly one category holds. |
| MystWriter.ImportLineOf | src/chewdoc/formatters/myst_writer.py:89-103 | A record fails iff it lacks "name" or "full_path", with the `KeyError` of "name" first. Otherwise its category is the classification of its full path, and its line is `- [[path\|entry]]` when internal and `- entry` otherwise. A bare string import always renders, classified by its own text. |
| MystWriter.PlainImportIsSourcelessRecord | src/chewdoc/formatters/myst_writer.py:91-96 | A bare string import behaves as a record with name = full path = the string and no source. It always renders, with no " from " part. |
| MystWriter.FirstImportError | src/chewdoc/formatters/myst_writer.py:89-103 | Reports no error iff every import renders without a missing key. A reported error is that of an import all of whose predecessors render. |
| MystWriter.FirstFailingImportDecides | src/chewdoc/formatters/myst_writer.py:89-103 | The first import that fails decides the reported error, whatever follows it. |
| MystWriter.EveryImportInOneCategory | src/chewdoc/formatters/myst_writer.py:98-103 | For well-formed imports, the three category lists together hold exactly one line per import. |
| MystWriter.FormatImports | src/chewdoc/formatters/myst_writer.py:85-113 | Succeeds iff every import is well formed. A failure is the `KeyError` of the first import that lacks a key. An empty list gives "No imports". Otherwise the result joins the present sections with "\n\n" and starts with a "#" heading. |
| MystWriter.Section | src/chewdoc/formatters/myst_writer.py:106-111 | A section exists iff it has lines. It is its title, a newline, then the sorted lines joined by newlines. |
| MystWriter.SectionHeading | src/chewdoc/formatters/myst_writer.py:106-111 | A section exists iff its category has lines, and it starts with its "#" heading. |
| MystWriter.SectionParts | src/chewdoc/formatters/myst_writer.py:105-113 | There are three candidate sections, in the order standard library, internal, external. Each is present exactly when its category has lines, and each present one starts with its "#" heading. |
| MystWriter.ImportSectionsHeaded | src/chewdoc/formatters/myst_writer.py:105-113 | Every emitted section starts with "#". |
| MystWriter.ImportSectionsNonEmpty | src/chewdoc/formatters/myst_writer.py:85-113 | When no import lacks a key, a non-empty list of imports emits at least one section. |
| MystWriter.SectionPermutationInvariant | src/chewdoc/formatters/myst_writer.py:106-111 | Each category section is the same for any permutation of the imports. |
| MystWriter.WellFormedPermutationInvariant | src/chewdoc/formatters/myst_writer.py:89-103 | Whether some import lacks a key does not depend on the order of the imports. |
| MystWriter.ImportsPermutationInvariant | src/chewdoc/formatters/myst_writer.py:85-113 | Permuting the imports neither changes whether formatting succeeds nor, on success, its output. |
| MystWriter.ReplaceChar | src/chewdoc/formatters/myst_writer.py:210 | `str.replace` of one character keeps the length and changes exactly the occurrences of the target. |
| MystWriter.CleanNodeName | src/chewdoc/formatters/myst_writer.py:208-210 | Same length, "." and "-" become "_", every other character is unchanged, and no "." or "-" remains. |
| MystWriter.CleanNodeNameIdempotent | src/chewdoc/formatters/myst_writer.py:208-210 | Cleaning a cleaned name changes nothing. |
| MystWriter.FirstOccurrenceBySeen | src/chewdoc/formatters/myst_writer.py:200-204 | A dependency is the first with its cleaned name iff that name is not among the cleaned names seen before it. This justifies the `seen` set. |
| MystWriter.FirstOccurrencesCover | src/chewdoc/formatters/myst_writer.py:200-204 | The kept dependencies cover every cleaned name of the input. |
| MystWriter.FirstOccurrencesFromInput | src/chewdoc/formatters/myst_writer.py:200-204 | Every kept dependency is an input dependency. |
| MystWriter.FirstOccurrencesDistinct | src/chewdoc/formatters/myst_writer.py:200-204 | No two kept dependencies share a cleaned name. |
| MystWriter.Connections | src/chewdoc/formatters/myst_writer.py:197-204 | The dedup loop with its `seen` set emits `clean[dep]` for exactly the first occurrence of each cleaned name, in input order. This equals the connections of the reference `FirstOccurrences`. |
| MystWriter.ShownConnections | src/chewdoc/formatters/myst_writer.py:197-206 | At most ten nodes are drawn: min(10, number of distinct cleaned names). The i-th is the connection of the i-th first occurrence. |
| MystWriter.FormatDependencies | src/chewdoc/formatters/myst_writer.py:192-206 | An empty list gives "No internal dependencies". Otherwise the result is the shown connections joined by a newline and four spaces. |
| MystWriter.ExampleBlock | src/chewdoc/formatters/myst_writer.py:256-260 | A doctest renders as a fenced Python block around its content. A pytest renders as "**Test case**: `name`", a newline, then that block. Other typed examples are skipped. A missing "type" fails with `KeyError("type")`. A doctest without "content" fails on "content". A pytest fails on "name" first, then on "content". |
| MystWriter.ExampleBlocks | src/chewdoc/formatters/myst_writer.py:255-260 | Succeeds iff every example renders or is skipped, and then holds one block per doctest or pytest example. A failure is the error of the first example that fails. |
| MystWriter.ExampleBlocksAppend | src/chewdoc/formatters/myst_writer.py:256-260 | The blocks of a concatenation are the blocks of the parts, in order, and the first failure wins. One example gives its own block, no block, or its error. Together these pin every block and its position. |
| MystWriter.FormatUsageExamples | src/chewdoc/formatters/myst_writer.py:250-262 | An empty list gives "No usage examples found". Otherwise the "## Usage Examples" header and the blocks are joined with "\n\n", and the call succeeds iff every example is well formed. |
| MystWriter.OtherExamplesSkipped | src/chewdoc/formatters/myst_writer.py:256-260 | Inserting an example of any other type into a non-empty list leaves the output unchanged. |
| MystWriter.NormaliseParams | src/chewdoc/formatters/myst_writer.py:226-227 | Succeeds iff every entry has an `arg` key. It then keeps only the names, in order, with no annotations. A failure is the malformed-arguments `ValueError`. |
| MystWriter.NormaliseOptional | src/chewdoc/formatters/myst_writer.py:228-231 | A truthy vararg/kwarg entry without `arg` fails. A truthy one with `arg` gives a bare parameter. A falsy or missing one gives none. |
| MystWriter.NormaliseArguments | src/chewdoc/formatters/myst_writer.py:223-235 | Succeeds iff every arg, vararg and kwarg entry has its `arg` key, failing with `ValueError("Malformed arguments node: 'arg'")`. On success the positional parameters are the names alone, in order. |
| MystWriter.WriterSignature | src/chewdoc/formatters/myst_writer.py:216-248 | A native argument node is formatted by the utility formatter. A serialised one succeeds iff it is well formed. Missing arguments fail. |
| MystWriter.SerialisedSignatureListsNames | src/chewdoc/formatters/myst_writer.py:223-248 | A well-formed serialised argument list renders as `(n1, ..., nk)` plus the return suffix, with no annotations. |
| MystWriter.NormaliseReturn | src/chewdoc/formatters/myst_writer.py:240-242 | A missing return annotation stays missing. A type constant becomes a name node carrying the type's name. Any other annotation is unchanged. |
| MystWriter.TypeConstantReturnUsesName | src/chewdoc/formatters/myst_writer.py:240-242 | A return annotation that is a type constant renders through `known_types` like any name, so an aliased type name renders as its alias. |
| MystWriter.GetModuleDescription | src/chewdoc/formatters/myst_writer.py:282-286 | The "module:1" docstring when present, the inferred responsibilities otherwise. |
| MystWriter.FormatRole | src/chewdoc/formatters/myst_writer.py:180-184 | Starts with "- **Role**: ", followed by the role or by "General purpose module". |
| MystWriter.FormatArchitectureLayer | src/chewdoc/formatters/myst_writer.py:186-190 | Starts with "- **Architecture Layer**: ", followed by the layer or by "Not specified". |
| MystWriter.MethodLines | src/chewdoc/formatters/myst_writer.py:125-129 | At most one line per statement of the class body. There are none iff the body has no function definition, and every line starts with "  - Method: ". |
| MystWriter.MethodLinesAppend | src/chewdoc/formatters/myst_writer.py:125-129 | The method lines of a concatenation are those of its parts, concatenated. One statement gives `  - Method: name` when it is a function definition and nothing otherwise. |
| MystWriter.StructureEntry | src/chewdoc/formatters/myst_writer.py:123-134 | A statement has an entry iff it is a class or function definition. A function gives `- Function: name`. A class without methods gives exactly `### Class: name`. A class with methods gives that heading, then a newline and its method lines joined by newlines. |
| MystWriter.FormatCodeStructure | src/chewdoc/formatters/myst_writer.py:115-136 | The outline is empty iff there is no module tree or no top-level class or function definition. Otherwise it is the outline entries joined by newlines. |
| MystWriter.Outline | src/chewdoc/formatters/myst_writer.py:122-134 | There are entries iff some top-level statement is a class or function definition. No entry is empty, and there are no more entries than statements. |
| MystWriter.OutlineAppend | src/chewdoc/formatters/myst_writer.py:122-134 | The entries of a concatenation are those of its parts, concatenated, and one statement gives its own entry or none. So entries follow the statement order. |
| PackageAnalysis.LastKept | src/chewdoc/package_analysis.py:108-110 | Finds the last component that is not "src", "site-packages" or "dist-packages", or -1 when all are skipped. |
| PackageAnalysis.DerivePackageName | src/chewdoc/package_analysis.py:105-114 | The reverse scan gives "unknown-package" when every component is skipped. Otherwise it gives the last kept component, cut before its first "-". |
| PackageAnalysis.DerivedNameHasNoHyphen | src/chewdoc/package_analysis.py:105-114 | The result is "unknown-package" iff every component is skipped. Otherwise it contains no "-", and a component without "-" is returned unchanged. |
| PackageAnalysis.DerivedNameIgnoresEarlierParts | src/chewdoc/package_analysis.py:108-113 | Components before the last kept one never influence the name. |
| PackageAnalysis.AnchoredPathIsNeverUnknown | src/chewdoc/package_analysis.py:105-114 | For the components of a resolved path, which start with "/", the name is never "unknown-package". It is "/" when every later component is skipped. |
| PackageAnalysis.PackageNameFor | src/chewdoc/package_analysis.py:48 | The metadata "package" when it is truthy, the derived name otherwise. |
| PackageAnalysis.MetadataWithDefaults | src/chewdoc/package_analysis.py:48-51 | Adds only "package", "python_requires" and "license". "package" is overwritten with the chosen name. ">=3.6" and "Proprietary" fill only absent keys. Every other value is kept. |
| PackageAnalysis.UpperConstants | src/chewdoc/package_analysis.py:78-82 | Every key of the constant table is upper case in the sense of `str.isupper`. |
| PackageAnalysis.UpperConstantsKeys | src/chewdoc/package_analysis.py:78-82 | A name has an entry iff some extracted pair carries it and it is upper case. |
| PackageAnalysis.UpperConstantsLastWins | src/chewdoc/package_analysis.py:78-82 | An entry wraps, as `{"value": v}`, the value of the last pair with that name. |
| PackageAnalysis.AnalyzeModule | src/chewdoc/package_analysis.py:63-87 | A missing "path" fails first, then a read or parse failure, then validation, then a missing "name", then the first exception raised by the docstring, type-information or constant extractors, then a missing "imports". On success the record carries the module's fields, its tree, its filtered constants and `[]` as default internal dependencies. |
| PackageAnalysis.AnalyzeModules | src/chewdoc/package_analysis.py:63-87 | Succeeds iff every module does, with one record per module in order. Otherwise it fails with the error of the first failing module. |
| PackageAnalysis.FirstFailingModuleDecides | src/chewdoc/package_analysis.py:63-87 | The loop's error is that of the first module that fails. |
| PackageAnalysis.WrapError | src/chewdoc/package_analysis.py:99-103 | A syntax error becomes `ValueError("Syntax error in <path>: ...")`. Anything else becomes `RuntimeError("Package analysis failed: <str(e)>")`. |
| PackageAnalysis.AnalyzePackage | src/chewdoc/package_analysis.py:42-103 | Metadata and discovery failures are wrapped. An empty module list fails with "Package analysis failed: No valid modules found in package". Otherwise the first failing module's error, or else the relationship analyser's error, is wrapped. When every module analyses and the analyser succeeds, the analysis succeeds. The metadata then carries its defaults, minus its own "modules" and "relationships" entries, which the analysis overwrites. The modules are the analysed records in order, and the relationships are those computed for the chosen package name. |
| PackageAnalysis.AnalysisFailuresAreWrapped | src/chewdoc/package_analysis.py:99-103 | Every failure is a syntax `ValueError` or a "Package analysis failed: " `RuntimeError`. |
| PackageAnalysis.DegenerateModuleFailsAnalysis | src/chewdoc/package_analysis.py:63-103 | A module without definitions, preceded only by good modules, fails the analysis with the wrapped validation message. |
| Core.ImportType | src/chewed/core.py:50-51 | "stdlib" iff the first dotted segment is a standard-library name, "external" otherwise. |
| Core.ImportPaths | src/chewed/core.py:44-49 | A plain import gives its alias names. A from-import gives `module.name` per alias, with "None" for a missing module. Other nodes give nothing. |
| Core.FindImports | src/chewed/core.py:37-55 | One entry per alias of every import node, in walk order, each with its own path. Its type is "stdlib" iff its first dotted segment is a standard-library name, and "external" otherwise, so never "internal". |
| Core.FindImportsAppend | src/chewed/core.py:42-53 | The entries of a walk are those of its parts, concatenated: nothing is reordered or deduplicated. |
| Core.PlainImportEntries | src/chewed/core.py:44-53 | A single `import a, b, ...` yields exactly its aliases, in order. |
| Core.ContributorHasKeptTwin | src/chewed/core.py:69-91 | Every file that would contribute shares its resolved path with a kept file at or before it. |
| Core.KeptBySeenPaths | src/chewed/core.py:66-91 | A file is kept iff it contributes and its resolved path is not among the recorded ones. This justifies the `processed_files` set. |
| Core.ProcessPackageModules | src/chewed/core.py:58-104 | The loop returns exactly the records of the kept files, in listing order. A kept file is not excluded, not an empty `__init__.py`, and processed into at least one record, with no earlier such file at the same resolved path. |
| Core.SkippedFilesContributeNothing | src/chewed/core.py:73-101 | An excluded file, an empty `__init__.py` or a failed file adds no records. |
| Core.FailedFileDoesNotBlock | src/chewed/core.py:86-101 | A file that failed is not recorded, so a later file with the same resolved path is still processed. |
| Core.DuplicateResolvedPathSkipped | src/chewed/core.py:68-71 | A later file whose resolved path was recorded adds nothing. |
| Core.KeptModulesFromContributors | src/chewed/core.py:86-101 | Every returned record comes from a file that contributes. |
| Core.ValidModules | src/chewed/core.py:137-142 | The kept records are exactly the dictionary records with a "name", and there are no more of them than the input records. |
| Core.ValidModulesAppend | src/chewed/core.py:137-142 | Validation distributes over concatenation, so it keeps the input order. |
| Core.Reraise | src/chewed/core.py:168-173 | `RuntimeError` and `ValueError` pass through. Any other exception becomes `RuntimeError("No valid modules found")`. |
| Core.AnalyzePackage | src/chewed/core.py:107-173 | A missing source fails with `ValueError("Source path does not exist: ...")`. A failed or empty module list, or one without valid modules, fails with `RuntimeError("No valid modules found")`. A failed package-name lookup, or after it a failed metadata fetch, fails with its exception passed through the outer handler. Every failure is a `RuntimeError` or `ValueError`. With valid modules, a name and metadata, the analysis succeeds. The modules are then exactly the valid records, and the relationships are the analyser's or the empty summary. |
| Core.RelationshipFailureIsHarmless | src/chewed/core.py:151-157 | When the relationship analyser fails, the analysis still succeeds, with the empty relationship summary. |
| Core.LastSegment | src/chewed/core.py:180 | `Path.name`: the last "/"-separated segment of the path. It contains no "/", ends the path and is preceded by "/" unless it is the whole path. The current directory "." has the empty name. |
| Core.CreateEmptyPackageInfo | src/chewed/core.py:176-185 | Names the package after the path's whole last segment: the name has no "/", ends the path, and is preceded by "/" unless it is the whole path. The path "." gives the empty name. There are no modules, an empty relationship summary and no metadata. |

## Left out

- Parsing, `ast.walk`, `ast.get_docstring`: trees are inputs, and walk order is the given statement sequence.
- The filesystem: glob order, `resolve`, `stat`, `exists`, `open` and `mkdir` become fields or parameters. The `fnmatch` match against the exclusion patterns is a boolean per file.
- `sys.stdlib_module_names` is a set parameter.
- `str()` of constants and of unrecognised nodes is the text carried by the `Constant` and `Other` shapes.
- `known_types` comes from configuration and is a plain map. Loading configuration is not modelled.
- File writes and output paths in `generate`, plus the module, index, metadata, API-reference and class templates. The template constants come from a file that is not part of this model.
- `MystWriter.extract_docstrings` calls a method that is not defined in the class.
- The serialised `returns` path of `_format_function_signature` calls `ast.parse`.
- The click command-line entry points, logging, timing and the verbose flag.
- Metadata fetching, PyPI staging in a temporary directory, module discovery (`process_modules`), `get_package_name` and relationship analysis are collaborators. Their outcomes are parameters.
- Docstring and type-information extraction in chewdoc's `analyze_package`: the module record does not carry those fields. Whether an extractor raises is an input, and its exception is modelled.
- PackageAnalysis.AnalyzeModule: the `verbose` logging line reads `module_data['name']` before the file is opened, so with `verbose` set a missing "name" fails before a read or parse failure. The model follows `verbose` off.
- Utils.NamedEntries: an entry that is not a dictionary (an `AttributeError` from `.get`) and a truthy name that is not a string (a `TypeError` from `", ".join`) are not modelled. Entries are records with an optional string name.
- `extract_constant_values` is imported from `src/chewdoc/utils.py` but is not defined there. The (name, value) pairs it would extract are an input.
- PackageAnalysis.ModuleInfo: the "path" entry keeps the discovered value rather than its `pathlib` normalisation.
- Strings.IsUpper: only ASCII letters are cased, whereas Python's `str.isupper` also knows the other Unicode letters.
- Core.LastSegment: `Path.name` is modelled on the normalised "/"-separated text `str(path)` gives, in which "." appears only as the whole path. Drive letters and Windows separators are not modelled.
