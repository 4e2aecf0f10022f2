/** The tree helpers of the documentation generator (src/chewdoc/utils.py):
    the annotation resolver, the signature formatter, the responsibility
    inferrer, the "non-degenerate module" check and the example finder. */
module Utils {
  import opened Results
  import opened Strings
  import opened PyAst

  // ---------------------------------------------------------------------------
  // Annotation resolver
  // ---------------------------------------------------------------------------

  /** Renders a type-annotation tree. Names go through the alias table
      `knownTypes`; a subscript whose slice is an ellipsis renders as
      `Base[...]`; every binary operation renders as a union `L | R`.
      Anywhere else the ellipsis literal is caught by the constant case
      first and renders as `str(Ellipsis)`, that is "Ellipsis": the later
      ellipsis case of the resolver is never reached. */
  function GetAnnotation(e: Expr, knownTypes: map<string, string>): (r: string)
    ensures e.Name? ==> r == if e.id in knownTypes then knownTypes[e.id] else e.id
    ensures e.Subscript? && e.slice.EllipsisLit? ==> r == GetAnnotation(e.value, knownTypes) + "[...]"
    ensures e.Subscript? && !e.slice.EllipsisLit? ==>
      r == GetAnnotation(e.value, knownTypes) + "[" + GetAnnotation(e.slice, knownTypes) + "]"
    ensures e.Attribute? ==> r == GetAnnotation(e.value, knownTypes) + "." + e.attr
    ensures e.BinOp? ==> r == GetAnnotation(e.left, knownTypes) + " | " + GetAnnotation(e.right, knownTypes)
    ensures e.EllipsisLit? ==> r == "Ellipsis"
    ensures e.Constant? || e.Other? ==> r == e.text
  {
    match e
    case Name(id) => if id in knownTypes then knownTypes[id] else id
    case Constant(text, _) => text
    case Subscript(v, s) =>
      var value := GetAnnotation(v, knownTypes);
      if s.EllipsisLit? then value + "[...]"
      else value + "[" + GetAnnotation(s, knownTypes) + "]"
    case Attribute(v, attr) => GetAnnotation(v, knownTypes) + "." + attr
    case BinOp(l, _, r) => GetAnnotation(l, knownTypes) + " | " + GetAnnotation(r, knownTypes)
    case EllipsisLit => "Ellipsis"
    case Other(text) => text
  }

  /** The identifiers of the `Name` nodes of an annotation. */
  function NamesIn(e: Expr): set<string>
  {
    match e
    case Name(id) => {id}
    case Subscript(v, s) => NamesIn(v) + NamesIn(s)
    case Attribute(v, _) => NamesIn(v)
    case BinOp(l, _, r) => NamesIn(l) + NamesIn(r)
    case _ => {}
  }

  /** The annotation with every aliased name replaced by its alias. */
  function ResolveNames(e: Expr, knownTypes: map<string, string>): Expr
  {
    match e
    case Name(id) => if id in knownTypes then Name(knownTypes[id]) else e
    case Subscript(v, s) => Subscript(ResolveNames(v, knownTypes), ResolveNames(s, knownTypes))
    case Attribute(v, attr) => Attribute(ResolveNames(v, knownTypes), attr)
    case BinOp(l, op, r) => BinOp(ResolveNames(l, knownTypes), op, ResolveNames(r, knownTypes))
    case _ => e
  }

  /** Aliasing is a pure substitution of names: rendering with the alias
      table equals rendering the substituted tree with no aliases at all. */
  lemma {:induction false} AliasingIsNameSubstitution(e: Expr, knownTypes: map<string, string>)
    ensures GetAnnotation(e, knownTypes) == GetAnnotation(ResolveNames(e, knownTypes), map[])
  {
    match e
    case Name(_) =>
    case Constant(_, _) =>
    case Subscript(v, s) =>
      AliasingIsNameSubstitution(v, knownTypes);
      AliasingIsNameSubstitution(s, knownTypes);
    case Attribute(v, _) =>
      AliasingIsNameSubstitution(v, knownTypes);
    case BinOp(l, _, r) =>
      AliasingIsNameSubstitution(l, knownTypes);
      AliasingIsNameSubstitution(r, knownTypes);
    case EllipsisLit =>
    case Other(_) =>
  }

  /** An alias table whose targets are final: an alias that is itself a key
      maps to itself. */
  predicate AliasesSettled(knownTypes: map<string, string>)
  {
    forall k :: k in knownTypes && knownTypes[k] in knownTypes ==> knownTypes[knownTypes[k]] == knownTypes[k]
  }

  /** Re-resolving an already resolved annotation changes nothing when the
      alias table is settled. */
  lemma {:induction false} ResolutionIsIdempotent(e: Expr, knownTypes: map<string, string>)
    requires AliasesSettled(knownTypes)
    ensures GetAnnotation(ResolveNames(e, knownTypes), knownTypes) == GetAnnotation(e, knownTypes)
  {
    match e
    case Name(_) =>
    case Constant(_, _) =>
    case Subscript(v, s) =>
      ResolutionIsIdempotent(v, knownTypes);
      ResolutionIsIdempotent(s, knownTypes);
    case Attribute(v, _) =>
      ResolutionIsIdempotent(v, knownTypes);
    case BinOp(l, _, r) =>
      ResolutionIsIdempotent(l, knownTypes);
      ResolutionIsIdempotent(r, knownTypes);
    case EllipsisLit =>
    case Other(_) =>
  }

  /** Only the aliases of names that occur in the annotation matter. */
  lemma {:induction false} RenderingReadsOnlyUsedAliases(e: Expr, kt1: map<string, string>, kt2: map<string, string>)
    requires forall n :: n in NamesIn(e) ==> (n in kt1 <==> n in kt2)
    requires forall n :: n in NamesIn(e) && n in kt1 && n in kt2 ==> kt1[n] == kt2[n]
    ensures GetAnnotation(e, kt1) == GetAnnotation(e, kt2)
  {
    match e
    case Name(_) =>
    case Constant(_, _) =>
    case Subscript(v, s) =>
      RenderingReadsOnlyUsedAliases(v, kt1, kt2);
      RenderingReadsOnlyUsedAliases(s, kt1, kt2);
    case Attribute(v, _) =>
      RenderingReadsOnlyUsedAliases(v, kt1, kt2);
    case BinOp(l, _, r) =>
      RenderingReadsOnlyUsedAliases(l, kt1, kt2);
      RenderingReadsOnlyUsedAliases(r, kt1, kt2);
    case EllipsisLit =>
    case Other(_) =>
  }

  /** The renderer drops both the operator and the grouping of binary
      operations: `(A + B) - C` and `A | (B | C)` render alike. */
  lemma UnionRenderingForgetsStructure(a: Expr, b: Expr, c: Expr, op1: Operator, op2: Operator, knownTypes: map<string, string>)
    ensures GetAnnotation(BinOp(BinOp(a, op1, b), op2, c), knownTypes)
         == GetAnnotation(BinOp(a, BitOr, BinOp(b, BitOr, c)), knownTypes)
  {
    var sa, sb, sc := GetAnnotation(a, knownTypes), GetAnnotation(b, knownTypes), GetAnnotation(c, knownTypes);
    assert (sa + " | " + sb) + " | " + sc == sa + " | " + (sb + " | " + sc);
  }

  // ---------------------------------------------------------------------------
  // Signature formatter
  // ---------------------------------------------------------------------------

  /** The rendered annotation of a parameter, or "" when it has none. */
  function ParamAnnotation(p: Param, knownTypes: map<string, string>): string
  {
    if p.annotation.Some? then GetAnnotation(p.annotation.value, knownTypes) else ""
  }

  /** One parameter: `name`, or `name: T` when its rendered annotation is non-empty. */
  function ParamText(p: Param, knownTypes: map<string, string>): (r: string)
    ensures StartsWith(r, p.name)
    ensures r == p.name <==> ParamAnnotation(p, knownTypes) == ""
    ensures ParamAnnotation(p, knownTypes) != "" ==> r[|p.name|..] == ": " + ParamAnnotation(p, knownTypes)
  {
    var ann := ParamAnnotation(p, knownTypes);
    assert (p.name + ": " + ann)[..|p.name|] == p.name;
    p.name + (if ann != "" then ": " + ann else "")
  }

  /** Reference rendering of a whole parameter list, in order. */
  function ParamTexts(ps: seq<Param>, knownTypes: map<string, string>): (r: seq<string>)
    ensures |r| == |ps|
    ensures forall i :: 0 <= i < |ps| ==> r[i] == ParamText(ps[i], knownTypes)
  {
    if |ps| == 0 then [] else ParamTexts(ps[..|ps| - 1], knownTypes) + [ParamText(ps[|ps| - 1], knownTypes)]
  }

  /** The ` -> R` suffix: present exactly when the rendered return annotation is non-empty. */
  function ReturnSuffix(returnAnn: Option<Expr>, knownTypes: map<string, string>): (r: string)
    ensures r == "" <==> returnAnn.None? || GetAnnotation(returnAnn.value, knownTypes) == ""
    ensures r != "" ==> r == " -> " + GetAnnotation(returnAnn.value, knownTypes)
  {
    var ret := if returnAnn.Some? then GetAnnotation(returnAnn.value, knownTypes) else "";
    if ret != "" then " -> " + ret else ""
  }

  lemma ParamTextsStep(ps: seq<Param>, i: int, knownTypes: map<string, string>)
    requires 0 <= i < |ps|
    ensures ParamTexts(ps[..i + 1], knownTypes) == ParamTexts(ps[..i], knownTypes) + [ParamText(ps[i], knownTypes)]
  {
    assert ps[..i + 1][..i] == ps[..i];
  }

  /** Reference rendering of a signature: the positional parameters
      `args.args` in order, separated by ", ", in parentheses, then the
      return suffix. Defaults, `*args`, keyword-only parameters and
      `**kwargs` play no part. */
  function SignatureText(args: Arguments, returnAnn: Option<Expr>, knownTypes: map<string, string>): string
  {
    "(" + Join(ParamTexts(args.args, knownTypes), ", ") + ")" + ReturnSuffix(returnAnn, knownTypes)
  }

  /** `format_function_signature`, building the parameter list one
      parameter at a time. */
  method FormatFunctionSignature(args: Arguments, returnAnn: Option<Expr>, knownTypes: map<string, string>)
    returns (r: string)
    ensures r == SignatureText(args, returnAnn, knownTypes)
  {
    var params: seq<string> := [];
    var i := 0;
    while i < |args.args|
      invariant 0 <= i <= |args.args|
      invariant params == ParamTexts(args.args[..i], knownTypes)
    {
      var p := args.args[i];
      var annotation := if p.annotation.Some? then GetAnnotation(p.annotation.value, knownTypes) else "";
      assert annotation == ParamAnnotation(p, knownTypes);
      var text := p.name + (if annotation != "" then ": " + annotation else "");
      ParamTextsStep(args.args, i, knownTypes);
      params := params + [text];
      i := i + 1;
    }
    assert args.args[..i] == args.args;
    var returnType := if returnAnn.Some? then GetAnnotation(returnAnn.value, knownTypes) else "";
    assert (if returnType != "" then " -> " + returnType else "") == ReturnSuffix(returnAnn, knownTypes);
    r := "(" + Join(params, ", ") + ")" + (if returnType != "" then " -> " + returnType else "");
  }

  // ---------------------------------------------------------------------------
  // Responsibility inferrer
  // ---------------------------------------------------------------------------

  /** A record of a class, function or constant; `name` is `None` when the
      key is missing or holds `None`. */
  datatype Item = Item(name: Option<string>)

  /** The value stored under "classes", "functions" or "constants" of a
      module record: absent, a dictionary (its values in order), a list, or
      any other value with its truthiness. */
  datatype Collection = Missing | DictOf(values: seq<Item>) | ListOf(items: seq<Item>) | Scalar(truthy: bool)

  /** The three collections the inferrer reads from a module record. */
  datatype ModuleContents = ModuleContents(classes: Collection, functions: Collection, constants: Collection)

  /** Python truthiness of `module.get(key)`. */
  predicate CollectionTruthy(c: Collection)
  {
    match c
    case Missing => false
    case DictOf(vs) => |vs| > 0
    case ListOf(xs) => |xs| > 0
    case Scalar(t) => t
  }

  /** The non-empty names of the records, in order. */
  function NamedEntries(items: seq<Item>): (r: seq<string>)
    ensures |r| <= |items|
    ensures forall i :: 0 <= i < |r| ==> r[i] != ""
    ensures forall n :: n in r <==> exists i :: 0 <= i < |items| && items[i].name == Some(n) && n != ""
  {
    if |items| == 0 then []
    else
      var rest := NamedEntries(items[1..]);
      assert forall i :: 0 < i < |items| ==> items[i] == items[1..][i - 1];
      var head := items[0].name;
      if head.Some? && head.value != "" then [head.value] + rest else rest
  }

  /** The name kept from a single record: its name when that is non-empty. */
  function EntryName(item: Item): seq<string>
  {
    if item.name.Some? && item.name.value != "" then [item.name.value] else []
  }

  /** The names are kept in input order: the names of a concatenation are
      the names of each part, one after the other, and a single record
      contributes its own non-empty name. */
  lemma {:induction false} NamedEntriesAppend(a: seq<Item>, b: seq<Item>)
    ensures NamedEntries(a + b) == NamedEntries(a) + NamedEntries(b)
    ensures |a| == 1 ==> NamedEntries(a) == EntryName(a[0])
    decreases |a|
  {
    if |a| > 0 {
      assert (a + b)[1..] == a[1..] + b;
      NamedEntriesAppend(a[1..], b);
    } else {
      assert a + b == b;
    }
  }

  /** `safe_get_names`: names from a dictionary's values or a list's items;
      anything else yields no names. */
  function SafeGetNames(c: Collection): (r: seq<string>)
    ensures c.DictOf? ==> r == NamedEntries(c.values)
    ensures c.ListOf? ==> r == NamedEntries(c.items)
    ensures c.Missing? || c.Scalar? ==> r == []
  {
    match c
    case DictOf(vs) => NamedEntries(vs)
    case ListOf(xs) => NamedEntries(xs)
    case _ => []
  }

  const MaxListedNames := 3

  /** The names a clause lists: the first three. */
  function ListedNames(names: seq<string>): (r: seq<string>)
    ensures |r| == if |names| < MaxListedNames then |names| else MaxListedNames
    ensures r == names[..|r|]
  {
    if |names| <= MaxListedNames then names else names[..MaxListedNames]
  }

  /** ` (+N more)` for the names beyond the first three. */
  function MoreSuffix(count: nat): (r: string)
    ensures r == "" <==> count <= MaxListedNames
    ensures r != "" ==> StartsWith(r, " (+")
  {
    if count > MaxListedNames then " (+" + NatToString(count - MaxListedNames) + " more)" else ""
  }

  /** The suffix is present exactly when names were cut, and the number it
      shows is the number of names left out. */
  lemma MoreSuffixCountsOmitted(count: nat)
    ensures MoreSuffix(count) == "" <==> count <= MaxListedNames
    ensures count > MaxListedNames ==>
      exists d: string :: MoreSuffix(count) == " (+" + d + " more)"
        && (forall i :: 0 <= i < |d| ==> IsDigit(d[i]))
        && ParseDigits(d) == count - MaxListedNames
  {
    if count > MaxListedNames {
      var d := NatToString(count - MaxListedNames);
      ParseNatToString(count - MaxListedNames);
      assert MoreSuffix(count) == " (+" + d + " more)";
    }
  }

  /** One clause of the summary, or nothing when the collection is falsy. */
  function Clause(heading: string, c: Collection): (r: Option<string>)
    ensures r.Some? <==> CollectionTruthy(c)
    ensures r.Some? ==> StartsWith(r.value, heading)
    ensures r.Some? ==>
      r.value[|heading|..] == Join(ListedNames(SafeGetNames(c)), ", ") + MoreSuffix(|SafeGetNames(c)|)
  {
    if !CollectionTruthy(c) then None
    else
      var names := SafeGetNames(c);
      var listed := Join(ListedNames(names), ", ") + MoreSuffix(|names|);
      var text := heading + listed;
      assert text[..|heading|] == heading;
      assert text[|heading|..] == listed;
      Some(text)
  }

  const ClassesLabel := "Defines core classes: "
  const FunctionsLabel := "Provides key functions: "
  const ConstantsLabel := "Contains constants: "
  const GenericResponsibility := "General utility module with mixed responsibilities"

  /** The present values, in order. */
  function Present(xs: seq<Option<string>>): (r: seq<string>)
    ensures |r| == 0 <==> forall i :: 0 <= i < |xs| ==> xs[i].None?
    ensures forall j :: 0 <= j < |r| ==> exists i :: 0 <= i < |xs| && xs[i] == Some(r[j])
  {
    if |xs| == 0 then []
    else
      var rest := Present(xs[1..]);
      assert forall i :: 0 < i < |xs| ==> xs[i] == xs[1..][i - 1];
      (if xs[0].Some? then [xs[0].value] else []) + rest
  }

  /** The clauses of a module, in the order classes, functions, constants. */
  function Clauses(m: ModuleContents): seq<string>
  {
    Present([Clause(ClassesLabel, m.classes), Clause(FunctionsLabel, m.functions), Clause(ConstantsLabel, m.constants)])
  }

  /** `infer_responsibilities`: the fixed sentence when classes, functions and
      constants are all missing or empty, otherwise every clause preceded by
      a bullet break. */
  function InferResponsibilities(m: ModuleContents): (r: string)
    ensures !CollectionTruthy(m.classes) && !CollectionTruthy(m.functions) && !CollectionTruthy(m.constants)
      ==> r == GenericResponsibility
    ensures CollectionTruthy(m.classes) || CollectionTruthy(m.functions) || CollectionTruthy(m.constants)
      ==> r == PrefixEach(Clauses(m), "\n- ") && |r| > 0 && r[0] == '\n'
  {
    var parts := [Clause(ClassesLabel, m.classes), Clause(FunctionsLabel, m.functions), Clause(ConstantsLabel, m.constants)];
    var clauses := Clauses(m);
    assert clauses == Present(parts);
    assert |clauses| == 0 <==> parts[0].None? && parts[1].None? && parts[2].None?;
    if |clauses| == 0 then GenericResponsibility
    else
      JoinAfterEmpty(clauses, "\n- ");
      assert PrefixEach(clauses, "\n- ") == "\n- " + clauses[0] + PrefixEach(clauses[1..], "\n- ");
      Join([""] + clauses, "\n- ")
  }

  // ---------------------------------------------------------------------------
  // Module validation and example finding
  // ---------------------------------------------------------------------------

  /** What `validate_ast` can be handed: something that is not a tree node,
      a node without a body, or a node with a body. */
  datatype AstInput = NotAst(typeName: string) | Bodiless | WithBody(body: seq<Stmt>)

  /** A statement that makes a module worth documenting. Async functions
      and annotated assignments do not count. */
  predicate IsDefinition(s: Stmt)
  {
    s.FunctionDef? || s.ClassDef? || s.Assign?
  }

  function HasDefinition(body: seq<Stmt>): (r: bool)
    ensures r <==> exists i :: 0 <= i < |body| && IsDefinition(body[i])
  {
    if |body| == 0 then false
    else
      assert forall i :: 0 < i < |body| ==> body[i] == body[1..][i - 1];
      IsDefinition(body[0]) || HasDefinition(body[1..])
  }

  /** `validate_ast`: rejects non-nodes, bodiless nodes, and bodies without
      any function definition, class definition or assignment. */
  function ValidateAst(node: AstInput): (r: Result<(), Exc>)
    ensures r.Success? <==> node.WithBody? && exists i :: 0 <= i < |node.body| && IsDefinition(node.body[i])
    ensures node.NotAst? ==> r == Failure(TypeError("Expected AST node, got " + node.typeName))
    ensures node.Bodiless? ==> r == Failure(ValueError("Invalid AST structure - missing body attribute"))
    ensures node.WithBody? && r.Failure? ==> r.error == ValueError("Empty or invalid module AST structure")
  {
    match node
    case NotAst(t) => Failure(TypeError("Expected AST node, got " + t))
    case Bodiless => Failure(ValueError("Invalid AST structure - missing body attribute"))
    case WithBody(body) =>
      if HasDefinition(body) then Success(()) else Failure(ValueError("Empty or invalid module AST structure"))
  }

  /** A usage example record; each key may be missing. */
  datatype Example = Example(kind: Option<string>, content: Option<string>, name: Option<string>)

  /** `find_usage_examples`: a placeholder that finds nothing. */
  function FindUsageExamples(body: seq<Stmt>): (r: seq<Example>)
    ensures |r| == 0
  {
    []
  }
}
