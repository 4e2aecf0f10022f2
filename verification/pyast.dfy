/** The fragment of Python's syntax tree the generator inspects, as a closed
    sum type. Parsing is not modelled: trees are inputs. */
module PyAst {
  import opened Results

  /** The operator of a binary-operation node. */
  datatype Operator =
    | Add | Sub | Mult | MatMult | Div | Mod | Pow
    | LShift | RShift | BitOr | BitXor | BitAnd | FloorDiv

  /** Expression shapes met in annotations. `Constant.text` is `str(value)`;
      `typeName` is the value's `__name__` when the constant is itself a type.
      `Other.text` is `str(node)` for every other shape (a tuple, a call, ...).
      `EllipsisLit` is the literal `...`, a constant whose value is `Ellipsis`. */
  datatype Expr =
    | Name(id: string)
    | Constant(text: string, typeName: Option<string>)
    | Subscript(value: Expr, slice: Expr)
    | Attribute(value: Expr, attr: string)
    | BinOp(left: Expr, op: Operator, right: Expr)
    | EllipsisLit
    | Other(text: string)

  /** An `ast.arg`: parameter name and optional annotation. */
  datatype Param = Param(name: string, annotation: Option<Expr>)

  /** An `ast.arguments` node. */
  datatype Arguments = Arguments(
    posonlyargs: seq<Param>,
    args: seq<Param>,
    vararg: Option<Param>,
    kwonlyargs: seq<Param>,
    kwarg: Option<Param>,
    defaults: seq<Expr>)

  /** Statement shapes. `OtherStmt` stands for every statement the generator
      does not distinguish. */
  datatype Stmt =
    | FunctionDef(name: string, args: Arguments, returnAnnotation: Option<Expr>, body: seq<Stmt>)
    | AsyncFunctionDef(name: string, body: seq<Stmt>)
    | ClassDef(name: string, body: seq<Stmt>)
    | Assign(targets: seq<Expr>, value: Expr)
    | AnnAssign(target: Expr, annotation: Expr)
    | Import(names: seq<string>)
    | ImportFrom(fromModule: Option<string>, names: seq<string>)
    | ExprStmt(value: Expr)
    | OtherStmt(kind: string)
}
