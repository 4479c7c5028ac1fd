/** The parsed and type-checked program as the Go front-end hands it over:
    syntax nodes, packages, objects and types are identity tokens (an `id`)
    carrying the positions and links the queries look at. Positions are
    `token.Pos` values: plain integers, ordered across all files. */
module GoAst {
  import opened Wrappers

  type Pos = int

  /** `*types.Package`: identity plus `Path()`. */
  datatype Package = Package(id: nat, path: string)

  /** `*types.Scope`: a lexical region `[pos, end)`. */
  datatype Scope = Scope(id: nat, pos: Pos, end: Pos) {
    /** `Scope.Contains` of go/types: the span is half open. */
    predicate Contains(p: Pos) {
      pos <= p < end
    }
  }

  /** A `constant.Value`, kept opaque. */
  datatype ConstValue = ConstValue(id: nat)

  /** The dynamic type of a `types.Object`. A function object carries its
      lexical scope (`(*types.Func).Scope()`). */
  datatype ObjKind =
    | ConstObj(val: ConstValue)
    | TypeNameObj
    | VarObj
    | FuncObj(scope: Scope)
    | PkgNameObj
    | LabelObj
    | BuiltinObj
    | NilObj

  /** A `types.Object`; `pkg` is `Pkg()`, nil for universe objects. Its type
      (`Type()`) is given by the front-end as a function, see `Program`. */
  datatype Object = Object(id: nat, name: string, kind: ObjKind, pkg: Option<Package>)

  /** A `types.Type`. Every value carries its own identity: two structurally
      equal types with different ids are different map keys, as in Go. */
  datatype Type =
    | Named(id: nat, obj: Object)
    | Pointer(id: nat, elem: Type)
    | Struct(id: nat)
    | Signature(id: nat, recv: Option<Object>)
    | OtherType(id: nat)

  /** `types.TypeAndValue`: the recorded type and, for constants, the value. */
  datatype TypeAndValue = TypeAndValue(typ: Type, value: Option<ConstValue>)

  /** `*types.Selection`, kept opaque. */
  datatype Selection = Selection(id: nat)

  /** `*ast.CommentGroup`; `text` is what `Text()` returns. */
  datatype CommentGroup = CommentGroup(id: nat, pos: Pos, text: string)

  /** The keyword of a `*ast.GenDecl`. */
  datatype Token = IMPORT | CONST | TYPE | VAR

  /** `*ast.Ident`; its `Pos()` is `pos`. */
  datatype Ident = Ident(id: nat, name: string, pos: Pos)

  /** The dynamic type of an `ast.Node`, with the children the queries use. */
  datatype Kind =
    | File(decls: seq<Node>)
    | GenDecl(tok: Token, specs: seq<Node>)
    | FuncDecl(body: Option<Node>)
    | BadDecl
    | ValueSpec(names: seq<Ident>, comment: Option<CommentGroup>)
    | TypeSpec
    | ImportSpec
    | Field
    | Stmt
    | IdentExpr(ident: Ident)
    | CallExpr(fun: Node)
    | SelectorExpr(x: Node, sel: Ident)
    | OtherNode

  /** An `ast.Node`: identity, dynamic type, `Pos()` and `End()`. */
  datatype Node = Node(id: nat, kind: Kind, pos: Pos, end: Pos) {
    /** Implements `ast.Decl`. */
    predicate IsDecl() { kind.GenDecl? || kind.FuncDecl? || kind.BadDecl? }
    /** Implements `ast.Spec`. */
    predicate IsSpec() { kind.ValueSpec? || kind.TypeSpec? || kind.ImportSpec? }
  }

  /** `*ast.File`. */
  type FileNode = n: Node | n.kind.File? witness Node(0, File([]), 0, 0)

  /** `*loader.PackageInfo`: the package, its files and the front-end's
      tables (`types.Info`). `defs` maps an identifier to nil when it
      defines no object (the package clause, a type switch symbol). */
  datatype PackageInfo = PackageInfo(
    id: nat,
    pkg: Package,
    files: seq<FileNode>,
    types: map<Node, TypeAndValue>,
    defs: map<Ident, Option<Object>>,
    uses: map<Ident, Object>,
    selections: map<Node, Selection>,
    scopes: map<Node, Scope>)
}
