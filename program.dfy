/** `Program` and its queries (program/program.go), except the enum
    heuristic and the comment association, which have modules of their own. */
module ProgramIndex {
  import opened Wrappers
  import opened GoAst
  import opened GoStrings
  import opened PosIndex
  import opened AstFileCache
  import opened FuncCache
  import opened TypeCache

  /** `Program`: the loaded packages (`AllPackages`), the file index, the
      function index and the type cache. `objType` is `types.Object.Type()`
      and `typeString` is `types.Type.String()` of the front-end. */
  datatype Program = Program(
    packagePath: string,
    allPackages: map<Package, PackageInfo>,
    astFiles: seq<AstFile>,
    fns: seq<Fn>,
    tys: map<Type, Tp>,
    objType: Object -> Type,
    typeString: Type -> string)

  /** The three indices are those built from `allPackages`. */
  ghost predicate Built(p: Program) {
    && IsIndexOf(AllFiles(p.allPackages), FileEnd, p.astFiles)
    && IsIndexOf(AllFns(p.allPackages), ScopeEnd, p.fns)
    && IsTypeCacheOf(p.allPackages, p.typeString, p.tys)
  }

  /** `NewProgram` after the loader has run: build the three indices once. */
  method NewProgram(packagePath: string, allPackages: map<Package, PackageInfo>,
                    objType: Object -> Type, typeString: Type -> string) returns (p: Program)
    ensures p.packagePath == packagePath && p.allPackages == allPackages
    ensures p.objType == objType && p.typeString == typeString
    ensures Built(p)
  {
    var files := NewASTFiles(allPackages);
    var fs := NewFns(allPackages);
    var tys := NewTypeCache(allPackages, typeString);
    p := Program(packagePath, allPackages, files, fs, tys, objType, typeString);
  }

  /** `PkgContains`: whether `targetPkg` is one of `pkgs`. */
  method PkgContains(pkgs: seq<Package>, targetPkg: Package) returns (found: bool)
    ensures found <==> targetPkg in pkgs
  {
    for i := 0 to |pkgs|
      invariant targetPkg !in pkgs[..i]
    {
      if pkgs[i] == targetPkg {
        return true;
      }
    }
    return false;
  }

  /** The filter of `deleteBuiltinAndVendorPackages`: the package lies in
      the project's own vendor copy of its first path segment, or under the
      project path but not under its `vendor` directory. All three tests
      are string prefixes, not path prefixes. */
  predicate KeepsPackage(packagePath: string, pkgPath: string) {
    var bizVendorPath := packagePath + "/vendor";
    var typeVendorPath := packagePath + "/vendor/" + FirstSegment(packagePath);
    HasPrefix(pkgPath, typeVendorPath)
    || (HasPrefix(pkgPath, packagePath) && !HasPrefix(pkgPath, bizVendorPath))
  }

  /** `deleteBuiltinAndVendorPackages`: the non-nil packages the filter
      keeps, each with its own `PackageInfo`. */
  method DeleteBuiltinAndVendorPackages(packagePath: string, pkgs: map<Option<Package>, PackageInfo>)
    returns (bizPackages: map<Option<Package>, PackageInfo>)
    ensures forall k :: k in bizPackages <==> k in pkgs && k.Some? && KeepsPackage(packagePath, k.value.path)
    ensures forall k :: k in bizPackages ==> bizPackages[k] == pkgs[k]
  {
    bizPackages := map[];
    var remaining := pkgs.Keys;
    while remaining != {}
      invariant remaining <= pkgs.Keys
      invariant forall k :: k in bizPackages <==>
                  k in pkgs && k !in remaining && k.Some? && KeepsPackage(packagePath, k.value.path)
      invariant forall k :: k in bizPackages ==> bizPackages[k] == pkgs[k]
      decreases remaining
    {
      var pkg :| pkg in remaining;
      if pkg.Some? && KeepsPackage(packagePath, pkg.value.path) {
        bizPackages := bizPackages[pkg := pkgs[pkg]];
      }
      remaining := remaining - {pkg};
    }
  }

  /** The project's own package is kept. */
  lemma KeepsRoot(packagePath: string)
    ensures KeepsPackage(packagePath, packagePath)
  {
    var bizVendorPath := packagePath + "/vendor";
    assert |bizVendorPath| > |packagePath|;
  }

  /** A vendored package outside the vendor copy of the project's first
      path segment is dropped. */
  lemma DropsForeignVendor(packagePath: string, rest: string)
    requires !HasPrefix(rest, FirstSegment(packagePath))
    ensures !KeepsPackage(packagePath, packagePath + "/vendor/" + rest)
  {
    NotPrefixOfConcat(packagePath + "/vendor/", FirstSegment(packagePath), rest);
    assert HasPrefix(packagePath + "/vendor/" + rest, packagePath + "/vendor");
  }

  lemma NotPrefixOfConcat(a: string, b: string, c: string)
    requires !(b <= c)
    ensures !(a + b <= a + c)
  {
    if a + b <= a + c {
      assert forall i :: 0 <= i < |b| ==> b[i] == (a + b)[|a| + i] == (a + c)[|a| + i] == c[i];
    }
  }

  /** Because the tests are string prefixes, a sibling whose name merely
      starts with the project path is kept as if it were inside it. */
  lemma KeepsPrefixSibling()
    ensures KeepsPackage("a/app", "a/application")
  {
    var path := "a/application";
    assert "a/app" <= path;
    assert path[5] != "a/app/vendor"[5];
  }

  /** `TypeString`: the cached rendering, `""` for a type the front-end
      never recorded. On a built program that is `Type.String()` of every
      observed type. */
  function TypeString(p: Program, t: Type): (s: string)
    ensures Built(p) ==> s == (if t in ObservedTypes(p.allPackages) then p.typeString(t) else "")
  {
    if t in p.tys then p.tys[t].str else ""
  }

  /** `FileOf`: the file of the entry `searchByPos` finds; nil when it finds
      nothing and when it finds the sentinel. */
  function FileOf(p: Program, node: Node): (r: Option<FileNode>)
    ensures Sorted(p.astFiles) && r.Some? ==>
              exists i :: 0 <= i < |p.astFiles| && Resolves(p.astFiles, i, node.pos) && p.astFiles[i].item == r
    ensures StrictlySorted(p.astFiles) ==>
              forall i :: 0 <= i < |p.astFiles| && Resolves(p.astFiles, i, node.pos) ==> r == p.astFiles[i].item
  {
    match SearchByPos(p.astFiles, node.pos)
    case None => None
    case Some(file) => file.item
  }

  /** `PackageOf`: the package of the entry `searchByPos` finds. */
  function PackageOf(p: Program, node: Node): (r: Option<Package>)
    ensures Sorted(p.astFiles) && r.Some? ==>
              exists i :: 0 <= i < |p.astFiles| && Resolves(p.astFiles, i, node.pos) && p.astFiles[i].pkg == r
    ensures StrictlySorted(p.astFiles) ==>
              forall i :: 0 <= i < |p.astFiles| && Resolves(p.astFiles, i, node.pos) ==> r == p.astFiles[i].pkg
  {
    match SearchByPos(p.astFiles, node.pos)
    case None => None
    case Some(file) => file.pkg
  }

  /** `PackageInfoOf`: the `PackageInfo` of the entry `searchByPos` finds. */
  function PackageInfoOf(p: Program, node: Node): (r: Option<PackageInfo>)
    ensures r == WithPkgInfoContains(p, node.pos)
  {
    match SearchByPos(p.astFiles, node.pos)
    case None => None
    case Some(file) => file.pkgInfo
  }

  /** `WithPkgInfoContains`: the same lookup, by position. */
  function WithPkgInfoContains(p: Program, pos: Pos): (r: Option<PackageInfo>)
    ensures Sorted(p.astFiles) && r.Some? ==>
              exists i :: 0 <= i < |p.astFiles| && Resolves(p.astFiles, i, pos) && p.astFiles[i].pkgInfo == r
    ensures StrictlySorted(p.astFiles) ==>
              forall i :: 0 <= i < |p.astFiles| && Resolves(p.astFiles, i, pos) ==> r == p.astFiles[i].pkgInfo
  {
    match SearchByPos(p.astFiles, pos)
    case None => None
    case Some(file) => file.pkgInfo
  }

  /** `WitchFunc`: the function of the entry the function index finds. */
  function WitchFunc(p: Program, pos: Pos): (r: Option<Func>)
    ensures Sorted(p.fns) && r.Some? ==>
              exists i :: 0 <= i < |p.fns| && Resolves(p.fns, i, pos) && p.fns[i].item == r
    ensures StrictlySorted(p.fns) ==>
              forall i :: 0 <= i < |p.fns| && Resolves(p.fns, i, pos) ==> r == p.fns[i].item
  {
    match SearchByPos(p.fns, pos)
    case None => None
    case Some(f) => f.item
  }

  /** On a built program whose files start at distinct positions, the
      start of every file finds that file, its package and its
      `PackageInfo`. */
  lemma FileOfOwnStart(p: Program, pkg: Package, i: nat)
    requires Built(p) && StrictlySorted(p.astFiles)
    requires pkg in p.allPackages && i < |p.allPackages[pkg].files|
    ensures var f := p.allPackages[pkg].files[i];
            && FileOf(p, f) == Some(f)
            && PackageOf(p, f) == Some(pkg)
            && PackageInfoOf(p, f) == Some(p.allPackages[pkg])
            && PackageInfoFor(p, f.pos) == Ok(p.allPackages[pkg])
  {
    var info := p.allPackages[pkg];
    var f := info.files[i];
    FileIsIndexed(p.allPackages, pkg, i);
    IndexedEntryFound(AllFiles(p.allPackages), FileEnd, p.astFiles, Entry(Some(pkg), Some(info), Some(f), f.pos));
  }

  /** On a built program whose function scopes start at distinct positions,
      the start of a function's scope finds that function. */
  lemma WitchFuncAtScopeStart(p: Program, pkg: Package, id: Ident)
    requires Built(p) && StrictlySorted(p.fns)
    requires pkg in p.allPackages && id in p.allPackages[pkg].defs
    requires p.allPackages[pkg].defs[id].Some? && p.allPackages[pkg].defs[id].value.kind.FuncObj?
    ensures var f := p.allPackages[pkg].defs[id].value;
            WitchFunc(p, f.kind.scope.pos) == Some(f)
  {
    var info := p.allPackages[pkg];
    var f: Func := info.defs[id].value;
    FuncIsIndexed(p.allPackages, pkg, id);
    IndexedEntryFound(AllFns(p.allPackages), ScopeEnd, p.fns, Entry(Some(pkg), Some(info), Some(f), f.kind.scope.pos));
  }

  /** The sentinel position finds the sentinel itself, so `FileOf` and
      `PackageOf` answer nil there, although the position is that of the
      end of the last file. */
  lemma SentinelHasNoFile(p: Program, node: Node)
    requires Built(p) && StrictlySorted(p.astFiles)
    requires |p.astFiles| > 1 && node.pos == p.astFiles[|p.astFiles| - 1].pos
    ensures SearchByPos(p.astFiles, node.pos) == Some(Entry(None, None, None, node.pos))
    ensures FileOf(p, node).None? && PackageOf(p, node).None?
  {
    var s := p.astFiles;
    assert Resolves(s, |s| - 1, node.pos);
  }

  /** With exactly one file there is no sentinel: only the file's own start
      position finds it; every other position inside it finds nothing. */
  lemma SingleFileOnlyItsStart(p: Program, node: Node)
    requires Built(p) && |AllFiles(p.allPackages)| == 1
    ensures FileOf(p, node).Some? <==> node.pos == p.astFiles[0].pos
  {
    var e := p.astFiles[0];
    assert e in multiset(p.astFiles[..1]);
    IndexedIsFile(p.allPackages, e);
    SingleEntryOnlyStart(p.astFiles, node.pos);
  }

  /** `program.Package(program.PackageOf(node).Path())` as the queries use
      it: a panic when no package is found (nil `Path()`) or the package is
      not loaded (nil `PackageInfo` dereferenced by every caller). */
  function PackageInfoFor(p: Program, pos: Pos): (r: Outcome<PackageInfo>)
    ensures |p.astFiles| == 0 ==> r.Panic?
    ensures Sorted(p.astFiles) && (forall i :: 0 <= i < |p.astFiles| ==> !Resolves(p.astFiles, i, pos)) ==> r.Panic?
    ensures StrictlySorted(p.astFiles) ==>
              forall i :: 0 <= i < |p.astFiles| && Resolves(p.astFiles, i, pos) ==>
                r == (if p.astFiles[i].pkg.Some? && p.astFiles[i].pkg.value in p.allPackages
                      then Ok(p.allPackages[p.astFiles[i].pkg.value]) else Panic)
    ensures Sorted(p.astFiles) && r.Ok? ==>
              exists i :: && 0 <= i < |p.astFiles| && Resolves(p.astFiles, i, pos)
                          && p.astFiles[i].pkg.Some? && p.astFiles[i].pkg.value in p.allPackages
                          && r.value == p.allPackages[p.astFiles[i].pkg.value]
  {
    match SearchByPos(p.astFiles, pos)
    case None => Panic
    case Some(file) =>
      if file.pkg.Some? && file.pkg.value in p.allPackages then Ok(p.allPackages[file.pkg.value]) else Panic
  }

  /** `types.Info.ObjectOf`: the object `id` defines, else the one it uses. */
  function InfoObjectOf(info: PackageInfo, id: Ident): (r: Option<Object>)
    ensures r.Some? ==> (id in info.defs && info.defs[id] == r) || (id in info.uses && info.uses[id] == r.value)
    ensures r.None? ==> (id !in info.defs || info.defs[id].None?) && id !in info.uses
  {
    if id in info.defs && info.defs[id].Some? then info.defs[id]
    else if id in info.uses then Some(info.uses[id])
    else None
  }

  /** `ObjectOf`. */
  function ObjectOf(p: Program, id: Ident): (r: Outcome<Option<Object>>)
    ensures r.Panic? <==> PackageInfoFor(p, id.pos).Panic?
    ensures r.Ok? && r.value.Some? ==>
              var info := PackageInfoFor(p, id.pos).value;
              (id in info.defs && info.defs[id] == r.value) || (id in info.uses && info.uses[id] == r.value.value)
    ensures r.Ok? && r.value.None? ==>
              var info := PackageInfoFor(p, id.pos).value;
              (id !in info.defs || info.defs[id].None?) && id !in info.uses
  {
    match PackageInfoFor(p, id.pos)
    case Panic => Panic
    case Ok(info) => Ok(InfoObjectOf(info, id))
  }

  /** `TypeOf` (`types.Info.TypeOf`): the recorded type of `e`, else for an
      identifier the type of its object, else nil. */
  function TypeOf(p: Program, e: Node): (r: Outcome<Option<Type>>)
    ensures r.Panic? <==> PackageInfoFor(p, e.pos).Panic?
    ensures r.Ok? && r.value.Some? ==>
              var info := PackageInfoFor(p, e.pos).value;
              || (e in info.types && info.types[e].typ == r.value.value)
              || (e !in info.types && e.kind.IdentExpr?
                  && exists obj :: InfoObjectOf(info, e.kind.ident) == Some(obj) && p.objType(obj) == r.value.value)
    ensures r.Ok? && r.value.None? ==>
              var info := PackageInfoFor(p, e.pos).value;
              e !in info.types && (e.kind.IdentExpr? ==> InfoObjectOf(info, e.kind.ident).None?)
  {
    match PackageInfoFor(p, e.pos)
    case Panic => Panic
    case Ok(info) =>
      if e in info.types then Ok(Some(info.types[e].typ))
      else if e.kind.IdentExpr? then
        match InfoObjectOf(info, e.kind.ident)
        case None => Ok(None)
        case Some(obj) => Ok(Some(p.objType(obj)))
      else Ok(None)
  }

  /** `ValueOf`: the recorded constant value of `e`, nil if there is none. */
  function ValueOf(p: Program, e: Node): (r: Outcome<Option<ConstValue>>)
    ensures r.Panic? <==> PackageInfoFor(p, e.pos).Panic?
    ensures r.Ok? ==>
              var info := PackageInfoFor(p, e.pos).value;
              r.value == (if e in info.types then info.types[e].value else None)
  {
    match PackageInfoFor(p, e.pos)
    case Panic => Panic
    case Ok(info) => if e in info.types && info.types[e].value.Some? then Ok(info.types[e].value) else Ok(None)
  }

  /** `DefOf`: the defining object behind an identifier. A pointer type
      leads to the object of the named type it points to, a named type to
      its own object, any other type to the identifier's object. Panics
      where Go dereferences nil or a type assertion fails. */
  function DefOf(p: Program, id: Ident): (r: Outcome<Object>)
    ensures r.Ok? ==> exists obj :: ObjectOf(p, id) == Ok(Some(obj)) && DefinedBy(p.objType(obj), obj, r.value)
    ensures (exists obj :: ObjectOf(p, id) == Ok(Some(obj)) && !PointsToNonNamed(p.objType(obj))) ==> r.Ok?
  {
    match ObjectOf(p, id)
    case Panic => Panic
    case Ok(None) => Panic
    case Ok(Some(obj)) =>
      match p.objType(obj)
      case Pointer(_, elem) => if elem.Named? then Ok(elem.obj) else Panic
      case Named(_, o) => Ok(o)
      case _ => Ok(obj)
  }

  /** `def` is the object that defines the type `t` of `obj`: the named
      type's object when `t` is named or points to a named type, `obj`
      itself otherwise. */
  ghost predicate DefinedBy(t: Type, obj: Object, def: Object) {
    match t
    case Named(_, o) => def == o
    case Pointer(_, elem) => elem.Named? && def == elem.obj
    case _ => def == obj
  }

  ghost predicate PointsToNonNamed(t: Type) {
    t.Pointer? && !t.elem.Named?
  }

  /** `id` defines `target` in the package that owns `target`. */
  ghost predicate DefinesIn(p: Program, target: Object, id: Ident)
    requires target.pkg.Some? && target.pkg.value in p.allPackages
  {
    id in p.allPackages[target.pkg.value].defs && p.allPackages[target.pkg.value].defs[id] == Some(target)
  }

  /** `IdentOf`: an identifier defining `targetDef` in its own package.
      `Defs` is a Go map, so which one is returned when several qualify is
      unspecified; nil means none does. Panics on an object without a
      package (nil `Pkg()`) and on a package that is not loaded. */
  method IdentOf(p: Program, targetDef: Object) returns (r: Outcome<Option<Ident>>)
    ensures r.Panic? <==> targetDef.pkg.None? || targetDef.pkg.value !in p.allPackages
    ensures r.Ok? && r.value.Some? ==> DefinesIn(p, targetDef, r.value.value)
    ensures r.Ok? && r.value.None? ==> forall id :: !DefinesIn(p, targetDef, id)
  {
    if targetDef.pkg.None? || targetDef.pkg.value !in p.allPackages {
      return Panic;
    }
    var info := p.allPackages[targetDef.pkg.value];
    var ids := info.defs.Keys;
    while ids != {}
      invariant ids <= info.defs.Keys
      invariant forall id :: id in info.defs && id !in ids ==> info.defs[id] != Some(targetDef)
      decreases ids
    {
      var id :| id in ids;
      if info.defs[id] == Some(targetDef) {
        return Ok(Some(id));
      }
      ids := ids - {id};
    }
    return Ok(None);
  }

  /** Where `WhereDecl` says a type is declared. `NilIdent` is the nil
      `*ast.Ident` of a failed `IdentOf` returned as an `ast.Expr`: an
      interface that is not nil although the pointer it holds is. */
  datatype DeclSite = AtIdent(ident: Ident) | NilIdent | AtExpr(expr: Node)

  /** `WhereDecl`: for a named type, the identifier that defines its object
      (a typed nil when there is none); for a struct type, the cached
      representative expression; nil otherwise (the source also logs a
      line). */
  method WhereDecl(p: Program, targetTpe: Type) returns (r: Outcome<Option<DeclSite>>)
    ensures targetTpe.Named? ==> (r.Panic? <==> targetTpe.obj.pkg.None? || targetTpe.obj.pkg.value !in p.allPackages)
    ensures targetTpe.Named? && r.Ok? ==> r.value.Some? && !r.value.value.AtExpr?
    ensures targetTpe.Named? && r.Ok? && r.value.value.AtIdent? ==> DefinesIn(p, targetTpe.obj, r.value.value.ident)
    ensures targetTpe.Named? && r.Ok? ==> (r.value.value.NilIdent? <==> forall id :: !DefinesIn(p, targetTpe.obj, id))
    ensures targetTpe.Struct? ==> r == Ok(if targetTpe in p.tys then Some(AtExpr(p.tys[targetTpe].expr)) else None)
    ensures !targetTpe.Named? && !targetTpe.Struct? ==> r == Ok(None)
  {
    if targetTpe.Named? {
      var id := IdentOf(p, targetTpe.obj);
      if id.Panic? {
        return Panic;
      } else if id.value.None? {
        return Ok(Some(NilIdent));
      }
      return Ok(Some(AtIdent(id.value.value)));
    } else if targetTpe.Struct? {
      if targetTpe in p.tys {
        return Ok(Some(AtExpr(p.tys[targetTpe].expr)));
      }
      return Ok(None);
    }
    return Ok(None);
  }

  /** On a built program, the expression `WhereDecl` gives for an observed
      struct type is one the front-end recorded with that very type. */
  lemma WhereDeclOfStruct(p: Program, t: Type)
    requires Built(p) && t.Struct? && t in ObservedTypes(p.allPackages)
    ensures t in p.tys && Records(p.allPackages, p.tys[t].expr, t)
  {
  }

  /** The position a scope must start at to belong to `node`: a function's
      scope starts at its body, any other node's at the node. */
  function ScopeAnchor(node: Node): Option<Pos> {
    if node.kind.FuncDecl? then
      (if node.kind.body.Some? then Some(node.kind.body.value.pos) else None)
    else Some(node.pos)
  }

  /** `ScopeOf`: a scope of the node's package that starts at the node's
      anchor. `Scopes` is a Go map, so which one is returned when several
      qualify is unspecified. Panics when the package is not found, and on
      a function declaration without a body once there is any scope to
      compare (nil `Body`). */
  method ScopeOf(p: Program, targetNode: Node) returns (r: Outcome<Option<Scope>>)
    ensures PackageInfoFor(p, targetNode.pos).Panic? ==> r.Panic?
    ensures PackageInfoFor(p, targetNode.pos).Ok? ==>
              var info := PackageInfoFor(p, targetNode.pos).value;
              && (r.Panic? <==> ScopeAnchor(targetNode).None? && info.scopes != map[])
              && (r.Ok? && r.value.Some? ==>
                    r.value.value in info.scopes.Values && Some(r.value.value.pos) == ScopeAnchor(targetNode))
              && (r.Ok? && r.value.None? ==>
                    forall n :: n in info.scopes ==> Some(info.scopes[n].pos) != ScopeAnchor(targetNode))
  {
    var found := PackageInfoFor(p, targetNode.pos);
    if found.Panic? {
      return Panic;
    }
    var info := found.value;
    var keys := info.scopes.Keys;
    while keys != {}
      invariant keys <= info.scopes.Keys
      invariant keys != info.scopes.Keys ==> ScopeAnchor(targetNode).Some?
      invariant forall n :: n in info.scopes && n !in keys ==> Some(info.scopes[n].pos) != ScopeAnchor(targetNode)
      decreases keys
    {
      var n :| n in keys;
      var scope := info.scopes[n];
      if targetNode.kind.FuncDecl? {
        if targetNode.kind.body.None? {
          return Panic;
        }
        if targetNode.kind.body.value.pos == scope.pos {
          return Ok(Some(scope));
        }
      } else if targetNode.pos == scope.pos {
        return Ok(Some(scope));
      }
      keys := keys - {n};
    }
    return Ok(None);
  }

  /** The callee of a call is `id`, directly or as the selected member. */
  predicate CallsIdent(call: Node, id: Ident) {
    call.kind.CallExpr?
    && ((call.kind.fun.kind.IdentExpr? && call.kind.fun.kind.ident == id)
        || (call.kind.fun.kind.SelectorExpr? && call.kind.fun.kind.sel == id))
  }

  /** `CallExprById`: a call expression of the identifier's package whose
      callee is `id`; which one when several qualify is unspecified; nil
      when none does. Panics when no `PackageInfo` is found. */
  method CallExprById(p: Program, id: Ident) returns (r: Outcome<Option<Node>>)
    ensures r.Panic? <==> WithPkgInfoContains(p, id.pos).None?
    ensures r.Ok? && r.value.Some? ==>
              var info := WithPkgInfoContains(p, id.pos).value;
              r.value.value in info.types && CallsIdent(r.value.value, id)
    ensures r.Ok? && r.value.None? ==>
              var info := WithPkgInfoContains(p, id.pos).value;
              forall e :: e in info.types ==> !CallsIdent(e, id)
  {
    var found := WithPkgInfoContains(p, id.pos);
    if found.None? {
      return Panic;
    }
    var info := found.value;
    var exprs := info.types.Keys;
    while exprs != {}
      invariant exprs <= info.types.Keys
      invariant forall e :: e in info.types && e !in exprs ==> !CallsIdent(e, id)
      decreases exprs
    {
      var e :| e in exprs;
      if e.kind.CallExpr? {
        match e.kind.fun.kind
        case IdentExpr(ident) =>
          if ident == id {
            return Ok(Some(e));
          }
        case SelectorExpr(_, sel) =>
          if sel == id {
            return Ok(Some(e));
          }
        case _ =>
      }
      exprs := exprs - {e};
    }
    return Ok(None);
  }

  /** The entries of `m` whose key lies in `scope` (`Scope.Contains`). */
  method RestrictToScope<K, V>(m: map<K, V>, posOf: K -> Pos, scope: Scope) returns (r: map<K, V>)
    ensures forall k :: k in r <==> k in m && scope.Contains(posOf(k))
    ensures forall k :: k in r ==> r[k] == m[k]
  {
    r := map[];
    var keys := m.Keys;
    while keys != {}
      invariant keys <= m.Keys
      invariant forall k :: k in r <==> k in m && k !in keys && scope.Contains(posOf(k))
      invariant forall k :: k in r ==> r[k] == m[k]
      decreases keys
    {
      var k :| k in keys;
      if scope.Contains(posOf(k)) {
        r := r[k := m[k]];
      }
      keys := keys - {k};
    }
  }

  /** `DefsInScope`: the definitions of the scope's package positioned in
      the scope; empty when no package is found. */
  method DefsInScope(p: Program, scope: Scope) returns (defs: map<Ident, Option<Object>>)
    ensures WithPkgInfoContains(p, scope.pos).None? ==> defs == map[]
    ensures WithPkgInfoContains(p, scope.pos).Some? ==>
              var info := WithPkgInfoContains(p, scope.pos).value;
              && (forall id :: id in defs <==> id in info.defs && scope.Contains(id.pos))
              && (forall id :: id in defs ==> defs[id] == info.defs[id])
  {
    var found := WithPkgInfoContains(p, scope.pos);
    defs := map[];
    if found.Some? {
      defs := RestrictToScope(found.value.defs, (id: Ident) => id.pos, scope);
    }
  }

  /** `UsesInScope`: the uses of the scope's package positioned in the
      scope; empty when no package is found. */
  method UsesInScope(p: Program, scope: Scope) returns (uses: map<Ident, Object>)
    ensures WithPkgInfoContains(p, scope.pos).None? ==> uses == map[]
    ensures WithPkgInfoContains(p, scope.pos).Some? ==>
              var info := WithPkgInfoContains(p, scope.pos).value;
              && (forall id :: id in uses <==> id in info.uses && scope.Contains(id.pos))
              && (forall id :: id in uses ==> uses[id] == info.uses[id])
  {
    var found := WithPkgInfoContains(p, scope.pos);
    uses := map[];
    if found.Some? {
      uses := RestrictToScope(found.value.uses, (id: Ident) => id.pos, scope);
    }
  }

  /** `SelectionsInScope`: the selector expressions of the scope's package
      positioned in the scope; empty when no package is found. */
  method SelectionsInScope(p: Program, scope: Scope) returns (selections: map<Node, Selection>)
    ensures WithPkgInfoContains(p, scope.pos).None? ==> selections == map[]
    ensures WithPkgInfoContains(p, scope.pos).Some? ==>
              var info := WithPkgInfoContains(p, scope.pos).value;
              && (forall e :: e in selections <==> e in info.selections && scope.Contains(e.pos))
              && (forall e :: e in selections ==> selections[e] == info.selections[e])
  {
    var found := WithPkgInfoContains(p, scope.pos);
    selections := map[];
    if found.Some? {
      selections := RestrictToScope(found.value.selections, (e: Node) => e.pos, scope);
    }
  }

  /** `def` is a function whose signature has a receiver of exactly type
      `tpe` (identity: a pointer receiver and a value receiver differ):
      the three tests of the inner loop of `MethodsOf`. */
  predicate IsMethodOf(objType: Object -> Type, def: Option<Object>, tpe: Type) {
    && def.Some? && def.value.kind.FuncObj?
    && objType(def.value).Signature?
    && objType(def.value).recv.Some?
    && objType(objType(def.value).recv.value) == tpe
  }

  /** The methods of `tpe` defined in the packages `keys`. */
  ghost function MethodsIn(p: Program, tpe: Type, keys: set<Package>): set<Object> {
    set pkg, id | pkg in keys && pkg in p.allPackages && id in p.allPackages[pkg].defs
                  && IsMethodOf(p.objType, p.allPackages[pkg].defs[id], tpe) :: p.allPackages[pkg].defs[id].value
  }

  /** The methods of `tpe` defined by the identifiers `ids` of `info`. */
  ghost function MethodsDefinedBy(objType: Object -> Type, tpe: Type, info: PackageInfo, ids: set<Ident>): set<Object> {
    set id | id in ids && id in info.defs && IsMethodOf(objType, info.defs[id], tpe) :: info.defs[id].value
  }

  lemma MethodsDefinedByStep(objType: Object -> Type, tpe: Type, info: PackageInfo, ids: set<Ident>,
                             remaining: set<Ident>, id: Ident)
    requires id in remaining && remaining <= info.defs.Keys && ids == info.defs.Keys - remaining
    ensures info.defs.Keys - (remaining - {id}) == ids + {id}
    ensures MethodsDefinedBy(objType, tpe, info, ids + {id})
         == MethodsDefinedBy(objType, tpe, info, ids)
            + (if IsMethodOf(objType, info.defs[id], tpe) then {info.defs[id].value} else {})
  {
  }

  lemma MethodsInStep(p: Program, tpe: Type, done: set<Package>, pkg: Package)
    requires pkg in p.allPackages
    ensures MethodsIn(p, tpe, done + {pkg})
         == MethodsIn(p, tpe, done) + MethodsDefinedBy(p.objType, tpe, p.allPackages[pkg], p.allPackages[pkg].defs.Keys)
  {
  }

  /** `MethodsOf`: every function of every package whose receiver type is
      `tpe`, mapped to its signature. */
  method MethodsOf(p: Program, tpe: Type) returns (methods: map<Object, Type>)
    ensures methods.Keys == MethodsIn(p, tpe, p.allPackages.Keys)
    ensures forall f :: f in methods ==> methods[f] == p.objType(f) && p.objType(f).Signature?
  {
    methods := map[];
    var remaining := p.allPackages.Keys;
    while remaining != {}
      invariant remaining <= p.allPackages.Keys
      invariant methods.Keys == MethodsIn(p, tpe, p.allPackages.Keys - remaining)
      invariant forall f :: f in methods ==> methods[f] == p.objType(f)
      decreases remaining
    {
      var pkg :| pkg in remaining;
      methods := PackageMethods(p.objType, tpe, p.allPackages[pkg], methods);
      MethodsInStep(p, tpe, p.allPackages.Keys - remaining, pkg);
      assert p.allPackages.Keys - (remaining - {pkg}) == (p.allPackages.Keys - remaining) + {pkg};
      remaining := remaining - {pkg};
    }
    forall f | f in methods
      ensures p.objType(f).Signature?
    {
      MethodHasSignature(p, tpe, p.allPackages.Keys, f);
    }
  }

  /** What `MethodsIn` collects are functions with a signature. */
  lemma MethodHasSignature(p: Program, tpe: Type, keys: set<Package>, f: Object)
    requires f in MethodsIn(p, tpe, keys)
    ensures f.kind.FuncObj? && p.objType(f).Signature?
  {
    var pkg, id :| pkg in keys && pkg in p.allPackages && id in p.allPackages[pkg].defs
                   && IsMethodOf(p.objType, p.allPackages[pkg].defs[id], tpe) && p.allPackages[pkg].defs[id].value == f;
  }

  /** The inner loop of `MethodsOf`: add the methods of `tpe` that `info`
      defines to `methods`. */
  method PackageMethods(objType: Object -> Type, tpe: Type, info: PackageInfo, methods: map<Object, Type>)
    returns (updated: map<Object, Type>)
    requires forall f :: f in methods ==> methods[f] == objType(f)
    ensures updated.Keys == methods.Keys + MethodsDefinedBy(objType, tpe, info, info.defs.Keys)
    ensures forall f :: f in updated ==> updated[f] == objType(f)
  {
    updated := methods;
    var ids := info.defs.Keys;
    while ids != {}
      invariant ids <= info.defs.Keys
      invariant updated.Keys == methods.Keys + MethodsDefinedBy(objType, tpe, info, info.defs.Keys - ids)
      invariant forall f :: f in updated ==> updated[f] == objType(f)
      decreases ids
    {
      var id :| id in ids;
      var def := info.defs[id];
      MethodsDefinedByStep(objType, tpe, info, info.defs.Keys - ids, ids, id);
      if IsMethodOf(objType, def, tpe) {
        updated := updated[def.value := objType(def.value)];
      }
      ids := ids - {id};
    }
  }

  /** A function is a method of at most one receiver type. */
  lemma MethodOfOneType(p: Program, f: Object, t1: Type, t2: Type)
    requires f in MethodsIn(p, t1, p.allPackages.Keys) && f in MethodsIn(p, t2, p.allPackages.Keys)
    ensures t1 == t2
  {
    var pkg1, id1 :| pkg1 in p.allPackages && id1 in p.allPackages[pkg1].defs
                     && IsMethodOf(p.objType, p.allPackages[pkg1].defs[id1], t1) && p.allPackages[pkg1].defs[id1].value == f;
    var pkg2, id2 :| pkg2 in p.allPackages && id2 in p.allPackages[pkg2].defs
                     && IsMethodOf(p.objType, p.allPackages[pkg2].defs[id2], t2) && p.allPackages[pkg2].defs[id2].value == f;
  }

  /** `nodePos` lies strictly inside `decl`. */
  predicate StrictlyInside(nodePos: Pos, decl: Node) {
    decl.pos < nodePos < decl.end
  }

  /** `AstDeclOf`: the first top-level declaration of the node's file that
      strictly contains the node's position. Panics when the node has no
      file (nil `*ast.File`). */
  method AstDeclOf(p: Program, targetNode: Node) returns (r: Outcome<Option<Node>>)
    ensures r.Panic? <==> FileOf(p, targetNode).None?
    ensures r.Ok? && r.value.Some? ==>
              var decls := FileOf(p, targetNode).value.kind.decls;
              exists i :: 0 <= i < |decls| && decls[i] == r.value.value && StrictlyInside(targetNode.pos, decls[i])
                          && forall j :: 0 <= j < i ==> !StrictlyInside(targetNode.pos, decls[j])
    ensures r.Ok? && r.value.None? ==>
              forall d :: d in FileOf(p, targetNode).value.kind.decls ==> !StrictlyInside(targetNode.pos, d)
  {
    var file := FileOf(p, targetNode);
    if file.None? {
      return Panic;
    }
    var nodePos := targetNode.pos;
    var decls := file.value.kind.decls;
    for i := 0 to |decls|
      invariant forall j :: 0 <= j < i ==> !StrictlyInside(nodePos, decls[j])
    {
      if nodePos > decls[i].pos && nodePos < decls[i].end {
        return Ok(Some(decls[i]));
      }
    }
    return Ok(None);
  }
}
