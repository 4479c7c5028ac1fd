# gin-swagger program index, in Dafny

This project models the query layer of gin-swagger's `program` package. That layer works over a Go program that an external front-end has already parsed and type-checked. From the loaded packages it builds three indices once:

- the **file index** (`astFiles`): one entry per source file, keyed by the file's start position, sorted. When there are at least two files, a sentinel entry follows at the end of the last file.
- the **function index** (`fns`): one entry per `*types.Func` definition, keyed by the start of the function's scope, sorted, with a sentinel at the end of the last scope.
- the **type cache** (`tys`): one entry per observed type, holding an expression of that type and the type's rendering.

The queries answer "which file, package or function holds this position" with a lower-bound binary search. The other queries are lookups, filters and scans over the front-end's tables. Among them are the enum-option heuristic over `const` blocks and the association of comments with a node.

Front-end values are identity tokens carrying integer positions: packages, objects, types, scopes, AST nodes and comment groups (module `GoAst`). The front-end's tables (`Defs`, `Uses`, `Types`, `Selections`, `Scopes`) are Dafny maps. A Go map iterated with `range` becomes a Dafny map iterated with `:|`, so its visiting order is left unspecified. Where the result does not depend on that order, it is specified exactly: as a multiset of collected entries (`Multisets.SumOver`) or as a result map. Where it does depend on it, the contract says only that any answer returned meets the condition:

- the last write wins in the type cache;
- the first match wins in `IdentOf`, `CallExprById` and `ScopeOf`.

A Go panic (nil dereference, failed type assertion, index out of range) is the `Panic` case of `Wrappers.Outcome`, and a nil result is `None`. `sort.Sort` is modelled by an in-place insertion sort on an array (`Sorting.SortBy`), proved to sort and to permute.

Modules: `Wrappers`, `GoAst`, `GoStrings` (`strings.HasPrefix`, `Split(...)[0]`, `SplitN(..., "__", 2)`, `TrimSpace`), `Multisets`, `Sorting`, `PosIndex` (what the two position indices share), `AstFileCache`, `FuncCache`, `TypeCache`, `ProgramIndex` (`Program` and its queries), `EnumOptions`, `Comments`.

Four behaviours of the code that are easy to miss:

- Querying exactly the sentinel position makes `searchByPos` return the sentinel entry itself, not "not found". Only the projections (`FileOf`, `PackageOf`, ...) turn it into nil, because the sentinel's fields are nil (`ProgramIndex.SentinelHasNoFile`).
- With exactly one file there is no sentinel. Only that file's start position finds it; every other position inside it finds nothing (`ProgramIndex.SingleFileOnlyItsStart`).
- `TypeOf`, `ValueOf`, `ObjectOf` and `ScopeOf` do not answer "not found" when no package owns the position. They panic: `PackageOf(...).Path()` is called on nil, or the nil `PackageInfo` is dereferenced.
- `WhereDecl` of a named type whose object no identifier defines is not nil. `IdentOf` returns a nil `*ast.Ident`, and returning it as an `ast.Expr` makes a non-nil interface holding a nil pointer (`ProgramIndex.DeclSite.NilIdent`).

## Model

| member | source | states |
|---|---|---|
| Sorting.SortBy | program/ast_file_cache.go:39 | after `sort.Sort` the array is sorted by the key and is a permutation of its old contents |
| Sorting.Swap | program/ast_file_cache.go:23 | `Swap` exchanges exactly two elements and leaves the multiset unchanged |
| PosIndex.SearchFrom | program/ast_file_cache.go:49-51 | `sort.Search`: the result lies in the range; on a sorted index every entry before it is below `pos` and every entry from it on is at or above `pos` |
| PosIndex.SearchByPos | program/ast_file_cache.go:48-66 | an empty index finds nothing; on a sorted index a found entry is exact at `pos` or the last entry below `pos` with a successor above it; on distinct positions any such entry is the answer (the function index, program/func_cache.go:48-66, runs the same search) |
| PosIndex.SearchBelowFirst | program/ast_file_cache.go:61-62 | a position below the first entry finds nothing |
| PosIndex.SearchAboveLast | program/ast_file_cache.go:53-56 | a position above the last entry finds nothing |
| PosIndex.SearchBetween | program/ast_file_cache.go:63-64 | a position strictly between two neighbours finds the lower one |
| PosIndex.SingleEntryOnlyStart | program/ast_file_cache.go:40-43 | with one entry (no sentinel) a position finds something exactly when it is that entry's start |
| PosIndex.SortAndSeal | program/ast_file_cache.go:39-43 | the index is the collected entries sorted by position, plus a sentinel at the end of the last item exactly when there are more than one (`newFns`, program/func_cache.go:40-44, ends the same way, with the sentinel at the last function's scope end) |
| PosIndex.SentinelKeepsOrder | program/ast_file_cache.go:40-43 | when every item ends no earlier than it starts, the whole index including the sentinel is sorted |
| PosIndex.IndexedEntryFound | program/ast_file_cache.go:59-60 | on distinct positions every collected entry is found again by its own position |
| GoStrings.FirstSegment | program/program.go:64 | `strings.Split(path, "/")[0]`: a prefix of the path with no `/`, followed by `/` or the end |
| GoStrings.FindSeparator | program/program.go:311 | the first occurrence of `__` at or after a position, or none |
| GoStrings.SplitOnce | program/program.go:311 | `SplitN(name, "__", 2)`: two parts exactly when `__` occurs; then the name is first + `__` + second and the first holds no `__` |
| GoStrings.TrimSpace | program/program.go:316 | the result is a middle slice of the input with only white space cut at both ends, and it neither starts nor ends with white space |
| AstFileCache.PackageEntries | program/ast_file_cache.go:28-36 | the inner loop yields one entry per file of the package, in file order, keyed by the file's start |
| AstFileCache.NewASTFiles | program/ast_file_cache.go:25-46 | the result is an index of exactly the files of all packages: sorted, each file once, with the sentinel rule |
| AstFileCache.FileIsIndexed | program/ast_file_cache.go:27-36 | every file of every package is collected with its own package and `PackageInfo` |
| AstFileCache.IndexedIsFile | program/ast_file_cache.go:27-36 | every collected entry is a file of a loaded package, with that package's `PackageInfo`, keyed by the file's start |
| AstFileCache.SearchVectors | program/ast_file_cache_test.go:8-39 | the test's files, given at 1, 10, 4 and 7, sorted in place with `sort.Sort`: the result is a sorted permutation of them on which positions 0 and 11 find nothing, 1 finds the file at 1 and 5 finds the file at 4 |
| AstFileCache.SortedTestFiles | program/ast_file_cache_test.go:9-21 | any sorted permutation of the files at 1, 10, 4 and 7 is exactly the files at 1, 4, 7 and 10 in that order |
| AstFileCache.SearchSortedTestFiles | program/ast_file_cache_test.go:23-39 | on the files at 1, 4, 7 and 10, positions 0 and 11 find nothing, 1 finds the file at 1 and 5 finds the file at 4 |
| FuncCache.PackageEntries | program/func_cache.go:27-37 | the inner loop yields one entry per definition that is a `*types.Func`, keyed by its scope start, and nothing for other definitions |
| FuncCache.NewFns | program/func_cache.go:25-46 | the result is an index of exactly the function definitions of all packages, sorted, with the sentinel rule |
| FuncCache.FuncIsIndexed | program/func_cache.go:27-35 | every function definition is collected, keyed by its scope start rather than its declaration |
| FuncCache.IndexedIsFunc | program/func_cache.go:27-35 | every collected entry is a function some identifier of its package defines, keyed by that function's scope start |
| TypeCache.NewTypeCache | program/type_cache.go:17-27 | the keys are exactly the types any package records; each entry holds the type's rendering and an expression recorded with that type |
| ProgramIndex.NewProgram | program/program.go:51-57 | the program keeps its packages and the three indices are those built from them |
| ProgramIndex.PkgContains | program/program.go:27-34 | true exactly when the target is one of the packages |
| ProgramIndex.DeleteBuiltinAndVendorPackages | program/program.go:60-78 | keeps exactly the non-nil packages under the project's vendor copy of its first path segment, or under the project path but not under its vendor directory, each with its own `PackageInfo` |
| ProgramIndex.KeepsRoot | program/program.go:69-70 | the project's own package is kept |
| ProgramIndex.DropsForeignVendor | program/program.go:63-70 | a vendored package outside the copy of the project's first path segment is dropped |
| ProgramIndex.KeepsPrefixSibling | program/program.go:69-70 | the tests compare strings, not paths: `a/application` counts as inside `a/app` |
| ProgramIndex.TypeString | program/program.go:80-86 | on a built program, the rendering of an observed type and `""` for any other |
| ProgramIndex.FileOf | program/program.go:175-181 | the file of the entry the search finds, nil when it finds nothing or the sentinel |
| ProgramIndex.PackageOf | program/program.go:183-189 | the package of the entry the search finds, nil when it finds nothing or the sentinel |
| ProgramIndex.PackageInfoOf | program/program.go:191-197 | the same as `WithPkgInfoContains` at the node's position |
| ProgramIndex.WithPkgInfoContains | program/program.go:199-205 | the `PackageInfo` of the entry the search finds, nil when it finds nothing or the sentinel |
| ProgramIndex.WitchFunc | program/program.go:207-213 | the function of the entry the function index finds, nil when it finds nothing or the sentinel |
| ProgramIndex.FileOfOwnStart | program/program.go:175-197 | on a built program with distinct positions, a file's start finds that file, its package and its `PackageInfo` |
| ProgramIndex.WitchFuncAtScopeStart | program/program.go:207-213 | on a built program with distinct positions, a function's scope start finds that function |
| ProgramIndex.SentinelHasNoFile | program/program.go:175-189 | the sentinel position finds the sentinel entry, so file and package are nil there |
| ProgramIndex.SingleFileOnlyItsStart | program/program.go:175-181 | with exactly one file, a node has a file exactly when it starts where the file starts |
| ProgramIndex.PackageInfoFor | program/program.go:89 | `Package(PackageOf(e).Path())`: on distinct positions, the loaded package of the entry the position resolves to, and a panic when that entry has no package (the sentinel) or its package is not loaded; a panic when no entry resolves (including an empty index) |
| ProgramIndex.InfoObjectOf | program/program.go:128 | the non-nil object the identifier defines, else the object it uses, else nil |
| ProgramIndex.ObjectOf | program/program.go:126-130 | panics exactly when the package lookup does; otherwise the object the identifier defines or uses in its package, nil when neither exists |
| ProgramIndex.TypeOf | program/program.go:88-96 | panics exactly when the package lookup does; a type answered is the recorded type of the expression or, for an identifier, the type of its object; nil when neither exists |
| ProgramIndex.ValueOf | program/program.go:98-108 | panics exactly when the package lookup does; otherwise the constant value recorded for the expression, nil when the expression or its value is not recorded |
| ProgramIndex.DefOf | program/program.go:132-145 | the named type's object for a named type or a pointer to one, the identifier's own object otherwise; no panic once an object exists and its type is not a pointer to an unnamed type |
| ProgramIndex.IdentOf | program/program.go:163-173 | panics exactly when the object has no package or its package is not loaded; an answer defines the object; nil means no identifier does |
| ProgramIndex.WhereDecl | program/program.go:147-161 | named type: panics as `IdentOf` does, otherwise the identifier defining its object, or a non-nil expression holding a nil identifier exactly when none does; struct type: the cached expression or nil; any other type: nil |
| ProgramIndex.WhereDeclOfStruct | program/program.go:151-154 | on a built program the expression for an observed struct type is one recorded with that type |
| ProgramIndex.ScopeOf | program/program.go:110-124 | an answer is a scope of the node's package starting at the node (at the body for a function); nil means none does; panics on a bodiless function only when there are scopes |
| ProgramIndex.CallExprById | program/program.go:215-235 | panics exactly when no package is found; an answer is a recorded call whose callee is the identifier, directly or as the selected name; nil means none is |
| ProgramIndex.RestrictToScope | program/program.go:241-247 | exactly the entries whose key position lies in the scope, with their values |
| ProgramIndex.DefsInScope | program/program.go:237-250 | exactly the definitions of the scope's package positioned in the scope; empty when no package is found |
| ProgramIndex.UsesInScope | program/program.go:252-265 | exactly the uses of the scope's package positioned in the scope; empty when no package is found |
| ProgramIndex.SelectionsInScope | program/program.go:267-280 | exactly the selector expressions of the scope's package positioned in the scope; empty when no package is found |
| ProgramIndex.PackageMethods | program/program.go:351-362 | the inner loop adds exactly the functions of one package whose receiver has the given type, each mapped to its own type, and keeps what was already collected |
| ProgramIndex.MethodHasSignature | program/program.go:354-357 | everything collected as a method is a function object whose type is a signature, as the two checked type assertions require |
| TypeCache.RecordPackageTypes | program/type_cache.go:19-24 | the inner loop over one package's `Types` adds exactly the types recorded there; every such type, including one an earlier package already wrote, ends up with an expression of this package recorded with it and its rendering; every other entry is kept |
| ProgramIndex.MethodsOf | program/program.go:349-364 | exactly the functions of all packages whose signature's receiver has the given type, each mapped to that signature |
| ProgramIndex.MethodOfOneType | program/program.go:357-359 | receiver types are compared by identity, so a function is a method of one type only |
| ProgramIndex.AstDeclOf | program/program.go:336-347 | panics exactly when the node has no file; otherwise the first declaration strictly containing the node's position, or none when no declaration does |
| EnumOptions.SpecOption | program/program.go:302-327 | a value spec of a `const` block gives at most one option: never for `_`; after the first `__` when the name starts with the type's upper snake form; the constant itself when the constant's type is the identifier's type; always labelled with the trimmed comment; panics exactly on an empty name list, a name that is not a constant, or a failed `TypeOf` when the type comparison is reached |
| EnumOptions.GetEnumOptionsByType | program/program.go:288-334 | the options of the value specs of the file's `const` blocks, in declaration order; none for a node that is not an identifier; a panic when the identifier has no file |
| EnumOptions.SpecsOptionSource | program/program.go:299-329 | every option of a block comes from one of its value specs |
| EnumOptions.SpecsOptionListed | program/program.go:299-329 | every option a value spec gives is an option of its block |
| EnumOptions.OptionSource | program/program.go:292-331 | every option comes from a value spec of a `const` block of the file |
| EnumOptions.OptionListed | program/program.go:292-331 | every option a value spec of a `const` block gives is in the result |
| EnumOptions.SplitAfterCleanPrefix | program/program.go:311 | after a prefix with no `__` that does not end in `_`, `SplitN` splits at the `__` right after the prefix |
| EnumOptions.PrefixedConstantOption | program/program.go:309-318 | when the type's upper snake form contains no `__` and does not end in `_` (`CleanPrefix`), a constant named after it, then `__`, gives the option whose value is the rest of its name; without that condition `SplitN` may cut inside the prefix (`A_` with `A___X` gives `_X`) |
| EnumOptions.TypedConstantOption | program/program.go:319-325 | a constant not named after the type, whose type is the identifier's type, gives the option whose value is the constant itself, labelled with the trimmed comment |
| EnumOptions.ColorRed | program/program.go:309-318 | `COLOR__RED` of type `Color` gives value `RED` with the trimmed comment as label |
| Comments.SortByPos | program/program.go:366-376 | `sort.Sort(ByCommentPos(...))`: sorted by position, a permutation |
| Comments.InnermostUnique | program/program.go:402-418 | at most one candidate is the innermost enclosing one |
| Comments.EnclosingNode | program/program.go:402-418 | the enclosing Field/Decl/Spec/Stmt starting closest to the target, the later one on a tie; none when no candidate encloses the target |
| Comments.SpecHits | program/program.go:383-388 | a declaration's comments once for every occurrence of the target among its specs |
| Comments.CollectDeclComments | program/program.go:381-390 | the comments of every `GenDecl` that lists the target spec, whatever order the map is visited in |
| Comments.GetCommentsFor | program/program.go:378-426 | sorted by position; a spec gets its declarations' comments and its own; a file, field, statement or declaration gets its own; any other node gets those of its innermost enclosing candidate, or none |
| Comments.CommentGroupFor | program/program.go:428-432 | panics exactly when the node has no file; otherwise the comments for the node in its file |
| Comments.SpecIncludesDeclComments | program/program.go:381-393 | a spec's comments include those of every declaration in the map that lists it |

## Left out

- Loading the program (`loader.Config.Load` in `NewProgram`, and its panic on error) is the front-end's work. `NewProgram` starts from the loaded packages.
- `ast.NewCommentMap` and `ast.Inspect` are library traversals. `CommentGroupFor` takes the comment map and the visiting order of the walk as functions of the file.
- `codegen.ToUpperSnakeCase` is an uninterpreted parameter (`upperSnake`), since its source is not part of this model.
- EnumOptions.EnumOption: `GetConstValue` is not part of this model. An option stores the constant value itself in place of its converted form, and the conversion's error is ignored, as the source ignores it.
- `types.Type.String()` and `types.Object.Type()` are uninterpreted parameters (`typeString`, `objType`). Types and objects are identity tokens.
- `types.Scope.Contains` is modelled as `pos <= p < end`; the `go/types` source is not part of this model.
- `program.Package(path)` (the loader's lookup by path) is modelled as a lookup of the package by identity in the loaded packages, which assumes that no two loaded packages share a path.
- `CommentGroup.Text()` is the group's `text` field; the removal of comment markers is not modelled.
- The diagnostic that `WhereDecl` logs for an unexpected type is output only and is not modelled.
- ProgramIndex.IdentOf, ProgramIndex.CallExprById, ProgramIndex.ScopeOf: which match is returned when several qualify depends on Go's map order; only "some match, or nil when none exists" is stated.
- TypeCache.NewTypeCache: which expression survives for a type recorded by several depends on map order; only "an expression recorded with that type" is stated.
- Sorting.SortBy: `sort.Sort` is not stable and its algorithm is not modelled. Only sortedness and permutation are stated, and with distinct positions those fix the result.
- `IsTypeNameString` is a string helper outside the program index and is not modelled.
- `codegen.DeclPackage`, `codegen.DeclType` and the command line (`cmd/cmd.go`) are outside the program index and are not modelled.
- Token positions are unbounded integers; the overflow of `token.Pos` is not modelled.
