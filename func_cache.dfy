/** `fns`: every function a package defines, keyed by the start of its
    lexical scope, sorted, with a sentinel at the end of the last scope. */
module FuncCache {
  import opened Wrappers
  import opened GoAst
  import opened Multisets
  import opened PosIndex

  /** `*types.Func`. */
  type Func = o: Object | o.kind.FuncObj? witness Object(0, "", FuncObj(Scope(0, 0, 0)), None)

  type Fn = Entry<Func>

  /** The entry `newFns` appends for one identifier of `Defs`: one when it
      defines a function (keyed by `Scope().Pos()`), none otherwise. */
  ghost function DefFn(pkg: Package, info: PackageInfo, id: Ident): multiset<Fn> {
    if id in info.defs && info.defs[id].Some? && info.defs[id].value.kind.FuncObj? then
      var f: Func := info.defs[id].value;
      multiset{Entry(Some(pkg), Some(info), Some(f), f.kind.scope.pos)}
    else multiset{}
  }

  ghost function DefFns(pkg: Package, info: PackageInfo): Ident -> multiset<Fn> {
    id => DefFn(pkg, info, id)
  }

  ghost function PackageFns(pkgs: map<Package, PackageInfo>): Package -> multiset<Fn> {
    pkg => if pkg in pkgs then SumOver(pkgs[pkg].defs.Keys, DefFns(pkg, pkgs[pkg])) else multiset{}
  }

  /** One entry per function defined in any package. */
  ghost function AllFns(pkgs: map<Package, PackageInfo>): multiset<Fn> {
    SumOver(pkgs.Keys, PackageFns(pkgs))
  }

  /** `Scope().End()`, where the sentinel is placed. */
  function ScopeEnd(f: Func): Pos {
    f.kind.scope.end
  }

  /** `newFns`: collect the function definitions, `sort.Sort`, append the
      sentinel. */
  method NewFns(pkgs: map<Package, PackageInfo>) returns (fs: seq<Fn>)
    ensures IsIndexOf(AllFns(pkgs), ScopeEnd, fs)
  {
    var collected: seq<Fn> := [];
    var remaining := pkgs.Keys;
    while remaining != {}
      invariant remaining <= pkgs.Keys
      invariant multiset(collected) + SumOver(remaining, PackageFns(pkgs)) == AllFns(pkgs)
      invariant forall e :: e in collected ==> e.item.Some?
      decreases remaining
    {
      var pkg :| pkg in remaining;
      var entries := PackageEntries(pkg, pkgs[pkg]);
      CollectStep(pkgs, remaining, pkg, collected, entries);
      collected := collected + entries;
      remaining := remaining - {pkg};
    }
    fs := SortAndSeal(collected, ScopeEnd);
  }

  lemma CollectStep(pkgs: map<Package, PackageInfo>, remaining: set<Package>, pkg: Package,
                    collected: seq<Fn>, entries: seq<Fn>)
    requires pkg in remaining && remaining <= pkgs.Keys
    requires multiset(collected) + SumOver(remaining, PackageFns(pkgs)) == AllFns(pkgs)
    requires multiset(entries) == SumOver(pkgs[pkg].defs.Keys, DefFns(pkg, pkgs[pkg]))
    ensures multiset(collected + entries) + SumOver(remaining - {pkg}, PackageFns(pkgs)) == AllFns(pkgs)
  {
    SumOverRemove(remaining, PackageFns(pkgs), pkg);
    assert PackageFns(pkgs)(pkg) == multiset(entries);
  }

  /** The inner loop of `newFns`: one entry per identifier of `Defs` that
      defines a function, in the order `range` visits them. */
  method PackageEntries(pkg: Package, info: PackageInfo) returns (entries: seq<Fn>)
    ensures multiset(entries) == SumOver(info.defs.Keys, DefFns(pkg, info))
    ensures forall e :: e in entries ==> e.item.Some?
  {
    entries := [];
    var ids := info.defs.Keys;
    while ids != {}
      invariant ids <= info.defs.Keys
      invariant multiset(entries) + SumOver(ids, DefFns(pkg, info)) == SumOver(info.defs.Keys, DefFns(pkg, info))
      invariant forall e :: e in entries ==> e.item.Some?
      decreases ids
    {
      var id :| id in ids;
      var obj := info.defs[id];
      SumOverRemove(ids, DefFns(pkg, info), id);
      if obj.Some? && obj.value.kind.FuncObj? {
        var f: Func := obj.value;
        assert DefFns(pkg, info)(id) == DefFn(pkg, info, id) == multiset{Entry(Some(pkg), Some(info), Some(f), f.kind.scope.pos)};
        entries := entries + [Entry(Some(pkg), Some(info), Some(f), f.kind.scope.pos)];
      } else {
        assert DefFns(pkg, info)(id) == DefFn(pkg, info, id) == multiset{};
      }
      ids := ids - {id};
    }
  }

  /** Each function definition is an entry of the index, keyed by the start
      of its scope rather than by the position of its declaration. */
  lemma FuncIsIndexed(pkgs: map<Package, PackageInfo>, pkg: Package, id: Ident)
    requires pkg in pkgs && id in pkgs[pkg].defs
    requires pkgs[pkg].defs[id].Some? && pkgs[pkg].defs[id].value.kind.FuncObj?
    ensures var f: Func := pkgs[pkg].defs[id].value;
            Entry(Some(pkg), Some(pkgs[pkg]), Some(f), f.kind.scope.pos) in AllFns(pkgs)
  {
    SumOverRemove(pkgs[pkg].defs.Keys, DefFns(pkg, pkgs[pkg]), id);
    SumOverRemove(pkgs.Keys, PackageFns(pkgs), pkg);
  }

  /** Every entry of the index is a function definition of its package. */
  lemma IndexedIsFunc(pkgs: map<Package, PackageInfo>, e: Fn)
    requires e in AllFns(pkgs)
    ensures e.pkg.Some? && e.pkg.value in pkgs && e.pkgInfo == Some(pkgs[e.pkg.value])
    ensures e.item.Some? && exists id :: id in pkgs[e.pkg.value].defs && pkgs[e.pkg.value].defs[id] == Some(e.item.value)
    ensures e.pos == e.item.value.kind.scope.pos
  {
    var pkg := OwningPackage(pkgs, e);
    var id := DefiningIdent(pkg, pkgs[pkg], e);
    assert pkgs[pkg].defs[id] == Some(e.item.value);
  }

  lemma OwningPackage(pkgs: map<Package, PackageInfo>, e: Fn) returns (pkg: Package)
    requires e in AllFns(pkgs)
    ensures pkg in pkgs && e in SumOver(pkgs[pkg].defs.Keys, DefFns(pkg, pkgs[pkg]))
  {
    InSumOver(pkgs.Keys, PackageFns(pkgs), e);
    pkg :| pkg in pkgs.Keys && e in PackageFns(pkgs)(pkg);
  }

  lemma DefiningIdent(pkg: Package, info: PackageInfo, e: Fn) returns (id: Ident)
    requires e in SumOver(info.defs.Keys, DefFns(pkg, info))
    ensures id in info.defs && info.defs[id].Some? && e.item == info.defs[id]
    ensures e == Entry(Some(pkg), Some(info), e.item, e.item.value.kind.scope.pos)
  {
    InSumOver(info.defs.Keys, DefFns(pkg, info), e);
    id :| id in info.defs.Keys && e in DefFns(pkg, info)(id);
    assert e in DefFn(pkg, info, id);
  }
}
