/** The type rendering cache: for every type the front-end recorded, its
    string form and one expression of that type. */
module TypeCache {
  import opened GoAst

  /** `tp`: a representative expression and the rendered type. */
  datatype Tp = Tp(expr: Node, str: string)

  /** Expression `e` of some package was recorded with type `t`. */
  ghost predicate Records(pkgs: map<Package, PackageInfo>, e: Node, t: Type) {
    exists pkg :: pkg in pkgs && e in pkgs[pkg].types && pkgs[pkg].types[e].typ == t
  }

  /** The types recorded for the expressions of the packages in `keys`. */
  ghost function ObservedIn(pkgs: map<Package, PackageInfo>, keys: set<Package>): set<Type> {
    set pkg, e | pkg in keys && pkg in pkgs && e in pkgs[pkg].types :: pkgs[pkg].types[e].typ
  }

  ghost function ObservedTypes(pkgs: map<Package, PackageInfo>): set<Type> {
    ObservedIn(pkgs, pkgs.Keys)
  }

  /** The cache holds exactly the observed types; each renders as
      `typeString` says and keeps some expression recorded with that type. */
  ghost predicate IsTypeCacheOf(pkgs: map<Package, PackageInfo>, typeString: Type -> string, tys: map<Type, Tp>) {
    && tys.Keys == ObservedTypes(pkgs)
    && forall t :: t in tys ==> tys[t].str == typeString(t) && Records(pkgs, tys[t].expr, t)
  }

  /** The types recorded for the expressions `exprs` of `info`. */
  ghost function ObservedAmong(info: PackageInfo, exprs: set<Node>): set<Type> {
    set e | e in exprs && e in info.types :: info.types[e].typ
  }

  lemma ObservedAmongStep(info: PackageInfo, done: set<Node>, exprs: set<Node>, e: Node)
    requires e in exprs && exprs <= info.types.Keys && done == info.types.Keys - exprs
    ensures info.types.Keys - (exprs - {e}) == done + {e}
    ensures ObservedAmong(info, done + {e}) == ObservedAmong(info, done) + {info.types[e].typ}
  {
  }

  /** `tp` was written for type `t` by one of the expressions of `info`. */
  ghost predicate WrittenFor(info: PackageInfo, typeString: Type -> string, t: Type, tp: Tp) {
    tp.expr in info.types && info.types[tp.expr].typ == t && tp.str == typeString(t)
  }

  /** After the expressions `done` of `info`: every type they record holds
      an entry written by one of them; every other entry of `tys` is kept. */
  ghost predicate Overwrites(info: PackageInfo, typeString: Type -> string, done: set<Node>,
                             tys: map<Type, Tp>, updated: map<Type, Tp>) {
    && (forall t :: t in ObservedAmong(info, done) ==> t in updated && WrittenFor(info, typeString, t, updated[t]))
    && (forall t :: t in tys && t !in ObservedAmong(info, done) ==> t in updated && updated[t] == tys[t])
  }

  /** The entries written for one package keep every entry consistent. */
  lemma WrittenKeepsConsistent(pkgs: map<Package, PackageInfo>, typeString: Type -> string, pkg: Package,
                               tys: map<Type, Tp>, updated: map<Type, Tp>)
    requires pkg in pkgs
    requires updated.Keys == tys.Keys + ObservedAmong(pkgs[pkg], pkgs[pkg].types.Keys)
    requires Overwrites(pkgs[pkg], typeString, pkgs[pkg].types.Keys, tys, updated)
    requires forall t :: t in tys ==> tys[t].str == typeString(t) && Records(pkgs, tys[t].expr, t)
    ensures forall t :: t in updated ==> updated[t].str == typeString(t) && Records(pkgs, updated[t].expr, t)
  {
    forall t | t in updated
      ensures updated[t].str == typeString(t) && Records(pkgs, updated[t].expr, t)
    {
      if t in ObservedAmong(pkgs[pkg], pkgs[pkg].types.Keys) {
        assert pkg in pkgs && updated[t].expr in pkgs[pkg].types && pkgs[pkg].types[updated[t].expr].typ == t;
      }
    }
  }

  lemma ObservedInStep(pkgs: map<Package, PackageInfo>, done: set<Package>, pkg: Package)
    requires pkg in pkgs
    ensures ObservedIn(pkgs, done + {pkg}) == ObservedIn(pkgs, done) + ObservedAmong(pkgs[pkg], pkgs[pkg].types.Keys)
  {
  }

  /** `newTypeCache`: one pass over every package's `Types`; a later
      expression of the same type overwrites the earlier one.
      `typeString` is `types.Type.String()`. */
  method NewTypeCache(pkgs: map<Package, PackageInfo>, typeString: Type -> string) returns (tys: map<Type, Tp>)
    ensures IsTypeCacheOf(pkgs, typeString, tys)
  {
    tys := map[];
    var remaining := pkgs.Keys;
    while remaining != {}
      invariant remaining <= pkgs.Keys
      invariant tys.Keys == ObservedIn(pkgs, pkgs.Keys - remaining)
      invariant forall t :: t in tys ==> tys[t].str == typeString(t) && Records(pkgs, tys[t].expr, t)
      decreases remaining
    {
      var pkg :| pkg in remaining;
      var updated := RecordPackageTypes(pkgs[pkg], typeString, tys);
      WrittenKeepsConsistent(pkgs, typeString, pkg, tys, updated);
      tys := updated;
      ObservedInStep(pkgs, pkgs.Keys - remaining, pkg);
      assert pkgs.Keys - (remaining - {pkg}) == (pkgs.Keys - remaining) + {pkg};
      remaining := remaining - {pkg};
    }
  }

  /** The inner loop of `newTypeCache`: write an entry for the type of
      every expression of one package. */
  method RecordPackageTypes(info: PackageInfo, typeString: Type -> string, tys: map<Type, Tp>)
    returns (updated: map<Type, Tp>)
    ensures updated.Keys == tys.Keys + ObservedAmong(info, info.types.Keys)
    ensures forall t :: t in ObservedAmong(info, info.types.Keys) ==> WrittenFor(info, typeString, t, updated[t])
    ensures forall t :: t in tys && t !in ObservedAmong(info, info.types.Keys) ==> updated[t] == tys[t]
  {
    updated := tys;
    var exprs := info.types.Keys;
    while exprs != {}
      invariant exprs <= info.types.Keys
      invariant updated.Keys == tys.Keys + ObservedAmong(info, info.types.Keys - exprs)
      invariant Overwrites(info, typeString, info.types.Keys - exprs, tys, updated)
      decreases exprs
    {
      var e :| e in exprs;
      var t := info.types[e].typ;
      ObservedAmongStep(info, info.types.Keys - exprs, exprs, e);
      updated := updated[t := Tp(e, typeString(t))];
      exprs := exprs - {e};
    }
  }
}
