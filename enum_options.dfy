/** `GetEnumOptionsByType` (program/program.go): the options of an enum-like
    type, read from the `const` blocks of the file that mentions it. */
module EnumOptions {
  import opened Wrappers
  import opened GoAst
  import opened GoStrings
  import opened ProgramIndex

  /** `Option.Value`: the part of the constant's name after the first `__`,
      or the constant's own value. */
  datatype OptionValue = Suffix(s: string) | Constant(c: ConstValue)

  /** `Option`. `v` is the constant whose converted value (`GetConstValue`)
      the source stores; the conversion is not part of this model. */
  datatype EnumOption = EnumOption(v: ConstValue, value: OptionValue, labelText: string)

  /** `CommentGroup.Text()`, which is `""` on a nil group. */
  function CommentText(c: Option<CommentGroup>): string {
    if c.Some? then c.value.text else ""
  }

  /** The const object the first name of `spec` denotes. */
  ghost predicate ConstOf(p: Program, spec: Node, obj: Object)
    requires spec.kind.ValueSpec?
  {
    |spec.kind.names| > 0 && ObjectOf(p, spec.kind.names[0]) == Ok(Some(obj)) && obj.kind.ConstObj?
  }

  /** What one value spec of a `const` block contributes for the type named
      by `ident` (whose node is `typeNode`). `upperSnake` is the code
      generator's `ToUpperSnakeCase`. A panic stands for the indexing of an
      empty name list, a failed `ObjectOf` and `Val()` on a non-constant. */
  function SpecOption(p: Program, upperSnake: string -> string, ident: Ident, typeNode: Node, spec: Node)
    : (r: Outcome<Option<EnumOption>>)
    requires spec.kind.ValueSpec?
    ensures r.Panic? <==>
              || |spec.kind.names| == 0
              || !(exists obj :: ConstOf(p, spec, obj))
              || (&& spec.kind.names[0].name != "_"
                  && !HasPrefix(spec.kind.names[0].name, upperSnake(ident.name))
                  && TypeOf(p, typeNode).Panic?)
    ensures r.Ok? && r.value.Some? ==>
              var name := spec.kind.names[0].name;
              && name != "_"
              && r.value.value.labelText == TrimSpace(CommentText(spec.kind.comment))
              && (forall obj :: ConstOf(p, spec, obj) ==> r.value.value.v == obj.kind.val)
    ensures r.Ok? && r.value.Some? && HasPrefix(spec.kind.names[0].name, upperSnake(ident.name)) ==>
              var name := spec.kind.names[0].name;
              && r.value.value.value.Suffix?
              && exists before :: name == before + "__" + r.value.value.value.s
                                  && forall i :: 0 <= i < |before| ==> !SeparatorAt(name, i)
    ensures r.Ok? && r.value.Some? && !HasPrefix(spec.kind.names[0].name, upperSnake(ident.name)) ==>
              && r.value.value.value == Constant(r.value.value.v)
              && forall obj :: ConstOf(p, spec, obj) ==> TypeOf(p, typeNode) == Ok(Some(p.objType(obj)))
    ensures r.Ok? && r.value.None? ==>
              var name := spec.kind.names[0].name;
              || name == "_"
              || (HasPrefix(name, upperSnake(ident.name)) && forall i :: !SeparatorAt(name, i))
              || (!HasPrefix(name, upperSnake(ident.name))
                  && forall obj :: ConstOf(p, spec, obj) ==> TypeOf(p, typeNode) != Ok(Some(p.objType(obj))))
  {
    var names := spec.kind.names;
    if |names| == 0 then Panic
    else
      match ObjectOf(p, names[0])
      case Panic => Panic
      case Ok(obj) =>
        if obj.None? || !obj.value.kind.ConstObj? then Panic
        else
          assert ConstOf(p, spec, obj.value);
          var name := names[0].name;
          var c := obj.value.kind.val;
          var labelText := TrimSpace(CommentText(spec.kind.comment));
          if name == "_" then Ok(None)
          else if HasPrefix(name, upperSnake(ident.name)) then
            var parts := SplitOnce(name);
            if |parts| == 2 then Ok(Some(EnumOption(c, Suffix(parts[1]), labelText))) else Ok(None)
          else
            match TypeOf(p, typeNode)
            case Panic => Panic
            case Ok(t) =>
              if t == Some(p.objType(obj.value)) then Ok(Some(EnumOption(c, Constant(c), labelText))) else Ok(None)
  }

  /** The options of the specs of one `const` block, in order; specs other
      than value specs contribute nothing. */
  function SpecsOptions(p: Program, upperSnake: string -> string, ident: Ident, typeNode: Node, specs: seq<Node>)
    : Outcome<seq<EnumOption>>
  {
    if |specs| == 0 then Ok([])
    else
      match SpecsOptions(p, upperSnake, ident, typeNode, specs[..|specs| - 1])
      case Panic => Panic
      case Ok(before) =>
        var spec := specs[|specs| - 1];
        if !spec.kind.ValueSpec? then Ok(before)
        else
          match SpecOption(p, upperSnake, ident, typeNode, spec)
          case Panic => Panic
          case Ok(None) => Ok(before)
          case Ok(Some(o)) => Ok(before + [o])
  }

  /** A `const` block. */
  predicate IsConstDecl(decl: Node) {
    decl.kind.GenDecl? && decl.kind.tok == CONST
  }

  /** The options of the top-level declarations of a file, in order; only
      `const` blocks contribute. */
  function DeclsOptions(p: Program, upperSnake: string -> string, ident: Ident, typeNode: Node, decls: seq<Node>)
    : Outcome<seq<EnumOption>>
  {
    if |decls| == 0 then Ok([])
    else
      match DeclsOptions(p, upperSnake, ident, typeNode, decls[..|decls| - 1])
      case Panic => Panic
      case Ok(before) =>
        var decl := decls[|decls| - 1];
        if !IsConstDecl(decl) then Ok(before)
        else
          match SpecsOptions(p, upperSnake, ident, typeNode, decl.kind.specs)
          case Panic => Panic
          case Ok(more) => Ok(before + more)
  }

  /** The options `GetEnumOptionsByType` returns: none for a node that is
      not an identifier; a panic when the identifier has no file. */
  function EnumOptionsOf(p: Program, upperSnake: string -> string, node: Node): Outcome<seq<EnumOption>> {
    if !node.kind.IdentExpr? then Ok([])
    else
      match FileOf(p, node)
      case None => Panic
      case Some(file) => DeclsOptions(p, upperSnake, node.kind.ident, node, file.kind.decls)
  }

  /** `GetEnumOptionsByType`. */
  method GetEnumOptionsByType(p: Program, upperSnake: string -> string, node: Node)
    returns (r: Outcome<seq<EnumOption>>)
    ensures r == EnumOptionsOf(p, upperSnake, node)
  {
    if !node.kind.IdentExpr? {
      return Ok([]);
    }
    var ident := node.kind.ident;
    var file := FileOf(p, node);
    if file.None? {
      return Panic;
    }
    var decls := file.value.kind.decls;
    var list: seq<EnumOption> := [];
    for i := 0 to |decls|
      invariant DeclsOptions(p, upperSnake, ident, node, decls[..i]) == Ok(list)
    {
      assert decls[..i + 1][..i] == decls[..i];
      var decl := decls[i];
      if IsConstDecl(decl) {
        var specs := decl.kind.specs;
        var more: seq<EnumOption> := [];
        for j := 0 to |specs|
          invariant SpecsOptions(p, upperSnake, ident, node, specs[..j]) == Ok(more)
        {
          assert specs[..j + 1][..j] == specs[..j];
          var spec := specs[j];
          if spec.kind.ValueSpec? {
            var o := SpecOption(p, upperSnake, ident, node, spec);
            if o.Panic? {
              assert DeclsOptions(p, upperSnake, ident, node, decls[..i + 1]).Panic? by {
                PanicPropagates(p, upperSnake, ident, node, specs, j + 1);
              }
              PanicIsFinal(p, upperSnake, ident, node, decls, i + 1);
              return Panic;
            }
            if o.value.Some? {
              more := more + [o.value.value];
            }
          }
        }
        assert specs[..|specs|] == specs;
        list := list + more;
      }
    }
    assert decls[..|decls|] == decls;
    return Ok(list);
  }

  /** A panic on a prefix of the specs is a panic of the whole block. */
  lemma {:induction false} PanicPropagates(p: Program, upperSnake: string -> string, ident: Ident, typeNode: Node,
                                          specs: seq<Node>, n: nat)
    requires n <= |specs| && SpecsOptions(p, upperSnake, ident, typeNode, specs[..n]).Panic?
    ensures SpecsOptions(p, upperSnake, ident, typeNode, specs).Panic?
    decreases |specs| - n
  {
    if n < |specs| {
      assert specs[..n + 1][..n] == specs[..n];
      PanicPropagates(p, upperSnake, ident, typeNode, specs, n + 1);
    } else {
      assert specs[..n] == specs;
    }
  }

  /** A panic on a prefix of the declarations is a panic of the whole file. */
  lemma {:induction false} PanicIsFinal(p: Program, upperSnake: string -> string, ident: Ident, typeNode: Node,
                                        decls: seq<Node>, n: nat)
    requires n <= |decls| && DeclsOptions(p, upperSnake, ident, typeNode, decls[..n]).Panic?
    ensures DeclsOptions(p, upperSnake, ident, typeNode, decls).Panic?
    decreases |decls| - n
  {
    if n < |decls| {
      assert decls[..n + 1][..n] == decls[..n];
      PanicIsFinal(p, upperSnake, ident, typeNode, decls, n + 1);
    } else {
      assert decls[..n] == decls;
    }
  }

  /** Every option of a block is what one of its value specs contributes. */
  lemma {:induction false} SpecsOptionSource(p: Program, upperSnake: string -> string, ident: Ident, typeNode: Node,
                                             specs: seq<Node>, o: EnumOption) returns (j: nat)
    requires SpecsOptions(p, upperSnake, ident, typeNode, specs).Ok?
    requires o in SpecsOptions(p, upperSnake, ident, typeNode, specs).value
    ensures j < |specs| && specs[j].kind.ValueSpec?
    ensures SpecOption(p, upperSnake, ident, typeNode, specs[j]) == Ok(Some(o))
  {
    var last := specs[|specs| - 1];
    var before := SpecsOptions(p, upperSnake, ident, typeNode, specs[..|specs| - 1]);
    if last.kind.ValueSpec? && SpecOption(p, upperSnake, ident, typeNode, last) == Ok(Some(o)) {
      j := |specs| - 1;
    } else {
      j := SpecsOptionSource(p, upperSnake, ident, typeNode, specs[..|specs| - 1], o);
    }
  }

  /** What a value spec of a block contributes is an option of the block. */
  lemma {:induction false} SpecsOptionListed(p: Program, upperSnake: string -> string, ident: Ident, typeNode: Node,
                                             specs: seq<Node>, j: nat, o: EnumOption)
    requires SpecsOptions(p, upperSnake, ident, typeNode, specs).Ok?
    requires j < |specs| && specs[j].kind.ValueSpec?
    requires SpecOption(p, upperSnake, ident, typeNode, specs[j]) == Ok(Some(o))
    ensures o in SpecsOptions(p, upperSnake, ident, typeNode, specs).value
  {
    if j < |specs| - 1 {
      assert specs[..|specs| - 1][j] == specs[j];
      SpecsOptionListed(p, upperSnake, ident, typeNode, specs[..|specs| - 1], j, o);
    }
  }

  /** Every option of a file comes from a value spec of one of its `const`
      blocks. */
  lemma {:induction false} OptionSource(p: Program, upperSnake: string -> string, ident: Ident, typeNode: Node,
                                        decls: seq<Node>, o: EnumOption) returns (i: nat, j: nat)
    requires DeclsOptions(p, upperSnake, ident, typeNode, decls).Ok?
    requires o in DeclsOptions(p, upperSnake, ident, typeNode, decls).value
    ensures i < |decls| && IsConstDecl(decls[i])
    ensures j < |decls[i].kind.specs| && decls[i].kind.specs[j].kind.ValueSpec?
    ensures SpecOption(p, upperSnake, ident, typeNode, decls[i].kind.specs[j]) == Ok(Some(o))
  {
    var last := decls[|decls| - 1];
    var before := DeclsOptions(p, upperSnake, ident, typeNode, decls[..|decls| - 1]);
    if IsConstDecl(last) && o !in before.value {
      i := |decls| - 1;
      j := SpecsOptionSource(p, upperSnake, ident, typeNode, last.kind.specs, o);
    } else {
      i, j := OptionSource(p, upperSnake, ident, typeNode, decls[..|decls| - 1], o);
    }
  }

  /** What a value spec of a `const` block of the file contributes is an
      option of the file. */
  lemma {:induction false} OptionListed(p: Program, upperSnake: string -> string, ident: Ident, typeNode: Node,
                                        decls: seq<Node>, i: nat, j: nat, o: EnumOption)
    requires DeclsOptions(p, upperSnake, ident, typeNode, decls).Ok?
    requires i < |decls| && IsConstDecl(decls[i])
    requires j < |decls[i].kind.specs| && decls[i].kind.specs[j].kind.ValueSpec?
    requires SpecOption(p, upperSnake, ident, typeNode, decls[i].kind.specs[j]) == Ok(Some(o))
    ensures o in DeclsOptions(p, upperSnake, ident, typeNode, decls).value
  {
    if i < |decls| - 1 {
      assert decls[..|decls| - 1][i] == decls[i];
      OptionListed(p, upperSnake, ident, typeNode, decls[..|decls| - 1], i, j, o);
    } else {
      SpecsOptionListed(p, upperSnake, ident, typeNode, decls[i].kind.specs, j, o);
    }
  }

  /** `prefix` contains no `__` and does not end in `_`, so in
      `prefix + "__" + rest` the first separator is the one after it. */
  predicate CleanPrefix(prefix: string) {
    && (forall i :: 0 <= i < |prefix| - 1 ==> !(prefix[i] == '_' && prefix[i + 1] == '_'))
    && (|prefix| == 0 || prefix[|prefix| - 1] != '_')
  }

  lemma SplitAfterCleanPrefix(prefix: string, rest: string)
    requires CleanPrefix(prefix)
    ensures SplitOnce(prefix + "__" + rest) == [prefix, rest]
  {
    var name := prefix + "__" + rest;
    assert SeparatorAt(name, |prefix|);
    var parts := SplitOnce(name);
    var k := |parts[0]|;
    assert SeparatorAt(name, k);
    assert k == |prefix|;
    assert parts[0] == name[..k] == prefix;
    assert parts[1] == name[k + 2..] == rest;
  }

  /** A constant named after the type's upper snake case form, then `__`,
      gives the option whose value is the rest of its name. */
  lemma PrefixedConstantOption(p: Program, upperSnake: string -> string, ident: Ident, typeNode: Node,
                               spec: Node, obj: Object, rest: string)
    requires spec.kind.ValueSpec? && ConstOf(p, spec, obj)
    requires CleanPrefix(upperSnake(ident.name))
    requires spec.kind.names[0].name == upperSnake(ident.name) + "__" + rest
    ensures SpecOption(p, upperSnake, ident, typeNode, spec)
         == Ok(Some(EnumOption(obj.kind.val, Suffix(rest), TrimSpace(CommentText(spec.kind.comment)))))
  {
    var prefix := upperSnake(ident.name);
    SplitAfterCleanPrefix(prefix, rest);
    assert prefix <= prefix + "__" + rest;
    assert spec.kind.names[0].name != "_" by {
      assert |prefix + "__" + rest| >= 2;
    }
  }

  /** A constant not named after the type, whose type is the type `ident`
      names, gives the option whose value is the constant itself. */
  lemma TypedConstantOption(p: Program, upperSnake: string -> string, ident: Ident, typeNode: Node,
                            spec: Node, obj: Object)
    requires spec.kind.ValueSpec? && ConstOf(p, spec, obj)
    requires spec.kind.names[0].name != "_" && !HasPrefix(spec.kind.names[0].name, upperSnake(ident.name))
    requires TypeOf(p, typeNode) == Ok(Some(p.objType(obj)))
    ensures SpecOption(p, upperSnake, ident, typeNode, spec)
         == Ok(Some(EnumOption(obj.kind.val, Constant(obj.kind.val), TrimSpace(CommentText(spec.kind.comment)))))
  {
  }

  /** `type Color` with `COLOR__RED`: the option's value is `RED`, its label
      the trimmed trailing comment. */
  lemma ColorRed(p: Program, upperSnake: string -> string, ident: Ident, typeNode: Node, spec: Node, obj: Object)
    requires ident.name == "Color" && upperSnake("Color") == "COLOR"
    requires spec.kind.ValueSpec? && ConstOf(p, spec, obj)
    requires spec.kind.names[0].name == "COLOR__RED"
    requires spec.kind.comment == Some(CommentGroup(0, 0, " red\n"))
    ensures SpecOption(p, upperSnake, ident, typeNode, spec) == Ok(Some(EnumOption(obj.kind.val, Suffix("RED"), "red")))
  {
    assert "COLOR__RED" == "COLOR" + "__" + "RED";
    PrefixedConstantOption(p, upperSnake, ident, typeNode, spec, obj, "RED");
    TrimSpaceOfRed();
  }

  lemma TrimSpaceOfRed()
    ensures TrimSpace(" red\n") == "red"
  {
    TrimLeftOfRed();
    TrimRightOfRed();
  }

  lemma TrimLeftOfRed()
    ensures TrimLeft(" red\n") == "red\n"
  {
    var s := " red\n";
    assert |s| > 0 && IsSpace(s[0]);
    assert s[1..] == "red\n";
    var t := "red\n";
    assert |t| > 0 && !IsSpace(t[0]);
  }

  lemma TrimRightOfRed()
    ensures TrimRight("red\n") == "red"
  {
    assert "red\n"[..3] == "red";
    assert TrimRight("red") == "red";
  }
}
