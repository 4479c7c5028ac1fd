/** `getCommentsFor` and `CommentGroupFor` (program/program.go): the comment
    groups that document a node, ordered by position. */
module Comments {
  import opened Wrappers
  import opened GoAst
  import opened Multisets
  import opened Sorting
  import opened ProgramIndex

  /** `ast.CommentMap`: the comment groups attached to each node. */
  type CommentMap = map<Node, seq<CommentGroup>>

  /** Nodes whose own entry of the map is their whole answer:
      `*ast.File`, `*ast.Field`, `ast.Stmt`, `ast.Decl`. */
  predicate IsCommentOwner(n: Node) {
    n.kind.File? || n.kind.Field? || n.kind.Stmt? || n.IsDecl()
  }

  /** Nodes the search for an enclosing node considers:
      `*ast.Field`, `ast.Decl`, `ast.Spec`, `ast.Stmt`. */
  predicate IsCandidate(n: Node) {
    n.kind.Field? || n.IsDecl() || n.IsSpec() || n.kind.Stmt?
  }

  /** `n` is a candidate whose span covers the span of `target`. */
  predicate EnclosesAsCandidate(n: Node, target: Node) {
    IsCandidate(n) && target.pos >= n.pos && target.end <= n.end
  }

  function CommentPos(c: CommentGroup): int {
    c.pos
  }

  /** The comments of the map entry of `n`, none if it has no entry. */
  ghost function OwnComments(cm: CommentMap, n: Node): multiset<CommentGroup> {
    if n in cm then multiset(cm[n]) else multiset{}
  }

  /** The copies of `comments` one declaration contributes: one per
      occurrence of `target` among its specs. */
  ghost function DeclHits(specs: seq<Node>, target: Node, comments: seq<CommentGroup>): multiset<CommentGroup> {
    if |specs| == 0 then multiset{}
    else DeclHits(specs[..|specs| - 1], target, comments)
         + (if specs[|specs| - 1] == target then multiset(comments) else multiset{})
  }

  ghost function GenDeclHits(cm: CommentMap, target: Node): Node -> multiset<CommentGroup> {
    n => if n in cm && n.kind.GenDecl? then DeclHits(n.kind.specs, target, cm[n]) else multiset{}
  }

  /** The comments of a spec: those of every `GenDecl` of the map that
      lists it, then its own. */
  ghost function SpecComments(cm: CommentMap, target: Node): multiset<CommentGroup> {
    SumOver(cm.Keys, GenDeclHits(cm, target)) + OwnComments(cm, target)
  }

  /** The comments of a node that is a spec or a comment owner. */
  ghost function DirectComments(cm: CommentMap, n: Node): multiset<CommentGroup> {
    if n.IsSpec() then SpecComments(cm, n) else OwnComments(cm, n)
  }

  /** `preorder[i]` is the node the search settles on: among the enclosing
      candidates it starts last (smallest distance to the target's start),
      and no later one in visiting order starts as late. */
  ghost predicate Innermost(preorder: seq<Node>, target: Node, i: int) {
    && 0 <= i < |preorder| && EnclosesAsCandidate(preorder[i], target)
    && forall j :: 0 <= j < |preorder| && EnclosesAsCandidate(preorder[j], target) ==>
         && preorder[j].pos <= preorder[i].pos
         && (j > i ==> preorder[j].pos < preorder[i].pos)
  }

  /** At most one node is the innermost. */
  lemma InnermostUnique(preorder: seq<Node>, target: Node, i: int, k: int)
    requires Innermost(preorder, target, i) && Innermost(preorder, target, k)
    ensures i == k
  {
  }

  /** The `ast.Inspect` walk of the default case: the enclosing candidate
      with the smallest distance `deltaPos` from its start to the target's,
      the later one on a tie. `preorder` is the sequence of nodes the walk
      visits. */
  method EnclosingNode(target: Node, preorder: seq<Node>) returns (parent: Option<Node>)
    ensures parent.Some? ==> exists i :: Innermost(preorder, target, i) && preorder[i] == parent.value
    ensures parent.None? ==> forall j :: 0 <= j < |preorder| ==> !EnclosesAsCandidate(preorder[j], target)
  {
    var deltaPos := -1;
    parent := None;
    ghost var best := 0;
    for k := 0 to |preorder|
      invariant deltaPos == -1 <==> parent.None?
      invariant parent.None? ==> forall j :: 0 <= j < k ==> !EnclosesAsCandidate(preorder[j], target)
      invariant parent.Some? ==>
                  && best < k && preorder[best] == parent.value
                  && EnclosesAsCandidate(parent.value, target)
                  && deltaPos == target.pos - parent.value.pos
                  && (forall j :: 0 <= j < k && EnclosesAsCandidate(preorder[j], target) ==>
                        && preorder[j].pos <= parent.value.pos
                        && (j > best ==> preorder[j].pos < parent.value.pos))
    {
      var node := preorder[k];
      if IsCandidate(node) && target.pos >= node.pos && target.end <= node.end {
        var nextDelta := target.pos - node.pos;
        if deltaPos == -1 || nextDelta <= deltaPos {
          deltaPos := nextDelta;
          parent := Some(node);
          best := k;
        }
      }
    }
    if parent.Some? {
      assert Innermost(preorder, target, best);
    }
  }

  /** The first loop of the spec case: every comment list of a `GenDecl`
      entry, once per occurrence of `target` among its specs, in the order
      `range` visits the map. */
  method CollectDeclComments(cm: CommentMap, target: Node) returns (list: seq<CommentGroup>)
    ensures multiset(list) == SumOver(cm.Keys, GenDeclHits(cm, target))
  {
    list := [];
    var remaining := cm.Keys;
    while remaining != {}
      invariant remaining <= cm.Keys
      invariant multiset(list) + SumOver(remaining, GenDeclHits(cm, target)) == SumOver(cm.Keys, GenDeclHits(cm, target))
      decreases remaining
    {
      var n :| n in remaining;
      SumOverRemove(remaining, GenDeclHits(cm, target), n);
      if n.kind.GenDecl? {
        var hits := SpecHits(n.kind.specs, target, cm[n]);
        assert GenDeclHits(cm, target)(n) == DeclHits(n.kind.specs, target, cm[n]);
        list := list + hits;
      } else {
        assert GenDeclHits(cm, target)(n) == multiset{};
      }
      remaining := remaining - {n};
    }
  }

  /** The loop over the specs of one `GenDecl`. */
  method SpecHits(specs: seq<Node>, target: Node, comments: seq<CommentGroup>) returns (hits: seq<CommentGroup>)
    ensures multiset(hits) == DeclHits(specs, target, comments)
  {
    hits := [];
    for j := 0 to |specs|
      invariant multiset(hits) == DeclHits(specs[..j], target, comments)
    {
      assert specs[..j + 1][..j] == specs[..j];
      if specs[j] == target {
        hits := hits + comments;
      }
    }
    assert specs[..|specs|] == specs;
  }

  /** `sort.Sort(ByCommentPos(...))`. */
  method SortByPos(list: seq<CommentGroup>) returns (sorted: seq<CommentGroup>)
    ensures SortedBy(sorted, CommentPos) && multiset(sorted) == multiset(list)
  {
    var a := new CommentGroup[|list|](i requires 0 <= i < |list| => list[i]);
    assert a[..] == list;
    SortBy(a, CommentPos);
    sorted := a[..];
  }

  /** What `getCommentsFor` returns for `target`, in position order. */
  ghost predicate IsCommentsFor(cm: CommentMap, preorder: seq<Node>, target: Node, list: seq<CommentGroup>) {
    && SortedBy(list, CommentPos)
    && (target.IsSpec() ==> multiset(list) == SpecComments(cm, target))
    && (!target.IsSpec() && IsCommentOwner(target) ==> multiset(list) == OwnComments(cm, target))
    && (!target.IsSpec() && !IsCommentOwner(target) ==>
          && (forall i :: Innermost(preorder, target, i) ==> multiset(list) == DirectComments(cm, preorder[i]))
          && ((forall j :: 0 <= j < |preorder| ==> !EnclosesAsCandidate(preorder[j], target)) ==> list == []))
  }

  /** `getCommentsFor`: a spec merges the comments of the declarations
      listing it with its own; a file, field, statement or declaration has
      its own; any other node takes those of its innermost enclosing
      candidate. */
  method GetCommentsFor(target: Node, cm: CommentMap, preorder: seq<Node>) returns (list: seq<CommentGroup>)
    ensures IsCommentsFor(cm, preorder, target, list)
    decreases if target.IsSpec() || IsCommentOwner(target) then 0 else 1
  {
    var collected: seq<CommentGroup> := [];
    if target.IsSpec() {
      collected := CollectDeclComments(cm, target);
      if target in cm {
        collected := collected + cm[target];
      }
    } else if IsCommentOwner(target) {
      if target in cm {
        collected := cm[target];
      }
    } else {
      var parent := EnclosingNode(target, preorder);
      if parent.Some? {
        collected := GetCommentsFor(parent.value, cm, preorder);
        forall i | Innermost(preorder, target, i)
          ensures multiset(collected) == DirectComments(cm, preorder[i])
        {
          var k :| Innermost(preorder, target, k) && preorder[k] == parent.value;
          InnermostUnique(preorder, target, i, k);
        }
      }
    }
    list := SortByPos(collected);
  }

  /** `CommentGroupFor`: the comment map and the walk are those of the
      node's file (`commentMap` stands for `ast.NewCommentMap`, `inspect`
      for the nodes `ast.Inspect` visits). Panics when the node has no file. */
  method CommentGroupFor(p: Program, targetNode: Node, commentMap: FileNode -> CommentMap, inspect: FileNode -> seq<Node>)
    returns (r: Outcome<seq<CommentGroup>>)
    ensures r.Panic? <==> FileOf(p, targetNode).None?
    ensures r.Ok? ==> var file := FileOf(p, targetNode).value;
                      IsCommentsFor(commentMap(file), inspect(file), targetNode, r.value)
  {
    var file := FileOf(p, targetNode);
    if file.None? {
      return Panic;
    }
    var list := GetCommentsFor(targetNode, commentMap(file.value), inspect(file.value));
    return Ok(list);
  }

  /** A spec's comments include those of every declaration that lists it. */
  lemma SpecIncludesDeclComments(cm: CommentMap, decl: Node, target: Node)
    requires decl in cm && decl.kind.GenDecl? && target in decl.kind.specs
    ensures multiset(cm[decl]) <= SpecComments(cm, target)
  {
    SumOverRemove(cm.Keys, GenDeclHits(cm, target), decl);
    HitsIncludeComments(decl.kind.specs, target, cm[decl]);
  }

  lemma {:induction false} HitsIncludeComments(specs: seq<Node>, target: Node, comments: seq<CommentGroup>)
    requires target in specs
    ensures multiset(comments) <= DeclHits(specs, target, comments)
  {
    if specs[|specs| - 1] != target {
      assert target in specs[..|specs| - 1];
      HitsIncludeComments(specs[..|specs| - 1], target, comments);
    }
  }
}
