/** `astFiles`: every source file of every package, keyed by its start
    position, sorted, with a sentinel at the end of the last file. */
module AstFileCache {
  import opened Wrappers
  import opened GoAst
  import opened Multisets
  import opened PosIndex

  type AstFile = Entry<FileNode>

  /** The entries `newASTFiles` appends for one package, in `Files` order. */
  function FileEntries(pkg: Package, info: PackageInfo): seq<AstFile> {
    seq(|info.files|, i requires 0 <= i < |info.files| =>
      Entry(Some(pkg), Some(info), Some(info.files[i]), info.files[i].pos))
  }

  ghost function PackageFiles(pkgs: map<Package, PackageInfo>): Package -> multiset<AstFile> {
    pkg => if pkg in pkgs then multiset(FileEntries(pkg, pkgs[pkg])) else multiset{}
  }

  /** One entry per file of every package, each with its own package and
      `PackageInfo`. */
  ghost function AllFiles(pkgs: map<Package, PackageInfo>): multiset<AstFile> {
    SumOver(pkgs.Keys, PackageFiles(pkgs))
  }

  /** `(*ast.File).End()`, where the sentinel is placed. */
  function FileEnd(f: FileNode): Pos {
    f.end
  }

  /** `newASTFiles`: collect, `sort.Sort`, append the sentinel. */
  method NewASTFiles(pkgs: map<Package, PackageInfo>) returns (files: seq<AstFile>)
    ensures IsIndexOf(AllFiles(pkgs), FileEnd, files)
  {
    var collected: seq<AstFile> := [];
    var remaining := pkgs.Keys;
    while remaining != {}
      invariant remaining <= pkgs.Keys
      invariant multiset(collected) + SumOver(remaining, PackageFiles(pkgs)) == AllFiles(pkgs)
      invariant forall e :: e in collected ==> e.item.Some?
      decreases remaining
    {
      var pkg :| pkg in remaining;
      var entries := PackageEntries(pkg, pkgs[pkg]);
      SumOverRemove(remaining, PackageFiles(pkgs), pkg);
      assert PackageFiles(pkgs)(pkg) == multiset(entries);
      collected := collected + entries;
      remaining := remaining - {pkg};
    }
    files := SortAndSeal(collected, FileEnd);
  }

  /** The inner loop of `newASTFiles`: one entry per file of the package. */
  method PackageEntries(pkg: Package, info: PackageInfo) returns (entries: seq<AstFile>)
    ensures entries == FileEntries(pkg, info)
    ensures forall e :: e in entries ==> e.item.Some?
  {
    entries := [];
    for i := 0 to |info.files|
      invariant entries == FileEntries(pkg, info)[..i]
    {
      var file := info.files[i];
      entries := entries + [Entry(Some(pkg), Some(info), Some(file), file.pos)];
    }
  }

  /** Each file of each package is an entry of the index, with its own
      package and `PackageInfo`. */
  lemma FileIsIndexed(pkgs: map<Package, PackageInfo>, pkg: Package, i: nat)
    requires pkg in pkgs && i < |pkgs[pkg].files|
    ensures Entry(Some(pkg), Some(pkgs[pkg]), Some(pkgs[pkg].files[i]), pkgs[pkg].files[i].pos) in AllFiles(pkgs)
  {
    SumOverRemove(pkgs.Keys, PackageFiles(pkgs), pkg);
    assert FileEntries(pkg, pkgs[pkg])[i] in multiset(FileEntries(pkg, pkgs[pkg]));
  }

  /** Every entry of the index comes from a file of a package. */
  lemma IndexedIsFile(pkgs: map<Package, PackageInfo>, e: AstFile)
    requires e in AllFiles(pkgs)
    ensures e.pkg.Some? && e.pkg.value in pkgs && e.pkgInfo == Some(pkgs[e.pkg.value])
    ensures e.item.Some? && e.item.value in pkgs[e.pkg.value].files && e.pos == e.item.value.pos
  {
    InSumOver(pkgs.Keys, PackageFiles(pkgs), e);
    var pkg :| pkg in pkgs.Keys && e in PackageFiles(pkgs)(pkg);
    assert e in FileEntries(pkg, pkgs[pkg]);
  }

  /** A file entry of the test, known only by its position. */
  function TestFile(pos: Pos): AstFile {
    Entry(None, None, None, pos)
  }

  /** Sorting the test's files, given at 1, 10, 4 and 7, can only give
      1, 4, 7, 10. */
  lemma SortedTestFiles(s: seq<AstFile>)
    requires Sorted(s)
    requires multiset(s) == multiset{TestFile(1), TestFile(10), TestFile(4), TestFile(7)}
    ensures s == [TestFile(1), TestFile(4), TestFile(7), TestFile(10)]
  {
    assert |s| == 4 by {
      assert |multiset(s)| == 4;
    }
    var i1 := IndexOfTestFile(s, 1);
    var i4 := IndexOfTestFile(s, 4);
    var i7 := IndexOfTestFile(s, 7);
    var i10 := IndexOfTestFile(s, 10);
    assert PosOf(s[0]) <= PosOf(s[i1]) && PosOf(s[i10]) <= PosOf(s[3]);
    assert PosOf(s[i4]) <= PosOf(s[i7]) ==> i4 <= i7;
  }

  /** Where the file at `pos` sits in a sequence holding the test's files. */
  lemma IndexOfTestFile(s: seq<AstFile>, pos: Pos) returns (i: nat)
    requires multiset(s) == multiset{TestFile(1), TestFile(10), TestFile(4), TestFile(7)}
    requires pos == 1 || pos == 4 || pos == 7 || pos == 10
    ensures i < |s| && s[i] == TestFile(pos)
  {
    assert TestFile(pos) in multiset(s);
    i :| 0 <= i < |s| && s[i] == TestFile(pos);
  }

  /** The searches of the test on its sorted files: positions 0 and 11
      find nothing, 1 finds the file at 1 and 5 finds the file at 4. */
  lemma SearchSortedTestFiles()
    ensures var s := [TestFile(1), TestFile(4), TestFile(7), TestFile(10)];
            && SearchByPos(s, 0).None? && SearchByPos(s, 11).None?
            && SearchByPos(s, 1).Some? && SearchByPos(s, 1).value.pos == 1
            && SearchByPos(s, 5).Some? && SearchByPos(s, 5).value.pos == 4
  {
    var s := [TestFile(1), TestFile(4), TestFile(7), TestFile(10)];
    assert StrictlySorted(s);
    SearchBelowFirst(s, 0);
    SearchAboveLast(s, 11);
    assert Resolves(s, 0, 1);
    SearchBetween(s, 2, 5);
  }

  /** `TestAstFiles_SearchByPos`: the files at 1, 10, 4 and 7 are sorted
      with `sort.Sort`; then positions 0 and 11 find nothing, 1 finds the
      file at 1 and 5 finds the file at 4. */
  method SearchVectors() returns (s: seq<AstFile>)
    ensures Sorted(s) && multiset(s) == multiset{TestFile(1), TestFile(10), TestFile(4), TestFile(7)}
    ensures SearchByPos(s, 0).None? && SearchByPos(s, 11).None?
    ensures SearchByPos(s, 1).Some? && SearchByPos(s, 1).value.pos == 1
    ensures SearchByPos(s, 5).Some? && SearchByPos(s, 5).value.pos == 4
  {
    var a := new AstFile[4];
    a[0], a[1], a[2], a[3] := TestFile(1), TestFile(10), TestFile(4), TestFile(7);
    assert a[..] == [TestFile(1), TestFile(10), TestFile(4), TestFile(7)];
    Sorting.SortBy(a, PosOf);
    s := a[..];
    SortedTestFiles(s);
    SearchSortedTestFiles();
  }
}
