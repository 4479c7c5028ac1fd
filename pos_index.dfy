/** The structure shared by the file index (`astFiles`) and the function
    index (`fns`): entries sorted by position, a sentinel after the last
    one, and a lower-bound binary search. */
module PosIndex {
  import opened Wrappers
  import opened GoAst
  import Sorting

  /** One index entry (`astFile` or `fn`): the owning package, its
      `PackageInfo`, the file or function, and the position it is keyed by.
      The sentinel entry has nil `pkg`, `pkgInfo` and `item`. */
  datatype Entry<X> = Entry(pkg: Option<Package>, pkgInfo: Option<PackageInfo>, item: Option<X>, pos: Pos)

  /** The key both indices are sorted by. */
  function PosOf<X>(e: Entry<X>): int {
    e.pos
  }

  ghost predicate Sorted<X>(s: seq<Entry<X>>) {
    Sorting.SortedBy(s, PosOf)
  }

  /** Sorted with pairwise distinct positions, as the front-end's positions are. */
  ghost predicate StrictlySorted<X>(s: seq<Entry<X>>) {
    forall i, j :: 0 <= i < j < |s| ==> s[i].pos < s[j].pos
  }

  /** Entry `i` is the answer for `pos`: `pos` is its position, or lies
      strictly between it and the next entry. */
  ghost predicate Resolves<X>(s: seq<Entry<X>>, i: int, pos: Pos)
    requires 0 <= i < |s|
  {
    s[i].pos == pos || (i + 1 < |s| && s[i].pos < pos < s[i + 1].pos)
  }

  /** `sort.Search` over `[lo, hi)` with the predicate `s[h].pos >= pos`:
      the same halving as Go's, `h = (lo + hi) / 2`. On a sorted index it is
      the first index whose position is at least `pos`. */
  function SearchFrom<X>(s: seq<Entry<X>>, pos: Pos, lo: nat, hi: nat): (i: nat)
    requires lo <= hi <= |s|
    ensures lo <= i <= hi
    ensures Sorted(s) ==> forall k :: lo <= k < i ==> s[k].pos < pos
    ensures Sorted(s) ==> forall k :: i <= k < hi ==> pos <= s[k].pos
    decreases hi - lo
  {
    if lo < hi then
      var h := (lo + hi) / 2;
      if !(s[h].pos >= pos) then SearchFrom(s, pos, h + 1, hi) else SearchFrom(s, pos, lo, h)
    else lo
  }

  /** `searchByPos`: the lower bound `i`, then: past the end is nil; an
      exact match is `s[i]`; below the first entry is nil; otherwise `pos`
      lies inside the entry before, `s[i - 1]`. */
  function SearchByPos<X>(s: seq<Entry<X>>, pos: Pos): (r: Option<Entry<X>>)
    ensures |s| == 0 ==> r.None?
    ensures Sorted(s) && r.Some? ==> exists i :: 0 <= i < |s| && s[i] == r.value && Resolves(s, i, pos)
    ensures StrictlySorted(s) ==> forall i :: 0 <= i < |s| && Resolves(s, i, pos) ==> r == Some(s[i])
  {
    var i := SearchFrom(s, pos, 0, |s|);
    if i > |s| - 1 then None
    else if s[i].pos == pos then Some(s[i])
    else if i == 0 then None
    else Some(s[i - 1])
  }

  /** A position below the first entry finds nothing. */
  lemma SearchBelowFirst<X>(s: seq<Entry<X>>, pos: Pos)
    requires Sorted(s) && |s| > 0 && pos < s[0].pos
    ensures SearchByPos(s, pos).None?
  {
  }

  /** A position above the last entry finds nothing (for a built index the
      last entry is the sentinel at the end of the last file or function). */
  lemma SearchAboveLast<X>(s: seq<Entry<X>>, pos: Pos)
    requires Sorted(s) && |s| > 0 && s[|s| - 1].pos < pos
    ensures SearchByPos(s, pos).None?
  {
  }

  /** A position strictly between two neighbours finds the lower one. */
  lemma SearchBetween<X>(s: seq<Entry<X>>, i: nat, pos: Pos)
    requires StrictlySorted(s) && 0 < i < |s| && s[i - 1].pos < pos < s[i].pos
    ensures SearchByPos(s, pos) == Some(s[i - 1])
  {
    assert Resolves(s, i - 1, pos);
  }

  /** With a single entry (no sentinel) only its own position resolves. */
  lemma SingleEntryOnlyStart<X>(s: seq<Entry<X>>, pos: Pos)
    requires |s| == 1
    ensures SearchByPos(s, pos).Some? <==> pos == s[0].pos
  {
  }

  /** `index` is what sorting `collected` and appending the sentinel gives:
      the real entries, sorted, first; then, when there are at least two,
      a sentinel at the end (`endOf`) of the last real entry's item. */
  ghost predicate IsIndexOf<X>(collected: multiset<Entry<X>>, endOf: X -> Pos, index: seq<Entry<X>>) {
    var n := |collected|;
    && |index| == (if n > 1 then n + 1 else n)
    && multiset(index[..n]) == collected
    && Sorted(index[..n])
    && (n > 1 ==> index[n - 1].item.Some? && index[n] == Entry(None, None, None, endOf(index[n - 1].item.value)))
  }

  /** The tail shared by `newASTFiles` and `newFns`: `sort.Sort` the
      collected entries in place, then append the sentinel when there are
      more than one. */
  method SortAndSeal<X>(collected: seq<Entry<X>>, endOf: X -> Pos) returns (index: seq<Entry<X>>)
    requires forall e :: e in collected ==> e.item.Some?
    ensures IsIndexOf(multiset(collected), endOf, index)
  {
    var a := new Entry<X>[|collected|](i requires 0 <= i < |collected| => collected[i]);
    assert a[..] == collected;
    Sorting.SortBy(a, PosOf);
    index := a[..];
    assert Sorted(index);
    if |index| > 1 {
      var last := index[|index| - 1];
      assert last in multiset(collected);
      index := index + [Entry(None, None, None, endOf(last.item.value))];
    }
    assert |multiset(collected)| == |collected|;
  }

  /** When every item ends no earlier than it starts, the sentinel keeps the
      whole index sorted. */
  lemma SentinelKeepsOrder<X>(collected: multiset<Entry<X>>, endOf: X -> Pos, index: seq<Entry<X>>)
    requires IsIndexOf(collected, endOf, index)
    requires forall e :: e in collected ==> e.item.Some? && e.pos <= endOf(e.item.value)
    ensures Sorted(index)
  {
    var n := |collected|;
    if n > 1 {
      assert index[n - 1] in multiset(index[..n]);
      forall i, j | 0 <= i < j < |index|
        ensures index[i].pos <= index[j].pos
      {
        if j == n {
          assert index[i].pos <= index[n - 1].pos;
        } else {
          assert index[i] == index[..n][i] && index[j] == index[..n][j];
        }
      }
    } else {
      assert index == index[..n];
    }
  }

  /** Every collected entry is found again by its own position. */
  lemma {:induction false} IndexedEntryFound<X>(collected: multiset<Entry<X>>, endOf: X -> Pos, index: seq<Entry<X>>, e: Entry<X>)
    requires IsIndexOf(collected, endOf, index)
    requires StrictlySorted(index)
    requires e in collected
    ensures SearchByPos(index, e.pos) == Some(e)
  {
    var n := |collected|;
    assert e in index[..n];
    var i :| 0 <= i < n && index[..n][i] == e;
    assert Resolves(index, i, e.pos);
  }
}
