/**
 * `sort` and `merge_sort` (AVLTreeList.py:486-523). The values are taken
 * to be integers under their usual order; `merge_sort` sorts a Python list
 * in place, which here is an array, and its slices `lst[:mid]` and
 * `lst[mid:]` are new arrays.
 */
module Sorting {
  import opened Wrappers
  import opened Trees
  import opened Updates
  import opened AVLTreeLists

  ghost predicate Sorted(s: seq<int>)
  {
    forall i, j | 0 <= i < j < |s| :: s[i] <= s[j]
  }

  /**
   * `merge_sort` (AVLTreeList.py:498-523): sorts the two halves, then merges
   * them back into `a`.
   */
  method MergeSort(a: array<int>)
    modifies a
    ensures Sorted(a[..]) && multiset(a[..]) == multiset(old(a[..]))
    decreases a.Length
  {
    if a.Length > 1 {
      var mid := a.Length / 2;
      var left := new int[mid](i requires 0 <= i < mid reads a => a[i]);
      var right := new int[a.Length - mid](i requires 0 <= i < a.Length - mid reads a => a[mid + i]);
      assert a[..] == left[..] + right[..];
      MergeSort(left);
      MergeSort(right);
      Merge(a, left, right);
    }
  }

  /**
   * The three loops of `merge_sort`: while both halves have items left the
   * smaller head goes first (the left one on a tie), then the rest of
   * whichever half is not used up.
   */
  method Merge(a: array<int>, left: array<int>, right: array<int>)
    requires a != left && a != right && a.Length == left.Length + right.Length
    requires Sorted(left[..]) && Sorted(right[..])
    modifies a
    ensures Sorted(a[..]) && multiset(a[..]) == multiset(left[..]) + multiset(right[..])
  {
    ghost var l, r := left[..], right[..];
    var li, ri, out := MergeHeads(a, left, right, l, r);
    li, out := CopyLeft(a, left, right, l, r, li, ri, out);
    ri, out := CopyRight(a, left, right, l, r, li, ri, out);
    MergedAll(out, l, r);
    assert a[..] == out;
  }

  /** The first loop of the merge: the smaller of the two heads goes next, the left one on a tie. */
  method MergeHeads(a: array<int>, left: array<int>, right: array<int>, ghost l: seq<int>, ghost r: seq<int>)
    returns (li: int, ri: int, ghost out: seq<int>)
    requires a != left && a != right && a.Length == left.Length + right.Length
    requires l == left[..] && r == right[..] && Sorted(l) && Sorted(r)
    modifies a
    ensures 0 <= li <= |l| && 0 <= ri <= |r| && (li == |l| || ri == |r|)
    ensures Prefix(a, out) && |out| == li + ri && Merged(out, l, li, r, ri)
  {
    out := [];
    li, ri := 0, 0;
    while li < left.Length && ri < right.Length
      invariant 0 <= li <= |l| && 0 <= ri <= |r|
      invariant Prefix(a, out) && |out| == li + ri && Merged(out, l, li, r, ri)
    {
      var ti := li + ri;
      var x;
      if left[li] <= right[ri] {
        x := left[li];
        MergeStep(out, l, li, r, ri, x, true);
        li := li + 1;
      } else {
        x := right[ri];
        MergeStep(out, l, li, r, ri, x, false);
        ri := ri + 1;
      }
      Put(a, ti, out, x);
      out := out + [x];
    }
  }

  /** The second loop of the merge: the rest of the left half goes next. */
  method CopyLeft(a: array<int>, left: array<int>, right: array<int>, ghost l: seq<int>, ghost r: seq<int>,
                  li: int, ri: int, ghost out: seq<int>)
    returns (k: int, ghost out': seq<int>)
    requires a != left && a != right && a.Length == left.Length + right.Length
    requires l == left[..] && r == right[..] && Sorted(l) && Sorted(r)
    requires 0 <= li <= |l| && 0 <= ri <= |r| && (li == |l| || ri == |r|)
    requires Prefix(a, out) && |out| == li + ri && Merged(out, l, li, r, ri)
    modifies a
    ensures k == |l| && Prefix(a, out') && |out'| == k + ri && Merged(out', l, k, r, ri)
  {
    k, out' := li, out;
    while k < left.Length
      invariant li <= k <= |l| && (k == |l| || ri == |r|)
      invariant Prefix(a, out') && |out'| == k + ri && Merged(out', l, k, r, ri)
    {
      var x := left[k];
      MergeStep(out', l, k, r, ri, x, true);
      Put(a, k + ri, out', x);
      out' := out' + [x];
      k := k + 1;
    }
  }

  /** The third loop of the merge: the rest of the right half goes next. */
  method CopyRight(a: array<int>, left: array<int>, right: array<int>, ghost l: seq<int>, ghost r: seq<int>,
                   li: int, ri: int, ghost out: seq<int>)
    returns (k: int, ghost out': seq<int>)
    requires a != left && a != right && a.Length == left.Length + right.Length
    requires l == left[..] && r == right[..] && Sorted(l) && Sorted(r)
    requires 0 <= li <= |l| && 0 <= ri <= |r| && (li == |l| || ri == |r|)
    requires Prefix(a, out) && |out| == li + ri && Merged(out, l, li, r, ri)
    modifies a
    ensures k == |r| && Prefix(a, out') && |out'| == li + k && Merged(out', l, li, r, k)
  {
    k, out' := ri, out;
    while k < right.Length
      invariant ri <= k <= |r| && (li == |l| || k == |r|)
      invariant Prefix(a, out') && |out'| == li + k && Merged(out', l, li, r, k)
    {
      var x := right[k];
      MergeStep(out', l, li, r, k, x, false);
      Put(a, li + k, out', x);
      out' := out' + [x];
      k := k + 1;
    }
  }

  /** A merge that has used up both halves is sorted and holds exactly their items. */
  lemma {:induction false} MergedAll(out: seq<int>, l: seq<int>, r: seq<int>)
    requires Merged(out, l, |l|, r, |r|)
    ensures Sorted(out) && multiset(out) == multiset(l) + multiset(r)
  {
    assert l[..|l|] == l && r[..|r|] == r;
  }

  /** The first `|out|` items of `a` are `out`. */
  ghost predicate Prefix(a: array<int>, out: seq<int>)
    reads a
  {
    |out| <= a.Length && forall k | 0 <= k < |out| :: a[k] == out[k]
  }

  /** Writes `x` into `a` just after its prefix `out`. */
  method Put(a: array<int>, ti: int, ghost out: seq<int>, x: int)
    requires Prefix(a, out) && ti == |out| < a.Length
    modifies a
    ensures Prefix(a, out + [x])
  {
    a[ti] := x;
  }

  /**
   * The merged prefix `out` is sorted, holds the first `li` items of `l`
   * and the first `ri` of `r`, and comes before every item still to be
   * merged.
   */
  ghost predicate Merged(out: seq<int>, l: seq<int>, li: int, r: seq<int>, ri: int)
    requires 0 <= li <= |l| && 0 <= ri <= |r|
  {
    Sorted(out) &&
    multiset(out) == multiset(l[..li]) + multiset(r[..ri]) &&
    (out != [] && li < |l| ==> out[|out| - 1] <= l[li]) &&
    (out != [] && ri < |r| ==> out[|out| - 1] <= r[ri])
  }

  /** A sorted sequence stays sorted when an item no smaller than its last one is appended. */
  lemma {:induction false} SortedSnoc(s: seq<int>, x: int)
    requires Sorted(s) && (s != [] ==> s[|s| - 1] <= x)
    ensures Sorted(s + [x])
  {
    var s' := s + [x];
    forall i, j | 0 <= i < j < |s'| ensures s'[i] <= s'[j] {
      if j == |s| && i < |s| {
        assert s[i] <= s[|s| - 1];
      }
    }
  }

  /** Taking the next item from the left (`fromLeft`) or the right half keeps the merge in order. */
  lemma {:induction false} MergeStep(out: seq<int>, l: seq<int>, li: int, r: seq<int>, ri: int, x: int, fromLeft: bool)
    requires 0 <= li <= |l| && 0 <= ri <= |r| && Merged(out, l, li, r, ri) && Sorted(l) && Sorted(r)
    requires fromLeft ==> li < |l| && x == l[li] && (ri < |r| ==> x <= r[ri])
    requires !fromLeft ==> ri < |r| && x == r[ri] && (li < |l| ==> x <= l[li])
    ensures fromLeft ==> Merged(out + [x], l, li + 1, r, ri)
    ensures !fromLeft ==> Merged(out + [x], l, li, r, ri + 1)
  {
    SortedSnoc(out, x);
    if fromLeft {
      TakeOneMore(l, li);
      assert li + 1 < |l| ==> x <= l[li + 1];
    } else {
      TakeOneMore(r, ri);
      assert ri + 1 < |r| ==> x <= r[ri + 1];
    }
  }

  /** The items of a prefix one longer. */
  lemma {:induction false} TakeOneMore(s: seq<int>, i: int)
    requires 0 <= i < |s|
    ensures multiset(s[..i + 1]) == multiset(s[..i]) + multiset{s[i]}
  {
    assert s[..i + 1] == s[..i] + [s[i]];
  }


  /**
   * `sort` (AVLTreeList.py:486-496): the items in order, sorted, then
   * inserted one after the other at the end of a new, empty list.
   */
  method Sort(self: AVLTreeList<int>) returns (r: TreeList<int>)
    requires self.Valid()
    ensures WellFormed(r) && Sorted(Items(r)) && multiset(Items(r)) == multiset(self.Contents())
  {
    self.ValidSize();
    if self.size == 0 {
      return TreeList(None, 0);
    }
    var lst := self.ListToArray();
    var arr := new int[|lst|](i requires 0 <= i < |lst| => lst[i]);
    assert arr[..] == lst;
    MergeSort(arr);
    ghost var sorted := arr[..];
    r := TreeList(None, 0);
    for i := 0 to arr.Length
      invariant arr[..] == sorted
      invariant WellFormed(r) && Items(r) == arr[..i]
    {
      var rotations;
      ghost var rotated;
      r, rotations, rotated := Insert(r, i, arr[i]);
      InsertAtEnd(arr[..i], arr[i]);
      assert arr[..i + 1] == arr[..i] + [arr[i]];
    }
    assert arr[..arr.Length] == arr[..];
  }
}
