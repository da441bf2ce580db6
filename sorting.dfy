/**
 * `Array.prototype.sort(compare)`. ECMAScript requires the sort to be stable
 * and to order the elements consistently with `compare`; for a comparator
 * that is a total preorder that pins the result down to exactly one
 * sequence, the stable insertion sort below. `before(a, b)` holds when
 * `compare(a, b) <= 0`, that is, when `a` may stay ahead of `b`.
 */
module Sorting {
  import opened Seqs

  /** `before` is total and transitive: a consistent comparator. */
  ghost predicate TotalPreorder<T(!new)>(before: (T, T) -> bool) {
    && (forall a, b :: before(a, b) || before(b, a))
    && (forall a, b, c :: before(a, b) && before(b, c) ==> before(a, c))
  }

  /** Every element may stay ahead of every later one. */
  ghost predicate SortedBy<T>(s: seq<T>, before: (T, T) -> bool) {
    forall i, j :: 0 <= i < j < |s| ==> before(s[i], s[j])
  }

  /** The elements of `s` that `compare` ranks equal to `x`, in the order of `s`. */
  function Ties<T>(s: seq<T>, x: T, before: (T, T) -> bool): seq<T> {
    if s == [] then []
    else Ties(s[..|s| - 1], x, before) + (if Tied(before, x, s[|s| - 1]) then [s[|s| - 1]] else [])
  }

  /** Inserts `x` into `t` behind every element that may stay ahead of it. */
  function Insert<T>(t: seq<T>, x: T, before: (T, T) -> bool): (r: seq<T>)
    ensures |r| == |t| + 1
  {
    if t == [] || before(t[|t| - 1], x) then t + [x]
    else Insert(t[..|t| - 1], x, before) + [t[|t| - 1]]
  }

  /** Inserting adds `x` and keeps every element of `t`. */
  lemma {:induction false} InsertPermutes<T>(t: seq<T>, x: T, before: (T, T) -> bool)
    ensures multiset(Insert(t, x, before)) == multiset(t) + multiset{x}
  {
    if !(t == [] || before(t[|t| - 1], x)) {
      InsertPermutes(t[..|t| - 1], x, before);
      assert t == t[..|t| - 1] + [t[|t| - 1]];
    }
  }

  /** The stable sort of `s` under `before`, inserting the elements left to right. */
  function InsertionSort<T>(s: seq<T>, before: (T, T) -> bool): (r: seq<T>)
    ensures multiset(r) == multiset(s)
    ensures |r| == |s|
  {
    if s == [] then []
    else
      var r := Insert(InsertionSort(s[..|s| - 1], before), s[|s| - 1], before);
      InsertPermutes(InsertionSort(s[..|s| - 1], before), s[|s| - 1], before);
      assert s == s[..|s| - 1] + [s[|s| - 1]];
      r
  }

  lemma {:induction false} InsertKeepsSorted<T(!new)>(t: seq<T>, x: T, before: (T, T) -> bool)
    requires TotalPreorder(before)
    requires SortedBy(t, before)
    ensures SortedBy(Insert(t, x, before), before)
  {
    if t == [] || before(t[|t| - 1], x) {
      var r := t + [x];
      forall i, j | 0 <= i < j < |r| ensures before(r[i], r[j]) {
        if j == |t| && i < |t| - 1 {
          assert before(t[i], t[|t| - 1]);
        }
      }
    } else {
      var init, last := t[..|t| - 1], t[|t| - 1];
      assert SortedBy(init, before);
      InsertKeepsSorted(init, x, before);
      var ins := Insert(init, x, before);
      InsertPermutes(init, x, before);
      var r := ins + [last];
      assert before(x, last);
      assert forall k :: 0 <= k < |init| ==> before(init[k], last);
      assert multiset(ins) == multiset(init) + multiset{x};
      forall k | 0 <= k < |ins| ensures before(ins[k], last) {
        assert ins[k] in multiset(ins);
        if ins[k] != x {
          assert ins[k] in multiset(init);
          assert ins[k] in init;
        }
      }
      forall i, j | 0 <= i < j < |r| ensures before(r[i], r[j]) {
        if j < |ins| {
          assert r[i] == ins[i] && r[j] == ins[j];
        }
      }
    }
  }

  /** The sort orders its output consistently with `before`. */
  lemma {:induction false} InsertionSortIsSorted<T(!new)>(s: seq<T>, before: (T, T) -> bool)
    requires TotalPreorder(before)
    ensures SortedBy(InsertionSort(s, before), before)
  {
    if s != [] {
      InsertionSortIsSorted(s[..|s| - 1], before);
      InsertKeepsSorted(InsertionSort(s[..|s| - 1], before), s[|s| - 1], before);
    }
  }

  /** `x` and `y` rank equal under `before`. */
  predicate Tied<T>(before: (T, T) -> bool, x: T, y: T) {
    before(x, y) && before(y, x)
  }

  /** An element that must move behind `y` does not tie with it, so the two tie lists do not interleave. */
  lemma TiesCommute<T(!new)>(y: T, last: T, x: T, before: (T, T) -> bool)
    requires TotalPreorder(before) && !before(last, y)
    ensures Ties([y], x, before) + Ties([last], x, before) == Ties([last], x, before) + Ties([y], x, before)
  {
  }

  /** The ties of a concatenation are the ties of each part. */
  lemma {:induction false} TiesAppend<T>(a: seq<T>, b: seq<T>, x: T, before: (T, T) -> bool)
    ensures Ties(a + b, x, before) == Ties(a, x, before) + Ties(b, x, before)
  {
    if b != [] {
      assert (a + b)[..|a + b| - 1] == a + b[..|b| - 1];
      TiesAppend(a, b[..|b| - 1], x, before);
    } else {
      assert a + b == a;
    }
  }

  lemma {:induction false} InsertKeepsTies<T(!new)>(t: seq<T>, y: T, x: T, before: (T, T) -> bool)
    requires TotalPreorder(before)
    ensures Ties(Insert(t, y, before), x, before) == Ties(t, x, before) + Ties([y], x, before)
  {
    if t == [] || before(t[|t| - 1], y) {
      TiesAppend(t, [y], x, before);
    } else {
      var init, last := t[..|t| - 1], t[|t| - 1];
      assert t == init + [last];
      assert Insert(t, y, before) == Insert(init, y, before) + [last];
      InsertKeepsTies(init, y, x, before);
      TiesAppend(Insert(init, y, before), [last], x, before);
      TiesAppend(init, [last], x, before);
      TiesCommute(y, last, x, before);
    }
  }

  /** Stability: the elements that rank equal to any `x` keep their original order. */
  lemma {:induction false} InsertionSortIsStable<T(!new)>(s: seq<T>, x: T, before: (T, T) -> bool)
    requires TotalPreorder(before)
    ensures Ties(InsertionSort(s, before), x, before) == Ties(s, x, before)
  {
    if s != [] {
      var init, last := s[..|s| - 1], s[|s| - 1];
      calc {
        Ties(InsertionSort(s, before), x, before);
        Ties(Insert(InsertionSort(init, before), last, before), x, before);
        { InsertKeepsTies(InsertionSort(init, before), last, x, before); }
        Ties(InsertionSort(init, before), x, before) + Ties([last], x, before);
        { InsertionSortIsStable(init, x, before); }
        Ties(init, x, before) + Ties([last], x, before);
        { TiesAppend(init, [last], x, before); }
        Ties(init + [last], x, before);
        { assert s == init + [last]; }
        Ties(s, x, before);
      }
    }
  }

  /** The sort returns a sequence already sorted unchanged. */
  lemma {:induction false} InsertionSortOfSorted<T(!new)>(s: seq<T>, before: (T, T) -> bool)
    requires SortedBy(s, before)
    ensures InsertionSort(s, before) == s
  {
    if s != [] {
      var init, last := s[..|s| - 1], s[|s| - 1];
      SortedInit(s, before);
      calc {
        InsertionSort(s, before);
        Insert(InsertionSort(init, before), last, before);
        { InsertionSortOfSorted(init, before); }
        Insert(init, last, before);
        init + [last];
        s;
      }
    }
  }

  /** Dropping the last element keeps a sequence sorted, and that element may stay behind the new last one. */
  lemma SortedInit<T>(s: seq<T>, before: (T, T) -> bool)
    requires SortedBy(s, before) && s != []
    ensures SortedBy(s[..|s| - 1], before)
    ensures |s| == 1 || before(s[|s| - 2], s[|s| - 1])
  {
  }

  /** Taking a prefix of a sorted sequence leaves behind nothing that ranks ahead of what it took. */
  lemma PrefixDominates<T>(s: seq<T>, n: nat, before: (T, T) -> bool)
    requires SortedBy(s, before) && n <= |s|
    ensures forall x, y :: x in s && x !in s[..n] && y in s[..n] ==> before(y, x)
  {
    forall x, y | x in s && x !in s[..n] && y in s[..n] ensures before(y, x) {
      var m :| 0 <= m < |s| && s[m] == x;
      var k :| 0 <= k < n && s[..n][k] == y;
      assert n <= m;
    }
  }

  /** One step back through a sorted prefix whose last element must move behind `x`. */
  lemma InsertUnfolds<T>(sorted: seq<T>, j: nat, x: T, before: (T, T) -> bool)
    requires 0 < j <= |sorted| && !before(sorted[j - 1], x)
    ensures Insert(sorted[..j], x, before) + sorted[j..]
         == Insert(sorted[..j - 1], x, before) + sorted[j - 1..]
  {
    assert sorted[..j][..j - 1] == sorted[..j - 1];
    assert sorted[j - 1..] == [sorted[j - 1]] + sorted[j..];
  }

  /** Moves `a[i]` back into the sorted prefix `a[..i]`, shifting larger elements up by one. */
  method InsertAt<T>(a: array<T>, i: nat, before: (T, T) -> bool)
    requires i < a.Length
    modifies a
    ensures a[..i + 1] == Insert(old(a[..i]), old(a[i]), before)
    ensures a[i + 1..] == old(a[i + 1..])
  {
    var x := a[i];
    ghost var sorted := a[..i];
    var j := i;
    assert sorted[..j] == sorted && sorted[j..] == [];
    while j > 0 && !before(a[j - 1], x)
      invariant 0 <= j <= i
      invariant forall k :: 0 <= k < j ==> a[k] == sorted[k]
      invariant forall k :: j < k <= i ==> a[k] == sorted[k - 1]
      invariant forall k :: i < k < a.Length ==> a[k] == old(a[k])
      invariant Insert(sorted, x, before) == Insert(sorted[..j], x, before) + sorted[j..]
    {
      InsertUnfolds(sorted, j, x, before);
      a[j] := a[j - 1];
      j := j - 1;
    }
    a[j] := x;
    InsertPlaced(sorted, j, x, before);
    ShiftedIn(a[..i + 1], sorted, j, x);
    SameFrom(a[..], old(a[..]), i + 1);
  }

  /** Two sequences of one length that agree from `n` on have the same suffix from `n`. */
  lemma SameFrom<T>(s: seq<T>, t: seq<T>, n: nat)
    requires |s| == |t| && n <= |s|
    requires forall k :: n <= k < |s| ==> s[k] == t[k]
    ensures s[n..] == t[n..]
  {
    assert forall k :: 0 <= k < |s| - n ==> s[n..][k] == s[n + k] && t[n..][k] == t[n + k];
  }

  /** A sequence that agrees with `sorted` up to `j`, holds `x` at `j` and `sorted` shifted up by one behind it. */
  lemma ShiftedIn<T>(post: seq<T>, sorted: seq<T>, j: nat, x: T)
    requires j <= |sorted| && |post| == |sorted| + 1
    requires forall k :: 0 <= k < j ==> post[k] == sorted[k]
    requires post[j] == x
    requires forall k :: j < k < |post| ==> post[k] == sorted[k - 1]
    ensures post == sorted[..j] + [x] + sorted[j..]
  {
    var r := sorted[..j] + [x] + sorted[j..];
    forall k | 0 <= k < |post| ensures post[k] == r[k] {
      if k < j {
        assert r[k] == sorted[k];
      } else if k > j {
        assert r[k] == sorted[k - 1];
      }
    }
  }

  /** Where the backward scan stops, `x` goes right behind the scanned prefix. */
  lemma InsertPlaced<T>(sorted: seq<T>, j: nat, x: T, before: (T, T) -> bool)
    requires j <= |sorted|
    requires j == 0 || before(sorted[j - 1], x)
    ensures Insert(sorted[..j], x, before) == sorted[..j] + [x]
  {
    if j > 0 {
      assert sorted[..j][j - 1] == sorted[j - 1];
    }
  }

  /** One round of the outer loop of `SortInPlace` extends the sorted prefix by one element. */
  lemma SortStep<T>(orig: seq<T>, pre: seq<T>, post: seq<T>, i: nat, before: (T, T) -> bool)
    requires i < |orig| && |pre| == |orig| && |post| == |orig|
    requires pre[..i] == InsertionSort(orig[..i], before) && pre[i..] == orig[i..]
    requires post[..i + 1] == Insert(pre[..i], pre[i], before) && post[i + 1..] == pre[i + 1..]
    ensures post[..i + 1] == InsertionSort(orig[..i + 1], before) && post[i + 1..] == orig[i + 1..]
  {
    assert orig[..i + 1][..i] == orig[..i];
    assert pre[i] == pre[i..][0] == orig[i..][0] == orig[i];
    assert pre[i + 1..] == pre[i..][1..] == orig[i..][1..] == orig[i + 1..];
  }

  /** `a.sort(compare)` in place: the array ends up as the stable sort of what it held. */
  method SortInPlace<T>(a: array<T>, before: (T, T) -> bool)
    modifies a
    ensures a[..] == InsertionSort(old(a[..]), before)
  {
    ghost var orig := a[..];
    var i := 0;
    while i < a.Length
      invariant 0 <= i <= a.Length
      invariant a[..i] == InsertionSort(orig[..i], before)
      invariant a[i..] == orig[i..]
    {
      ghost var pre := a[..];
      InsertAt(a, i, before);
      SortStep(orig, pre, a[..], i, before);
      i := i + 1;
    }
    assert orig[..a.Length] == orig;
  }

  /** `s` back to front. */
  function Reversed<T>(s: seq<T>): (r: seq<T>)
    ensures |r| == |s|
    ensures forall i :: 0 <= i < |s| ==> r[i] == s[|s| - 1 - i]
  {
    if s == [] then [] else Reversed(s[1..]) + [s[0]]
  }

  /** `a.reverse()` in place: swaps the ends inwards. */
  method ReverseInPlace<T>(a: array<T>)
    modifies a
    ensures a[..] == Reversed(old(a[..]))
  {
    var i, j := 0, a.Length - 1;
    while i < j
      invariant 0 <= i <= a.Length && j == a.Length - 1 - i
      invariant forall k :: 0 <= k < i ==> a[k] == old(a[a.Length - 1 - k]) && a[a.Length - 1 - k] == old(a[k])
      invariant forall k :: i <= k < a.Length - i ==> a[k] == old(a[k])
    {
      a[i], a[j] := a[j], a[i];
      i, j := i + 1, j - 1;
    }
  }
}
