/** Natural merge sort on sequences: what list_sort (src/lib/kernel/list.c) computes, and why the
    result is sorted, stable and reached. */
module Merging {
  import opened Sequences

  /** LESS is a strict weak order on the elements of S. */
  ghost predicate StrictWeak<T>(less: (T, T) -> bool, s: seq<T>) {
    && (forall x, y :: x in s && y in s && less(x, y) ==> !less(y, x))
    && (forall x, y, z :: x in s && y in s && z in s && less(x, y) ==> less(x, z) || less(z, y))
  }

  ghost predicate Sorted<T>(less: (T, T) -> bool, s: seq<T>) {
    forall i, j :: 0 <= i < j < |s| ==> !less(s[j], s[i])
  }

  /** X is somewhere before Y in S. */
  ghost predicate Comes<T>(s: seq<T>, x: T, y: T) {
    exists i, j :: 0 <= i < j < |s| && s[i] == x && s[j] == y
  }

  /** R is S rearranged without putting any element before one it is not less than. */
  ghost predicate Stable<T>(less: (T, T) -> bool, s: seq<T>, r: seq<T>) {
    && multiset(r) == multiset(s)
    && (forall x, y :: x in s && y in s && Comes(s, x, y) && !less(y, x) ==> Comes(r, x, y))
  }

  // ----- runs ---------------------------------------------------------------------------------------

  /** The number of places where an element is less than the one before it. */
  function Descents<T>(less: (T, T) -> bool, s: seq<T>): nat {
    if |s| <= 1 then 0 else Descents(less, s[..|s| - 1]) + if less(s[|s| - 1], s[|s| - 2]) then 1 else 0
  }

  /** The number of maximal nondecreasing runs. */
  function Runs<T>(less: (T, T) -> bool, s: seq<T>): nat {
    if s == [] then 0 else Descents(less, s) + 1
  }

  /** N is where the run at the start of S ends. */
  ghost predicate IsRunEnd<T>(less: (T, T) -> bool, s: seq<T>, n: nat) {
    && 0 < n <= |s|
    && (forall i :: 0 < i < n ==> !less(s[i], s[i - 1]))
    && (n < |s| ==> less(s[n], s[n - 1]))
  }

  /** The end of the run at the start of S. */
  function RunEnd<T>(less: (T, T) -> bool, s: seq<T>): (n: nat)
    requires s != []
    ensures IsRunEnd(less, s, n)
  {
    if |s| == 1 then 1
    else if less(s[1], s[0]) then 1
    else
      assert forall i :: 1 < i < |s| ==> s[i] == s[1..][i - 1];
      1 + RunEnd(less, s[1..])
  }

  lemma RunEndUnique<T>(less: (T, T) -> bool, s: seq<T>, m: nat)
    requires IsRunEnd(less, s, m)
    ensures m == RunEnd(less, s)
  {
  }

  lemma {:induction false} DescentsConcat<T>(less: (T, T) -> bool, s: seq<T>, t: seq<T>)
    ensures s == [] || t == [] ==> Descents(less, s + t) == Descents(less, s) + Descents(less, t)
    ensures s != [] && t != [] ==>
      Descents(less, s + t) == Descents(less, s) + (if less(t[0], s[|s| - 1]) then 1 else 0) + Descents(less, t)
  {
    if s == [] {
      assert s + t == t;
    } else if t == [] {
      assert s + t == s;
    } else if |t| == 1 {
      assert (s + t)[..|s|] == s;
    } else {
      var init := t[..|t| - 1];
      DescentsConcat(less, s, init);
      assert (s + t)[..|s + t| - 1] == s + init;
    }
  }

  lemma {:induction false} NoDescents<T>(less: (T, T) -> bool, s: seq<T>)
    ensures Descents(less, s) == 0 <==> forall i :: 0 < i < |s| ==> !less(s[i], s[i - 1])
  {
    if |s| > 1 {
      var init := s[..|s| - 1];
      NoDescents(less, init);
    }
  }

  /** Taking the first run off leaves one run less. */
  lemma RunsAfter<T>(less: (T, T) -> bool, s: seq<T>)
    requires s != []
    ensures Runs(less, s) == 1 + Runs(less, s[RunEnd(less, s)..])
  {
    var n := RunEnd(less, s);
    NoDescents(less, s[..n]);
    DescentsConcat(less, s[..n], s[n..]);
    assert s == s[..n] + s[n..];
  }

  lemma {:induction false} AdjacentUpTo<T>(less: (T, T) -> bool, s: seq<T>, i: nat, j: nat)
    requires StrictWeak(less, s) && i < j < |s| && forall k :: 0 < k < |s| ==> !less(s[k], s[k - 1])
    ensures !less(s[j], s[i])
  {
    if i < j - 1 {
      AdjacentUpTo(less, s, i, j - 1);
      assert s[i] in s && s[j] in s && s[j - 1] in s;
    }
  }

  /** A sequence without descents is sorted. */
  lemma AdjacentSorted<T>(less: (T, T) -> bool, s: seq<T>)
    requires StrictWeak(less, s) && forall k :: 0 < k < |s| ==> !less(s[k], s[k - 1])
    ensures Sorted(less, s)
  {
    forall i, j | 0 <= i < j < |s|
      ensures !less(s[j], s[i])
    {
      AdjacentUpTo(less, s, i, j);
    }
  }

  // ----- merging two runs ------------------------------------------------------------------------------

  /** The loop of inplace_merge: from B only what is less than the front of A. */
  function Merge<T>(less: (T, T) -> bool, a: seq<T>, b: seq<T>): (r: seq<T>)
    ensures multiset(r) == multiset(a) + multiset(b)
    ensures forall x :: x in r ==> x in a || x in b
    decreases |a| + |b|
  {
    if a == [] then b
    else if b == [] then a
    else if !less(b[0], a[0]) then
      assert a == [a[0]] + a[1..];
      [a[0]] + Merge(less, a[1..], b)
    else
      assert b == [b[0]] + b[1..];
      [b[0]] + Merge(less, a, b[1..])
  }

  /** One more element at the front of a sorted sequence. */
  lemma SortedCons<T>(less: (T, T) -> bool, x: T, s: seq<T>)
    requires Sorted(less, s) && forall y :: y in s ==> !less(y, x)
    ensures Sorted(less, [x] + s)
  {
    forall i, j | 0 <= i < j < |[x] + s|
      ensures !less(([x] + s)[j], ([x] + s)[i])
    {
      assert ([x] + s)[j] == s[j - 1];
      assert i > 0 ==> ([x] + s)[i] == s[i - 1];
    }
  }

  lemma SortedTail<T>(less: (T, T) -> bool, s: seq<T>)
    requires Sorted(less, s) && s != []
    ensures Sorted(less, s[1..]) && forall y :: y in s[1..] ==> !less(y, s[0])
  {
  }

  lemma {:induction false} MergeSorted<T>(less: (T, T) -> bool, a: seq<T>, b: seq<T>)
    requires StrictWeak(less, a + b) && Sorted(less, a) && Sorted(less, b)
    ensures Sorted(less, Merge(less, a, b))
    decreases |a| + |b|
  {
    if a != [] && b != [] {
      MemberSum(a, b);
      if !less(b[0], a[0]) {
        SortedTail(less, a);
        SubWeak(less, a + b, a[1..] + b);
        MergeSorted(less, a[1..], b);
        forall y | y in b
          ensures !less(y, a[0])
        {
          NotLessTrans(less, a + b, y, b[0], a[0]);
        }
        SortedCons(less, a[0], Merge(less, a[1..], b));
      } else {
        SortedTail(less, b);
        SubWeak(less, a + b, a + b[1..]);
        MergeSorted(less, a, b[1..]);
        forall y | y in a
          ensures !less(y, b[0])
        {
          Asymmetric(less, a + b, b[0], y);
        }
        SortedCons(less, b[0], Merge(less, a, b[1..]));
      }
    }
  }

  lemma MemberSum<T>(a: seq<T>, b: seq<T>)
    ensures forall x :: x in a + b <==> x in a || x in b
  {
  }

  lemma SubWeak<T>(less: (T, T) -> bool, s: seq<T>, t: seq<T>)
    requires StrictWeak(less, s) && forall x :: x in t ==> x in s
    ensures StrictWeak(less, t)
  {
  }

  lemma NotLessTrans<T>(less: (T, T) -> bool, s: seq<T>, x: T, y: T, z: T)
    requires StrictWeak(less, s) && x in s && y in s && z in s && (x == y || !less(x, y)) && !less(y, z)
    ensures !less(x, z)
  {
  }

  lemma Asymmetric<T>(less: (T, T) -> bool, s: seq<T>, x: T, y: T)
    requires StrictWeak(less, s) && x in s && y in s
    ensures !(less(x, y) && less(y, x))
  {
  }

  lemma ComesCons<T>(x: T, s: seq<T>, u: T, v: T)
    ensures Comes([x] + s, u, v) <==> (u == x && v in s) || Comes(s, u, v)
  {
    var t := [x] + s;
    assert forall i :: 0 <= i < |s| ==> t[i + 1] == s[i];
    if Comes(t, u, v) {
      var i, j :| 0 <= i < j < |t| && t[i] == u && t[j] == v;
      assert s[j - 1] == v;
      assert i > 0 ==> s[i - 1] == u;
    }
    if u == x && v in s {
      var j :| 0 <= j < |s| && s[j] == v;
      assert t[0] == u && t[j + 1] == v;
    }
    if Comes(s, u, v) {
      var i, j :| 0 <= i < j < |s| && s[i] == u && s[j] == v;
      assert t[i + 1] == u && t[j + 1] == v;
    }
  }

  lemma {:induction false} ComesSum<T>(a: seq<T>, b: seq<T>, u: T, v: T)
    ensures Comes(a + b, u, v) <==> Comes(a, u, v) || Comes(b, u, v) || (u in a && v in b)
  {
    if a == [] {
      assert a + b == b;
    } else {
      ComesCons(a[0], a[1..], u, v);
      ComesCons(a[0], a[1..] + b, u, v);
      ComesSum(a[1..], b, u, v);
      assert a == [a[0]] + a[1..] && a + b == [a[0]] + (a[1..] + b);
    }
  }

  lemma SameMembers<T>(r: seq<T>, s: seq<T>, x: T)
    requires multiset(r) == multiset(s)
    ensures x in r <==> x in s
  {
    assert x in multiset(r) <==> x in r;
    assert x in multiset(s) <==> x in s;
  }

  lemma MergeMember<T>(less: (T, T) -> bool, a: seq<T>, b: seq<T>, x: T)
    ensures x in Merge(less, a, b) <==> x in a || x in b
  {
    assert multiset(a + b) == multiset(a) + multiset(b);
    SameMembers(Merge(less, a, b), a + b, x);
  }

  /** Merging keeps the order of U and V unless V is less. */
  lemma {:induction false} MergeOrder<T>(less: (T, T) -> bool, a: seq<T>, b: seq<T>, u: T, v: T)
    requires StrictWeak(less, a + b) && Sorted(less, a) && Sorted(less, b)
    requires Comes(a + b, u, v) && !less(v, u)
    ensures Comes(Merge(less, a, b), u, v)
    decreases |a| + |b|
  {
    hide Sorted, StrictWeak, Comes;
    if a == [] {
      assert a + b == b;
    } else if b == [] {
      assert a + b == a;
    } else if !less(b[0], a[0]) {
      assert a + b == [a[0]] + (a[1..] + b);
      ComesCons(a[0], a[1..] + b, u, v);
      ComesCons(a[0], Merge(less, a[1..], b), u, v);
      if Comes(a[1..] + b, u, v) {
        SortedTail(less, a);
        SubWeak(less, a + b, a[1..] + b);
        MergeOrder(less, a[1..], b, u, v);
      } else {
        MergeMember(less, a[1..], b, v);
      }
    } else {
      MergeTaken(less, a, b, u, v);
      ComesCons(b[0], Merge(less, a, b[1..]), u, v);
      if Comes(a + b[1..], u, v) {
        SortedTail(less, b);
        MemberSum(a, b);
        SubWeak(less, a + b, a + b[1..]);
        MergeOrder(less, a, b[1..], u, v);
      } else {
        MergeMember(less, a, b[1..], v);
      }
    }
  }

  /** Once the front of B is less than the front of A, it is less than all of A. */
  lemma MergeTaken<T>(less: (T, T) -> bool, a: seq<T>, b: seq<T>, u: T, v: T)
    requires StrictWeak(less, a + b) && Sorted(less, a) && a != [] && b != [] && less(b[0], a[0])
    requires Comes(a + b, u, v) && !less(v, u)
    ensures (u == b[0] && v in b[1..]) || Comes(a + b[1..], u, v)
  {
    ComesSum(a, b, u, v);
    ComesSum(a, b[1..], u, v);
    assert b == [b[0]] + b[1..];
    ComesCons(b[0], b[1..], u, v);
    MemberSum(a, b);
  }

  /** Merging two sorted runs is stable. */
  lemma MergeStable<T>(less: (T, T) -> bool, a: seq<T>, b: seq<T>)
    requires StrictWeak(less, a + b) && Sorted(less, a) && Sorted(less, b)
    ensures Stable(less, a + b, Merge(less, a, b))
  {
    hide Sorted, StrictWeak, Comes, Merge;
    forall u, v | u in a + b && v in a + b && Comes(a + b, u, v) && !less(v, u)
      ensures Comes(Merge(less, a, b), u, v)
    {
      MergeOrder(less, a, b, u, v);
    }
  }

  // ----- a pass over the list ----------------------------------------------------------------------------

  /** One pass of list_sort: each two adjacent runs are merged. */
  function Pass<T>(less: (T, T) -> bool, s: seq<T>): (r: seq<T>) {
    if s == [] then []
    else
      var i := RunEnd(less, s);
      if i == |s| then s
      else
        var j := i + RunEnd(less, s[i..]);
        Merge(less, s[..i], s[i..j]) + Pass(less, s[j..])
  }

  /** output_run_cnt at the end of the pass. */
  function PassCount<T>(less: (T, T) -> bool, s: seq<T>): nat {
    if s == [] then 0
    else
      var i := RunEnd(less, s);
      if i == |s| then 1
      else
        var j := i + RunEnd(less, s[i..]);
        1 + PassCount(less, s[j..])
  }

  lemma {:induction false} CountHalves<T>(less: (T, T) -> bool, s: seq<T>)
    ensures PassCount(less, s) == (Runs(less, s) + 1) / 2
    decreases |s|
  {
    hide RunEnd, IsRunEnd, Descents, Runs, PassCount;
    NoRuns(less, s);
    if s == [] {
      CountNone(less, s);
    } else {
      RunsAfter(less, s);
      var i := RunEnd(less, s);
      CountStep(less, s, i);
      if i < |s| {
        RunsAfter(less, s[i..]);
        var j := i + RunEnd(less, s[i..]);
        assert s[i..][j - i..] == s[j..];
        CountHalves(less, s[j..]);
        assert Runs(less, s) == 2 + Runs(less, s[j..]);
      } else {
        NoRuns(less, s[i..]);
      }
    }
  }

  lemma CountNone<T>(less: (T, T) -> bool, s: seq<T>)
    requires s == []
    ensures PassCount(less, s) == 0
  {
  }

  lemma RunBounds<T>(less: (T, T) -> bool, s: seq<T>)
    requires s != []
    ensures 0 < RunEnd(less, s) <= |s|
  {
    hide RunEnd;
  }

  lemma CountStep<T>(less: (T, T) -> bool, s: seq<T>, i: nat)
    requires s != [] && i == RunEnd(less, s)
    ensures 0 < i <= |s| && (i < |s| ==> 0 < RunEnd(less, s[i..]) <= |s| - i)
    ensures PassCount(less, s) == if i == |s| then 1 else 1 + PassCount(less, s[i + RunEnd(less, s[i..])..])
  {
    hide RunEnd, IsRunEnd;
    RunBounds(less, s);
    if i < |s| {
      RunBounds(less, s[i..]);
    }
  }

  lemma NoRuns<T>(less: (T, T) -> bool, s: seq<T>)
    ensures s == [] <==> Runs(less, s) == 0
  {
  }

  /** The run that starts at I is sorted. */
  lemma RunSorted<T>(less: (T, T) -> bool, s: seq<T>, n: nat)
    requires StrictWeak(less, s) && IsRunEnd(less, s, n)
    ensures Sorted(less, s[..n])
  {
    SubWeak(less, s, s[..n]);
    AdjacentSorted(less, s[..n]);
  }

  lemma SortedNoDescents<T>(less: (T, T) -> bool, s: seq<T>)
    requires Sorted(less, s)
    ensures Descents(less, s) == 0
  {
    NoDescents(less, s);
  }

  /** The two runs at the start of S, and what merging them gives. */
  lemma FirstTwo<T>(less: (T, T) -> bool, s: seq<T>, i: nat, j: nat)
    requires StrictWeak(less, s) && s != [] && i == RunEnd(less, s) < |s| && j == i + RunEnd(less, s[i..])
    ensures i < j <= |s|
    ensures Sorted(less, s[..i]) && Sorted(less, s[i..j]) && Sorted(less, Merge(less, s[..i], s[i..j]))
    ensures Stable(less, s[..j], Merge(less, s[..i], s[i..j]))
  {
    hide StrictWeak, Sorted, Stable, Merge, RunEnd;
    RunSorted(less, s, i);
    SubWeak(less, s, s[i..]);
    RunSorted(less, s[i..], j - i);
    assert s[i..][..j - i] == s[i..j];
    assert s[..j] == s[..i] + s[i..j];
    SubWeak(less, s, s[..j]);
    MergeSorted(less, s[..i], s[i..j]);
    MergeStable(less, s[..i], s[i..j]);
  }

  /** A pass leaves at most one run per output run. */
  lemma {:induction false} PassRuns<T>(less: (T, T) -> bool, s: seq<T>)
    requires StrictWeak(less, s)
    ensures Runs(less, Pass(less, s)) <= PassCount(less, s)
  {
    hide StrictWeak, Sorted, Stable, Merge, RunEnd, Descents;
    if s != [] {
      var i := RunEnd(less, s);
      if i == |s| {
        NoDescents(less, s);
      } else {
        var j := i + RunEnd(less, s[i..]);
        FirstTwo(less, s, i, j);
        SubWeak(less, s, s[j..]);
        PassRuns(less, s[j..]);
        var m := Merge(less, s[..i], s[i..j]);
        SortedNoDescents(less, m);
        DescentsConcat(less, m, Pass(less, s[j..]));
        assert m + [] == m;
      }
    }
  }

  // ----- stability composes ---------------------------------------------------------------------------------

  lemma StableRefl<T>(less: (T, T) -> bool, s: seq<T>)
    ensures Stable(less, s, s)
  {
  }

  lemma StableTrans<T>(less: (T, T) -> bool, s: seq<T>, r: seq<T>, t: seq<T>)
    requires Stable(less, s, r) && Stable(less, r, t)
    ensures Stable(less, s, t)
  {
    hide Comes;
    forall x, y | x in s && y in s && Comes(s, x, y) && !less(y, x)
      ensures Comes(t, x, y)
    {
      SameMembers(r, s, x);
      SameMembers(r, s, y);
    }
  }

  lemma StableConcat<T>(less: (T, T) -> bool, a: seq<T>, r: seq<T>, b: seq<T>, q: seq<T>)
    requires Stable(less, a, r) && Stable(less, b, q)
    ensures Stable(less, a + b, r + q)
  {
    hide Comes;
    forall x, y | x in a + b && y in a + b && Comes(a + b, x, y) && !less(y, x)
      ensures Comes(r + q, x, y)
    {
      ComesSum(a, b, x, y);
      ComesSum(r, q, x, y);
      ComesIn(a, x, y);
      ComesIn(b, x, y);
      SameMembers(r, a, x);
      SameMembers(q, b, y);
    }
  }

  lemma ComesIn<T>(s: seq<T>, x: T, y: T)
    ensures Comes(s, x, y) ==> x in s && y in s
  {
  }

  lemma {:induction false} PassStable<T>(less: (T, T) -> bool, s: seq<T>)
    requires StrictWeak(less, s)
    ensures Stable(less, s, Pass(less, s))
  {
    hide StrictWeak, Sorted, Stable, Merge, RunEnd;
    if s == [] || RunEnd(less, s) == |s| {
      StableRefl(less, s);
    } else {
      var i := RunEnd(less, s);
      var j := i + RunEnd(less, s[i..]);
      FirstTwo(less, s, i, j);
      SubWeak(less, s, s[j..]);
      PassStable(less, s[j..]);
      StableConcat(less, s[..j], Merge(less, s[..i], s[i..j]), s[j..], Pass(less, s[j..]));
      assert s == s[..j] + s[j..];
    }
  }

  /** When a pass writes a single run, the list is sorted. */
  lemma PassSorted<T>(less: (T, T) -> bool, s: seq<T>)
    requires StrictWeak(less, s) && PassCount(less, s) <= 1
    ensures Sorted(less, Pass(less, s))
  {
    hide Pass, PassCount, Descents, Comes;
    PassRuns(less, s);
    PassStable(less, s);
    NoDescents(less, Pass(less, s));
    forall x | x in Pass(less, s)
      ensures x in s
    {
      SameMembers(Pass(less, s), s, x);
    }
    SubWeak(less, s, Pass(less, s));
    AdjacentSorted(less, Pass(less, s));
  }

  // ----- the whole sort ------------------------------------------------------------------------------------

  /** A stable, sorted rearrangement of distinct elements is unique: X comes before Y exactly if it is
      less, or not greater and before Y already. */
  lemma StableSortUnique<T>(less: (T, T) -> bool, s: seq<T>, r: seq<T>, x: T, y: T)
    requires StrictWeak(less, s) && Distinct(s) && Stable(less, s, r) && Sorted(less, r) && Distinct(r)
    requires x in s && y in s && x != y
    ensures Comes(r, x, y) <==> less(x, y) || (!less(y, x) && Comes(s, x, y))
  {
    SameMembers(r, s, x);
    SameMembers(r, s, y);
    OneOrder(s, x, y);
    OneOrder(r, x, y);
    ComesSorted(less, r, x, y);
    ComesSorted(less, r, y, x);
    Asymmetric(less, s, x, y);
  }

  lemma OneOrder<T>(s: seq<T>, x: T, y: T)
    requires Distinct(s) && x in s && y in s && x != y
    ensures Comes(s, x, y) <==> !Comes(s, y, x)
  {
    var i :| 0 <= i < |s| && s[i] == x;
    var j :| 0 <= j < |s| && s[j] == y;
    assert i < j ==> Comes(s, x, y);
    assert j < i ==> Comes(s, y, x);
  }

  lemma ComesSorted<T>(less: (T, T) -> bool, r: seq<T>, x: T, y: T)
    requires Sorted(less, r)
    ensures Comes(r, x, y) ==> !less(y, x)
  {
  }
}
