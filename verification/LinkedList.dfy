/** Doubly linked lists with a head and a tail sentinel (src/lib/kernel/list.c). */
module LinkedLists {
  import opened Merging
  import opened Sequences
  import Bitmaps
  import Division

  /** `struct list_elem`. */
  class Elem {
    var prev: Elem?
    var next: Elem?
  }

  /** An order on elements; it looks at what they are embedded in, never at the links. */
  type Order = (Elem, Elem) -> bool

  ghost predicate Link(a: Elem, b: Elem)
    reads a, b
  {
    a.next == b && b.prev == a
  }

  ghost predicate Chained(s: seq<Elem>)
    reads s
  {
    forall i :: 0 <= i < |s| - 1 ==> Link(s[i], s[i + 1])
  }

  /** S, from the head to the tail, is a list. */
  ghost predicate Linked(s: seq<Elem>)
    reads s
  {
    && |s| >= 2 && Distinct(s) && Chained(s)
    && s[0].prev == null && s[|s| - 1].next == null
  }

  /** The elements between head and tail. */
  ghost function Inner(s: seq<Elem>): seq<Elem>
    requires |s| >= 2
  {
    s[1..|s| - 1]
  }

  lemma ChainedConcat(a: seq<Elem>, b: seq<Elem>)
    requires Chained(a) && Chained(b) && (a != [] && b != [] ==> Link(a[|a| - 1], b[0]))
    ensures Chained(a + b)
  {
    forall i | 0 <= i < |a + b| - 1
      ensures Link((a + b)[i], (a + b)[i + 1])
    {
      if i < |a| - 1 {
        assert Link(a[i], a[i + 1]);
      } else if i >= |a| {
        assert Link(b[i - |a|], b[i - |a| + 1]);
      }
    }
  }

  /** S with the adjacent blocks S[p..q] and S[q..r] exchanged. */
  ghost function Swapped(s: seq<Elem>, p: nat, q: nat, r: nat): seq<Elem>
    requires p <= q <= r <= |s|
  {
    s[..p] + s[q..r] + s[p..q] + s[r..]
  }

  lemma SwappedDistinct(s: seq<Elem>, p: nat, q: nat, r: nat)
    requires Distinct(s) && p <= q <= r <= |s|
    ensures Distinct(Swapped(s, p, q, r)) && multiset(Swapped(s, p, q, r)) == multiset(s)
  {
    assert s == s[..p] + s[p..q] + s[q..r] + s[r..];
    var t := Swapped(s, p, q, r);
    forall i, j | 0 <= i < j < |t|
      ensures t[i] != t[j]
    {
      assert t[i] == s[Origin(i, p, q, r)] && t[j] == s[Origin(j, p, q, r)];
    }
  }

  function Origin(i: nat, p: nat, q: nat, r: nat): nat
    requires p <= q <= r
  {
    if i < p || r <= i then i else if i < p + (r - q) then i + (q - p) else i - (r - q)
  }

  /** The blocks are exchanged once the three seams are relinked. */
  lemma SwappedLinked(s: seq<Elem>, p: nat, q: nat, r: nat)
    requires Distinct(s) && 1 <= p < q < r < |s|
    requires Chained(s[..p]) && Chained(s[p..q]) && Chained(s[q..r]) && Chained(s[r..])
    requires Link(s[p - 1], s[q]) && Link(s[r - 1], s[p]) && Link(s[q - 1], s[r])
    requires s[0].prev == null && s[|s| - 1].next == null
    ensures Linked(Swapped(s, p, q, r))
  {
    hide Chained, Distinct;
    SwappedDistinct(s, p, q, r);
    ChainedConcat(s[..p], s[q..r]);
    ChainedConcat(s[..p] + s[q..r], s[p..q]);
    ChainedConcat(s[..p] + s[q..r] + s[p..q], s[r..]);
  }

  lemma ChainedPart(s: seq<Elem>, a: nat, b: nat)
    requires a <= b <= |s| && forall m :: a <= m < b - 1 ==> Link(s[m], s[m + 1])
    ensures Chained(s[a..b])
  {
  }

  /** S with S[j..k] taken out and put in front of position I. */
  ghost function Spliced(s: seq<Elem>, i: nat, j: nat, k: nat): seq<Elem>
    requires j <= k <= |s| && (i < j || k <= i <= |s| || j == k)
  {
    if j == k then s else if i < j then Swapped(s, i, j, k) else Swapped(s, j, k, i)
  }

  /** Every link of S outside the three seams of a splice is as it should be, and so are the seams. */
  ghost predicate Resewn(s: seq<Elem>, i: nat, j: nat, k: nat)
    requires 1 <= j < k < |s| && 1 <= i < |s|
    reads s
  {
    && s[0].prev == null && s[|s| - 1].next == null
    && (forall m :: 0 <= m < |s| - 1 && m != i - 1 && m != j - 1 && m != k - 1 ==> Link(s[m], s[m + 1]))
    && Link(s[k - 1], s[i])
    && (if i == k then Link(s[j - 1], s[j]) else Link(s[i - 1], s[j]) && Link(s[j - 1], s[k]))
  }

  /** The assignments of list_splice. */
  method Resew(before: Elem, first: Elem, last: Elem, ghost s: seq<Elem>, ghost i: nat, ghost j: nat, ghost k: nat)
    requires Linked(s) && 1 <= j < k < |s| && 1 <= i < |s| && (i < j || k <= i)
    requires before == s[i] && first == s[j] && last == s[k]
    modifies set e | e in s
    ensures Resewn(s, i, j, k)
  {
    assert Link(s[k - 1], s[k]) && Link(s[j - 1], s[j]) && Link(s[i - 1], s[i]);
    var end := last.prev;
    first.prev.next := end.next;
    end.next.prev := first.prev;
    first.prev := before.prev;
    end.next := before;
    before.prev.next := first;
    before.prev := end;
    forall m | 0 <= m < |s| - 1 && m != i - 1 && m != j - 1 && m != k - 1
      ensures Link(s[m], s[m + 1])
    {
      assert old(Link(s[m], s[m + 1]));
    }
  }

  lemma ResewnLinked(s: seq<Elem>, i: nat, j: nat, k: nat)
    requires Distinct(s) && 1 <= j < k < |s| && 1 <= i < |s| && (i < j || k <= i) && Resewn(s, i, j, k)
    ensures Linked(Spliced(s, i, j, k))
  {
    hide Distinct, Linked, Swapped, Chained;
    if k == i {
      SwappedNothing(s, j, k);
      ChainedPart(s, 0, |s|);
      assert s[0..|s|] == s;
      WholeLinked(s);
    } else {
      var p, q, r := if i < j then i else j, if i < j then j else k, if i < j then k else i;
      ChainedPart(s, 0, p);
      ChainedPart(s, p, q);
      ChainedPart(s, q, r);
      ChainedPart(s, r, |s|);
      assert s[..p] == s[0..p] && s[r..] == s[r..|s|];
      SwappedLinked(s, p, q, r);
    }
  }

  lemma WholeLinked(s: seq<Elem>)
    requires |s| >= 2 && Distinct(s) && Chained(s) && s[0].prev == null && s[|s| - 1].next == null
    ensures Linked(s)
  {
  }

  lemma SwappedNothing(s: seq<Elem>, j: nat, k: nat)
    requires j <= k <= |s|
    ensures Swapped(s, j, k, k) == s
  {
  }

  /** list_splice within one list. */
  method Splice(before: Elem, first: Elem, last: Elem, ghost s: seq<Elem>, ghost i: nat, ghost j: nat, ghost k: nat)
    requires Linked(s) && 1 <= j <= k < |s| && 1 <= i < |s| && (i < j || k <= i || j == k)
    requires before == s[i] && first == s[j] && last == s[k]
    modifies set e | e in s
    ensures Linked(Spliced(s, i, j, k))
  {
    hide Resewn, Swapped, Chained;
    if first != last {
      Resew(before, first, last, s, i, j, k);
      ResewnLinked(s, i, j, k);
    }
  }

  /** Two lists A and B with B[j..k] about to move in front of A[i], once the three seams are relinked. */
  lemma MovedLinked(a: seq<Elem>, i: nat, b: seq<Elem>, j: nat, k: nat)
    requires Distinct(a) && Distinct(b) && (forall x :: x in a ==> x !in b) && 1 <= i < |a| && 1 <= j < k < |b|
    requires Chained(a[..i]) && Chained(a[i..]) && Chained(b[..j]) && Chained(b[j..k]) && Chained(b[k..])
    requires Link(a[i - 1], b[j]) && Link(b[k - 1], a[i]) && Link(b[j - 1], b[k])
    requires a[0].prev == null && b[0].prev == null && a[|a| - 1].next == null && b[|b| - 1].next == null
    ensures Linked(a[..i] + b[j..k] + a[i..]) && Linked(b[..j] + b[k..])
  {
    hide Chained;
    ChainedConcat(a[..i], b[j..k]);
    ChainedConcat(a[..i] + b[j..k], a[i..]);
    ChainedConcat(b[..j], b[k..]);
    MovedDistinct(a, i, b, j, k);
  }

  lemma MovedDistinct(a: seq<Elem>, i: nat, b: seq<Elem>, j: nat, k: nat)
    requires Distinct(a) && Distinct(b) && (forall x :: x in a ==> x !in b) && i <= |a| && j <= k <= |b|
    ensures Distinct(a[..i] + b[j..k] + a[i..]) && Distinct(b[..j] + b[k..])
  {
    var t := a[..i] + b[j..k] + a[i..];
    forall m | 0 <= m < |t|
      ensures t[m] == if m < i then a[m] else if m < i + (k - j) then b[m - i + j] else a[m - (k - j)]
      ensures t[m] in b <==> i <= m < i + (k - j)
    {
    }
  }

  /** list_splice from another list. */
  method SpliceFrom(before: Elem, first: Elem, last: Elem, ghost a: seq<Elem>, ghost i: nat, ghost b: seq<Elem>, ghost j: nat, ghost k: nat)
    requires Linked(a) && Linked(b) && (forall x :: x in a ==> x !in b) && 1 <= i < |a| && 1 <= j <= k < |b|
    requires before == a[i] && first == b[j] && last == b[k]
    modifies set e | e in a, set e | e in b
    ensures Linked(a[..i] + b[j..k] + a[i..]) && Linked(b[..j] + b[k..])
  {
    if first == last {
      assert a[..i] + b[j..k] + a[i..] == a && b[..j] + b[k..] == b;
      return;
    }
    assert Link(b[k - 1], b[k]) && Link(b[j - 1], b[j]) && Link(a[i - 1], a[i]);
    var end := last.prev;
    first.prev.next := end.next;
    end.next.prev := first.prev;
    first.prev := before.prev;
    end.next := before;
    before.prev.next := first;
    before.prev := end;
    forall m | 0 <= m < |a| - 1 && m != i - 1
      ensures Link(a[m], a[m + 1])
    {
      assert old(Link(a[m], a[m + 1]));
    }
    forall m | 0 <= m < |b| - 1 && m != j - 1 && m != k - 1
      ensures Link(b[m], b[m + 1])
    {
      assert old(Link(b[m], b[m + 1]));
    }
    MovedLinked(a, i, b, j, k);
  }

  /** find_end_of_run. */
  method FindEndOfRun(a: Elem, b: Elem, less: Order, ghost s: seq<Elem>, ghost i: nat, ghost n: nat)
    returns (e: Elem, ghost j: nat)
    requires Linked(s) && 1 <= i < n < |s| && a == s[i] && b == s[n]
    ensures i < j <= n && j - i == RunEnd(less, s[i..n]) && 0 < RunEnd(less, s[i..n]) <= n - i
    ensures e == s[j] == s[i + RunEnd(less, s[i..n])]
  {
    assert Link(s[i], s[i + 1]);
    e, j := a.next, i + 1;
    while e != b && !less(e, e.prev)
      invariant i < j <= n && e == s[j] && e.prev == s[j - 1]
      invariant forall m :: i < m < j ==> !less(s[m], s[m - 1])
      decreases n - j
    {
      assert Link(s[j], s[j + 1]);
      e, j := e.next, j + 1;
    }
    RunEndUnique(less, s[i..n], j - i);
  }

  /** inplace_merge. */
  method InplaceMerge(a: Elem, b: Elem, end: Elem, less: Order, ghost s: seq<Elem>, ghost i: nat, ghost j: nat, ghost k: nat)
    returns (ghost r: seq<Elem>)
    requires Linked(s) && 1 <= i <= j <= k < |s| && a == s[i] && b == s[j] && end == s[k]
    modifies set e | e in s
    ensures Linked(r) && r == s[..i] + Merge(less, s[i..j], s[j..k]) + s[k..]
  {
    hide Distinct, Chained, Swapped, Merge;
    var a0, a1b0 := a, b;
    ghost var p, q := i, j;
    r := s;
    while a0 != a1b0 && a1b0 != end
      invariant Linked(r) && |r| == |s| && Within(r, s) && 1 <= p <= q <= k < |r|
      invariant a0 == r[p] && a1b0 == r[q] && end == r[k]
      invariant r[k..] == s[k..]
      invariant r[..p] + Merge(less, r[p..q], r[q..k]) == s[..i] + Merge(less, s[i..j], s[j..k])
      decreases k - p
    {
      Linking(r, p);
      Linking(r, q);
      Apart(r, p, q, k);
      if !less(a1b0, a0) {
        MergeLeft(less, r, p, q, k);
        a0, p := a0.next, p + 1;
      } else {
        MergeRight(less, r, p, q, k);
        SwappedOne(r, p, q, k);
        SwappedWithin(r, p, q, q + 1);
        a1b0 := a1b0.next;
        Splice(a0, a1b0.prev, a1b0, r, p, q, q + 1);
        r := Swapped(r, p, q, q + 1);
        p, q := p + 1, q + 1;
      }
    }
    Apart(r, p, q, k);
    MergeDone(less, r, p, q, k);
  }

  /** All elements of R are in S. */
  ghost predicate Within(r: seq<Elem>, s: seq<Elem>) {
    forall e :: e in r ==> e in s
  }

  lemma SwappedWithin(s: seq<Elem>, p: nat, q: nat, r: nat)
    requires p <= q <= r <= |s|
    ensures Within(Swapped(s, p, q, r), s)
  {
  }

  lemma Linking(s: seq<Elem>, i: nat)
    requires Linked(s) && i < |s| - 1
    ensures Link(s[i], s[i + 1])
  {
  }

  lemma Apart(s: seq<Elem>, p: nat, q: nat, k: nat)
    requires Linked(s) && p <= q <= k < |s|
    ensures (s[p] == s[q] <==> p == q) && (s[q] == s[k] <==> q == k)
  {
  }

  lemma MergeLeft(less: Order, r: seq<Elem>, p: nat, q: nat, k: nat)
    requires p < q < k <= |r| && !less(r[q], r[p])
    ensures r[..p] + Merge(less, r[p..q], r[q..k]) == r[..p + 1] + Merge(less, r[p + 1..q], r[q..k])
  {
    hide Merge;
    MergeKeeps(less, r[p..q], r[q..k]);
    assert r[p..q][1..] == r[p + 1..q];
    assert r[..p] + ([r[p]] + Merge(less, r[p + 1..q], r[q..k])) == r[..p + 1] + Merge(less, r[p + 1..q], r[q..k]);
  }

  lemma MergeKeeps(less: Order, a: seq<Elem>, b: seq<Elem>)
    requires a != [] && b != [] && !less(b[0], a[0])
    ensures Merge(less, a, b) == [a[0]] + Merge(less, a[1..], b)
  {
  }

  lemma SwappedOne(r: seq<Elem>, p: nat, q: nat, k: nat)
    requires p < q < k <= |r|
    ensures var w := Swapped(r, p, q, q + 1);
      && |w| == |r| && w[p + 1] == r[p] && w[k..] == r[k..] && (q + 1 < |r| ==> w[q + 1] == r[q + 1])
      && w[..p + 1] == r[..p] + [r[q]] && w[p + 1..q + 1] == r[p..q] && w[q + 1..k] == r[q + 1..k]
  {
  }

  lemma MergeRight(less: Order, r: seq<Elem>, p: nat, q: nat, k: nat)
    requires p < q < k <= |r| && less(r[q], r[p])
    ensures |Swapped(r, p, q, q + 1)| == |r|
    ensures var w := Swapped(r, p, q, q + 1);
      r[..p] + Merge(less, r[p..q], r[q..k]) == w[..p + 1] + Merge(less, w[p + 1..q + 1], w[q + 1..k])
  {
    hide Swapped, Merge;
    SwappedOne(r, p, q, k);
    MergeTakes(less, r[p..q], r[q..k]);
    assert r[q..k][1..] == r[q + 1..k];
    assert r[..p] + ([r[q]] + Merge(less, r[p..q], r[q + 1..k])) == r[..p] + [r[q]] + Merge(less, r[p..q], r[q + 1..k]);
  }

  lemma MergeTakes(less: Order, a: seq<Elem>, b: seq<Elem>)
    requires a != [] && b != [] && less(b[0], a[0])
    ensures Merge(less, a, b) == [b[0]] + Merge(less, a, b[1..])
  {
  }

  lemma MergeDone(less: Order, r: seq<Elem>, p: nat, q: nat, k: nat)
    requires p <= q <= k <= |r| && (p == q || q == k)
    ensures r == r[..p] + Merge(less, r[p..q], r[q..k]) + r[k..]
  {
    assert r == r[..p] + r[p..q] + r[q..k] + r[k..];
  }

  /** The first two runs of R[p..n] end at J and K. */
  lemma PassAt(less: Order, r: seq<Elem>, p: nat, j: nat, k: nat, n: nat)
    requires p < j < k <= n <= |r| && j - p == RunEnd(less, r[p..n]) && k - j == RunEnd(less, r[j..n])
    ensures Pass(less, r[p..n]) == Merge(less, r[p..j], r[j..k]) + Pass(less, r[k..n])
    ensures PassCount(less, r[p..n]) == 1 + PassCount(less, r[k..n])
  {
    hide Merge, RunEnd, IsRunEnd, Pass, PassCount;
    var s, i := r[p..n], j - p;
    PassTwo(less, s, i, k - p);
    Subslice(r, p, n, j, n);
    Subslice(r, p, n, p, j);
    Subslice(r, p, n, j, k);
    Subslice(r, p, n, k, n);
    assert s[i..] == s[i..n - p] && s[..i] == s[0..i] && s[k - p..] == s[k - p..n - p];
  }

  lemma PassTwo(less: Order, s: seq<Elem>, i: nat, j: nat)
    requires 0 < i < j <= |s| && i == RunEnd(less, s) && j - i == RunEnd(less, s[i..])
    ensures Pass(less, s) == Merge(less, s[..i], s[i..j]) + Pass(less, s[j..])
    ensures PassCount(less, s) == 1 + PassCount(less, s[j..])
  {
    hide Merge, RunEnd, IsRunEnd;
  }

  lemma Subslice(r: seq<Elem>, p: nat, n: nat, a: nat, b: nat)
    requires p <= a <= b <= n <= |r|
    ensures r[p..n][a - p..b - p] == r[a..b]
  {
    forall x | 0 <= x < b - a
      ensures r[p..n][a - p..b - p][x] == r[a..b][x]
    {
      assert r[p..n][a - p + x] == r[a + x];
    }
  }

  lemma PassLast(less: Order, s: seq<Elem>)
    requires s != [] && RunEnd(less, s) == |s|
    ensures Pass(less, s) == s && PassCount(less, s) == 1
  {
  }

  /** One pass of list_sort. */
  method MergePass(head: Elem, tail: Elem, less: Order, ghost s: seq<Elem>) returns (count: nat, ghost r: seq<Elem>)
    requires Linked(s) && head == s[0] && tail == s[|s| - 1]
    modifies set e | e in s
    ensures Linked(r) && |r| == |s| && Within(r, s) && r[0] == head && r[|r| - 1] == tail
    ensures Inner(r) == Pass(less, Inner(s)) && count == PassCount(less, Inner(s))
  {
    hide Distinct, Chained, Pass, PassCount, Merge, RunEnd, IsRunEnd;
    Linking(s, 0);
    var a0 := head.next;
    ghost var n, p := |s| - 1, 1;
    count, r := 0, s;
    Apart(r, p, p, n);
    assert Inner(s) == s[1..n];
    while a0 != tail
      invariant Linked(r) && |r| == |s| && Within(r, s) && 1 <= p <= n < |r| == n + 1
      invariant a0 == r[p] && r[0] == head && r[n] == tail && (a0 == tail <==> p == n)
      invariant r[1..p] + Pass(less, r[p..n]) == Pass(less, s[1..n])
      invariant count + PassCount(less, r[p..n]) == PassCount(less, s[1..n])
      decreases n - p
    {
      count := count + 1;
      ghost var j, k;
      var a1b0, b1;
      a1b0, j := FindEndOfRun(a0, tail, less, r, p, n);
      Apart(r, p, j, n);
      if a1b0 == tail {
        PassLast(less, r[p..n]);
        assert r[1..n] == r[1..p] + r[p..n];
        PassNone(less, r[n..n]);
        assert r[1..n] + [] == r[1..n];
        a0, p := tail, n;
        break;
      }
      b1, k := FindEndOfRun(a1b0, tail, less, r, j, n);
      PassAt(less, r, p, j, k, n);
      ghost var was := r;
      r := InplaceMerge(a0, a1b0, b1, less, r, p, j, k);
      MergeLength(less, was[p..j], was[j..k]);
      Replaced(was, r, Merge(less, was[p..j], was[j..k]), p, k, n, Pass(less, was[k..n]));
      MergedWithin(less, was, p, j, k);
      a0, p := b1, k;
      Apart(r, p, p, n);
    }
    PassNone(less, r[n..n]);
    assert r[1..n] + [] == r[1..n];
  }

  lemma PassNone(less: Order, s: seq<Elem>)
    requires s == []
    ensures Pass(less, s) == [] && PassCount(less, s) == 0
  {
  }

  /** Replacing S[p..k] by M does not move anything else. */
  lemma Replaced(s: seq<Elem>, r: seq<Elem>, m: seq<Elem>, p: nat, k: nat, n: nat, rest: seq<Elem>)
    requires 1 <= p <= k <= n < |s| && |m| == k - p && r == s[..p] + m + s[k..]
    ensures |r| == |s| && r[0] == s[0] && r[n] == s[n] && r[k] == s[k] && r[k..n] == s[k..n]
    ensures r[1..k] + rest == s[1..p] + (m + rest)
  {
  }

  lemma MergedWithin(less: Order, s: seq<Elem>, p: nat, j: nat, k: nat)
    requires p <= j <= k <= |s|
    ensures Within(s[..p] + Merge(less, s[p..j], s[j..k]) + s[k..], s)
  {
    hide Merge;
  }

  lemma MergeLength(less: Order, a: seq<Elem>, b: seq<Elem>)
    ensures |Merge(less, a, b)| == |a| + |b|
  {
    assert |multiset(Merge(less, a, b))| == |multiset(a) + multiset(b)|;
  }

  /** The assignments of list_insert. */
  method InsertBefore(before: Elem, elem: Elem, ghost s: seq<Elem>, ghost i: nat)
    requires Linked(s) && 1 <= i < |s| && before == s[i] && elem !in s
    modifies (set e | e in s) + {elem}
    ensures Linked(s[..i] + [elem] + s[i..])
  {
    assert Link(s[i - 1], s[i]);
    elem.prev := before.prev;
    elem.next := before;
    before.prev.next := elem;
    before.prev := elem;
    forall m | 0 <= m < |s| - 1 && m != i - 1
      ensures Link(s[m], s[m + 1])
    {
      assert old(Link(s[m], s[m + 1]));
    }
    ChainedPart(s, 0, i);
    ChainedPart(s, i, |s|);
    assert s[0..i] == s[..i] && s[i..|s|] == s[i..];
    ChainedConcat(s[..i], [elem]);
    ChainedConcat(s[..i] + [elem], s[i..]);
  }

  /** list_remove. */
  method Unlink(elem: Elem, ghost s: seq<Elem>, ghost i: nat) returns (next: Elem)
    requires Linked(s) && 1 <= i < |s| - 1 && elem == s[i]
    modifies set e | e in s
    ensures Linked(s[..i] + s[i + 1..]) && next == s[i + 1]
  {
    assert Link(s[i - 1], s[i]) && Link(s[i], s[i + 1]);
    elem.prev.next := elem.next;
    elem.next.prev := elem.prev;
    next := elem.next;
    forall m | 0 <= m < |s| - 1 && m != i - 1 && m != i
      ensures Link(s[m], s[m + 1])
    {
      assert old(Link(s[m], s[m + 1]));
    }
    ChainedPart(s, 0, i);
    ChainedPart(s, i + 1, |s|);
    assert s[0..i] == s[..i] && s[i + 1..|s|] == s[i + 1..];
    ChainedConcat(s[..i], s[i + 1..]);
  }

  /** S with the elements between its ends in reverse. */
  ghost function Turned(s: seq<Elem>): seq<Elem>
    requires |s| >= 2
  {
    [s[0]] + Reversed(Inner(s)) + [s[|s| - 1]]
  }

  /** Every inner element of S points the other way, and the ends are relinked. */
  ghost predicate TurnedLinks(s: seq<Elem>)
    requires |s| > 2
    reads s
  {
    var n := |s| - 1;
    && s[0].prev == null && s[n].next == null
    && Link(s[0], s[n - 1]) && Link(s[1], s[n])
    && (forall m :: 1 <= m < n - 1 ==> Link(s[m + 1], s[m]))
  }

  /** The assignments of list_reverse. */
  method TurnLinks(head: Elem, tail: Elem, ghost s: seq<Elem>)
    requires Linked(s) && |s| > 2 && head == s[0] && tail == s[|s| - 1]
    modifies set e | e in s
    ensures TurnedLinks(s)
  {
    ghost var n, p := |s| - 1, 1;
    Linking(s, 0);
    var e := head.next;
    while e != tail
      invariant 1 <= p <= n && e == s[p]
      invariant head.prev == null && head.next == s[1] && tail.next == null && tail.prev == s[n - 1]
      invariant forall m :: 1 <= m < p ==> s[m].prev == s[m + 1] && s[m].next == s[m - 1]
      invariant forall m :: p <= m < n ==> s[m].prev == s[m - 1] && s[m].next == s[m + 1]
      decreases n - p
    {
      e.prev, e.next := e.next, e.prev;
      e, p := e.prev, p + 1;
    }
    head.next, tail.prev := tail.prev, head.next;
    var back, front := head.next, tail.prev;
    if back == front {
      back.prev, back.next := back.next, back.prev;
    } else {
      back.prev, front.next := front.next, back.prev;
    }
  }

  lemma TurnedLinked(s: seq<Elem>)
    requires Distinct(s) && |s| > 2 && TurnedLinks(s)
    ensures Linked(Turned(s))
  {
    var r, n := Turned(s), |s| - 1;
    assert forall m :: 1 <= m < n ==> r[m] == s[n - m];
    forall m | 0 <= m < n
      ensures Link(r[m], r[m + 1])
    {
      if 1 <= m < n - 1 {
        assert Link(s[n - m - 1 + 1], s[n - m - 1]);
      }
    }
  }

  /** `struct list`; ELEMS are its elements in order. */
  class List {
    const head: Elem
    const tail: Elem
    ghost var elems: seq<Elem>

    ghost function Nodes(): seq<Elem>
      reads this
    {
      [head] + elems + [tail]
    }

    ghost predicate Valid()
      reads this, head, tail, elems
    {
      Linked(Nodes())
    }

    /** list_init. */
    constructor ()
      ensures Valid() && elems == [] && fresh(head) && fresh(tail)
    {
      var h, t := new Elem, new Elem;
      h.prev, h.next, t.prev, t.next := null, t, h, null;
      head, tail, elems := h, t, [];
    }

    /** list_insert_ordered: in front of the first element that ELEM is less than. */
    method InsertOrdered(elem: Elem, less: Order) returns (ghost i: nat)
      requires Valid() && elem !in Nodes()
      modifies this, head, tail, elems, elem
      ensures Valid() && InsertedAt(less, old(elems), elem, i) && elems == old(elems)[..i] + [elem] + old(elems)[i..]
    {
      hide Chained, Distinct;
      ghost var s := Nodes();
      i := 0;
      Linking(s, 0);
      var e := head.next;
      Apart(s, 0, i + 1, |s| - 1);
      while e != tail && !less(elem, e)
        invariant Valid() && elems == old(elems) && s == Nodes() && i <= |elems| && e == s[i + 1] && (e == tail <==> i == |elems|)
        invariant forall k :: 0 <= k < i ==> !less(elem, elems[k])
        decreases |elems| - i
      {
        Linking(s, i + 1);
        e, i := e.next, i + 1;
        Apart(s, 0, i + 1, |s| - 1);
      }
      assert InsertedAt(less, elems, elem, i) by {
        assert i < |elems| ==> e == elems[i];
      }
      InsertBefore(e, elem, s, i + 1);
      assert s[..i + 1] + [elem] + s[i + 1..] == [head] + (elems[..i] + [elem] + elems[i..]) + [tail];
      elems := elems[..i] + [elem] + elems[i..];
    }

    /** list_reverse. */
    method Reverse()
      requires Valid()
      modifies this, head, tail, elems
      ensures Valid() && |elems| == |old(elems)| && forall i :: 0 <= i < |elems| ==> elems[i] == old(elems)[|elems| - 1 - i]
    {
      hide Distinct, Chained;
      ghost var s := Nodes();
      Linking(s, 0);
      Apart(s, 0, 1, |s| - 1);
      if head.next != tail {
        TurnLinks(head, tail, s);
        TurnedLinked(s);
        assert Turned(s) == [head] + Reversed(elems) + [tail];
        elems := Reversed(elems);
      }
    }

    /** list_sort.  After its first pass it needs one more only while more than one run is left, and
        each pass halves the number of runs. */
    method Sort(less: Order) returns (ghost passes: nat)
      requires Valid() && StrictWeak(less, elems)
      modifies this, head, tail, elems
      ensures Valid() && Sorted(less, elems) && Stable(less, old(elems), elems)
      ensures passes >= 1 && (passes == 1 || Bitmaps.Pow2(passes - 1) < Runs(less, old(elems)))
    {
      hide Sorted, Stable, StrictWeak, Pass, PassCount, Runs, Linked, Comes;
      ghost var start := elems;
      StableRefl(less, start);
      passes := 0;
      while true
        invariant Valid() && StrictWeak(less, elems) && Stable(less, start, elems) && Within(elems, start)
        invariant Bitmaps.Pow2(passes) * (Runs(less, elems) - 1) <= Runs(less, start) - 1
        invariant passes > 0 ==> Bitmaps.Pow2(passes) < Runs(less, start)
        decreases Runs(less, elems)
      {
        ghost var was := elems;
        ghost var s := Nodes();
        assert Inner(s) == was;
        var count;
        count, s := MergePass(head, tail, less, s);
        elems := Inner(s);
        assert s == Nodes();
        PassStable(less, was);
        StableTrans(less, start, was, elems);
        StableWithin(less, was, elems);
        SubWeak(less, was, elems);
        CountHalves(less, was);
        PassRuns(less, was);
        Halved(Bitmaps.Pow2(passes), Runs(less, was), Runs(less, elems), Runs(less, start));
        passes := passes + 1;
        if count <= 1 {
          PassSorted(less, was);
          break;
        }
      }
    }
  }

  /** I is the first position whose element ELEM is less than. */
  ghost predicate InsertedAt(less: Order, s: seq<Elem>, elem: Elem, i: int) {
    && 0 <= i <= |s| && (forall k :: 0 <= k < i ==> !less(elem, s[k])) && (i < |s| ==> less(elem, s[i]))
  }

  /** An ordered insertion keeps a sorted list sorted, with the new element after its equals. */
  lemma InsertKeepsSorted(less: Order, s: seq<Elem>, elem: Elem, i: nat)
    requires StrictWeak(less, s + [elem]) && Sorted(less, s) && InsertedAt(less, s, elem, i)
    ensures Sorted(less, s[..i] + [elem] + s[i..])
    ensures forall k :: i <= k < |s| ==> less(elem, s[k])
  {
    assert elem in s + [elem] && forall k :: 0 <= k < |s| ==> s[k] in s + [elem];
    forall k | i <= k < |s|
      ensures less(elem, s[k])
    {
      assert k == i || !less(s[k], s[i]);
    }
  }

  lemma StableWithin(less: Order, s: seq<Elem>, r: seq<Elem>)
    requires Stable(less, s, r)
    ensures Within(r, s)
  {
    forall e | e in r
      ensures e in s
    {
      SameMembers(r, s, e);
    }
  }

  lemma Halved(power: nat, runs: nat, left: nat, start: nat)
    requires power * (runs - 1) <= start - 1 && left <= (runs + 1) / 2
    ensures 2 * power * (left - 1) <= start - 1
    ensures runs > 2 ==> 2 * power < start
  {
    Division.MulMonotone(2 * (left - 1), runs - 1, power);
    assert 2 * (left - 1) * power == 2 * power * (left - 1) && (runs - 1) * power == power * (runs - 1);
    if runs > 2 {
      Division.MulMonotone(2, runs - 1, power);
    }
  }
}
