/** Heap sort and binary search (src/lib/stdlib.c). */
module Heapsort {
  import opened Options

  /** A strcmp()-like comparison. */
  type Compare<!T> = (T, T) -> int

  /** COMPARE is a total preorder. */
  ghost predicate Preorder<T(!new)>(compare: Compare<T>) {
    && (forall a, b :: compare(a, b) > 0 <==> compare(b, a) < 0)
    && (forall a, b, c :: compare(a, b) <= 0 && compare(b, c) <= 0 ==> compare(a, c) <= 0)
  }

  ghost predicate Ordered<T>(compare: Compare<T>, s: seq<T>) {
    forall i, j :: 0 <= i < j < |s| ==> compare(s[i], s[j]) <= 0
  }

  /** Among the first CNT elements, counted from one, every child of an element from LO on, other than
      SKIP, is at most its parent. */
  ghost predicate HeapBut<T>(compare: Compare<T>, s: seq<T>, lo: nat, cnt: nat, skip: nat)
    requires cnt <= |s|
  {
    forall c :: 2 <= c <= cnt && c / 2 >= lo && c / 2 != skip ==> compare(s[c - 1], s[c / 2 - 1]) <= 0
  }

  ghost predicate Heap<T>(compare: Compare<T>, s: seq<T>, lo: nat, cnt: nat)
    requires cnt <= |s|
  {
    HeapBut(compare, s, lo, cnt, 0)
  }

  /** The children of I are at most its parent. */
  ghost predicate Skips<T>(compare: Compare<T>, s: seq<T>, lo: nat, cnt: nat, i: nat)
    requires cnt <= |s|
  {
    i / 2 >= lo >= 1 ==> forall c :: 2 <= c <= cnt && c / 2 == i ==> compare(s[c - 1], s[i / 2 - 1]) <= 0
  }

  function Exchanged<T>(s: seq<T>, i: nat, j: nat): (r: seq<T>)
    requires i < |s| && j < |s|
    ensures |r| == |s|
  {
    s[i := s[j]][j := s[i]]
  }

  lemma ExchangedMultiset<T>(s: seq<T>, i: nat, j: nat)
    requires i < |s| && j < |s|
    ensures multiset(Exchanged(s, i, j)) == multiset(s)
  {
  }

  lemma ExchangedPrefix<T>(s: seq<T>, i: nat, j: nat, n: nat)
    requires i < n <= |s| && j < n
    ensures Exchanged(s, i, j)[..n] == Exchanged(s[..n], i, j) && Exchanged(s, i, j)[n..] == s[n..]
  {
  }

  /** M is the largest of I and its children. */
  ghost predicate Largest<T>(compare: Compare<T>, s: seq<T>, cnt: nat, i: nat, m: nat)
    requires cnt <= |s| && 1 <= i <= cnt
  {
    && 1 <= m <= cnt && (m == i || m / 2 == i)
    && compare(s[i - 1], s[m - 1]) <= 0
    && (forall c :: 2 <= c <= cnt && c / 2 == i ==> compare(s[c - 1], s[m - 1]) <= 0)
  }

  /** After the exchange, the edge from C up is in order. */
  lemma EdgeOk<T(!new)>(compare: Compare<T>, s: seq<T>, lo: nat, cnt: nat, i: nat, m: nat, c: nat)
    requires Preorder(compare) && 1 <= lo <= i <= cnt <= |s| && HeapBut(compare, s, lo, cnt, i) && Skips(compare, s, lo, cnt, i)
    requires Largest(compare, s, cnt, i, m) && m != i && 2 <= c <= cnt && c / 2 >= lo && c / 2 != m
    ensures compare(Exchanged(s, i - 1, m - 1)[c - 1], Exchanged(s, i - 1, m - 1)[c / 2 - 1]) <= 0
  {
    hide Preorder;
    var p := c / 2;
    if p == i {
      assert compare(s[c - 1], s[m - 1]) <= 0;
    } else if c == i {
      assert compare(s[m - 1], s[p - 1]) <= 0;
    } else {
      assert c != m;
      assert compare(s[c - 1], s[p - 1]) <= 0;
    }
  }

  lemma FloatDown<T(!new)>(compare: Compare<T>, s: seq<T>, lo: nat, cnt: nat, i: nat, m: nat)
    requires Preorder(compare) && 1 <= lo <= i <= cnt <= |s| && HeapBut(compare, s, lo, cnt, i) && Skips(compare, s, lo, cnt, i)
    requires Largest(compare, s, cnt, i, m) && m != i
    ensures var t := Exchanged(s, i - 1, m - 1);
      HeapBut(compare, t, lo, cnt, m) && Skips(compare, t, lo, cnt, m)
  {
    hide Preorder, Skips, Exchanged;
    var t := Exchanged(s, i - 1, m - 1);
    forall c | 2 <= c <= cnt && c / 2 >= lo && c / 2 != m
      ensures compare(t[c - 1], t[c / 2 - 1]) <= 0
    {
      EdgeOk(compare, s, lo, cnt, i, m, c);
    }
    NowSkips(compare, s, lo, cnt, i, m);
  }

  lemma NowSkips<T(!new)>(compare: Compare<T>, s: seq<T>, lo: nat, cnt: nat, i: nat, m: nat)
    requires 1 <= lo <= i <= cnt <= |s| && HeapBut(compare, s, lo, cnt, i) && Largest(compare, s, cnt, i, m) && m != i
    ensures Skips(compare, Exchanged(s, i - 1, m - 1), lo, cnt, m)
  {
    forall c | 2 <= c <= cnt && c / 2 == m
      ensures compare(s[c - 1], s[m - 1]) <= 0 && c != i && c != m
    {
    }
  }

  lemma Settled<T>(compare: Compare<T>, s: seq<T>, lo: nat, cnt: nat, i: nat)
    requires 1 <= lo <= i <= cnt <= |s| && HeapBut(compare, s, lo, cnt, i) && Largest(compare, s, cnt, i, i)
    ensures Heap(compare, s, lo, cnt)
  {
  }

  /** do_swap. */
  method Swap<T>(a: array<T>, i: nat, j: nat)
    requires 1 <= i <= a.Length && 1 <= j <= a.Length
    modifies a
    ensures a[..] == Exchanged(old(a[..]), i - 1, j - 1)
  {
    a[i - 1], a[j - 1] := a[j - 1], a[i - 1];
  }

  /** The child of I, or I itself, that heapify goes on with. */
  method LargestChild<T(!new)>(a: array<T>, i: nat, cnt: nat, compare: Compare<T>) returns (max: nat)
    requires Preorder(compare) && 1 <= i <= cnt <= a.Length
    ensures Largest(compare, a[..], cnt, i, max)
  {
    var left, right := 2 * i, 2 * i + 1;
    max := i;
    assert compare(a[i - 1], a[i - 1]) <= 0;
    if left <= cnt && compare(a[left - 1], a[max - 1]) > 0 {
      max := left;
    }
    if right <= cnt && compare(a[right - 1], a[max - 1]) > 0 {
      max := right;
    }
    forall c | 2 <= c <= cnt && c / 2 == i
      ensures compare(a[c - 1], a[max - 1]) <= 0
    {
      assert c == left || c == right;
    }
  }

  /** heapify: the element at I floats down until it is at least its children. */
  method Heapify<T(!new)>(a: array<T>, start: nat, cnt: nat, compare: Compare<T>)
    requires Preorder(compare) && 1 <= start <= cnt <= a.Length && HeapBut(compare, a[..], start, cnt, start)
    modifies a
    ensures Heap(compare, a[..], start, cnt) && a[cnt..] == old(a[cnt..]) && multiset(a[..cnt]) == multiset(old(a[..cnt]))
  {
    hide HeapBut, Skips, Largest, Preorder, Exchanged;
    var i := start;
    NoParent(compare, a[..], start, cnt);
    while true
      invariant start <= i <= cnt
      invariant HeapBut(compare, a[..], start, cnt, i) && Skips(compare, a[..], start, cnt, i)
      invariant a[cnt..] == old(a[cnt..]) && multiset(a[..cnt]) == multiset(old(a[..cnt]))
      decreases cnt - i
    {
      var max := LargestChild(a, i, cnt, compare);
      Descends(compare, a[..], cnt, i, max);
      if max == i {
        Settled(compare, a[..], start, cnt, i);
        break;
      }
      ghost var s := a[..];
      FloatDown(compare, s, start, cnt, i, max);
      Swap(a, i, max);
      ExchangedPrefix(s, i - 1, max - 1, cnt);
      ExchangedMultiset(s[..cnt], i - 1, max - 1);
      assert a[..cnt] == a[..][..cnt] && a[cnt..] == a[..][cnt..];
      i := max;
    }
  }

  lemma NoParent<T>(compare: Compare<T>, s: seq<T>, lo: nat, cnt: nat)
    requires cnt <= |s| && lo >= 1
    ensures Skips(compare, s, lo, cnt, lo)
  {
  }

  lemma Descends<T>(compare: Compare<T>, s: seq<T>, cnt: nat, i: nat, m: nat)
    requires 1 <= i <= cnt <= |s| && Largest(compare, s, cnt, i, m)
    ensures i <= m <= cnt
  {
  }

  /** The root of a heap is its maximum. */
  lemma {:induction false} RootMax<T(!new)>(compare: Compare<T>, s: seq<T>, cnt: nat, c: nat)
    requires Preorder(compare) && 1 <= c <= cnt <= |s| && Heap(compare, s, 1, cnt)
    ensures compare(s[c - 1], s[0]) <= 0
  {
    if c > 1 {
      RootMax(compare, s, cnt, c / 2);
      assert compare(s[c - 1], s[c / 2 - 1]) <= 0;
    } else {
      assert compare(s[0], s[0]) <= 0;
    }
  }

  /** Elements before N are at most those from N on. */
  ghost predicate Split<T>(compare: Compare<T>, s: seq<T>, n: nat)
    requires n <= |s|
  {
    forall i, j :: 0 <= i < n <= j < |s| ==> compare(s[i], s[j]) <= 0
  }

  /** Rearranging the first N elements keeps the split. */
  lemma SplitKept<T>(compare: Compare<T>, s: seq<T>, t: seq<T>, n: nat)
    requires n <= |s| == |t| && Split(compare, s, n) && t[n..] == s[n..] && multiset(t[..n]) == multiset(s[..n])
    ensures Split(compare, t, n)
  {
    forall i, j | 0 <= i < n <= j < |t|
      ensures compare(t[i], t[j]) <= 0
    {
      assert t[..n][i] in multiset(t[..n]);
      assert t[i] in s[..n];
      assert t[j] == t[n..][j - n] == s[n..][j - n];
    }
  }

  /** Moving the root behind the heap extends the sorted part. */
  lemma RootMoved<T(!new)>(compare: Compare<T>, s: seq<T>, i: nat)
    requires Preorder(compare) && 2 <= i <= |s| && Heap(compare, s, 1, i) && Split(compare, s, i) && Ordered(compare, s[i..])
    ensures var t := Exchanged(s, 0, i - 1);
      HeapBut(compare, t, 1, i - 1, 1) && Split(compare, t, i - 1) && Ordered(compare, t[i - 1..])
  {
    var t := Exchanged(s, 0, i - 1);
    forall x | 0 <= x < i
      ensures compare(s[x], s[0]) <= 0
    {
      RootMax(compare, s, i, x + 1);
    }
    RootHeap(compare, s, i);
    RootOrdered(compare, s, i);
    forall p, q | 0 <= p < i - 1 <= q < |t|
      ensures compare(t[p], t[q]) <= 0
    {
      assert t[p] == s[if p == 0 then i - 1 else p];
      assert t[q] == s[if q == i - 1 then 0 else q];
    }
  }

  lemma RootHeap<T(!new)>(compare: Compare<T>, s: seq<T>, i: nat)
    requires 2 <= i <= |s| && Heap(compare, s, 1, i)
    ensures HeapBut(compare, Exchanged(s, 0, i - 1), 1, i - 1, 1)
  {
    var t := Exchanged(s, 0, i - 1);
    forall c | 2 <= c <= i - 1 && c / 2 >= 1 && c / 2 != 1
      ensures compare(t[c - 1], t[c / 2 - 1]) <= 0
    {
      assert compare(s[c - 1], s[c / 2 - 1]) <= 0;
    }
  }

  lemma RootOrdered<T(!new)>(compare: Compare<T>, s: seq<T>, i: nat)
    requires 2 <= i <= |s| && Split(compare, s, i) && Ordered(compare, s[i..])
    ensures Ordered(compare, Exchanged(s, 0, i - 1)[i - 1..])
  {
    var t := Exchanged(s, 0, i - 1);
    var u := t[i - 1..];
    assert u == [s[0]] + s[i..];
    forall p, q | 0 <= p < q < |u|
      ensures compare(u[p], u[q]) <= 0
    {
      assert u[q] == s[i..][q - 1] == s[i + q - 1];
      assert p > 0 ==> u[p] == s[i..][p - 1];
    }
  }

  lemma OneLeft<T(!new)>(compare: Compare<T>, s: seq<T>, n: nat)
    requires n <= 1 && n <= |s| && Split(compare, s, n) && Ordered(compare, s[n..])
    ensures Ordered(compare, s)
  {
    forall p, q | 0 <= p < q < |s|
      ensures compare(s[p], s[q]) <= 0
    {
      if p >= n {
        assert s[p] == s[n..][p - n] && s[q] == s[n..][q - n];
      }
    }
  }

  lemma WholeMultiset<T>(s: seq<T>, t: seq<T>, n: nat)
    requires n <= |s| == |t| && t[n..] == s[n..] && multiset(t[..n]) == multiset(s[..n])
    ensures multiset(t) == multiset(s)
  {
    assert s == s[..n] + s[n..] && t == t[..n] + t[n..];
  }

  /** The first loop of sort. */
  method BuildHeap<T(!new)>(a: array<T>, compare: Compare<T>)
    requires Preorder(compare)
    modifies a
    ensures Heap(compare, a[..], 1, a.Length) && multiset(a[..]) == multiset(old(a[..]))
  {
    hide Preorder;
    var i := a.Length / 2;
    while i > 0
      invariant 0 <= i <= a.Length / 2 && HeapBut(compare, a[..], i + 1, a.Length, 0) && multiset(a[..]) == multiset(old(a[..]))
    {
      assert a[..a.Length] == a[..];
      Heapify(a, i, a.Length, compare);
      assert a[..a.Length] == a[..];
      i := i - 1;
    }
  }

  /** sort: an ordered permutation. */
  method Sort<T(!new)>(a: array<T>, compare: Compare<T>)
    requires Preorder(compare)
    modifies a
    ensures Ordered(compare, a[..]) && multiset(a[..]) == multiset(old(a[..]))
  {
    hide Preorder, HeapBut, Split, Ordered, Exchanged;
    BuildHeap(a, compare);
    var i := a.Length;
    NothingSorted(compare, a[..]);
    while i > 1
      invariant 0 <= i <= a.Length && Heap(compare, a[..], 1, i) && Split(compare, a[..], i) && Ordered(compare, a[..][i..])
      invariant a.Length > 0 ==> i >= 1
      invariant multiset(a[..]) == multiset(old(a[..]))
    {
      ghost var s := a[..];
      RootMoved(compare, s, i);
      ExchangedMultiset(s, 0, i - 1);
      Swap(a, 1, i);
      ghost var t := a[..];
      Heapify(a, 1, i - 1, compare);
      assert a[..i - 1] == a[..][..i - 1] && a[i - 1..] == a[..][i - 1..] && t[..i - 1] == t[..][..i - 1];
      SplitKept(compare, t, a[..], i - 1);
      WholeMultiset(t, a[..], i - 1);
      i := i - 1;
    }
    OneLeft(compare, a[..], i);
  }

  lemma NothingSorted<T>(compare: Compare<T>, s: seq<T>)
    ensures Split(compare, s, |s|) && Ordered(compare, s[|s|..])
  {
  }

  /** binary_search: a match if there is one. */
  method BinarySearch<T(!new)>(key: T, a: array<T>, compare: Compare<T>) returns (r: Option<nat>)
    requires Preorder(compare) && Ordered(compare, a[..])
    ensures r.Some? ==> r.value < a.Length && compare(key, a[r.value]) == 0
    ensures r.None? ==> forall i :: 0 <= i < a.Length ==> compare(key, a[i]) != 0
  {
    var first, last := 0, a.Length;
    while first < last
      invariant first <= last <= a.Length
      invariant forall i :: 0 <= i < first ==> compare(key, a[i]) > 0
      invariant forall i :: last <= i < a.Length ==> compare(key, a[i]) < 0
    {
      var range := last - first;
      var middle := first + range / 2;
      var cmp := compare(key, a[middle]);
      if cmp < 0 {
        Above(key, a[..], middle, compare);
        last := middle;
      } else if cmp > 0 {
        Below(key, a[..], middle, compare);
        first := middle + 1;
      } else {
        return Some(middle);
      }
    }
    return None;
  }

  lemma StrictThen<T(!new)>(compare: Compare<T>, a: T, b: T, c: T)
    requires Preorder(compare) && compare(a, b) < 0 && compare(b, c) <= 0
    ensures compare(a, c) < 0
  {
  }

  lemma ThenStrict<T(!new)>(compare: Compare<T>, a: T, b: T, c: T)
    requires Preorder(compare) && compare(a, b) <= 0 && compare(c, b) > 0
    ensures compare(c, a) > 0
  {
  }

  lemma Above<T(!new)>(key: T, s: seq<T>, m: nat, compare: Compare<T>)
    requires Preorder(compare) && Ordered(compare, s) && m < |s| && compare(key, s[m]) < 0
    ensures forall i :: m <= i < |s| ==> compare(key, s[i]) < 0
  {
    forall i | m < i < |s|
      ensures compare(key, s[i]) < 0
    {
      StrictThen(compare, key, s[m], s[i]);
    }
  }

  lemma Below<T(!new)>(key: T, s: seq<T>, m: nat, compare: Compare<T>)
    requires Preorder(compare) && Ordered(compare, s) && m < |s| && compare(key, s[m]) > 0
    ensures forall i :: 0 <= i <= m ==> compare(key, s[i]) > 0
  {
    forall i | 0 <= i < m
      ensures compare(key, s[i]) > 0
    {
      ThenStrict(compare, s[i], s[m], key);
    }
  }
}
