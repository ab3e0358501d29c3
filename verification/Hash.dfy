/** The self-resizing hash table (src/lib/kernel/hash.c). */
module Hashing {
  import opened Options
  import opened Bitmaps
  import opened Division

  // ----- bucket counts --------------------------------------------------------------------------------------

  /** The largest power of two that is at most X. */
  function HighBit(x: nat): (p: nat)
    requires x > 0
    ensures p <= x < 2 * p
  {
    if x == 1 then 1 else 2 * HighBit(x / 2)
  }

  ghost predicate IsPower(x: nat) {
    exists k: nat :: x == Pow2(k)
  }

  lemma {:induction false} HighBitPower(x: nat)
    requires x > 0
    ensures IsPower(HighBit(x)) && (x >= 4 ==> HighBit(x) >= 4)
  {
    if x > 1 {
      HighBitPower(x / 2);
      var k: nat :| HighBit(x / 2) == Pow2(k);
      assert HighBit(x) == Pow2(k + 1);
    } else {
      assert HighBit(x) == Pow2(0);
    }
  }

  /** turn_off_least_1bit. */
  function TurnOffLeast(x: nat): nat
    requires x > 0
  {
    And(x, x - 1)
  }

  /** Turning off the lowest bit leaves the highest one, unless it is the same. */
  lemma {:induction false} TurnedOff(x: nat)
    requires x > 0
    ensures TurnOffLeast(x) < x
    ensures TurnOffLeast(x) == 0 <==> x == HighBit(x)
    ensures TurnOffLeast(x) > 0 ==> HighBit(TurnOffLeast(x)) == HighBit(x)
  {
    if x > 1 {
      TurnedOff(x / 2);
      if x % 2 == 0 {
        assert (x - 1) / 2 == x / 2 - 1;
      } else {
        AndSelf(x / 2);
      }
    }
  }

  lemma {:induction false} AndSelf(x: nat)
    ensures And(x, x) == x
  {
    if x > 0 {
      AndSelf(x / 2);
    }
  }

  lemma AndOdd(h: nat, m: nat)
    requires m > 0
    ensures And(h, 2 * m - 1) == 2 * And(h / 2, m - 1) + h % 2
  {
  }

  /** Masking with a power of two less one takes the remainder. */
  lemma {:induction false} MaskIsMod(h: nat, k: nat)
    ensures And(h, Pow2(k) - 1) == h % Pow2(k)
  {
    if k > 0 {
      hide And;
      MaskIsMod(h / 2, k - 1);
      AndOdd(h, Pow2(k - 1));
      ModDouble(h, Pow2(k - 1));
    }
  }

  lemma ModDouble(h: nat, m: nat)
    requires m > 0
    ensures h % (2 * m) == 2 * (h / 2 % m) + h % 2
  {
    var q, r := h / 2 / m, h / 2 % m;
    assert h / 2 == q * m + r;
    assert q * (2 * m) == 2 * (q * m);
    QuotientIs(h, 2 * m, q);
  }

  // ----- the table ------------------------------------------------------------------------------------------------

  /** How a table's elements are compared and hashed; KEY is what equal elements have in common. */
  datatype Rules<!E(!new), !K(!new, ==)> = Rules(hash: E -> nat, less: (E, E) -> bool, key: E -> K) {
    /** LESS tells apart exactly the elements with different keys, and HASH only looks at keys. */
    ghost predicate Compatible() {
      && (forall a, b :: (!less(a, b) && !less(b, a)) <==> key(a) == key(b))
      && (forall a, b :: key(a) == key(b) ==> hash(a) == hash(b))
    }

    /** The bucket E belongs in, of N. */
    function Slot(n: nat, e: E): (i: nat)
      requires n > 0
      ensures i < n
    {
      hash(e) % n
    }
  }

  ghost predicate DistinctKeys<E(!new), K(!new)>(rules: Rules<E, K>, bucket: seq<E>) {
    forall p, q :: 0 <= p < q < |bucket| ==> rules.key(bucket[p]) != rules.key(bucket[q])
  }

  /** The buckets hold exactly ITEMS, each in its place. */
  ghost predicate Holds<E(!new), K(!new)>(rules: Rules<E, K>, buckets: seq<seq<E>>, items: map<K, E>) {
    && |buckets| > 0
    && (forall i, e :: 0 <= i < |buckets| && e in buckets[i] ==>
          rules.Slot(|buckets|, e) == i && rules.key(e) in items && items[rules.key(e)] == e)
    && (forall k :: k in items ==> rules.key(items[k]) == k && items[k] in buckets[rules.Slot(|buckets|, items[k])])
    && (forall i :: 0 <= i < |buckets| ==> DistinctKeys(rules, buckets[i]))
  }

  /** A new element at the front of its bucket. */
  lemma Pushed<E(!new), K(!new)>(rules: Rules<E, K>, buckets: seq<seq<E>>, items: map<K, E>, e: E)
    requires Holds(rules, buckets, items) && rules.key(e) !in items
    ensures var i := rules.Slot(|buckets|, e);
      Holds(rules, buckets[i := [e] + buckets[i]], items[rules.key(e) := e])
  {
    var i := rules.Slot(|buckets|, e);
    var bucket := [e] + buckets[i];
    forall p, q | 0 <= p < q < |bucket|
      ensures rules.key(bucket[p]) != rules.key(bucket[q])
    {
      assert bucket[q] == buckets[i][q - 1] && bucket[q] in buckets[i];
      assert p > 0 ==> bucket[p] == buckets[i][p - 1];
    }
    assert forall x :: x in bucket <==> x == e || x in buckets[i];
  }

  lemma BucketCut<E(!new), K(!new)>(rules: Rules<E, K>, bucket: seq<E>, p: nat)
    requires DistinctKeys(rules, bucket) && p < |bucket|
    ensures var rest := bucket[..p] + bucket[p + 1..];
      DistinctKeys(rules, rest) && forall x :: x in rest <==> x in bucket && rules.key(x) != rules.key(bucket[p])
  {
    var rest := bucket[..p] + bucket[p + 1..];
    assert forall q :: 0 <= q < |rest| ==> rest[q] == bucket[if q < p then q else q + 1];
    forall x | x in bucket && rules.key(x) != rules.key(bucket[p])
      ensures x in rest
    {
      var q :| 0 <= q < |bucket| && bucket[q] == x;
      assert rest[if q < p then q else q - 1] == x;
    }
  }

  /** Element P of bucket I is removed. */
  lemma Pulled<E(!new), K(!new)>(rules: Rules<E, K>, buckets: seq<seq<E>>, items: map<K, E>, i: nat, p: nat)
    requires Holds(rules, buckets, items) && i < |buckets| && p < |buckets[i]|
    ensures rules.key(buckets[i][p]) in items
    ensures Holds(rules, buckets[i := buckets[i][..p] + buckets[i][p + 1..]], items - {rules.key(buckets[i][p])})
  {
    hide DistinctKeys;
    BucketCut(rules, buckets[i], p);
    assert buckets[i][p] in buckets[i];
  }

  lemma InPlace<E(!new), K(!new)>(rules: Rules<E, K>, buckets: seq<seq<E>>, items: map<K, E>, e: E)
    requires Holds(rules, buckets, items) && rules.Compatible()
    ensures rules.key(e) in items ==>
      rules.key(items[rules.key(e)]) == rules.key(e) && items[rules.key(e)] in buckets[rules.Slot(|buckets|, e)]
  {
  }

  class HashTable<E(!new, ==), K(!new, ==)> {
    const rules: Rules<E, K>
    var elemCnt: nat
    var buckets: seq<seq<E>>
    ghost var items: map<K, E>

    ghost predicate Valid()
      reads this
    {
      && rules.Compatible() && Holds(rules, buckets, items) && elemCnt == |items|
      && |buckets| >= 4 && IsPower(|buckets|)
    }

    /** hash_init. */
    constructor (rules: Rules<E, K>)
      requires rules.Compatible()
      ensures Valid() && items == map[] && this.rules == rules
    {
      this.rules := rules;
      elemCnt, buckets, items := 0, [[], [], [], []], map[];
      assert 4 == Pow2(2);
    }

    /** find_elem: the place of an element equal to E in bucket I. */
    method FindElem(i: nat, e: E) returns (p: Option<nat>)
      requires Valid() && i == rules.Slot(|buckets|, e)
      ensures p.Some? ==> p.value < |buckets[i]| && rules.key(buckets[i][p.value]) == rules.key(e)
      ensures p.Some? ==> rules.key(e) in items && items[rules.key(e)] == buckets[i][p.value]
      ensures p.None? <==> rules.key(e) !in items
    {
      var n := 0;
      while n < |buckets[i]|
        invariant n <= |buckets[i]| && forall q :: 0 <= q < n ==> rules.key(buckets[i][q]) != rules.key(e)
      {
        var x := buckets[i][n];
        if !rules.less(x, e) && !rules.less(e, x) {
          assert x in buckets[i];
          return Some(n);
        }
        n := n + 1;
      }
      InPlace(rules, buckets, items, e);
      return None;
    }

    /** hash_find. */
    method Find(e: E) returns (r: Option<E>)
      requires Valid()
      ensures r == if rules.key(e) in items then Some(items[rules.key(e)]) else None
    {
      hide Holds;
      var i := SlotOf(e, |buckets|);
      var p := FindElem(i, e);
      r := if p.Some? then Some(buckets[i][p.value]) else None;
    }

    /** hash_insert; MEMORY says whether new buckets can be had. */
    method Insert(e: E, memory: bool) returns (old_: Option<E>)
      requires Valid()
      modifies this
      ensures Valid()
      ensures old_ == if rules.key(e) in old(items) then Some(old(items)[rules.key(e)]) else None
      ensures items == if rules.key(e) in old(items) then old(items) else old(items)[rules.key(e) := e]
    {
      hide Holds, Rules.Compatible;
      var i := SlotOf(e, |buckets|);
      var p := FindElem(i, e);
      old_ := if p.Some? then Some(buckets[i][p.value]) else None;
      if old_.None? {
        Pushed(rules, buckets, items, e);
        elemCnt := elemCnt + 1;
        buckets := buckets[i := [e] + buckets[i]];
        items := items[rules.key(e) := e];
      }
      Rehash(memory);
    }

    /** hash_replace. */
    method Replace(e: E, memory: bool) returns (old_: Option<E>)
      requires Valid()
      modifies this
      ensures Valid()
      ensures old_ == if rules.key(e) in old(items) then Some(old(items)[rules.key(e)]) else None
      ensures items == old(items)[rules.key(e) := e]
    {
      hide Holds, Rules.Compatible;
      var i := SlotOf(e, |buckets|);
      var p := FindElem(i, e);
      old_ := if p.Some? then Some(buckets[i][p.value]) else None;
      if p.Some? {
        RemoveElem(i, p.value);
      }
      Pushed(rules, buckets, items, e);
      elemCnt := elemCnt + 1;
      buckets := buckets[i := [e] + buckets[i]];
      items := items[rules.key(e) := e];
      Rehash(memory);
    }

    /** remove_elem. */
    method RemoveElem(i: nat, p: nat)
      requires Valid() && i < |buckets| && p < |buckets[i]|
      modifies this
      ensures Valid() && |buckets| == |old(buckets)| && items == old(items) - {rules.key(old(buckets)[i][p])}
    {
      hide Holds, Rules.Compatible;
      Pulled(rules, buckets, items, i, p);
      elemCnt := elemCnt - 1;
      items := items - {rules.key(buckets[i][p])};
      buckets := buckets[i := buckets[i][..p] + buckets[i][p + 1..]];
    }

    /** hash_delete. */
    method Delete(e: E, memory: bool) returns (found: Option<E>)
      requires Valid()
      modifies this
      ensures Valid()
      ensures found == if rules.key(e) in old(items) then Some(old(items)[rules.key(e)]) else None
      ensures items == old(items) - {rules.key(e)}
    {
      hide Holds, Rules.Compatible;
      var i := SlotOf(e, |buckets|);
      var p := FindElem(i, e);
      if p.None? {
        assert items - {rules.key(e)} == items;
        return None;
      }
      found := Some(buckets[i][p.value]);
      RemoveElem(i, p.value);
      Rehash(memory);
    }

    /** The new number of buckets. */
    method BestCount() returns (n: nat)
      ensures n == HighBit(if elemCnt / 2 < 4 then 4 else elemCnt / 2)
    {
      n := elemCnt / 2;
      if n < 4 {
        n := 4;
      }
      ghost var start := n;
      TurnedOff(n);
      while TurnOffLeast(n) != 0
        invariant n > 0 && HighBit(n) == HighBit(start)
        decreases n
      {
        TurnedOff(n);
        n := TurnOffLeast(n);
      }
      TurnedOff(n);
    }

    /** rehash: the same elements in another number of buckets. */
    method Rehash(memory: bool)
      requires Valid()
      modifies `buckets
      ensures Valid()
      ensures memory ==> |buckets| == HighBit(if elemCnt / 2 < 4 then 4 else elemCnt / 2)
      ensures !memory ==> buckets == old(buckets)
    {
      hide Holds, Rules.Compatible, HighBit, TurnOffLeast;
      var n := BestCount();
      HighBitPower(if elemCnt / 2 < 4 then 4 else elemCnt / 2);
      if n == |buckets| || !memory {
        return;
      }
      buckets := Redistribute(n);
    }

    /** The loop of rehash: every element is moved to the front of its new bucket. */
    method Redistribute(n: nat) returns (table: seq<seq<E>>)
      requires Valid() && n > 0 && IsPower(n)
      ensures |table| == n && Holds(rules, table, items)
    {
      hide Holds, Rules.Compatible, Moved;
      table := seq(n, _ => []);
      ghost var moved: map<K, E> := map[];
      NoneMoved(rules, buckets, items, table);
      for i := 0 to |buckets|
        invariant |table| == n && Holds(rules, table, moved) && Moved(rules, buckets, items, moved, i, 0)
      {
        for p := 0 to |buckets[i]|
          invariant |table| == n && Holds(rules, table, moved) && Moved(rules, buckets, items, moved, i, p)
        {
          var e := buckets[i][p];
          MovedOne(rules, buckets, items, moved, i, p);
          Pushed(rules, table, moved, e);
          var j := SlotOf(e, n);
          table := table[j := [e] + table[j]];
          moved := moved[rules.key(e) := e];
        }
        MovedBucket(rules, buckets, items, moved, i);
      }
      MovedAll(rules, buckets, items, moved);
    }

    /** find_bucket among N. */
    method SlotOf(e: E, n: nat) returns (i: nat)
      requires n > 0 && IsPower(n)
      ensures i == rules.Slot(n, e)
    {
      ghost var k: nat :| n == Pow2(k);
      MaskIsMod(rules.hash(e), k);
      i := And(rules.hash(e), n - 1);
    }

    /** hash_first. */
    method First() returns (c: Cursor)
      requires Valid()
      ensures Left(buckets, c) == Flat(buckets)
    {
      c := Cursor(0, 0);
      assert buckets[0][0..] == buckets[0] && buckets == [buckets[0]] + buckets[1..];
    }

    /** hash_next: the next element and where to go on. */
    method Next(c: Cursor) returns (r: Option<E>, c': Cursor)
      requires Valid()
      ensures r.None? <==> Left(buckets, c) == []
      ensures r.Some? ==> Left(buckets, c) == [r.value] + Left(buckets, c')
    {
      hide Holds, Rules.Compatible, IsPower, Left;
      c' := c;
      while c'.bucket < |buckets| && c'.next >= |buckets[c'.bucket]|
        invariant Left(buckets, c') == Left(buckets, c)
        decreases |buckets| - c'.bucket
      {
        SkipBucket(buckets, c');
        c' := Cursor(c'.bucket + 1, 0);
      }
      if c'.bucket >= |buckets| {
        NothingLeft(buckets, c');
        return None, c';
      }
      OneLeft(buckets, c');
      r := Some(buckets[c'.bucket][c'.next]);
      c' := c'.(next := c'.next + 1);
    }

    /** An iteration over the whole table visits every element exactly once. */
    method Iterate() returns (visited: seq<E>)
      requires Valid()
      ensures |visited| == |items| && DistinctKeys(rules, visited)
      ensures forall e :: e in visited <==> rules.key(e) in items && items[rules.key(e)] == e
    {
      hide Holds, Rules.Compatible, IsPower, Left, Flat;
      visited := [];
      var c := First();
      assert visited + Left(buckets, c) == Left(buckets, c);
      while true
        invariant Flat(buckets) == visited + Left(buckets, c)
        decreases |Left(buckets, c)|
      {
        var e, next := Next(c);
        if e.None? {
          break;
        }
        assert visited + ([e.value] + Left(buckets, next)) == visited + [e.value] + Left(buckets, next);
        visited := visited + [e.value];
        c := next;
      }
      assert visited + [] == visited;
      FlatHolds(rules, buckets, items);
    }
  }

  // ----- moving to new buckets -------------------------------------------------------------------------------------

  /** E is in one of the first I buckets, or among the first P of bucket I. */
  ghost predicate Passed<E(!new), K(!new)>(rules: Rules<E, K>, buckets: seq<seq<E>>, e: E, i: nat, p: nat)
    requires |buckets| > 0
  {
    rules.Slot(|buckets|, e) < i || (rules.Slot(|buckets|, e) == i < |buckets| && p <= |buckets[i]| && e in buckets[i][..p])
  }

  /** MOVED are the items passed so far. */
  ghost predicate Moved<E(!new), K(!new)>(rules: Rules<E, K>, buckets: seq<seq<E>>, items: map<K, E>, moved: map<K, E>, i: nat, p: nat) {
    && |buckets| > 0
    && (forall k :: k in moved ==> k in items && moved[k] == items[k])
    && (forall k :: k in items ==> (k in moved <==> Passed(rules, buckets, items[k], i, p)))
  }

  lemma NoneMoved<E(!new), K(!new)>(rules: Rules<E, K>, buckets: seq<seq<E>>, items: map<K, E>, table: seq<seq<E>>)
    requires |buckets| > 0 && |table| > 0 && forall j :: 0 <= j < |table| ==> table[j] == []
    ensures Holds(rules, table, map[]) && Moved(rules, buckets, items, map[], 0, 0)
  {
  }

  lemma MovedOne<E(!new), K(!new)>(rules: Rules<E, K>, buckets: seq<seq<E>>, items: map<K, E>, moved: map<K, E>, i: nat, p: nat)
    requires Holds(rules, buckets, items) && Moved(rules, buckets, items, moved, i, p) && i < |buckets| && p < |buckets[i]|
    ensures var e := buckets[i][p];
      rules.key(e) !in moved && Moved(rules, buckets, items, moved[rules.key(e) := e], i, p + 1)
  {
    var e := buckets[i][p];
    assert e in buckets[i] && DistinctKeys(rules, buckets[i]);
    assert buckets[i][..p + 1] == buckets[i][..p] + [e];
    assert e !in buckets[i][..p];
  }

  lemma MovedBucket<E(!new), K(!new)>(rules: Rules<E, K>, buckets: seq<seq<E>>, items: map<K, E>, moved: map<K, E>, i: nat)
    requires Holds(rules, buckets, items) && i < |buckets| && Moved(rules, buckets, items, moved, i, |buckets[i]|)
    ensures Moved(rules, buckets, items, moved, i + 1, 0)
  {
    assert buckets[i][..|buckets[i]|] == buckets[i];
  }

  lemma MovedAll<E(!new), K(!new)>(rules: Rules<E, K>, buckets: seq<seq<E>>, items: map<K, E>, moved: map<K, E>)
    requires Moved(rules, buckets, items, moved, |buckets|, 0)
    ensures moved == items
  {
  }

  // ----- iteration ---------------------------------------------------------------------------------------------------

  /** Where an iteration stands: the bucket, and the position in it that comes next. */
  datatype Cursor = Cursor(bucket: nat, next: nat)

  function Flat<E>(buckets: seq<seq<E>>): seq<E> {
    if buckets == [] then [] else buckets[0] + Flat(buckets[1..])
  }

  /** The elements still to come. */
  function Left<E>(buckets: seq<seq<E>>, c: Cursor): seq<E> {
    if c.bucket >= |buckets| then []
    else (if c.next >= |buckets[c.bucket]| then [] else buckets[c.bucket][c.next..]) + Flat(buckets[c.bucket + 1..])
  }

  lemma SkipBucket<E>(buckets: seq<seq<E>>, c: Cursor)
    requires c.bucket < |buckets| && c.next >= |buckets[c.bucket]|
    ensures Left(buckets, Cursor(c.bucket + 1, 0)) == Left(buckets, c)
  {
    var rest := buckets[c.bucket + 1..];
    if rest != [] {
      assert rest[1..] == buckets[c.bucket + 2..];
      assert rest[0][0..] == rest[0];
    }
  }

  lemma NothingLeft<E>(buckets: seq<seq<E>>, c: Cursor)
    requires c.bucket >= |buckets|
    ensures Left(buckets, c) == []
  {
  }

  lemma OneLeft<E>(buckets: seq<seq<E>>, c: Cursor)
    requires c.bucket < |buckets| && c.next < |buckets[c.bucket]|
    ensures Left(buckets, c) == [buckets[c.bucket][c.next]] + Left(buckets, c.(next := c.next + 1))
  {
    hide Flat;
    var bucket := buckets[c.bucket];
    assert bucket[c.next..] == [bucket[c.next]] + bucket[c.next + 1..];
    assert c.next + 1 == |bucket| ==> bucket[c.next + 1..] == [];
  }

  lemma {:induction false} FlatMember<E>(buckets: seq<seq<E>>, e: E)
    ensures e in Flat(buckets) <==> exists i :: 0 <= i < |buckets| && e in buckets[i]
  {
    if buckets != [] {
      FlatMember(buckets[1..], e);
      if e in Flat(buckets[1..]) {
        var i :| 0 <= i < |buckets[1..]| && e in buckets[1..][i];
        assert e in buckets[i + 1];
      }
      if exists i :: 0 < i < |buckets| && e in buckets[i] {
        var i :| 0 < i < |buckets| && e in buckets[i];
        assert e in buckets[1..][i - 1];
      }
    }
  }

  /** Elements of different buckets have different keys. */
  ghost predicate Apart<E(!new), K(!new)>(rules: Rules<E, K>, buckets: seq<seq<E>>) {
    && (forall i :: 0 <= i < |buckets| ==> DistinctKeys(rules, buckets[i]))
    && (forall i, j, x, y :: 0 <= i < j < |buckets| && x in buckets[i] && y in buckets[j] ==> rules.key(x) != rules.key(y))
  }

  lemma {:induction false} FlatDistinct<E(!new), K(!new)>(rules: Rules<E, K>, buckets: seq<seq<E>>)
    requires Apart(rules, buckets)
    ensures DistinctKeys(rules, Flat(buckets))
  {
    if buckets != [] {
      var rest := buckets[1..];
      FlatDistinct(rules, rest);
      forall y | y in Flat(rest)
        ensures forall x :: x in buckets[0] ==> rules.key(x) != rules.key(y)
      {
        FlatMember(rest, y);
        var j :| 0 <= j < |rest| && y in rest[j];
        assert y in buckets[j + 1];
      }
      ConcatDistinct(rules, buckets[0], Flat(rest));
    }
  }

  lemma ConcatDistinct<E(!new), K(!new)>(rules: Rules<E, K>, a: seq<E>, b: seq<E>)
    requires DistinctKeys(rules, a) && DistinctKeys(rules, b) && forall x, y :: x in a && y in b ==> rules.key(x) != rules.key(y)
    ensures DistinctKeys(rules, a + b)
  {
    var s := a + b;
    forall p, q | 0 <= p < q < |s|
      ensures rules.key(s[p]) != rules.key(s[q])
    {
      assert s[q] == if q < |a| then a[q] else b[q - |a|];
      assert s[p] == if p < |a| then a[p] else b[p - |a|];
    }
  }

  lemma FewerKeys<E(!new), K(!new)>(rules: Rules<E, K>, s: seq<E>, init: seq<E>, k: K)
    requires DistinctKeys(rules, s) && s != [] && init == s[..|s| - 1]
    ensures (exists p :: 0 <= p < |init| && rules.key(init[p]) == k) <==>
            (exists p :: 0 <= p < |s| && rules.key(s[p]) == k) && k != rules.key(s[|s| - 1])
  {
    if exists p :: 0 <= p < |s| && rules.key(s[p]) == k && k != rules.key(s[|s| - 1]) {
      var p :| 0 <= p < |s| && rules.key(s[p]) == k && k != rules.key(s[|s| - 1]);
      assert init[p] == s[p];
    }
    if exists p :: 0 <= p < |init| && rules.key(init[p]) == k {
      var p :| 0 <= p < |init| && rules.key(init[p]) == k;
      assert s[p] == init[p];
    }
  }

  /** Distinct elements with exactly the keys of ITEMS are as many. */
  lemma {:induction false} AsMany<E(!new), K(!new)>(rules: Rules<E, K>, s: seq<E>, items: map<K, E>)
    requires DistinctKeys(rules, s) && forall k :: k in items <==> exists p :: 0 <= p < |s| && rules.key(s[p]) == k
    ensures |s| == |items|
  {
    if s == [] {
      assert items.Keys == {};
    } else {
      var last, init := s[|s| - 1], s[..|s| - 1];
      var rest := items - {rules.key(last)};
      assert rules.key(last) in items;
      forall k
        ensures k in rest <==> exists p :: 0 <= p < |init| && rules.key(init[p]) == k
      {
        FewerKeys(rules, s, init, k);
      }
      AsMany(rules, init, rest);
      assert |items| == |rest| + 1 by {
        assert items == rest[rules.key(last) := items[rules.key(last)]];
      }
    }
  }

  lemma HoldsApart<E(!new), K(!new)>(rules: Rules<E, K>, buckets: seq<seq<E>>, items: map<K, E>)
    requires Holds(rules, buckets, items) && rules.Compatible()
    ensures Apart(rules, buckets)
  {
    forall i, j, x, y | 0 <= i < j < |buckets| && x in buckets[i] && y in buckets[j]
      ensures rules.key(x) != rules.key(y)
    {
      assert rules.Slot(|buckets|, x) == i && rules.Slot(|buckets|, y) == j;
    }
  }

  lemma FlatItem<E(!new), K(!new)>(rules: Rules<E, K>, buckets: seq<seq<E>>, items: map<K, E>, e: E)
    requires Holds(rules, buckets, items)
    ensures e in Flat(buckets) <==> rules.key(e) in items && items[rules.key(e)] == e
  {
    hide Flat, DistinctKeys;
    FlatMember(buckets, e);
  }

  lemma FlatHolds<E(!new), K(!new)>(rules: Rules<E, K>, buckets: seq<seq<E>>, items: map<K, E>)
    requires Holds(rules, buckets, items) && rules.Compatible()
    ensures |Flat(buckets)| == |items| && DistinctKeys(rules, Flat(buckets))
    ensures forall e :: e in Flat(buckets) <==> rules.key(e) in items && items[rules.key(e)] == e
  {
    hide Flat, Holds, Apart, DistinctKeys, Rules.Compatible;
    var s := Flat(buckets);
    HoldsApart(rules, buckets, items);
    FlatDistinct(rules, buckets);
    forall e
      ensures e in s <==> rules.key(e) in items && items[rules.key(e)] == e
    {
      FlatItem(rules, buckets, items, e);
    }
    ItemKeys(rules, buckets, items);
    forall k
      ensures k in items <==> exists p :: 0 <= p < |s| && rules.key(s[p]) == k
    {
      if k in items {
        assert items[k] in s;
      }
      if exists p :: 0 <= p < |s| && rules.key(s[p]) == k {
        var p :| 0 <= p < |s| && rules.key(s[p]) == k;
        assert s[p] in s;
      }
    }
    AsMany(rules, s, items);
  }

  lemma ItemKeys<E(!new), K(!new)>(rules: Rules<E, K>, buckets: seq<seq<E>>, items: map<K, E>)
    requires Holds(rules, buckets, items)
    ensures forall k :: k in items ==> rules.key(items[k]) == k
  {
  }
}
