/** How many sectors files take up, and when a growth fits (src/filesys/inode.c, src/filesys/free-map.c). */
module Space {
  import opened Sectors
  import opened Volumes

  // ----- counting free sectors -----------------------------------------------------------------

  /** The number of sectors BITS does not mark. */
  function Unmarked(bits: seq<bool>): nat {
    if bits == [] then 0 else Unmarked(bits[..|bits| - 1]) + if bits[|bits| - 1] then 0 else 1
  }

  lemma {:induction false} UnmarkedSet(bits: seq<bool>, s: nat, value: bool)
    requires s < |bits|
    ensures Unmarked(bits[s := value]) == Unmarked(bits) + (if value then 0 else 1) - if bits[s] then 0 else 1
  {
    var n := |bits| - 1;
    if s < n {
      assert bits[s := value][..n] == bits[..n][s := value];
      UnmarkedSet(bits[..n], s, value);
    } else {
      assert bits[s := value][..n] == bits[..n];
    }
  }

  lemma {:induction false} UnmarkedAll(bits: seq<bool>)
    requires forall s :: 0 <= s < |bits| ==> !bits[s]
    ensures Unmarked(bits) == |bits|
  {
    if bits != [] {
      UnmarkedAll(bits[..|bits| - 1]);
    }
  }

  lemma {:induction false} UnmarkedNone(bits: seq<bool>)
    ensures Unmarked(bits) == 0 <==> forall s :: 0 <= s < |bits| ==> bits[s]
  {
    if bits != [] {
      var n := |bits| - 1;
      UnmarkedNone(bits[..n]);
      assert (forall s :: 0 <= s < |bits| ==> bits[s]) <==> bits[n] && forall s :: 0 <= s < n ==> bits[..n][s];
    }
  }

  lemma {:induction false} UnmarkedLess(bits: seq<bool>, bits': seq<bool>, freed: set<nat>)
    requires |bits'| == |bits| && forall s :: s in freed ==> s < |bits| && bits[s]
    requires forall s :: 0 <= s < |bits| ==> bits'[s] == (bits[s] && s !in freed)
    ensures Unmarked(bits') == Unmarked(bits) + |freed|
    decreases freed
  {
    if freed == {} {
      assert bits' == bits;
    } else {
      var s :| s in freed;
      UnmarkedSet(bits, s, false);
      UnmarkedLess(bits[s := false], bits', freed - {s});
    }
  }

  // ----- what a file takes up -------------------------------------------------------------------

  /** The data and index sectors of a file with N data sectors. */
  function Footprint(n: nat): nat {
    n + (if n > DIRECT_BLOCKS then 1 else 0) + if n > INDIRECT_END then 1 + (n - INDIRECT_END + 127) / 128 else 0
  }

  /** The index sectors that data sector I is the first to need. */
  function IndexCost(i: nat): nat {
    (if i == DIRECT_BLOCKS then 1 else 0) + (if i == INDIRECT_END then 1 else 0) + if i >= INDIRECT_END && Entry(i) == 0 then 1 else 0
  }

  lemma FootprintStep(i: nat)
    ensures Footprint(i + 1) == Footprint(i) + 1 + IndexCost(i)
  {
    if i >= INDIRECT_END {
      var q, r := Outer(i), Entry(i);
      assert i == INDIRECT_END + 128 * q + r;
      assert (i + 1 - INDIRECT_END + 127) / 128 == q + 1;
      assert (i - INDIRECT_END + 127) / 128 == if r == 0 then q else q + 1;
    }
  }

  /** The roles data sector I brings with it. */
  function NewSlots(i: nat): set<Slot> {
    {Data(i)} + (if i == DIRECT_BLOCKS then {Indirect} else {}) + (if i == INDIRECT_END then {Doubly} else {})
    + if i >= INDIRECT_END && Entry(i) == 0 then {Inner(Outer(i))} else {}
  }

  function SlotsOf(n: nat): set<Slot> {
    if n == 0 then {Self} else SlotsOf(n - 1) + NewSlots(n - 1)
  }

  lemma {:induction false} SlotsInUse(n: nat, slot: Slot)
    ensures slot in SlotsOf(n) <==> Uses(n, slot)
    decreases n
  {
    if n > 0 {
      SlotsInUse(n - 1, slot);
      UsesStep(n - 1, slot);
    }
  }

  lemma UsesStep(i: nat, slot: Slot)
    ensures Uses(i + 1, slot) <==> Uses(i, slot) || slot in NewSlots(i)
    ensures slot in NewSlots(i) ==> !Uses(i, slot)
  {
    if i >= INDIRECT_END {
      assert i == INDIRECT_END + 128 * Outer(i) + Entry(i);
    }
  }

  lemma NewSlotsSize(i: nat)
    ensures |NewSlots(i)| == 1 + IndexCost(i)
  {
    var a: set<Slot> := {Data(i)};
    var b: set<Slot> := a + if i == DIRECT_BLOCKS then {Indirect} else {};
    var c: set<Slot> := b + if i == INDIRECT_END then {Doubly} else {};
    assert |b| == 1 + (if i == DIRECT_BLOCKS then 1 else 0);
    assert |c| == |b| + (if i == INDIRECT_END then 1 else 0);
    assert NewSlots(i) == c + if i >= INDIRECT_END && Entry(i) == 0 then {Inner(Outer(i))} else {};
  }

  lemma {:induction false} SlotsSize(n: nat)
    ensures |SlotsOf(n)| == 1 + Footprint(n)
    decreases n
  {
    if n > 0 {
      var i := n - 1;
      SlotsSize(i);
      FootprintStep(i);
      NewSlotsSize(i);
      forall slot | slot in NewSlots(i)
        ensures slot !in SlotsOf(i)
      {
        UsesStep(i, slot);
        SlotsInUse(i, slot);
      }
      assert SlotsOf(i) !! NewSlots(i);
    }
  }

  ghost function Places(v: Volume, f: nat, slots: set<Slot>): set<nat>
    requires f in v.nodes
  {
    set slot | slot in slots :: v.Where(f, slot)
  }

  lemma {:induction false} PlacesSize(v: Volume, f: nat, slots: set<Slot>)
    requires v.Valid() && f in v.nodes && forall slot :: slot in slots ==> Uses(v.N(f), slot)
    ensures |Places(v, f, slots)| == |slots|
    decreases slots
  {
    hide Loc, Volume.Valid, Uses;
    if slots != {} {
      var x :| x in slots;
      PlacesSize(v, f, slots - {x});
      forall slot | slot in slots - {x}
        ensures v.Where(f, slot) != v.Where(f, x)
      {
        if v.Where(f, slot) == v.Where(f, x) {
          NoSharing(v, f, slot, f, x);
        }
      }
      assert Places(v, f, slots) == Places(v, f, slots - {x}) + {v.Where(f, x)};
    }
  }

  /** A file owns its inode and what it takes up. */
  lemma OwnedCount(v: Volume, f: nat)
    requires v.Valid() && f in v.nodes
    ensures |v.OwnedBy(f)| == 1 + Footprint(v.N(f))
  {
    hide Loc, SlotsOf, Footprint, Uses;
    var n := v.N(f);
    forall slot
      ensures slot in SlotsOf(n) <==> Uses(n, slot)
    {
      SlotsInUse(n, slot);
    }
    SlotsSize(n);
    PlacesSize(v, f, SlotsOf(n));
    forall s | s in v.OwnedBy(f)
      ensures s in Places(v, f, SlotsOf(n))
    {
      assert Uses(n, v.owner[s].slot) && v.Where(f, v.owner[s].slot) == s;
    }
    assert v.OwnedBy(f) == Places(v, f, SlotsOf(n));
  }

  // ----- when a growth fits -----------------------------------------------------------------------

  /** What inode_extend makes of FREE free sectors on the way from data sector I to N: whether it succeeds,
      and how many are left. */
  function Grow(free: nat, i: nat, n: nat): (bool, nat)
    decreases n - i
  {
    if i >= n then (true, free)
    else if free >= 1 + IndexCost(i) then Grow(free - 1 - IndexCost(i), i + 1, n)
    else (false, if free == 0 then 0 else 1)
  }

  lemma {:induction false} FootprintGrows(i: nat, n: nat)
    requires i <= n
    ensures Footprint(i) + (n - i) <= Footprint(n)
    decreases n
  {
    if i < n {
      FootprintGrows(i, n - 1);
      FootprintStep(n - 1);
    }
  }

  /** A growth succeeds exactly when there are as many free sectors as it takes; it then uses those, and
      else all but at most one. */
  lemma {:induction false} GrowExact(free: nat, i: nat, n: nat)
    requires i <= n
    ensures Footprint(i) <= Footprint(n)
    ensures Grow(free, i, n).0 <==> free >= Footprint(n) - Footprint(i)
    ensures Grow(free, i, n).0 ==> Grow(free, i, n).1 == free - (Footprint(n) - Footprint(i))
    ensures !Grow(free, i, n).0 ==> Grow(free, i, n).1 <= 1
    decreases n - i
  {
    hide Footprint, IndexCost;
    FootprintGrows(i, n);
    if i < n {
      FootprintStep(i);
      if free >= 1 + IndexCost(i) {
        GrowExact(free - 1 - IndexCost(i), i + 1, n);
      } else {
        FootprintGrows(i + 1, n);
      }
    }
  }

  lemma GrowFits(free: nat, i: nat, n: nat)
    ensures Grow(free, i, n).0 <==> n <= i || free >= Footprint(n) - Footprint(i)
    ensures n <= i ==> Grow(free, i, n) == (true, free)
  {
    hide Footprint;
    if i <= n {
      GrowExact(free, i, n);
    }
  }

  lemma FootprintMonotone(a: nat, b: nat)
    ensures if a <= b then Footprint(a) <= Footprint(b) else Footprint(b) <= Footprint(a)
  {
    hide Footprint;
    if a <= b {
      FootprintGrows(a, b);
    } else {
      FootprintGrows(b, a);
    }
  }

  /** A growth that fails loses free sectors, except in two cases. */
  lemma GrowLoss(free: nat, i: nat, n: nat)
    requires i <= n && !Grow(free, i, n).0
    ensures Grow(free, i, n).1 == free <==> free == 0 || (free == 1 && IndexCost(i) > 0)
  {
    hide Footprint;
    GrowExact(free, i, n);
    if free > 0 && IndexCost(i) == 0 {
      GrowExact(free - 1, i + 1, n);
    }
    GrowLeft(free, i, n);
  }

  lemma {:induction false} GrowLeft(free: nat, i: nat, n: nat)
    ensures Grow(free, i, n).1 <= free
    decreases n - i
  {
    hide IndexCost;
    if i < n && free >= 1 + IndexCost(i) {
      GrowLeft(free - 1 - IndexCost(i), i + 1, n);
    }
  }
}
