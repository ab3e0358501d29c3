/** Two-level page tables with bit-packed entries (src/userprog/pagedir.c, src/threads/pte.h; entry format
    of section 3.7.6 of the IA-32 manual, volume 3A). */
module PageDirectories {
  import opened Bitmaps
  import Hashing
  import opened Options
  import opened Sequences

  // ----- entries --------------------------------------------------------------------------------------------------

  const PTE_P: nat := 0
  const PTE_W: nat := 1
  const PTE_U: nat := 2
  const PTE_A: nat := 5
  const PTE_D: nat := 6

  /** X shifted right by K bits. */
  function Shift(x: nat, k: nat): nat {
    if k == 0 then x else Shift(x / 2, k - 1)
  }

  /** The frame an entry points to: its upper 20 bits. */
  function FrameOf(entry: nat): nat {
    Shift(entry, 12)
  }

  /** Flag K of an entry. */
  predicate Flag(entry: nat, k: nat) {
    BitOf(entry, k)
  }

  /** *PTE |= flag, and *PTE &= ~flag. */
  function WithFlag(entry: nat, k: nat, on: bool): nat {
    if on then Or(entry, Pow2(k)) else AndNot(entry, Pow2(k))
  }

  /** pte_create_user. */
  function UserEntry(frame: nat, writable: bool): nat {
    Or(Or(Pow2(12) * frame, if writable then 3 else 1), 4)
  }

  /** pde_create. */
  function TableEntry(frame: nat): nat {
    Or(Pow2(12) * frame, 7)
  }

  lemma {:induction false} OrShift(a: nat, b: nat, k: nat)
    ensures Shift(Or(a, b), k) == Or(Shift(a, k), Shift(b, k))
    decreases k
  {
    if k > 0 {
      assert Or(a, b) / 2 == Or(a / 2, b / 2);
      OrShift(a / 2, b / 2, k - 1);
    }
  }

  lemma {:induction false} AndNotShift(a: nat, b: nat, k: nat)
    ensures Shift(AndNot(a, b), k) == AndNot(Shift(a, k), Shift(b, k))
    decreases k
  {
    if k > 0 {
      assert AndNot(a, b) / 2 == AndNot(a / 2, b / 2);
      AndNotShift(a / 2, b / 2, k - 1);
    }
  }

  lemma {:induction false} OrZero(x: nat)
    ensures Or(x, 0) == x && AndNot(x, 0) == x
  {
    if x > 0 {
      OrZero(x / 2);
    }
  }

  lemma {:induction false} Shifted(x: nat, k: nat)
    ensures Shift(Pow2(k) * x, k) == x
    ensures forall j: nat :: j < k ==> !BitOf(Pow2(k) * x, j)
  {
    if k > 0 {
      assert Pow2(k) * x == 2 * (Pow2(k - 1) * x);
      Shifted(x, k - 1);
      forall j: nat | j < k
        ensures !BitOf(Pow2(k) * x, j)
      {
        assert j > 0 ==> !BitOf(Pow2(k - 1) * x, j - 1);
      }
    }
  }

  lemma {:induction false} SmallShift(x: nat, k: nat)
    requires x < Pow2(k)
    ensures Shift(x, k) == 0
  {
    if k > 0 {
      SmallShift(x / 2, k - 1);
    }
  }

  /** Setting or clearing a flag changes that flag and nothing else. */
  lemma FlagEffect(entry: nat, k: nat, on: bool, j: nat)
    requires k < 12
    ensures FrameOf(WithFlag(entry, k, on)) == FrameOf(entry)
    ensures Flag(WithFlag(entry, k, on), j) == if j == k then on else Flag(entry, j)
  {
    PowersGrow(k, 12);
    SmallShift(Pow2(k), 12);
    OrShift(entry, Pow2(k), 12);
    AndNotShift(entry, Pow2(k), 12);
    OrZero(Shift(entry, 12));
    OrBits(entry, Pow2(k), j);
    AndNotBits(entry, Pow2(k), j);
    PowerBits(k, j);
  }

  /** A word with these flags and this frame. */
  lemma Composed(frame: nat, flags: nat, j: nat)
    requires flags < 8
    ensures FrameOf(Or(Pow2(12) * frame, flags)) == frame
    ensures j < 12 ==> BitOf(Or(Pow2(12) * frame, flags), j) == BitOf(flags, j)
  {
    hide Or, BitOf, Shift;
    Shifted(frame, 12);
    EightBelow();
    SmallShift(flags, 12);
    OrShift(Pow2(12) * frame, flags, 12);
    OrZero(frame);
    OrBits(Pow2(12) * frame, flags, j);
  }

  lemma EightBelow()
    ensures 8 < Pow2(12)
  {
  }

  /** Entries made by pte_create_user point where they should and have the flags they should. */
  lemma UserEntryFields(frame: nat, writable: bool)
    ensures var e := UserEntry(frame, writable);
      FrameOf(e) == frame && Flag(e, PTE_P) && (Flag(e, PTE_W) <==> writable) && Flag(e, PTE_U) && !Flag(e, PTE_A) && !Flag(e, PTE_D)
  {
    hide Or, Shift;
    var low := if writable then 3 else 1;
    var e := Or(Pow2(12) * frame, low);
    EightBelow();
    SmallShift(4, 12);
    OrShift(e, 4, 12);
    OrZero(frame);
    forall j | j in {PTE_P, PTE_W, PTE_U, PTE_A, PTE_D}
      ensures BitOf(Or(e, 4), j) == (BitOf(low, j) || BitOf(4, j))
    {
      Composed(frame, low, j);
      OrBits(e, 4, j);
    }
    Composed(frame, low, 0);
    SmallBits();
  }

  lemma SmallBits()
    ensures forall j :: j in {PTE_P, PTE_W, PTE_U, PTE_A, PTE_D} ==>
      (BitOf(1, j) <==> j == PTE_P) && (BitOf(3, j) <==> j == PTE_P || j == PTE_W) && (BitOf(4, j) <==> j == PTE_U)
  {
  }

  lemma TableEntryFields(frame: nat)
    ensures FrameOf(TableEntry(frame)) == frame && Flag(TableEntry(frame), PTE_P) && TableEntry(frame) != 0
  {
    hide Or, Shift;
    Composed(frame, 7, 0);
    ZeroHasNoBits(0);
  }

  // ----- indices ------------------------------------------------------------------------------------------------

  /** pt_no and pd_no: bits 12 to 21, and 22 and up, of a virtual address. */
  function PtNo(va: nat): nat {
    Shift(And(va, 0x3F_F000), 12)
  }

  function PdNo(va: nat): nat {
    Shift(va, 22)
  }

  lemma {:induction false} AndShift(a: nat, b: nat, k: nat)
    ensures Shift(And(a, b), k) == And(Shift(a, k), Shift(b, k))
    decreases k
  {
    if k > 0 {
      assert And(a, b) / 2 == And(a / 2, b / 2);
      AndShift(a / 2, b / 2, k - 1);
    }
  }

  lemma {:induction false} ShiftTwice(a: nat, j: nat, k: nat)
    ensures Shift(a, j + k) == Shift(Shift(a, j), k)
    decreases j
  {
    if j > 0 {
      ShiftTwice(a / 2, j - 1, k);
    }
  }

  lemma Shift4(x: nat)
    ensures Shift(x, 4) == x / 16
  {
    assert Shift(x, 4) == Shift(x / 2, 3) == Shift(x / 2 / 2, 2) == Shift(x / 2 / 2 / 2, 1) == x / 2 / 2 / 2 / 2;
  }

  lemma Shift10(x: nat)
    ensures Shift(x, 10) == x / 1024 && Shift(x, 12) == x / 4096
  {
    hide Shift;
    Shift4(x);
    Shift4(x / 16);
    Shift4(x / 256);
    ShiftTwice(x, 4, 4);
    ShiftTwice(x, 8, 4);
    ShiftTwice(x, 8, 2);
    assert Shift(x / 256, 2) == x / 1024 by {
      Shift2(x / 256);
    }
  }

  lemma Shift2(x: nat)
    ensures Shift(x, 2) == x / 4
  {
    assert Shift(x, 2) == Shift(x / 2, 1) == x / 2 / 2;
  }

  /** The indices divide a page number in two. */
  lemma IndexBits(va: nat)
    ensures PdNo(va) == va / 4096 / 1024 && PtNo(va) == va / 4096 % 1024
  {
    hide Shift, And;
    Shift10(va);
    Shift10(va / 4096);
    ShiftTwice(va, 12, 10);
    AndShift(va, 0x3F_F000, 12);
    Shift10(0x3F_F000);
    Hashing.MaskIsMod(va / 4096, 10);
  }

  // ----- directories -----------------------------------------------------------------------------------------------

  /** A page directory and the page tables of its user part, by frame; SLOTOF records, for the proof only,
      which directory entry has each table. */
  datatype Pd = Pd(dir: seq<nat>, tables: map<nat, seq<nat>>, slotOf: map<nat, nat>)

  const USER_SLOTS: nat := 768

  /** Every table is in one directory entry, and every entry in use has a table. */
  ghost predicate Inv(pd: Pd) {
    && |pd.dir| == 1024 && pd.slotOf.Keys == pd.tables.Keys
    && (forall f :: f in pd.tables ==> |pd.tables[f]| == 1024)
    && (forall i :: 0 <= i < USER_SLOTS && pd.dir[i] != 0 ==>
          Flag(pd.dir[i], PTE_P) && FrameOf(pd.dir[i]) in pd.slotOf && pd.slotOf[FrameOf(pd.dir[i])] == i)
    && (forall f :: f in pd.slotOf ==> pd.slotOf[f] < USER_SLOTS && pd.dir[pd.slotOf[f]] != 0 && FrameOf(pd.dir[pd.slotOf[f]]) == f)
  }

  /** User pages are numbered from 0 to 768 K. */
  predicate UserPage(page: nat) {
    page < 0xC_0000
  }

  /** The table entry of a user page, 0 if it has no table. */
  function Entry(pd: Pd, page: nat): nat
    requires Inv(pd) && UserPage(page)
  {
    var pde := pd.dir[page / 1024];
    if pde == 0 then 0 else pd.tables[FrameOf(pde)][page % 1024]
  }

  /** What the directory is for: a partial map from user pages to frames and whether they may be written. */
  function At(pd: Pd, page: nat): Option<(nat, bool)>
    requires Inv(pd) && UserPage(page)
  {
    if Flag(Entry(pd, page), PTE_P) then Some((FrameOf(Entry(pd, page)), Flag(Entry(pd, page), PTE_W))) else None
  }

  /** A new, empty table for slot I. */
  function WithTable(pd: Pd, i: nat, frame: nat): Pd
    requires i < |pd.dir|
  {
    Pd(pd.dir[i := TableEntry(frame)], pd.tables[frame := seq(1024, _ => 0)], pd.slotOf[frame := i])
  }

  lemma TableAdded(pd: Pd, i: nat, frame: nat)
    requires Inv(pd) && i < USER_SLOTS && pd.dir[i] == 0 && frame !in pd.tables
    ensures Inv(WithTable(pd, i, frame))
    ensures forall page: nat :: UserPage(page) ==> Entry(WithTable(pd, i, frame), page) == Entry(pd, page)
  {
    hide TableEntry, FrameOf, Flag;
    TableEntryFields(frame);
  }

  /** ENTRY written for PAGE, which has a table. */
  function WithEntry(pd: Pd, page: nat, entry: nat): Pd
    requires Inv(pd) && UserPage(page) && pd.dir[page / 1024] != 0
  {
    var f := FrameOf(pd.dir[page / 1024]);
    var table: seq<nat> := pd.tables[f][page % 1024 := entry];
    pd.(tables := pd.tables[f := table])
  }

  lemma EntryWritten(pd: Pd, page: nat, entry: nat)
    requires Inv(pd) && UserPage(page) && pd.dir[page / 1024] != 0
    ensures Inv(WithEntry(pd, page, entry))
    ensures forall q: nat :: UserPage(q) ==> Entry(WithEntry(pd, page, entry), q) == if q == page then entry else Entry(pd, q)
  {
    hide FrameOf, Flag;
    var w := WithEntry(pd, page, entry);
    forall q: nat | UserPage(q)
      ensures Entry(w, q) == if q == page then entry else Entry(pd, q)
    {
      if q / 1024 != page / 1024 && pd.dir[q / 1024] != 0 {
        assert FrameOf(pd.dir[q / 1024]) != FrameOf(pd.dir[page / 1024]);
      }
    }
  }

  class PageDirectory {
    var dir: seq<nat>
    var tables: map<nat, seq<nat>>
    ghost var slotOf: map<nat, nat>

    ghost function P(): Pd
      reads this
    {
      Pd(dir, tables, slotOf)
    }

    /** pagedir_create: the kernel's part is copied, the user part empty. */
    constructor (kernel: seq<nat>)
      requires |kernel| == 1024 && forall i :: 0 <= i < USER_SLOTS ==> kernel[i] == 0
      ensures Inv(P()) && forall page: nat :: UserPage(page) ==> At(P(), page) == None
    {
      dir, tables, slotOf := kernel, map[], map[];
      new;
      ZeroHasNoBits(PTE_P);
    }

    /** lookup_page for a caller that wants a table: NEWTABLE is the frame the page allocator gives. */
    method EnsureTable(page: nat, newTable: Option<nat>) returns (ok: bool)
      requires Inv(P()) && UserPage(page) && (newTable.Some? ==> newTable.value !in tables)
      modifies this
      ensures Inv(P()) && (ok <==> old(dir)[page / 1024] != 0 || newTable.Some?)
      ensures ok ==> dir[page / 1024] != 0
      ensures !ok ==> P() == old(P())
      ensures forall q: nat :: UserPage(q) ==> Entry(P(), q) == old(Entry(P(), q))
      ensures forall i :: USER_SLOTS <= i < 1024 ==> dir[i] == old(dir)[i]
    {
      hide TableEntry, FrameOf, Flag, Entry;
      if dir[page / 1024] == 0 {
        if newTable.None? {
          return false;
        }
        TableAdded(P(), page / 1024, newTable.value);
        TableEntryFields(newTable.value);
        tables := tables[newTable.value := seq(1024, _ => 0)];
        slotOf := slotOf[newTable.value := page / 1024];
        dir := dir[page / 1024 := TableEntry(newTable.value)];
      }
      return true;
    }

    method WriteEntry(page: nat, entry: nat)
      requires Inv(P()) && UserPage(page) && dir[page / 1024] != 0
      modifies `tables
      ensures Inv(P())
      ensures forall q: nat :: UserPage(q) ==> Entry(P(), q) == if q == page then entry else old(Entry(P(), q))
    {
      hide FrameOf, Flag, Entry;
      EntryWritten(P(), page, entry);
      var f := FrameOf(dir[page / 1024]);
      var table: seq<nat> := tables[f][page % 1024 := entry];
      tables := tables[f := table];
    }

    /** pagedir_set_page: PAGE, not mapped before, is mapped to FRAME; no other page is affected. */
    method SetPage(page: nat, frame: nat, writable: bool, newTable: Option<nat>) returns (ok: bool)
      requires Inv(P()) && UserPage(page) && At(P(), page).None? && (newTable.Some? ==> newTable.value !in tables)
      modifies this
      ensures Inv(P()) && (ok <==> old(dir)[page / 1024] != 0 || newTable.Some?)
      ensures forall q: nat :: UserPage(q) ==> At(P(), q) == if ok && q == page then Some((frame, writable)) else old(At(P(), q))
      ensures ok ==> !Flag(Entry(P(), page), PTE_A) && !Flag(Entry(P(), page), PTE_D)
    {
      hide FrameOf, Flag, Entry, UserEntry, Inv;
      ok := EnsureTable(page, newTable);
      if ok {
        UserEntryFields(frame, writable);
        WriteEntry(page, UserEntry(frame, writable));
      }
    }

    /** pagedir_get_page. */
    method GetPage(page: nat) returns (r: Option<nat>)
      requires Inv(P()) && UserPage(page)
      ensures r == if At(P(), page).Some? then Some(At(P(), page).value.0) else None
    {
      var pde := dir[page / 1024];
      if pde == 0 {
        ZeroHasNoBits(PTE_P);
        return None;
      }
      var pte := tables[FrameOf(pde)][page % 1024];
      return if Flag(pte, PTE_P) then Some(FrameOf(pte)) else None;
    }

    /** A flag of the entry of a page that has a table is set or cleared; the other flags, the frame and
        all other pages stay as they are. */
    method ChangeFlag(page: nat, k: nat, on: bool)
      requires Inv(P()) && UserPage(page) && dir[page / 1024] != 0 && k < 12
      modifies `tables
      ensures Inv(P())
      ensures FrameOf(Entry(P(), page)) == old(FrameOf(Entry(P(), page)))
      ensures forall j: nat :: Flag(Entry(P(), page), j) == if j == k then on else old(Flag(Entry(P(), page), j))
      ensures forall q: nat :: UserPage(q) && q != page ==> Entry(P(), q) == old(Entry(P(), q))
    {
      hide FrameOf, Flag, WithFlag;
      var pte := tables[FrameOf(dir[page / 1024])][page % 1024];
      forall j: nat
        ensures FrameOf(WithFlag(pte, k, on)) == FrameOf(pte) && Flag(WithFlag(pte, k, on), j) == if j == k then on else Flag(pte, j)
      {
        FlagEffect(pte, k, on, j);
      }
      FlagEffect(pte, k, on, 0);
      WriteEntry(page, WithFlag(pte, k, on));
    }

    /** pagedir_clear_page: PAGE is no longer mapped, its other flags stay, and so do all other pages. */
    method ClearPage(page: nat)
      requires Inv(P()) && UserPage(page)
      modifies `tables
      ensures Inv(P())
      ensures forall q: nat :: UserPage(q) ==> At(P(), q) == if q == page then None else old(At(P(), q))
      ensures forall q: nat, j: nat :: UserPage(q) ==>
        Flag(Entry(P(), q), j) == if q == page && j == PTE_P then false else old(Flag(Entry(P(), q), j))
    {
      hide FrameOf, Flag, Entry;
      var present := GetPage(page);
      if present.Some? {
        HasTable(P(), page);
        ChangeFlag(page, PTE_P, false);
      }
    }

    /** pagedir_set_dirty and pagedir_set_accessed; a page without a table is left alone. */
    method SetFlag(page: nat, k: nat, on: bool)
      requires Inv(P()) && UserPage(page) && (k == PTE_D || k == PTE_A)
      modifies `tables
      ensures Inv(P())
      ensures forall q: nat :: UserPage(q) ==> At(P(), q) == old(At(P(), q)) && FrameOf(Entry(P(), q)) == old(FrameOf(Entry(P(), q)))
      ensures forall q: nat, j: nat :: UserPage(q) ==>
        Flag(Entry(P(), q), j) == if q == page && j == k && dir[page / 1024] != 0 then on else old(Flag(Entry(P(), q), j))
    {
      hide FrameOf, Flag, Entry;
      if dir[page / 1024] != 0 {
        ChangeFlag(page, k, on);
      }
    }

    /** The inner loop of pagedir_destroy over one page table. */
    method FreeTable(f: nat) returns (freed: seq<nat>)
      requires f in tables && |tables[f]| == 1024
      ensures freed == FramesIn(tables[f], 1024)
    {
      freed := [];
      for j := 0 to 1024
        invariant freed == FramesIn(tables[f], j)
      {
        if Flag(tables[f][j], PTE_P) {
          freed := freed + [FrameOf(tables[f][j])];
        }
      }
    }

    /** pagedir_destroy, but for the directory's own page: the frames it frees, in order. */
    method Destroy() returns (freed: seq<nat>)
      requires Inv(P())
      ensures forall f :: f in freed <==> f in tables || exists page: nat :: UserPage(page) && MapsTo(P(), page, f)
      ensures Unshared(P()) ==> Distinct(freed)
    {
      hide FramesIn, Flag, FrameOf, Freed;
      freed := [];
      NoneFreed(P());
      for i := 0 to USER_SLOTS
        invariant freed == Freed(P(), i)
      {
        FreedStep(P(), i);
        if Flag(dir[i], PTE_P) {
          SlotUsed(P(), i);
          var frames := FreeTable(FrameOf(dir[i]));
          freed := freed + frames + [FrameOf(dir[i])];
        }
      }
      AllFreed(P());
      if Unshared(P()) {
        FreedOnce(P(), USER_SLOTS);
      }
    }
  }

  lemma HasTable(pd: Pd, page: nat)
    requires Inv(pd) && UserPage(page) && At(pd, page).Some?
    ensures pd.dir[page / 1024] != 0
  {
    ZeroHasNoBits(PTE_P);
  }

  // ----- what destroying frees -----------------------------------------------------------------------------------------

  /** The frames of the present entries among the first N of a table. */
  function FramesIn(table: seq<nat>, n: nat): seq<nat>
    requires n <= |table|
  {
    if n == 0 then [] else FramesIn(table, n - 1) + if Flag(table[n - 1], PTE_P) then [FrameOf(table[n - 1])] else []
  }

  /** What is freed for the first N directory entries. */
  ghost function Freed(pd: Pd, n: nat): seq<nat>
    requires Inv(pd) && n <= USER_SLOTS
  {
    if n == 0 then []
    else if pd.dir[n - 1] == 0 then Freed(pd, n - 1)
    else Freed(pd, n - 1) + FramesIn(pd.tables[FrameOf(pd.dir[n - 1])], 1024) + [FrameOf(pd.dir[n - 1])]
  }

  ghost predicate MapsTo(pd: Pd, page: nat, f: nat)
    requires Inv(pd) && UserPage(page)
  {
    At(pd, page).Some? && At(pd, page).value.0 == f
  }

  /** No frame is mapped twice, or used as a page table too. */
  ghost predicate Unshared(pd: Pd)
    requires Inv(pd)
  {
    && (forall p: nat, q: nat, f :: UserPage(p) && UserPage(q) && p != q && MapsTo(pd, p, f) ==> !MapsTo(pd, q, f))
    && (forall p: nat, f :: UserPage(p) && MapsTo(pd, p, f) ==> f !in pd.tables)
  }

  lemma NoneFreed(pd: Pd)
    requires Inv(pd)
    ensures Freed(pd, 0) == []
  {
  }

  lemma SlotUsed(pd: Pd, i: nat)
    requires Inv(pd) && i < USER_SLOTS && Flag(pd.dir[i], PTE_P)
    ensures pd.dir[i] != 0 && FrameOf(pd.dir[i]) in pd.tables && |pd.tables[FrameOf(pd.dir[i])]| == 1024
  {
    ZeroHasNoBits(PTE_P);
  }

  lemma FreedStep(pd: Pd, i: nat)
    requires Inv(pd) && i < USER_SLOTS
    ensures !Flag(pd.dir[i], PTE_P) ==> Freed(pd, i + 1) == Freed(pd, i)
    ensures Flag(pd.dir[i], PTE_P) ==> FrameOf(pd.dir[i]) in pd.tables
    ensures Flag(pd.dir[i], PTE_P) ==>
      Freed(pd, i + 1) == Freed(pd, i) + FramesIn(pd.tables[FrameOf(pd.dir[i])], 1024) + [FrameOf(pd.dir[i])]
  {
    hide FramesIn;
    ZeroHasNoBits(PTE_P);
  }

  lemma {:induction false} FramesMember(table: seq<nat>, n: nat, f: nat)
    requires n <= |table|
    ensures f in FramesIn(table, n) <==> exists j :: 0 <= j < n && Flag(table[j], PTE_P) && FrameOf(table[j]) == f
  {
    hide Flag, FrameOf;
    if n > 0 {
      FramesMember(table, n - 1, f);
    }
  }

  /** The page of entry J of slot I. */
  lemma PageAt(pd: Pd, i: nat, j: nat)
    requires Inv(pd) && i < USER_SLOTS && j < 1024 && pd.dir[i] != 0
    ensures |pd.dir| == 1024 && UserPage(1024 * i + j) && FrameOf(pd.dir[i]) in pd.tables && |pd.tables[FrameOf(pd.dir[i])]| == 1024
    ensures Entry(pd, 1024 * i + j) == pd.tables[FrameOf(pd.dir[i])][j]
  {
    hide Flag, FrameOf;
    assert (1024 * i + j) / 1024 == i && (1024 * i + j) % 1024 == j;
  }

  /** The frames freed for slot I are those its pages are mapped to. */
  lemma SlotFrames(pd: Pd, i: nat, f: nat)
    requires Inv(pd) && i < USER_SLOTS && pd.dir[i] != 0
    ensures FrameOf(pd.dir[i]) in pd.tables && |pd.tables[FrameOf(pd.dir[i])]| == 1024
    ensures f in FramesIn(pd.tables[FrameOf(pd.dir[i])], 1024) <==>
      exists page: nat :: UserPage(page) && page / 1024 == i && MapsTo(pd, page, f)
  {
    hide FramesIn, Flag, FrameOf, Inv;
    PageAt(pd, i, 0);
    var table := pd.tables[FrameOf(pd.dir[i])];
    FramesMember(table, 1024, f);
    if f in FramesIn(table, 1024) {
      var j :| 0 <= j < 1024 && Flag(table[j], PTE_P) && FrameOf(table[j]) == f;
      PageAt(pd, i, j);
      assert (1024 * i + j) / 1024 == i && MapsTo(pd, 1024 * i + j, f);
    }
    if exists page: nat :: UserPage(page) && page / 1024 == i && MapsTo(pd, page, f) {
      var page: nat :| UserPage(page) && page / 1024 == i && MapsTo(pd, page, f);
      PageAt(pd, i, page % 1024);
      assert 1024 * i + page % 1024 == page;
    }
  }

  /** F is mapped by a page of one of the first N slots. */
  ghost predicate MappedBelow(pd: Pd, n: nat, f: nat)
    requires Inv(pd)
  {
    exists page: nat :: UserPage(page) && page / 1024 < n && MapsTo(pd, page, f)
  }

  lemma MappedStep(pd: Pd, n: nat, f: nat)
    requires Inv(pd) && n < USER_SLOTS
    ensures MappedBelow(pd, n + 1, f) <==> MappedBelow(pd, n, f) || exists page: nat :: UserPage(page) && page / 1024 == n && MapsTo(pd, page, f)
  {
    hide Inv, At;
  }

  lemma EmptySlot(pd: Pd, n: nat, page: nat, f: nat)
    requires Inv(pd) && n < USER_SLOTS && pd.dir[n] == 0 && UserPage(page) && page / 1024 == n
    ensures !MapsTo(pd, page, f)
  {
    ZeroHasNoBits(PTE_P);
  }

  lemma SlotTable(pd: Pd, n: nat, f: nat)
    requires Inv(pd) && n < USER_SLOTS
    ensures |pd.dir| == 1024 && (f in pd.tables ==> f in pd.slotOf)
    ensures f in pd.tables && pd.slotOf[f] == n <==> pd.dir[n] != 0 && FrameOf(pd.dir[n]) == f
  {
    hide Flag, FrameOf;
  }

  lemma NoMapping(pd: Pd, n: nat, f: nat)
    requires Inv(pd) && n < USER_SLOTS && pd.dir[n] == 0
    ensures !exists page: nat :: UserPage(page) && page / 1024 == n && MapsTo(pd, page, f)
  {
    hide Inv;
    forall page: nat | UserPage(page) && page / 1024 == n
      ensures !MapsTo(pd, page, f)
    {
      EmptySlot(pd, n, page, f);
    }
  }

  lemma {:induction false} FreedMember(pd: Pd, n: nat, f: nat)
    requires Inv(pd) && n <= USER_SLOTS
    ensures f in pd.tables ==> f in pd.slotOf
    ensures f in Freed(pd, n) <==> (f in pd.tables && pd.slotOf[f] < n) || MappedBelow(pd, n, f)
  {
    hide FramesIn, Flag, FrameOf, At, Inv, MappedBelow, MapsTo;
    if n > 0 {
      FreedMember(pd, n - 1, f);
      MappedStep(pd, n - 1, f);
      SlotTable(pd, n - 1, f);
      if pd.dir[n - 1] == 0 {
        NoMapping(pd, n - 1, f);
      } else {
        SlotFrames(pd, n - 1, f);
      }
    } else {
      NoneBelow(pd, f);
    }
  }

  lemma NoneBelow(pd: Pd, f: nat)
    requires Inv(pd)
    ensures !MappedBelow(pd, 0, f) && (f in pd.tables ==> f in pd.slotOf)
  {
    hide At;
  }

  lemma AllFreed(pd: Pd)
    requires Inv(pd)
    ensures forall f :: f in Freed(pd, USER_SLOTS) <==> f in pd.tables || exists page: nat :: UserPage(page) && MapsTo(pd, page, f)
  {
    hide Freed, At, Flag, FrameOf;
    forall f
      ensures f in Freed(pd, USER_SLOTS) <==> f in pd.tables || exists page: nat :: UserPage(page) && MapsTo(pd, page, f)
    {
      FreedMember(pd, USER_SLOTS, f);
    }
  }

  lemma {:induction false} FramesOnce(pd: Pd, i: nat, n: nat)
    requires Inv(pd) && Unshared(pd) && i < USER_SLOTS && pd.dir[i] != 0 && n <= 1024
    ensures FrameOf(pd.dir[i]) in pd.tables && |pd.tables[FrameOf(pd.dir[i])]| == 1024
    ensures Distinct(FramesIn(pd.tables[FrameOf(pd.dir[i])], n))
    decreases n
  {
    hide Flag, FrameOf, Inv;
    PageAt(pd, i, 0);
    if n > 0 {
      FramesOnce(pd, i, n - 1);
      var table := pd.tables[FrameOf(pd.dir[i])];
      if Flag(table[n - 1], PTE_P) {
        FramesMember(table, n - 1, FrameOf(table[n - 1]));
        PageAt(pd, i, n - 1);
        forall j | 0 <= j < n - 1 && Flag(table[j], PTE_P)
          ensures FrameOf(table[j]) != FrameOf(table[n - 1])
        {
          PageAt(pd, i, j);
          assert MapsTo(pd, 1024 * i + j, FrameOf(table[j])) && MapsTo(pd, 1024 * i + (n - 1), FrameOf(table[n - 1]));
        }
      } else {
        assert FramesIn(table, n) == FramesIn(table, n - 1);
      }
    }
  }

  lemma DistinctConcat(a: seq<nat>, b: seq<nat>)
    requires Distinct(a) && Distinct(b) && forall x :: x in a ==> x !in b
    ensures Distinct(a + b)
  {
    var s := a + b;
    forall i, j | 0 <= i < j < |s|
      ensures s[i] != s[j]
    {
      assert s[i] == if i < |a| then a[i] else b[i - |a|];
      assert s[j] == if j < |a| then a[j] else b[j - |a|];
      assert i < |a| ==> s[i] in a;
      assert j >= |a| ==> s[j] in b;
    }
  }

  /** If no frame is shared, each is freed once. */
  lemma {:induction false} FreedOnce(pd: Pd, n: nat)
    requires Inv(pd) && Unshared(pd) && n <= USER_SLOTS
    ensures Distinct(Freed(pd, n))
  {
    hide FramesIn, Flag, FrameOf, At;
    if n > 0 {
      FreedOnce(pd, n - 1);
      if pd.dir[n - 1] != 0 {
        var t := FrameOf(pd.dir[n - 1]);
        FramesOnce(pd, n - 1, 1024);
        var frames := FramesIn(pd.tables[t], 1024);
        forall x | x in Freed(pd, n - 1)
          ensures x !in frames && x != t
        {
          FreedBefore(pd, n - 1, x);
        }
        SlotFrames(pd, n - 1, t);
        DistinctConcat(Freed(pd, n - 1), frames);
        DistinctConcat(Freed(pd, n - 1) + frames, [t]);
      }
    }
  }

  lemma FreedBefore(pd: Pd, n: nat, x: nat)
    requires Inv(pd) && Unshared(pd) && n < USER_SLOTS && pd.dir[n] != 0 && x in Freed(pd, n)
    ensures FrameOf(pd.dir[n]) in pd.tables && |pd.tables[FrameOf(pd.dir[n])]| == 1024
    ensures x !in FramesIn(pd.tables[FrameOf(pd.dir[n])], 1024) && x != FrameOf(pd.dir[n])
  {
    hide FramesIn, Flag, FrameOf, At, Freed;
    FreedMember(pd, n, x);
    SlotFrames(pd, n, x);
  }
}
