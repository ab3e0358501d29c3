/** Eviction, page faults and memory mappings as the kernel runs them (src/vm, src/userprog). */
module Memories {
  import opened Bitmaps
  import opened MachineIntegers
  import opened Options
  import opened Sectors
  import opened Paging
  import Volumes

  predicate Unused(v: Vm, j: nat)
    requires j < |v.table|
  {
    v.table[j].key in v.ptes && v.table[j].key in v.pages && !v.ptes[v.table[j].key].accessed
  }

  function TimeOf(v: Vm, j: nat): nat
    requires j < |v.table|
  {
    if v.table[j].key in v.pages then v.pages[v.table[j].key].accessTime else 0
  }

  /** Among the first N entries of the frame table, B is the one that was not accessed since the last
      sweep and has the oldest time, the first of those; None if all were accessed. */
  ghost predicate Oldest(v: Vm, n: nat, b: Option<nat>)
    requires n <= |v.table|
  {
    && (b.None? ==> forall j :: 0 <= j < n ==> !Unused(v, j))
    && (b.Some? ==>
          && b.value < n && Unused(v, b.value)
          && (forall j :: 0 <= j < n && Unused(v, j) ==> TimeOf(v, b.value) <= TimeOf(v, j))
          && (forall j :: 0 <= j < b.value && Unused(v, j) ==> TimeOf(v, b.value) < TimeOf(v, j)))
  }

  /** No file changes its length, nor whether it may be written, nor its bytes if it may not. */
  ghost predicate SameShape(files: map<nat, File>, files': map<nat, File>) {
    && files'.Keys == files.Keys
    && (forall f :: f in files ==>
          |files'[f].bytes| == |files[f].bytes| && files'[f].denied == files[f].denied && (files[f].denied ==> files'[f] == files[f]))
  }

  /** Frames agree with files, and no part of a file is mapped and backs another page too: then memory
      is flat. */
  ghost predicate Unshared(v: Vm) {
    Coherent(v) && Exclusive(v)
  }

  /** What stays the same about a page wherever it goes. */
  ghost predicate SameNature(e: Spte, e': Spte) {
    SameBacking(e, e') && e'.writable == e.writable && Droppable(e') == Droppable(e)
  }

  ghost predicate SameNatures(v: Vm, w: Vm) {
    && |w.frames| == |v.frames| && |w.used| == |v.used|
    && (forall k :: k in v.pages && k in w.pages ==> SameNature(v.pages[k], w.pages[k]))
  }

  /** Byte P of file F is in a page of a mapping. */
  ghost predicate Covers(e: Spte, f: nat, p: nat) {
    e.mapping.Some? && e.file == f && e.ofs <= p < e.ofs + e.readBytes
  }

  ghost predicate Covered(pages: map<Key, Spte>, f: nat, p: nat) {
    exists k :: k in pages && Covers(pages[k], f, p)
  }

  /** Files change at most where they are mapped. */
  ghost predicate OnlyCovered(v: Vm, w: Vm) {
    forall f: nat, p: nat :: Covered(v.pages, f, p) || FileByte(w.files, f, p) == FileByte(v.files, f, p)
  }

  /** The pages stay, with what they contain if nothing is shared. */
  ghost predicate Kept(v: Vm, w: Vm) {
    && w.pages.Keys == v.pages.Keys && SameNatures(v, w) && OnlyCovered(v, w)
    && (Unshared(v) ==> Unshared(w) && SameImage(v, w))
  }

  /** And page K is added, with PAGE in it. */
  ghost predicate KeptBut(v: Vm, w: Vm, k: Key, page: Page) {
    && w.pages.Keys == v.pages.Keys + {k} && SameNatures(v, w) && OnlyCovered(v, w)
    && SameNature(NEW_ENTRY, w.pages[k]) && Visible(w, k) == page
    && (Unshared(v) ==> Unshared(w) && Image(w) == Image(v)[k := page])
  }

  /** The entry frame_table_pop_lru takes: the oldest of those not accessed, else the first. */
  ghost predicate Chosen(v: Vm, i: nat) {
    i < |v.table| && (Oldest(v, |v.table|, Some(i)) || (i == 0 && Oldest(v, |v.table|, None)))
  }

  /** The page chosen was not accessed since the last sweep if any was not, and among those none was accessed longer
      ago; those accessed as long ago come later in the table. If all were accessed it is the first in the table. */
  lemma EvictsOldest(v: Vm, i: nat, j: nat)
    requires Inv(v, {}) && Chosen(v, i) && j < |v.table|
    ensures var a, b := v.table[i].key, v.table[j].key;
      && a in v.ptes && a in v.pages && b in v.ptes && b in v.pages
      && (v.ptes[a].accessed ==> i == 0 && v.ptes[b].accessed)
      && (!v.ptes[a].accessed && !v.ptes[b].accessed ==>
            v.pages[a].accessTime < v.pages[b].accessTime || (v.pages[a].accessTime == v.pages[b].accessTime && i <= j))
  {
    hide Inv;
    ListedEntry(v, i);
    ListedEntry(v, j);
    assert Unused(v, i) <==> !v.ptes[v.table[i].key].accessed;
    assert Unused(v, j) <==> !v.ptes[v.table[j].key].accessed;
    assert TimeOf(v, j) == v.pages[v.table[j].key].accessTime;
  }

  /** The sweep stamps exactly the loaded pages that were accessed with the time, and clears their bits. */
  lemma SweepStamps(v: Vm, w: Vm, done: set<Key>, now: nat, k: Key)
    requires Aged(v, w, done, now) && k in v.pages && k in v.ptes
    ensures k in w.pages && k in w.ptes
    ensures w.pages[k].accessTime == if k in done && v.ptes[k].accessed then now else v.pages[k].accessTime
    ensures w.ptes[k].accessed == (v.ptes[k].accessed && k !in done) && w.ptes[k].dirty == v.ptes[k].dirty && w.ptes[k].frame == v.ptes[k].frame
  {
  }

  /** The page of entry I can give up its frame: its changes may be written to its file, or there is a free
      swap slot. */
  ghost predicate Evictable(v: Vm, i: nat) {
    && i < |v.table| && v.table[i].key in v.pages && v.table[i].key in v.ptes
    && var k := v.table[i].key;
    var e := v.pages[k];
    if Droppable(e) then !(e.mapping.Some? && v.ptes[k].dirty && e.file in v.files && v.files[e.file].denied)
    else exists j :: 0 <= j < |v.used| && !v.used[j]
  }

  /** When swap_evict_frame succeeds. */
  ghost predicate CanEvict(v: Vm) {
    exists i :: Chosen(v, i) && Evictable(v, i)
  }

  /** Evicting entry I changes no page. */
  ghost predicate LosesNothing(v: Vm, i: nat)
    requires i < |v.table| && v.table[i].key in v.pages && v.table[i].key in v.ptes
    requires v.pages[v.table[i].key].source == FileBacked ==> v.pages[v.table[i].key].readBytes <= 4096
  {
    Droppable(v.pages[v.table[i].key]) ==> Harmless(v, v.table[i].key)
  }

  lemma ChosenOnce(v: Vm, i: nat, j: nat)
    requires Chosen(v, i) && Chosen(v, j)
    ensures i == j
  {
    hide Unused, TimeOf;
  }

  /** The keys of the first N entries of the frame table. */
  ghost function KeysTo(table: seq<Fte>, n: nat): set<Key>
    requires n <= |table|
  {
    set j | 0 <= j < n :: table[j].key
  }

  lemma DistinctKeys(v: Vm, i: nat, j: nat)
    requires TableOk(v) && i < |v.table| && j < |v.table| && i != j
    ensures v.table[i].key != v.table[j].key
  {
    assert v.table[i] in v.table && v.table[j] in v.table;
  }

  class Memory {
    const slots: Bitmap
    var pages: map<Key, Spte>
    var ptes: map<Key, Pte>
    var table: seq<Fte>
    var frames: seq<Page>
    var pool: set<nat>
    var dev: seq<Sector>
    var files: map<nat, File>
    var maps: map<nat, Mapping>
    ghost var at: map<nat, Key>
    ghost var slotOf: map<nat, Key>

    ghost function V(): Vm
      requires slots.Valid()
      reads this, slots.bits
    {
      Vm(pages, ptes, table, frames, pool, slots.Bits(), dev, files, maps, at, slotOf)
    }

    /** swap_init and frame_table_init, with all frames free and no process yet. */
    constructor (frames: seq<Page>, dev: seq<Sector>, files: map<nat, File>)
      ensures Steady({}) && fresh(slots) && fresh(slots.bits) && slots.bitCnt == |dev| / 8
      ensures pages == map[] && ptes == map[] && maps == map[] && this.frames == frames && this.files == files
      ensures forall f: nat :: f in pool <==> f < |frames|
    {
      slots := new Bitmap(|dev| / 8);
      pages, ptes, table, maps, at, slotOf := map[], map[], [], map[], map[], map[];
      this.frames, this.dev, this.files := frames, dev, files;
      pool := (map f: nat | f < |frames| :: frames[f]).Keys;
    }

    /** write_to_block: the eight sectors of a slot. */
    method WriteToBlock(frame: Page, index: nat)
      requires 8 * index + 8 <= |dev|
      modifies `dev
      ensures |dev| == |old(dev)| && SlotPage(dev, index) == frame
      ensures forall j: nat :: j != index ==> SlotPage(dev, j) == SlotPage(old(dev), j)
    {
      for i := 0 to 8
        invariant |dev| == |old(dev)|
        invariant forall j :: 0 <= j < i ==> dev[8 * index + j] == frame[512 * j..512 * j + 512]
        invariant forall j :: 0 <= j < |dev| && (j < 8 * index || j >= 8 * index + i) ==> dev[j] == old(dev)[j]
      {
        var sector: Sector := frame[512 * i..512 * i + 512];
        dev := dev[8 * index + i := sector];
      }
      forall p | 0 <= p < 4096
        ensures SlotPage(dev, index)[p] == frame[p]
      {
        assert dev[8 * index + p / 512] == frame[512 * (p / 512)..512 * (p / 512) + 512];
      }
      forall j: nat | j != index
        ensures SlotPage(dev, j) == SlotPage(old(dev), j)
      {
        SlotEqual(old(dev), dev, j);
      }
    }

    /** read_from_block. */
    method ReadFromBlock(index: nat) returns (frame: Page)
      requires 8 * index + 8 <= |dev|
      ensures frame == SlotPage(dev, index)
    {
      var bytes: seq<byte> := [];
      for i := 0 to 8
        invariant |bytes| == 512 * i
        invariant forall p :: 0 <= p < 512 * i ==> bytes[p] == dev[8 * index + p / 512][p % 512]
      {
        bytes := bytes + dev[8 * index + i];
      }
      frame := bytes;
    }

    /** One pass of frame_table_pop_lru over the frame table.  Every listed page is loaded and belongs
        to a live process, so no entry is skipped. */
    method Sweep(now: nat) returns (best: Option<nat>)
      requires slots.Valid() && Inv(V(), {})
      modifies `pages, `ptes
      ensures Aged(old(V()), V(), KeysTo(table, |table|), now)
      ensures Oldest(old(V()), |table|, best)
    {
      hide Inv, Aged, Oldest;
      ghost var v := V();
      best := None;
      var i := 0;
      NoneSwept(v, now);
      while i < |table|
        invariant i <= |table| && table == v.table && Aged(v, V(), KeysTo(table, i), now)
        invariant Oldest(v, i, best)
      {
        ListedEntry(v, i);
        OldestStep(v, V(), i, best, now);
        var k := table[i].key;
        ghost var w := V();
        if ptes[k].accessed {
          ptes := ptes[k := ptes[k].(accessed := false)];
          pages := pages[k := pages[k].(accessTime := now)];
        } else if best.None? || pages[k].accessTime < pages[table[best.value].key].accessTime {
          best := Some(i);
        }
        SweptOne(v, w, V(), i, now);
        i := i + 1;
      }
    }

    /** frame_table_pop_lru: the page not accessed for longest; if all were accessed since the last
        sweep, a second sweep takes the first. */
    method PopLru(now: nat) returns (r: Option<Fte>, ghost i: nat)
      requires slots.Valid() && Inv(V(), {})
      modifies `pages, `ptes, `table
      ensures r.None? <==> old(table) == []
      ensures Aged(old(V()), V().(table := old(table)), KeysTo(old(table), |old(table)|), now)
      ensures r.None? ==> table == old(table)
      ensures r.Some? ==> i < |old(table)| && r.value == old(table)[i] && table == Removed(old(table), i)
      ensures r.Some? ==> Chosen(old(V()), i)
    {
      hide Inv, Aged, Oldest;
      ghost var v := V();
      i := 0;
      var best := Sweep(now);
      if best.None? {
        ghost var w := V();
        AgedInv(v, w, now);
        best := Sweep(now);
        SecondSweep(v, w, V(), best, now);
      }
      if best.None? {
        return None, 0;
      }
      OldestBound(v, best);
      r, i := Some(table[best.value]), best.value;
      table := Removed(table, best.value);
    }

    /** What every operation relies on and keeps. */
    ghost predicate Ok(loose: set<nat>)
      reads this, slots, slots.bits
    {
      slots.Valid() && Inv(V(), loose)
    }

    /** Beyond that, memory is flat. */
    ghost predicate Steady(loose: set<nat>)
      reads this, slots, slots.bits
    {
      Ok(loose) && Unshared(V())
    }

    /** The victim goes back to the end of the frame table. */
    method PutBack(fte: Fte, ghost v: Vm, ghost i: nat)
      requires slots.Valid() && Inv(v, {}) && i < |v.table| && fte == v.table[i]
      requires V() == v.(table := Removed(v.table, i))
      modifies `table
      ensures Ok({}) && Kept(v, V()) && SameImage(v, V())
    {
      hide Inv, Kept;
      table := table + [fte];
      RotatedInv(v, V(), i);
      RotatedRest(v, V(), i);
    }

    /** The victim leaves its frame without going to swap. */
    method Drop(fte: Fte, ghost v: Vm, ghost i: nat) returns (ok: bool)
      requires slots.Valid() && Inv(v, {}) && i < |v.table| && fte == v.table[i]
      requires V() == v.(table := Removed(v.table, i)) && fte.key in v.pages && Droppable(v.pages[fte.key])
      modifies this
      ensures ok ==> Ok({fte.frame}) && fte.key !in ptes
      ensures !ok ==> Ok({})
      ensures ok <==> Evictable(v, i)
      ensures fte.key in v.ptes && v.pages[fte.key].readBytes <= 4096
      ensures if ok then SameImage(v, V()) <==> Harmless(v, fte.key) else SameImage(v, V())
      ensures Kept(v, V()) && frames == old(frames) && pool == old(pool) && maps == old(maps)
      ensures ptes.Keys <= old(ptes.Keys) && SameShape(old(files), files)
    {
      hide Inv, Kept, EntryOk, Flushed, FrameAt, SameImage, Harmless;
      ListedEntry(v, i);
      DroppableEntry(v, i);
      var k := fte.key;
      var e := pages[k];
      if e.mapping.Some? && ptes[k].dirty {
        if files[e.file].denied {
          PutBack(fte, v, i);
          return false;
        }
        FlushedSize(files, e, FrameAt(frames, fte.frame));
        files := Flushed(files, e, FrameAt(frames, fte.frame));
      }
      ptes := ptes - {k};
      pages := pages[k := e.(loaded := false, source := FileBacked, slot := None)];
      at := at - {fte.frame};
      assert ToFile(v, V(), i);
      DroppedRest(v, V(), i);
      DroppedExact(v, V(), i);
      return true;
    }

    /** The first free swap slot, now marked. */
    method TakeSlot() returns (r: Option<nat>)
      requires slots.Valid()
      modifies slots.bits
      ensures r.Some? ==> r.value < |old(slots.Bits())| && !old(slots.Bits())[r.value]
      ensures slots.Bits() == if r.Some? then old(slots.Bits())[r.value := true] else old(slots.Bits())
      ensures r.None? ==> forall j :: 0 <= j < |old(slots.Bits())| ==> old(slots.Bits())[j]
    {
      ghost var used := slots.Bits();
      r := slots.ScanAndFlip(0, 1, false);
      if r.None? {
        forall j | 0 <= j < |used|
          ensures used[j]
        {
          assert !IsGroup(used, j, 1, false);
        }
      } else {
        assert IsGroup(used, r.value, 1, false);
        assert slots.Bits() == used[r.value := true];
      }
    }

    /** The victim is written to a free swap slot. */
    method SwapOut(fte: Fte, ghost v: Vm, ghost i: nat) returns (ok: bool)
      requires slots.Valid() && Inv(v, {}) && i < |v.table| && fte == v.table[i]
      requires V() == v.(table := Removed(v.table, i)) && fte.key in v.pages && !Droppable(v.pages[fte.key])
      modifies this, slots.bits
      ensures ok ==> Ok({fte.frame}) && fte.key !in ptes
      ensures !ok ==> Ok({})
      ensures ok <==> Evictable(v, i)
      ensures Kept(v, V()) && SameImage(v, V()) && frames == old(frames) && pool == old(pool) && maps == old(maps)
      ensures ptes.Keys <= old(ptes.Keys) && SameShape(old(files), files)
    {
      hide Inv, Kept, SlotPage, FrameAt, Bitmap.Bits, Removed, SameImage;
      ListedEntry(v, i);
      var k := fte.key;
      var index := TakeSlot();
      if index.None? {
        PutBack(fte, v, i);
        return false;
      }
      SlotRoom(v, index.value);
      WriteToBlock(FrameAt(frames, fte.frame), index.value);
      pages := pages[k := pages[k].(loaded := false, source := Swap, slot := Some(index.value))];
      ptes := ptes - {k};
      at, slotOf := at - {fte.frame}, slotOf[index.value := k];
      assert slots.Bits() == v.used[index.value := true];
      assert ToSwap(v, V(), i, index.value);
      SwappedRest(v, V(), i, index.value);
      return true;
    }

    /** swap_evict_frame: the chosen page gives up its frame; it says when it can, and when no page changes. */
    method Evict(now: nat) returns (r: Option<nat>, ghost i: nat)
      requires Ok({})
      modifies this, slots.bits
      ensures Ok(if r.Some? then {r.value} else {}) && Kept(old(V()), V())
      ensures frames == old(frames) && pool == old(pool) && maps == old(maps) && ptes.Keys <= old(ptes.Keys) && SameShape(old(files), files)
      ensures old(table) != [] ==> Chosen(old(V()), i)
      ensures r.Some? <==> old(table) != [] && Evictable(old(V()), i)
      ensures r.Some? <==> CanEvict(old(V()))
      ensures r.Some? ==> r.value == old(table)[i].frame && EntryFits(old(V()), i)
      ensures if r.Some? then SameImage(old(V()), V()) <==> LosesNothing(old(V()), i) else SameImage(old(V()), V())
    {
      hide Inv, Aged, Oldest, Kept, Chosen, SameImage, Evictable, Harmless;
      ghost var v := V();
      var fte;
      fte, i := PopLru(now);
      ghost var w := V().(table := v.table);
      AgedInv(v, w, now);
      AgedRest(v, w, now);
      if fte.None? {
        NoneChosen(v);
        return None, i;
      }
      AgedSame(v, w, i, now);
      ListedEntry(w, i);
      var k := fte.value.key;
      var ok;
      if Droppable(pages[k]) {
        ok := Drop(fte.value, w, i);
      } else {
        ok := SwapOut(fte.value, w, i);
      }
      KeptTrans(v, w, V());
      SameImageFrom(v, w, V());
      OnlyChosen(v, i);
      r := if ok then Some(fte.value.frame) else None;
    }

    /** palloc_get_page, or the frame of an evicted page.  Only the first is zeroed. */
    method ObtainFrame(now: nat) returns (r: Option<nat>, ghost i: nat)
      requires Ok({})
      modifies this, slots.bits
      ensures Ok(if r.Some? then {r.value} else {}) && Kept(old(V()), V()) && maps == old(maps) && ptes.Keys <= old(ptes.Keys)
      ensures SameShape(old(files), files)
      ensures r.Some? <==> old(pool) != {} || CanEvict(old(V()))
      ensures r.Some? && old(pool) != {} ==> FrameAt(frames, r.value) == ZeroPage()
      ensures r.Some? && old(pool) == {} ==>
        Chosen(old(V()), i) && r.value == old(table)[i].frame && FrameAt(frames, r.value) == FrameAt(old(frames), r.value)
    {
      hide Inv, Kept, SameImage, Evictable, Chosen, Harmless;
      i := 0;
      if pool != {} {
        var f :| f in pool;
        ghost var v := V();
        PooledFrame(v, f);
        pool, frames := pool - {f}, frames[f := ZeroPage()];
        TakenInv(v, V(), f);
        TakenRest(v, V(), f);
        return Some(f), 0;
      }
      r, i := Evict(now);
    }

    /** palloc_free_page. */
    method FreeFrame(f: nat)
      requires Ok({f})
      modifies `pool
      ensures Ok({}) && Kept(old(V()), V())
    {
      hide Inv, Kept;
      ghost var v := V();
      pool := pool + {f};
      FreedInv(v, V(), f);
      FreedRest(v, V(), f);
    }

    /** The page is brought into frame F from where it is, or added. */
    method Install(k: Key, f: nat)
      requires Ok({f}) && k !in ptes
      modifies this, slots.bits
      ensures Ok({}) && k in ptes && maps == old(maps) && files == old(files)
      ensures k in old(pages) ==> Kept(old(V()), V())
      ensures k !in old(pages) ==> KeptBut(old(V()), V(), k, FrameAt(old(frames), f))
    {
      hide Inv, Kept, KeptBut, FilePage, SlotPage, FrameAt;
      ghost var v := V();
      HandFrame(v, f);
      if k !in pages {
        pages := pages[k := NEW_ENTRY];
        ptes, table, at := ptes[k := Pte(f, NEW_ENTRY.writable, false, false)], table + [Fte(f, k)], at[f := k];
        FrameSelf(v.frames, f);
        GrownAll(v, V(), k, f);
      } else {
        UnloadedEntry(v, k);
        var e := pages[k];
        table, at := table + [Fte(f, k)], at[f := k];
        ptes := ptes[k := Pte(f, e.writable, false, false)];
        if e.source == FileBacked {
          frames := frames[f := FilePage(files, e)];
          pages := pages[k := e.(loaded := true)];
          FromFileAll(v, V(), k, f);
        } else {
          var bytes := ReadFromBlock(e.slot.value);
          frames := frames[f := bytes];
          slots.Set(e.slot.value, false);
          slotOf := slotOf - {e.slot.value};
          pages := pages[k := e.(loaded := true, slot := None)];
          FromSwapAll(v, V(), k, f);
        }
      }
    }

    /** page_fault.  FTEOK, SPTEOK and INSTALLOK say whether the kernel has memory for the frame table
        entry, a new page entry and a page table; a process whose fault fails is killed.  PAGE is what the
        frame had in it, and I the entry that gave it up, if the pool was empty. */
    method PageFault(proc: nat, addr: nat, esp: nat, user: bool, notPresent: bool, now: nat, fteOk: bool, spteOk: bool, installOk: bool)
      returns (ok: bool, ghost page: Page, ghost i: nat)
      requires Ok({}) && (notPresent <==> Key(proc, addr / 4096) !in ptes)
      modifies this, slots.bits
      ensures Ok({}) && maps == old(maps) && SameShape(old(files), files)
      ensures ok <==>
        && notPresent && (user || addr < PHYS_BASE) && fteOk && installOk
        && (Key(proc, addr / 4096) in old(pages) || (user && addr != 0 && GrowsStack(addr, esp) && spteOk))
        && (old(pool) != {} || CanEvict(old(V())))
      ensures ok ==> Key(proc, addr / 4096) in ptes
      ensures !ok || Key(proc, addr / 4096) in old(pages) ==> Kept(old(V()), V())
      ensures ok && Key(proc, addr / 4096) !in old(pages) ==> KeptBut(old(V()), V(), Key(proc, addr / 4096), page)
      ensures ok && old(pool) != {} ==> page == ZeroPage()
      ensures ok && old(pool) == {} ==> Chosen(old(V()), i) && page == FrameAt(old(frames), old(table)[i].frame)
      ensures ok && Key(proc, addr / 4096) !in old(pages) ==>
        (Visible(V(), Key(proc, addr / 4096)) == ZeroPage() <==>
         old(pool) != {} || FrameAt(old(frames), old(table)[i].frame) == ZeroPage())
    {
      hide Inv, Kept, KeptBut, GrowsStack, FrameAt, CanEvict, Chosen, ZeroPage;
      var k := Key(proc, addr / 4096);
      page, i := ZeroPage(), 0;
      KeptSelf(V());
      if !user && addr >= PHYS_BASE {
        return false, page, i;
      }
      if !notPresent {
        return false, page, i;
      }
      if k !in pages && (!user || addr == 0 || !GrowsStack(addr, esp)) {
        return false, page, i;
      }
      ghost var v := V();
      var kpage;
      kpage, i := ObtainFrame(now);
      if kpage.None? {
        return false, page, i;
      }
      var f := kpage.value;
      ghost var u := V();
      page := FrameAt(frames, f);
      KeptKeys(v, u);
      if !fteOk || (k !in pages && !spteOk) || !installOk {
        FreeFrame(f);
        KeptTrans(v, u, V());
        return false, page, i;
      }
      Install(k, f);
      if k in v.pages {
        KeptTrans(v, u, V());
      } else {
        KeptButTrans(v, u, V(), k, page);
        KeptButPage(v, V(), k, page);
      }
      return true, page, i;
    }

    /** frame_table_remove_by_kpage for a frame that is listed. */
    method RemoveByFrame(frame: nat, ghost k: Key) returns (ghost i: nat)
      requires slots.Valid() && TableOk(V()) && k in ptes && ptes[k].frame == frame && frame in at && at[frame] == k && FramesOk(V(), {})
      modifies `table
      ensures i < |old(table)| && old(table)[i] == Fte(frame, k) && table == Removed(old(table), i)
    {
      var n := 0;
      assert Fte(frame, k) in table;
      while table[n].frame != frame
        invariant n < |table| && table == old(table)
        invariant exists j :: n <= j < |table| && table[j] == Fte(frame, k)
        decreases |table| - n
      {
        n := n + 1;
      }
      assert table[n] in table;
      i := n;
      table := Removed(table, n);
    }

    /** memory_mapping_unmap for a loaded page: it is written back if dirty, and its frame freed. */
    method Unload(k: Key) returns (ghost i: nat)
      requires slots.Valid() && FramesOk(V(), {}) && TableOk(V()) && k in pages && k in ptes
      requires pages[k].file in files && pages[k].readBytes <= 4096 && pages[k].ofs + pages[k].readBytes <= |files[pages[k].file].bytes|
      modifies `ptes, `table, `pool, `at, `files
      ensures i < |old(table)| && old(table)[i] == Fte(old(ptes)[k].frame, k) && table == Removed(old(table), i)
      ensures ptes == old(ptes) - {k} && pool == old(pool) + {old(ptes)[k].frame} && at == old(at) - {old(ptes)[k].frame}
      ensures files == if old(ptes)[k].dirty && !old(files)[pages[k].file].denied
                       then Flushed(old(files), pages[k], FrameAt(frames, old(ptes)[k].frame)) else old(files)
    {
      hide Flushed, FrameAt, Removed, TableOk, FramesOk;
      ghost var v := V();
      LoadedFacts(v, k);
      var frame := ptes[k].frame;
      if ptes[k].dirty && !files[pages[k].file].denied {
        files := Flushed(files, pages[k], FrameAt(frames, frame));
      }
      TableAndFrames(v, V());
      i := RemoveByFrame(frame, k);
      pool := pool + {frame};
      at := at - {frame};
      ptes := ptes - {k};
    }

    /** What memory_mapping_unmap does for a page of the mapping.  Such a page is never in swap, so
        the branch for swapped-out pages is not taken. */
    method UnmapPage(k: Key, ghost id: nat) returns (ghost i: nat)
      requires slots.Valid() && Entries(V()) && FramesOk(V(), {}) && TableOk(V()) && k in pages && pages[k].mapping == Some(id)
      modifies `pages, `ptes, `table, `pool, `at, `files
      ensures Gone(old(V()), V(), k, i)
    {
      hide Flushed, FrameAt, Removed, TableOk, FramesOk, Entries, EntryOk, Bitmap.Bits;
      i := 0;
      EntryFacts(V(), k);
      if pages[k].loaded {
        i := Unload(k);
      } else {
        NothingRemoved(ptes, k);
      }
      pages := pages - {k};
    }

    /** memory_mapping_unmap, after munmap_file took the mapping off the process's list: the file gets
        the memory image of the mapping, unless it may not be written, and nothing else changes. */
    method Unmap(id: nat)
      requires Ok({}) && id in maps && maps[id].file in files
      modifies this
      ensures Ok({}) && maps == old(maps) - {id} && SameShape(old(files), files)
      ensures pages == old(pages) - set k | k in old(pages) && old(pages)[k].mapping == Some(id)
      ensures old(files)[old(maps)[id].file].denied ==> files == old(files)
      ensures old(Unshared(V())) ==> Unshared(V()) && Image(V()) == Image(old(V())) - (old(pages.Keys) - pages.Keys)
      ensures var f, image := old(maps)[id].file, MapImage(old(V()), old(maps)[id]);
        old(Unshared(V())) && !old(files)[f].denied ==>
          |image| <= |old(files)[f].bytes| && files == old(files)[f := old(files)[f].(bytes := image + old(files)[f].bytes[|image|..])]
    {
      hide Inv, Unshared, Unmapping, MapImage, Image, SameShape;
      var m := maps[id];
      ghost var v := V();
      maps := maps - {id};
      UnmapStart(v, V(), id, m);
      var n, ofs := 0, 0;
      while ofs < m.length
        invariant slots.Valid() && maps == v.maps - {id} && Unmapping(v, V(), id, m, n)
        invariant n <= PageCount(m.length) && ofs == if 4096 * n < m.length then 4096 * n else m.length
        decreases m.length - ofs
      {
        var k := Key(m.proc, m.base + n);
        UnmapNext(v, V(), id, m, n);
        ghost var w := V();
        ghost var i := UnmapPage(k, id);
        UnmapStep(v, w, V(), id, m, n, i);
        ofs := ofs + if m.length - ofs < 4096 then m.length - ofs else 4096;
        n := n + 1;
      }
      UnmapDone(v, V(), id, m, n);
    }

    /** The rollback loop of mmap_file: what the mapping added is taken out again. */
    method Rollback(id: nat, m: Mapping, ghost before: map<Key, Spte>, ghost n: nat)
      requires Added(before, pages, id, m, n) && n <= PageCount(m.length)
      requires forall k :: k in before ==> before[k].mapping != Some(id)
      modifies `pages
      ensures pages == before
    {
      hide MapEntry;
      var i, ofs := 0, 0;
      while ofs < m.length
        invariant i <= PageCount(m.length) && ofs == if 4096 * i < m.length then 4096 * i else m.length
        invariant forall k :: k in pages <==> k in before || (Among(m, n, k) && !Among(m, i, k))
        invariant forall k :: k in pages ==> pages[k] == if k in before then before[k] else MapEntry(id, m, Offset(k, m))
        decreases m.length - ofs
      {
        var k := Key(m.proc, m.base + i);
        MapEntryId(id, m, i);
        if k in pages && pages[k].mapping == Some(id) {
          pages := pages - {k};
        }
        ofs := ofs + if m.length - ofs < 4096 then m.length - ofs else 4096;
        i := i + 1;
      }
    }

    /** mmap_file.  FILE is what the descriptor refers to, STRUCTOK and ENTRYOK say whether the kernel
        has memory for the mapping and for the entry of each page; ID identifies the new mapping. */
    method MapFile(proc: nat, file: Option<nat>, addr: nat, id: nat, structOk: bool, entryOk: nat -> bool) returns (ok: bool)
      requires Ok({}) && id !in maps && (file.Some? ==> file.value in files)
      modifies `pages, `maps
      ensures ok <==> file.Some? && MayMap(old(pages), proc, |files[file.value].bytes|, addr, structOk, entryOk)
      ensures !ok ==> pages == old(pages) && maps == old(maps)
      ensures Ok({}) && (old(Coherent(V())) ==> Coherent(V()))
      ensures ok ==> var m := Mapping(file.value, proc, addr / 4096, |files[file.value].bytes|);
        && maps == old(maps)[id := m] && MapImage(V(), m) == files[file.value].bytes
        && Added(old(pages), pages, id, m, PageCount(m.length))
      ensures ok ==> forall j :: 0 <= j < |files[file.value].bytes| ==>
        FlatByte(Image(V()), Key(proc, (addr + j) / 4096), (addr + j) % 4096) == files[file.value].bytes[j]
      ensures forall k :: k in old(pages) ==> k in pages && Visible(V(), k) == old(Visible(V(), k))
      ensures ok ==> (Exclusive(V()) <==> old(Exclusive(V())) && Unbacked(old(pages), file.value, |files[file.value].bytes|))
    {
      hide Inv, Coherent, Exclusive, Visible, MapImage, MapEntry, Unbacked, Image, FlatByte;
      if addr == 0 || addr % 4096 != 0 || file.None? {
        return false;
      }
      var length := |files[file.value].bytes|;
      if length <= 0 || !structOk {
        return false;
      }
      var m := Mapping(file.value, proc, addr / 4096, length);
      ghost var v := V();
      var i, ofs := 0, 0;
      while ofs < length
        invariant i <= PageCount(length) && ofs == if 4096 * i < length then 4096 * i else length
        invariant Added(v.pages, pages, id, m, i) && V() == v.(pages := pages)
        invariant forall j: nat :: j < i ==> entryOk(j)
        decreases length - ofs
      {
        var k := Key(proc, m.base + i);
        if k in pages || !entryOk(i) {
          NotMapped(v.pages, pages, id, m, i, addr, structOk, entryOk);
          UnmappedId(v, id);
          Rollback(id, m, v.pages, i);
          return false;
        }
        var readBytes := if length - ofs < 4096 then length - ofs else 4096;
        ghost var was := pages;
        pages := pages[k := Spte(0, false, FileBacked, None, file.value, ofs, readBytes, 4096 - readBytes, true, Some(id))];
        MapEntryIs(id, m, i, pages[k]);
        AddedStep(v.pages, was, pages, id, m, i);
        ofs := ofs + readBytes;
        i := i + 1;
      }
      maps := maps[id := m];
      MappedAll(v, V(), id, m);
      MapAddresses(V(), m, addr);
      return true;
    }

    /** The program touches page K; if it is not loaded, it faults. */
    method Touch(k: Key, i: nat, now: nat, memory: bool) returns (ok: bool)
      requires Ok({}) && k in pages && i < 4096
      modifies this, slots.bits
      ensures Ok({}) && maps == old(maps) && SameShape(old(files), files) && Kept(old(V()), V()) && (ok ==> k in ptes)
      ensures ok <==> Reachable(old(V()), k, memory)
    {
      hide Inv, Kept, KeptBut, CanEvict, Chosen;
      if k in ptes {
        KeptSelf(V());
        return true;
      }
      ghost var page, victim;
      var addr := 4096 * k.page + i;
      assert addr / 4096 == k.page;
      ok, page, victim := PageFault(k.proc, addr, 0, true, true, now, memory, memory, memory);
    }

    /** One memory access of a program.  A write to a page that is not writable kills it, and so does a
        fault the kernel cannot serve. */
    method Access(op: Op, now: nat, memory: bool) returns (ok: bool, out: seq<byte>)
      requires Ok({}) && InMemory(Image(V()), op)
      modifies this, slots.bits
      ensures Ok({}) && maps == old(maps) && SameShape(old(files), files)
      ensures pages.Keys == old(pages.Keys) && SameNatures(old(V()), V()) && OnlyCovered(old(V()), V())
      ensures ok <==> Reachable(old(V()), op.k, memory) && Permitted(old(pages), op)
      ensures ok ==> op.k in ptes
      ensures old(Unshared(V())) ==> Unshared(V())
      ensures old(Unshared(V())) && ok ==> Image(V()) == Effect(old(Image(V())), op) && out == Output(old(Image(V())), op)
      ensures old(Unshared(V())) && !ok ==> Image(V()) == old(Image(V()))
    {
      hide Inv, Unshared, Visible, Image, SameNature, CanEvict, Covered, FileByte;
      ghost var v := V();
      InMemoryFacts(v, op);
      ok := Touch(op.k, op.i, now, memory);
      ghost var u := V();
      if Unshared(v) {
        ImageEqual(v, u);
      }
      out := [];
      if !ok {
        return;
      }
      NatureFacts(v, u, op.k);
      LoadedByte(u, op.k, op.i);
      match op
      case Load(k, i) =>
        out := [frames[ptes[k].frame][i]];
        ptes := ptes[k := ptes[k].(accessed := true)];
        ReadAll(u, V(), k);
      case Store(k, i, b) =>
        if !ptes[k].writable {
          return false, [];
        }
        var frame := ptes[k].frame;
        var bytes: Page := frames[frame][i := b];
        frames := frames[frame := bytes];
        ptes := ptes[k := ptes[k].(accessed := true, dirty := true)];
        StoredAll(u, V(), k, i, b);
    }

    /** Any number of accesses by any processes, with all the faults and evictions they cause, read and
        write flat memory; with room for every page, none fails. */
    method Run(ops: seq<Op>, now: nat, memory: nat -> bool) returns (done: nat, out: seq<byte>)
      requires Steady({}) && forall j :: 0 <= j < |ops| ==> InMemory(Image(V()), ops[j])
      modifies this, slots.bits
      ensures Steady({}) && maps == old(maps) && SameShape(old(files), files) && done <= |ops|
      ensures Image(V()) == After(old(Image(V())), ops[..done]) && out == Outputs(old(Image(V())), ops[..done])
      ensures Roomy(old(V())) && (forall j: nat :: j < |ops| ==> memory(j)) && AllPermitted(old(pages), ops) ==> done == |ops|
    {
      hide Inv, Unshared, Visible, Image, Effect, Output, Roomy, SameNature, Reachable, Permitted;
      ghost var v := V();
      ghost var image := Image(v);
      done, out := 0, [];
      var ok := true;
      NaturesSelf(v);
      while done < |ops| && ok
        invariant Steady({}) && maps == old(maps) && SameShape(old(files), files) && done <= |ops|
        invariant pages.Keys == v.pages.Keys && SameNatures(v, V())
        invariant Image(V()) == After(image, ops[..done]) && out == Outputs(image, ops[..done])
        invariant !ok ==> done < |ops| && !(Roomy(v) && memory(done) && Permitted(v.pages, ops[done]))
        decreases |ops| - done, ok
      {
        StillIn(image, ops[..done], ops[done]);
        PlayedOne(image, ops, done);
        var got;
        ghost var u := V();
        AccessServed(v, u, ops[done], memory(done));
        ok, got := Access(ops[done], now + done, memory(done));
        NaturesTrans(v, u, V());
        if ok {
          out := out + got;
          done := done + 1;
        }
      }
    }

    /** A file is mapped, programs run, and the mapping is removed: the file then has what the accesses
        left in the memory image of the mapping, which started out as the file. */
    method Session(proc: nat, file: nat, addr: nat, id: nat, ops: seq<Op>, now: nat, memory: nat -> bool)
      returns (done: nat, ghost start: map<Key, seq<byte>>)
      requires Steady({}) && id !in maps && file in files && !files[file].denied
      requires Unbacked(pages, file, |files[file].bytes|) && MayMap(pages, proc, |files[file].bytes|, addr, true, j => true)
      requires var m := Mapping(file, proc, addr / 4096, |files[file].bytes|);
        forall j :: 0 <= j < |ops| ==> InMemory(Image(V()), ops[j]) || WithinMapping(m, ops[j])
      modifies this, slots.bits
      ensures var m := Mapping(file, proc, addr / 4096, |old(files)[file].bytes|);
        && FlatImage(start, m) == old(files)[file].bytes
        && (forall k :: k in old(Image(V())) ==> k in start && start[k] == old(Image(V()))[k])
        && done <= |ops| && file in files && files[file].bytes == FlatImage(After(start, ops[..done]), m)
      ensures Steady({}) && maps == old(maps)
      ensures Roomy(old(V())) && (forall j: nat :: j < |ops| ==> memory(j)) && AllPermitted(old(pages), ops) ==> done == |ops|
    {
      hide Inv, Coherent, Exclusive, Visible, Image, MapImage, FlatImage, MayMap, Unbacked, Roomy, Permitted, Added;
      ghost var v := V();
      ghost var m := Mapping(file, proc, addr / 4096, |files[file].bytes|);
      var mapped := MapFile(proc, Some(file), addr, id, true, j => true);
      start := Image(V());
      ghost var w := V();
      ImageOfMap(w, m);
      forall j | 0 <= j < |ops|
        ensures InMemory(start, ops[j])
      {
        InMapped(v, w, id, m, ops[j]);
      }
      KeptImage(v, w);
      MappedRoomy(v, w, id, m, ops);
      var out;
      done, out := Run(ops, now, memory);
      ghost var u := V();
      ImageOfMap(u, m);
      NoTail(MapImage(u, m), files[file].bytes);
      Unmap(id);
    }

    /** sup_page_table_add_file, as load_segment uses it: a page of an executable, to be read in when it
        is first touched. */
    method AddFile(k: Key, file: nat, ofs: nat, readBytes: nat, zeroBytes: nat, writable: bool, memory: bool) returns (ok: bool)
      requires Ok({}) && file in files && ofs + readBytes <= |files[file].bytes| && readBytes + zeroBytes == 4096
      modifies `pages
      ensures ok <==> k in old(pages) || memory
      ensures k in old(pages) || !ok ==> pages == old(pages)
      ensures Ok({}) && (old(Coherent(V())) ==> Coherent(V()))
      ensures ok && k !in old(pages) ==>
        Image(V()) == Image(old(V()))[k := files[file].bytes[ofs..ofs + readBytes] + seq(zeroBytes, _ => 0)]
      ensures Exclusive(V()) <==> old(Exclusive(V())) && (k in old(pages) || !ok || Unmapped(old(pages), file, ofs, readBytes))
    {
      hide Inv, Coherent, Exclusive, Visible, Unmapped;
      if k in pages || !memory {
        return k in pages;
      }
      ghost var v := V();
      var e := Spte(0, false, FileBacked, None, file, ofs, readBytes, zeroBytes, writable, None);
      pages := pages[k := e];
      LazyInv(v, V(), k, e);
      if Coherent(v) {
        LazyCoherent(v, V(), k, e);
      }
      LazyExclusive(v, V(), k, e);
      LazyImage(v, V(), k, e);
      LazyPage(v, k, e);
      return true;
    }
  }

  lemma NoneSwept(v: Vm, now: nat)
    ensures Aged(v, v, KeysTo(v.table, 0), now) && Oldest(v, 0, None)
  {
  }

  lemma ListedEntry(v: Vm, i: nat)
    requires Inv(v, {}) && i < |v.table|
    ensures v.table[i].key in v.ptes && v.table[i].key in v.pages && v.ptes[v.table[i].key].frame == v.table[i].frame
  {
    hide Entries, SlotsOk, MapsOk;
    assert v.table[i] in v.table;
  }

  lemma KeysStep(v: Vm, i: nat)
    requires Inv(v, {}) && i < |v.table|
    ensures KeysTo(v.table, i + 1) == KeysTo(v.table, i) + {v.table[i].key} && v.table[i].key !in KeysTo(v.table, i)
  {
    hide Entries, FramesOk, SlotsOk, MapsOk;
    forall j | 0 <= j < i
      ensures v.table[j].key != v.table[i].key
    {
      DistinctKeys(v, i, j);
    }
  }

  /** Looking at entry I ages its page. */
  lemma SweptOne(v: Vm, w: Vm, w': Vm, i: nat, now: nat)
    requires Inv(v, {}) && i < |v.table| && Aged(v, w, KeysTo(v.table, i), now)
    requires v.table[i].key in w.ptes && v.table[i].key in w.pages
    requires var k := v.table[i].key;
      if w.ptes[k].accessed then
        w' == w.(ptes := w.ptes[k := w.ptes[k].(accessed := false)], pages := w.pages[k := w.pages[k].(accessTime := now)])
      else w' == w
    ensures Aged(v, w', KeysTo(v.table, i + 1), now)
  {
    hide Inv, KeysTo;
    KeysStep(v, i);
  }

  lemma OldestStep(v: Vm, w: Vm, i: nat, best: Option<nat>, now: nat)
    requires Inv(v, {}) && i < |v.table| && Aged(v, w, KeysTo(v.table, i), now) && Oldest(v, i, best)
    ensures v.table[i].key in w.ptes && v.table[i].key in w.pages && w.ptes[v.table[i].key] == v.ptes[v.table[i].key]
    ensures best.Some? ==> best.value < |v.table| && v.table[best.value].key in w.pages
    ensures w.ptes[v.table[i].key].accessed ==> Oldest(v, i + 1, best)
    ensures !w.ptes[v.table[i].key].accessed ==>
      Oldest(v, i + 1, if best.None? || w.pages[v.table[i].key].accessTime < w.pages[v.table[best.value].key].accessTime then Some(i) else best)
  {
    hide Inv, KeysTo;
    KeysStep(v, i);
    ListedEntry(v, i);
    assert best.Some? ==> Unused(v, best.value);
  }

  lemma SlotEqual(dev: seq<Sector>, dev': seq<Sector>, j: nat)
    requires |dev'| == |dev| && forall i :: 8 * j <= i < 8 * j + 8 && i < |dev| ==> dev'[i] == dev[i]
    ensures SlotPage(dev', j) == SlotPage(dev, j)
  {
    forall p | 0 <= p < 4096
      ensures SlotPage(dev', j)[p] == SlotPage(dev, j)[p]
    {
      assert 8 * j <= 8 * j + p / 512 < 8 * j + 8;
    }
  }

  lemma AgedInv(v: Vm, w: Vm, now: nat)
    requires Inv(v, {}) && Aged(v, w, KeysTo(v.table, |v.table|), now)
    ensures Inv(w, {})
  {
    hide Inv, Aged, Similar;
    AgedSimilar(v, w, KeysTo(v.table, |v.table|), now);
    SimilarInv(v, w, {});
  }

  lemma AgedRest(v: Vm, w: Vm, now: nat)
    requires Aged(v, w, KeysTo(v.table, |v.table|), now)
    ensures Kept(v, w) && SameImage(v, w) && w.files == v.files && w.used == v.used && w.table == v.table
    ensures w.ptes.Keys == v.ptes.Keys
  {
    hide Aged, Coherent, Exclusive, Visible;
    AgedSimilar(v, w, KeysTo(v.table, |v.table|), now);
    if Unshared(v) {
      SimilarCoherent(v, w);
      SimilarExclusive(v, w);
    }
    forall k | k in v.pages
      ensures Visible(w, k) == Visible(v, k)
    {
      SimilarContents(v, w, k);
    }
  }

  lemma SweptAll(v: Vm, w: Vm, now: nat)
    requires Inv(v, {}) && Aged(v, w, KeysTo(v.table, |v.table|), now) && Oldest(v, |v.table|, None)
    ensures forall j :: 0 <= j < |v.table| ==> w.table == v.table && Unused(w, j) && TimeOf(w, j) == now
  {
    hide Inv;
    forall j | 0 <= j < |v.table|
      ensures Unused(w, j) && TimeOf(w, j) == now
    {
      ListedEntry(v, j);
      assert v.table[j].key in KeysTo(v.table, |v.table|);
      assert !Unused(v, j);
    }
  }

  lemma SweptIdle(w: Vm, u: Vm, now: nat)
    requires Inv(w, {}) && Aged(w, u, KeysTo(w.table, |w.table|), now) && forall j :: 0 <= j < |w.table| ==> Unused(w, j)
    ensures u == w
  {
    hide Entries, FramesOk, SlotsOk, MapsOk, KeysTo;
    forall k | k in w.ptes
      ensures !w.ptes[k].accessed
    {
      var j :| 0 <= j < |w.table| && w.table[j] == Fte(w.ptes[k].frame, k);
      assert Unused(w, j);
    }
    assert u.ptes == w.ptes;
    assert u.pages == w.pages;
  }

  /** If every page was accessed, the second sweep finds them all aged alike and takes the first. */
  lemma SecondSweep(v: Vm, w: Vm, u: Vm, best: Option<nat>, now: nat)
    requires Inv(v, {}) && Aged(v, w, KeysTo(v.table, |v.table|), now) && Oldest(v, |v.table|, None)
    requires Aged(w, u, KeysTo(w.table, |w.table|), now) && Oldest(w, |w.table|, best)
    ensures Aged(v, u, KeysTo(v.table, |v.table|), now) && best == if v.table == [] then None else Some(0)
  {
    hide Inv, Aged, KeysTo, Unused, TimeOf;
    AgedInv(v, w, now);
    AgedTable(v, w, KeysTo(v.table, |v.table|), now);
    SweptAll(v, w, now);
    SweptIdle(w, u, now);
    if v.table != [] {
      assert Unused(w, 0) && TimeOf(w, 0) == now;
      assert best.Some? ==> TimeOf(w, best.value) == now;
    }
  }

  lemma AgedTable(v: Vm, w: Vm, done: set<Key>, now: nat)
    requires Aged(v, w, done, now)
    ensures w.table == v.table
  {
  }

  lemma OldestBound(v: Vm, b: Option<nat>)
    requires Oldest(v, |v.table|, b) || (b == Some(0) && v.table != [])
    ensures b.Some? ==> b.value < |v.table|
  {
  }

  lemma RotatedTable(v: Vm, w: Vm, i: nat)
    requires TableOk(v) && i < |v.table| && w == v.(table := Removed(v.table, i) + [v.table[i]])
    ensures TableOk(w)
  {
    RemovedMembers(v.table, i);
    assert forall e :: e in w.table <==> e in v.table;
  }

  lemma RotatedInv(v: Vm, w: Vm, i: nat)
    requires Inv(v, {}) && i < |v.table| && w == v.(table := Removed(v.table, i) + [v.table[i]])
    ensures Inv(w, {})
  {
    hide TableOk, Entries, MapsOk, SlotsOk, FramesOk;
    RotatedTable(v, w, i);
    MapsFrame(v, w);
    TableAside(v, w);
  }

  /** The rest of the invariant does not look at the frame table. */
  lemma TableAside(v: Vm, w: Vm)
    requires Entries(v) && FramesOk(v, {}) && SlotsOk(v) && w == v.(table := w.table)
    ensures Entries(w) && FramesOk(w, {}) && SlotsOk(w)
  {
  }

  lemma RotatedRest(v: Vm, w: Vm, i: nat)
    requires i < |v.table| && w == v.(table := Removed(v.table, i) + [v.table[i]])
    ensures Kept(v, w) && SameImage(v, w)
  {
    hide FilePage, SlotPage, FrameAt;
  }

  lemma DroppableEntry(v: Vm, i: nat)
    requires Inv(v, {}) && i < |v.table| && v.table[i].key in v.pages && v.table[i].key in v.ptes && Droppable(v.pages[v.table[i].key])
    ensures var e := v.pages[v.table[i].key];
      && EntryOk(v.files, e) && e.file in v.files && e.readBytes <= 4096 && e.ofs + e.readBytes <= |v.files[e.file].bytes|
      && (v.ptes[v.table[i].key].dirty ==> e.mapping.Some?)
  {
    hide TableOk, SlotsOk, MapsOk;
  }

  lemma ToFileKeys(v: Vm, w: Vm, i: nat)
    requires ToFile(v, w, i)
    ensures w.pages.Keys == v.pages.Keys && SameNatures(v, w) && OnlyCovered(v, w)
  {
    hide Flushed, FrameAt, EntryOk;
    ToFileCovered(v, w, i);
  }

  /** A write-back changes the file where the page is mapped. */
  lemma ToFileCovered(v: Vm, w: Vm, i: nat)
    requires ToFile(v, w, i)
    ensures OnlyCovered(v, w)
  {
    hide FrameAt, FileByte;
    var k := v.table[i].key;
    var e := v.pages[k];
    if v.ptes[k].dirty {
      forall f: nat, p: nat | !Covered(v.pages, f, p)
        ensures FileByte(w.files, f, p) == FileByte(v.files, f, p)
      {
        assert !Covers(e, f, p);
        WrittenByte(v.files, e.file, e.ofs, FrameAt(v.frames, v.ptes[k].frame)[..e.readBytes], f, p);
      }
    }
  }

  lemma ToSwapKeys(v: Vm, w: Vm, i: nat, s: nat)
    requires ToSwap(v, w, i, s)
    ensures w.pages.Keys == v.pages.Keys && SameNatures(v, w) && OnlyCovered(v, w)
  {
    hide SlotPage, FrameAt;
  }

  lemma DroppedExact(v: Vm, w: Vm, i: nat)
    requires Inv(v, {}) && ToFile(v, w, i)
    ensures v.pages[v.table[i].key].readBytes <= 4096
    ensures SameImage(v, w) <==> Harmless(v, v.table[i].key)
  {
    hide FramesOk, TableOk, SlotsOk, MapsOk, SameImage, Harmless;
    ToFileExact(v, w, i);
  }

  lemma DroppedRest(v: Vm, w: Vm, i: nat)
    requires Inv(v, {}) && ToFile(v, w, i)
    ensures Inv(w, {v.table[i].frame}) && Kept(v, w)
  {
    hide FramesOk, TableOk, SlotsOk, MapsOk, Entries, ToFile, Coherent, Exclusive, Visible;
    ToFileInv(v, w, i);
    ToFileKeys(v, w, i);
    if Unshared(v) {
      ToFileCoherent(v, w, i);
      ToFileExclusive(v, w, i);
      ToFileContents(v, w, i);
    }
  }

  lemma SwappedRest(v: Vm, w: Vm, i: nat, s: nat)
    requires Inv(v, {}) && ToSwap(v, w, i, s)
    ensures Inv(w, {v.table[i].frame}) && Kept(v, w) && SameImage(v, w)
  {
    hide FramesOk, TableOk, SlotsOk, MapsOk, Entries, ToSwap, Coherent, Exclusive, Visible;
    ToSwapInv(v, w, i, s);
    ToSwapKeys(v, w, i, s);
    ToSwapContents(v, w, i, s);
    if Unshared(v) {
      ToSwapCoherent(v, w, i, s);
      ToSwapExclusive(v, w, i, s);
    }
  }

  lemma SlotRoom(v: Vm, s: nat)
    requires Inv(v, {}) && s < |v.used|
    ensures 8 * s + 8 <= |v.dev|
  {
    hide Entries, FramesOk, TableOk, MapsOk;
  }

  lemma SameImageFrom(v: Vm, w: Vm, u: Vm)
    requires SameImage(v, w)
    ensures SameImage(v, u) <==> SameImage(w, u)
  {
    hide Visible;
  }

  ghost predicate EntryFits(v: Vm, i: nat) {
    && i < |v.table| && v.table[i].key in v.pages && v.table[i].key in v.ptes
    && (v.pages[v.table[i].key].source == FileBacked ==> v.pages[v.table[i].key].readBytes <= 4096)
  }

  lemma NoneChosen(v: Vm)
    requires v.table == []
    ensures !CanEvict(v)
  {
  }

  lemma OnlyChosen(v: Vm, i: nat)
    requires Chosen(v, i)
    ensures CanEvict(v) <==> Evictable(v, i)
  {
    hide Chosen, Evictable;
    if CanEvict(v) {
      var j :| Chosen(v, j) && Evictable(v, j);
      ChosenOnce(v, i, j);
    }
  }

  /** Aging decides nothing about the eviction. */
  lemma AgedSame(v: Vm, w: Vm, i: nat, now: nat)
    requires Inv(v, {}) && Aged(v, w, KeysTo(v.table, |v.table|), now) && i < |v.table|
    ensures EntryFits(v, i) && EntryFits(w, i) && (Evictable(v, i) <==> Evictable(w, i)) && (LosesNothing(v, i) <==> LosesNothing(w, i))
    ensures Droppable(v.pages[v.table[i].key]) == Droppable(w.pages[v.table[i].key])
  {
    hide FramesOk, TableOk, SlotsOk, MapsOk, Aged, FilePage, FrameAt, KeysTo;
    AgedSimilar(v, w, KeysTo(v.table, |v.table|), now);
    ListedEntry(v, i);
    var k := v.table[i].key;
    FilePageSame(v.files, v.pages[k], w.pages[k]);
    assert forall q :: q in v.pages && v.pages[k].readBytes <= 4096 ==> (Undisturbed(v, k, q) <==> Undisturbed(w, k, q));
  }

  lemma KeptSelf(v: Vm)
    ensures Kept(v, v)
  {
  }

  lemma KeptKeys(v: Vm, w: Vm)
    requires Kept(v, w)
    ensures w.pages.Keys == v.pages.Keys
  {
  }

  lemma KeptTrans(v: Vm, w: Vm, u: Vm)
    requires Kept(v, w) && Kept(w, u)
    ensures Kept(v, u)
  {
    hide Visible, Unshared, Covered, SameNature, FileByte;
    CoveredSame(v, w);
    NaturesTrans(v, w, u);
  }

  /** What is mapped does not change with where the pages are. */
  lemma CoveredSame(v: Vm, w: Vm)
    requires w.pages.Keys == v.pages.Keys && SameNatures(v, w)
    ensures forall f: nat, p: nat :: Covered(w.pages, f, p) <==> Covered(v.pages, f, p)
  {
    forall f: nat, p: nat
      ensures Covered(w.pages, f, p) <==> Covered(v.pages, f, p)
    {
      assert forall k :: k in v.pages ==> SameNature(v.pages[k], w.pages[k]) && (Covers(w.pages[k], f, p) <==> Covers(v.pages[k], f, p));
    }
  }

  lemma KeptButPage(v: Vm, w: Vm, k: Key, page: Page)
    requires KeptBut(v, w, k, page)
    ensures w.pages.Keys == v.pages.Keys + {k} && Visible(w, k) == page
  {
  }

  lemma KeptButTrans(v: Vm, w: Vm, u: Vm, k: Key, page: Page)
    requires Kept(v, w) && KeptBut(w, u, k, page)
    ensures KeptBut(v, u, k, page)
  {
    hide Image, Unshared, SameImage, Covered, FileByte, Visible, SameNature;
    CoveredSame(v, w);
    NaturesMore(v, w, u);
    if Unshared(v) {
      ImageEqual(v, w);
    }
  }

  const PHYS_BASE: nat := 0xc000_0000

  /** check_stack_should_grow; the subtraction wraps around. */
  predicate GrowsStack(addr: nat, esp: nat) {
    addr < PHYS_BASE && addr >= 0x0804_8000 && addr >= if esp < 32 then esp + 0x1_0000_0000 - 32 else esp - 32
  }

  /** A stack grows for an access up to 32 bytes below its pointer, as far down as the program and up to the kernel, and
      for no other; so both PUSH and PUSHA make it grow. */
  lemma StackGrowth(addr: nat, esp: nat)
    requires esp < 0x1_0000_0000
    ensures GrowsStack(addr, esp) <==> esp >= 32 && esp <= addr + 32 && 0x0804_8000 <= addr < PHYS_BASE
    ensures 0x0804_8020 <= esp <= PHYS_BASE ==> GrowsStack(esp - 4, esp) && GrowsStack(esp - 32, esp) && !GrowsStack(esp - 33, esp)
  {
  }

  lemma PooledFrame(v: Vm, f: nat)
    requires Inv(v, {}) && f in v.pool
    ensures f < |v.frames|
  {
    hide Entries, TableOk, SlotsOk, MapsOk;
  }

  lemma HandFrame(v: Vm, f: nat)
    requires Inv(v, {f})
    ensures f < |v.frames|
  {
    hide Entries, TableOk, SlotsOk, MapsOk;
  }

  lemma FrameSelf(frames: seq<Page>, f: nat)
    requires f < |frames|
    ensures frames[f := FrameAt(frames, f)] == frames
  {
  }

  lemma TakenInv(v: Vm, w: Vm, f: nat)
    requires Inv(v, {}) && f in v.pool && f < |v.frames| && w == v.(pool := v.pool - {f}, frames := v.frames[f := ZeroPage()])
    ensures Inv(w, {f})
  {
    hide MapsOk, SlotsOk, TableOk, ZeroPage;
    MapsFrame(v, w);
    SlotsAside(v, w);
    TableSame(v, w);
  }

  lemma SlotsAside(v: Vm, w: Vm)
    requires SlotsOk(v) && w.pages == v.pages && w.used == v.used && w.dev == v.dev && w.slotOf == v.slotOf
    ensures SlotsOk(w)
  {
  }

  lemma TableSame(v: Vm, w: Vm)
    requires TableOk(v) && w.table == v.table && w.ptes == v.ptes
    ensures TableOk(w)
  {
  }

  lemma TakenRest(v: Vm, w: Vm, f: nat)
    requires Inv(v, {}) && f in v.pool && f < |v.frames| && w == v.(pool := v.pool - {f}, frames := v.frames[f := ZeroPage()])
    ensures Kept(v, w) && FrameAt(w.frames, f) == ZeroPage()
  {
    hide FilePage, SlotPage, ZeroPage, Entries, TableOk, SlotsOk, MapsOk;
    forall q | q in v.ptes
      ensures v.ptes[q].frame != f && FrameAt(w.frames, v.ptes[q].frame) == FrameAt(v.frames, v.ptes[q].frame)
    {
    }
  }

  lemma FreedInv(v: Vm, w: Vm, f: nat)
    requires Inv(v, {f}) && w == v.(pool := v.pool + {f})
    ensures Inv(w, {})
  {
    hide MapsOk, SlotsOk, TableOk, Entries;
    MapsFrame(v, w);
    SlotsAside(v, w);
    TableSame(v, w);
    EntriesSame(v, w);
  }

  lemma EntriesSame(v: Vm, w: Vm)
    requires Entries(v) && w.pages == v.pages && w.ptes.Keys == v.ptes.Keys && w.files == v.files
    ensures Entries(w)
  {
  }

  lemma FreedRest(v: Vm, w: Vm, f: nat)
    requires w == v.(pool := v.pool + {f})
    ensures Kept(v, w)
  {
    hide FilePage, SlotPage, FrameAt;
  }

  lemma GrownKeys(v: Vm, w: Vm, k: Key, f: nat)
    requires Grown(v, w, k, f)
    ensures w.pages.Keys == v.pages.Keys + {k} && SameNatures(v, w) && OnlyCovered(v, w)
    ensures w.pages[k] == NEW_ENTRY && Visible(w, k) == FrameAt(v.frames, f)
  {
  }

  lemma FromFileKeys(v: Vm, w: Vm, k: Key, f: nat)
    requires FromFile(v, w, k, f)
    ensures w.pages.Keys == v.pages.Keys && SameNatures(v, w) && OnlyCovered(v, w)
  {
  }

  lemma FromSwapKeys(v: Vm, w: Vm, k: Key, f: nat)
    requires FromSwap(v, w, k, f)
    ensures w.pages.Keys == v.pages.Keys && SameNatures(v, w) && OnlyCovered(v, w)
  {
  }

  lemma GrownAll(v: Vm, w: Vm, k: Key, f: nat)
    requires Inv(v, {f}) && Grown(v, w, k, f)
    ensures Inv(w, {}) && KeptBut(v, w, k, FrameAt(v.frames, f))
  {
    hide FramesOk, TableOk, SlotsOk, MapsOk, Entries, Coherent, Exclusive, Grown, Image, Visible, FrameAt;
    GrownInv(v, w, k, f);
    GrownKeys(v, w, k, f);
    if Unshared(v) {
      GrownContents(v, w, k, f);
    }
  }

  lemma FromFileAll(v: Vm, w: Vm, k: Key, f: nat)
    requires Inv(v, {f}) && FromFile(v, w, k, f)
    ensures Inv(w, {}) && Kept(v, w)
  {
    hide FramesOk, TableOk, SlotsOk, MapsOk, Entries, Coherent, Exclusive, FromFile, Visible;
    FromFileInv(v, w, k, f);
    FromFileKeys(v, w, k, f);
    if Unshared(v) {
      FromFileContents(v, w, k, f);
    }
  }

  lemma FromSwapAll(v: Vm, w: Vm, k: Key, f: nat)
    requires Inv(v, {f}) && FromSwap(v, w, k, f)
    ensures Inv(w, {}) && Kept(v, w)
  {
    hide FramesOk, TableOk, SlotsOk, MapsOk, Entries, Coherent, Exclusive, FromSwap, Visible;
    FromSwapInv(v, w, k, f);
    FromSwapKeys(v, w, k, f);
    if Unshared(v) {
      FromSwapContents(v, w, k, f);
    }
  }

  /** An unloaded page is in its file or in a marked slot. */
  lemma UnloadedEntry(v: Vm, k: Key)
    requires Inv(v, {}) || exists f :: Inv(v, {f})
    requires k in v.pages && k !in v.ptes
    ensures v.pages[k].source == FileBacked ==> v.pages[k].slot.None?
    ensures v.pages[k].source != FileBacked ==> v.pages[k].source == Swap && v.pages[k].slot.Some?
    ensures v.pages[k].slot.Some? ==> v.pages[k].slot.value < |v.used| && 8 * v.pages[k].slot.value + 8 <= |v.dev|
  {
    hide FramesOk, TableOk, MapsOk;
  }

  lemma EntryFacts(v: Vm, k: Key)
    requires Entries(v) && k in v.pages && v.pages[k].mapping.Some?
    ensures var e := v.pages[k];
      && EntryOk(v.files, e) && (e.loaded <==> k in v.ptes)
      && e.file in v.files && e.readBytes <= 4096 && e.ofs + e.readBytes <= |v.files[e.file].bytes|
  {
  }

  lemma LoadedFacts(v: Vm, k: Key)
    requires FramesOk(v, {}) && k in v.ptes
    ensures v.ptes[k].frame in v.at && v.at[v.ptes[k].frame] == k
  {
  }

  lemma TableAndFrames(v: Vm, w: Vm)
    requires TableOk(v) && FramesOk(v, {}) && w == v.(files := w.files)
    ensures TableOk(w) && FramesOk(w, {})
  {
  }

  lemma NothingRemoved(ptes: map<Key, Pte>, k: Key)
    requires k !in ptes
    ensures ptes - {k} == ptes
  {
  }

  // ----- unmapping ---------------------------------------------------------------------------------------------

  /** Byte I of page K as the program sees it. */
  ghost function ByteOf(v: Vm, k: Key, i: nat): byte {
    if k in v.pages && i < |Visible(v, k)| then Visible(v, k)[i] else 0
  }

  /** The memory image of a mapping. */
  ghost function MapImage(v: Vm, m: Mapping): (bytes: seq<byte>)
    ensures |bytes| == m.length
  {
    seq(m.length, p requires 0 <= p < m.length => ByteOf(v, Key(m.proc, m.base + p / 4096), p % 4096))
  }

  /** Byte J of a mapping at a page boundary is the one at J bytes behind it. */
  lemma MapAddresses(v: Vm, m: Mapping, addr: nat)
    requires addr == 4096 * m.base
    ensures forall j :: 0 <= j < m.length ==> FlatByte(Image(v), Key(m.proc, (addr + j) / 4096), (addr + j) % 4096) == MapImage(v, m)[j]
  {
    hide ByteOf, FlatByte, Image, MapImage;
    ImageOfMap(v, m);
    forall j | 0 <= j < m.length
      ensures (addr + j) / 4096 == m.base + j / 4096 && (addr + j) % 4096 == j % 4096
    {
    }
  }

  /** K is one of the first N pages of the mapping. */
  predicate Among(m: Mapping, n: nat, k: Key) {
    k.proc == m.proc && m.base <= k.page < m.base + n
  }

  ghost predicate Sound(v: Vm) {
    Entries(v) && FramesOk(v, {}) && TableOk(v) && SlotsOk(v)
  }

  /** The pages that are left are as they were. */
  ghost predicate Left(v: Vm, w: Vm, m: Mapping, n: nat) {
    && (forall k :: k in w.pages <==> k in v.pages && !Among(m, n, k))
    && (forall k :: k in w.pages ==> w.pages[k] == v.pages[k])
  }

  ghost predicate LeftVisible(v: Vm, w: Vm) {
    forall k :: k in v.pages && k in w.pages ==> Visible(w, k) == Visible(v, k)
  }

  /** The file has the image of the first N pages, and all else is as it was. */
  ghost predicate Written(v: Vm, w: Vm, m: Mapping, n: nat) {
    forall f, p: nat :: FileByte(w.files, f, p) ==
      if f == m.file && p < 4096 * n && p < m.length then MapImage(v, m)[p] else FileByte(v.files, f, p)
  }

  /** N pages of mapping ID of V are gone in W. */
  ghost predicate Unmapping(v: Vm, w: Vm, id: nat, m: Mapping, n: nat) {
    && Inv(v, {}) && id in v.maps && m == v.maps[id] && m.file in v.files
    && Sound(w) && w.maps == v.maps - {id} && Left(v, w, m, n) && SameShape(v.files, w.files)
    && (v.files[m.file].denied ==> w.files == v.files)
    && (Unshared(v) ==> Unshared(w) && LeftVisible(v, w) && (!v.files[m.file].denied ==> Written(v, w, m, n)))
  }

  lemma UnmapStart(v: Vm, w: Vm, id: nat, m: Mapping)
    requires Inv(v, {}) && id in v.maps && m == v.maps[id] && m.file in v.files
    requires w == v.(maps := v.maps - {id})
    ensures Unmapping(v, w, id, m, 0)
  {
    hide FilePage, SlotPage, FrameAt, MapImage, MapsOk, Entries, FramesOk, TableOk, SlotsOk;
    EntriesSame(v, w);
    TableSame(v, w);
    SlotsAside(v, w);
    FramesAside(v, w);
  }

  lemma FramesAside(v: Vm, w: Vm)
    requires FramesOk(v, {}) && w == v.(maps := w.maps)
    ensures FramesOk(w, {})
  {
  }

  /** The next page of the mapping is still there. */
  lemma UnmapNext(v: Vm, w: Vm, id: nat, m: Mapping, n: nat)
    requires Unmapping(v, w, id, m, n) && 4096 * n < m.length
    ensures var k := Key(m.proc, m.base + n);
      && k in w.pages && MapsPage(w.pages[k], id, m, n) && w.pages[k] == v.pages[k]
      && Entries(w) && FramesOk(w, {}) && TableOk(w)
  {
    hide Entries, FramesOk, TableOk, SlotsOk, Unshared, LeftVisible, Written;
    assert MapsAt(v.pages, id, m, n);
  }

  lemma UnmapSound(w: Vm, u: Vm, k: Key, i: nat)
    requires Sound(w) && Gone(w, u, k, i)
    ensures Sound(u)
  {
    hide Entries, FramesOk, TableOk, SlotsOk, Gone;
    GoneEntries(w, u, k, i);
    GoneFrames(w, u, k, i);
    GoneTable(w, u, k, i);
    GoneSlots(w, u, k, i);
  }

  lemma UnmapLeft(v: Vm, w: Vm, u: Vm, m: Mapping, n: nat, i: nat)
    requires Left(v, w, m, n) && Gone(w, u, Key(m.proc, m.base + n), i)
    ensures Left(v, u, m, n + 1)
  {
    hide Flushed, EntryOk;
  }

  lemma UnmapVisible(v: Vm, w: Vm, u: Vm, m: Mapping, n: nat, i: nat)
    requires Sound(w) && Unshared(w) && Left(v, w, m, n) && LeftVisible(v, w) && Gone(w, u, Key(m.proc, m.base + n), i)
    ensures Unshared(u) && LeftVisible(v, u)
  {
    hide FramesOk, TableOk, SlotsOk, Entries, Coherent, Exclusive, Visible, Flushed, EntryOk;
    GoneCoherent(w, u, Key(m.proc, m.base + n), i);
    GoneExclusive(w, u, Key(m.proc, m.base + n), i);
    forall k | k in v.pages && k in u.pages
      ensures Visible(u, k) == Visible(v, k)
    {
      GoneContents(w, u, Key(m.proc, m.base + n), i, k);
    }
  }

  /** A file that may not be written stays as it is. */
  lemma UnmapDenied(w: Vm, u: Vm, k: Key, i: nat)
    requires Gone(w, u, k, i) && w.files[w.pages[k].file].denied
    ensures u.files == w.files
  {
    hide Flushed;
  }

  /** The bytes of page N of the mapping, as the program sees them. */
  lemma ImagePage(v: Vm, w: Vm, id: nat, m: Mapping, n: nat, p: nat)
    requires Left(v, w, m, n) && LeftVisible(v, w) && Key(m.proc, m.base + n) in w.pages && MapsPage(w.pages[Key(m.proc, m.base + n)], id, m, n)
    requires 4096 * n <= p < 4096 * n + w.pages[Key(m.proc, m.base + n)].readBytes
    ensures p < m.length && MapImage(v, m)[p] == Contents(w, Key(m.proc, m.base + n))[p - 4096 * n]
  {
    hide FilePage, SlotPage, FrameAt;
    assert p / 4096 == n && p % 4096 == p - 4096 * n;
  }

  lemma UnmapWritten(v: Vm, w: Vm, u: Vm, id: nat, m: Mapping, n: nat, i: nat)
    requires Sound(w) && Unshared(w) && Left(v, w, m, n) && LeftVisible(v, w) && Written(v, w, m, n)
    requires Gone(w, u, Key(m.proc, m.base + n), i)
    requires MapsPage(w.pages[Key(m.proc, m.base + n)], id, m, n) && !w.files[m.file].denied && 4096 * n < m.length
    ensures Written(v, u, m, n + 1)
  {
    hide Entries, FramesOk, TableOk, SlotsOk, Coherent, Exclusive, MapImage, FileByte, Left, LeftVisible, Contents;
    var k := Key(m.proc, m.base + n);
    forall f, p: nat
      ensures FileByte(u.files, f, p) ==
        if f == m.file && p < 4096 * (n + 1) && p < m.length then MapImage(v, m)[p] else FileByte(v.files, f, p)
    {
      GoneByte(w, u, k, i, f, p);
      if f == m.file && 4096 * n <= p < 4096 * n + w.pages[k].readBytes {
        ImagePage(v, w, id, m, n, p);
      }
    }
  }

  lemma UnmapStep(v: Vm, w: Vm, u: Vm, id: nat, m: Mapping, n: nat, i: nat)
    requires Unmapping(v, w, id, m, n) && Gone(w, u, Key(m.proc, m.base + n), i)
    requires MapsPage(w.pages[Key(m.proc, m.base + n)], id, m, n) && 4096 * n < m.length
    ensures Unmapping(v, u, id, m, n + 1)
  {
    hide Inv, Sound, Left, LeftVisible, Written, Unshared, Flushed, EntryOk;
    var k := Key(m.proc, m.base + n);
    UnmapSound(w, u, k, i);
    UnmapLeft(v, w, u, m, n, i);
    GoneSizes(w, u, k, i);
    if v.files[m.file].denied {
      UnmapDenied(w, u, k, i);
    }
    if Unshared(v) {
      UnmapVisible(v, w, u, m, n, i);
      if !v.files[m.file].denied {
        UnmapWritten(v, w, u, id, m, n, i);
      }
    }
  }

  /** The other mappings keep their pages. */
  lemma UnmapMaps(v: Vm, w: Vm, id: nat, m: Mapping)
    requires MapsOk(v) && id in v.maps && m == v.maps[id] && w.maps == v.maps - {id}
    requires forall k :: k in w.pages <==> k in v.pages && !Among(m, PageCount(m.length), k)
    requires forall k :: k in w.pages ==> w.pages[k] == v.pages[k]
    ensures MapsOk(w)
    ensures forall k :: k in v.pages ==> (Among(m, PageCount(m.length), k) <==> v.pages[k].mapping == Some(id))
  {
    forall k | k in v.pages
      ensures Among(m, PageCount(m.length), k) <==> v.pages[k].mapping == Some(id)
    {
      if Among(m, PageCount(m.length), k) {
        assert MapsAt(v.pages, id, m, k.page - m.base);
      }
    }
    forall id2, i: nat | id2 in w.maps && i < PageCount(w.maps[id2].length)
      ensures MapsAt(w.pages, id2, w.maps[id2], i)
    {
      assert MapsAt(v.pages, id2, v.maps[id2], i);
    }
  }

  lemma MapFits(v: Vm, id: nat, m: Mapping)
    requires Inv(v, {}) && id in v.maps && m == v.maps[id] && m.file in v.files
    ensures m.length <= |v.files[m.file].bytes|
  {
    hide FramesOk, TableOk, SlotsOk;
    if m.length > 0 {
      var i := PageCount(m.length) - 1;
      assert MapsAt(v.pages, id, m, i);
    }
  }

  lemma UnmapFiles(v: Vm, w: Vm, m: Mapping, n: nat)
    requires SameShape(v.files, w.files) && Written(v, w, m, n) && m.length <= 4096 * n && m.file in v.files && m.length <= |v.files[m.file].bytes|
    ensures w.files == v.files[m.file := v.files[m.file].(bytes := MapImage(v, m) + v.files[m.file].bytes[m.length..])]
  {
    hide MapImage;
    var image, old_ := MapImage(v, m), v.files[m.file].bytes;
    forall f | f in v.files
      ensures w.files[f].bytes == if f == m.file then image + old_[m.length..] else v.files[f].bytes
    {
      var want := if f == m.file then image + old_[m.length..] else v.files[f].bytes;
      forall p | 0 <= p < |want|
        ensures w.files[f].bytes[p] == want[p]
      {
        assert FileByte(w.files, f, p) == w.files[f].bytes[p];
      }
    }
  }

  lemma UnmapDone(v: Vm, w: Vm, id: nat, m: Mapping, n: nat)
    requires Unmapping(v, w, id, m, n) && n == PageCount(m.length)
    ensures Inv(w, {}) && SameShape(v.files, w.files) && (v.files[m.file].denied ==> w.files == v.files)
    ensures w.pages == v.pages - set k | k in v.pages && v.pages[k].mapping == Some(id)
    ensures Unshared(v) ==> Unshared(w) && Image(w) == Image(v) - (v.pages.Keys - w.pages.Keys)
    ensures m.length <= |v.files[m.file].bytes|
    ensures Unshared(v) && !v.files[m.file].denied ==>
      w.files == v.files[m.file := v.files[m.file].(bytes := MapImage(v, m) + v.files[m.file].bytes[m.length..])]
  {
    hide Entries, FramesOk, TableOk, SlotsOk, MapsOk, Unshared, Written, Visible, MapImage, SameShape;
    UnmapMaps(v, w, id, m);
    MapFits(v, id, m);
    if Unshared(v) && !v.files[m.file].denied {
      UnmapFiles(v, w, m, n);
    }
  }

  // ----- mapping -----------------------------------------------------------------------------------------------

  /** The entry mmap_file makes for page I. */
  function MapEntry(id: nat, m: Mapping, i: nat): Spte {
    var readBytes := if m.length < 4096 * i then 0 else if m.length - 4096 * i < 4096 then m.length - 4096 * i else 4096;
    Spte(0, false, FileBacked, None, m.file, 4096 * i, readBytes, 4096 - readBytes, true, Some(id))
  }

  lemma MapEntryId(id: nat, m: Mapping, i: nat)
    ensures MapEntry(id, m, i).mapping == Some(id)
  {
  }

  lemma MapEntryIs(id: nat, m: Mapping, i: nat, e: Spte)
    requires 4096 * i < m.length
    requires var readBytes := if m.length - 4096 * i < 4096 then m.length - 4096 * i else 4096;
      e == Spte(0, false, FileBacked, None, m.file, 4096 * i, readBytes, 4096 - readBytes, true, Some(id))
    ensures e == MapEntry(id, m, i)
  {
  }

  /** The first N pages of the mapping have been added to BEFORE. */
  ghost predicate Added(before: map<Key, Spte>, pages: map<Key, Spte>, id: nat, m: Mapping, n: nat) {
    && (forall k :: k in pages <==> k in before || Among(m, n, k))
    && (forall k :: k in before ==> !Among(m, n, k))
    && (forall k :: k in pages ==> pages[k] == if k in before then before[k] else MapEntry(id, m, Offset(k, m)))
  }

  function Offset(k: Key, m: Mapping): nat {
    if k.page < m.base then 0 else k.page - m.base
  }

  /** When mmap_file succeeds. */
  ghost predicate MayMap(pages: map<Key, Spte>, proc: nat, length: nat, addr: nat, structOk: bool, entryOk: nat -> bool) {
    && addr != 0 && addr % 4096 == 0 && length > 0 && structOk
    && forall i: nat :: i < PageCount(length) ==> Addable(pages, Key(proc, addr / 4096 + i), entryOk(i))
  }

  predicate Addable(pages: map<Key, Spte>, k: Key, ok: bool) {
    k !in pages && ok
  }

  /** No page is backed by the first LENGTH bytes of F. */
  predicate Unbacked(pages: map<Key, Spte>, f: nat, length: nat) {
    forall q :: q in pages && pages[q].source == FileBacked && pages[q].file == f && pages[q].readBytes > 0 ==> pages[q].ofs >= length
  }

  lemma AddedStep(before: map<Key, Spte>, pages: map<Key, Spte>, pages': map<Key, Spte>, id: nat, m: Mapping, i: nat)
    requires Added(before, pages, id, m, i) && Key(m.proc, m.base + i) !in pages
    requires pages' == pages[Key(m.proc, m.base + i) := MapEntry(id, m, i)]
    ensures Added(before, pages', id, m, i + 1)
  {
    hide MapEntry;
  }

  lemma NotMapped(before: map<Key, Spte>, pages: map<Key, Spte>, id: nat, m: Mapping, i: nat, addr: nat, structOk: bool, entryOk: nat -> bool)
    requires Added(before, pages, id, m, i) && i < PageCount(m.length) && m.base == addr / 4096
    requires Key(m.proc, m.base + i) in pages || !entryOk(i)
    ensures !MayMap(before, m.proc, m.length, addr, structOk, entryOk)
  {
    hide MapEntry;
    assert !Addable(before, Key(m.proc, addr / 4096 + i), entryOk(i));
  }

  lemma UnmappedId(v: Vm, id: nat)
    requires Inv(v, {}) && id !in v.maps
    ensures forall k :: k in v.pages ==> v.pages[k].mapping != Some(id)
  {
    hide Entries, FramesOk, TableOk, SlotsOk;
  }

  /** W is V with mapping ID added. */
  ghost predicate Mapped(v: Vm, w: Vm, id: nat, m: Mapping) {
    && Inv(v, {}) && id !in v.maps && m.file in v.files && m.length == |v.files[m.file].bytes|
    && w == v.(pages := w.pages, maps := v.maps[id := m]) && Added(v.pages, w.pages, id, m, PageCount(m.length))
  }

  lemma MappedEntries(v: Vm, w: Vm, id: nat, m: Mapping)
    requires Mapped(v, w, id, m)
    ensures Entries(w) && TableOk(w)
  {
    hide SlotsOk, MapsOk;
    TableSame(v, w);
  }

  lemma MappedFrames(v: Vm, w: Vm, id: nat, m: Mapping)
    requires Mapped(v, w, id, m)
    ensures FramesOk(w, {})
  {
    hide Entries, TableOk, SlotsOk, MapsOk, MapEntry;
  }

  lemma MappedSlots(v: Vm, w: Vm, id: nat, m: Mapping)
    requires Mapped(v, w, id, m)
    ensures SlotsOk(w)
  {
    hide Entries, FramesOk, TableOk, MapsOk;
  }

  lemma MappedMaps(v: Vm, w: Vm, id: nat, m: Mapping)
    requires Mapped(v, w, id, m)
    ensures MapsOk(w)
  {
    hide Entries, FramesOk, TableOk, SlotsOk;
    forall id2, i: nat | id2 in w.maps && i < PageCount(w.maps[id2].length)
      ensures MapsAt(w.pages, id2, w.maps[id2], i)
    {
      if id2 == id {
        assert Among(m, PageCount(m.length), Key(m.proc, m.base + i));
      } else {
        assert MapsAt(v.pages, id2, v.maps[id2], i);
      }
    }
  }

  lemma MappedVisible(v: Vm, w: Vm, id: nat, m: Mapping, k: Key)
    requires Mapped(v, w, id, m) && k in v.pages
    ensures k in w.pages && Visible(w, k) == Visible(v, k)
  {
    hide Inv, FilePage, SlotPage, FrameAt, MapEntry;
  }

  lemma MappedCoherent(v: Vm, w: Vm, id: nat, m: Mapping)
    requires Mapped(v, w, id, m) && Coherent(v)
    ensures Coherent(w)
  {
    hide Entries, TableOk, SlotsOk, MapsOk, FilePage, SlotPage, FrameAt, MapEntry;
  }

  lemma MappedByte(v: Vm, w: Vm, id: nat, m: Mapping, p: nat)
    requires Mapped(v, w, id, m) && p < m.length
    ensures ByteOf(w, Key(m.proc, m.base + p / 4096), p % 4096) == v.files[m.file].bytes[p]
  {
    hide Entries, TableOk, SlotsOk, MapsOk, FrameAt, SlotPage;
    var i := p / 4096;
    var k := Key(m.proc, m.base + i);
    assert Among(m, PageCount(m.length), k);
    assert w.pages[k] == MapEntry(id, m, i) && k !in w.ptes;
    assert p % 4096 < w.pages[k].readBytes && 4096 * i + p % 4096 == p;
  }

  /** A new mapping shows the file. */
  lemma MappedImage(v: Vm, w: Vm, id: nat, m: Mapping)
    requires Mapped(v, w, id, m)
    ensures MapImage(w, m) == v.files[m.file].bytes
  {
    hide Inv, ByteOf, Added;
    forall p | 0 <= p < m.length
      ensures MapImage(w, m)[p] == v.files[m.file].bytes[p]
    {
      MappedByte(v, w, id, m, p);
    }
  }

  lemma NewPage(v: Vm, w: Vm, id: nat, m: Mapping, k: Key)
    requires Mapped(v, w, id, m) && k in w.pages && k !in v.pages
    ensures var e := w.pages[k];
      e.file == m.file && e.ofs == 4096 * (k.page - m.base) && e.readBytes <= 4096 && e.ofs + e.readBytes <= m.length && k.proc == m.proc
  {
    hide Inv;
  }

  lemma MappedExclusive(v: Vm, w: Vm, id: nat, m: Mapping)
    requires Mapped(v, w, id, m) && Exclusive(v) && Unbacked(v.pages, m.file, m.length)
    ensures Exclusive(w)
  {
    hide FramesOk, TableOk, SlotsOk, MapsOk, MapEntry;
    forall k, q | k in w.pages && q in w.pages && k != q && w.pages[k].mapping.Some? && w.pages[q].source == FileBacked
      ensures !Overlap(w.pages[k], w.pages[q])
    {
      if k in v.pages && q in v.pages {
        assert !Overlap(v.pages[k], v.pages[q]);
      }
      if k !in v.pages {
        NewPage(v, w, id, m, k);
      }
      if q !in v.pages {
        NewPage(v, w, id, m, q);
      }
    }
  }

  /** What was shared stays shared. */
  lemma MappedStillShared(v: Vm, w: Vm, id: nat, m: Mapping)
    requires Mapped(v, w, id, m) && Exclusive(w)
    ensures Exclusive(v)
  {
    hide Inv, MapEntry;
    forall k, q | k in v.pages && q in v.pages && k != q && v.pages[k].mapping.Some? && v.pages[q].source == FileBacked
      ensures !Overlap(v.pages[k], v.pages[q])
    {
      assert !Overlap(w.pages[k], w.pages[q]);
    }
  }

  /** A page that shares bytes with the new mapping shares a page of it. */
  lemma MappedShared(v: Vm, w: Vm, id: nat, m: Mapping)
    requires Mapped(v, w, id, m) && !Unbacked(v.pages, m.file, m.length)
    ensures !Exclusive(w)
  {
    hide Entries, FramesOk, TableOk, SlotsOk, MapsOk;
    var q :| q in v.pages && v.pages[q].source == FileBacked && v.pages[q].file == m.file && v.pages[q].readBytes > 0 &&
      v.pages[q].ofs < m.length;
    var i := v.pages[q].ofs / 4096;
    var k := Key(m.proc, m.base + i);
    assert Among(m, PageCount(m.length), k);
    assert Overlap(w.pages[k], w.pages[q]);
  }

  lemma MappedAll(v: Vm, w: Vm, id: nat, m: Mapping)
    requires Mapped(v, w, id, m)
    ensures Inv(w, {}) && (Coherent(v) ==> Coherent(w)) && MapImage(w, m) == v.files[m.file].bytes
    ensures forall k :: k in v.pages ==> k in w.pages && Visible(w, k) == Visible(v, k)
    ensures Exclusive(w) <==> Exclusive(v) && Unbacked(v.pages, m.file, m.length)
  {
    hide Entries, FramesOk, TableOk, SlotsOk, MapsOk, Coherent, Exclusive, Unbacked, Mapped, Visible, MapImage;
    MappedEntries(v, w, id, m);
    MappedFrames(v, w, id, m);
    MappedSlots(v, w, id, m);
    MappedMaps(v, w, id, m);
    if Coherent(v) {
      MappedCoherent(v, w, id, m);
    }
    MappedImage(v, w, id, m);
    if !Unbacked(v.pages, m.file, m.length) {
      MappedShared(v, w, id, m);
    } else if Exclusive(v) {
      MappedExclusive(v, w, id, m);
    } else if Exclusive(w) {
      MappedStillShared(v, w, id, m);
    }
    forall k | k in v.pages
      ensures k in w.pages && Visible(w, k) == Visible(v, k)
    {
      MappedVisible(v, w, id, m, k);
    }
  }

  // ----- the program's view -----------------------------------------------------------------------------------

  /** A memory access by a program. */
  datatype Op = Load(k: Key, i: nat) | Store(k: Key, i: nat, b: byte)

  ghost predicate InMemory(image: map<Key, seq<byte>>, op: Op) {
    op.k in image && op.i < |image[op.k]|
  }

  /** What an access does to flat memory. */
  ghost function Effect(image: map<Key, seq<byte>>, op: Op): map<Key, seq<byte>> {
    if op.Store? then Poke(image, op.k, op.i, op.b) else image
  }

  ghost function Output(image: map<Key, seq<byte>>, op: Op): seq<byte> {
    if op.Load? && InMemory(image, op) then [image[op.k][op.i]] else []
  }

  ghost function After(image: map<Key, seq<byte>>, ops: seq<Op>): map<Key, seq<byte>> {
    if ops == [] then image else Effect(After(image, ops[..|ops| - 1]), ops[|ops| - 1])
  }

  ghost function Outputs(image: map<Key, seq<byte>>, ops: seq<Op>): seq<byte> {
    if ops == [] then [] else Outputs(image, ops[..|ops| - 1]) + Output(After(image, ops[..|ops| - 1]), ops[|ops| - 1])
  }

  /** The part of flat memory a mapping covers. */
  ghost function FlatImage(image: map<Key, seq<byte>>, m: Mapping): (bytes: seq<byte>)
    ensures |bytes| == m.length
  {
    seq(m.length, p requires 0 <= p < m.length => FlatByte(image, Key(m.proc, m.base + p / 4096), p % 4096))
  }

  ghost function FlatByte(image: map<Key, seq<byte>>, k: Key, i: nat): byte {
    if k in image && i < |image[k]| then image[k][i] else 0
  }

  /** Byte I of page K after some accesses: the one last stored there, or the one there was. */
  ghost function LastStored(image: map<Key, seq<byte>>, ops: seq<Op>, k: Key, i: nat): byte {
    if ops == [] then FlatByte(image, k, i)
    else
      var op := ops[|ops| - 1];
      if op.Store? && op.k == k && op.i == i then op.b else LastStored(image, ops[..|ops| - 1], k, i)
  }

  /** Memory keeps what is stored in it, and nothing else changes. */
  lemma {:induction false} MemoryRecalls(image: map<Key, seq<byte>>, ops: seq<Op>, k: Key, i: nat)
    requires k in image && i < |image[k]|
    ensures var after := After(image, ops); k in after && |after[k]| == |image[k]| && after[k][i] == LastStored(image, ops, k, i)
  {
    if ops != [] {
      MemoryRecalls(image, ops[..|ops| - 1], k, i);
    }
  }

  /** Every load gives what was last stored. */
  lemma LoadsRecall(image: map<Key, seq<byte>>, ops: seq<Op>, k: Key, i: nat)
    requires k in image && i < |image[k]|
    ensures Outputs(image, ops + [Load(k, i)]) == Outputs(image, ops) + [LastStored(image, ops, k, i)]
  {
    hide After;
    MemoryRecalls(image, ops, k, i);
    assert (ops + [Load(k, i)])[..|ops|] == ops;
  }

  lemma {:induction false} StillIn(image: map<Key, seq<byte>>, ops: seq<Op>, op: Op)
    requires InMemory(image, op)
    ensures InMemory(After(image, ops), op)
    decreases ops
  {
    if ops != [] {
      StillIn(image, ops[..|ops| - 1], op);
    }
  }

  lemma PlayedOne(image: map<Key, seq<byte>>, ops: seq<Op>, n: nat)
    requires n < |ops|
    ensures After(image, ops[..n + 1]) == Effect(After(image, ops[..n]), ops[n])
    ensures Outputs(image, ops[..n + 1]) == Outputs(image, ops[..n]) + Output(After(image, ops[..n]), ops[n])
  {
    hide Effect, Output;
    assert ops[..n + 1][..n] == ops[..n];
  }

  lemma InMemoryFacts(v: Vm, op: Op)
    requires InMemory(Image(v), op)
    ensures op.k in v.pages && op.i < |Visible(v, op.k)| && op.i < 4096
  {
    hide Contents;
  }

  lemma LoadedByte(v: Vm, k: Key, i: nat)
    requires Inv(v, {}) && k in v.ptes && k in v.pages && i < |Visible(v, k)|
    ensures v.ptes[k].frame < |v.frames| && i < 4096 && v.frames[v.ptes[k].frame][i] == Visible(v, k)[i] == Image(v)[k][i]
  {
    hide Entries, TableOk, SlotsOk, MapsOk, FilePage, SlotPage;
  }

  lemma StoredAll(v: Vm, w: Vm, k: Key, i: nat, b: byte)
    requires Inv(v, {}) && Stored(v, w, k, i, b)
    ensures Inv(w, {}) && (Unshared(v) ==> Unshared(w)) && Image(w) == Poke(Image(v), k, i, b)
  {
    hide Entries, FramesOk, TableOk, SlotsOk, MapsOk, Coherent, Exclusive, Stored, Image, Poke;
    StoredInv(v, w, k, i, b);
    if Unshared(v) {
      StoredCoherent(v, w, k, i, b);
      StoredExclusive(v, w, k, i, b);
    }
    StoredContents(v, w, k, i, b);
  }

  /** Reading sets the accessed bit. */
  lemma ReadAll(v: Vm, w: Vm, k: Key)
    requires Inv(v, {}) && k in v.ptes && w == v.(ptes := v.ptes[k := v.ptes[k].(accessed := true)])
    ensures Inv(w, {}) && (Unshared(v) ==> Unshared(w)) && Image(w) == Image(v)
  {
    hide Entries, FramesOk, TableOk, SlotsOk, MapsOk, Coherent, Exclusive, Visible;
    SimilarInv(v, w, {});
    if Unshared(v) {
      SimilarCoherent(v, w);
      SimilarExclusive(v, w);
    }
    forall q | q in v.pages
      ensures Visible(w, q) == Visible(v, q)
    {
      SimilarContents(v, w, q);
    }
  }

  lemma NatureFacts(v: Vm, w: Vm, k: Key)
    requires Inv(w, {}) && Kept(v, w) && k in v.pages && k in w.ptes
    ensures k in w.pages && w.ptes[k].writable == v.pages[k].writable && |Visible(w, k)| == |Visible(v, k)|
    ensures w.pages.Keys == v.pages.Keys && SameNatures(v, w)
  {
    hide Entries, TableOk, SlotsOk, MapsOk, Unshared, Contents;
  }

  lemma NaturesSelf(v: Vm)
    ensures SameNatures(v, v)
  {
  }

  lemma NaturesMore(v: Vm, w: Vm, u: Vm)
    requires SameNatures(v, w) && SameNatures(w, u) && w.pages.Keys == v.pages.Keys
    ensures SameNatures(v, u)
  {
    forall k | k in v.pages && k in u.pages
      ensures SameNature(v.pages[k], u.pages[k])
    {
      assert SameNature(v.pages[k], w.pages[k]) && SameNature(w.pages[k], u.pages[k]);
    }
  }

  lemma NaturesTrans(v: Vm, w: Vm, u: Vm)
    requires SameNatures(v, w) && SameNatures(w, u) && w.pages.Keys == v.pages.Keys && u.pages.Keys == w.pages.Keys
    ensures SameNatures(v, u)
  {
    forall k | k in v.pages && k in u.pages
      ensures SameNature(v.pages[k], u.pages[k])
    {
      assert SameNature(v.pages[k], w.pages[k]) && SameNature(w.pages[k], u.pages[k]);
    }
  }

  // ----- room for every page ----------------------------------------------------------------------------------

  /** A touch of page K is served. */
  ghost predicate Reachable(v: Vm, k: Key, memory: bool) {
    k in v.ptes || (memory && (v.pool != {} || CanEvict(v)))
  }

  /** Only writable pages are written to. */
  predicate Permitted(pages: map<Key, Spte>, op: Op) {
    op.Store? && op.k in pages ==> pages[op.k].writable
  }

  ghost predicate AllPermitted(pages: map<Key, Spte>, ops: seq<Op>) {
    forall j :: 0 <= j < |ops| ==> Permitted(pages, ops[j])
  }

  /** The pages that eviction writes to swap. */
  ghost function Swappable(v: Vm): set<Key> {
    set k | k in v.pages && !Droppable(v.pages[k])
  }

  /** There is a frame, a slot for every page that may need one, and no mapped file that may not be written. */
  ghost predicate Roomy(v: Vm) {
    && |v.frames| > 0 && |Swappable(v)| <= |v.used|
    && (forall k :: k in v.pages && v.pages[k].mapping.Some? && v.pages[k].file in v.files ==> !v.files[v.pages[k].file].denied)
  }

  lemma RoomyKept(v: Vm, w: Vm)
    requires Roomy(v) && w.pages.Keys == v.pages.Keys && SameNatures(v, w) && SameShape(v.files, w.files)
    ensures Roomy(w)
  {
    forall k | k in v.pages
      ensures SameNature(v.pages[k], w.pages[k])
    {
    }
    assert Swappable(w) == Swappable(v);
  }

  lemma {:induction false} OldestExists(v: Vm, n: nat) returns (b: Option<nat>)
    requires n <= |v.table|
    ensures Oldest(v, n, b)
    decreases n
  {
    hide Unused, TimeOf;
    if n == 0 {
      return None;
    }
    b := OldestExists(v, n - 1);
    if Unused(v, n - 1) && (b.None? || TimeOf(v, n - 1) < TimeOf(v, b.value)) {
      b := Some(n - 1);
    }
  }

  lemma SomeChosen(v: Vm) returns (i: nat)
    requires v.table != []
    ensures Chosen(v, i)
  {
    var b := OldestExists(v, |v.table|);
    i := if b.Some? then b.value else 0;
  }

  /** A one-to-one map from the numbers below N needs N values. */
  lemma {:induction false} Pigeons(f: map<nat, Key>, n: nat, s: set<Key>)
    requires forall j :: 0 <= j < n ==> j in f && f[j] in s
    requires forall i, j :: 0 <= i < j < n ==> f[i] != f[j]
    ensures n <= |s|
    decreases n
  {
    if n > 0 {
      Pigeons(f, n - 1, s - {f[n - 1]});
    }
  }

  lemma FreeSlot(v: Vm, k: Key)
    requires Inv(v, {}) && k in v.ptes && k in v.pages && !Droppable(v.pages[k]) && |Swappable(v)| <= |v.used|
    ensures exists j :: 0 <= j < |v.used| && !v.used[j]
  {
    hide FramesOk, TableOk, MapsOk;
    if forall j :: 0 <= j < |v.used| ==> v.used[j] {
      forall j | 0 <= j < |v.used|
        ensures j in v.slotOf && v.slotOf[j] in Swappable(v) - {k} && v.pages[v.slotOf[j]].slot == Some(j)
      {
      }
      Pigeons(v.slotOf, |v.used|, Swappable(v) - {k});
    }
  }

  lemma FrameInUse(v: Vm)
    requires Inv(v, {}) && |v.frames| > 0 && v.pool == {}
    ensures v.table != []
  {
    hide Entries, SlotsOk, MapsOk;
    assert 0 in v.at;
    assert Fte(v.ptes[v.at[0]].frame, v.at[0]) in v.table;
  }

  /** With room, a frame can always be had. */
  lemma RoomyEvicts(v: Vm)
    requires Inv(v, {}) && Roomy(v)
    ensures v.pool != {} || CanEvict(v)
  {
    hide Inv, Chosen, Swappable;
    if v.pool == {} {
      FrameInUse(v);
      var i := SomeChosen(v);
      ChosenBound(v, i);
      ListedEntry(v, i);
      if !Droppable(v.pages[v.table[i].key]) {
        FreeSlot(v, v.table[i].key);
      }
      assert Evictable(v, i);
    }
  }

  lemma ChosenBound(v: Vm, i: nat)
    requires Chosen(v, i)
    ensures i < |v.table|
  {
  }

  lemma AccessServed(v: Vm, u: Vm, op: Op, memory: bool)
    requires Inv(u, {}) && u.pages.Keys == v.pages.Keys && SameNatures(v, u) && SameShape(v.files, u.files)
    ensures Roomy(v) && memory ==> Reachable(u, op.k, memory)
    ensures Permitted(v.pages, op) <==> Permitted(u.pages, op)
  {
    hide Inv, Roomy, CanEvict;
    if Roomy(v) {
      RoomyKept(v, u);
      RoomyEvicts(u);
    }
    assert op.k in v.pages ==> SameNature(v.pages[op.k], u.pages[op.k]);
  }

  /** A new mapping leaves the room there is. */
  lemma MappedRoomy(v: Vm, w: Vm, id: nat, m: Mapping, ops: seq<Op>)
    requires Added(v.pages, w.pages, id, m, PageCount(m.length)) && w.files == v.files && |w.frames| == |v.frames| && w.used == v.used
    requires m.file in v.files && !v.files[m.file].denied
    ensures Roomy(v) ==> Roomy(w)
    ensures AllPermitted(v.pages, ops) ==> AllPermitted(w.pages, ops)
  {
    assert Swappable(w) == Swappable(v);
  }

  /** The access is inside the mapping. */
  predicate WithinMapping(m: Mapping, op: Op) {
    Among(m, PageCount(m.length), op.k) && op.i < 4096 && 4096 * (op.k.page - m.base) + op.i < m.length
  }

  lemma ImageOfMap(v: Vm, m: Mapping)
    ensures MapImage(v, m) == FlatImage(Image(v), m)
  {
    hide Visible;
    forall p | 0 <= p < m.length
      ensures MapImage(v, m)[p] == FlatImage(Image(v), m)[p]
    {
    }
  }

  lemma NoTail(image: seq<byte>, bytes: seq<byte>)
    requires |bytes| == |image|
    ensures image + bytes[|image|..] == image
  {
  }

  lemma KeptImage(v: Vm, w: Vm)
    requires forall k :: k in v.pages ==> k in w.pages && Visible(w, k) == Visible(v, k)
    ensures forall k :: k in Image(v) ==> k in Image(w) && Image(w)[k] == Image(v)[k]
  {
    hide Visible;
  }

  lemma InMapped(v: Vm, w: Vm, id: nat, m: Mapping, op: Op)
    requires Inv(w, {}) && id in w.maps && w.maps[id] == m
    requires forall k :: k in v.pages ==> k in w.pages && Visible(w, k) == Visible(v, k)
    requires InMemory(Image(v), op) || WithinMapping(m, op)
    ensures InMemory(Image(w), op)
  {
    hide Entries, FramesOk, TableOk, SlotsOk, Contents;
    if WithinMapping(m, op) {
      assert MapsAt(w.pages, id, m, op.k.page - m.base);
    }
  }

  // ----- pages of executables ------------------------------------------------------------------------------------

  /** No mapping has any of the READBYTES from OFS on in FILE. */
  ghost predicate Unmapped(pages: map<Key, Spte>, file: nat, ofs: nat, readBytes: nat) {
    forall q :: q in pages && pages[q].mapping.Some? && pages[q].file == file && pages[q].readBytes > 0 && readBytes > 0 ==>
      pages[q].ofs + pages[q].readBytes <= ofs || ofs + readBytes <= pages[q].ofs
  }

  /** E is an entry for a page not read in yet. */
  predicate Lazy(e: Spte) {
    !e.loaded && e.source == FileBacked && e.slot.None? && e.mapping.None?
  }

  lemma LazyInv(v: Vm, w: Vm, k: Key, e: Spte)
    requires Inv(v, {}) && k !in v.pages && w == v.(pages := v.pages[k := e]) && Lazy(e) && EntryOk(v.files, e)
    ensures Inv(w, {})
  {
    hide MapsOk, SlotsOk, TableOk;
    GrownMaps(v, w, k, e);
    TableSame(v, w);
    LazySlots(v, w, k, e);
  }

  lemma LazySlots(v: Vm, w: Vm, k: Key, e: Spte)
    requires SlotsOk(v) && k !in v.pages && w == v.(pages := v.pages[k := e]) && Lazy(e)
    ensures SlotsOk(w)
  {
  }

  lemma LazyCoherent(v: Vm, w: Vm, k: Key, e: Spte)
    requires Inv(v, {}) && k !in v.pages && w == v.(pages := v.pages[k := e]) && Lazy(e) && Coherent(v)
    ensures Coherent(w)
  {
    hide Entries, TableOk, SlotsOk, MapsOk, FilePage, FrameAt;
  }

  lemma LazyExclusive(v: Vm, w: Vm, k: Key, e: Spte)
    requires k !in v.pages && w == v.(pages := v.pages[k := e]) && Lazy(e)
    ensures Exclusive(w) <==> Exclusive(v) && Unmapped(v.pages, e.file, e.ofs, e.readBytes)
  {
    if !Unmapped(v.pages, e.file, e.ofs, e.readBytes) {
      var q :| q in v.pages && v.pages[q].mapping.Some? && v.pages[q].file == e.file && v.pages[q].readBytes > 0 && e.readBytes > 0 &&
        !(v.pages[q].ofs + v.pages[q].readBytes <= e.ofs || e.ofs + e.readBytes <= v.pages[q].ofs);
      assert Overlap(w.pages[q], w.pages[k]);
    } else if !Exclusive(v) {
      var a, q :| a in v.pages && q in v.pages && a != q && v.pages[a].mapping.Some? && v.pages[q].source == FileBacked &&
        Overlap(v.pages[a], v.pages[q]);
      assert Overlap(w.pages[a], w.pages[q]);
    } else {
      forall a, q | a in w.pages && q in w.pages && a != q && w.pages[a].mapping.Some? && w.pages[q].source == FileBacked
        ensures !Overlap(w.pages[a], w.pages[q])
      {
        assert q != k ==> !Overlap(v.pages[a], v.pages[q]);
      }
    }
  }

  lemma LazyImage(v: Vm, w: Vm, k: Key, e: Spte)
    requires Inv(v, {}) && k !in v.pages && w == v.(pages := v.pages[k := e]) && Lazy(e)
    ensures Image(w) == Image(v)[k := FilePage(v.files, e)]
  {
    hide Inv, Visible, FilePage;
    forall q | q in v.pages
      ensures Visible(w, q) == Visible(v, q)
    {
      LazyOthers(v, w, k, e, q);
    }
    LazyVisible(v, w, k, e);
  }

  lemma LazyOthers(v: Vm, w: Vm, k: Key, e: Spte, q: Key)
    requires k !in v.pages && w == v.(pages := v.pages[k := e]) && q in v.pages
    ensures Visible(w, q) == Visible(v, q)
  {
    hide FilePage, SlotPage, FrameAt;
  }

  lemma LazyVisible(v: Vm, w: Vm, k: Key, e: Spte)
    requires Inv(v, {}) && k !in v.pages && w == v.(pages := v.pages[k := e]) && Lazy(e)
    ensures Visible(w, k) == FilePage(v.files, e)
  {
    hide Entries, TableOk, SlotsOk, MapsOk, FilePage;
  }

  lemma LazyPage(v: Vm, k: Key, e: Spte)
    requires EntryOk(v.files, e) && e.source == FileBacked
    ensures FilePage(v.files, e) == v.files[e.file].bytes[e.ofs..e.ofs + e.readBytes] + seq(e.zeroBytes, _ => 0)
  {
  }

  // ----- a stack page with another process's bytes -----------------------------------------------------------------

  /** With one frame and one page, the page is in the frame. */
  lemma OneFrame(v: Vm, k: Key)
    requires Inv(v, {}) && |v.frames| == 1 && v.pages.Keys == {k} && k in v.ptes
    ensures v.pool == {} && (forall i :: 0 <= i < |v.table| ==> v.table[i].frame == 0)
    ensures Contents(v, k) == FrameAt(v.frames, 0) && forall q :: q in v.ptes ==> q == k
  {
    hide Entries, SlotsOk, MapsOk, FrameAt, FilePage, SlotPage;
    assert v.ptes[k].frame < 1;
    forall i | 0 <= i < |v.table|
      ensures v.table[i].frame == 0
    {
      assert v.table[i] in v.table;
    }
  }

  lemma OnePageRoomy(v: Vm, w: Vm, k: Key)
    requires |v.frames| == 1 && |v.used| == 1 && v.pages.Keys == {k} && v.pages[k].mapping.None?
    requires SameNatures(v, w) && w.pages.Keys == v.pages.Keys
    ensures Roomy(w)
  {
    assert SameNature(v.pages[k], w.pages[k]);
    Subset(Swappable(w), {k});
  }

  lemma {:induction false} Subset(a: set<Key>, b: set<Key>)
    requires a <= b
    ensures |a| <= |b|
    decreases a
  {
    if a != {} {
      var x :| x in a;
      Subset(a - {x}, b - {x});
    }
  }

  lemma GrewPage(v: Vm, w: Vm, k: Key, page: Page)
    requires KeptBut(v, w, k, page) && Unshared(v)
    ensures Unshared(w) && w.pages.Keys == v.pages.Keys + {k} && k in Image(w) && Image(w)[k] == page
    ensures |w.frames| == |v.frames| && |w.used| == |v.used| && w.pages[k].writable && !Droppable(w.pages[k]) && w.pages[k].mapping.None?
  {
    hide Unshared, Visible;
  }

  lemma StoredByte(v: Vm, w: Vm, k: Key, b: byte)
    requires k in v.pages && k in Image(v) && 0 < |Image(v)[k]| && Image(w) == Poke(Image(v), k, 0, b)
    ensures k in w.pages && 0 < |Visible(w, k)| && Contents(w, k)[0] == b
  {
    hide Contents;
    assert k in Image(w) && Image(w)[k] == Image(v)[k][0 := b];
  }

  /** Process 0 grows its stack and writes B there. */
  method WriteStack(m: Memory, addr: nat, b: byte)
    requires m.Steady({}) && m.pages == map[] && m.ptes == map[] && |m.frames| == 1 && m.slots.bitCnt == 1 && m.pool != {}
    requires GrowsStack(addr, PHYS_BASE)
    modifies m, m.slots.bits
    ensures m.Steady({}) && m.pages.Keys == {Key(0, addr / 4096)} && m.pool == {} && Roomy(m.V())
    ensures forall i :: 0 <= i < |m.table| ==> FrameAt(m.frames, m.table[i].frame)[0] == b
    ensures Key(1, addr / 4096) !in m.ptes
  {
    hide Inv, Unshared, Roomy, CanEvict, Chosen, FrameAt, KeptBut, Image, Contents, Kept, SameNature, ZeroPage;
    var k := Key(0, addr / 4096);
    ghost var page, i;
    ghost var v := m.V();
    var ok, out;
    ok, page, i := m.PageFault(0, addr, PHYS_BASE, true, true, 0, true, true, true);
    ghost var w := m.V();
    GrewPage(v, w, k, page);
    ok, out := m.Access(Store(k, 0, b), 0, true);
    StoredByte(w, m.V(), k, b);
    OneFrame(m.V(), k);
    OnePageRoomy(w, m.V(), k);
  }

  /** On a machine with one frame, process 0 grows its stack and writes B there; then process 1, which never
      wrote anything, grows its stack and reads B. */
  method StaleStack(b: byte) returns (seen: seq<byte>)
    ensures seen == [b]
  {
    hide Inv, Unshared, Roomy, CanEvict, FrameAt, KeptBut, Image, Contents, Kept, ZeroPage, Oldest;
    var addr := PHYS_BASE - 4;
    var m := new Memory([ZeroPage()], seq(8, _ => Zeros()), map[]);
    assert 0 in m.pool;
    WriteStack(m, addr, b);
    ghost var v := m.V();
    RoomyEvicts(v);
    ghost var page, i;
    var ok;
    ok, page, i := m.PageFault(1, addr, PHYS_BASE, true, true, 1, true, true, true);
    GrewPage(v, m.V(), Key(1, addr / 4096), page);
    ok, seen := m.Access(Load(Key(1, addr / 4096), 0), 2, true);
  }

  // ----- a file mapped twice -----------------------------------------------------------------------------------------

  /** Two processes map the same one-byte file; the first has written to it. */
  function Twice(): Vm {
    var one: Page := seq(4096, p => if p == 0 then 1 else 0);
    Vm(map[Key(0, 1) := Spte(0, true, FileBacked, None, 0, 0, 1, 4095, true, Some(0)),
           Key(1, 1) := Spte(0, false, FileBacked, None, 0, 0, 1, 4095, true, Some(1))],
       map[Key(0, 1) := Pte(0, true, true, true)], [Fte(0, Key(0, 1))], [one], {}, [], [], map[0 := File([0], false)],
       map[0 := Mapping(0, 0, 1, 1), 1 := Mapping(0, 1, 1, 1)], map[0 := Key(0, 1)], map[])
  }

  function TwiceEvicted(): Vm {
    var v := Twice();
    v.(pages := v.pages[Key(0, 1) := v.pages[Key(0, 1)].(loaded := false)], ptes := map[], table := [], at := map[],
       files := map[0 := File([1], false)])
  }

  lemma TwiceLists()
    ensures Entries(Twice()) && FramesOk(Twice(), {})
  {
  }

  lemma TwiceSlots()
    ensures SlotsOk(Twice()) && Coherent(Twice())
  {
  }

  lemma TwiceTable()
    ensures TableOk(Twice())
  {
    assert Fte(0, Key(0, 1)) in Twice().table;
  }

  lemma TwiceMaps()
    ensures MapsOk(Twice())
  {
  }

  lemma TwiceOut()
    ensures ToFile(Twice(), TwiceEvicted(), 0)
  {
    var v := Twice();
    assert Removed(v.table, 0) == [];
    assert v.ptes - {Key(0, 1)} == map[];
    assert v.at - {0} == map[];
    assert FrameAt(v.frames, 0)[..1] == [1];
    assert Volumes.Overlay([0], 0, [1]) == [1];
  }

  lemma TwiceSeen()
    ensures Visible(Twice(), Key(1, 1)) == [0] && Visible(TwiceEvicted(), Key(1, 1)) == [1]
  {
    var v, w := Twice(), TwiceEvicted();
    assert FilePage(v.files, v.pages[Key(1, 1)])[0] == 0;
    assert FilePage(w.files, w.pages[Key(1, 1)])[0] == 1;
  }

  /** Evicting the first page then changes what the second process sees, which never wrote. */
  lemma SharedEviction()
    ensures Inv(Twice(), {}) && Coherent(Twice()) && ToFile(Twice(), TwiceEvicted(), 0)
    ensures Key(1, 1) in Twice().pages && Key(1, 1) in TwiceEvicted().pages
    ensures Visible(Twice(), Key(1, 1)) == [0] && Visible(TwiceEvicted(), Key(1, 1)) == [1]
  {
    hide Entries, FramesOk, TableOk, SlotsOk, MapsOk, Coherent, ToFile, Visible;
    TwiceLists();
    TwiceSlots();
    TwiceTable();
    TwiceMaps();
    TwiceOut();
    TwiceSeen();
  }
}
