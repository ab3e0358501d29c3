/** Growing, indexed files over a free map (src/filesys/inode.c, src/filesys/free-map.c). */
module Inodes {
  import opened Bitmaps
  import opened MachineIntegers
  import opened Options
  import opened Sectors
  import opened Space
  import opened Volumes

  lemma Charged(bits: seq<bool>, owner: map<nat, Owner>, sector: nat, o: Owner)
    requires AllUsed(bits, owner) && Stray(bits, owner, sector)
    ensures AllUsed(bits, owner[sector := o])
    ensures forall s :: Stray(bits, owner[sector := o], s) == (Stray(bits, owner, s) && s != sector)
  {
  }

  lemma ChargedNew(bits: seq<bool>, owner: map<nat, Owner>, sector: nat, o: Owner)
    requires AllUsed(bits, owner) && sector < |bits| && !bits[sector]
    ensures sector !in owner && AllUsed(bits[sector := true], owner[sector := o])
    ensures forall s :: Stray(bits[sector := true], owner[sector := o], s) == Stray(bits, owner, s)
  {
  }

  lemma NewVolume(disk: seq<Sector>, bits: seq<bool>)
    ensures var v := Volume(disk, map[], map[]); v.Valid() && Saved(v) && AllUsed(bits, v.owner) && Mirrors(map[], v.nodes)
  {
  }

  lemma NewMap(bits: seq<bool>)
    requires 2 <= |bits| && forall s :: 0 <= s < |bits| ==> bits[s] == (s == FREE_MAP_SECTOR || s == ROOT_DIR_SECTOR)
    ensures Unmarked(bits) == |bits| - 2
  {
    hide Unmarked;
    var none := bits[FREE_MAP_SECTOR := false][ROOT_DIR_SECTOR := false];
    UnmarkedAll(none);
    UnmarkedSet(bits, FREE_MAP_SECTOR, false);
    UnmarkedSet(bits[FREE_MAP_SECTOR := false], ROOT_DIR_SECTOR, false);
  }

  lemma IndirectCost(i: nat)
    requires DIRECT_BLOCKS <= i < INDIRECT_END
    ensures IndexCost(i) == if i == DIRECT_BLOCKS then 1 else 0
  {
  }

  /** `struct inode`: an inode somebody has open. */
  datatype OpenInode = OpenInode(openCnt: nat, removed: bool, denyWriteCnt: nat, data: InodeDisk)

  /** Sector S is marked used although no live inode owns it. */
  predicate Stray(bits: seq<bool>, owner: map<nat, Owner>, s: nat) {
    s < |bits| && bits[s] && s !in owner
  }

  ghost predicate AllUsed(bits: seq<bool>, owner: map<nat, Owner>) {
    forall s :: s in owner ==> s < |bits| && bits[s]
  }

  /** Every open inode holds the content of a live one. */
  ghost predicate Mirrors(open: map<nat, OpenInode>, nodes: map<nat, InodeDisk>) {
    forall f :: f in open ==> f in nodes && open[f].data == nodes[f] && open[f].openCnt > 0
  }

  lemma MirrorsMore(open: map<nat, OpenInode>, nodes: map<nat, InodeDisk>, nodes': map<nat, InodeDisk>)
    requires Mirrors(open, nodes) && forall f :: f in nodes ==> f in nodes' && nodes'[f] == nodes[f]
    ensures Mirrors(open, nodes')
  {
  }

  lemma Mirrored(open: map<nat, OpenInode>, nodes: map<nat, InodeDisk>, f: nat)
    requires Mirrors(open, nodes) && f in open
    ensures f in nodes && open[f].data == nodes[f]
  {
  }

  const FREE_MAP_SECTOR: nat := 0
  const ROOT_DIR_SECTOR: nat := 1

  class FileSystem {
    const freeMap: Bitmap
    var disk: seq<Sector>
    /** The list of open inodes, by inode sector. */
    var open: map<nat, OpenInode>

    /** The live inodes, open or not, and the owner of every sector in use. */
    ghost var nodes: map<nat, InodeDisk>
    ghost var owner: map<nat, Owner>

    ghost function V(): Volume
      reads this
    {
      Volume(disk, nodes, owner)
    }

    /** The number of free sectors. */
    ghost function Free(): nat
      requires freeMap.Valid()
      reads freeMap, freeMap.bits
    {
      Unmarked(freeMap.Bits())
    }

    /** What holds even while a file is being grown. */
    ghost predicate Core()
      reads this, freeMap, freeMap.bits
    {
      && freeMap.Valid() && freeMap.bitCnt == |disk| <= 0x1_0000_0000
      && V().Valid()
      && AllUsed(freeMap.Bits(), owner)
    }

    ghost predicate Valid()
      reads this, freeMap, freeMap.bits
    {
      Core() && Mirrors(open, nodes) && Saved(V())
    }

    /** free_map_init: an empty volume with the two reserved sectors marked. */
    constructor (disk: seq<Sector>)
      requires 2 <= |disk| <= 0x1_0000_0000
      ensures Valid() && this.disk == disk && nodes == map[] && owner == map[] && open == map[] && Free() == |disk| - 2
      ensures fresh(freeMap) && fresh(freeMap.bits)
      ensures freeMap.Bits() == seq(|disk|, s => s == FREE_MAP_SECTOR || s == ROOT_DIR_SECTOR)
    {
      freeMap := new Bitmap(|disk|);
      this.disk := disk;
      open, nodes, owner := map[], map[], map[];
      new;
      hide Unmarked, Bitmap.Bits, Saved, Mirrors, AllUsed, Volume.Valid;
      freeMap.Set(FREE_MAP_SECTOR, true);
      freeMap.Set(ROOT_DIR_SECTOR, true);
      NewMap(freeMap.Bits());
      NewVolume(disk, freeMap.Bits());
    }

    /** free_map_allocate for one sector; the free map's own file is not modelled. */
    method Allocate() returns (r: Option<u32>)
      requires freeMap.Valid() && freeMap.bitCnt == |disk| <= 0x1_0000_0000
      modifies freeMap.bits
      ensures r.Some? ==> r.value < |disk| && !old(freeMap.Bits())[r.value]
      ensures freeMap.Bits() == if r.Some? then old(freeMap.Bits())[r.value := true] else old(freeMap.Bits())
      ensures r.Some? <==> old(Free()) > 0
      ensures Free() == if r.Some? then old(Free()) - 1 else 0
    {
      hide Unmarked;
      ghost var bits := freeMap.Bits();
      var found := freeMap.ScanAndFlip(0, 1, false);
      UnmarkedNone(bits);
      if found.None? {
        forall s | 0 <= s < |disk|
          ensures old(freeMap.Bits())[s]
        {
          assert !IsGroup(old(freeMap.Bits()), s, 1, false);
        }
        return None;
      }
      assert freeMap.Bits() == bits[found.value := true];
      UnmarkedSet(bits, found.value, true);
      return Some(found.value);
    }

    /** A newly allocated sector, filled with zeros. */
    method AllocateZeroed() returns (r: Option<u32>)
      requires freeMap.Valid() && freeMap.bitCnt == |disk| <= 0x1_0000_0000
      modifies this`disk, freeMap.bits
      ensures r.Some? ==> r.value < |old(disk)| && !old(freeMap.Bits())[r.value]
      ensures freeMap.Bits() == if r.Some? then old(freeMap.Bits())[r.value := true] else old(freeMap.Bits())
      ensures disk == if r.Some? then old(disk)[r.value := Zeros()] else old(disk)
      ensures r.Some? <==> old(Free()) > 0
      ensures Free() == if r.Some? then old(Free()) - 1 else 0
    {
      hide Unmarked;
      r := Allocate();
      if r.Some? {
        disk := disk[r.value := Zeros()];
      }
    }

    /** free_map_release for one sector, which must be in use. */
    method Release(sector: nat)
      requires freeMap.Valid() && sector < freeMap.bitCnt && freeMap.Bits()[sector]
      modifies freeMap.bits
      ensures freeMap.Bits() == old(freeMap.Bits())[sector := false] && Free() == old(Free()) + 1
    {
      hide Unmarked;
      ghost var bits := freeMap.Bits();
      freeMap.SetMultiple(sector, 1, false);
      assert freeMap.Bits() == bits[sector := false];
      UnmarkedSet(bits, sector, false);
    }

    /** Sector SECTOR, allocated and zeroed, becomes data sector I of F by a direct pointer. */
    method AppendDirect(ghost f: nat, d: InodeDisk, i: nat, sector: u32) returns (d': InodeDisk)
      requires Core() && f in nodes && d == nodes[f].(length := d.length) && i == V().N(f) < DIRECT_BLOCKS
      requires Stray(freeMap.Bits(), owner, sector) && disk[sector] == Zeros()
      modifies this`nodes, this`owner
      ensures Grown(old(V()), V(), f, i)
      ensures d' == nodes[f].(length := d.length) && d'.isDir == d.isDir && AgreesTo(d', d, i)
      ensures AllUsed(freeMap.Bits(), owner)
      ensures forall s :: Stray(freeMap.Bits(), owner, s) == (old(Stray(freeMap.Bits(), owner, s)) && s != sector)
    {
      d' := d.(direct := d.direct[i := sector]);
      ghost var v := V();
      nodes := nodes[f := d'.(length := 512 * (i + 1))];
      owner := owner[sector := Owner(f, Data(i))];
      GrewDirect(v, V(), f, i, sector);
    }

    /** The same through the indirect sector, allocated with its first entry. */
    method AppendIndirect(ghost f: nat, d: InodeDisk, i: nat, sector: u32) returns (ok: bool, d': InodeDisk)
      requires Core() && f in nodes && d == nodes[f].(length := d.length)
      requires DIRECT_BLOCKS <= i == V().N(f) < INDIRECT_END
      requires Stray(freeMap.Bits(), owner, sector) && disk[sector] == Zeros()
      modifies this`disk, this`nodes, this`owner, freeMap.bits
      ensures ok <==> old(Free()) >= IndexCost(i)
      ensures freeMap.Valid() && Free() == if ok then old(Free()) - IndexCost(i) else 1
      ensures !ok ==> d' == d && V() == old(V()) && freeMap.Bits() == old(freeMap.Bits())[sector := false]
      ensures ok ==> Grown(old(V()), V(), f, i)
      ensures ok ==> d' == nodes[f].(length := d.length) && d'.isDir == d.isDir && AgreesTo(d', d, i)
      ensures ok ==> AllUsed(freeMap.Bits(), owner)
      ensures ok ==> forall s :: Stray(freeMap.Bits(), owner, s) == (old(Stray(freeMap.Bits(), owner, s)) && s != sector)
    {
      hide Unpack, Pack, Pointer, Loc, Grown, AllUsed, Unmarked, IndexCost, Volume.Valid;
      ghost var v, bits := V(), freeMap.Bits();
      IndirectCost(i);
      d' := d;
      owner := owner[sector := Owner(f, Data(i))];
      Charged(bits, v.owner, sector, Owner(f, Data(i)));
      if i == DIRECT_BLOCKS {
        var r := AllocateZeroed();
        if r.None? {
          owner := v.owner;
          Release(sector);
          return false, d;
        }
        d' := d.(indirect := r.value);
        ChargedNew(bits, owner, d'.indirect, Owner(f, Indirect));
        owner := owner[d'.indirect := Owner(f, Indirect)];
      } else {
        IndexInUse(v, f, i);
      }
      var buf := Unpack(disk[d'.indirect]);
      disk := disk[d'.indirect := Pack(buf[i - DIRECT_BLOCKS := sector])];
      nodes := nodes[f := d'.(length := 512 * (i + 1))];
      ok := true;
      GrewIndirect(v, V(), f, i, sector, d'.indirect);
    }

    /** Makes sure that the sectors indexing data sector I at the doubly indirect level exist;
        INNER is the second-level one. */
    method IndexDoubly(d: InodeDisk, i: nat) returns (ok: bool, d': InodeDisk, inner: u32)
      requires freeMap.Valid() && freeMap.bitCnt == |disk| <= 0x1_0000_0000 && INDIRECT_END <= i < MAX_SECTORS
      requires i > INDIRECT_END ==> d.doublyIndirect < |disk| && freeMap.Bits()[d.doublyIndirect]
      requires Entry(i) != 0 ==> Pointer(disk, d.doublyIndirect, Outer(i)) < |disk|
      modifies this`disk, freeMap.bits
      ensures d' == d.(doublyIndirect := d'.doublyIndirect) && (i > INDIRECT_END ==> d' == d) && |disk| == |old(disk)|
      ensures ok <==> old(Free()) >= IndexCost(i)
      ensures Free() == if ok then old(Free()) - IndexCost(i) else 0
      ensures !ok ==> forall s :: 0 <= s < |disk| && old(freeMap.Bits())[s] ==> disk[s] == old(disk)[s] && freeMap.Bits()[s]
      ensures ok ==> d'.doublyIndirect < |disk| && inner < |disk|
      ensures ok ==> NewlyMarked(old(freeMap.Bits()), i, d'.doublyIndirect, inner, freeMap.Bits())
      ensures ok && Entry(i) != 0 ==> inner == Pointer(old(disk), d.doublyIndirect, Outer(i))
      ensures ok ==> disk == DoublyBase(old(disk), Outer(i), Entry(i), d'.doublyIndirect, inner)
    {
      hide Unpack, Pack, Unmarked;
      var k, j := Outer(i), Entry(i);
      d', inner := d, 0;
      if i == INDIRECT_END {
        var r := AllocateZeroed();
        if r.None? {
          return false, d, 0;
        }
        d' := d.(doublyIndirect := r.value);
      }
      var outer := Unpack(disk[d'.doublyIndirect]);
      if j == 0 {
        var r := AllocateZeroed();
        if r.None? {
          return false, d', 0;
        }
        outer := outer[k := r.value];
        disk := disk[d'.doublyIndirect := Pack(outer)];
      }
      ok, inner := true, outer[k];
    }

    /** The same through the doubly indirect sector and one of its second-level sectors. */
    method AppendDoubly(ghost f: nat, d: InodeDisk, i: nat, sector: u32) returns (ok: bool, d': InodeDisk)
      requires Core() && f in nodes && d == nodes[f].(length := d.length)
      requires INDIRECT_END <= i == V().N(f) < MAX_SECTORS
      requires Stray(freeMap.Bits(), owner, sector) && disk[sector] == Zeros()
      modifies this`disk, this`nodes, this`owner, freeMap.bits
      ensures d'.isDir == d.isDir && AgreesTo(d', d, i) && d'.length == d.length
      ensures AllUsed(freeMap.Bits(), owner)
      ensures ok <==> old(Free()) >= IndexCost(i)
      ensures Free() == if ok then old(Free()) - IndexCost(i) else 1
      ensures !ok ==> nodes == old(nodes) && owner == old(owner) && |disk| == |old(disk)|
      ensures !ok ==> forall s :: s in owner ==> At(disk, s) == At(old(disk), s)
      ensures !ok ==> forall s :: old(Stray(freeMap.Bits(), owner, s)) && s != sector ==> Stray(freeMap.Bits(), owner, s)
      ensures ok ==> Grown(old(V()), V(), f, i) && d' == nodes[f].(length := d.length)
      ensures ok ==> forall s :: Stray(freeMap.Bits(), owner, s) == (old(Stray(freeMap.Bits(), owner, s)) && s != sector)
    {
      hide Unpack, Pack, Pointer, Loc, Grown, AllUsed, DoublyBase, DoublyOwners, Unmarked, IndexCost, Volume.Valid;
      ghost var v, bits := V(), freeMap.Bits();
      IndexInUse(v, f, i);
      InUse(bits, owner);
      var inner;
      ok, d', inner := IndexDoubly(d, i);
      if !ok {
        Release(sector);
        ReleasedOk(bits, owner, sector, freeMap.Bits());
        return false, d';
      }
      var buf := Unpack(disk[inner]);
      disk := disk[inner := Pack(buf[Entry(i) := sector])];
      nodes := nodes[f := d'.(length := 512 * (i + 1))];
      owner := DoublyOwners(owner, f, i, sector, d'.doublyIndirect, inner);
      LinkedDoubly(v, V(), f, i, sector, d'.doublyIndirect, inner, bits, freeMap.Bits());
    }

    /** One round of inode_extend: data sector I of F, with the index sectors it needs. */
    method AppendSector(ghost f: nat, d: InodeDisk, i: nat) returns (ok: bool, d': InodeDisk)
      requires Core() && f in nodes && d == nodes[f].(length := d.length) && i == V().N(f) < MAX_SECTORS
      modifies this`disk, this`nodes, this`owner, freeMap.bits
      ensures Core() && d'.isDir == d.isDir && AgreesTo(d', d, i) && d'.length == d.length
      ensures ok <==> old(Free()) >= 1 + IndexCost(i)
      ensures Free() == if ok then old(Free()) - 1 - IndexCost(i) else if old(Free()) == 0 then 0 else 1
      ensures ok ==> Extended(old(V()), V(), f, i) && V().N(f) == i + 1 && d' == nodes[f].(length := d.length)
      ensures ok ==> forall s :: Stray(freeMap.Bits(), owner, s) == old(Stray(freeMap.Bits(), owner, s))
      ensures !ok ==> nodes == old(nodes) && owner == old(owner) && |disk| == |old(disk)|
      ensures !ok ==> forall s :: s in owner ==> At(disk, s) == At(old(disk), s)
      ensures !ok ==> forall s :: old(Stray(freeMap.Bits(), owner, s)) ==> Stray(freeMap.Bits(), owner, s)
    {
      hide Unpack, Pack, Loc, Grown, Extended, Same, Unmarked, Volume.Valid;
      ghost var v := V();
      var r := AllocateZeroed();
      if r.None? {
        return false, d;
      }
      ghost var u := V();
      Reframed(v, u);
      if i < DIRECT_BLOCKS {
        ok := true;
        d' := AppendDirect(f, d, i, r.value);
      } else if i < INDIRECT_END {
        ok, d' := AppendIndirect(f, d, i, r.value);
      } else {
        ok, d' := AppendDoubly(f, d, i, r.value);
      }
      if ok {
        GrownExtends(v, u, V(), f, i, r.value);
      } else {
        Reframed(v, V());
      }
    }

    /** The loop of inode_extend: data sectors up to NEWSECTORS.  On failure F keeps its bytes,
        although the sectors reached so far stay marked. */
    method ExtendSectors(ghost f: nat, d: InodeDisk, newSectors: nat) returns (ok: bool, d': InodeDisk)
      requires Core() && f in nodes && nodes[f] == d && SectorCount(d.length) <= newSectors <= MAX_SECTORS
      modifies this`disk, this`nodes, this`owner, freeMap.bits
      ensures Core() && |disk| == |old(disk)| && (ok, Free()) == Grow(old(Free()), SectorCount(d.length), newSectors)
      ensures d'.length == d.length && d'.isDir == d.isDir && AgreesTo(d', d, SectorCount(d.length))
      ensures ok ==> Extended(old(V()), V(), f, SectorCount(d.length)) && V().N(f) == newSectors && d' == nodes[f].(length := d.length)
      ensures ok ==> forall s :: Stray(freeMap.Bits(), owner, s) == old(Stray(freeMap.Bits(), owner, s))
      ensures !ok ==> Padded(old(V()), V(), f, d') && owner == old(owner)
      ensures !ok ==> forall s :: old(Stray(freeMap.Bits(), owner, s)) ==> Stray(freeMap.Bits(), owner, s)
    {
      hide Loc, Padded, Same, Extended, AllUsed, Unmarked, IndexCost, Volume.Valid, Volume.Contents;
      ghost var v := V();
      ExtendedRefl(v, f);
      var oldSectors := SectorCount(d.length);
      ok, d' := true, d;
      for i := oldSectors to newSectors
        invariant Core() && f in nodes && Extended(v, V(), f, oldSectors) && V().N(f) == i && |disk| == |old(disk)|
        invariant ok && d' == nodes[f].(length := d.length) && d'.isDir == d.isDir && AgreesTo(d', d, oldSectors)
        invariant Grow(Free(), i, newSectors) == Grow(old(Free()), oldSectors, newSectors)
        invariant forall s :: Stray(freeMap.Bits(), owner, s) == old(Stray(freeMap.Bits(), owner, s))
      {
        ghost var u := V();
        ok, d' := AppendSector(f, d', i);
        if !ok {
          ExtendedKeeps(v, u, f, oldSectors);
          nodes, owner := v.nodes[f := d'], v.owner;
          AllUsedLess(freeMap.Bits(), u.owner, owner);
          GaveUp(v, u, V(), f, d');
          return;
        }
        ExtendedKeeps(u, V(), f, i);
        ExtendedMore(v, u, V(), f, oldSectors);
      }
    }

    /** inode_extend: grows the inode D of F to NEWLENGTH bytes. */
    method Extend(ghost f: nat, d: InodeDisk, newLength: u32) returns (ok: bool, d': InodeDisk)
      requires Core() && f in nodes && nodes[f] == d && d.length <= newLength <= MAX_BYTES
      modifies this`disk, this`nodes, this`owner, freeMap.bits
      ensures Core() && Padded(old(V()), V(), f, d')
      ensures ok <==> old(Free()) >= Footprint(SectorCount(newLength)) - Footprint(SectorCount(d.length))
      ensures (ok, Free()) == Grow(old(Free()), SectorCount(d.length), SectorCount(newLength))
      ensures !ok ==> Free() <= 1
      ensures !ok ==> (Free() == old(Free()) <==> old(Free()) == 0 || (old(Free()) == 1 && IndexCost(SectorCount(d.length)) > 0))
      ensures d'.length == (if ok then newLength else d.length) && d'.isDir == d.isDir && AgreesTo(d', d, SectorCount(d.length))
      ensures ok ==> OwnerGrew(old(owner), owner, f, SectorCount(d.length))
      ensures ok ==> forall s :: Stray(freeMap.Bits(), owner, s) == old(Stray(freeMap.Bits(), owner, s))
      ensures !ok ==> owner == old(owner)
      ensures !ok ==> forall s :: old(Stray(freeMap.Bits(), owner, s)) ==> Stray(freeMap.Bits(), owner, s)
    {
      hide Loc, Padded, Same, Unmarked, Grow, Footprint, IndexCost, Volume.Valid, Volume.Contents;
      ghost var v, free := V(), Free();
      GrowExact(free, SectorCount(d.length), SectorCount(newLength));
      ok, d' := ExtendSectors(f, d, SectorCount(newLength));
      if !ok {
        GrowLoss(free, SectorCount(d.length), SectorCount(newLength));
      }
      if ok {
        ghost var u := V();
        d' := d'.(length := newLength);
        nodes := nodes[f := d'];
        Lengthened(v, u, V(), f, newLength);
      }
    }

    // ----- freeing ------------------------------------------------------------------------

    /** The free map is BITS with the covered roles of F released. */
    ghost predicate Freed(bits: seq<bool>, f: nat, p: Progress)
      requires freeMap.Valid() && |bits| == freeMap.bitCnt
      reads this, freeMap, freeMap.bits
    {
      forall s :: 0 <= s < |bits| ==>
        freeMap.Bits()[s] == (bits[s] && !(s in owner && owner[s].file == f && Covers(p, owner[s].slot)))
    }

    /** F's inode is D and all it owned was in use when BITS was the free map. */
    ghost predicate Freeing(bits: seq<bool>, f: nat, d: InodeDisk)
      reads this, freeMap
    {
      && freeMap.Valid() && |bits| == freeMap.bitCnt == |disk|
      && V().Valid() && AllUsed(bits, owner) && f in nodes && nodes[f] == d
    }

    /** Releases the sector in role SLOT of F, which has not been released before. */
    method ReleaseSlot(sector: nat, ghost f: nat, ghost slot: Slot, ghost bits: seq<bool>, ghost p: Progress, ghost p': Progress)
      requires f in nodes && Freeing(bits, f, nodes[f]) && Freed(bits, f, p)
      requires Uses(V().N(f), slot) && !Covers(p, slot) && sector == V().Where(f, slot)
      requires forall x :: Covers(p', x) == (Covers(p, x) || x == slot)
      modifies freeMap.bits
      ensures Freed(bits, f, p')
    {
      hide Loc;
      Release(sector);
    }

    method FreeDirect(d: InodeDisk, ghost f: nat, ghost bits: seq<bool>) returns (n: nat)
      requires Freeing(bits, f, d) && Freed(bits, f, Progress(0, false, 0, false))
      modifies freeMap.bits
      ensures n == SectorCount(d.length)
      ensures Freed(bits, f, Progress(if n < DIRECT_BLOCKS then n else DIRECT_BLOCKS, false, 0, false))
    {
      hide Volume.Valid, AllUsed;
      n := SectorCount(d.length);
      var directCnt := if n < DIRECT_BLOCKS then n else DIRECT_BLOCKS;
      for i := 0 to directCnt
        invariant Freed(bits, f, Progress(i, false, 0, false))
      {
        ReleaseSlot(d.direct[i], f, Data(i), bits, Progress(i, false, 0, false), Progress(i + 1, false, 0, false));
      }
    }

    method FreeIndirect(d: InodeDisk, n: nat, ghost f: nat, ghost bits: seq<bool>)
      requires Freeing(bits, f, d) && n == SectorCount(d.length) && n > DIRECT_BLOCKS
      requires Freed(bits, f, Progress(DIRECT_BLOCKS, false, 0, false))
      modifies freeMap.bits
      ensures Freed(bits, f, Progress(if n < INDIRECT_END then n else INDIRECT_END, true, 0, false))
    {
      hide Unpack, Volume.Valid, AllUsed;
      IndexInUse(V(), f, n);
      var buf := Unpack(disk[d.indirect]);
      var indCnt := if n - DIRECT_BLOCKS > PTRS_PER_SECTOR then PTRS_PER_SECTOR else n - DIRECT_BLOCKS;
      for i := 0 to indCnt
        invariant Freed(bits, f, Progress(DIRECT_BLOCKS + i, false, 0, false))
      {
        ghost var m := DIRECT_BLOCKS + i;
        ReleaseSlot(buf[i], f, Data(m), bits, Progress(m, false, 0, false), Progress(m + 1, false, 0, false));
      }
      ghost var m := DIRECT_BLOCKS + indCnt;
      ReleaseSlot(d.indirect, f, Indirect, bits, Progress(m, false, 0, false), Progress(m, true, 0, false));
    }

    /** The data sectors of second-level sector K, then that sector. */
    method FreeInner(innerSector: u32, k: nat, innerCnt: nat, ghost d: InodeDisk, ghost n: nat, ghost f: nat, ghost bits: seq<bool>)
      requires Freeing(bits, f, d) && n == SectorCount(d.length) && innerSector == V().Where(f, Inner(k)) < |disk|
      requires INDIRECT_END + 128 * k < n && k < PTRS_PER_SECTOR
      requires innerCnt <= PTRS_PER_SECTOR && INDIRECT_END + 128 * k + innerCnt <= n
      requires Freed(bits, f, Progress(INDIRECT_END + 128 * k, true, k, false))
      modifies freeMap.bits
      ensures Freed(bits, f, Progress(INDIRECT_END + 128 * k + innerCnt, true, k + 1, false))
    {
      hide Unpack, Volume.Valid, AllUsed;
      var inner := Unpack(disk[innerSector]);
      ghost var start := INDIRECT_END + 128 * k;
      for j := 0 to innerCnt
        invariant Freed(bits, f, Progress(start + j, true, k, false))
      {
        assert Outer(start + j) == k && Entry(start + j) == j;
        ReleaseSlot(inner[j], f, Data(start + j), bits, Progress(start + j, true, k, false), Progress(start + j + 1, true, k, false));
      }
      ReleaseSlot(innerSector, f, Inner(k), bits, Progress(start + innerCnt, true, k, false), Progress(start + innerCnt, true, k + 1, false));
    }

    method FreeDoubly(d: InodeDisk, n: nat, ghost f: nat, ghost bits: seq<bool>)
      requires Freeing(bits, f, d) && n == SectorCount(d.length) && n > INDIRECT_END
      requires Freed(bits, f, Progress(INDIRECT_END, true, 0, false))
      modifies freeMap.bits
      ensures exists k :: INDIRECT_END + 128 * k >= n && Freed(bits, f, Progress(n, true, k, true))
    {
      hide Unpack, Volume.Valid, AllUsed;
      IndexInUse(V(), f, n);
      LastSector(V(), f);
      var outer := Unpack(disk[d.doublyIndirect]);
      var remaining := n - INDIRECT_END;
      var outerCnt := (remaining + PTRS_PER_SECTOR - 1) / 128;
      for i := 0 to outerCnt
        invariant remaining == if i < outerCnt then n - INDIRECT_END - 128 * i else 0
        invariant Freed(bits, f, Progress(n - remaining, true, i, false))
      {
        InnerInUse(V(), f, i);
        var innerCnt := if remaining < PTRS_PER_SECTOR then remaining else PTRS_PER_SECTOR;
        FreeInner(outer[i], i, innerCnt, d, n, f, bits);
        remaining := remaining - innerCnt;
      }
      ReleaseSlot(d.doublyIndirect, f, Doubly, bits, Progress(n, true, outerCnt, false), Progress(n, true, outerCnt, true));
    }

    /** inode_deallocate: releases everything F owns, each sector exactly once. */
    method Deallocate(d: InodeDisk, ghost f: nat, ghost bits: seq<bool>)
      requires Freeing(bits, f, d) && Freed(bits, f, Progress(0, false, 0, false))
      modifies freeMap.bits
      ensures forall s :: 0 <= s < |bits| ==> freeMap.Bits()[s] == (bits[s] && !(s in owner && owner[s].file == f))
    {
      hide Volume.Recorded, Volume.Reached, AllUsed;
      AllInUse(V(), f);
      var n := FreeDirect(d, f, bits);
      if n <= DIRECT_BLOCKS {
        return;
      }
      FreeIndirect(d, n, f, bits);
      if n <= INDIRECT_END {
        return;
      }
      FreeDoubly(d, n, f, bits);
    }

    // ----- creating, opening, closing ---------------------------------------------------------

    /** An in-memory inode for SECTOR, grown from nothing to LENGTH bytes. */
    method NewInode(sector: u32, length: u32) returns (ok: bool, d: InodeDisk)
      requires Core() && Stray(freeMap.Bits(), owner, sector) && sector !in nodes && length <= MAX_BYTES
      modifies this`disk, this`nodes, this`owner, freeMap.bits
      ensures Core() && Padded(WithNew(old(V()), sector, EMPTY_INODE), V(), sector, d) && (ok ==> d.length == length)
      ensures (ok, Free()) == Grow(old(Free()), 0, SectorCount(length))
      ensures ok ==> OwnerAdds(old(owner), owner, sector)
      ensures ok ==> forall s :: Stray(freeMap.Bits(), owner, s) == (old(Stray(freeMap.Bits(), owner, s)) && s != sector)
      ensures !ok ==> owner == old(owner)[sector := Owner(sector, Self)]
      ensures !ok ==> forall s :: old(Stray(freeMap.Bits(), owner, s)) && s != sector ==> Stray(freeMap.Bits(), owner, s)
    {
      hide Loc, Padded, Same, AllUsed, Unmarked, Footprint, Grow, IndexCost, OwnerAdds, OwnerGrew, AgreesTo, Volume.Contents, Volume.Valid;
      ghost var v, bits := V(), freeMap.Bits();
      GrowFits(Free(), 0, 0);
      d := EMPTY_INODE;
      nodes, owner := nodes[sector := d], owner[sector := Owner(sector, Self)];
      Charged(bits, v.owner, sector, Owner(sector, Self));
      Created(v, V(), sector);
      ghost var owner1 := owner;
      AddsSelf(v.owner, sector);
      ok := true;
      if length > 0 {
        ok, d := Extend(sector, d, length);
        if ok {
          GrewAdds(owner1, owner, sector, 0);
          AddsTrans(v.owner, owner1, owner, sector);
        }
      } else {
        PaddedRefl(V(), sector);
      }
    }

    /** inode_create in SECTOR, which the caller has allocated; MEMORY is whether calloc succeeds. */
    method Create(sector: u32, length: u32, memory: bool) returns (ok: bool)
      requires Valid() && Stray(freeMap.Bits(), owner, sector) && length <= MAX_BYTES
      modifies this`disk, this`nodes, this`owner, freeMap.bits
      ensures Valid() && |disk| == |old(disk)|
      ensures ok <==> memory && old(Free()) >= Footprint(SectorCount(length))
      ensures if memory then (ok, Free()) == Grow(old(Free()), 0, SectorCount(length)) else freeMap.Bits() == old(freeMap.Bits())
      ensures ok ==> nodes.Keys == old(nodes).Keys + {sector}
      ensures V().Files() == if ok then old(V()).Files()[sector := ZeroPad([], length)] else old(V()).Files()
      ensures ok ==> forall s :: Stray(freeMap.Bits(), owner, s) == (old(Stray(freeMap.Bits(), owner, s)) && s != sector)
      ensures ok ==> OwnerAdds(old(owner), owner, sector)
      ensures !ok ==> nodes == old(nodes) && owner == old(owner)
      ensures !ok ==> forall s :: old(Stray(freeMap.Bits(), owner, s)) ==> Stray(freeMap.Bits(), owner, s)
    {
      hide Loc, Padded, Same, Saved, Mirrors, AllUsed, OwnerAdds, Unmarked, Grow, Volume.Contents, Volume.Files, Volume.Valid;
      GrowExact(Free(), 0, SectorCount(length));
      if !memory {
        return false;
      }
      ghost var v := V();
      Unowned(v, sector);
      var d;
      ok, d := NewInode(sector, length);
      ghost var b := V();
      PaddedFacts(WithNew(v, sector, EMPTY_INODE), b, sector, d);
      if ok {
        disk := disk[sector := EncodeInode(d)];
        MirrorsMore(open, v.nodes, nodes);
        CreatedFile(v, WithNew(v, sector, EMPTY_INODE), b, V(), sector, d);
        FilesUpdated(v, V(), sector);
      } else {
        nodes, owner := v.nodes, v.owner;
        AllUsedLess(freeMap.Bits(), b.owner, owner);
        InUse(freeMap.Bits(), b.owner);
        CreationFailed(v, WithNew(v, sector, EMPTY_INODE), b, V(), sector, d);
        FilesKept(v, V());
      }
    }

    /** inode_open for the live inode in SECTOR; MEMORY is whether malloc succeeds. */
    method Open(sector: nat, memory: bool) returns (ok: bool)
      requires Valid() && sector in nodes
      modifies this`open, this`nodes
      ensures Valid() && nodes.Keys == old(nodes).Keys
      ensures V().Files() == old(V()).Files()
      ensures ok == (sector in old(open) || memory)
      ensures open == if sector in old(open) then old(open)[sector := old(open)[sector].(openCnt := old(open)[sector].openCnt + 1)]
                      else if memory then old(open)[sector := OpenInode(1, false, 0, nodes[sector])]
                      else old(open)
    {
      hide Loc, Same, DecodeInode, AllUsed, Volume.Files, Volume.Valid;
      SelfOwned(V(), sector);
      if sector in open {
        open := open[sector := open[sector].(openCnt := open[sector].openCnt + 1)];
        return true;
      }
      if !memory {
        return false;
      }
      ghost var v := V();
      var data := DecodeInode(disk[sector]);
      open := open[sector := OpenInode(1, false, 0, data)];
      nodes := nodes[sector := data];
      Renoded(v, V(), sector, data);
      FilesKept(v, V());
      return true;
    }

    /** inode_remove: the inode is to be deleted by its last closer. */
    method Remove(f: nat)
      requires Valid() && f in open
      modifies this`open
      ensures Valid() && open == old(open)[f := old(open)[f].(removed := true)]
    {
      open := open[f := open[f].(removed := true)];
    }

    /** inode_deny_write and inode_allow_write. */
    method DenyWrite(f: nat)
      requires Valid() && f in open && open[f].denyWriteCnt < open[f].openCnt
      modifies this`open
      ensures Valid() && open == old(open)[f := old(open)[f].(denyWriteCnt := old(open)[f].denyWriteCnt + 1)]
    {
      open := open[f := open[f].(denyWriteCnt := open[f].denyWriteCnt + 1)];
    }

    method AllowWrite(f: nat)
      requires Valid() && f in open && 0 < open[f].denyWriteCnt <= open[f].openCnt
      modifies this`open
      ensures Valid() && open == old(open)[f := old(open)[f].(denyWriteCnt := old(open)[f].denyWriteCnt - 1)]
    {
      open := open[f := open[f].(denyWriteCnt := open[f].denyWriteCnt - 1)];
    }

    /** Frees exactly what the inode D in sector F owns. */
    method Reclaim(f: nat, d: InodeDisk)
      requires Core() && f in nodes && nodes[f] == d
      modifies this`nodes, this`owner, freeMap.bits
      ensures Core() && nodes == old(nodes) - {f} && owner == old(owner) - old(V()).OwnedBy(f)
      ensures forall s :: 0 <= s < |disk| ==> freeMap.Bits()[s] == (old(freeMap.Bits())[s] && s !in old(V()).OwnedBy(f))
      ensures Free() == old(Free()) + 1 + Footprint(SectorCount(d.length))
      ensures forall g :: g in nodes ==> Same(old(V()), V(), g)
    {
      hide Loc, Same, Unmarked, Footprint, Volume.Valid;
      ghost var v, bits := V(), freeMap.Bits();
      SelfOwned(v, f);
      Release(f);
      ReleasedSelf(v, f, bits, freeMap.Bits());
      Deallocate(d, f, bits);
      nodes, owner := nodes - {f}, owner - v.OwnedBy(f);
      Deleted(v, V(), f);
      UnmarkedLess(bits, freeMap.Bits(), v.OwnedBy(f));
      OwnedCount(v, f);
    }

    /** inode_close: the last close of a removed inode frees exactly what it owned. */
    method Close(f: nat)
      requires Valid() && f in open
      modifies this`open, this`nodes, this`owner, freeMap.bits
      ensures Valid()
      ensures open == if old(open)[f].openCnt == 1 then old(open) - {f}
                      else old(open)[f := old(open)[f].(openCnt := old(open)[f].openCnt - 1)]
      ensures if old(open)[f].openCnt == 1 && old(open)[f].removed then
          && nodes == old(nodes) - {f} && owner == old(owner) - old(V()).OwnedBy(f)
          && (forall s :: 0 <= s < |disk| ==> freeMap.Bits()[s] == (old(freeMap.Bits())[s] && s !in old(V()).OwnedBy(f)))
          && V().Files() == old(V()).Files() - {f} && Free() == old(Free()) + 1 + Footprint(old(V()).N(f))
        else V() == old(V()) && freeMap.Bits() == old(freeMap.Bits())
    {
      hide Loc, Same, Saved, AllUsed, Unmarked, Footprint, Volume.Files, Volume.Valid, Volume.OwnedBy;
      ghost var v := V();
      var inode := open[f];
      if inode.openCnt > 1 {
        open := open[f := inode.(openCnt := inode.openCnt - 1)];
        return;
      }
      open := open - {f};
      if inode.removed {
        Reclaim(f, inode.data);
        FilesKept(v, V());
        StillSavedLess(v, V());
      }
    }

    // ----- reading and writing -----------------------------------------------------------------

    /** byte_to_sector: the sector holding byte POS of F, if F has one. */
    method ByteToSector(d: InodeDisk, pos: nat, ghost f: nat) returns (r: Option<nat>)
      requires V().Valid() && f in nodes && nodes[f] == d
      ensures r.Some? <==> pos < d.length
      ensures r.Some? ==> r.value == V().Where(f, Data(pos / 512)) < |disk|
    {
      hide Unpack, Volume.Valid;
      if pos >= d.length {
        return None;
      }
      var idx := pos / 512;
      ghost var n := V().N(f);
      assert idx < n;
      InRange(V(), f, idx);
      IndexInUse(V(), f, n);
      LastSector(V(), f);
      if idx < DIRECT_BLOCKS {
        return Some(d.direct[idx]);
      }
      if idx < INDIRECT_END {
        var buffer := Unpack(disk[d.indirect]);
        return Some(buffer[idx - DIRECT_BLOCKS]);
      }
      InnerInUse(V(), f, Outer(idx));
      var outer := Unpack(disk[d.doublyIndirect]);
      var inner := Unpack(disk[outer[Outer(idx)]]);
      return Some(inner[Entry(idx)]);
    }

    /** One round of the loop of inode_read_at: the next chunk at POS, or none if the file ends
        here or a bounce buffer would be needed and there is no MEMORY for it. */
    method ReadChunk(d: InodeDisk, pos: nat, left: nat, memory: bool, ghost f: nat) returns (r: Option<seq<byte>>)
      requires V().Valid() && f in nodes && nodes[f] == d && left > 0
      ensures r.Some? <==> pos < d.length && (memory || WholeSector(pos, ChunkSize(d.length, pos, left)))
      ensures r.Some? ==> 0 < |r.value| == ChunkSize(d.length, pos, left)
      ensures r.Some? ==> r.value == V().Contents(f)[pos..pos + |r.value|]
    {
      hide Loc, Volume.Valid, Volume.Contents;
      var sector := ByteToSector(d, pos, f);
      var sectorOfs := pos % 512;
      var chunk := ChunkSize(d.length, pos, left);
      if chunk <= 0 {
        return None;
      }
      if !WholeSector(pos, chunk) && !memory {
        return None;
      }
      ChunkRead(V(), f, pos, chunk);
      return Some(disk[sector.value][sectorOfs..sectorOfs + chunk]);
    }

    /** inode_read_at: the bytes of F from OFFSET on, at most SIZE.  Without MEMORY for a bounce
        buffer only whole sectors are read. */
    method ReadAt(f: nat, size: nat, offset: nat, memory: bool) returns (buffer: seq<byte>)
      requires Valid() && f in open
      ensures var window := Window(V().Contents(f), offset, size);
        buffer == window[..Accepted(|window|, offset, memory)]
      ensures Reads(V().Contents(f), offset, size, memory, buffer)
    {
      hide Loc, Saved, AllUsed, Window, Accepted, Reads, ChunkSize, WholeSector, Even, Volume.Valid, Volume.Contents;
      ghost var bytes := V().Contents(f);
      ghost var window := Window(bytes, offset, size);
      ghost var length := open[f].data.length;
      WindowLength(bytes, offset, size);
      buffer := [];
      EvenNone(offset, memory);
      while |buffer| < size
        invariant |buffer| <= |window| && buffer == window[..|buffer|] && Even(offset, |buffer|, memory)
        decreases size - |buffer|
      {
        ghost var n := |buffer|;
        var r := ReadChunk(open[f].data, offset + |buffer|, size - |buffer|, memory, f);
        if r.None? {
          break;
        }
        WindowGrows(bytes, offset, size, n, |r.value|);
        EvenMore(length, offset, n, size - n, memory);
        buffer := buffer + r.value;
      }
      StopsAt(length, offset, size, |buffer|, memory);
      WindowRead(bytes, offset, size, memory);
    }

    /** One round of the loop of inode_write_at: writes what fits into the sector of POS; zero
        bytes if the file ends here or a bounce buffer would be needed and there is no MEMORY. */
    method WriteChunk(f: nat, pos: nat, data: seq<byte>, memory: bool) returns (n: nat)
      requires Valid() && f in open && |data| > 0
      modifies this`disk
      ensures Valid() && |disk| == |old(disk)|
      ensures n > 0 <==> pos < nodes[f].length && (memory || WholeSector(pos, ChunkSize(nodes[f].length, pos, |data|)))
      ensures n > 0 ==> n == ChunkSize(nodes[f].length, pos, |data|) <= |data| && pos + n <= |old(V()).Contents(f)|
      ensures V().Contents(f) == if n > 0 then Overlay(old(V()).Contents(f), pos, data[..n]) else old(V()).Contents(f)
      ensures forall g :: g in nodes && g != f ==> Same(old(V()), V(), g)
    {
      hide Loc, Saved, Same, AllUsed, Mirrors, ChunkSize, Volume.Valid, Volume.Contents;
      ghost var v := V();
      Mirrored(open, nodes, f);
      var sector := ByteToSector(open[f].data, pos, f);
      var sectorOfs := pos % 512;
      var chunk := ChunkSize(open[f].data.length, pos, |data|);
      if chunk <= 0 || (!WholeSector(pos, chunk) && !memory) {
        SameAsItself(v);
        return 0;
      }
      n := chunk;
      if WholeSector(pos, n) {
        assert data[..n] == Overlay(disk[sector.value], 0, data[..n]);
        disk := disk[sector.value := data[..n]];
      } else {
        var bounce := Overlay(disk[sector.value], sectorOfs, data[..n]);
        disk := disk[sector.value := bounce];
      }
      ChunkStored(v, V(), f, pos, data[..n]);
    }

    /** Makes F at least LENGTH bytes long, zero-filled, and writes its inode out. */
    method Reserve(f: nat, length: u32) returns (ok: bool)
      requires Valid() && f in open && open[f].data.length < length <= MAX_BYTES
      modifies this`disk, this`open, this`nodes, this`owner, freeMap.bits
      ensures Valid() && nodes.Keys == old(nodes).Keys && |disk| == |old(disk)|
      ensures f in nodes && open == old(open)[f := old(open)[f].(data := nodes[f])]
      ensures (ok, Free()) == Grow(old(Free()), SectorCount(old(open)[f].data.length), SectorCount(length))
      ensures V().Contents(f) == ZeroPad(old(V()).Contents(f), if ok then length else 0)
      ensures forall g :: g in nodes && g != f ==> Same(old(V()), V(), g)
      ensures ok ==> OwnerAdds(old(owner), owner, f)
      ensures ok ==> forall s :: Stray(freeMap.Bits(), owner, s) == old(Stray(freeMap.Bits(), owner, s))
      ensures !ok ==> owner == old(owner)
      ensures !ok ==> forall s :: old(Stray(freeMap.Bits(), owner, s)) ==> Stray(freeMap.Bits(), owner, s)
    {
      hide Loc, Saved, Same, Padded, AllUsed, Mirrors, OwnerGrew, Unmarked, Grow, Footprint, Volume.Valid, Volume.Contents;
      ghost var v := V();
      Mirrored(open, nodes, f);
      SelfOwned(v, f);
      var d;
      ok, d := Extend(f, open[f].data, length);
      ghost var b := V();
      PaddedFacts(v, b, f, d);
      open := open[f := open[f].(data := d)];
      MirrorsSet(old(open), v.nodes, f, d);
      if ok {
        disk := disk[f := EncodeInode(d)];
        GrewAdds(v.owner, owner, f, SectorCount(v.nodes[f].length));
      }
      PaddedSaved(v, b, V(), f, d, ok);
    }

    /** The loop of inode_write_at, once the file is long enough. */
    method Store(f: nat, data: seq<byte>, offset: nat, memory: bool) returns (written: nat)
      requires Valid() && f in open && f in nodes && offset + |data| <= |V().Contents(f)|
      modifies this`disk
      ensures Valid() && |disk| == |old(disk)|
      ensures written == Accepted(|data|, offset, memory)
      ensures V().Contents(f) == Overlay(old(V()).Contents(f), offset, data[..written])
      ensures forall g :: g in nodes && g != f ==> Same(old(V()), V(), g)
    {
      hide Loc, Saved, Same, AllUsed, Mirrors, Overlay, Accepted, ChunkSize, WholeSector, Even, Volume.Valid, Volume.Contents;
      ghost var v := V();
      EvenNone(offset, memory);
      SameAsItself(v);
      OverlayNothing(v.Contents(f), offset);
      assert data[..0] == [];
      written := 0;
      while written < |data|
        invariant written <= |data| && Valid() && |disk| == |old(disk)|
        invariant V().Contents(f) == Overlay(v.Contents(f), offset, data[..written])
        invariant forall g :: g in nodes && g != f ==> Same(v, V(), g)
        invariant Even(offset, written, memory)
      {
        ghost var u := V();
        var n := WriteChunk(f, offset + written, data[written..], memory);
        SameTransAll(v, u, V(), f);
        if n == 0 {
          break;
        }
        OverlayTwice(v.Contents(f), offset, data[..written], data[written..][..n]);
        assert data[..written] + data[written..][..n] == data[..written + n];
        EvenMore(nodes[f].length, offset, written, |data| - written, memory);
        written := written + n;
      }
      StopsAt(nodes[f].length, offset, |data|, written, memory);
    }

    /** inode_write_at.  GROWN is whether the file accepted the write: it was not denied and, where
        the write reaches past the end, the file could be extended.  If so the file is padded with
        zeros to the end of the write and overlaid with what was written, else it is unchanged.
        Without MEMORY for a bounce buffer only whole sectors are written. */
    method WriteAt(f: nat, data: seq<byte>, offset: nat, memory: bool) returns (written: nat, ghost grown: bool)
      requires Valid() && f in open && f in nodes && offset + |data| <= MAX_BYTES
      modifies this`disk, this`open, this`nodes, this`owner, freeMap.bits
      ensures Valid() && nodes.Keys == old(nodes).Keys && |disk| == |old(disk)|
      ensures open == old(open)[f := old(open)[f].(data := nodes[f])]
      ensures var from, to := SectorCount(old(nodes)[f].length), SectorCount(offset + |data|);
        && (grown <==> old(open)[f].denyWriteCnt == 0 && (to <= from || old(Free()) >= Footprint(to) - Footprint(from)))
        && Free() == if old(open)[f].denyWriteCnt == 0 then Grow(old(Free()), from, to).1 else old(Free())
      ensures old(open)[f].denyWriteCnt > 0 ==> V() == old(V()) && freeMap.Bits() == old(freeMap.Bits())
      ensures written == if grown then Accepted(|data|, offset, memory) else 0
      ensures V().Files() == if grown then old(V()).Files()[f := Patched(old(V()).Contents(f), offset, data, written)] else old(V()).Files()
      ensures grown ==> Overwritten(old(V()).Contents(f), V().Contents(f), offset, data, written) && Transferred(|data|, offset, written, memory)
      ensures !grown ==> V().Contents(f) == old(V()).Contents(f)
      ensures grown ==> OwnerAdds(old(owner), owner, f)
      ensures grown ==> forall s :: Stray(freeMap.Bits(), owner, s) == old(Stray(freeMap.Bits(), owner, s))
      ensures !grown ==> owner == old(owner)
      ensures !grown ==> forall s :: old(Stray(freeMap.Bits(), owner, s)) ==> Stray(freeMap.Bits(), owner, s)
    {
      hide Loc, Saved, Same, AllUsed, Mirrors, Overlay, Overwritten, Transferred, Unmarked, Grow, Footprint, Volume.Files, Volume.Valid, Volume.Contents;
      ghost var v := V();
      SameAsItself(v);
      Mirrored(open, nodes, f);
      GrowFits(Free(), SectorCount(open[f].data.length), SectorCount(offset + |data|));
      if open[f].denyWriteCnt > 0 {
        return 0, false;
      }
      grown := true;
      if offset + |data| > open[f].data.length {
        grown := false;
        var ok := Reserve(f, offset + |data|);
        if !ok {
          FilesUnchanged(v, V(), f);
          return 0, false;
        }
        grown := true;
      }
      ghost var u := V();
      written := Store(f, data, offset, memory);
      SameTransAll(v, u, V(), f);
      FilesUpdated(v, V(), f);
      PatchedBytes(v.Contents(f), offset, data, written);
      AcceptedAll(|data|, offset, memory);
    }

    /** A new file of LENGTH bytes in a newly allocated sector, as filesys_create makes it. */
    method CreateFile(length: u32, memory: bool) returns (r: Option<nat>)
      requires Valid() && length <= MAX_BYTES
      modifies this`disk, this`nodes, this`owner, freeMap.bits
      ensures Valid() && |disk| == |old(disk)|
      ensures r.Some? <==> memory && old(Free()) >= 1 + Footprint(SectorCount(length))
      ensures Free() == FreeAfterCreate(old(Free()), SectorCount(length), memory)
      ensures !memory ==> freeMap.Bits() == old(freeMap.Bits())
      ensures r.Some? ==> r.value !in old(nodes) && nodes.Keys == old(nodes).Keys + {r.value}
      ensures r.Some? ==> V().Files() == old(V()).Files()[r.value := ZeroPad([], length)]
      ensures r.Some? ==> OwnerAdds(old(owner), owner, r.value)
      ensures r.Some? ==> forall s :: Stray(freeMap.Bits(), owner, s) == old(Stray(freeMap.Bits(), owner, s))
      ensures r.None? ==> V().Files() == old(V()).Files() && owner == old(owner) && nodes == old(nodes)
      ensures r.None? ==> forall s :: old(Stray(freeMap.Bits(), owner, s)) ==> Stray(freeMap.Bits(), owner, s)
    {
      hide Loc, Saved, Same, Mirrors, AllUsed, ZeroPad, OwnerAdds, Unmarked, Grow, Footprint, Volume.Files, Volume.Valid, Volume.Contents;
      ghost var v, bits := V(), freeMap.Bits();
      var sector := Allocate();
      if sector.None? {
        return None;
      }
      AllocatedOk(v, bits, sector.value);
      var ok := Create(sector.value, length, memory);
      if !ok {
        ghost var bits' := freeMap.Bits();
        Release(sector.value);
        ReleasedOk(bits', owner, sector.value, freeMap.Bits());
        return None;
      }
      return Some(sector.value);
    }

    /** File F, which nobody has open, is opened, and DATA written at OFFSET. */
    method Fill(f: nat, data: seq<byte>, offset: nat) returns (ok: bool)
      requires Valid() && f in nodes && f !in open && offset + |data| <= MAX_BYTES && |data| > 0
      modifies this`disk, this`open, this`nodes, this`owner, freeMap.bits
      ensures Valid() && |disk| == |old(disk)|
      ensures ok <==>
        old(Free()) >= Footprint(SectorCount(Larger(old(nodes)[f].length, offset + |data|))) - Footprint(SectorCount(old(nodes)[f].length))
      ensures ok ==> f in open && open[f].openCnt == 1 && open - {f} == old(open)
      ensures ok ==> V().Files() - {f} == old(V()).Files() - {f} && OwnerAdds(old(owner), owner, f)
      ensures ok ==> forall s :: Stray(freeMap.Bits(), owner, s) == old(Stray(freeMap.Bits(), owner, s))
    {
      hide Loc, Saved, Same, Mirrors, Stray, AllUsed, Patched, Unmarked, Grow, Footprint, SectorCount, Accepted, OwnerAdds,
        Volume.Files, Volume.Valid, Volume.Contents;
      ghost var v := V();
      CountsMonotone(nodes[f].length, offset + |data|);
      FootprintMonotone(SectorCount(nodes[f].length), SectorCount(offset + |data|));
      var _ := Open(f, true);
      ghost var u := V();
      SameLength(v, u, f);
      var written, grown := WriteAt(f, data, offset, true);
      AllAccepted(|data|, offset);
      ok := written > 0;
      if ok {
        FilesElsewhere(v, f, Patched(u.Contents(f), offset, data, written));
      }
    }

    /** A new file of LENGTH bytes, opened, with DATA written at OFFSET. */
    method Populate(length: u32, data: seq<byte>, offset: nat) returns (r: Option<nat>)
      requires Valid() && length <= MAX_BYTES && offset + |data| <= MAX_BYTES && |data| > 0
      modifies this`disk, this`open, this`nodes, this`owner, freeMap.bits
      ensures Valid() && |disk| == |old(disk)|
      ensures r.Some? <==> old(Free()) >= 1 + Footprint(SectorCount(Larger(length, offset + |data|)))
      ensures r.Some? ==> r.value in open && open[r.value].openCnt == 1 && r.value !in old(open) && open - {r.value} == old(open)
      ensures r.Some? ==> r.value !in old(nodes) && V().Files() - {r.value} == old(V()).Files()
      ensures r.Some? ==> OwnerAdds(old(owner), owner, r.value)
      ensures r.Some? ==> forall s :: Stray(freeMap.Bits(), owner, s) == old(Stray(freeMap.Bits(), owner, s))
    {
      hide Loc, Saved, Same, Mirrors, Stray, AllUsed, ZeroPad, Unmarked, Grow, Footprint, SectorCount, OwnerAdds,
        Volume.Files, Volume.Valid, Volume.Contents;
      ghost var v := V();
      CountsMonotone(length, offset + |data|);
      CreateExact(Free(), SectorCount(length));
      FootprintMonotone(SectorCount(length), SectorCount(offset + |data|));
      r := CreateFile(length, true);
      if r.None? {
        return;
      }
      NotOpen(open, v.nodes, r.value);
      NewLength(v, V(), r.value, length);
      FilesWithout(v, r.value, ZeroPad([], length));
      ghost var owner1 := owner;
      var ok := Fill(r.value, data, offset);
      if !ok {
        return None;
      }
      AddsTrans(v.owner, owner1, owner, r.value);
    }

    /** A file that is created, opened, grown by a write, removed and closed leaves the free map, all
        other files and the open inodes as they were, exactly when there was space for it. */
    method Lifetime(length: u32, data: seq<byte>, offset: nat) returns (done: bool)
      requires Valid() && length <= MAX_BYTES && offset + |data| <= MAX_BYTES && |data| > 0
      modifies this`disk, this`open, this`nodes, this`owner, freeMap.bits
      ensures Valid()
      ensures done <==> old(Free()) >= 1 + Footprint(SectorCount(Larger(length, offset + |data|)))
      ensures done ==> freeMap.Bits() == old(freeMap.Bits()) && V().Files() == old(V()).Files() && open == old(open)
    {
      hide Loc, Saved, Same, Mirrors, Stray, OwnerAdds, Unmarked, Footprint, Volume.Files, Volume.Valid, Volume.Contents, Volume.OwnedBy;
      ghost var v, bits := V(), freeMap.Bits();
      var r := Populate(length, data, offset);
      if r.None? {
        return false;
      }
      Remove(r.value);
      ghost var w, bits' := V(), freeMap.Bits();
      Close(r.value);
      Restored(v, bits, w, bits', r.value, freeMap.Bits());
      return true;
    }
  }

  lemma AllocatedOk(v: Volume, bits: seq<bool>, f: nat)
    requires v.Valid() && AllUsed(bits, v.owner) && f < |bits| && !bits[f]
    ensures f !in v.nodes && AllUsed(bits[f := true], v.owner) && Stray(bits[f := true], v.owner, f)
    ensures forall s :: Stray(bits[f := true], v.owner, s) == (Stray(bits, v.owner, s) || s == f)
  {
    Unowned(v, f);
  }

  /** BYTES padded to the end of DATA, with the first WRITTEN bytes of DATA written at OFFSET. */
  function Patched(bytes: seq<byte>, offset: nat, data: seq<byte>, written: nat): seq<byte>
    requires written <= |data|
  {
    Overlay(ZeroPad(bytes, offset + |data|), offset, data[..written])
  }

  /** After a write of the first WRITTEN bytes of DATA at OFFSET the file reaches at least to the end of DATA; those
      bytes are in their places, the other bytes are as they were, and new ones are zero. */
  ghost predicate Overwritten(was: seq<byte>, bytes: seq<byte>, offset: nat, data: seq<byte>, written: nat) {
    && written <= |data| && |bytes| == (if |was| < offset + |data| then offset + |data| else |was|)
    && forall p :: 0 <= p < |bytes| ==>
         bytes[p] == if offset <= p < offset + written then data[p - offset] else if p < |was| then was[p] else 0
  }

  /** Of N bytes from OFFSET on, K are transferred: all of them, or without MEMORY only whole sectors, as many as there
      are if they start with a sector. */
  predicate Transferred(n: nat, offset: nat, k: nat, memory: bool) {
    && k <= n && (memory ==> k == n)
    && (!memory ==> k % 512 == 0 && if offset % 512 == 0 then n - k < 512 else k == 0)
  }

  /** BUFFER has what a read of SIZE bytes at OFFSET transfers: bytes of the file, up to its end. */
  ghost predicate Reads(bytes: seq<byte>, offset: nat, size: nat, memory: bool, buffer: seq<byte>) {
    && (forall j :: 0 <= j < |buffer| ==> offset + j < |bytes| && buffer[j] == bytes[offset + j])
    && Transferred(if offset >= |bytes| then 0 else if offset + size <= |bytes| then size else |bytes| - offset, offset, |buffer|, memory)
  }

  lemma PatchedBytes(was: seq<byte>, offset: nat, data: seq<byte>, written: nat)
    requires written <= |data|
    ensures Overwritten(was, Patched(was, offset, data, written), offset, data, written)
  {
  }

  lemma AcceptedAll(n: nat, offset: nat, memory: bool)
    ensures Transferred(n, offset, Accepted(n, offset, memory), memory)
  {
  }

  lemma WindowRead(bytes: seq<byte>, offset: nat, size: nat, memory: bool)
    ensures var window := Window(bytes, offset, size); Reads(bytes, offset, size, memory, window[..Accepted(|window|, offset, memory)])
  {
    hide Accepted, Transferred;
    AcceptedAll(|Window(bytes, offset, size)|, offset, memory);
  }

  lemma AllRead(bytes: seq<byte>, from: nat, size: nat, buffer: seq<byte>)
    requires Reads(bytes, from, size, true, buffer) && from + size <= |bytes|
    ensures |buffer| == size && forall j :: 0 <= j < size ==> buffer[j] == bytes[from + j]
  {
    var n := if from >= |bytes| then 0 else if from + size <= |bytes| then size else |bytes| - from;
    assert n == size && Transferred(n, from, |buffer|, true);
  }

  /** Reading what was written gives it back; reading the gap in front of it gives zeros; and what lies before or
      behind reads as before. */
  lemma ReadsBack(was: seq<byte>, bytes: seq<byte>, offset: nat, data: seq<byte>, from: nat, size: nat, buffer: seq<byte>)
    requires Overwritten(was, bytes, offset, data, |data|) && Reads(bytes, from, size, true, buffer)
    ensures from == offset && size == |data| ==> buffer == data
    ensures |was| <= from && from + size <= offset ==> buffer == seq(size, _ => 0)
    ensures from + size <= |was| && (from + size <= offset || offset + |data| <= from) ==> buffer == was[from..from + size]
  {
    assert |was| <= |bytes| && offset + |data| <= |bytes|;
    if from + size <= |bytes| {
      AllRead(bytes, from, size, buffer);
    }
    if from == offset && size == |data| {
      assert forall j :: 0 <= j < size ==> buffer[j] == bytes[from + j] == data[j];
    }
    if |was| <= from && from + size <= offset {
      assert forall j :: 0 <= j < size ==> buffer[j] == bytes[from + j] == 0;
    }
    if from + size <= |was| && (from + size <= offset || offset + |data| <= from) {
      assert forall j :: 0 <= j < size ==> buffer[j] == bytes[from + j] == was[from..from + size][j];
    }
  }

  /** What filesys_create leaves of FREE free sectors for a file with N data sectors. */
  function FreeAfterCreate(free: nat, n: nat, memory: bool): nat {
    if free == 0 || !memory then free
    else var (ok, left) := Grow(free - 1, 0, n); if ok then left else left + 1
  }

  lemma CreateExact(free: nat, n: nat)
    ensures free >= 1 + Footprint(n) ==> FreeAfterCreate(free, n, true) == free - 1 - Footprint(n)
    ensures free < 1 + Footprint(n) ==> FreeAfterCreate(free, n, true) <= 2
  {
    if free > 0 {
      GrowExact(free - 1, 0, n);
    }
  }

  lemma AddsTrans(a: map<nat, Owner>, b: map<nat, Owner>, c: map<nat, Owner>, f: nat)
    requires OwnerAdds(a, b, f) && OwnerAdds(b, c, f)
    ensures OwnerAdds(a, c, f)
  {
  }

  lemma AddsSelf(a: map<nat, Owner>, f: nat)
    requires f !in a
    ensures OwnerAdds(a, a[f := Owner(f, Self)], f)
  {
  }

  lemma AllAccepted(n: nat, offset: nat)
    ensures Accepted(n, offset, true) == n
  {
  }

  lemma CountsMonotone(a: nat, b: nat)
    ensures if a <= b then SectorCount(a) <= SectorCount(b) else SectorCount(b) <= SectorCount(a)
  {
  }

  function Larger(a: nat, b: nat): nat {
    if a < b then b else a
  }

  lemma NewLength(v: Volume, w: Volume, f: nat, length: nat)
    requires f in w.nodes && w.Files() == v.Files()[f := ZeroPad([], length)]
    ensures w.nodes[f].length == length
  {
    hide Loc, Volume.Contents;
    assert f in w.Files();
  }

  lemma FilesWithout(v: Volume, f: nat, bytes: seq<byte>)
    requires f !in v.nodes
    ensures v.Files()[f := bytes] - {f} == v.Files()
  {
  }

  lemma FilesElsewhere(v: Volume, f: nat, bytes: seq<byte>)
    ensures v.Files()[f := bytes] - {f} == v.Files() - {f}
  {
  }

  lemma SameLength(v: Volume, w: Volume, f: nat)
    requires f in v.nodes && f in w.nodes && w.Files() == v.Files()
    ensures w.nodes[f].length == v.nodes[f].length
  {
    hide Volume.Contents;
    assert w.Files()[f] == v.Files()[f];
  }

  /** Once F is gone what is used is again what the others own and what was stray. */
  lemma Restored(v: Volume, bits: seq<bool>, w: Volume, bits': seq<bool>, f: nat, bits'': seq<bool>)
    requires v.Valid() && f !in v.nodes && AllUsed(bits, v.owner) && AllUsed(bits', w.owner)
    requires |bits| == |bits'| == |bits''| && OwnerAdds(v.owner, w.owner, f)
    requires forall s :: Stray(bits', w.owner, s) == Stray(bits, v.owner, s)
    requires forall s :: 0 <= s < |bits| ==> bits''[s] == (bits'[s] && s !in w.OwnedBy(f))
    ensures bits'' == bits
  {
    hide Volume.Valid;
    NotOwner(v, f);
    forall s | 0 <= s < |bits|
      ensures bits''[s] == bits[s]
    {
      assert Stray(bits', w.owner, s) == Stray(bits, v.owner, s);
    }
  }

  lemma NotOpen(open: map<nat, OpenInode>, nodes: map<nat, InodeDisk>, f: nat)
    requires Mirrors(open, nodes) && f !in nodes
    ensures f !in open
  {
  }

  lemma FilesUnchanged(v: Volume, w: Volume, f: nat)
    requires f in v.nodes && w.nodes.Keys == v.nodes.Keys && w.Contents(f) == v.Contents(f)
    requires forall g :: g in v.nodes && g != f ==> Same(v, w, g)
    ensures w.Files() == v.Files()
  {
    hide Same, Loc, Volume.Contents;
    FilesUpdated(v, w, f);
  }

  lemma OverlayNothing(bytes: seq<byte>, pos: nat)
    requires pos <= |bytes|
    ensures Overlay(bytes, pos, []) == bytes
  {
  }

  lemma SameTransAll(v: Volume, u: Volume, w: Volume, f: nat)
    requires forall g :: g in v.nodes && g != f ==> Same(v, u, g)
    requires forall g :: g in u.nodes && g != f ==> Same(u, w, g)
    ensures forall g :: g in v.nodes && g != f ==> Same(v, w, g)
  {
    hide Same;
    forall g | g in v.nodes && g != f
      ensures Same(v, w, g)
    {
      assert g in u.nodes by { SameFiles(v, u, g); }
      SameTrans(v, u, w, g);
    }
  }

  lemma SameFiles(v: Volume, w: Volume, f: nat)
    requires Same(v, w, f)
    ensures f in v.nodes && f in w.nodes
  {
  }

  lemma GrewAdds(a: map<nat, Owner>, b: map<nat, Owner>, f: nat, n: nat)
    requires OwnerGrew(a, b, f, n)
    ensures OwnerAdds(a, b, f)
  {
  }

  lemma MirrorsSet(open: map<nat, OpenInode>, nodes: map<nat, InodeDisk>, f: nat, d: InodeDisk)
    requires Mirrors(open, nodes) && f in open
    ensures Mirrors(open[f := open[f].(data := d)], nodes[f := d])
  {
  }

  /** Writing a chunk keeps, besides the index, the saved copies of the inodes. */
  lemma ChunkStored(v: Volume, w: Volume, f: nat, pos: nat, data: seq<byte>)
    requires v.Valid() && Saved(v) && f in v.nodes && |data| > 0 && pos + |data| <= v.nodes[f].length
    requires pos % 512 + |data| <= SECTOR_SIZE && v.Where(f, Data(pos / 512)) < |v.disk|
    requires w == v.(disk := v.disk[v.Where(f, Data(pos / 512)) := Overlay(v.SectorAt(f, pos / 512), pos % 512, data)])
    ensures w.Valid() && Saved(w) && w.Contents(f) == Overlay(v.Contents(f), pos, data)
    ensures forall g :: g in v.nodes && g != f ==> Same(v, w, g)
  {
    hide Loc, Saved, Same, Overlay, Volume.Valid, Volume.Contents;
    var s := v.Where(f, Data(pos / 512));
    ChunkWritten(v, w, f, pos, data);
    DataNotInode(v, f, pos / 512);
    StillSaved(v, w, s);
    SavedAll(v, w, s);
  }

  lemma DataNotInode(v: Volume, f: nat, i: nat)
    requires v.Valid() && f in v.nodes && i < v.N(f)
    ensures v.Where(f, Data(i)) !in v.nodes
  {
    hide Loc;
    var s := v.Where(f, Data(i));
    assert Uses(v.N(f), Data(i));
    if s in v.nodes {
      SelfOwned(v, s);
    }
  }

  lemma SavedAll(v: Volume, w: Volume, f: nat)
    requires w.nodes == v.nodes && f !in v.nodes
    requires forall g :: g in w.nodes && g != f ==> Agrees(DecodeInode(At(w.disk, g)), w.nodes[g])
    ensures Saved(w)
  {
  }

  /** How many of LEFT bytes from POS on lie in the same sector, in a file of LENGTH bytes. */
  function ChunkSize(length: nat, pos: nat, left: nat): (chunk: int)
    ensures chunk > 0 <==> pos < length && left > 0
    ensures chunk > 0 ==> chunk <= left && pos + chunk <= length && pos % 512 + chunk <= 512
    ensures chunk == left || chunk == length - pos || pos % 512 + chunk == 512
  {
    var inodeLeft := length - pos;
    var sectorLeft := SECTOR_SIZE - pos % 512;
    var minLeft := if inodeLeft < sectorLeft then inodeLeft else sectorLeft;
    if left < minLeft then left else minLeft
  }

  /** A chunk that needs no bounce buffer. */
  predicate WholeSector(pos: nat, chunk: int) {
    pos % 512 == 0 && chunk == SECTOR_SIZE
  }

  /** N bytes from OFFSET on have been transferred, without MEMORY for a bounce buffer in whole sectors. */
  predicate Even(offset: nat, n: nat, memory: bool) {
    !memory ==> n % 512 == 0 && (n > 0 ==> offset % 512 == 0)
  }

  lemma EvenNone(offset: nat, memory: bool)
    ensures Even(offset, 0, memory)
  {
  }

  lemma EvenMore(length: nat, offset: nat, n: nat, left: nat, memory: bool)
    requires Even(offset, n, memory) && ChunkSize(length, offset + n, left) > 0
    requires memory || WholeSector(offset + n, ChunkSize(length, offset + n, left))
    ensures Even(offset, n + ChunkSize(length, offset + n, left), memory)
  {
    hide ChunkSize;
  }

  /** How many bytes of a file there are from OFFSET on, at most SIZE. */
  function Avail(length: nat, offset: nat, size: nat): nat {
    if offset >= length then 0 else if offset + size <= length then size else length - offset
  }

  /** Where the transfer stops. */
  lemma StopsAt(length: nat, offset: nat, size: nat, n: nat, memory: bool)
    requires Even(offset, n, memory) && n <= Avail(length, offset, size)
    requires n >= size ||
      !(offset + n < length && (memory || WholeSector(offset + n, ChunkSize(length, offset + n, size - n))))
    ensures n == Accepted(Avail(length, offset, size), offset, memory)
  {
  }

  /** The bytes of a file from OFFSET on, at most SIZE of them. */
  function Window(bytes: seq<byte>, offset: nat, size: nat): seq<byte> {
    if offset >= |bytes| then []
    else if offset + size <= |bytes| then bytes[offset..offset + size]
    else bytes[offset..]
  }

  lemma WindowGrows(bytes: seq<byte>, offset: nat, size: nat, k: nat, chunk: nat)
    requires offset + k + chunk <= |bytes| && k + chunk <= size && chunk > 0
    ensures k + chunk <= |Window(bytes, offset, size)|
    ensures Window(bytes, offset, size)[..k] + bytes[offset + k..offset + k + chunk] == Window(bytes, offset, size)[..k + chunk]
  {
  }

  lemma WindowLength(bytes: seq<byte>, offset: nat, size: nat)
    ensures |Window(bytes, offset, size)| == Avail(|bytes|, offset, size)
  {
  }

  /** How many of N bytes from OFFSET on are transferred: all, or without MEMORY for a bounce
      buffer the whole sectors up to the first partial one. */
  function Accepted(n: nat, offset: nat, memory: bool): (r: nat)
    ensures r <= n
  {
    if memory then n else if offset % 512 == 0 then n - n % 512 else 0
  }

  lemma ChunkRead(v: Volume, f: nat, pos: nat, chunk: nat)
    requires f in v.nodes && pos + chunk <= v.nodes[f].length && pos % 512 + chunk <= SECTOR_SIZE && chunk > 0
    ensures v.Contents(f)[pos..pos + chunk] == v.SectorAt(f, pos / 512)[pos % 512..pos % 512 + chunk]
  {
    hide Loc;
  }

  lemma ReleasedSelf(v: Volume, f: nat, bits: seq<bool>, bits': seq<bool>)
    requires v.Valid() && f in v.nodes && f < |bits| && bits' == bits[f := false]
    ensures forall s :: 0 <= s < |bits| ==>
      bits'[s] == (bits[s] && !(s in v.owner && v.owner[s].file == f && Covers(Progress(0, false, 0, false), v.owner[s].slot)))
  {
    hide Loc;
    SelfOwned(v, f);
    OwnSector(v, f);
  }

  lemma StillSavedLess(v: Volume, w: Volume)
    requires Saved(v) && w.disk == v.disk && forall f :: f in w.nodes ==> f in v.nodes && w.nodes[f] == v.nodes[f]
    ensures Saved(w)
  {
  }

  lemma ExtendedKeeps(v: Volume, w: Volume, f: nat, n: nat)
    requires Extended(v, w, f, n)
    ensures w.nodes.Keys == v.nodes.Keys && OwnerGrew(v.owner, w.owner, f, n) && |w.disk| == |v.disk|
  {
  }

  lemma AllUsedLess(bits: seq<bool>, owner: map<nat, Owner>, owner': map<nat, Owner>)
    requires AllUsed(bits, owner) && forall s :: s in owner' ==> s in owner
    ensures AllUsed(bits, owner')
  {
  }

  lemma SameAsItself(v: Volume)
    ensures forall g :: g in v.nodes ==> Same(v, v, g)
  {
  }

  lemma PaddedRefl(v: Volume, f: nat)
    requires f in v.nodes
    ensures Padded(v, v, f, v.nodes[f])
  {
  }

  lemma PaddedFacts(v: Volume, w: Volume, f: nat, d: InodeDisk)
    requires Padded(v, w, f, d)
    ensures w.nodes == v.nodes[f := d] && |w.disk| == |v.disk|
  {
  }

  lemma Unowned(v: Volume, f: nat)
    requires v.Valid() && f !in v.owner
    ensures f !in v.nodes
  {
    if f in v.nodes {
      SelfOwned(v, f);
    }
  }

  lemma InnerInUse(v: Volume, f: nat, k: nat)
    requires v.Valid() && f in v.nodes && INDIRECT_END + 128 * k < v.N(f)
    ensures v.Where(f, Inner(k)) < |v.disk|
  {
    hide Loc;
    assert Uses(v.N(f), Inner(k));
  }

  /** How far the deallocation of an inode has come. */
  datatype Progress = Progress(data: nat, indirect: bool, inner: nat, doubly: bool)

  predicate Covers(p: Progress, slot: Slot) {
    match slot
    case Self => true
    case Data(i) => i < p.data
    case Indirect => p.indirect
    case Inner(k) => k < p.inner
    case Doubly => p.doubly
  }

  /** The index sectors of IndexDoubly together with the last pointer make a growth step. */
  lemma LinkedDoubly(v: Volume, w: Volume, f: nat, i: nat, sector: u32, doubly: u32, inner: u32, bits: seq<bool>, bits': seq<bool>)
    requires v.Valid() && f in v.nodes && INDIRECT_END <= i == v.N(f) < MAX_SECTORS
    requires AllUsed(bits, v.owner) && Stray(bits, v.owner, sector) && |bits| == |v.disk| && v.disk[sector] == Zeros()
    requires NewlyMarked(bits, i, doubly, inner, bits') && doubly < |v.disk| && inner < |v.disk|
    requires i > INDIRECT_END ==> doubly == v.nodes[f].doublyIndirect
    requires Entry(i) != 0 ==> inner == Pointer(v.disk, doubly, Outer(i))
    requires w.nodes == v.nodes[f := v.nodes[f].(doublyIndirect := doubly, length := 512 * (i + 1))]
    requires w.owner == DoublyOwners(v.owner, f, i, sector, doubly, inner)
    requires w.disk == WithPointer(DoublyBase(v.disk, Outer(i), Entry(i), doubly, inner), inner, Entry(i), sector)
    ensures Grown(v, w, f, i) && AllUsed(bits', w.owner)
    ensures forall s :: Stray(bits', w.owner, s) == (Stray(bits, v.owner, s) && s != sector)
  {
    hide Unpack, Pack, Pointer, Loc, Grown, AllUsed, DoublyBase, DoublyOwners, WithPointer, Volume.Valid;
    IndexInUse(v, f, i);
    InUse(bits, v.owner);
    ChargedDoubly(bits, v.owner, f, i, sector, doubly, inner, bits');
    GrewDoubly(v, w, f, i, sector, doubly, inner);
  }

  lemma ChargedDoubly(bits: seq<bool>, owner: map<nat, Owner>, f: nat, i: nat, sector: u32, doubly: u32, inner: u32, bits': seq<bool>)
    requires INDIRECT_END <= i && AllUsed(bits, owner) && Stray(bits, owner, sector) && NewlyMarked(bits, i, doubly, inner, bits')
    ensures var owner' := DoublyOwners(owner, f, i, sector, doubly, inner);
      && AllUsed(bits', owner')
      && (forall s :: Stray(bits', owner', s) == (Stray(bits, owner, s) && s != sector))
    ensures i == INDIRECT_END ==> doubly !in owner && doubly != sector && doubly != inner
    ensures Entry(i) == 0 ==> inner !in owner && inner != sector
  {
    hide AllUsed;
    var k := Outer(i);
    var owner1, owner2, bits2 := owner[sector := Owner(f, Data(i))], owner[sector := Owner(f, Data(i))], bits;
    Charged(bits, owner, sector, Owner(f, Data(i)));
    if i == INDIRECT_END {
      ChargedNew(bits, owner1, doubly, Owner(f, Doubly));
      bits2, owner2 := bits[doubly := true], owner1[doubly := Owner(f, Doubly)];
    }
    if Entry(i) == 0 {
      ChargedNew(bits2, owner2, inner, Owner(f, Inner(k)));
    }
  }

  /** BITS' marks, on top of BITS, the index sectors that data sector I is the first to need. */
  ghost predicate NewlyMarked(bits: seq<bool>, i: nat, doubly: u32, inner: u32, bits': seq<bool>)
    requires INDIRECT_END <= i
  {
    && (i == INDIRECT_END ==> doubly < |bits| && !bits[doubly])
    && var marked := if i == INDIRECT_END then bits[doubly := true] else bits;
    if Entry(i) == 0 then inner < |bits| && !marked[inner] && bits' == marked[inner := true] else bits' == marked
  }

  lemma InUse(bits: seq<bool>, owner: map<nat, Owner>)
    requires AllUsed(bits, owner)
    ensures forall s :: s in owner ==> s < |bits| && bits[s]
  {
  }

  /** Releasing a stray sector after others have been marked leaves what is owned in use. */
  lemma ReleasedOk(before: seq<bool>, owner: map<nat, Owner>, sector: nat, after: seq<bool>)
    requires AllUsed(before, owner) && Stray(before, owner, sector) && |after| == |before|
    requires forall s :: 0 <= s < |before| && before[s] && s != sector ==> after[s]
    ensures AllUsed(after, owner)
    ensures forall s :: Stray(before, owner, s) && s != sector ==> Stray(after, owner, s)
  {
  }

  /** The index sectors leading to the last data sector are recorded. */
  lemma IndexInUse(v: Volume, f: nat, i: nat)
    requires v.Valid() && f in v.nodes && i == v.N(f)
    ensures i > DIRECT_BLOCKS ==> v.nodes[f].indirect in v.owner && v.owner[v.nodes[f].indirect] == Owner(f, Indirect)
    ensures i > DIRECT_BLOCKS ==> v.nodes[f].indirect < |v.disk|
    ensures i > INDIRECT_END ==> v.nodes[f].doublyIndirect in v.owner && v.owner[v.nodes[f].doublyIndirect] == Owner(f, Doubly)
    ensures i > INDIRECT_END ==> v.nodes[f].doublyIndirect < |v.disk|
    ensures i > INDIRECT_END && Entry(i) != 0 ==>
      var k := Outer(i);
      var inner := Pointer(v.disk, v.nodes[f].doublyIndirect, k);
      v.Where(f, Inner(k)) == inner < |v.disk| && inner in v.owner && v.owner[inner] == Owner(f, Inner(k))
  {
    hide Pointer;
    assert v.Where(f, Indirect) == v.nodes[f].indirect;
    assert v.Where(f, Doubly) == v.nodes[f].doublyIndirect;
    assert i > DIRECT_BLOCKS ==> Uses(i, Indirect);
    assert i > INDIRECT_END ==> Uses(i, Doubly);
    if i > INDIRECT_END && Entry(i) != 0 {
      assert Uses(i, Inner(Outer(i)));
    }
  }

  // ----- a failed growth ---------------------------------------------------------------------------

  /** On a new volume one file that is too long takes nearly every sector with it: afterwards there is no
      file, and yet at most two sectors are free. */
  method LoseSectors(disk: seq<Sector>) returns (fs: FileSystem, made: Option<nat>)
    requires 2 <= |disk| <= MAX_SECTORS
    ensures fresh(fs) && fs.Valid() && made.None? && fs.V().Files() == map[] && fs.Free() <= 2
  {
    hide Grow, Footprint, Volume.Files;
    fs := new FileSystem(disk);
    ghost var v, free := fs.V(), fs.Free();
    NoFiles(v);
    FootprintGrows(0, |disk|);
    CreateExact(free, |disk|);
    made := fs.CreateFile(512 * |disk|, true);
  }

  lemma NoFiles(v: Volume)
    requires v.nodes == map[]
    ensures v.Files() == map[]
  {
  }
}
