/** The three-level sector index of an inode, as a value (src/filesys/inode.c).

    A volume is the disk, the live inodes and, as the proof's bookkeeping, for every
    sector an inode owns which inode owns it and in which role.  The index is correct
    when that map is exactly the inverse of following pointers: then no two roles of
    any inodes share a sector, and everything reachable is accounted for. */
module Volumes {
  import opened MachineIntegers
  import opened Sectors

  const INDIRECT_END: nat := DIRECT_BLOCKS + PTRS_PER_SECTOR
  const MAX_SECTORS: nat := INDIRECT_END + PTRS_PER_SECTOR * PTRS_PER_SECTOR
  const MAX_BYTES: nat := MAX_SECTORS * 512

  /** The number of data sectors of a file of LENGTH bytes. */
  function SectorCount(length: nat): nat {
    (length + SECTOR_SIZE - 1) / 512
  }

  /** The roles a sector can play for one inode. */
  datatype Slot = Self | Data(i: nat) | Indirect | Doubly | Inner(k: nat)
  {
    predicate Index?() {
      Indirect? || Doubly? || Inner?
    }
  }

  /** The roles in use by an inode with N data sectors. */
  predicate Uses(n: nat, slot: Slot) {
    match slot
    case Self => true
    case Data(i) => i < n
    case Indirect => DIRECT_BLOCKS < n
    case Doubly => INDIRECT_END < n
    case Inner(k) => INDIRECT_END + 128 * k < n
  }

  function At(disk: seq<Sector>, s: nat): Sector {
    if s < |disk| then disk[s] else Zeros()
  }

  function Pointer(disk: seq<Sector>, s: nat, k: nat): u32 {
    if k < PTRS_PER_SECTOR then Unpack(At(disk, s))[k] else 0
  }

  /** Where data sector I is found at the doubly indirect level: the entry of the
      second-level sector, and the entry in that sector. */
  function Outer(i: nat): nat
    requires INDIRECT_END <= i
  {
    (i - INDIRECT_END) / 128
  }

  function Entry(i: nat): nat
    requires INDIRECT_END <= i
  {
    (i - INDIRECT_END) % 128
  }

  /** The sector playing role SLOT for the inode stored in sector F with content D. */
  function Loc(disk: seq<Sector>, f: nat, d: InodeDisk, slot: Slot): nat {
    match slot
    case Self => f
    case Data(i) =>
      if i < DIRECT_BLOCKS then d.direct[i]
      else if i < INDIRECT_END then Pointer(disk, d.indirect, i - DIRECT_BLOCKS)
      else Pointer(disk, Pointer(disk, d.doublyIndirect, Outer(i)), Entry(i))
    case Indirect => d.indirect
    case Doubly => d.doublyIndirect
    case Inner(k) => Pointer(disk, d.doublyIndirect, k)
  }

  predicate ZeroFrom(sector: Sector, start: nat) {
    forall j :: start <= j < SECTOR_SIZE ==> sector[j] == 0
  }

  datatype Owner = Owner(file: nat, slot: Slot)

  datatype Volume = Volume(disk: seq<Sector>, nodes: map<nat, InodeDisk>, owner: map<nat, Owner>)
  {
    function N(f: nat): nat
      requires f in nodes
    {
      SectorCount(nodes[f].length)
    }

    function Where(f: nat, slot: Slot): nat
      requires f in nodes
    {
      Loc(disk, f, nodes[f], slot)
    }

    /** The content of data sector I of file F. */
    function SectorAt(f: nat, i: nat): Sector
      requires f in nodes
    {
      At(disk, Where(f, Data(i)))
    }

    /** The bytes of the file whose inode is in sector F. */
    function Contents(f: nat): (bytes: seq<byte>)
      requires f in nodes
      ensures |bytes| == nodes[f].length
    {
      seq(nodes[f].length, p requires 0 <= p < nodes[f].length => SectorAt(f, p / 512)[p % 512])
    }

    /** The abstract value of a volume: the bytes of every live file. */
    ghost function Files(): map<nat, seq<byte>> {
      map f | f in nodes :: Contents(f)
    }

    /** Every role in use is recorded in the owner map. */
    ghost predicate Recorded() {
      forall f, slot :: f in nodes && Uses(N(f), slot) ==>
        Where(f, slot) in owner && owner[Where(f, slot)] == Owner(f, slot)
    }

    /** Every record in the owner map is a role in use. */
    ghost predicate Reached() {
      forall s :: s in owner ==>
        && s < |disk|
        && owner[s].file in nodes
        && Uses(N(owner[s].file), owner[s].slot)
        && Where(owner[s].file, owner[s].slot) == s
    }

    /** The unused end of a file's last sector holds zeros. */
    ghost predicate ZeroTails() {
      forall f :: f in nodes && nodes[f].length % 512 != 0 ==>
        ZeroFrom(SectorAt(f, nodes[f].length / 512), nodes[f].length % 512)
    }

    ghost predicate Valid() {
      && (forall f :: f in nodes ==> nodes[f].length <= MAX_BYTES)
      && Recorded()
      && Reached()
      && ZeroTails()
    }

    /** The sectors owned by the inode in sector F. */
    ghost function OwnedBy(f: nat): set<nat> {
      set s | s in owner && owner[s].file == f
    }
  }

  // ----- no sector is shared ------------------------------------------------------

  /** Two roles in use, of the same or of different inodes, never share a sector. */
  lemma NoSharing(v: Volume, f: nat, a: Slot, g: nat, b: Slot)
    requires v.Valid() && f in v.nodes && g in v.nodes
    requires Uses(v.N(f), a) && Uses(v.N(g), b) && v.Where(f, a) == v.Where(g, b)
    ensures f == g && a == b
  {
  }

  // ----- framing ------------------------------------------------------------------

  /** Pointers of an inode change only with its inode or its own index sectors. */
  lemma SameWhere(v: Volume, w: Volume, f: nat, slot: Slot)
    requires v.Valid() && f in v.nodes && f in w.nodes && w.nodes[f] == v.nodes[f]
    requires forall s :: s in v.owner && v.owner[s].file == f && v.owner[s].slot.Index?() ==> At(w.disk, s) == At(v.disk, s)
    requires Uses(v.N(f), slot)
    ensures w.Where(f, slot) == v.Where(f, slot)
  {
    hide Unpack, Pack;
    assert Uses(v.N(f), Doubly) ==> v.Where(f, Doubly) in v.owner;
    assert Uses(v.N(f), Indirect) ==> v.Where(f, Indirect) in v.owner;
    if slot.Data? && INDIRECT_END <= slot.i {
      var k := Outer(slot.i);
      assert Uses(v.N(f), Inner(k));
      assert v.Where(f, Inner(k)) in v.owner;
    }
  }

  /** W holds file F exactly as V does: same sectors, same bytes. */
  ghost predicate Same(v: Volume, w: Volume, f: nat) {
    && f in v.nodes && f in w.nodes
    && w.nodes[f].length == v.nodes[f].length
    && (forall slot :: Uses(v.N(f), slot) ==> w.Where(f, slot) == v.Where(f, slot))
    && (forall i :: 0 <= i < v.N(f) ==> w.SectorAt(f, i) == v.SectorAt(f, i))
  }

  lemma Untouched(v: Volume, w: Volume, f: nat)
    requires v.Valid() && f in v.nodes && f in w.nodes && w.nodes[f] == v.nodes[f]
    requires forall s :: s in v.owner && v.owner[s].file == f && !v.owner[s].slot.Self? ==> At(w.disk, s) == At(v.disk, s)
    ensures Same(v, w, f)
  {
    hide Unpack, Pack;
    forall slot | Uses(v.N(f), slot)
      ensures w.Where(f, slot) == v.Where(f, slot)
    {
      SameWhere(v, w, f, slot);
    }
    forall i | 0 <= i < v.N(f)
      ensures w.SectorAt(f, i) == v.SectorAt(f, i)
    {
      assert Uses(v.N(f), Data(i));
    }
  }

  lemma SameContents(v: Volume, w: Volume, f: nat)
    requires Same(v, w, f)
    ensures w.Contents(f) == v.Contents(f)
  {
  }

  // ----- writing one data sector ---------------------------------------------------

  /** Overwriting data sector I of file F changes that sector of F and nothing else. */
  lemma DataWritten(v: Volume, w: Volume, f: nat, i: nat, sector: Sector)
    requires v.Valid() && f in v.nodes && i < v.N(f) && v.Where(f, Data(i)) < |v.disk|
    requires w == v.(disk := v.disk[v.Where(f, Data(i)) := sector])
    requires i == v.nodes[f].length / 512 ==> ZeroFrom(sector, v.nodes[f].length % 512)
    ensures w.Valid()
    ensures forall g :: g in v.nodes && g != f ==> Same(v, w, g)
    ensures forall k :: 0 <= k < v.N(f) ==> w.SectorAt(f, k) == if k == i then sector else v.SectorAt(f, k)
  {
    hide Unpack, Pack;
    forall g | g in v.nodes && g != f
      ensures Same(v, w, g)
    {
      Untouched(v, w, g);
    }
    forall slot | Uses(v.N(f), slot)
      ensures w.Where(f, slot) == v.Where(f, slot)
    {
      SameWhere(v, w, f, slot);
    }
    forall k | 0 <= k < v.N(f)
      ensures w.SectorAt(f, k) == if k == i then sector else v.SectorAt(f, k)
    {
      assert Uses(v.N(f), Data(k));
    }
  }

  // ----- growing a file by one sector -------------------------------------------------

  /** DISK with word K of sector B set to X. */
  function WithPointer(disk: seq<Sector>, b: nat, k: nat, x: u32): seq<Sector>
    requires b < |disk| && k < PTRS_PER_SECTOR
  {
    disk[b := Pack(Unpack(disk[b])[k := x])]
  }

  lemma PointerWritten(disk: seq<Sector>, b: nat, k: nat, x: u32, s: nat, j: nat)
    requires b < |disk| && k < PTRS_PER_SECTOR
    ensures Pointer(WithPointer(disk, b, k, x), s, j) == if s == b && j == k then x else Pointer(disk, s, j)
  {
    hide Unpack, Pack;
    PackedWords(Unpack(disk[b])[k := x]);
  }

  /** W is V with file F grown by data sector I and the index sectors that takes. */
  ghost predicate Grown(v: Volume, w: Volume, f: nat, i: nat) {
    && f in v.nodes && f in w.nodes && w.nodes == v.nodes[f := w.nodes[f]]
    && i == v.N(f) < MAX_SECTORS && w.nodes[f].length == 512 * (i + 1)
    && |w.disk| == |v.disk|
    && GrownFrame(v, w, f)
    && GrownOld(v, w, f, i)
    && GrownNew(v, w, f, i)
    && w.SectorAt(f, i) == Zeros()
  }

  ghost predicate GrownFrame(v: Volume, w: Volume, f: nat) {
    forall s :: s in v.owner ==>
      && s in w.owner && w.owner[s] == v.owner[s]
      && ((v.owner[s].file == f && v.owner[s].slot.Index?()) || At(w.disk, s) == At(v.disk, s))
  }

  ghost predicate GrownOld(v: Volume, w: Volume, f: nat, i: nat)
    requires f in v.nodes && f in w.nodes
  {
    forall slot :: Uses(i, slot) ==> w.Where(f, slot) == v.Where(f, slot)
  }

  ghost predicate GrownNew(v: Volume, w: Volume, f: nat, i: nat)
    requires f in v.nodes && f in w.nodes
  {
    && (forall s :: s in w.owner && s !in v.owner ==>
          s < |w.disk| && w.owner[s].file == f && Uses(i + 1, w.owner[s].slot) && w.Where(f, w.owner[s].slot) == s)
    && (forall slot :: Uses(i + 1, slot) && !Uses(i, slot) ==>
          w.Where(f, slot) in w.owner && w.owner[w.Where(f, slot)] == Owner(f, slot))
  }

  /** Growth keeps the index correct, keeps every other file and zero-fills this one. */
  lemma GrownIsValid(v: Volume, w: Volume, f: nat, i: nat)
    requires v.Valid() && Grown(v, w, f, i)
    ensures w.Valid() && w.N(f) == i + 1
    ensures forall g :: g in v.nodes && g != f ==> Same(v, w, g)
    ensures forall k :: 0 <= k <= i ==> w.SectorAt(f, k) == if k < i then v.SectorAt(f, k) else Zeros()
  {
    hide Unpack, Pack, Loc;
    GrownOthers(v, w, f, i);
    GrownSectors(v, w, f, i);
    GrownRecorded(v, w, f, i);
    GrownReached(v, w, f, i);
  }

  lemma GrownOthers(v: Volume, w: Volume, f: nat, i: nat)
    requires v.Valid() && Grown(v, w, f, i)
    ensures forall g :: g in v.nodes && g != f ==> Same(v, w, g)
  {
    hide Unpack, Pack, Loc;
    forall g | g in v.nodes && g != f
      ensures Same(v, w, g)
    {
      Untouched(v, w, g);
    }
  }

  lemma GrownSectors(v: Volume, w: Volume, f: nat, i: nat)
    requires v.Valid() && Grown(v, w, f, i)
    ensures forall k :: 0 <= k <= i ==> w.SectorAt(f, k) == if k < i then v.SectorAt(f, k) else Zeros()
  {
    hide Unpack, Pack, Loc;
    forall k | 0 <= k < i
      ensures w.SectorAt(f, k) == v.SectorAt(f, k)
    {
      assert Uses(i, Data(k));
    }
  }

  lemma GrownRecorded(v: Volume, w: Volume, f: nat, i: nat)
    requires v.Valid() && Grown(v, w, f, i)
    requires forall g :: g in v.nodes && g != f ==> Same(v, w, g)
    ensures w.Recorded()
  {
    hide Unpack, Pack, Loc;
    assert w.N(f) == i + 1;
    forall g, slot | g in w.nodes && Uses(w.N(g), slot)
      ensures w.Where(g, slot) in w.owner && w.owner[w.Where(g, slot)] == Owner(g, slot)
    {
      if g != f || Uses(i, slot) {
        assert Uses(v.N(g), slot);
        assert w.Where(g, slot) == v.Where(g, slot);
      }
    }
  }

  lemma GrownReached(v: Volume, w: Volume, f: nat, i: nat)
    requires v.Valid() && Grown(v, w, f, i)
    requires forall g :: g in v.nodes && g != f ==> Same(v, w, g)
    ensures w.Reached()
  {
    hide Unpack, Pack, Loc;
    assert w.N(f) == i + 1;
    forall s | s in w.owner
      ensures s < |w.disk| && w.owner[s].file in w.nodes
      ensures Uses(w.N(w.owner[s].file), w.owner[s].slot) && w.Where(w.owner[s].file, w.owner[s].slot) == s
    {
      if s in v.owner {
        var g, slot := v.owner[s].file, v.owner[s].slot;
        assert Uses(v.N(g), slot) && w.Where(g, slot) == v.Where(g, slot);
      }
    }
  }

  /** The inode of F in V, with one pointer more and a length of I + 1 sectors. */
  ghost predicate Renewed(v: Volume, w: Volume, f: nat, i: nat, d: InodeDisk) {
    && f in v.nodes && i == v.N(f) < MAX_SECTORS
    && w.nodes == v.nodes[f := d.(length := 512 * (i + 1))]
  }

  ghost predicate Fresh(v: Volume, s: nat) {
    s < |v.disk| && s !in v.owner
  }

  /** A sector that belongs to nobody yet and has been zeroed. */
  ghost predicate Zeroed(v: Volume, s: nat) {
    Fresh(v, s) && v.disk[s] == Zeros()
  }

  /** Data sector I is SECTOR, reached by a direct pointer. */
  ghost predicate DirectStep(v: Volume, w: Volume, f: nat, i: nat, sector: u32) {
    && f in v.nodes && i < DIRECT_BLOCKS && Zeroed(v, sector)
    && Renewed(v, w, f, i, v.nodes[f].(direct := v.nodes[f].direct[i := sector]))
    && w.disk == v.disk
    && w.owner == v.owner[sector := Owner(f, Data(i))]
  }

  lemma GrewDirect(v: Volume, w: Volume, f: nat, i: nat, sector: u32)
    requires DirectStep(v, w, f, i, sector)
    ensures Grown(v, w, f, i)
  {
    assert w.Where(f, Data(i)) == sector;
    assert GrownFrame(v, w, f);
    assert GrownNew(v, w, f, i);
  }

  /** Data sector I is SECTOR, reached through index sector INDIRECT, new if this is its
      first entry. */
  ghost predicate IndirectStep(v: Volume, w: Volume, f: nat, i: nat, sector: u32, indirect: u32) {
    && f in v.nodes && DIRECT_BLOCKS <= i < INDIRECT_END && Zeroed(v, sector) && indirect != sector && indirect < |v.disk|
    && Renewed(v, w, f, i, v.nodes[f].(indirect := indirect))
    && if i == DIRECT_BLOCKS then
      && Fresh(v, indirect)
      && w.disk == WithPointer(v.disk[indirect := Zeros()], indirect, 0, sector)
      && w.owner == v.owner[sector := Owner(f, Data(i))][indirect := Owner(f, Indirect)]
    else
      && indirect == v.nodes[f].indirect && indirect in v.owner && v.owner[indirect] == Owner(f, Indirect)
      && w.disk == WithPointer(v.disk, indirect, i - DIRECT_BLOCKS, sector)
      && w.owner == v.owner[sector := Owner(f, Data(i))]
  }

  lemma IndirectPointers(v: Volume, w: Volume, f: nat, i: nat, sector: u32, indirect: u32)
    requires IndirectStep(v, w, f, i, sector, indirect)
    ensures forall j :: 0 <= j < i - DIRECT_BLOCKS ==> Pointer(w.disk, indirect, j) == Pointer(v.disk, indirect, j)
    ensures w.Where(f, Data(i)) == sector
  {
    hide Unpack, Pack;
    var base := if i == DIRECT_BLOCKS then v.disk[indirect := Zeros()] else v.disk;
    forall j | 0 <= j <= i - DIRECT_BLOCKS
      ensures Pointer(w.disk, indirect, j) == if j == i - DIRECT_BLOCKS then sector else Pointer(base, indirect, j)
    {
      PointerWritten(base, indirect, i - DIRECT_BLOCKS, sector, indirect, j);
    }
  }

  lemma GrewIndirect(v: Volume, w: Volume, f: nat, i: nat, sector: u32, indirect: u32)
    requires IndirectStep(v, w, f, i, sector, indirect)
    ensures Grown(v, w, f, i)
  {
    hide Unpack, Pack, Pointer;
    IndirectPointers(v, w, f, i, sector, indirect);
    assert GrownFrame(v, w, f);
    assert GrownOld(v, w, f, i);
    assert GrownNew(v, w, f, i);
  }

  /** Data sector I is SECTOR, reached through the doubly indirect sector DOUBLY and the
      second-level sector INNER, each new if this is its first entry. */
  ghost predicate DoublyStep(v: Volume, w: Volume, f: nat, i: nat, sector: u32, doubly: u32, inner: u32) {
    && f in v.nodes && INDIRECT_END <= i < MAX_SECTORS
    && Zeroed(v, sector) && doubly < |v.disk| && inner < |v.disk|
    && sector != doubly && sector != inner && doubly != inner
    && Renewed(v, w, f, i, v.nodes[f].(doublyIndirect := doubly))
    && var k, j := Outer(i), Entry(i);
    && DoublyOwner(v, w, f, i, sector, doubly, inner)
    && w.disk == WithPointer(DoublyBase(v.disk, k, j, doubly, inner), inner, j, sector)
  }

  /** The disk once the index sectors for entry J of second-level sector K are in place. */
  function DoublyBase(disk: seq<Sector>, k: nat, j: nat, doubly: u32, inner: u32): (r: seq<Sector>)
    requires doubly < |disk| && inner < |disk| && k < PTRS_PER_SECTOR
    ensures |r| == |disk|
  {
    var first := if k == 0 && j == 0 then disk[doubly := Zeros()] else disk;
    if j == 0 then WithPointer(first[inner := Zeros()], doubly, k, inner) else first
  }

  /** OWNER with data sector I and its new index sectors recorded. */
  function DoublyOwners(owner: map<nat, Owner>, f: nat, i: nat, sector: u32, doubly: u32, inner: u32): map<nat, Owner>
    requires INDIRECT_END <= i
  {
    var k, j := Outer(i), Entry(i);
    var owner' := owner[sector := Owner(f, Data(i))];
    if i == INDIRECT_END then owner'[doubly := Owner(f, Doubly)][inner := Owner(f, Inner(k))]
    else if j == 0 then owner'[inner := Owner(f, Inner(k))]
    else owner'
  }

  ghost predicate DoublyOwner(v: Volume, w: Volume, f: nat, i: nat, sector: u32, doubly: u32, inner: u32)
    requires f in v.nodes && INDIRECT_END <= i
  {
    var k, j := Outer(i), Entry(i);
    && (if i == INDIRECT_END then Fresh(v, doubly)
        else doubly == v.nodes[f].doublyIndirect && doubly in v.owner && v.owner[doubly] == Owner(f, Doubly))
    && (if j == 0 then Fresh(v, inner)
        else inner == v.Where(f, Inner(k)) && inner in v.owner && v.owner[inner] == Owner(f, Inner(k)))
    && w.owner == DoublyOwners(v.owner, f, i, sector, doubly, inner)
  }

  /** What the new sectors hold after the step, and that the others are untouched. */
  lemma DoublyPointers(v: Volume, w: Volume, f: nat, i: nat, sector: u32, doubly: u32, inner: u32)
    requires DoublyStep(v, w, f, i, sector, doubly, inner)
    ensures var k, j := Outer(i), Entry(i);
      && (forall m :: 0 <= m < k || (m == k && j > 0) ==> Pointer(w.disk, doubly, m) == Pointer(v.disk, doubly, m))
      && (forall m :: 0 <= m < j ==> Pointer(w.disk, inner, m) == Pointer(v.disk, inner, m))
      && Pointer(w.disk, doubly, k) == inner
      && Pointer(w.disk, inner, j) == sector
      && (forall s :: s != sector && s != doubly && s != inner ==> At(w.disk, s) == At(v.disk, s))
      && At(w.disk, sector) == Zeros()
  {
    hide Unpack, Pack;
    var k, j := Outer(i), Entry(i);
    var base := DoublyBase(v.disk, k, j, doubly, inner);
    forall m | 0 <= m <= k
      ensures Pointer(w.disk, doubly, m) == if m == k && j == 0 then inner else Pointer(v.disk, doubly, m)
    {
      PointerWritten(base, inner, j, sector, doubly, m);
      if j == 0 {
        var first := if k == 0 then v.disk[doubly := Zeros()] else v.disk;
        PointerWritten(first[inner := Zeros()], doubly, k, inner, doubly, m);
      }
    }
    forall m | 0 <= m <= j
      ensures Pointer(w.disk, inner, m) == if m == j then sector else Pointer(v.disk, inner, m)
    {
      PointerWritten(base, inner, j, sector, inner, m);
    }
  }

  /** Growth at the doubly indirect level leaves every earlier pointer where it was. */
  lemma DoublyOld(v: Volume, w: Volume, f: nat, i: nat, sector: u32, doubly: u32, inner: u32, slot: Slot)
    requires v.Recorded() && DoublyStep(v, w, f, i, sector, doubly, inner) && Uses(i, slot)
    ensures w.Where(f, slot) == v.Where(f, slot)
  {
    hide Unpack, Pack, Pointer, DoublyBase, WithPointer;
    DoublyPointers(v, w, f, i, sector, doubly, inner);
    match slot
    case Data(m) =>
      if DIRECT_BLOCKS <= m < INDIRECT_END {
        assert Uses(i, Indirect);
        assert v.Where(f, Indirect) in v.owner;
        SamePointer(v.disk, w.disk, v.nodes[f].indirect, m - DIRECT_BLOCKS);
      } else if INDIRECT_END <= m {
        var k := Outer(m);
        assert Uses(i, Inner(k));
        assert v.Where(f, Inner(k)) in v.owner;
        if v.Where(f, Inner(k)) != inner {
          SamePointer(v.disk, w.disk, v.Where(f, Inner(k)), Entry(m));
        }
      }
    case _ =>
  }

  lemma SamePointer(disk: seq<Sector>, disk': seq<Sector>, s: nat, k: nat)
    requires At(disk', s) == At(disk, s)
    ensures Pointer(disk', s, k) == Pointer(disk, s, k)
  {
  }

  lemma DoublyNew(v: Volume, w: Volume, f: nat, i: nat, sector: u32, doubly: u32, inner: u32)
    requires DoublyStep(v, w, f, i, sector, doubly, inner)
    ensures GrownNew(v, w, f, i) && w.Where(f, Data(i)) == sector && |w.disk| == |v.disk|
  {
    hide Unpack, Pack, Pointer, DoublyBase;
    DoublyPointers(v, w, f, i, sector, doubly, inner);
    var k, j := Outer(i), Entry(i);
    assert w.Where(f, Data(i)) == sector;
    assert w.Where(f, Doubly) == doubly;
    assert w.Where(f, Inner(k)) == inner;
    forall slot | Uses(i + 1, slot) && !Uses(i, slot)
      ensures w.Where(f, slot) in w.owner && w.owner[w.Where(f, slot)] == Owner(f, slot)
    {
      match slot
      case Data(m) => assert m == i;
      case Inner(m) => assert m == k && j == 0;
      case _ =>
    }
  }

  lemma GrewDoubly(v: Volume, w: Volume, f: nat, i: nat, sector: u32, doubly: u32, inner: u32)
    requires v.Valid() && DoublyStep(v, w, f, i, sector, doubly, inner)
    ensures Grown(v, w, f, i)
  {
    hide Unpack, Pack, Pointer, DoublyBase, WithPointer, Volume.Recorded, Volume.Reached, Volume.ZeroTails;
    DoublyPointers(v, w, f, i, sector, doubly, inner);
    DoublyNew(v, w, f, i, sector, doubly, inner);
    forall slot | Uses(i, slot)
      ensures w.Where(f, slot) == v.Where(f, slot)
    {
      DoublyOld(v, w, f, i, sector, doubly, inner, slot);
    }
    assert GrownFrame(v, w, f);
  }

  // ----- changes that move no data ------------------------------------------------------

  lemma AllSame(v: Volume, w: Volume)
    requires v.Valid() && w.nodes.Keys == v.nodes.Keys && w.owner == v.owner && |w.disk| == |v.disk|
    requires forall g :: g in v.nodes ==> Same(v, w, g)
    ensures w.Valid()
  {
    hide Unpack, Pack, Loc;
    forall g, slot | g in w.nodes && Uses(w.N(g), slot)
      ensures w.Where(g, slot) in w.owner && w.owner[w.Where(g, slot)] == Owner(g, slot)
    {
      assert w.N(g) == v.N(g);
    }
    assert w.Recorded();
    assert w.Reached();
  }

  /** Writing sectors that hold no data or pointers of a live file changes no file. */
  lemma Reframed(v: Volume, w: Volume)
    requires v.Valid() && w.nodes == v.nodes && w.owner == v.owner && |w.disk| == |v.disk|
    requires forall s :: s in v.owner && !v.owner[s].slot.Self? ==> At(w.disk, s) == At(v.disk, s)
    ensures w.Valid()
    ensures forall g :: g in v.nodes ==> Same(v, w, g)
  {
    hide Unpack, Pack, Loc;
    forall g | g in v.nodes
      ensures Same(v, w, g)
    {
      Untouched(v, w, g);
    }
    AllSame(v, w);
  }

  /** A and B point to the same first N data sectors through the same index sectors. */
  predicate AgreesTo(a: InodeDisk, b: InodeDisk, n: nat) {
    && (forall i :: 0 <= i < n && i < DIRECT_BLOCKS ==> a.direct[i] == b.direct[i])
    && (DIRECT_BLOCKS < n ==> a.indirect == b.indirect)
    && (INDIRECT_END < n ==> a.doublyIndirect == b.doublyIndirect)
  }

  predicate Agrees(a: InodeDisk, b: InodeDisk) {
    a.length == b.length && a.isDir == b.isDir && AgreesTo(a, b, SectorCount(b.length))
  }

  /** An agreeing inode is as good as the original. */
  lemma Renoded(v: Volume, w: Volume, f: nat, d: InodeDisk)
    requires v.Valid() && f in v.nodes && Agrees(d, v.nodes[f]) && w == v.(nodes := v.nodes[f := d])
    ensures w.Valid()
    ensures forall g :: g in v.nodes ==> Same(v, w, g)
  {
    hide Unpack, Pack;
    forall g | g in v.nodes
      ensures Same(v, w, g)
    {
      if g != f {
        Untouched(v, w, g);
      }
    }
    AllSame(v, w);
  }

  /** Giving F another length that needs no more sectors than it has. */
  ghost predicate Resized(v: Volume, w: Volume, f: nat, length: u32) {
    && f in v.nodes && SectorCount(length) <= v.N(f)
    && w.disk == v.disk
    && w.nodes == v.nodes[f := v.nodes[f].(length := length)]
    && w.owner == map s | s in v.owner && (v.owner[s].file != f || Uses(SectorCount(length), v.owner[s].slot)) :: v.owner[s]
  }

  lemma ResizedWhere(v: Volume, w: Volume, f: nat, length: u32)
    requires Resized(v, w, f, length)
    ensures forall slot :: w.Where(f, slot) == v.Where(f, slot)
  {
    hide Pointer;
  }

  lemma ResizedOthers(v: Volume, w: Volume, f: nat, length: u32)
    requires v.Valid() && Resized(v, w, f, length)
    ensures forall g :: g in v.nodes && g != f ==> Same(v, w, g)
  {
    hide Loc;
    forall g | g in v.nodes && g != f
      ensures Same(v, w, g)
    {
      Untouched(v, w, g);
    }
  }

  lemma ResizedIsValid(v: Volume, w: Volume, f: nat, length: u32)
    requires v.Valid() && Resized(v, w, f, length) && length <= MAX_BYTES
    requires length % 512 != 0 ==> ZeroFrom(v.SectorAt(f, length / 512), length % 512)
    ensures w.Valid()
    ensures forall g :: g in v.nodes && g != f ==> Same(v, w, g)
    ensures forall k :: w.SectorAt(f, k) == v.SectorAt(f, k)
  {
    hide Loc;
    ResizedWhere(v, w, f, length);
    ResizedOthers(v, w, f, length);
    forall slot | Uses(SectorCount(length), slot)
      ensures w.Where(f, slot) in w.owner && w.owner[w.Where(f, slot)] == Owner(f, slot)
    {
      assert Uses(v.N(f), slot);
    }
    assert w.Recorded();
    assert w.Reached();
  }

  // ----- files come and go ------------------------------------------------------------

  const EMPTY_INODE: InodeDisk := InodeData(0, INODE_MAGIC, NO_POINTERS, 0, 0, 0)

  /** V with a new inode D in sector F. */
  function WithNew(v: Volume, f: nat, d: InodeDisk): Volume {
    Volume(v.disk, v.nodes[f := d], v.owner[f := Owner(f, Self)])
  }

  lemma CreatedSame(v: Volume, w: Volume, f: nat)
    requires v.Valid() && f !in v.nodes && w.disk == v.disk && w.nodes == v.nodes[f := EMPTY_INODE]
    ensures forall g :: g in v.nodes ==> Same(v, w, g)
  {
    hide Loc;
    forall g | g in v.nodes
      ensures Same(v, w, g)
    {
      Untouched(v, w, g);
    }
  }

  lemma Created(v: Volume, w: Volume, f: nat)
    requires v.Valid() && Fresh(v, f) && f !in v.nodes && w == WithNew(v, f, EMPTY_INODE)
    ensures w.Valid()
    ensures forall g :: g in v.nodes ==> Same(v, w, g)
  {
    hide Loc;
    CreatedSame(v, w, f);
    assert forall slot :: Uses(w.N(f), slot) ==> slot == Self;
    OwnSector(w, f);
    assert w.Recorded();
    assert w.Reached();
    assert w.ZeroTails();
  }

  lemma OwnSector(v: Volume, f: nat)
    requires f in v.nodes
    ensures v.Where(f, Self) == f
  {
  }

  lemma Deleted(v: Volume, w: Volume, f: nat)
    requires v.Valid() && f in v.nodes && w.disk == v.disk && w.nodes == v.nodes - {f}
    requires w.owner == v.owner - v.OwnedBy(f)
    ensures w.Valid()
    ensures forall g :: g in w.nodes ==> Same(v, w, g)
  {
    hide Unpack, Pack, Loc;
    forall g | g in w.nodes
      ensures Same(v, w, g)
    {
      Untouched(v, w, g);
    }
    forall g, slot | g in w.nodes && Uses(w.N(g), slot)
      ensures w.Where(g, slot) in w.owner && w.owner[w.Where(g, slot)] == Owner(g, slot)
    {
      assert Same(v, w, g);
    }
    assert w.Reached();
  }

  // ----- growing a file by many sectors ----------------------------------------------------

  /** W is V with file F extended, beyond its first N sectors, by sectors of zeros. */
  ghost predicate Extended(v: Volume, w: Volume, f: nat, n: nat) {
    && f in v.nodes && w.nodes.Keys == v.nodes.Keys && |w.disk| == |v.disk|
    && n == v.N(f) <= w.N(f)
    && (forall g :: g in v.nodes && g != f ==> w.nodes[g] == v.nodes[g] && Same(v, w, g))
    && (forall g :: g in v.nodes ==> At(w.disk, g) == At(v.disk, g))
    && (forall k :: 0 <= k < w.N(f) ==> w.SectorAt(f, k) == if k < n then v.SectorAt(f, k) else Zeros())
    && OwnerGrew(v.owner, w.owner, f, n)
  }

  ghost predicate OwnerGrew(a: map<nat, Owner>, b: map<nat, Owner>, f: nat, n: nat) {
    && (forall s :: s in a ==> s in b && b[s] == a[s])
    && (forall s :: s in b && s !in a ==> b[s].file == f && !Uses(n, b[s].slot))
  }

  lemma ExtendedRefl(v: Volume, f: nat)
    requires v.Valid() && f in v.nodes
    ensures Extended(v, v, f, v.N(f))
  {
    hide Loc;
  }

  lemma SameTrans(v: Volume, u: Volume, w: Volume, f: nat)
    requires Same(v, u, f) && Same(u, w, f)
    ensures Same(v, w, f)
  {
    hide Loc;
    assert u.N(f) == v.N(f);
  }

  /** Neither zeroing a fresh sector nor growing a file touches an inode's own sector. */
  lemma OwnSectorsKept(v: Volume, u: Volume, w: Volume, f: nat, i: nat, sector: nat)
    requires v.Valid() && Fresh(v, sector) && u == v.(disk := v.disk[sector := Zeros()]) && Grown(u, w, f, i)
    ensures forall g :: g in v.nodes ==> At(w.disk, g) == At(v.disk, g)
  {
    hide Loc, GrownOld, GrownNew;
    forall g | g in v.nodes
      ensures At(w.disk, g) == At(v.disk, g)
    {
      OwnSector(v, g);
      assert Uses(v.N(g), Self);
    }
  }

  lemma GrownOwner(v: Volume, w: Volume, f: nat, i: nat)
    requires v.Valid() && Grown(v, w, f, i)
    ensures OwnerGrew(v.owner, w.owner, f, i)
  {
    hide Loc;
    assert forall slot :: Uses(i, slot) ==> w.Where(f, slot) in v.owner;
  }

  lemma GrownExtends(v: Volume, u: Volume, w: Volume, f: nat, i: nat, sector: nat)
    requires v.Valid() && Fresh(v, sector) && u == v.(disk := v.disk[sector := Zeros()]) && Grown(u, w, f, i)
    ensures w.Valid() && w.N(f) == i + 1 && Extended(v, w, f, i) && |w.disk| == |v.disk|
  {
    hide Loc, Volume.Valid, Same, GrownOld;
    Reframed(v, u);
    GrownIsValid(u, w, f, i);
    OwnSectorsKept(v, u, w, f, i, sector);
    GrownOwner(u, w, f, i);
    forall g | g in v.nodes && g != f
      ensures w.nodes[g] == v.nodes[g] && Same(v, w, g)
    {
      SameTrans(v, u, w, g);
    }
    SameSectors(v, u, f);
  }

  lemma SameSectors(v: Volume, w: Volume, f: nat)
    requires Same(v, w, f)
    ensures w.N(f) == v.N(f)
    ensures forall k :: 0 <= k < v.N(f) ==> w.SectorAt(f, k) == v.SectorAt(f, k)
  {
  }

  lemma ExtendedMore(v: Volume, u: Volume, w: Volume, f: nat, n: nat)
    requires Extended(v, u, f, n) && Extended(u, w, f, u.N(f))
    ensures Extended(v, w, f, n)
  {
    hide Loc, Same;
    forall g | g in v.nodes && g != f
      ensures w.nodes[g] == v.nodes[g] && Same(v, w, g)
    {
      SameTrans(v, u, w, g);
    }
  }

  // ----- contents -------------------------------------------------------------------------

  /** BYTES, filled up with zeros to at least N bytes. */
  function ZeroPad(bytes: seq<byte>, n: nat): (r: seq<byte>)
    ensures |r| == if n > |bytes| then n else |bytes|
  {
    if n > |bytes| then bytes + seq(n - |bytes|, _ => 0) else bytes
  }

  lemma PaddedContents(v: Volume, w: Volume, f: nat)
    requires v.Valid() && f in v.nodes && f in w.nodes && v.nodes[f].length <= w.nodes[f].length
    requires forall k :: 0 <= k < w.N(f) ==> w.SectorAt(f, k) == if k < v.N(f) then v.SectorAt(f, k) else Zeros()
    ensures w.Contents(f) == ZeroPad(v.Contents(f), w.nodes[f].length)
  {
    hide Loc, Volume.Valid;
    LastSector(v, f);
    forall p | 0 <= p < w.nodes[f].length
      ensures w.Contents(f)[p] == ZeroPad(v.Contents(f), w.nodes[f].length)[p]
    {
      var k := p / 512;
      assert 0 <= k < w.N(f);
      if v.nodes[f].length <= p && k < v.N(f) {
        assert k == v.nodes[f].length / 512;
      }
    }
  }

  lemma EqualContents(v: Volume, w: Volume, f: nat)
    requires f in v.nodes && f in w.nodes && w.nodes[f].length == v.nodes[f].length
    requires forall k :: 0 <= k < v.N(f) ==> w.SectorAt(f, k) == v.SectorAt(f, k)
    ensures w.Contents(f) == v.Contents(f)
  {
    hide Loc;
    forall p | 0 <= p < w.nodes[f].length
      ensures w.Contents(f)[p] == v.Contents(f)[p]
    {
      assert 0 <= p / 512 < w.N(f);
    }
  }

  // ----- the end of a growth -----------------------------------------------------------------

  lemma OwnerRestored(v: Volume, u: Volume, w: Volume, f: nat, length: u32)
    requires v.Valid() && f in v.nodes && length == v.nodes[f].length
    requires OwnerGrew(v.owner, u.owner, f, v.N(f)) && Resized(u, w, f, length)
    ensures w.owner == v.owner
  {
    hide Loc;
    assert forall s :: s in v.owner && v.owner[s].file == f ==> Uses(v.N(f), v.owner[s].slot);
  }

  /** Changing unowned sectors and adopting an agreeing inode changes no file. */
  lemma Adopted(u: Volume, b: Volume, f: nat)
    requires u.Valid() && f in u.nodes && f in b.nodes && b.nodes == u.nodes[f := b.nodes[f]] && Agrees(b.nodes[f], u.nodes[f])
    requires b.owner == u.owner && |b.disk| == |u.disk| && forall s :: s in u.owner ==> At(b.disk, s) == At(u.disk, s)
    ensures b.Valid()
    ensures forall g :: g in u.nodes ==> Same(u, b, g)
  {
    hide Loc, Same, Volume.Valid, Agrees;
    var a := u.(disk := b.disk);
    Reframed(u, a);
    Renoded(a, b, f, b.nodes[f]);
    forall g | g in u.nodes
      ensures Same(u, b, g)
    {
      SameTrans(u, a, b, g);
    }
  }

  /** Giving up a growth: with its old length and any inode that agrees with it so far, the
      file is what it was. */
  lemma RolledBack(v: Volume, u: Volume, w: Volume, f: nat, d: InodeDisk)
    requires v.Valid() && u.Valid() && f in v.nodes && Extended(v, u, f, v.N(f))
    requires d.length == v.nodes[f].length && d.isDir == u.nodes[f].isDir && AgreesTo(d, u.nodes[f], u.N(f))
    requires |w.disk| == |u.disk| && forall s :: s in u.owner ==> At(w.disk, s) == At(u.disk, s)
    requires w.nodes == v.nodes[f := d] && w.owner == v.owner
    ensures w.Valid()
    ensures forall g :: g in v.nodes && g != f ==> Same(v, w, g)
    ensures forall k :: 0 <= k < v.N(f) ==> w.SectorAt(f, k) == v.SectorAt(f, k)
  {
    hide Loc, Same, Volume.Valid;
    var b := Volume(w.disk, u.nodes[f := d.(length := u.nodes[f].length)], u.owner);
    Adopted(u, b, f);
    SameSectors(u, b, f);
    LastSector(v, f);
    Relengthed(v, b, w, f, d.length);
    forall g | g in v.nodes && g != f
      ensures Same(v, w, g)
    {
      SameTrans(v, u, b, g);
      SameTrans(v, b, w, g);
    }
  }

  lemma Relengthed(v: Volume, b: Volume, w: Volume, f: nat, length: u32)
    requires v.Valid() && f in v.nodes && length == v.nodes[f].length <= MAX_BYTES
    requires b.Valid() && b.nodes.Keys == v.nodes.Keys && v.N(f) <= b.N(f) && OwnerGrew(v.owner, b.owner, f, v.N(f))
    requires w == Volume(b.disk, b.nodes[f := b.nodes[f].(length := length)], v.owner)
    requires length % 512 != 0 ==> ZeroFrom(b.SectorAt(f, length / 512), length % 512)
    ensures w.Valid()
    ensures forall g :: g in v.nodes && g != f ==> Same(b, w, g)
    ensures forall k :: w.SectorAt(f, k) == b.SectorAt(f, k)
  {
    hide Loc, Same, Volume.Valid, ZeroFrom;
    var c := w.(owner := map s | s in b.owner && (b.owner[s].file != f || Uses(SectorCount(length), b.owner[s].slot)) :: b.owner[s]);
    OwnerRestored(v, b, c, f, length);
    ResizedIsValid(b, c, f, length);
  }

  lemma LastSector(v: Volume, f: nat)
    requires v.Valid() && f in v.nodes
    ensures v.nodes[f].length <= MAX_BYTES
    ensures v.nodes[f].length % 512 != 0 ==>
      v.nodes[f].length / 512 < v.N(f) &&
      ZeroFrom(v.SectorAt(f, v.nodes[f].length / 512), v.nodes[f].length % 512)
  {
    hide Loc;
  }

  /** W is V except that file F has been given NEW zeros at its end, or nothing. */
  ghost predicate Padded(v: Volume, w: Volume, f: nat, d: InodeDisk) {
    && f in v.nodes && w.nodes == v.nodes[f := d] && |w.disk| == |v.disk|
    && (forall g :: g in v.nodes && g != f ==> Same(v, w, g))
    && (forall g :: g in v.nodes ==> At(w.disk, g) == At(v.disk, g))
    && w.Contents(f) == ZeroPad(v.Contents(f), d.length)
  }

  lemma GaveUp(v: Volume, u: Volume, w: Volume, f: nat, d: InodeDisk)
    requires v.Valid() && u.Valid() && f in v.nodes && Extended(v, u, f, v.N(f))
    requires d.length == v.nodes[f].length && d.isDir == u.nodes[f].isDir && AgreesTo(d, u.nodes[f], u.N(f))
    requires |w.disk| == |u.disk| && forall s :: s in u.owner ==> At(w.disk, s) == At(u.disk, s)
    requires w.nodes == v.nodes[f := d] && w.owner == v.owner
    ensures w.Valid() && Padded(v, w, f, d)
  {
    hide Loc, Same, Volume.Valid, Volume.Contents, AgreesTo;
    RolledBack(v, u, w, f, d);
    EqualContents(v, w, f);
    forall g | g in v.nodes
      ensures At(w.disk, g) == At(v.disk, g)
    {
      SelfOwned(u, g);
    }
  }

  lemma SelfOwned(v: Volume, f: nat)
    requires v.Valid() && f in v.nodes
    ensures f in v.owner && v.owner[f] == Owner(f, Self) && f < |v.disk|
  {
    hide Loc;
    OwnSector(v, f);
    assert Uses(v.N(f), Self);
  }

  /** Completing a growth: any length that needs exactly the sectors reached so far will do. */
  lemma Lengthened(v: Volume, u: Volume, w: Volume, f: nat, length: u32)
    requires v.Valid() && u.Valid() && f in v.nodes && Extended(v, u, f, v.N(f))
    requires v.nodes[f].length <= length <= MAX_BYTES && SectorCount(length) == u.N(f)
    requires w == u.(nodes := u.nodes[f := u.nodes[f].(length := length)])
    ensures w.Valid() && Padded(v, w, f, w.nodes[f])
  {
    hide Loc, Same, Volume.Valid, Volume.Contents, OwnerGrew;
    LastSector(v, f);
    AllInUse(u, f);
    Relengthened(u, w, f, length);
    forall g | g in v.nodes && g != f
      ensures Same(v, w, g)
    {
      SameTrans(v, u, w, g);
    }
    PaddedContents(v, w, f);
  }

  lemma Relengthened(u: Volume, w: Volume, f: nat, length: u32)
    requires u.Valid() && f in u.nodes && SectorCount(length) == u.N(f) && length <= MAX_BYTES
    requires w == u.(nodes := u.nodes[f := u.nodes[f].(length := length)])
    requires length % 512 != 0 ==> ZeroFrom(u.SectorAt(f, length / 512), length % 512)
    ensures w.Valid()
    ensures forall g :: g in u.nodes && g != f ==> Same(u, w, g)
    ensures forall k :: w.SectorAt(f, k) == u.SectorAt(f, k)
  {
    hide Loc, Same, Volume.Valid, ZeroFrom;
    AllInUse(u, f);
    var c := w.(owner := map s | s in u.owner && (u.owner[s].file != f || Uses(SectorCount(length), u.owner[s].slot)) :: u.owner[s]);
    assert c.owner == w.owner;
    ResizedIsValid(u, c, f, length);
  }

  lemma AllInUse(v: Volume, f: nat)
    requires v.Valid() && f in v.nodes
    ensures forall s :: s in v.owner && v.owner[s].file == f ==> Uses(v.N(f), v.owner[s].slot)
  {
    hide Loc;
  }

  // ----- whole operations -----------------------------------------------------------------

  /** The disk holds, for every live inode, a copy that agrees with it. */
  ghost predicate Saved(v: Volume) {
    forall f :: f in v.nodes ==> Agrees(DecodeInode(At(v.disk, f)), v.nodes[f])
  }

  /** B records all that A does and, beyond it, only sectors of F. */
  ghost predicate OwnerAdds(a: map<nat, Owner>, b: map<nat, Owner>, f: nat) {
    && (forall s :: s in a ==> s in b && b[s] == a[s])
    && (forall s :: s in b && s !in a ==> b[s].file == f)
  }

  /** Writing an inode to its own sector. */
  lemma SavedInode(v: Volume, w: Volume, f: nat)
    requires v.Valid() && f in v.nodes && f < |v.disk| && w == v.(disk := v.disk[f := EncodeInode(v.nodes[f])])
    requires forall g :: g in v.nodes && g != f ==> Agrees(DecodeInode(At(v.disk, g)), v.nodes[g])
    ensures w.Valid() && Saved(w)
    ensures forall g :: g in v.nodes ==> Same(v, w, g)
  {
    hide Loc, Same, EncodeInode, DecodeInode, Volume.Valid;
    SelfOwned(v, f);
    InodeRoundTrip(v.nodes[f]);
    Reframed(v, w);
  }

  /** A new inode, grown to its length and written out. */
  lemma CreatedFile(v: Volume, a: Volume, b: Volume, w: Volume, f: nat, d: InodeDisk)
    requires v.Valid() && Saved(v) && Fresh(v, f) && f !in v.nodes
    requires a == WithNew(v, f, EMPTY_INODE)
    requires b.Valid() && Padded(a, b, f, d) && f < |b.disk| && w == b.(disk := b.disk[f := EncodeInode(d)])
    ensures w.Valid() && Saved(w) && w.Contents(f) == ZeroPad([], d.length)
    ensures forall g :: g in v.nodes ==> Same(v, w, g)
  {
    hide Loc, Same, EncodeInode, DecodeInode, Agrees, Volume.Contents, Volume.Valid;
    Created(v, a, f);
    StillSaved(v, b, f);
    SavedInode(b, w, f);
    SameContents(b, w, f);
    assert |a.Contents(f)| == 0;
    forall g | g in v.nodes
      ensures Same(v, w, g)
    {
      SameTrans(v, a, b, g);
      SameTrans(v, b, w, g);
    }
  }

  /** A creation given up half-way. */
  lemma CreationFailed(v: Volume, a: Volume, b: Volume, w: Volume, f: nat, d: InodeDisk)
    requires v.Valid() && Saved(v) && Fresh(v, f) && f !in v.nodes
    requires a == WithNew(v, f, EMPTY_INODE)
    requires b.Valid() && Padded(a, b, f, d) && b.owner == a.owner && w == Volume(b.disk, v.nodes, v.owner)
    ensures w.Valid() && Saved(w)
    ensures forall g :: g in v.nodes ==> Same(v, w, g)
  {
    hide Loc, Same, EncodeInode, DecodeInode, Agrees, Volume.Contents, Volume.Valid;
    Created(v, a, f);
    NotOwner(v, f);
    assert b.OwnedBy(f) == {f};
    assert w.owner == b.owner - {f};
    assert w.nodes == b.nodes - {f};
    Deleted(b, w, f);
    forall g | g in v.nodes
      ensures Same(v, w, g)
    {
      SameTrans(v, a, b, g);
      SameTrans(v, b, w, g);
    }
    StillSaved(v, w, f);
  }

  lemma StillSaved(v: Volume, w: Volume, f: nat)
    requires Saved(v) && forall g :: g in v.nodes && g != f ==> At(w.disk, g) == At(v.disk, g)
    requires forall g :: g in w.nodes && g != f ==> g in v.nodes && w.nodes[g] == v.nodes[g]
    ensures forall g :: g in w.nodes && g != f ==> Agrees(DecodeInode(At(w.disk, g)), w.nodes[g])
  {
    hide DecodeInode, Agrees;
  }

  lemma NotOwner(v: Volume, f: nat)
    requires v.Valid() && f !in v.nodes
    ensures forall s :: s in v.owner ==> v.owner[s].file != f
  {
    hide Loc;
  }

  // ----- writing bytes ------------------------------------------------------------------------

  /** BYTES with DATA written over it from position POS on. */
  function Overlay(bytes: seq<byte>, pos: nat, data: seq<byte>): (r: seq<byte>)
    requires pos + |data| <= |bytes|
    ensures |r| == |bytes|
  {
    bytes[..pos] + data + bytes[pos + |data|..]
  }

  /** Consecutive writes are one write. */
  lemma OverlayTwice(bytes: seq<byte>, pos: nat, a: seq<byte>, b: seq<byte>)
    requires pos + |a| + |b| <= |bytes|
    ensures Overlay(Overlay(bytes, pos, a), pos + |a|, b) == Overlay(bytes, pos, a + b)
  {
  }

  /** Patching part of a data sector writes those bytes of the file and nothing else. */
  lemma ChunkWritten(v: Volume, w: Volume, f: nat, pos: nat, data: seq<byte>)
    requires v.Valid() && f in v.nodes && |data| > 0 && pos + |data| <= v.nodes[f].length
    requires pos % 512 + |data| <= SECTOR_SIZE && v.Where(f, Data(pos / 512)) < |v.disk|
    requires w == v.(disk := v.disk[v.Where(f, Data(pos / 512)) := Overlay(v.SectorAt(f, pos / 512), pos % 512, data)])
    ensures w.Valid() && w.Contents(f) == Overlay(v.Contents(f), pos, data)
    ensures forall g :: g in v.nodes && g != f ==> Same(v, w, g)
  {
    hide Loc, Same, Overlay, Volume.Valid, Volume.Contents;
    var i, ofs := pos / 512, pos % 512;
    TailKept(v, f, i, ofs, data);
    DataWritten(v, w, f, i, Overlay(v.SectorAt(f, i), ofs, data));
    PatchedContents(v, w, f, pos, data);
  }

  lemma PatchedContents(v: Volume, w: Volume, f: nat, pos: nat, data: seq<byte>)
    requires f in v.nodes && f in w.nodes && w.nodes[f].length == v.nodes[f].length
    requires pos + |data| <= v.nodes[f].length && pos % 512 + |data| <= SECTOR_SIZE
    requires forall k :: 0 <= k < v.N(f) ==>
      w.SectorAt(f, k) == if k == pos / 512 then Overlay(v.SectorAt(f, k), pos % 512, data) else v.SectorAt(f, k)
    ensures w.Contents(f) == Overlay(v.Contents(f), pos, data)
  {
    hide Loc, Overlay, Volume.Contents, Volume.SectorAt;
    forall p | 0 <= p < v.nodes[f].length
      ensures w.Contents(f)[p] == Overlay(v.Contents(f), pos, data)[p]
    {
      ContentsAt(v, f, p);
      ContentsAt(w, f, p);
      OverlayAt(v.Contents(f), pos, data, p);
      if p / 512 == pos / 512 {
        OverlayAt(v.SectorAt(f, pos / 512), pos % 512, data, p % 512);
        assert p - pos == p % 512 - pos % 512;
      }
    }
  }

  lemma ContentsAt(v: Volume, f: nat, p: nat)
    requires f in v.nodes && p < v.nodes[f].length
    ensures p / 512 < v.N(f) && v.Contents(f)[p] == v.SectorAt(f, p / 512)[p % 512]
  {
    hide Loc;
  }

  lemma OverlayAt(bytes: seq<byte>, pos: nat, data: seq<byte>, p: nat)
    requires pos + |data| <= |bytes| && p < |bytes|
    ensures Overlay(bytes, pos, data)[p] == if pos <= p < pos + |data| then data[p - pos] else bytes[p]
  {
  }

  lemma TailKept(v: Volume, f: nat, i: nat, ofs: nat, data: seq<byte>)
    requires v.Valid() && f in v.nodes && ofs + |data| <= SECTOR_SIZE && 512 * i + ofs + |data| <= v.nodes[f].length && |data| > 0
    ensures i < v.N(f)
    ensures i == v.nodes[f].length / 512 ==> ZeroFrom(Overlay(v.SectorAt(f, i), ofs, data), v.nodes[f].length % 512)
  {
    hide Loc, Volume.Recorded, Volume.Reached;
  }

  lemma InRange(v: Volume, f: nat, i: nat)
    requires v.Valid() && f in v.nodes && i < v.N(f)
    ensures v.Where(f, Data(i)) < |v.disk|
  {
    hide Loc;
    assert Uses(v.N(f), Data(i));
  }

  /** A growth, seen from outside: written out if it succeeded, in memory only if not. */
  lemma PaddedSaved(v: Volume, b: Volume, w: Volume, f: nat, d: InodeDisk, ok: bool)
    requires v.Valid() && Saved(v) && b.Valid() && Padded(v, b, f, d) && f < |b.disk|
    requires w == if ok then b.(disk := b.disk[f := EncodeInode(d)]) else b
    requires !ok ==> d.length == v.nodes[f].length && d.isDir == v.nodes[f].isDir && AgreesTo(d, v.nodes[f], SectorCount(d.length))
    ensures w.Valid() && Saved(w) && w.Contents(f) == ZeroPad(v.Contents(f), d.length)
    ensures forall g :: g in v.nodes && g != f ==> Same(v, w, g)
  {
    hide Loc, Same, EncodeInode, DecodeInode, Agrees, Volume.Contents, Volume.Valid;
    StillSaved(v, b, f);
    if ok {
      SavedInode(b, w, f);
      SameContents(b, w, f);
      forall g | g in v.nodes && g != f
        ensures Same(v, w, g)
      {
        SameTrans(v, b, w, g);
      }
    } else {
      AgreesTrans(DecodeInode(At(v.disk, f)), v.nodes[f], d);
    }
  }

  lemma AgreesTrans(a: InodeDisk, b: InodeDisk, c: InodeDisk)
    requires Agrees(a, b) && c.length == b.length && c.isDir == b.isDir && AgreesTo(c, b, SectorCount(c.length))
    ensures Agrees(a, c)
  {
  }

  lemma FilesUpdated(v: Volume, w: Volume, f: nat)
    requires f in w.nodes && w.nodes.Keys == v.nodes.Keys + {f}
    requires forall g :: g in v.nodes && g != f ==> Same(v, w, g)
    ensures w.Files() == v.Files()[f := w.Contents(f)]
  {
    hide Loc, Same, Volume.Contents, Volume.Where, Volume.SectorAt;
    forall g | g in v.nodes && g != f
      ensures w.Contents(g) == v.Contents(g)
    {
      SameContents(v, w, g);
    }
  }

  lemma FilesKept(v: Volume, w: Volume)
    requires w.nodes.Keys <= v.nodes.Keys && forall g :: g in w.nodes ==> Same(v, w, g)
    ensures w.Files() == v.Files() - (v.nodes.Keys - w.nodes.Keys)
  {
    hide Loc, Same, Volume.Contents, Volume.Where, Volume.SectorAt;
    forall g | g in w.nodes
      ensures w.Contents(g) == v.Contents(g)
    {
      SameContents(v, w, g);
    }
  }
}
