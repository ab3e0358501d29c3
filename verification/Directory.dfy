/** Directories as files of entries in the file system (src/filesys/directory.c). */
module Directories {
  import opened Inodes
  import opened MachineIntegers
  import opened Options
  import opened Sectors
  import opened Sequences
  import opened Space
  import opened Ustar
  import opened Volumes

  const NAME_MAX: nat := 14
  const DOT: Name := [46]
  const DOTDOT: Name := [46, 46]

  /** A `struct dir_entry` as it is stored: the sector, the name with its zero byte, the in_use flag. */
  type DirEntry = s: seq<byte> | |s| == 20 witness seq(20, _ => 0)

  function SectorOf(s: DirEntry): u32 {
    WordOf(s[0], s[1], s[2], s[3])
  }

  function NameOf(s: DirEntry): Name {
    CString(s[4..19])
  }

  predicate Listed(s: DirEntry) {
    s[19] != 0
  }

  /** The entry that dir_add writes: what was in the buffer stays behind the name. */
  function Filled(buffer: DirEntry, name: Name, sector: u32): DirEntry
    requires |name| <= NAME_MAX
  {
    [ByteOf(sector, 0), ByteOf(sector, 1), ByteOf(sector, 2), ByteOf(sector, 3)] + name + [0] + buffer[5 + |name|..19] + [1]
  }

  lemma FilledEntry(buffer: DirEntry, name: Name, sector: u32)
    requires |name| <= NAME_MAX
    ensures var s := Filled(buffer, name, sector); SectorOf(s) == sector && NameOf(s) == name && Listed(s)
  {
    var s := Filled(buffer, name, sector);
    WordRoundTrip(sector);
    assert s[4..19] == name + [0] + buffer[5 + |name|..19];
    CStringEnds(name, buffer[5 + |name|..19]);
  }

  lemma {:induction false} CStringEnds(name: Name, rest: seq<byte>)
    ensures CString(name + [0] + rest) == name
  {
    var field := name + [0] + rest;
    if name != [] {
      CStringEnds(name[1..], rest);
      assert field[1..] == name[1..] + [0] + rest;
      assert name == [name[0]] + name[1..];
    }
  }

  /** DirEntry I of a directory's bytes. */
  function SlotAt(data: seq<byte>, i: nat): DirEntry
    requires 20 * i + 20 <= |data|
  {
    data[20 * i..20 * i + 20]
  }

  function SlotCount(data: seq<byte>): nat {
    |data| / 20
  }

  /** PLACE tells where each name in use is. */
  ghost predicate Placed(data: seq<byte>, place: map<Name, nat>) {
    && |data| % 20 == 0
    && (forall n :: n in place ==> place[n] < SlotCount(data) && Listed(SlotAt(data, place[n])) && NameOf(SlotAt(data, place[n])) == n)
    && (forall i: nat :: i < SlotCount(data) && Listed(SlotAt(data, i)) ==>
          NameOf(SlotAt(data, i)) in place && place[NameOf(SlotAt(data, i))] == i)
  }

  /** The directory as a map from names to inode sectors. */
  ghost function Listing(data: seq<byte>, place: map<Name, nat>): map<Name, u32>
    requires Placed(data, place)
  {
    map n | n in place :: SectorOf(SlotAt(data, place[n]))
  }

  /** DATA with slot I written, at the end or over an old one. */
  function WithSlot(data: seq<byte>, i: nat, s: DirEntry): (r: seq<byte>)
    requires |data| % 20 == 0 && i <= SlotCount(data)
    ensures |r| % 20 == 0 && SlotCount(r) == if i == SlotCount(data) then i + 1 else SlotCount(data)
    ensures SlotAt(r, i) == s && forall j: nat :: j < SlotCount(data) && j != i ==> SlotAt(r, j) == SlotAt(data, j)
  {
    SlotWritten(data, i, s);
    data[..20 * i] + s + if i == SlotCount(data) then [] else data[20 * i + 20..]
  }

  lemma SlotWritten(data: seq<byte>, i: nat, s: DirEntry)
    requires |data| % 20 == 0 && i <= |data| / 20
    ensures var r := data[..20 * i] + s + if i == |data| / 20 then [] else data[20 * i + 20..];
      && |r| % 20 == 0 && |r| / 20 == (if i == |data| / 20 then i + 1 else |data| / 20)
      && r[20 * i..20 * i + 20] == s
      && forall j: nat :: j < |data| / 20 && j != i ==> r[20 * j..20 * j + 20] == data[20 * j..20 * j + 20]
  {
    var r := data[..20 * i] + s + if i == |data| / 20 then [] else data[20 * i + 20..];
    forall j: nat | j < |data| / 20 && j != i
      ensures r[20 * j..20 * j + 20] == data[20 * j..20 * j + 20]
    {
      assert j < i ==> 20 * j + 20 <= 20 * i;
    }
  }

  lemma AddedSlot(data: seq<byte>, place: map<Name, nat>, i: nat, s: DirEntry)
    requires Placed(data, place) && i <= SlotCount(data) && (i < SlotCount(data) ==> !Listed(SlotAt(data, i)))
    requires Listed(s) && NameOf(s) !in place
    ensures Placed(WithSlot(data, i, s), place[NameOf(s) := i])
    ensures Listing(WithSlot(data, i, s), place[NameOf(s) := i]) == Listing(data, place)[NameOf(s) := SectorOf(s)]
  {
    hide WithSlot, NameOf, SectorOf;
    var r := WithSlot(data, i, s);
    assert forall n :: n in place ==> place[n] != i && SlotAt(r, place[n]) == SlotAt(data, place[n]);
  }

  lemma ErasedSlot(data: seq<byte>, place: map<Name, nat>, name: Name, s: DirEntry)
    requires Placed(data, place) && name in place && !Listed(s)
    ensures Placed(WithSlot(data, place[name], s), place - {name})
    ensures Listing(WithSlot(data, place[name], s), place - {name}) == Listing(data, place) - {name}
  {
    hide WithSlot, NameOf, SectorOf;
    var r := WithSlot(data, place[name], s);
    assert forall n :: n in place && n != name ==> place[n] != place[name] && SlotAt(r, place[n]) == SlotAt(data, place[n]);
  }

  /** DirEntry slot I is the first one not in use, or the end. */
  ghost predicate FirstFree(data: seq<byte>, i: nat) {
    && i <= SlotCount(data) && (i < SlotCount(data) ==> !Listed(SlotAt(data, i)))
    && forall j: nat :: j < i && j < SlotCount(data) ==> Listed(SlotAt(data, j))
  }

  lemma FirstFreeOnce(data: seq<byte>, i: nat, j: nat)
    requires FirstFree(data, i) && FirstFree(data, j)
    ensures i == j
  {
    hide SlotAt;
  }

  /** A write that was not carried out leaves at most an empty slot at the end. */
  lemma EmptySlot(data: seq<byte>, place: map<Name, nat>, i: nat)
    requires Placed(data, place) && i <= SlotCount(data)
    ensures Placed(ZeroPad(data, 20 * i + 20), place) && Listing(ZeroPad(data, 20 * i + 20), place) == Listing(data, place)
  {
    hide NameOf, SectorOf;
    var r := ZeroPad(data, 20 * i + 20);
    forall j: nat | j < SlotCount(data)
      ensures SlotAt(r, j) == SlotAt(data, j)
    {
    }
    assert i == SlotCount(data) ==> !Listed(SlotAt(r, i));
  }

  lemma WrittenSlot(data: seq<byte>, i: nat, s: DirEntry, memory: bool)
    requires |data| % 20 == 0 && i <= SlotCount(data)
    ensures Accepted(20, 20 * i, memory) == if memory then 20 else 0
    ensures Patched(data, 20 * i, s, if memory then 20 else 0) == if memory then WithSlot(data, i, s) else ZeroPad(data, 20 * i + 20)
  {
    if memory {
      assert s[..20] == s;
    } else {
      assert s[..0] == [];
    }
  }

  lemma WindowSlot(data: seq<byte>, i: nat)
    ensures var w := Window(data, 20 * i, 20);
      && (|w| == 20 <==> i < SlotCount(data)) && w[..|w|] == w && (|w| == 20 ==> w == SlotAt(data, i))
  {
  }

  class Directory {
    /** The file system, the directory's inode there, which is open, and the read position. */
    const fs: FileSystem
    const f: nat
    var pos: nat
    ghost var place: map<Name, nat>

    ghost predicate Valid()
      reads this, fs, fs.freeMap, fs.freeMap.bits
    {
      fs.Valid() && f in fs.open && f in fs.nodes && Placed(Data(), place) && pos % 20 == 0
    }

    /** The bytes of the directory. */
    ghost function Data(): seq<byte>
      requires f in fs.nodes
      reads fs
    {
      fs.V().Contents(f)
    }

    ghost function Entries(): map<Name, u32>
      requires Valid()
      reads this, fs, fs.freeMap, fs.freeMap.bits
    {
      Listing(Data(), place)
    }

    /** dir_open for an inode of whole entries with no name twice. */
    constructor (fs: FileSystem, f: nat, ghost place: map<Name, nat>)
      requires fs.Valid() && f in fs.open && f in fs.nodes && Placed(fs.V().Contents(f), place)
      ensures Valid() && this.fs == fs && this.f == f && pos == 0 && Entries() == Listing(fs.V().Contents(f), place)
    {
      hide Placed, Listing, FileSystem.Valid, Volume.Contents;
      this.fs, this.f, pos, this.place := fs, f, 0, place;
    }

    /** The entry in slot I, if there is one.  Reads have memory for their buffer. */
    method ReadEntry(i: nat) returns (r: Option<DirEntry>)
      requires Valid()
      ensures r.Some? <==> i < SlotCount(Data())
      ensures r.Some? ==> r.value == SlotAt(Data(), i)
    {
      hide Placed, Window, Listing, FileSystem.Valid, Volume.Contents;
      InodeOf(fs, f);
      var e := fs.ReadAt(f, 20, 20 * i, true);
      WindowSlot(Data(), i);
      r := if |e| == 20 then Some(e) else None;
    }

    /** lookup: the slot of an entry in use with this NAME. */
    method Find(name: Name) returns (r: Option<nat>, e: DirEntry)
      requires Valid()
      ensures r == if name in place then Some(place[name]) else None
      ensures r.Some? ==> r.value < SlotCount(Data()) && e == SlotAt(Data(), r.value) && Listed(e)
    {
      hide Listing, FileSystem.Valid, Volume.Contents, NameOf, SlotAt;
      var i := 0;
      e := seq(20, _ => 0);
      while true
        invariant i <= SlotCount(Data())
        invariant forall j: nat :: j < i && Listed(SlotAt(Data(), j)) ==> NameOf(SlotAt(Data(), j)) != name
        decreases SlotCount(Data()) - i
      {
        var next := ReadEntry(i);
        if next.None? {
          return None, e;
        }
        e := next.value;
        if Listed(e) && NameOf(e) == name {
          return Some(i), e;
        }
        i := i + 1;
      }
    }

    /** dir_lookup, up to opening the inode. */
    method Lookup(name: Name) returns (r: Option<u32>)
      requires Valid()
      ensures r == if name in Entries() then Some(Entries()[name]) else None
    {
      hide Placed, SlotAt, FileSystem.Valid, Volume.Contents;
      var found, e := Find(name);
      r := if found.Some? then Some(SectorOf(e)) else None;
    }

    /** The free slot dir_add takes: the first one, or the end.  BUFFER has the entry read there, or what was
        left from before. */
    method FreeSlot(buffer: DirEntry) returns (i: nat, buffer': DirEntry)
      requires Valid()
      ensures FirstFree(Data(), i)
    {
      hide Placed, Listing, FileSystem.Valid, Volume.Contents, SlotAt;
      i, buffer' := 0, buffer;
      while true
        invariant i <= SlotCount(Data()) && forall j: nat :: j < i ==> Listed(SlotAt(Data(), j))
        decreases SlotCount(Data()) - i
      {
        var next := ReadEntry(i);
        if next.None? {
          return;
        }
        buffer' := next.value;
        if !Listed(buffer') {
          return;
        }
        i := i + 1;
      }
    }

    /** inode_write_at for the entry in slot I; MEMORY is whether the kernel has memory for its buffer. */
    method WriteEntry(i: nat, e: DirEntry, memory: bool) returns (ok: bool)
      requires Valid() && i <= SlotCount(Data()) && 20 * i + 20 <= MAX_BYTES
      modifies fs`disk, fs`open, fs`nodes, fs`owner, fs.freeMap.bits
      ensures fs.Valid() && f in fs.open && f in fs.nodes && fs.nodes.Keys == old(fs.nodes.Keys)
      ensures ok <==> memory && old(CanWrite(fs, f, 20 * i + 20))
      ensures Data() == if ok then WithSlot(old(Data()), i, e)
                        else if old(CanWrite(fs, f, 20 * i + 20)) then ZeroPad(old(Data()), 20 * i + 20) else old(Data())
      ensures fs.V().Files() == old(fs.V().Files())[f := Data()]
      ensures fs.open == old(fs.open)[f := old(fs.open)[f].(data := fs.nodes[f])]
    {
      hide Placed, Listing, Patched, ZeroPad, WithSlot, Footprint, Grow, SlotAt, Volume.Contents, Volume.Files, Volume.Valid, Stray, OwnerAdds,
        Saved, AllUsed;
      ghost var v := fs.V();
      Whole(Data(), place);
      WrittenSlot(Data(), i, e, memory);
      InodeOf(fs, f);
      FilesItself(v, f);
      var written, grown := fs.WriteAt(f, e, 20 * i, memory);
      WroteFile(v, fs.V(), f, if grown then Patched(v.Contents(f), 20 * i, e, written) else v.Contents(f));
      ok := written == 20;
    }

    /** dir_add; MEMORY is whether the kernel has memory to write, and BUFFER is what the entry buffer had in
        it. */
    method Add(name: Name, sector: u32, memory: bool, buffer: DirEntry) returns (ok: bool)
      requires Valid() && |Data()| + 20 <= MAX_BYTES
      modifies `place, fs`disk, fs`open, fs`nodes, fs`owner, fs.freeMap.bits
      ensures Valid()
      ensures ok <==>
        && 1 <= |name| <= NAME_MAX && name !in old(Entries()) && memory
        && exists i: nat :: FirstFree(old(Data()), i) && old(CanWrite(fs, f, 20 * i + 20))
      ensures Entries() == if ok then old(Entries())[name := sector] else old(Entries())
      ensures !ok ==> Data() == old(Data()) || Data() == old(Data()) + seq(20, _ => 0)
      ensures fs.V().Files() == old(fs.V().Files())[f := Data()]
    {
      hide Placed, Listing, FirstFree, SlotAt, WithSlot, Filled, ZeroPad, Footprint, Volume.Contents, Volume.Files, FileSystem.Valid;
      ghost var v := fs.V();
      ghost var data := Data();
      ListedNames(data, place);
      InodeOf(fs, f);
      FilesItself(v, f);
      if name == [] || |name| > NAME_MAX {
        return false;
      }
      var found, last := Find(name);
      if found.Some? {
        return false;
      }
      Whole(data, place);
      var i, e := FreeSlot(last);
      OnlyFree(data, i, fs, f);
      FreeBound(data, i);
      FilledEntry(e, name, sector);
      ok := WriteEntry(i, Filled(e, name, sector), memory);
      if ok {
        AddedSlot(data, place, i, Filled(e, name, sector));
        place := place[name := i];
      } else {
        EmptySlot(data, place, i);
      }
    }

    /** dir_remove takes the entry of NAME, in slot I, out of use. */
    method Erase(name: Name, i: nat, e: DirEntry, memory: bool) returns (ok: bool)
      requires Valid() && |Data()| <= MAX_BYTES && name in place && place[name] == i && i < SlotCount(Data()) && e == SlotAt(Data(), i)
      modifies `place, fs`disk, fs`open, fs`nodes, fs`owner, fs.freeMap.bits
      ensures Valid() && fs.nodes.Keys == old(fs.nodes.Keys)
      ensures ok <==> memory && old(fs.open[f].denyWriteCnt == 0)
      ensures Entries() == if ok then old(Entries()) - {name} else old(Entries())
      ensures fs.V().Files() == old(fs.V().Files())[f := Data()]
      ensures fs.open == old(fs.open)[f := old(fs.open)[f].(data := fs.nodes[f])]
    {
      hide Placed, Listing, SlotAt, WithSlot, ZeroPad, Listed, CanWrite, Volume.Contents, Volume.Files, FileSystem.Valid;
      ghost var data := Data();
      Whole(data, place);
      InFile(fs, f, i);
      ErasedFlag(e);
      var erased: DirEntry := e[19 := 0];
      ok := WriteEntry(i, erased, memory);
      if ok {
        ErasedSlot(data, place, name, erased);
        place := place - {name};
      } else {
        NotPadded(data, i);
      }
    }

    /** dir_remove; OPENMEMORY is whether the kernel has memory to open the file's inode.  The file is deleted
        at once, or when its last opener closes it. */
    method Remove(name: Name, openMemory: bool, memory: bool) returns (ok: bool)
      requires Valid() && |Data()| <= MAX_BYTES && (name in Entries() ==> Entries()[name] in fs.nodes && Entries()[name] != f)
      modifies `place, fs`disk, fs`open, fs`nodes, fs`owner, fs.freeMap.bits
      ensures Valid()
      ensures ok <==>
        && name in old(Entries()) && (openMemory || old(Entries())[name] in old(fs.open)) && memory && old(fs.open[f].denyWriteCnt == 0)
      ensures Entries() == if ok then old(Entries()) - {name} else old(Entries())
      ensures fs.V().Files() == old(fs.V().Files())[f := Data()] -
        if ok && old(Entries())[name] !in old(fs.open) then {old(Entries())[name] as nat} else {}
      ensures ok && old(Entries())[name] in old(fs.open) ==> old(Entries())[name] in fs.open && fs.open[old(Entries())[name]].removed
    {
      hide Placed, Listing, SlotAt, SectorOf, Volume.Contents, Volume.Files, FileSystem.Valid;
      ghost var v := fs.V();
      ghost var data := Data();
      FilesItself(v, f);
      ListedSectors(data, place);
      var found, e := Find(name);
      if found.None? {
        return false;
      }
      var sector: nat := SectorOf(e);
      if sector in fs.open {
        InodeOf(fs, sector);
      }
      var opened_ := fs.Open(sector, openMemory);
      WroteFile(v, fs.V(), f, data);
      if !opened_ {
        return false;
      }
      ok := Erase(name, found.value, e, memory);
      ghost var w := fs.V();
      Finish(fs, f, sector, ok);
      NothingLess(w);
    }

    /** dir_readdir: the next name but "." and "..". */
    method ReadDir() returns (r: Option<Name>)
      requires Valid()
      modifies `pos
      ensures Valid() && (if r.Some? then old(pos) < pos <= |Data()| else pos / 20 >= SlotCount(Data()))
      ensures ShownTo(Data(), pos / 20) == ShownTo(Data(), old(pos) / 20) + if r.Some? then [r.value] else []
    {
      hide Placed, Listing, ShownTo, NameOf, SlotAt, FileSystem.Valid, Volume.Contents;
      assert ShownTo(Data(), pos / 20) + [] == ShownTo(Data(), pos / 20);
      while true
        invariant Valid() && old(pos) <= pos
        invariant ShownTo(Data(), pos / 20) == ShownTo(Data(), old(pos) / 20)
        decreases |Data()| - pos
      {
        var i := pos / 20;
        var next := ReadEntry(i);
        if next.None? {
          return None;
        }
        var e := next.value;
        pos := pos + 20;
        assert pos / 20 == i + 1;
        ShownStep(Data(), i);
        if Listed(e) && NameOf(e) != DOT && NameOf(e) != DOTDOT {
          return Some(NameOf(e));
        }
      }
    }

    /** A whole pass of dir_readdir gives every name but "." and ".." exactly once. */
    method ReadAll() returns (names: seq<Name>)
      requires Valid() && pos == 0
      modifies `pos
      ensures Valid()
      ensures forall n :: n in names <==> n in Entries() && n != DOT && n != DOTDOT
      ensures Distinct(names)
    {
      hide Placed, Listing, ShownTo, FileSystem.Valid, Volume.Contents;
      names := [];
      NoneShown(Data());
      while true
        invariant Valid() && names == ShownTo(Data(), pos / 20)
        decreases |Data()| - pos
      {
        var r := ReadDir();
        if r.None? {
          assert names + [] == names;
          break;
        }
        names := names + [r.value];
      }
      AllShown(Data(), place, pos / 20);
      ShownDistinct(Data(), place, pos / 20);
    }

    /** dir_is_empty. */
    method IsEmpty() returns (empty: bool)
      requires Valid()
      ensures empty <==> Entries().Keys <= {DOT, DOTDOT}
    {
      hide FileSystem.Valid, Volume.Contents, NameOf, SlotAt;
      var i := 0;
      while true
        invariant i <= SlotCount(Data()) && forall j: nat :: j < i ==> !Shown(Data(), j)
        decreases SlotCount(Data()) - i
      {
        var next := ReadEntry(i);
        if next.None? {
          break;
        }
        var e := next.value;
        if Listed(e) && NameOf(e) != DOT && NameOf(e) != DOTDOT {
          assert NameOf(e) in place && NameOf(e) in Entries().Keys;
          return false;
        }
        i := i + 1;
      }
      forall n | n in place
        ensures n == DOT || n == DOTDOT
      {
        assert !Shown(Data(), place[n]);
      }
      return true;
    }
  }

  /** The end of dir_remove: if the entry is gone, so is the inode, once nobody has it open. */
  method Finish(fs: FileSystem, ghost f: nat, sector: nat, delete: bool)
    requires fs.Valid() && sector in fs.open && f in fs.open && f != sector && f in fs.nodes
    modifies fs`open, fs`nodes, fs`owner, fs.freeMap.bits
    ensures fs.Valid() && f in fs.open && f in fs.nodes && fs.V().Contents(f) == old(fs.V().Contents(f))
    ensures var last := old(fs.open)[sector].openCnt == 1;
      && (last && delete ==> fs.V().Files() == old(fs.V().Files()) - {sector})
      && (!(last && (delete || old(fs.open)[sector].removed)) ==> fs.V() == old(fs.V()))
      && (!last ==> sector in fs.open && fs.open[sector].removed == (delete || old(fs.open)[sector].removed))
  {
    hide Volume.Contents, Volume.Files, Volume.Valid, Volume.OwnedBy, Saved, AllUsed, Unmarked, Footprint;
    if delete {
      fs.Remove(sector);
    }
    ghost var w := fs.V();
    fs.Close(sector);
    InodeOf(fs, f);
    ClosedFile(w, fs.V(), f, sector);
  }

  lemma NothingLess(v: Volume)
    ensures v.Files() - {} == v.Files()
  {
  }

  /** A write up to END is accepted. */
  ghost predicate CanWrite(fs: FileSystem, f: nat, end: nat)
    requires fs.freeMap.Valid() && f in fs.open && f in fs.nodes
    reads fs, fs.freeMap, fs.freeMap.bits
  {
    var from, to := SectorCount(fs.nodes[f].length), SectorCount(end);
    fs.open[f].denyWriteCnt == 0 && (to <= from || fs.Free() >= Footprint(to) - Footprint(from))
  }

  lemma InodeOf(fs: FileSystem, f: nat)
    requires fs.Valid() && f in fs.open
    ensures fs.freeMap.Valid() && f in fs.nodes && fs.open[f].data == fs.nodes[f] && |fs.V().Contents(f)| == fs.nodes[f].length
    ensures fs.open == fs.open[f := fs.open[f].(data := fs.nodes[f])] && fs.open[f].openCnt > 0
  {
    hide Saved, AllUsed, Volume.Valid, Volume.Contents;
  }

  lemma WroteFile(v: Volume, w: Volume, f: nat, bytes: seq<byte>)
    requires f in w.nodes && w.Files() == v.Files()[f := bytes]
    ensures w.Contents(f) == bytes && w.Files() == v.Files()[f := w.Contents(f)]
  {
    hide Volume.Contents;
    assert f in w.Files();
  }

  lemma FilesItself(v: Volume, f: nat)
    requires f in v.nodes
    ensures v.Files()[f := v.Contents(f)] == v.Files()
  {
    hide Volume.Contents;
  }

  lemma ListedNames(data: seq<byte>, place: map<Name, nat>)
    requires Placed(data, place)
    ensures Listing(data, place).Keys == place.Keys
  {
    hide SlotAt, SectorOf;
  }

  lemma ListedSectors(data: seq<byte>, place: map<Name, nat>)
    requires Placed(data, place)
    ensures Listing(data, place).Keys == place.Keys
    ensures forall n :: n in place ==> place[n] < SlotCount(data) && Listing(data, place)[n] == SectorOf(SlotAt(data, place[n]))
  {
    hide SlotAt, SectorOf;
  }

  /** Deleting another file leaves F alone. */
  lemma ClosedFile(v: Volume, w: Volume, f: nat, g: nat)
    requires f in v.nodes && f != g && (w == v || (f in w.nodes && w.Files() == v.Files() - {g}))
    ensures w.Contents(f) == v.Contents(f)
  {
    hide Volume.Contents;
    if w != v {
      assert w.Files()[f] == v.Files()[f];
    }
  }

  lemma OnlyFree(data: seq<byte>, i: nat, fs: FileSystem, f: nat)
    requires FirstFree(data, i) && fs.freeMap.Valid() && f in fs.open && f in fs.nodes
    ensures (exists j: nat :: FirstFree(data, j) && CanWrite(fs, f, 20 * j + 20)) <==> CanWrite(fs, f, 20 * i + 20)
  {
    hide FirstFree, CanWrite;
    forall j: nat | FirstFree(data, j)
      ensures j == i
    {
      FirstFreeOnce(data, i, j);
    }
  }

  lemma FreeBound(data: seq<byte>, i: nat)
    requires FirstFree(data, i) && |data| % 20 == 0
    ensures i <= SlotCount(data) && 20 * i + 20 <= |data| + 20 && (i < SlotCount(data) ==> !Listed(SlotAt(data, i)))
    ensures ZeroPad(data, 20 * i + 20) == data || ZeroPad(data, 20 * i + 20) == data + seq(20, _ => 0)
  {
    hide SlotAt;
  }

  lemma InFile(fs: FileSystem, f: nat, i: nat)
    requires fs.Valid() && f in fs.open && f in fs.nodes && i < SlotCount(fs.V().Contents(f))
    ensures fs.freeMap.Valid() && (CanWrite(fs, f, 20 * i + 20) <==> fs.open[f].denyWriteCnt == 0) && 20 * i + 20 <= |fs.V().Contents(f)|
  {
    hide Footprint, Unmarked, Saved, AllUsed, Volume.Valid, Volume.Contents;
    CountsGrow(20 * i + 20, fs.nodes[f].length);
  }

  lemma CountsGrow(a: nat, b: nat)
    requires a <= b
    ensures SectorCount(a) <= SectorCount(b)
  {
  }

  lemma NotPadded(data: seq<byte>, i: nat)
    requires i < SlotCount(data)
    ensures ZeroPad(data, 20 * i + 20) == data
  {
  }

  lemma ErasedFlag(e: DirEntry)
    ensures !Listed(e[19 := 0])
  {
  }

  /** Slot I has an entry that dir_readdir returns. */
  predicate Shown(data: seq<byte>, i: nat)
    requires i < SlotCount(data)
  {
    Listed(SlotAt(data, i)) && NameOf(SlotAt(data, i)) != DOT && NameOf(SlotAt(data, i)) != DOTDOT
  }

  lemma Whole(data: seq<byte>, place: map<Name, nat>)
    requires Placed(data, place)
    ensures |data| % 20 == 0
  {
  }

  /** The names dir_readdir returns from the first N slots. */
  function ShownTo(data: seq<byte>, n: nat): seq<Name> {
    if n == 0 then []
    else ShownTo(data, n - 1) + if n - 1 < SlotCount(data) && Shown(data, n - 1) then [NameOf(SlotAt(data, n - 1))] else []
  }

  lemma ShownStep(data: seq<byte>, i: nat)
    requires i < SlotCount(data)
    ensures ShownTo(data, i + 1) == ShownTo(data, i) + (if Shown(data, i) then [NameOf(SlotAt(data, i))] else [])
    ensures !Shown(data, i) ==> ShownTo(data, i + 1) == ShownTo(data, i)
  {
  }

  lemma NoneShown(data: seq<byte>)
    ensures ShownTo(data, 0) == []
  {
  }

  lemma {:induction false} ShownMember(data: seq<byte>, place: map<Name, nat>, n: nat, name: Name)
    requires Placed(data, place)
    ensures name in ShownTo(data, n) <==> name in place && place[name] < n && name != DOT && name != DOTDOT
  {
    hide NameOf, SlotAt;
    if n > 0 {
      ShownMember(data, place, n - 1, name);
    }
  }

  lemma AllShown(data: seq<byte>, place: map<Name, nat>, n: nat)
    requires Placed(data, place) && n >= SlotCount(data)
    ensures forall name :: name in ShownTo(data, n) <==> name in Listing(data, place) && name != DOT && name != DOTDOT
  {
    hide ShownTo, NameOf, SlotAt;
    forall name
      ensures name in ShownTo(data, n) <==> name in Listing(data, place) && name != DOT && name != DOTDOT
    {
      ShownMember(data, place, n, name);
    }
  }

  lemma DistinctSnoc(names: seq<Name>, name: Name)
    requires Distinct(names) && name !in names
    ensures Distinct(names + [name])
  {
  }

  lemma SlotPlace(data: seq<byte>, place: map<Name, nat>, i: nat)
    requires Placed(data, place) && i < SlotCount(data) && Listed(SlotAt(data, i))
    ensures NameOf(SlotAt(data, i)) in place && place[NameOf(SlotAt(data, i))] == i
  {
    hide NameOf, SlotAt;
  }

  lemma {:induction false} ShownDistinct(data: seq<byte>, place: map<Name, nat>, n: nat)
    requires Placed(data, place)
    ensures Distinct(ShownTo(data, n))
  {
    hide Placed, SlotAt, NameOf;
    if n > 0 {
      ShownDistinct(data, place, n - 1);
      var names := ShownTo(data, n - 1);
      if n - 1 < SlotCount(data) && Shown(data, n - 1) {
        SlotPlace(data, place, n - 1);
        ShownMember(data, place, n - 1, NameOf(SlotAt(data, n - 1)));
        assert ShownTo(data, n) == names + [NameOf(SlotAt(data, n - 1))];
        DistinctSnoc(names, NameOf(SlotAt(data, n - 1)));
      } else {
        assert ShownTo(data, n) == names;
      }
    }
  }
}
