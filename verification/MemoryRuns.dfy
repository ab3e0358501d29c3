/** Any run of programs over virtual memory, with their stacks growing and files mapped and unmapped: flat memory
    and plain files (src/vm, src/userprog). */
module MemoryRuns {
  import opened MachineIntegers
  import opened Memories
  import opened Options
  import opened Paging

  // ----- files as programs see them -----------------------------------------------------------------------

  /** Byte P of file F: where the file is mapped, what the mapping has. */
  ghost function LogicalByte(v: Vm, f: nat, p: nat): byte {
    if Covered(v.pages, f, p) then
      var k :| k in v.pages && Covers(v.pages[k], f, p);
      ByteOf(v, k, p - v.pages[k].ofs)
    else FileByte(v.files, f, p)
  }

  ghost function LogicalBytes(v: Vm, f: nat): (bytes: seq<byte>)
    requires f in v.files
    ensures |bytes| == |v.files[f].bytes|
  {
    seq(|v.files[f].bytes|, p requires 0 <= p < |v.files[f].bytes| => LogicalByte(v, f, p))
  }

  ghost function Logical(v: Vm): map<nat, seq<byte>> {
    map f | f in v.files :: LogicalBytes(v, f)
  }

  /** The abstract value: memory, files and mappings. */
  datatype Flat = Flat(image: map<Key, seq<byte>>, files: map<nat, seq<byte>>, maps: map<nat, Mapping>)

  ghost function FlatOf(v: Vm): Flat {
    Flat(Image(v), Logical(v), v.maps)
  }

  /** With nothing shared it does not matter which page is asked. */
  lemma LogicalAt(v: Vm, k: Key, f: nat, p: nat)
    requires Entries(v) && Exclusive(v) && k in v.pages && Covers(v.pages[k], f, p)
    ensures LogicalByte(v, f, p) == ByteOf(v, k, p - v.pages[k].ofs)
  {
    hide ByteOf;
    forall q | q in v.pages && Covers(v.pages[q], f, p)
      ensures q == k
    {
      assert q != k ==> Overlap(v.pages[q], v.pages[k]);
    }
  }

  /** A file that is not mapped is what it is. */
  lemma UnmappedFile(v: Vm, f: nat)
    requires f in v.files && forall p: nat :: p < |v.files[f].bytes| ==> !Covered(v.pages, f, p)
    ensures LogicalBytes(v, f) == v.files[f].bytes
  {
  }

  lemma LogicalEqual(v: Vm, w: Vm)
    requires w.files.Keys == v.files.Keys && forall f :: f in v.files ==> |w.files[f].bytes| == |v.files[f].bytes|
    requires forall f: nat, p: nat :: LogicalByte(w, f, p) == LogicalByte(v, f, p)
    ensures Logical(w) == Logical(v)
  {
    hide LogicalByte;
    forall f | f in v.files
      ensures LogicalBytes(w, f) == LogicalBytes(v, f)
    {
    }
  }

  // ----- what a step does to files ------------------------------------------------------------------------------

  /** Pages moved about and bytes of pages changed: files change as the pages of their mappings do. */
  lemma LogicalMoved(v: Vm, w: Vm, f: nat, p: nat)
    requires Entries(v) && Exclusive(v) && Entries(w) && Exclusive(w) && w.pages.Keys >= v.pages.Keys && SameNatures(v, w) && OnlyCovered(v, w)
    requires forall k :: k in w.pages && k !in v.pages ==> w.pages[k].mapping.None?
    ensures Covered(w.pages, f, p) <==> Covered(v.pages, f, p)
    ensures !Covered(v.pages, f, p) ==> LogicalByte(w, f, p) == LogicalByte(v, f, p)
    ensures forall k :: k in v.pages && Covers(v.pages[k], f, p) ==>
      LogicalByte(v, f, p) == ByteOf(v, k, p - v.pages[k].ofs) && LogicalByte(w, f, p) == ByteOf(w, k, p - v.pages[k].ofs)
  {
    hide ByteOf, Entries, Exclusive, FileByte, LogicalByte;
    forall k | k in v.pages
      ensures Covers(w.pages[k], f, p) <==> Covers(v.pages[k], f, p)
    {
      assert SameNature(v.pages[k], w.pages[k]);
    }
    assert Covered(w.pages, f, p) <==> Covered(v.pages, f, p);
    forall k | k in v.pages && Covers(v.pages[k], f, p)
      ensures LogicalByte(v, f, p) == ByteOf(v, k, p - v.pages[k].ofs) && LogicalByte(w, f, p) == ByteOf(w, k, p - v.pages[k].ofs)
    {
      assert SameNature(v.pages[k], w.pages[k]);
      LogicalAt(v, k, f, p);
      LogicalAt(w, k, f, p);
    }
    if !Covered(v.pages, f, p) {
      Outside(v, f, p);
      Outside(w, f, p);
    }
  }

  lemma Outside(v: Vm, f: nat, p: nat)
    requires !Covered(v.pages, f, p)
    ensures LogicalByte(v, f, p) == FileByte(v.files, f, p)
  {
  }

  lemma ImageByte(v: Vm, k: Key, i: nat)
    requires k in v.pages
    ensures k in Image(v) && ByteOf(v, k, i) == if i < |Image(v)[k]| then Image(v)[k][i] else 0
  {
    hide Visible;
  }

  /** If memory stays, or gets one more page, files stay. */
  lemma LogicalKept(v: Vm, w: Vm)
    requires Entries(v) && Exclusive(v) && Entries(w) && Exclusive(w) && w.pages.Keys >= v.pages.Keys && SameNatures(v, w) && OnlyCovered(v, w)
    requires forall k :: k in w.pages && k !in v.pages ==> w.pages[k].mapping.None?
    requires SameShape(v.files, w.files) && forall k :: k in v.pages ==> k in Image(w) && Image(w)[k] == Image(v)[k]
    ensures Logical(w) == Logical(v)
  {
    hide ByteOf, Entries, Exclusive, FileByte, LogicalByte, Image, Covers, SameNatures, OnlyCovered, Logical;
    forall f: nat, p: nat
      ensures LogicalByte(w, f, p) == LogicalByte(v, f, p)
    {
      LogicalMoved(v, w, f, p);
      if Covered(v.pages, f, p) {
        var k :| k in v.pages && Covers(v.pages[k], f, p);
        ImageByte(v, k, OfsIn(v.pages[k], p));
        ImageByte(w, k, OfsIn(v.pages[k], p));
        OfsIs(v.pages[k], f, p);
      }
    }
    LogicalEqual(v, w);
  }

  function OfsIn(e: Spte, p: nat): nat {
    if p < e.ofs then 0 else p - e.ofs
  }

  lemma OfsIs(e: Spte, f: nat, p: nat)
    requires Covers(e, f, p)
    ensures OfsIn(e, p) == p - e.ofs
  {
  }

  // ----- a byte is written ---------------------------------------------------------------------------------------

  /** The mapping page K belongs to. */
  ghost function MapAt(maps: map<nat, Mapping>, k: Key): Option<nat> {
    if exists id :: id in maps && InMapping(maps, k, id) then
      var id :| id in maps && InMapping(maps, k, id);
      Some(id)
    else None
  }

  lemma MapAtIs(v: Vm, k: Key)
    requires MapsOk(v) && k in v.pages
    ensures MapAt(v.maps, k) == v.pages[k].mapping
    ensures v.pages[k].mapping.Some? ==>
      var id := v.pages[k].mapping.value;
      id in v.maps && InMapping(v.maps, k, id) && MapsPage(v.pages[k], id, v.maps[id], k.page - v.maps[id].base)
  {
    forall id | id in v.maps && InMapping(v.maps, k, id)
      ensures v.pages[k].mapping == Some(id) && MapsPage(v.pages[k], id, v.maps[id], k.page - v.maps[id].base)
    {
      assert MapsAt(v.pages, id, v.maps[id], k.page - v.maps[id].base);
    }
  }

  /** Byte P of FILES[F] becomes B. */
  ghost function PokeFile(files: map<nat, seq<byte>>, f: nat, p: nat, b: byte): map<nat, seq<byte>> {
    if f in files && p < |files[f]| then
      var bytes: seq<byte> := files[f][p := b];
      files[f := bytes]
    else files
  }

  ghost function Poked(flat: Flat, k: Key, i: nat, b: byte): Flat {
    var id := MapAt(flat.maps, k);
    flat.(image := Poke(flat.image, k, i, b),
          files := if id.Some? && id.value in flat.maps && flat.maps[id.value].base <= k.page then
                     PokeFile(flat.files, flat.maps[id.value].file, 4096 * (k.page - flat.maps[id.value].base) + i, b)
                   else flat.files)
  }

  /** What a store into page K does to byte P of file F. */
  lemma StoredLogical(v: Vm, w: Vm, k: Key, i: nat, b: byte, f: nat, p: nat)
    requires Entries(v) && Exclusive(v) && Entries(w) && Exclusive(w) && w.pages.Keys == v.pages.Keys && SameNatures(v, w) && OnlyCovered(v, w)
    requires k in v.pages && i < |Visible(v, k)| && Image(w) == Poke(Image(v), k, i, b)
    ensures LogicalByte(w, f, p) == if Hits(v.pages[k], i, f, p) then b else LogicalByte(v, f, p)
  {
    hide ByteOf, Exclusive, FileByte, LogicalByte, SameNatures, OnlyCovered, Visible, Image, Poke, Covers;
    LogicalMoved(v, w, f, p);
    StoredExtent(v, k, i, f, p);
    if Hits(v.pages[k], i, f, p) {
      StoredCovered(v, w, k, i, b, k, f, p);
    } else if Covered(v.pages, f, p) {
      var q :| q in v.pages && Covers(v.pages[q], f, p);
      StoredCovered(v, w, k, i, b, q, f, p);
    }
  }

  /** Offset I of page E is byte P of file F. */
  predicate Hits(e: Spte, i: nat, f: nat, p: nat) {
    e.mapping.Some? && f == e.file && p == e.ofs + i
  }

  lemma StoredCovered(v: Vm, w: Vm, k: Key, i: nat, b: byte, q: Key, f: nat, p: nat)
    requires k in v.pages && i < |Visible(v, k)| && Image(w) == Poke(Image(v), k, i, b) && w.pages.Keys == v.pages.Keys
    requires q in v.pages && Covers(v.pages[q], f, p) && (q == k || !Hits(v.pages[k], i, f, p))
    ensures ByteOf(w, q, p - v.pages[q].ofs) == if Hits(v.pages[k], i, f, p) then b else ByteOf(v, q, p - v.pages[q].ofs)
  {
    hide ByteOf, Visible, Image, Poke;
    var j := p - v.pages[q].ofs;
    ImageByte(v, q, j);
    ImageByte(w, q, j);
    StoredByteAt(v, w, k, i, b, q, j);
  }

  lemma StoredExtent(v: Vm, k: Key, i: nat, f: nat, p: nat)
    requires k in v.pages && i < |Visible(v, k)| && Entries(v)
    ensures Hits(v.pages[k], i, f, p) ==> Covers(v.pages[k], f, p)
  {
    hide Contents;
  }

  lemma StoredByteAt(v: Vm, w: Vm, k: Key, i: nat, b: byte, q: Key, j: nat)
    requires k in v.pages && q in v.pages && i < |Visible(v, k)| && Image(w) == Poke(Image(v), k, i, b)
    ensures q in Image(w) && q in Image(v) && |Image(w)[q]| == |Image(v)[q]|
    ensures j < |Image(v)[q]| ==> Image(w)[q][j] == if q == k && j == i then b else Image(v)[q][j]
    ensures q == k ==> i < |Image(v)[q]|
  {
    hide Visible;
  }

  lemma StoredFile(v: Vm, w: Vm, k: Key, i: nat, b: byte, f: nat)
    requires Entries(v) && Exclusive(v) && Entries(w) && Exclusive(w) && w.pages.Keys == v.pages.Keys && SameNatures(v, w) && OnlyCovered(v, w)
    requires SameShape(v.files, w.files) && f in v.files && k in v.pages && i < |Visible(v, k)| && Image(w) == Poke(Image(v), k, i, b)
    ensures var e := v.pages[k];
      LogicalBytes(w, f) ==
        if e.mapping.Some? && f == e.file && e.ofs + i < |LogicalBytes(v, f)| then LogicalBytes(v, f)[e.ofs + i := b] else LogicalBytes(v, f)
  {
    hide Entries, Exclusive, LogicalByte, Image, Poke, Visible, SameNatures, OnlyCovered;
    forall p | 0 <= p < |v.files[f].bytes|
      ensures LogicalBytes(w, f)[p] == if Hits(v.pages[k], i, f, p) then b else LogicalBytes(v, f)[p]
    {
      StoredLogical(v, w, k, i, b, f, p);
    }
  }

  lemma FlatStored(v: Vm, w: Vm, k: Key, i: nat, b: byte)
    requires Inv(v, {}) && Exclusive(v) && Inv(w, {}) && Exclusive(w) && w.maps == v.maps
    requires w.pages.Keys == v.pages.Keys && SameNatures(v, w) && OnlyCovered(v, w) && SameShape(v.files, w.files)
    requires k in v.pages && i < |Visible(v, k)| && Image(w) == Poke(Image(v), k, i, b)
    ensures FlatOf(w) == Poked(FlatOf(v), k, i, b)
  {
    hide Entries, FramesOk, TableOk, SlotsOk, MapsOk, Exclusive, LogicalBytes, Image, Poke, Visible, SameNatures, OnlyCovered, MapAt;
    MapAtIs(v, k);
    forall f | f in v.files
      ensures LogicalBytes(w, f) == Poked(FlatOf(v), k, i, b).files[f]
    {
      StoredFile(v, w, k, i, b, f);
    }
  }

  // ----- a file is mapped -----------------------------------------------------------------------------------------

  ghost function FirstKeys(m: Mapping, n: nat): (s: set<Key>)
    ensures forall k :: k in s <==> Among(m, n, k)
  {
    if n == 0 then {} else FirstKeys(m, n - 1) + {Key(m.proc, m.base + n - 1)}
  }

  ghost function KeysOf(m: Mapping): (s: set<Key>)
    ensures forall k :: k in s <==> Among(m, PageCount(m.length), k)
  {
    FirstKeys(m, PageCount(m.length))
  }

  /** What page I of a mapping of BYTES has. */
  ghost function PageOf(bytes: seq<byte>, i: nat): seq<byte> {
    if 4096 * i >= |bytes| then [] else if 4096 * i + 4096 <= |bytes| then bytes[4096 * i..4096 * i + 4096] else bytes[4096 * i..]
  }

  ghost function MappedIn(flat: Flat, id: nat, m: Mapping): Flat {
    var bytes := if m.file in flat.files then flat.files[m.file] else [];
    flat.(maps := flat.maps[id := m], image := flat.image + map k | k in KeysOf(m) :: PageOf(bytes, Offset(k, m)))
  }

  /** A file none of whose bytes backs a page is not mapped anywhere. */
  lemma UnbackedFile(v: Vm, f: nat)
    requires Entries(v) && f in v.files && Unbacked(v.pages, f, |v.files[f].bytes|)
    ensures LogicalBytes(v, f) == v.files[f].bytes
    ensures forall p: nat :: p < |v.files[f].bytes| ==> !Covered(v.pages, f, p)
  {
    forall p: nat | p < |v.files[f].bytes|
      ensures !Covered(v.pages, f, p)
    {
    }
    UnmappedFile(v, f);
  }

  lemma MappedPage(v: Vm, w: Vm, id: nat, m: Mapping, k: Key)
    requires Added(v.pages, w.pages, id, m, PageCount(m.length)) && m.file in v.files && m.length == |v.files[m.file].bytes|
    requires MapImage(w, m) == v.files[m.file].bytes && k in w.pages && k !in v.pages
    ensures Visible(w, k) == PageOf(v.files[m.file].bytes, Offset(k, m))
  {
    hide Contents;
    var i := k.page - m.base;
    assert k == Key(m.proc, m.base + i);
    var page, bytes := Visible(w, k), v.files[m.file].bytes;
    forall j | 0 <= j < |page|
      ensures 4096 * i + j < |bytes| && page[j] == bytes[4096 * i + j]
    {
      assert (4096 * i + j) / 4096 == i && (4096 * i + j) % 4096 == j;
      assert MapImage(w, m)[4096 * i + j] == ByteOf(w, k, j);
    }
  }

  lemma MappedLogical(v: Vm, w: Vm, id: nat, m: Mapping, f: nat, p: nat)
    requires Inv(v, {}) && Exclusive(v) && Inv(w, {}) && Exclusive(w) && Unbacked(v.pages, m.file, m.length)
    requires Added(v.pages, w.pages, id, m, PageCount(m.length)) && m.file in v.files && m.length == |v.files[m.file].bytes| && w.files == v.files
    requires MapImage(w, m) == v.files[m.file].bytes && forall k :: k in v.pages ==> Visible(w, k) == Visible(v, k)
    ensures LogicalByte(w, f, p) == LogicalByte(v, f, p)
  {
    hide Exclusive, FramesOk, TableOk, SlotsOk, MapsOk, LogicalByte, Visible, MapImage, FileByte;
    if Covered(w.pages, f, p) {
      var k :| k in w.pages && Covers(w.pages[k], f, p);
      LogicalAt(w, k, f, p);
      if k in v.pages {
        LogicalAt(v, k, f, p);
      } else {
        UnbackedFile(v, m.file);
        Outside(v, f, p);
        MappedByteAt(v, w, id, m, k, p);
      }
    } else {
      assert forall k :: k in v.pages ==> w.pages[k] == v.pages[k];
      Outside(v, f, p);
      Outside(w, f, p);
    }
  }

  lemma MappedByteAt(v: Vm, w: Vm, id: nat, m: Mapping, k: Key, p: nat)
    requires Added(v.pages, w.pages, id, m, PageCount(m.length)) && k in w.pages && k !in v.pages && Covers(w.pages[k], m.file, p)
    requires m.file in v.files && m.length == |v.files[m.file].bytes| && MapImage(w, m) == v.files[m.file].bytes
    ensures p < |v.files[m.file].bytes| && ByteOf(w, k, p - w.pages[k].ofs) == FileByte(v.files, m.file, p)
  {
    hide Visible;
    var i := k.page - m.base;
    assert k == Key(m.proc, m.base + i) && w.pages[k] == MapEntry(id, m, i);
    assert p / 4096 == i && p % 4096 == p - 4096 * i;
    assert MapImage(w, m)[p] == ByteOf(w, k, p % 4096);
  }

  lemma FlatMapped(v: Vm, w: Vm, id: nat, m: Mapping)
    requires Inv(v, {}) && Exclusive(v) && Inv(w, {}) && Exclusive(w) && Unbacked(v.pages, m.file, m.length)
    requires Added(v.pages, w.pages, id, m, PageCount(m.length)) && m.file in v.files && m.length == |v.files[m.file].bytes| && w.files == v.files
    requires MapImage(w, m) == v.files[m.file].bytes && w.maps == v.maps[id := m]
    requires forall k :: k in v.pages ==> k in w.pages && Visible(w, k) == Visible(v, k)
    ensures FlatOf(w) == MappedIn(FlatOf(v), id, m)
  {
    hide Inv, Exclusive, LogicalByte, Visible, MapImage, Unbacked, Added, Image, Logical, PageOf, KeysOf;
    forall f: nat, p: nat
      ensures LogicalByte(w, f, p) == LogicalByte(v, f, p)
    {
      MappedLogical(v, w, id, m, f, p);
    }
    LogicalEqual(v, w);
    LogicalFile(v, id, m);
    MappedFlatImage(v, w, id, m);
  }

  lemma LogicalFile(v: Vm, id: nat, m: Mapping)
    requires Inv(v, {}) && m.file in v.files && Unbacked(v.pages, m.file, |v.files[m.file].bytes|)
    ensures m.file in Logical(v) && Logical(v)[m.file] == v.files[m.file].bytes
  {
    hide FramesOk, TableOk, SlotsOk, MapsOk, LogicalBytes, Unbacked;
    UnbackedFile(v, m.file);
  }

  lemma MappedFlatImage(v: Vm, w: Vm, id: nat, m: Mapping)
    requires Added(v.pages, w.pages, id, m, PageCount(m.length)) && m.file in v.files && m.length == |v.files[m.file].bytes|
    requires MapImage(w, m) == v.files[m.file].bytes && forall k :: k in v.pages ==> k in w.pages && Visible(w, k) == Visible(v, k)
    ensures Image(w) == Image(v) + map k | k in KeysOf(m) :: PageOf(v.files[m.file].bytes, Offset(k, m))
  {
    hide Visible, MapImage, Added, PageOf, KeysOf;
    MappedKeys(v, w, id, m);
    forall k | k in w.pages && k !in v.pages
      ensures Visible(w, k) == PageOf(v.files[m.file].bytes, Offset(k, m))
    {
      MappedPage(v, w, id, m, k);
    }
  }

  lemma MappedKeys(v: Vm, w: Vm, id: nat, m: Mapping)
    requires Added(v.pages, w.pages, id, m, PageCount(m.length))
    ensures w.pages.Keys == v.pages.Keys + KeysOf(m) && v.pages.Keys !! KeysOf(m)
  {
    hide MapEntry, KeysOf;
  }

  // ----- a mapping is removed -----------------------------------------------------------------------------------------

  /** W is V with mapping ID removed and written back. */
  ghost predicate Removed(v: Vm, w: Vm, id: nat, m: Mapping) {
    && Inv(v, {}) && Exclusive(v) && Inv(w, {}) && Exclusive(w) && id in v.maps && m == v.maps[id] && m.file in v.files
    && w.maps == v.maps - {id} && m.length <= |v.files[m.file].bytes|
    && w.pages == v.pages - (set k | k in v.pages && v.pages[k].mapping == Some(id))
    && (forall k :: k in w.pages ==> Visible(w, k) == Visible(v, k))
    && w.files == v.files[m.file := v.files[m.file].(bytes := MapImage(v, m) + v.files[m.file].bytes[m.length..])]
  }

  lemma RemovedCovered(v: Vm, w: Vm, id: nat, m: Mapping, k: Key, f: nat, p: nat)
    requires Removed(v, w, id, m) && k in v.pages && k !in w.pages && Covers(v.pages[k], f, p)
    ensures f == m.file && p < m.length && ByteOf(v, k, p - v.pages[k].ofs) == MapImage(v, m)[p]
  {
    hide Entries, FramesOk, TableOk, SlotsOk, Exclusive, Visible;
    assert v.pages[k].mapping == Some(id);
    MapAtIs(v, k);
    var i := k.page - m.base;
    assert k == Key(m.proc, m.base + i);
    assert p / 4096 == i && p % 4096 == p - 4096 * i;
  }

  lemma RemovedUncovered(v: Vm, w: Vm, id: nat, m: Mapping, f: nat, p: nat)
    requires Removed(v, w, id, m) && !Covered(v.pages, f, p)
    ensures FileByte(w.files, f, p) == FileByte(v.files, f, p)
  {
    hide Entries, FramesOk, TableOk, SlotsOk, Exclusive, Visible, MapImage;
    if f == m.file && p < m.length {
      MappingCovers(v, id, p);
    }
  }

  lemma MappingCovers(v: Vm, id: nat, p: nat)
    requires MapsOk(v) && id in v.maps && p < v.maps[id].length
    ensures Covered(v.pages, v.maps[id].file, p)
  {
    var m := v.maps[id];
    assert MapsAt(v.pages, id, m, p / 4096);
    assert Covers(v.pages[Key(m.proc, m.base + p / 4096)], m.file, p);
  }

  lemma RemovedLogical(v: Vm, w: Vm, id: nat, m: Mapping, f: nat, p: nat)
    requires Removed(v, w, id, m)
    ensures LogicalByte(w, f, p) == LogicalByte(v, f, p)
  {
    hide FramesOk, TableOk, SlotsOk, MapsOk, Exclusive, Entries, LogicalByte, Visible, MapImage, FileByte, Covers;
    if Covered(w.pages, f, p) {
      var k :| k in w.pages && Covers(w.pages[k], f, p);
      LogicalAt(w, k, f, p);
      LogicalAt(v, k, f, p);
    } else {
      Outside(w, f, p);
      if Covered(v.pages, f, p) {
        var k :| k in v.pages && Covers(v.pages[k], f, p);
        LogicalAt(v, k, f, p);
        RemovedCovered(v, w, id, m, k, f, p);
        RemovedByte(v, w, id, m, p);
      } else {
        Outside(v, f, p);
        RemovedUncovered(v, w, id, m, f, p);
      }
    }
  }

  lemma RemovedByte(v: Vm, w: Vm, id: nat, m: Mapping, p: nat)
    requires Removed(v, w, id, m) && p < m.length
    ensures FileByte(w.files, m.file, p) == MapImage(v, m)[p]
  {
    hide Inv, Exclusive, Visible, MapImage;
  }

  lemma RemovedKeys(v: Vm, w: Vm, id: nat, m: Mapping)
    requires Removed(v, w, id, m)
    ensures w.pages.Keys == v.pages.Keys - KeysOf(m)
  {
    hide Entries, FramesOk, TableOk, SlotsOk, Exclusive, Visible, MapImage, KeysOf, MapsOk;
    forall k | k in v.pages
      ensures v.pages[k].mapping == Some(id) <==> Among(m, PageCount(m.length), k)
    {
      MapAtIs(v, k);
      PageMapped(v, id, k);
    }
  }

  lemma PageMapped(v: Vm, id: nat, k: Key)
    requires MapsOk(v)
    ensures id in v.maps && k in v.pages && Among(v.maps[id], PageCount(v.maps[id].length), k) ==> v.pages[k].mapping == Some(id)
  {
    if id in v.maps && k in v.pages && Among(v.maps[id], PageCount(v.maps[id].length), k) {
      assert MapsAt(v.pages, id, v.maps[id], k.page - v.maps[id].base);
    }
  }

  /** Removing a mapping takes its pages out of memory, and leaves every file as programs saw it. */
  lemma FlatRemoved(v: Vm, w: Vm, id: nat, m: Mapping)
    requires Removed(v, w, id, m)
    ensures FlatOf(w) == FlatOf(v).(maps := v.maps - {id}, image := Image(v) - KeysOf(m))
  {
    hide Inv, Exclusive, LogicalByte, Visible, MapImage, KeysOf;
    forall f: nat, p: nat
      ensures LogicalByte(w, f, p) == LogicalByte(v, f, p)
    {
      RemovedLogical(v, w, id, m, f, p);
    }
    LogicalEqual(v, w);
    RemovedKeys(v, w, id, m);
    assert Image(w) == Image(v) - KeysOf(m);
  }

  // ----- runs ----------------------------------------------------------------------------------------------------------

  /** What a program, or the kernel on its behalf, does. */
  datatype Act = Use(op: Op)
               | Grow(proc: nat, addr: nat, esp: nat)
               | Map(proc: nat, file: nat, addr: nat, id: nat)
               | Unmap(id: nat)

  /** What it does to memory and files if it succeeds; PAGE is what a new stack page has in it. */
  ghost function Does(flat: Flat, act: Act, page: seq<byte>): Flat {
    match act
    case Use(op) => if op.Store? then Poked(flat, op.k, op.i, op.b) else flat
    case Grow(proc, addr, esp) => flat.(image := flat.image[Key(proc, addr / 4096) := page])
    case Map(proc, file, addr, id) =>
      MappedIn(flat, id, Mapping(file, proc, addr / 4096, if file in flat.files then |flat.files[file]| else 0))
    case Unmap(id) =>
      if id in flat.maps then flat.(maps := flat.maps - {id}, image := flat.image - KeysOf(flat.maps[id])) else flat
  }

  ghost function Says(flat: Flat, act: Act): seq<byte> {
    if act.Use? then Output(flat.image, act.op) else []
  }

  ghost function FlatAfter(flat: Flat, acts: seq<Act>, oks: seq<bool>, pages: seq<Page>): Flat
    requires |oks| == |acts| == |pages|
  {
    if acts == [] then flat
    else
      var n := |acts| - 1;
      var before := FlatAfter(flat, acts[..n], oks[..n], pages[..n]);
      if oks[n] then Does(before, acts[n], pages[n]) else before
  }

  ghost function FlatSays(flat: Flat, acts: seq<Act>, oks: seq<bool>, pages: seq<Page>): seq<byte>
    requires |oks| == |acts| == |pages|
  {
    if acts == [] then []
    else
      var n := |acts| - 1;
      var before := FlatAfter(flat, acts[..n], oks[..n], pages[..n]);
      FlatSays(flat, acts[..n], oks[..n], pages[..n]) + if oks[n] then Says(before, acts[n]) else []
  }

  // ----- what programs find in memory -------------------------------------------------------------------------------

  /** Page K is one of those that mapping FILE, which has LENGTH bytes, at ADDR takes up. */
  predicate Spans(proc: nat, addr: nat, length: nat, k: Key) {
    k.proc == proc && addr / 4096 <= k.page < addr / 4096 + PageCount(length)
  }

  /** Byte I of page K after the run: the last one stored there since the page came to be, or what the page then had:
      the bytes of a new stack page, or those of the file that was mapped. */
  ghost function Holds(flat: Flat, acts: seq<Act>, oks: seq<bool>, pages: seq<Page>, k: Key, i: nat): byte
    requires |oks| == |acts| == |pages|
    decreases |acts|
  {
    if acts == [] then FlatByte(flat.image, k, i)
    else
      var n := |acts| - 1;
      var files := FlatAfter(flat, acts[..n], oks[..n], pages[..n]).files;
      var before := Holds(flat, acts[..n], oks[..n], pages[..n], k, i);
      if !oks[n] then before
      else
        match acts[n]
        case Use(op) => if op.Store? && op.k == k && op.i == i then op.b else before
        case Grow(proc, addr, esp) => if k == Key(proc, addr / 4096) && i < 4096 then pages[n][i] else before
        case Map(proc, file, addr, id) =>
          if file in files && Spans(proc, addr, |files[file]|, k) then FileAt(files[file], 4096 * (k.page - addr / 4096) + i) else before
        case Unmap(id) => before
  }

  function FileAt(bytes: seq<byte>, p: nat): byte {
    if p < |bytes| then bytes[p] else 0
  }

  /** One act changes the bytes of page K in these ways only. */
  lemma DoesBytes(flat: Flat, act: Act, page: Page, k: Key, i: nat)
    requires var after := Does(flat, act, page); k in after.image && i < |after.image[k]|
    ensures var b := Does(flat, act, page).image[k][i];
      match act
      case Use(op) => k in flat.image && i < |flat.image[k]| && b == if op.Store? && op.k == k && op.i == i then op.b else flat.image[k][i]
      case Grow(proc, addr, esp) => if k == Key(proc, addr / 4096) then i < 4096 && b == page[i]
        else k in flat.image && i < |flat.image[k]| && b == flat.image[k][i]
      case Map(proc, file, addr, id) =>
        if file in flat.files && Spans(proc, addr, |flat.files[file]|, k) then b == FileAt(flat.files[file], 4096 * (k.page - addr / 4096) + i)
        else k in flat.image && i < |flat.image[k]| && b == flat.image[k][i]
      case Unmap(id) => k in flat.image && i < |flat.image[k]| && b == flat.image[k][i]
  {
    hide KeysOf, MapAt, PokeFile;
    if act.Map? {
      MappedBytes(flat, act.id, Mapping(act.file, act.proc, act.addr / 4096, if act.file in flat.files then |flat.files[act.file]| else 0), k, i);
    }
  }

  lemma MappedBytes(flat: Flat, id: nat, m: Mapping, k: Key, i: nat)
    requires m.length == (if m.file in flat.files then |flat.files[m.file]| else 0)
    requires var after := MappedIn(flat, id, m); k in after.image && i < |after.image[k]|
    ensures var b := MappedIn(flat, id, m).image[k][i];
      if Among(m, PageCount(m.length), k) then m.file in flat.files && b == FileAt(flat.files[m.file], 4096 * (k.page - m.base) + i)
      else k in flat.image && i < |flat.image[k]| && b == flat.image[k][i]
  {
    hide KeysOf;
    var bytes := if m.file in flat.files then flat.files[m.file] else [];
    if Among(m, PageCount(m.length), k) {
      assert MappedIn(flat, id, m).image[k] == PageOf(bytes, Offset(k, m));
    }
  }

  /** After any run, memory holds what was put there last. */
  lemma {:induction false} MemoryHolds(flat: Flat, acts: seq<Act>, oks: seq<bool>, pages: seq<Page>, k: Key, i: nat)
    requires |oks| == |acts| == |pages|
    requires var after := FlatAfter(flat, acts, oks, pages); k in after.image && i < |after.image[k]|
    ensures FlatAfter(flat, acts, oks, pages).image[k][i] == Holds(flat, acts, oks, pages, k, i)
    decreases |acts|
  {
    hide Does, Spans;
    if acts != [] {
      var n := |acts| - 1;
      var before := FlatAfter(flat, acts[..n], oks[..n], pages[..n]);
      if oks[n] {
        DoesBytes(before, acts[n], pages[n], k, i);
      }
      if k in before.image && i < |before.image[k]| {
        MemoryHolds(flat, acts[..n], oks[..n], pages[..n], k, i);
      }
    }
  }

  /** So every load gives what was put there last. */
  lemma LoadSays(flat: Flat, acts: seq<Act>, oks: seq<bool>, pages: seq<Page>, k: Key, i: nat)
    requires |oks| == |acts| == |pages| && InMemory(FlatAfter(flat, acts, oks, pages).image, Load(k, i))
    ensures Says(FlatAfter(flat, acts, oks, pages), Use(Load(k, i))) == [Holds(flat, acts, oks, pages, k, i)]
  {
    hide FlatAfter, Holds;
    MemoryHolds(flat, acts, oks, pages, k, i);
  }

  /** A mapped file is found at the address it was mapped at, byte for byte. */
  lemma MapShowsFile(v: Vm, proc: nat, file: nat, addr: nat, id: nat, memory: bool, j: nat)
    requires CanDo(v, Map(proc, file, addr, id), memory) && file in v.files && j < |v.files[file].bytes|
    ensures var flat := FlatOf(v); var after := Does(flat, Map(proc, file, addr, id), []); var k := Key(proc, (addr + j) / 4096);
      file in flat.files && j < |flat.files[file]| && FlatByte(after.image, k, (addr + j) % 4096) == flat.files[file][j]
  {
    hide CanDo, Image, Logical, MappedIn, FlatByte;
    MapFacts(v, proc, file, addr, id, memory);
    LogicalLength(v, file);
    var flat := FlatOf(v);
    AtBoundary(addr, j);
    MappedAddress(flat, id, Mapping(file, proc, addr / 4096, |flat.files[file]|), j);
  }

  lemma MapFacts(v: Vm, proc: nat, file: nat, addr: nat, id: nat, memory: bool)
    requires CanDo(v, Map(proc, file, addr, id), memory)
    ensures file in v.files && addr % 4096 == 0
  {
    hide Addable, Unbacked, PageCount;
  }

  lemma AtBoundary(addr: nat, j: nat)
    requires addr % 4096 == 0
    ensures (addr + j) / 4096 == addr / 4096 + j / 4096 && (addr + j) % 4096 == j % 4096
  {
  }

  lemma MappedAddress(flat: Flat, id: nat, m: Mapping, j: nat)
    requires m.file in flat.files && m.length == |flat.files[m.file]| && j < m.length
    ensures var k := Key(m.proc, m.base + j / 4096); FlatByte(MappedIn(flat, id, m).image, k, j % 4096) == flat.files[m.file][j]
  {
    hide KeysOf;
    var k := Key(m.proc, m.base + j / 4096);
    assert j / 4096 < PageCount(m.length);
    assert k in KeysOf(m);
    assert MappedIn(flat, id, m).image[k] == PageOf(flat.files[m.file], j / 4096);
  }

  /** And a store at that address reaches the file, and only that byte of it. */
  lemma StoreReachesFile(flat: Flat, id: nat, k: Key, i: nat, b: byte)
    requires id in flat.maps && InMapping(flat.maps, k, id) && forall other :: other in flat.maps && InMapping(flat.maps, k, other) ==> other == id
    ensures var m := flat.maps[id]; var j := 4096 * (k.page - m.base) + i; m.file in flat.files && j < |flat.files[m.file]| ==>
      var bytes: seq<byte> := flat.files[m.file][j := b];
      Does(flat, Use(Store(k, i, b)), []).files == flat.files[m.file := bytes]
  {
    hide Poke;
    assert MapAt(flat.maps, k) == Some(id);
  }

  /** No mapped file may not be written. */
  ghost predicate Writable(maps: map<nat, Mapping>, files: map<nat, File>) {
    forall id :: id in maps ==> maps[id].file in files && !files[maps[id].file].denied
  }

  lemma WritableKept(maps: map<nat, Mapping>, files: map<nat, File>, files': map<nat, File>)
    requires Writable(maps, files) && SameShape(files, files')
    ensures Writable(maps, files')
  {
  }

  lemma KeptFlat(v: Vm, w: Vm)
    requires Inv(v, {}) && Inv(w, {}) && Unshared(v) && Unshared(w) && w.pages.Keys == v.pages.Keys && SameNatures(v, w) && OnlyCovered(v, w)
    requires SameShape(v.files, w.files) && Image(w) == Image(v) && w.maps == v.maps
    ensures FlatOf(w) == FlatOf(v)
  {
    hide FramesOk, TableOk, SlotsOk, MapsOk, Entries, Coherent, Exclusive, Visible, Logical, SameNatures, OnlyCovered, SameShape;
    LogicalKept(v, w);
  }

  method DoUse(m: Memory, op: Op, now: nat, memory: bool) returns (ok: bool, out: seq<byte>)
    requires m.Steady({}) && Writable(m.maps, m.files) && InMemory(Image(m.V()), op)
    modifies m, m.slots.bits
    ensures m.Steady({}) && Writable(m.maps, m.files)
    ensures ok <==> Reachable(old(m.V()), op.k, memory) && Permitted(old(m.pages), op)
    ensures FlatOf(m.V()) == if ok then Does(old(FlatOf(m.V())), Use(op), []) else old(FlatOf(m.V()))
    ensures ok ==> out == Says(old(FlatOf(m.V())), Use(op))
  {
    hide Inv, Coherent, Exclusive, Visible, Image, Logical, SameNatures, OnlyCovered, SameShape, Writable, Reachable, Permitted, Poke, Poked;
    ghost var v := m.V();
    InMemoryFacts(v, op);
    ok, out := m.Access(op, now, memory);
    ghost var w := m.V();
    WritableKept(v.maps, v.files, w.files);
    if ok && op.Store? {
      FlatStored(v, w, op.k, op.i, op.b);
    } else {
      KeptFlat(v, w);
    }
  }

  lemma NotLoaded(v: Vm, k: Key)
    requires Inv(v, {}) && k !in v.pages
    ensures k !in v.ptes
  {
    hide Entries, TableOk, SlotsOk, MapsOk;
  }

  lemma KeptFlatToo(v: Vm, w: Vm)
    requires Inv(v, {}) && Inv(w, {}) && Unshared(v) && Kept(v, w) && SameShape(v.files, w.files) && w.maps == v.maps
    ensures Unshared(w) && FlatOf(w) == FlatOf(v)
  {
    hide Inv, Unshared, Visible, Image, Logical, SameNatures, OnlyCovered, SameShape;
    ImageEqual(v, w);
    KeptFlat(v, w);
  }

  lemma GrownFlat(v: Vm, w: Vm, k: Key, page: Page)
    requires Inv(v, {}) && Inv(w, {}) && Unshared(v) && KeptBut(v, w, k, page) && SameShape(v.files, w.files) && w.maps == v.maps && k !in v.pages
    ensures Unshared(w) && FlatOf(w) == FlatOf(v).(image := Image(v)[k := page])
  {
    hide FramesOk, TableOk, SlotsOk, MapsOk, Entries, Coherent, Exclusive, Visible, Logical, SameNatures, OnlyCovered, SameShape;
    LogicalKept(v, w);
  }

  method DoGrow(m: Memory, proc: nat, addr: nat, esp: nat, now: nat, memory: bool) returns (ok: bool, ghost page: Page)
    requires m.Steady({}) && Writable(m.maps, m.files) && Key(proc, addr / 4096) !in m.pages
    modifies m, m.slots.bits
    ensures m.Steady({}) && Writable(m.maps, m.files)
    ensures ok <==> memory && addr != 0 && GrowsStack(addr, esp) && (old(m.pool) != {} || CanEvict(old(m.V())))
    ensures FlatOf(m.V()) == if ok then Does(old(FlatOf(m.V())), Grow(proc, addr, esp), page) else old(FlatOf(m.V()))
  {
    hide Inv, Unshared, Image, Logical, Kept, KeptBut, SameShape, Writable, CanEvict, GrowsStack, Chosen, FrameAt, ZeroPage, Visible;
    ghost var v := m.V();
    NotLoaded(v, Key(proc, addr / 4096));
    ghost var i;
    ok, page, i := m.PageFault(proc, addr, esp, true, true, now, memory, memory, memory);
    WritableKept(v.maps, v.files, m.files);
    if ok {
      GrownFlat(v, m.V(), Key(proc, addr / 4096), page);
    } else {
      KeptFlatToo(v, m.V());
    }
  }

  method DoMap(m: Memory, proc: nat, file: nat, addr: nat, id: nat, memory: bool) returns (ok: bool)
    requires m.Steady({}) && Writable(m.maps, m.files) && id !in m.maps && file in m.files && !m.files[file].denied
    requires Unbacked(m.pages, file, |m.files[file].bytes|)
    modifies m`pages, m`maps
    ensures m.Steady({}) && Writable(m.maps, m.files)
    ensures ok <==> MayMap(old(m.pages), proc, |m.files[file].bytes|, addr, memory, _ => memory)
    ensures FlatOf(m.V()) == if ok then Does(old(FlatOf(m.V())), Map(proc, file, addr, id), []) else old(FlatOf(m.V()))
  {
    hide Inv, Coherent, Exclusive, Image, Logical, Visible, MapImage, Added, MayMap, Unbacked, MappedIn;
    ghost var v := m.V();
    LogicalLength(v, file);
    ok := m.MapFile(proc, Some(file), addr, id, memory, _ => memory);
    if ok {
      FlatMapped(v, m.V(), id, Mapping(file, proc, addr / 4096, |m.files[file].bytes|));
    }
  }

  lemma LogicalLength(v: Vm, f: nat)
    requires f in v.files
    ensures f in Logical(v) && |Logical(v)[f]| == |v.files[f].bytes|
  {
    hide LogicalByte;
  }

  lemma UnmapRemoves(v: Vm, w: Vm, id: nat, m: Mapping)
    requires Inv(v, {}) && Unshared(v) && Inv(w, {}) && Unshared(w) && id in v.maps && m == v.maps[id] && m.file in v.files
    requires w.maps == v.maps - {id} && w.pages == v.pages - set k | k in v.pages && v.pages[k].mapping == Some(id)
    requires Image(w) == Image(v) - (v.pages.Keys - w.pages.Keys) && |MapImage(v, m)| <= |v.files[m.file].bytes|
    requires w.files == v.files[m.file := v.files[m.file].(bytes := MapImage(v, m) + v.files[m.file].bytes[|MapImage(v, m)|..])]
    ensures Removed(v, w, id, m)
  {
    hide Inv, Coherent, Exclusive, Visible, MapImage;
    forall k | k in w.pages
      ensures Visible(w, k) == Visible(v, k)
    {
      assert k in Image(w) && Image(w)[k] == Image(v)[k];
    }
  }

  method DoUnmap(m: Memory, id: nat)
    requires m.Steady({}) && Writable(m.maps, m.files) && id in m.maps
    modifies m
    ensures m.Steady({}) && Writable(m.maps, m.files)
    ensures FlatOf(m.V()) == Does(old(FlatOf(m.V())), Unmap(id), [])
  {
    hide Inv, Unshared, Image, Logical, Visible, MapImage, KeysOf, Removed;
    ghost var v := m.V();
    m.Unmap(id);
    UnmapRemoves(v, m.V(), id, v.maps[id]);
    FlatRemoved(v, m.V(), id, v.maps[id]);
  }

  lemma UseInMemory(v: Vm, op: Op)
    ensures InMemory(Image(v), op) <==> op.k in v.pages && op.i < Extent(v.pages[op.k])
  {
    hide Contents;
  }

  /** When an act succeeds.  A file is mapped only if it may be written and backs no page yet. */
  ghost predicate CanDo(v: Vm, act: Act, memory: bool) {
    match act
    case Use(op) => InMemory(Image(v), op) && Reachable(v, op.k, memory) && Permitted(v.pages, op)
    case Grow(proc, addr, esp) =>
      Key(proc, addr / 4096) !in v.pages && memory && addr != 0 && GrowsStack(addr, esp) && (v.pool != {} || CanEvict(v))
    case Map(proc, file, addr, id) =>
      && id !in v.maps && file in v.files && !v.files[file].denied && Unbacked(v.pages, file, |v.files[file].bytes|)
      && MayMap(v.pages, proc, |v.files[file].bytes|, addr, memory, _ => memory)
    case Unmap(id) => id in v.maps
  }

  /** One act. */
  method Do(m: Memory, act: Act, now: nat, memory: bool) returns (ok: bool, out: seq<byte>, ghost page: Page)
    requires m.Steady({}) && Writable(m.maps, m.files)
    modifies m, m.slots.bits
    ensures m.Steady({}) && Writable(m.maps, m.files)
    ensures ok <==> CanDo(old(m.V()), act, memory)
    ensures FlatOf(m.V()) == if ok then Does(old(FlatOf(m.V())), act, page) else old(FlatOf(m.V()))
    ensures out == if ok then Says(old(FlatOf(m.V())), act) else []
  {
    hide Inv, Unshared, FlatOf, Writable, Reachable, Permitted, CanEvict, GrowsStack, MayMap, Unbacked, InMemory, Image;
    ok, out, page := false, [], ZeroPage();
    UsesNoPage(FlatOf(m.V()), act, page);
    match act {
      case Use(op) =>
        UseInMemory(m.V(), op);
        if op.k in m.pages && op.i < Extent(m.pages[op.k]) {
          var got;
          ok, got := DoUse(m, op, now, memory);
          out := if ok then got else [];
        }
      case Grow(proc, addr, esp) =>
        if Key(proc, addr / 4096) !in m.pages {
          ok, page := DoGrow(m, proc, addr, esp, now, memory);
        }
      case Map(proc, file, addr, id) =>
        if id !in m.maps && file in m.files && !m.files[file].denied && Unbacked(m.pages, file, |m.files[file].bytes|) {
          ok := DoMap(m, proc, file, addr, id, memory);
        }
      case Unmap(id) =>
        if id in m.maps {
          DoUnmap(m, id);
          ok := true;
        }
    }
  }

  lemma UsesNoPage(flat: Flat, act: Act, page: Page)
    ensures !act.Grow? ==> Does(flat, act, page) == Does(flat, act, [])
    ensures !act.Use? ==> Says(flat, act) == []
  {
    hide Poked, MappedIn, KeysOf, Output;
  }

  lemma FlatMore(flat: Flat, acts: seq<Act>, oks: seq<bool>, pages: seq<Page>, ok: bool, page: Page)
    requires |oks| == |pages| < |acts|
    ensures var n := |oks|;
      var before := FlatAfter(flat, acts[..n], oks, pages);
      && FlatAfter(flat, acts[..n + 1], oks + [ok], pages + [page]) == (if ok then Does(before, acts[n], page) else before)
      && FlatSays(flat, acts[..n + 1], oks + [ok], pages + [page]) ==
           FlatSays(flat, acts[..n], oks, pages) + if ok then Says(before, acts[n]) else []
  {
    hide Does, Says;
    var n := |oks|;
    assert acts[..n + 1][..n] == acts[..n] && (oks + [ok])[..n] == oks && (pages + [page])[..n] == pages;
  }

  lemma WholeFile(v: Vm, f: nat)
    requires f in v.files && forall k :: k in v.pages ==> !(v.pages[k].mapping.Some? && v.pages[k].file == f)
    ensures f in Logical(v) && Logical(v)[f] == v.files[f].bytes
  {
    hide LogicalByte;
    UnmappedFile(v, f);
  }

  /** Any run: accesses with all the faults and evictions they cause, stacks growing, files mapped and unmapped,
      by any processes.  What programs read, and what memory and files are at the end, are those of flat memory
      and plain files; a file that is not mapped at the end really has those bytes. */
  method Run(m: Memory, acts: seq<Act>, now: nat, memory: nat -> bool)
    returns (oks: seq<bool>, out: seq<byte>, ghost pages: seq<Page>, ghost states: seq<Vm>)
    requires m.Steady({}) && Writable(m.maps, m.files)
    modifies m, m.slots.bits
    ensures m.Steady({}) && Writable(m.maps, m.files) && |oks| == |acts| == |pages|
    ensures |states| == |acts| + 1 && states[0] == old(m.V()) && states[|acts|] == m.V()
    ensures forall j :: 0 <= j < |acts| ==> (oks[j] <==> CanDo(states[j], acts[j], memory(j)))
    ensures FlatOf(m.V()) == FlatAfter(old(FlatOf(m.V())), acts, oks, pages) && out == FlatSays(old(FlatOf(m.V())), acts, oks, pages)
    ensures forall f :: f in m.files && (forall k :: k in m.pages ==> !(m.pages[k].mapping.Some? && m.pages[k].file == f)) ==>
      f in FlatAfter(old(FlatOf(m.V())), acts, oks, pages).files && FlatAfter(old(FlatOf(m.V())), acts, oks, pages).files[f] == m.files[f].bytes
  {
    hide Inv, Unshared, FlatOf, FlatAfter, FlatSays, Writable, Does, Says, Logical, CanDo;
    ghost var flat := FlatOf(m.V());
    oks, out, pages, states := [], [], [], [m.V()];
    NothingDone(flat);
    var n := 0;
    while n < |acts|
      invariant m.Steady({}) && Writable(m.maps, m.files) && n == |oks| == |pages| <= |acts|
      invariant |states| == n + 1 && states[0] == old(m.V()) && states[n] == m.V()
      invariant forall j :: 0 <= j < n ==> (oks[j] <==> CanDo(states[j], acts[j], memory(j)))
      invariant FlatOf(m.V()) == FlatAfter(flat, acts[..n], oks, pages) && out == FlatSays(flat, acts[..n], oks, pages)
    {
      var ok, got;
      ghost var page;
      ok, got, page := Do(m, acts[n], now + n, memory(n));
      FlatMore(flat, acts, oks, pages, ok, page);
      oks, out, pages, states := oks + [ok], out + got, pages + [page], states + [m.V()];
      n := n + 1;
    }
    assert acts[..|acts|] == acts;
    WholeFiles(m.V());
  }

  lemma NothingDone(flat: Flat)
    ensures FlatAfter(flat, [], [], []) == flat && FlatSays(flat, [], [], []) == []
  {
  }

  lemma WholeFiles(v: Vm)
    ensures forall f :: f in v.files && (forall k :: k in v.pages ==> !(v.pages[k].mapping.Some? && v.pages[k].file == f)) ==>
      f in FlatOf(v).files && FlatOf(v).files[f] == v.files[f].bytes
  {
    hide Image, LogicalByte;
    forall f | f in v.files && (forall k :: k in v.pages ==> !(v.pages[k].mapping.Some? && v.pages[k].file == f))
      ensures f in FlatOf(v).files && FlatOf(v).files[f] == v.files[f].bytes
    {
      WholeFile(v, f);
    }
  }
}
