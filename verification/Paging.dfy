/** Pages between frames, swap slots and files (src/vm, page_fault in src/userprog/exception.c):
    the state, what every step keeps, and what a page contains wherever it is. */
module Paging {
  import opened MachineIntegers
  import opened Options
  import opened Sectors
  import opened Sequences
  import Volumes

  /** A user page of a process. */
  datatype Key = Key(proc: nat, page: nat)

  datatype Source = Zero | Swap | FileBacked

  /** `struct sup_page_table_entry`; SLOT is None for BITMAP_ERROR. */
  datatype Spte = Spte(accessTime: nat, loaded: bool, source: Source, slot: Option<nat>, file: nat, ofs: nat,
                       readBytes: nat, zeroBytes: nat, writable: bool, mapping: Option<nat>)

  /** A present page table entry. */
  datatype Pte = Pte(frame: nat, writable: bool, accessed: bool, dirty: bool)

  /** `struct frame_table_entry`: the frame, its owner and the owner's page in it. */
  datatype Fte = Fte(frame: nat, key: Key)

  /** A file's bytes, and whether writing to it is denied. */
  datatype File = File(bytes: seq<byte>, denied: bool)

  /** `struct memory_mapping`: the first LENGTH bytes of FILE from page BASE of PROC on. */
  datatype Mapping = Mapping(file: nat, proc: nat, base: nat, length: nat)

  type Page = s: seq<byte> | |s| == 4096 witness seq(4096, _ => 0)

  /** POOL holds the free frames; AT and SLOTOF record, for the proof only, the page in each used frame
      and slot. */
  datatype Vm = Vm(pages: map<Key, Spte>, ptes: map<Key, Pte>, table: seq<Fte>, frames: seq<Page>, pool: set<nat>,
                   used: seq<bool>, dev: seq<Sector>, files: map<nat, File>, maps: map<nat, Mapping>,
                   at: map<nat, Key>, slotOf: map<nat, Key>)

  function ZeroPage(): (p: Page) {
    seq(4096, _ => 0)
  }

  function FrameAt(frames: seq<Page>, f: nat): Page {
    if f < |frames| then frames[f] else ZeroPage()
  }

  function SectorOf(dev: seq<Sector>, i: nat): Sector {
    if i < |dev| then dev[i] else Zeros()
  }

  /** The eight sectors of slot I. */
  function SlotPage(dev: seq<Sector>, i: nat): (p: Page) {
    seq(4096, p requires 0 <= p < 4096 => SectorOf(dev, 8 * i + p / 512)[p % 512])
  }

  function FileByte(files: map<nat, File>, f: nat, p: nat): byte {
    if f in files && p < |files[f].bytes| then files[f].bytes[p] else 0
  }

  function FilePageByte(files: map<nat, File>, e: Spte, p: nat): byte {
    if p < e.readBytes then FileByte(files, e.file, e.ofs + p) else 0
  }

  /** What is read in for a page backed by a file: READBYTES of the file, then zeros. */
  function FilePage(files: map<nat, File>, e: Spte): (p: Page) {
    seq(4096, p requires 0 <= p < 4096 => FilePageByte(files, e, p))
  }

  /** The contents of a page, wherever they are. */
  function Contents(v: Vm, k: Key): Page
    requires k in v.pages
  {
    if k in v.ptes then FrameAt(v.frames, v.ptes[k].frame)
    else if v.pages[k].slot.Some? then SlotPage(v.dev, v.pages[k].slot.value)
    else FilePage(v.files, v.pages[k])
  }

  /** How much of a page is kept: of a page of a mapping only what lies in the file. */
  function Extent(e: Spte): (n: nat)
    ensures n <= 4096
  {
    if e.mapping.Some? && e.readBytes < 4096 then e.readBytes else 4096
  }

  function Visible(v: Vm, k: Key): seq<byte>
    requires k in v.pages
  {
    Contents(v, k)[..Extent(v.pages[k])]
  }

  /** The abstract value: flat memory. */
  ghost function Image(v: Vm): map<Key, seq<byte>> {
    map k | k in v.pages :: Visible(v, k)
  }

  // ----- what every step keeps --------------------------------------------------------------------------

  ghost predicate EntryOk(files: map<nat, File>, e: Spte) {
    && (e.slot.Some? <==> !e.loaded && e.source == Swap)
    && (e.source == Zero ==> e.loaded)
    && (e.mapping.Some? ==> e.source == FileBacked && e.writable)
    && (e.source == FileBacked ==>
          e.file in files && e.ofs + e.readBytes <= |files[e.file].bytes| && e.readBytes + e.zeroBytes == 4096)
  }

  ghost predicate Entries(v: Vm) {
    forall k :: k in v.pages ==> EntryOk(v.files, v.pages[k]) && (v.pages[k].loaded <==> k in v.ptes)
  }

  /** Loaded pages have a frame each; LOOSE are the frames in hand, neither free nor in use. */
  ghost predicate FramesOk(v: Vm, loose: set<nat>) {
    && (forall k :: k in v.ptes ==> k in v.pages && v.ptes[k].frame in v.at && v.at[v.ptes[k].frame] == k)
    && (forall k :: k in v.ptes ==> v.ptes[k].writable == v.pages[k].writable && (v.ptes[k].dirty ==> v.ptes[k].writable))
    && (forall f :: f in v.at ==> v.at[f] in v.ptes && v.ptes[v.at[f]].frame == f)
    && (forall f: nat :: f < |v.frames| <==> f in v.pool || f in v.at || f in loose)
    && v.pool !! v.at.Keys && v.pool !! loose && v.at.Keys !! loose
  }

  /** The frame table lists exactly the loaded pages. */
  ghost predicate TableOk(v: Vm) {
    && (forall e :: e in v.table ==> e.key in v.ptes && v.ptes[e.key].frame == e.frame)
    && (forall k :: k in v.ptes ==> Fte(v.ptes[k].frame, k) in v.table)
    && Distinct(v.table)
  }

  /** Swapped-out pages have a slot each, and exactly those slots are marked. */
  ghost predicate SlotsOk(v: Vm) {
    && 8 * |v.used| <= |v.dev|
    && (forall k :: k in v.pages && v.pages[k].slot.Some? ==> v.pages[k].slot.value in v.slotOf && v.slotOf[v.pages[k].slot.value] == k)
    && (forall i :: i in v.slotOf ==> v.slotOf[i] in v.pages && v.pages[v.slotOf[i]].slot == Some(i))
    && (forall i: nat :: i in v.slotOf <==> i < |v.used| && v.used[i])
  }

  function PageCount(length: nat): nat {
    (length + 4095) / 4096
  }

  /** The entry of page I of mapping ID, apart from where it is. */
  ghost predicate MapsPage(e: Spte, id: nat, m: Mapping, i: nat) {
    && e.mapping == Some(id) && e.file == m.file && e.ofs == 4096 * i
    && e.readBytes == if m.length - 4096 * i < 4096 then m.length - 4096 * i else 4096
  }

  ghost predicate MapsAt(pages: map<Key, Spte>, id: nat, m: Mapping, i: nat) {
    Key(m.proc, m.base + i) in pages && MapsPage(pages[Key(m.proc, m.base + i)], id, m, i)
  }

  /** Mappings own exactly the pages in their range. */
  ghost predicate MapsOk(v: Vm) {
    && (forall id, i: nat :: id in v.maps && i < PageCount(v.maps[id].length) ==> MapsAt(v.pages, id, v.maps[id], i))
    && (forall k :: k in v.pages && v.pages[k].mapping.Some? ==> InMapping(v.maps, k, v.pages[k].mapping.value))
  }

  ghost predicate InMapping(maps: map<nat, Mapping>, k: Key, id: nat) {
    && id in maps && k.proc == maps[id].proc && maps[id].base <= k.page < maps[id].base + PageCount(maps[id].length)
  }

  ghost predicate Inv(v: Vm, loose: set<nat>) {
    Entries(v) && FramesOk(v, loose) && TableOk(v) && SlotsOk(v) && MapsOk(v)
  }

  /** Eviction drops such a page rather than write it to swap. */
  predicate Droppable(e: Spte) {
    e.source == FileBacked && (e.mapping.Some? || !e.writable)
  }

  /** A droppable page that is not dirty has in its frame what the file has. */
  ghost predicate Coherent(v: Vm) {
    forall k :: k in v.ptes && k in v.pages && Droppable(v.pages[k]) && !v.ptes[k].dirty ==>
      FrameAt(v.frames, v.ptes[k].frame) == FilePage(v.files, v.pages[k])
  }

  predicate Overlap(a: Spte, b: Spte) {
    a.file == b.file && a.readBytes > 0 && b.readBytes > 0 && a.ofs < b.ofs + b.readBytes && b.ofs < a.ofs + a.readBytes
  }

  /** No part of a file is mapped and also backs another page. */
  ghost predicate Exclusive(v: Vm) {
    forall k, q :: k in v.pages && q in v.pages && k != q && v.pages[k].mapping.Some? && v.pages[q].source == FileBacked ==>
      !Overlap(v.pages[k], v.pages[q])
  }

  // ----- the clock hand: only access times and accessed bits change ----------------------------------------

  /** What frame_table_pop_lru does to the entries it looks at. */
  function AgedEntry(e: Spte, pte: Pte, now: nat): Spte {
    if pte.accessed then e.(accessTime := now) else e
  }

  /** W is V with the accessed bits of the pages in DONE cleared and their times set to NOW. */
  ghost predicate Aged(v: Vm, w: Vm, done: set<Key>, now: nat) {
    && w == v.(pages := w.pages, ptes := w.ptes)
    && w.pages.Keys == v.pages.Keys && w.ptes.Keys == v.ptes.Keys
    && (forall k :: k in v.pages ==> w.pages[k] == if k in done && k in v.ptes then AgedEntry(v.pages[k], v.ptes[k], now) else v.pages[k])
    && (forall k :: k in v.ptes ==> w.ptes[k] == if k in done then v.ptes[k].(accessed := false) else v.ptes[k])
  }

  /** W differs from V at most in times and accessed bits. */
  ghost predicate Similar(v: Vm, w: Vm) {
    && w == v.(pages := w.pages, ptes := w.ptes)
    && w.pages.Keys == v.pages.Keys && w.ptes.Keys == v.ptes.Keys
    && (forall k :: k in v.pages ==> w.pages[k] == v.pages[k].(accessTime := w.pages[k].accessTime))
    && (forall k :: k in v.ptes ==> w.ptes[k] == v.ptes[k].(accessed := w.ptes[k].accessed))
  }

  lemma AgedSimilar(v: Vm, w: Vm, done: set<Key>, now: nat)
    requires Aged(v, w, done, now)
    ensures Similar(v, w)
  {
  }

  ghost predicate SameBacking(e: Spte, e': Spte) {
    e'.mapping == e.mapping && e'.file == e.file && e'.ofs == e.ofs && e'.readBytes == e.readBytes
  }

  lemma MapsFrame(v: Vm, w: Vm)
    requires MapsOk(v) && w.maps == v.maps && w.pages.Keys == v.pages.Keys
    requires forall k :: k in v.pages ==> SameBacking(v.pages[k], w.pages[k])
    ensures MapsOk(w)
  {
    forall id, i: nat | id in w.maps && i < PageCount(w.maps[id].length)
      ensures MapsAt(w.pages, id, w.maps[id], i)
    {
      assert MapsAt(v.pages, id, v.maps[id], i);
      assert SameBacking(v.pages[Key(v.maps[id].proc, v.maps[id].base + i)], w.pages[Key(v.maps[id].proc, v.maps[id].base + i)]);
    }
  }

  lemma SimilarEntries(v: Vm, w: Vm)
    requires Entries(v) && Similar(v, w)
    ensures Entries(w)
  {
  }

  lemma SimilarFrames(v: Vm, w: Vm, loose: set<nat>)
    requires FramesOk(v, loose) && Similar(v, w)
    ensures FramesOk(w, loose)
  {
  }

  lemma SimilarTable(v: Vm, w: Vm)
    requires TableOk(v) && Similar(v, w)
    ensures TableOk(w)
  {
  }

  lemma SimilarSlots(v: Vm, w: Vm)
    requires SlotsOk(v) && Similar(v, w)
    ensures SlotsOk(w)
  {
  }

  lemma SimilarMaps(v: Vm, w: Vm)
    requires MapsOk(v) && Similar(v, w)
    ensures MapsOk(w)
  {
    hide MapsOk;
    MapsFrame(v, w);
  }

  lemma SimilarInv(v: Vm, w: Vm, loose: set<nat>)
    requires Inv(v, loose) && Similar(v, w)
    ensures Inv(w, loose)
  {
    hide Entries, FramesOk, TableOk, SlotsOk, MapsOk, Similar;
    SimilarEntries(v, w);
    SimilarFrames(v, w, loose);
    SimilarTable(v, w);
    SimilarSlots(v, w);
    SimilarMaps(v, w);
  }

  lemma SimilarContents(v: Vm, w: Vm, k: Key)
    requires Similar(v, w) && k in v.pages
    ensures Contents(w, k) == Contents(v, k) && Visible(w, k) == Visible(v, k)
  {
    FilePageEqual(v.files, v.files, v.pages[k], w.pages[k]);
  }

  lemma FilePageEqual(files: map<nat, File>, files': map<nat, File>, e: Spte, e': Spte)
    requires e'.readBytes == e.readBytes && e'.ofs == e.ofs && e'.file == e.file
    requires forall p :: e.ofs <= p < e.ofs + e.readBytes ==> FileByte(files', e.file, p) == FileByte(files, e.file, p)
    ensures FilePage(files', e') == FilePage(files, e)
  {
    forall p | 0 <= p < 4096
      ensures FilePage(files', e')[p] == FilePage(files, e)[p]
    {
    }
  }

  lemma SimilarCoherent(v: Vm, w: Vm)
    requires Similar(v, w) && Coherent(v)
    ensures Coherent(w)
  {
    forall k | k in w.ptes && k in w.pages && Droppable(w.pages[k]) && !w.ptes[k].dirty
      ensures FrameAt(w.frames, w.ptes[k].frame) == FilePage(w.files, w.pages[k])
    {
      FilePageEqual(v.files, w.files, v.pages[k], w.pages[k]);
    }
  }

  lemma SimilarExclusive(v: Vm, w: Vm)
    requires Similar(v, w) && Exclusive(v)
    ensures Exclusive(w)
  {
    forall k, q | k in w.pages && q in w.pages && k != q && w.pages[k].mapping.Some? && w.pages[q].source == FileBacked
      ensures !Overlap(w.pages[k], w.pages[q])
    {
      assert !Overlap(v.pages[k], v.pages[q]);
    }
  }

  /** Two states have the same memory. */
  ghost predicate SameImage(v: Vm, w: Vm) {
    w.pages.Keys == v.pages.Keys && forall k :: k in v.pages ==> Visible(w, k) == Visible(v, k)
  }

  lemma ImageEqual(v: Vm, w: Vm)
    requires SameImage(v, w)
    ensures Image(w) == Image(v)
  {
    hide Visible;
  }

  // ----- a page goes out ----------------------------------------------------------------------------------

  /** The frame table without entry I. */
  function Removed(s: seq<Fte>, i: nat): seq<Fte>
    requires i < |s|
  {
    s[..i] + s[i + 1..]
  }

  lemma RemovedMembers(s: seq<Fte>, i: nat)
    requires Distinct(s) && i < |s|
    ensures Distinct(Removed(s, i)) && forall e :: e in Removed(s, i) <==> e in s && e != s[i]
  {
    forall e | e in s && e != s[i]
      ensures e in Removed(s, i)
    {
      var j :| 0 <= j < |s| && s[j] == e;
      assert Removed(s, i)[if j < i then j else j - 1] == e;
    }
  }

  /** The page of entry I of the frame table leaves its frame; E is its new entry. */
  ghost predicate Out(v: Vm, w: Vm, i: nat, e: Spte) {
    && i < |v.table|
    && var k := v.table[i].key;
    && k in v.pages && k in v.ptes && v.ptes[k].frame == v.table[i].frame
    && w == v.(pages := v.pages[k := e], ptes := v.ptes - {k}, table := Removed(v.table, i), at := v.at - {v.table[i].frame},
               files := w.files, used := w.used, dev := w.dev, slotOf := w.slotOf)
    && !e.loaded && SameBacking(v.pages[k], e) && e.writable == v.pages[k].writable && e.zeroBytes == v.pages[k].zeroBytes
  }

  lemma OutFrames(v: Vm, w: Vm, i: nat, e: Spte)
    requires FramesOk(v, {}) && Out(v, w, i, e)
    ensures FramesOk(w, {v.table[i].frame})
  {
  }

  lemma OutTable(v: Vm, w: Vm, i: nat, e: Spte)
    requires TableOk(v) && FramesOk(v, {}) && Out(v, w, i, e)
    ensures TableOk(w)
  {
    RemovedMembers(v.table, i);
  }

  lemma OutMaps(v: Vm, w: Vm, i: nat, e: Spte)
    requires MapsOk(v) && Out(v, w, i, e)
    ensures MapsOk(w)
  {
    hide MapsOk;
    MapsFrame(v, w);
  }

  /** The page goes to slot S, which was free. */
  ghost predicate ToSwap(v: Vm, w: Vm, i: nat, s: nat) {
    && i < |v.table| && v.table[i].key in v.pages && s < |v.used| && !v.used[s]
    && Out(v, w, i, v.pages[v.table[i].key].(loaded := false, source := Swap, slot := Some(s)))
    && w.files == v.files && w.used == v.used[s := true] && w.slotOf == v.slotOf[s := v.table[i].key]
    && |w.dev| == |v.dev| && SlotPage(w.dev, s) == FrameAt(v.frames, v.table[i].frame)
    && (forall j: nat :: j != s ==> SlotPage(w.dev, j) == SlotPage(v.dev, j))
    && !Droppable(v.pages[v.table[i].key])
  }

  lemma ToSwapEntries(v: Vm, w: Vm, i: nat, s: nat)
    requires Entries(v) && ToSwap(v, w, i, s)
    ensures Entries(w)
  {
  }

  lemma ToSwapSlots(v: Vm, w: Vm, i: nat, s: nat)
    requires SlotsOk(v) && Entries(v) && ToSwap(v, w, i, s)
    ensures SlotsOk(w)
  {
  }

  lemma ToSwapInv(v: Vm, w: Vm, i: nat, s: nat)
    requires Inv(v, {}) && ToSwap(v, w, i, s)
    ensures Inv(w, {v.table[i].frame})
  {
    hide Entries, FramesOk, TableOk, SlotsOk, MapsOk, Out;
    var e := v.pages[v.table[i].key].(loaded := false, source := Swap, slot := Some(s));
    ToSwapEntries(v, w, i, s);
    OutFrames(v, w, i, e);
    OutTable(v, w, i, e);
    ToSwapSlots(v, w, i, s);
    OutMaps(v, w, i, e);
  }

  lemma ToSwapContents(v: Vm, w: Vm, i: nat, s: nat)
    requires Entries(v) && SlotsOk(v) && ToSwap(v, w, i, s)
    ensures SameImage(v, w)
  {
    hide SlotPage, FilePage, FrameAt;
    var k := v.table[i].key;
    forall q | q in v.pages
      ensures Visible(w, q) == Visible(v, q)
    {
      if q != k && q !in v.ptes && v.pages[q].slot.Some? {
        assert v.pages[q].slot.value != s;
      }
    }
  }

  lemma ToSwapCoherent(v: Vm, w: Vm, i: nat, s: nat)
    requires Coherent(v) && ToSwap(v, w, i, s)
    ensures Coherent(w)
  {
    hide FilePage, FrameAt, SlotPage;
  }

  lemma ToSwapExclusive(v: Vm, w: Vm, i: nat, s: nat)
    requires Exclusive(v) && Entries(v) && ToSwap(v, w, i, s)
    ensures Exclusive(w)
  {
    forall k, q | k in w.pages && q in w.pages && k != q && w.pages[k].mapping.Some? && w.pages[q].source == FileBacked
      ensures !Overlap(w.pages[k], w.pages[q])
    {
      assert !Overlap(v.pages[k], v.pages[q]);
    }
  }

  /** file_write_at within the file. */
  function WriteFile(files: map<nat, File>, f: nat, ofs: nat, data: seq<byte>): map<nat, File>
    requires f in files && ofs + |data| <= |files[f].bytes|
  {
    files[f := files[f].(bytes := Volumes.Overlay(files[f].bytes, ofs, data))]
  }

  lemma WrittenByte(files: map<nat, File>, f: nat, ofs: nat, data: seq<byte>, g: nat, p: nat)
    requires f in files && ofs + |data| <= |files[f].bytes|
    ensures FileByte(WriteFile(files, f, ofs, data), g, p) ==
      if g == f && ofs <= p < ofs + |data| then data[p - ofs] else FileByte(files, g, p)
  {
  }

  /** What a page writes back into its file. */
  function Flushed(files: map<nat, File>, e: Spte, bytes: Page): map<nat, File>
    requires e.file in files && e.readBytes <= 4096 && e.ofs + e.readBytes <= |files[e.file].bytes|
  {
    WriteFile(files, e.file, e.ofs, bytes[..e.readBytes])
  }

  /** A write-back changes no page backed by another part of a file. */
  lemma FlushedElsewhere(files: map<nat, File>, e: Spte, bytes: Page, q: Spte)
    requires e.file in files && e.readBytes <= 4096 && e.ofs + e.readBytes <= |files[e.file].bytes| && !Overlap(e, q)
    ensures FilePage(Flushed(files, e, bytes), q) == FilePage(files, q)
  {
    forall p | q.ofs <= p < q.ofs + q.readBytes
      ensures FileByte(Flushed(files, e, bytes), q.file, p) == FileByte(files, q.file, p)
    {
      WrittenByte(files, e.file, e.ofs, bytes[..e.readBytes], q.file, p);
    }
    FilePageEqual(files, Flushed(files, e, bytes), q, q);
  }

  /** After a write-back the file has what was in the frame, up to READBYTES. */
  lemma FlushedHere(files: map<nat, File>, e: Spte, bytes: Page)
    requires e.file in files && e.readBytes <= 4096 && e.ofs + e.readBytes <= |files[e.file].bytes|
    ensures FilePage(Flushed(files, e, bytes), e)[..e.readBytes] == bytes[..e.readBytes]
  {
    forall p | 0 <= p < e.readBytes
      ensures FilePage(Flushed(files, e, bytes), e)[p] == bytes[p]
    {
      WrittenByte(files, e.file, e.ofs, bytes[..e.readBytes], e.file, e.ofs + p);
    }
  }

  lemma FlushedSize(files: map<nat, File>, e: Spte, bytes: Page)
    requires e.file in files && e.readBytes <= 4096 && e.ofs + e.readBytes <= |files[e.file].bytes|
    ensures var w := Flushed(files, e, bytes);
      w.Keys == files.Keys && forall f :: f in files ==>
        |w[f].bytes| == |files[f].bytes| && w[f].denied == files[f].denied && (f != e.file ==> w[f] == files[f])
  {
  }

  /** The page is dropped; a dirty page of a mapping is first written back. */
  ghost predicate ToFile(v: Vm, w: Vm, i: nat) {
    && i < |v.table| && v.table[i].key in v.pages && v.table[i].key in v.ptes
    && var k := v.table[i].key;
    && var e := v.pages[k];
    && Droppable(e) && EntryOk(v.files, e)
    && Out(v, w, i, e.(loaded := false, slot := None))
    && w.used == v.used && w.dev == v.dev && w.slotOf == v.slotOf
    && w.files == (if v.ptes[k].dirty then Flushed(v.files, e, FrameAt(v.frames, v.ptes[k].frame)) else v.files)
    && (v.ptes[k].dirty ==> e.mapping.Some?)
  }

  lemma ToFileEntries(v: Vm, w: Vm, i: nat)
    requires Entries(v) && ToFile(v, w, i)
    ensures Entries(w)
  {
    hide Flushed, FrameAt;
    var k := v.table[i].key;
    FlushedSize(v.files, v.pages[k], FrameAt(v.frames, v.ptes[k].frame));
  }

  lemma ToFileSlots(v: Vm, w: Vm, i: nat)
    requires SlotsOk(v) && Entries(v) && ToFile(v, w, i)
    ensures SlotsOk(w)
  {
    hide Flushed, FrameAt;
  }

  lemma ToFileInv(v: Vm, w: Vm, i: nat)
    requires Inv(v, {}) && ToFile(v, w, i)
    ensures Inv(w, {v.table[i].frame})
  {
    hide Entries, FramesOk, TableOk, SlotsOk, MapsOk, Out, EntryOk, Flushed;
    var e := v.pages[v.table[i].key].(loaded := false, slot := None);
    ToFileEntries(v, w, i);
    OutFrames(v, w, i, e);
    OutTable(v, w, i, e);
    ToFileSlots(v, w, i);
    OutMaps(v, w, i, e);
  }

  lemma ToFileElsewhere(v: Vm, w: Vm, i: nat, q: Key)
    requires Exclusive(v) && ToFile(v, w, i) && q in v.pages && q != v.table[i].key && v.pages[q].source == FileBacked
    ensures FilePage(w.files, v.pages[q]) == FilePage(v.files, v.pages[q])
  {
    hide FilePage, Flushed, FrameAt;
    var k := v.table[i].key;
    if v.ptes[k].dirty {
      FlushedElsewhere(v.files, v.pages[k], FrameAt(v.frames, v.ptes[k].frame), v.pages[q]);
    }
  }

  /** Byte P of the file backs both pages. */
  predicate Common(a: Spte, b: Spte, p: nat) {
    a.file == b.file && a.ofs <= p < a.ofs + a.readBytes && b.ofs <= p < b.ofs + b.readBytes
  }

  /** Page Q, which is still to be read in from its file, shares no byte with page K that the frame of K
      has otherwise. */
  ghost predicate Undisturbed(v: Vm, k: Key, q: Key)
    requires k in v.pages && k in v.ptes && q in v.pages && v.pages[k].readBytes <= 4096
  {
    forall p: nat :: Common(v.pages[k], v.pages[q], p) ==>
      FrameAt(v.frames, v.ptes[k].frame)[p - v.pages[k].ofs] == FileByte(v.files, v.pages[k].file, p)
  }

  /** Dropping page K loses nothing: if it is clean, its frame has what its file has; if it is dirty, writing
      it back disturbs no page still to be read in. */
  ghost predicate Harmless(v: Vm, k: Key)
    requires k in v.pages && k in v.ptes && v.pages[k].readBytes <= 4096
  {
    var e := v.pages[k];
    if v.ptes[k].dirty then
      forall q :: q in v.pages && q != k && q !in v.ptes && v.pages[q].slot.None? ==> Undisturbed(v, k, q)
    else
      FrameAt(v.frames, v.ptes[k].frame)[..Extent(e)] == FilePage(v.files, e)[..Extent(e)]
  }

  lemma FileByteSeen(v: Vm, q: Key, p: nat)
    requires q in v.pages && q !in v.ptes && v.pages[q].slot.None? && v.pages[q].ofs <= p < v.pages[q].ofs + v.pages[q].readBytes
    requires v.pages[q].readBytes <= 4096
    ensures p - v.pages[q].ofs < |Visible(v, q)| && Visible(v, q)[p - v.pages[q].ofs] == FileByte(v.files, v.pages[q].file, p)
  {
    hide SlotPage, FrameAt;
  }

  /** A page still to be read in stays as it is exactly when it is not disturbed. */
  lemma ToFileOther(v: Vm, w: Vm, i: nat, q: Key)
    requires Entries(v) && ToFile(v, w, i) && v.ptes[v.table[i].key].dirty
    requires q in v.pages && q != v.table[i].key && q !in v.ptes && v.pages[q].slot.None?
    ensures Visible(w, q) == Visible(v, q) <==> Undisturbed(v, v.table[i].key, q)
  {
    hide SlotPage, FrameAt, Visible;
    var k := v.table[i].key;
    var e, g, bytes := v.pages[k], v.pages[q], FrameAt(v.frames, v.ptes[k].frame);
    forall p: nat
      ensures FileByte(w.files, g.file, p) == if g.file == e.file && e.ofs <= p < e.ofs + e.readBytes then bytes[p - e.ofs]
                                              else FileByte(v.files, g.file, p)
    {
      WrittenByte(v.files, e.file, e.ofs, bytes[..e.readBytes], g.file, p);
    }
    if Undisturbed(v, k, q) {
      UndisturbedPage(v, w, i, q);
    } else {
      var p: nat :| Common(e, g, p) && bytes[p - e.ofs] != FileByte(v.files, e.file, p);
      FileByteSeen(v, q, p);
      FileByteSeen(w, q, p);
    }
  }

  lemma UndisturbedPage(v: Vm, w: Vm, i: nat, q: Key)
    requires Entries(v) && ToFile(v, w, i) && q in v.pages && q != v.table[i].key && q !in v.ptes && v.pages[q].slot.None?
    requires forall p: nat :: v.pages[q].ofs <= p < v.pages[q].ofs + v.pages[q].readBytes ==>
      FileByte(w.files, v.pages[q].file, p) == FileByte(v.files, v.pages[q].file, p)
    ensures Visible(w, q) == Visible(v, q)
  {
    hide SlotPage, FrameAt, Flushed, FileByte, FilePage;
    FilePageEqual(v.files, w.files, v.pages[q], v.pages[q]);
  }

  lemma ToFileOwn(v: Vm, w: Vm, i: nat)
    requires Entries(v) && ToFile(v, w, i) && !v.ptes[v.table[i].key].dirty
    ensures Visible(w, v.table[i].key) == Visible(v, v.table[i].key) <==> Harmless(v, v.table[i].key)
  {
    hide SlotPage, FilePage, FrameAt;
    var k := v.table[i].key;
    FilePageSame(w.files, w.pages[k], v.pages[k]);
  }

  lemma ToFileDirty(v: Vm, w: Vm, i: nat)
    requires Entries(v) && ToFile(v, w, i) && v.ptes[v.table[i].key].dirty
    ensures Visible(w, v.table[i].key) == Visible(v, v.table[i].key)
  {
    hide SlotPage, FilePage, FrameAt, Flushed;
    var k := v.table[i].key;
    FilePageSame(w.files, w.pages[k], v.pages[k]);
    FlushedHere(v.files, v.pages[k], FrameAt(v.frames, v.ptes[k].frame));
  }

  lemma ToFileRest(v: Vm, w: Vm, i: nat, q: Key)
    requires Entries(v) && ToFile(v, w, i) && q in v.pages && q != v.table[i].key
    requires q in v.ptes || v.pages[q].slot.Some? || !v.ptes[v.table[i].key].dirty
    ensures q in w.pages && Visible(w, q) == Visible(v, q)
  {
    hide SlotPage, FilePage, FrameAt, Flushed;
  }

  /** Dropping a page changes no page exactly when it is harmless, which can be told beforehand. */
  lemma ToFileExact(v: Vm, w: Vm, i: nat)
    requires Entries(v) && ToFile(v, w, i)
    ensures SameImage(v, w) <==> Harmless(v, v.table[i].key)
  {
    hide Visible, Undisturbed, Flushed, FilePage, FrameAt, Entries;
    var k := v.table[i].key;
    if v.ptes[k].dirty {
      ToFileDirty(v, w, i);
    } else {
      ToFileOwn(v, w, i);
    }
    forall q | q in v.pages && q != k
      ensures Visible(w, q) == Visible(v, q) <==> !v.ptes[k].dirty || q in v.ptes || v.pages[q].slot.Some? || Undisturbed(v, k, q)
    {
      if v.ptes[k].dirty && q !in v.ptes && v.pages[q].slot.None? {
        ToFileOther(v, w, i, q);
      } else {
        ToFileRest(v, w, i, q);
      }
    }
  }

  /** With nothing shared every page may be dropped. */
  lemma UnsharedHarmless(v: Vm, k: Key)
    requires Entries(v) && Coherent(v) && Exclusive(v)
    requires k in v.pages && k in v.ptes && Droppable(v.pages[k]) && (v.ptes[k].dirty ==> v.pages[k].mapping.Some?)
    ensures Harmless(v, k)
  {
    hide FilePage, FrameAt;
    forall q | v.ptes[k].dirty && q in v.pages && q != k && q !in v.ptes && v.pages[q].slot.None?
      ensures Undisturbed(v, k, q)
    {
      assert !Overlap(v.pages[k], v.pages[q]);
    }
  }

  lemma ToFileContents(v: Vm, w: Vm, i: nat)
    requires Entries(v) && Coherent(v) && Exclusive(v) && ToFile(v, w, i)
    ensures SameImage(v, w)
  {
    hide Entries, Coherent, Exclusive, Harmless, SameImage, Flushed, FrameAt, EntryOk;
    UnsharedHarmless(v, v.table[i].key);
    ToFileExact(v, w, i);
  }

  lemma FilePageSame(files: map<nat, File>, e: Spte, e': Spte)
    requires SameBacking(e, e')
    ensures FilePage(files, e') == FilePage(files, e)
  {
    FilePageEqual(files, files, e, e');
  }

  lemma ToFileCoherent(v: Vm, w: Vm, i: nat)
    requires Coherent(v) && Exclusive(v) && ToFile(v, w, i)
    ensures Coherent(w)
  {
    hide FilePage, FrameAt, Flushed, Exclusive;
    forall q | q in w.ptes && q in w.pages && Droppable(w.pages[q]) && !w.ptes[q].dirty
      ensures FrameAt(w.frames, w.ptes[q].frame) == FilePage(w.files, w.pages[q])
    {
      ToFileElsewhere(v, w, i, q);
    }
  }

  lemma ToFileExclusive(v: Vm, w: Vm, i: nat)
    requires Exclusive(v) && ToFile(v, w, i)
    ensures Exclusive(w)
  {
    hide Flushed, FrameAt;
    forall k, q | k in w.pages && q in w.pages && k != q && w.pages[k].mapping.Some? && w.pages[q].source == FileBacked
      ensures !Overlap(w.pages[k], w.pages[q])
    {
      assert !Overlap(v.pages[k], v.pages[q]);
    }
  }

  // ----- a page comes in ----------------------------------------------------------------------------------

  /** Page K, with entry E, comes into frame F, which was in hand, with the given BYTES. */
  ghost predicate In(v: Vm, w: Vm, k: Key, e: Spte, f: nat, bytes: Page) {
    && k !in v.ptes && f < |v.frames| && e.loaded
    && w == v.(pages := v.pages[k := e], ptes := v.ptes[k := Pte(f, e.writable, false, false)], table := v.table + [Fte(f, k)],
               frames := v.frames[f := bytes], at := v.at[f := k], used := w.used, slotOf := w.slotOf)
  }

  lemma InFrames(v: Vm, w: Vm, k: Key, e: Spte, f: nat, bytes: Page)
    requires FramesOk(v, {f}) && In(v, w, k, e, f, bytes)
    ensures FramesOk(w, {})
  {
  }

  lemma InTable(v: Vm, w: Vm, k: Key, e: Spte, f: nat, bytes: Page)
    requires TableOk(v) && In(v, w, k, e, f, bytes)
    ensures TableOk(w)
  {
    assert Fte(f, k) !in v.table;
  }

  /** The frames of other pages are not touched. */
  lemma InOthers(v: Vm, w: Vm, k: Key, e: Spte, f: nat, bytes: Page, q: Key)
    requires FramesOk(v, {f}) && In(v, w, k, e, f, bytes) && q in v.pages && q != k
    ensures Contents(w, q) == Contents(v, q) && Visible(w, q) == Visible(v, q)
  {
    hide FilePage, SlotPage;
    assert q in v.ptes ==> v.ptes[q].frame != f;
  }

  lemma InCoherent(v: Vm, w: Vm, k: Key, e: Spte, f: nat, bytes: Page)
    requires FramesOk(v, {f}) && Coherent(v) && In(v, w, k, e, f, bytes) && (Droppable(e) ==> bytes == FilePage(v.files, e))
    ensures Coherent(w)
  {
    hide FilePage, SlotPage;
    forall q | q in w.ptes && q in w.pages && Droppable(w.pages[q]) && !w.ptes[q].dirty
      ensures FrameAt(w.frames, w.ptes[q].frame) == FilePage(w.files, w.pages[q])
    {
      assert q != k ==> v.ptes[q].frame != f;
    }
  }

  lemma InExclusive(v: Vm, w: Vm, k: Key, e: Spte, f: nat, bytes: Page)
    requires Exclusive(v) && In(v, w, k, e, f, bytes)
    requires (k in v.pages && SameBacking(v.pages[k], e) && e.source == v.pages[k].source) || (e.source == Zero && e.mapping.None?)
    ensures Exclusive(w)
  {
    forall a, q | a in w.pages && q in w.pages && a != q && w.pages[a].mapping.Some? && w.pages[q].source == FileBacked
      ensures !Overlap(w.pages[a], w.pages[q])
    {
      assert !Overlap(v.pages[a], v.pages[q]);
    }
  }

  /** An unloaded file-backed page is read in. */
  ghost predicate FromFile(v: Vm, w: Vm, k: Key, f: nat) {
    && k in v.pages && v.pages[k].source == FileBacked && v.pages[k].slot.None?
    && In(v, w, k, v.pages[k].(loaded := true), f, FilePage(v.files, v.pages[k]))
    && w.used == v.used && w.slotOf == v.slotOf
  }

  lemma FromFileEntries(v: Vm, w: Vm, k: Key, f: nat)
    requires Entries(v) && FromFile(v, w, k, f)
    ensures Entries(w)
  {
  }

  lemma FromFileSlots(v: Vm, w: Vm, k: Key, f: nat)
    requires SlotsOk(v) && FromFile(v, w, k, f)
    ensures SlotsOk(w)
  {
  }

  lemma FromFileInv(v: Vm, w: Vm, k: Key, f: nat)
    requires Inv(v, {f}) && FromFile(v, w, k, f)
    ensures Inv(w, {})
  {
    hide Entries, FramesOk, TableOk, SlotsOk, MapsOk, FilePage;
    var e := v.pages[k].(loaded := true);
    FromFileEntries(v, w, k, f);
    FromFileSlots(v, w, k, f);
    InFrames(v, w, k, e, f, FilePage(v.files, v.pages[k]));
    InTable(v, w, k, e, f, FilePage(v.files, v.pages[k]));
    MapsFrame(v, w);
  }

  lemma FromFileContents(v: Vm, w: Vm, k: Key, f: nat)
    requires FramesOk(v, {f}) && Coherent(v) && Exclusive(v) && FromFile(v, w, k, f)
    ensures SameImage(v, w) && Coherent(w) && Exclusive(w)
  {
    hide FilePage, SlotPage, FramesOk, Coherent, Exclusive, Visible;
    var e, bytes := v.pages[k].(loaded := true), FilePage(v.files, v.pages[k]);
    FilePageSame(v.files, v.pages[k], e);
    InCoherent(v, w, k, e, f, bytes);
    InExclusive(v, w, k, e, f, bytes);
    forall q | q in v.pages
      ensures Visible(w, q) == Visible(v, q)
    {
      if q != k {
        InOthers(v, w, k, e, f, bytes, q);
      } else {
        FromFileVisible(v, w, k, f);
      }
    }
  }

  lemma FromFileVisible(v: Vm, w: Vm, k: Key, f: nat)
    requires FromFile(v, w, k, f)
    ensures Visible(w, k) == Visible(v, k)
  {
    hide FilePage;
  }

  /** A swapped-out page is read in and its slot freed. */
  ghost predicate FromSwap(v: Vm, w: Vm, k: Key, f: nat) {
    && k in v.pages && v.pages[k].source == Swap && v.pages[k].slot.Some? && v.pages[k].slot.value < |v.used|
    && In(v, w, k, v.pages[k].(loaded := true, slot := None), f, SlotPage(v.dev, v.pages[k].slot.value))
    && w.used == v.used[v.pages[k].slot.value := false] && w.slotOf == v.slotOf - {v.pages[k].slot.value}
  }

  lemma FromSwapEntries(v: Vm, w: Vm, k: Key, f: nat)
    requires Entries(v) && FromSwap(v, w, k, f)
    ensures Entries(w)
  {
  }

  lemma FromSwapSlots(v: Vm, w: Vm, k: Key, f: nat)
    requires SlotsOk(v) && FromSwap(v, w, k, f)
    ensures SlotsOk(w)
  {
  }

  lemma FromSwapInv(v: Vm, w: Vm, k: Key, f: nat)
    requires Inv(v, {f}) && FromSwap(v, w, k, f)
    ensures Inv(w, {})
  {
    hide Entries, FramesOk, TableOk, SlotsOk, MapsOk, SlotPage;
    var e, bytes := v.pages[k].(loaded := true, slot := None), SlotPage(v.dev, v.pages[k].slot.value);
    FromSwapEntries(v, w, k, f);
    FromSwapSlots(v, w, k, f);
    InFrames(v, w, k, e, f, bytes);
    InTable(v, w, k, e, f, bytes);
    MapsFrame(v, w);
  }

  lemma FromSwapContents(v: Vm, w: Vm, k: Key, f: nat)
    requires FramesOk(v, {f}) && Coherent(v) && Exclusive(v) && FromSwap(v, w, k, f)
    ensures SameImage(v, w) && Coherent(w) && Exclusive(w)
  {
    hide FilePage, SlotPage, FramesOk, Coherent, Exclusive, Visible;
    var e, bytes := v.pages[k].(loaded := true, slot := None), SlotPage(v.dev, v.pages[k].slot.value);
    InCoherent(v, w, k, e, f, bytes);
    InExclusive(v, w, k, e, f, bytes);
    forall q | q in v.pages
      ensures Visible(w, q) == Visible(v, q)
    {
      if q != k {
        InOthers(v, w, k, e, f, bytes, q);
      } else {
        FromSwapVisible(v, w, k, f);
      }
    }
  }

  lemma FromSwapVisible(v: Vm, w: Vm, k: Key, f: nat)
    requires FromSwap(v, w, k, f)
    ensures Visible(w, k) == Visible(v, k)
  {
    hide SlotPage;
  }

  /** sup_page_table_add: the entry of a new page of the stack. */
  const NEW_ENTRY := Spte(0, true, Zero, None, 0, 0, 0, 0, true, None)

  /** A new page gets frame F as it is. */
  ghost predicate Grown(v: Vm, w: Vm, k: Key, f: nat) {
    k !in v.pages && In(v, w, k, NEW_ENTRY, f, FrameAt(v.frames, f)) && w.used == v.used && w.slotOf == v.slotOf
  }

  lemma GrownMaps(v: Vm, w: Vm, k: Key, e: Spte)
    requires MapsOk(v) && w.maps == v.maps && k !in v.pages && w.pages == v.pages[k := e] && e.mapping.None?
    ensures MapsOk(w)
  {
    forall id, i: nat | id in w.maps && i < PageCount(w.maps[id].length)
      ensures MapsAt(w.pages, id, w.maps[id], i)
    {
      assert MapsAt(v.pages, id, v.maps[id], i);
    }
  }

  lemma GrownEntries(v: Vm, w: Vm, k: Key, f: nat)
    requires Entries(v) && Grown(v, w, k, f)
    ensures Entries(w)
  {
  }

  lemma GrownSlots(v: Vm, w: Vm, k: Key, f: nat)
    requires SlotsOk(v) && Grown(v, w, k, f)
    ensures SlotsOk(w)
  {
  }

  lemma GrownInv(v: Vm, w: Vm, k: Key, f: nat)
    requires Inv(v, {f}) && Grown(v, w, k, f)
    ensures Inv(w, {})
  {
    hide Entries, FramesOk, TableOk, SlotsOk, MapsOk, FrameAt;
    GrownEntries(v, w, k, f);
    GrownSlots(v, w, k, f);
    InFrames(v, w, k, NEW_ENTRY, f, FrameAt(v.frames, f));
    InTable(v, w, k, NEW_ENTRY, f, FrameAt(v.frames, f));
    GrownMaps(v, w, k, NEW_ENTRY);
  }

  lemma GrownContents(v: Vm, w: Vm, k: Key, f: nat)
    requires FramesOk(v, {f}) && Coherent(v) && Exclusive(v) && Grown(v, w, k, f)
    ensures Image(w) == Image(v)[k := FrameAt(v.frames, f)] && Coherent(w) && Exclusive(w)
  {
    hide FilePage, SlotPage, FramesOk, Coherent, Exclusive, Visible;
    var bytes := FrameAt(v.frames, f);
    InCoherent(v, w, k, NEW_ENTRY, f, bytes);
    InExclusive(v, w, k, NEW_ENTRY, f, bytes);
    forall q | q in v.pages
      ensures Visible(w, q) == Visible(v, q)
    {
      InOthers(v, w, k, NEW_ENTRY, f, bytes, q);
    }
    GrownVisible(v, w, k, f);
  }

  lemma GrownVisible(v: Vm, w: Vm, k: Key, f: nat)
    requires Grown(v, w, k, f)
    ensures Visible(w, k) == FrameAt(v.frames, f)
  {
  }

  // ----- the program writes ---------------------------------------------------------------------------------

  /** The program writes byte B at offset I of page K: the hardware sets the accessed and dirty bits. */
  ghost predicate Stored(v: Vm, w: Vm, k: Key, i: nat, b: byte) {
    && k in v.ptes && v.ptes[k].writable && i < 4096 && v.ptes[k].frame < |v.frames|
    && w == v.(ptes := v.ptes[k := v.ptes[k].(accessed := true, dirty := true)],
               frames := v.frames[v.ptes[k].frame := v.frames[v.ptes[k].frame][i := b]])
  }

  /** Flat memory with one byte written. */
  ghost function Poke(image: map<Key, seq<byte>>, k: Key, i: nat, b: byte): map<Key, seq<byte>> {
    if k in image && i < |image[k]| then
      var page: seq<byte> := image[k][i := b];
      image[k := page]
    else image
  }

  lemma StoredFrames(v: Vm, w: Vm, k: Key, i: nat, b: byte)
    requires FramesOk(v, {}) && Stored(v, w, k, i, b)
    ensures FramesOk(w, {})
  {
  }

  lemma StoredInv(v: Vm, w: Vm, k: Key, i: nat, b: byte)
    requires Inv(v, {}) && Stored(v, w, k, i, b)
    ensures Inv(w, {})
  {
    hide FramesOk, SlotsOk, MapsOk;
    StoredFrames(v, w, k, i, b);
    MapsFrame(v, w);
    StoredSlots(v, w, k, i, b);
  }

  lemma StoredSlots(v: Vm, w: Vm, k: Key, i: nat, b: byte)
    requires SlotsOk(v) && Stored(v, w, k, i, b)
    ensures SlotsOk(w)
  {
  }

  lemma StoredCoherent(v: Vm, w: Vm, k: Key, i: nat, b: byte)
    requires FramesOk(v, {}) && Coherent(v) && Stored(v, w, k, i, b)
    ensures Coherent(w)
  {
    hide FilePage, SlotPage;
    forall q | q in w.ptes && q in w.pages && Droppable(w.pages[q]) && !w.ptes[q].dirty
      ensures FrameAt(w.frames, w.ptes[q].frame) == FilePage(w.files, w.pages[q])
    {
      assert q != k && v.ptes[q].frame != v.ptes[k].frame;
    }
  }

  lemma StoredExclusive(v: Vm, w: Vm, k: Key, i: nat, b: byte)
    requires Exclusive(v) && Stored(v, w, k, i, b)
    ensures Exclusive(w)
  {
  }

  lemma StoredVisible(v: Vm, w: Vm, k: Key, i: nat, b: byte, q: Key)
    requires FramesOk(v, {}) && Stored(v, w, k, i, b) && q in v.pages
    ensures Visible(w, q) == if q == k && i < |Visible(v, q)| then Visible(v, q)[i := b] else Visible(v, q)
  {
    hide FilePage, SlotPage;
    assert q != k && q in v.ptes ==> v.ptes[q].frame != v.ptes[k].frame;
  }

  lemma StoredContents(v: Vm, w: Vm, k: Key, i: nat, b: byte)
    requires FramesOk(v, {}) && Stored(v, w, k, i, b)
    ensures Image(w) == Poke(Image(v), k, i, b)
  {
    hide FramesOk, Visible, Contents;
    forall q | q in v.pages
      ensures Visible(w, q) == if q == k && i < |Visible(v, q)| then Visible(v, q)[i := b] else Visible(v, q)
    {
      StoredVisible(v, w, k, i, b, q);
    }
  }

  // ----- a page of a mapping goes ------------------------------------------------------------------------------

  /** Page K of a mapping is removed; if loaded, as entry I of the frame table, it is written back if
      dirty and its frame freed. */
  ghost predicate Gone(v: Vm, w: Vm, k: Key, i: nat) {
    && k in v.pages && v.pages[k].mapping.Some? && EntryOk(v.files, v.pages[k])
    && w == v.(pages := v.pages - {k}, ptes := v.ptes - {k}, table := w.table, pool := w.pool, at := w.at, files := w.files)
    && (k !in v.ptes ==> w.table == v.table && w.pool == v.pool && w.at == v.at && w.files == v.files)
    && (k in v.ptes ==>
          && i < |v.table| && v.table[i] == Fte(v.ptes[k].frame, k) && w.table == Removed(v.table, i)
          && w.pool == v.pool + {v.ptes[k].frame} && w.at == v.at - {v.ptes[k].frame}
          && w.files == (if v.ptes[k].dirty && !v.files[v.pages[k].file].denied then Flushed(v.files, v.pages[k], FrameAt(v.frames, v.ptes[k].frame))
                         else v.files))
  }

  lemma GoneSizes(v: Vm, w: Vm, k: Key, i: nat)
    requires Gone(v, w, k, i)
    ensures w.files.Keys == v.files.Keys
    ensures forall f :: f in v.files ==>
      |w.files[f].bytes| == |v.files[f].bytes| && w.files[f].denied == v.files[f].denied && (v.files[f].denied ==> w.files[f] == v.files[f])
  {
    hide Flushed, FrameAt;
    if k in v.ptes {
      FlushedSize(v.files, v.pages[k], FrameAt(v.frames, v.ptes[k].frame));
    }
  }

  lemma GoneEntries(v: Vm, w: Vm, k: Key, i: nat)
    requires Entries(v) && Gone(v, w, k, i)
    ensures Entries(w)
  {
    hide Flushed, FrameAt;
    GoneSizes(v, w, k, i);
  }

  lemma GoneFrames(v: Vm, w: Vm, k: Key, i: nat)
    requires FramesOk(v, {}) && Gone(v, w, k, i)
    ensures FramesOk(w, {})
  {
    hide Flushed, FrameAt, EntryOk;
    assert w.ptes.Keys == v.ptes.Keys - {k};
  }

  lemma GoneTable(v: Vm, w: Vm, k: Key, i: nat)
    requires TableOk(v) && Gone(v, w, k, i)
    ensures TableOk(w)
  {
    hide Flushed, FrameAt, EntryOk, Removed;
    if k in v.ptes {
      RemovedMembers(v.table, i);
      forall e | e in w.table
        ensures e.key in w.ptes && w.ptes[e.key].frame == e.frame
      {
        assert e in v.table && e != Fte(v.ptes[k].frame, k);
      }
    } else {
      assert w.ptes == v.ptes;
    }
  }

  lemma GoneSlots(v: Vm, w: Vm, k: Key, i: nat)
    requires SlotsOk(v) && Gone(v, w, k, i)
    ensures SlotsOk(w)
  {
    hide Flushed, FrameAt;
  }

  /** What other pages have in files is not touched. */
  lemma GoneElsewhere(v: Vm, w: Vm, k: Key, i: nat, q: Key)
    requires Exclusive(v) && Gone(v, w, k, i) && q in v.pages && q != k && v.pages[q].source == FileBacked
    ensures FilePage(w.files, v.pages[q]) == FilePage(v.files, v.pages[q])
  {
    hide FilePage, Flushed, FrameAt;
    if k in v.ptes && v.ptes[k].dirty {
      FlushedElsewhere(v.files, v.pages[k], FrameAt(v.frames, v.ptes[k].frame), v.pages[q]);
    }
  }

  lemma GoneContents(v: Vm, w: Vm, k: Key, i: nat, q: Key)
    requires Entries(v) && Exclusive(v) && Gone(v, w, k, i) && q in v.pages && q != k
    ensures Visible(w, q) == Visible(v, q)
  {
    hide FilePage, SlotPage, Flushed, FrameAt, Exclusive;
    if q !in v.ptes && v.pages[q].slot.None? {
      GoneElsewhere(v, w, k, i, q);
    }
  }

  lemma GoneCoherent(v: Vm, w: Vm, k: Key, i: nat)
    requires Coherent(v) && Exclusive(v) && Gone(v, w, k, i)
    ensures Coherent(w)
  {
    hide FilePage, FrameAt, Flushed, Exclusive;
    forall q | q in w.ptes && q in w.pages && Droppable(w.pages[q]) && !w.ptes[q].dirty
      ensures FrameAt(w.frames, w.ptes[q].frame) == FilePage(w.files, w.pages[q])
    {
      GoneElsewhere(v, w, k, i, q);
    }
  }

  lemma GoneExclusive(v: Vm, w: Vm, k: Key, i: nat)
    requires Exclusive(v) && Gone(v, w, k, i)
    ensures Exclusive(w)
  {
    hide Flushed, FrameAt;
    forall a, q | a in w.pages && q in w.pages && a != q && w.pages[a].mapping.Some? && w.pages[q].source == FileBacked
      ensures !Overlap(w.pages[a], w.pages[q])
    {
      assert !Overlap(v.pages[a], v.pages[q]);
    }
  }

  /** The page's part of the file ends up with what the page had, and the rest of the files as it was. */
  lemma GoneByte(v: Vm, w: Vm, k: Key, i: nat, f: nat, p: nat)
    requires Coherent(v) && Entries(v) && Gone(v, w, k, i) && !v.files[v.pages[k].file].denied
    ensures FileByte(w.files, f, p) ==
      if f == v.pages[k].file && v.pages[k].ofs <= p < v.pages[k].ofs + v.pages[k].readBytes then Contents(v, k)[p - v.pages[k].ofs]
      else FileByte(v.files, f, p)
  {
    var e := v.pages[k];
    if k in v.ptes {
      var bytes := FrameAt(v.frames, v.ptes[k].frame);
      if v.ptes[k].dirty {
        WrittenByte(v.files, e.file, e.ofs, bytes[..e.readBytes], f, p);
      } else {
        assert bytes == FilePage(v.files, e);
      }
    }
  }
}
