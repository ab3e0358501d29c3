/** Block allocation in arenas over a page allocator (src/threads/malloc.c, src/threads/palloc.c).
    Addresses are relative to the base of the kernel pool, which is page-aligned. */
module Allocation {
  import opened Bitmaps
  import opened Options
  import opened Sequences

  const DESC_CNT: nat := 7

  /** The sizes malloc_init makes descriptors for. */
  function BlockSize(d: nat): (size: nat)
    ensures 16 <= size <= 1024
  {
    if d == 0 then 16 else if d == 1 then 32 else if d == 2 then 64 else if d == 3 then 128
    else if d == 4 then 256 else if d == 5 then 512 else 1024
  }

  /** blocks_per_arena: what fits a page after the 12 bytes of the arena header. */
  function PerArena(d: nat): (n: nat)
    ensures n >= 3
  {
    (4096 - 12) / BlockSize(d)
  }

  /** An arena has as many blocks as fit its page after the header: the last one fits and one more would not. */
  lemma ArenaFilled(d: nat)
    requires d < DESC_CNT
    ensures 12 + PerArena(d) * BlockSize(d) <= 4096 < 12 + (PerArena(d) + 1) * BlockSize(d)
    ensures BlockSize(d) == if d == 0 then 16 else 2 * BlockSize(d - 1)
  {
  }

  /** The loop of malloc_init. */
  method DescriptorSizes() returns (sizes: seq<nat>)
    ensures |sizes| == DESC_CNT && forall d :: 0 <= d < DESC_CNT ==> sizes[d] == BlockSize(d)
  {
    sizes := [];
    var blockSize := 16;
    while blockSize < 4096 / 2
      invariant |sizes| <= DESC_CNT && blockSize == if |sizes| == 7 then 2048 else BlockSize(|sizes|)
      invariant forall d :: 0 <= d < |sizes| ==> sizes[d] == BlockSize(d)
      decreases 2048 - blockSize
    {
      sizes := sizes + [blockSize];
      blockSize := blockSize * 2;
    }
  }

  /** `struct arena`; a big block has no descriptor and counts its pages instead. */
  datatype Arena = Small(desc: nat, freeCnt: nat) | Big(pages: nat)

  /** USED is the pool's bitmap, LISTS the free list of each descriptor.  LIVE has the blocks handed out,
      with the sizes asked for, OWNER the arena of each page of an arena, and FOREIGN the pages that others
      took from the pool; these are for the proof only. */
  datatype Heap = Heap(used: seq<bool>, arenas: map<nat, Arena>, lists: seq<seq<nat>>, live: map<nat, nat>, owner: map<nat, nat>,
                       foreign: set<nat>)

  /** arena_to_block. */
  function Block(a: nat, d: nat, idx: nat): nat {
    4096 * a + 12 + idx * BlockSize(d)
  }

  /** block_to_arena. */
  function ArenaOf(x: nat): nat {
    x / 4096
  }

  function Span(arena: Arena): nat {
    if arena.Big? then arena.pages else 1
  }

  /** The number of bytes of the block at X. */
  function Capacity(h: Heap, x: nat): int
    requires ArenaOf(x) in h.arenas
  {
    match h.arenas[ArenaOf(x)]
    case Small(d, _) => BlockSize(d)
    case Big(n) => 4096 * n - 12
  }

  /** X is one of the blocks of a page divided for descriptor D. */
  ghost predicate IsBlock(h: Heap, x: nat, d: nat) {
    && ArenaOf(x) in h.arenas && h.arenas[ArenaOf(x)].Small? && h.arenas[ArenaOf(x)].desc == d
    && exists idx: nat :: idx < PerArena(d) && x == Block(ArenaOf(x), d, idx)
  }

  // ----- what every operation keeps ---------------------------------------------------------------------------

  /** Every marked page is in an arena or belongs to somebody else. */
  ghost predicate OwnersOk(h: Heap) {
    && (forall p: nat :: p in h.owner || p in h.foreign <==> p < |h.used| && h.used[p])
    && h.owner.Keys !! h.foreign
    && (forall p :: p in h.owner ==> h.owner[p] in h.arenas && h.owner[p] <= p < h.owner[p] + Span(h.arenas[h.owner[p]]))
  }

  /** No page is in two arenas. */
  ghost predicate ArenasOk(h: Heap) {
    && (forall a, p: nat :: a in h.arenas && a <= p < a + Span(h.arenas[a]) ==> p in h.owner && h.owner[p] == a)
    && (forall a :: a in h.arenas ==> Span(h.arenas[a]) > 0 && (h.arenas[a].Small? ==> h.arenas[a].desc < DESC_CNT))
  }

  ghost predicate PagesOk(h: Heap) {
    OwnersOk(h) && ArenasOk(h)
  }

  /** Free lists hold blocks of their size, each once, that nobody has. */
  ghost predicate ListsOk(h: Heap) {
    && |h.lists| == DESC_CNT
    && (forall d :: 0 <= d < DESC_CNT ==> Distinct(h.lists[d]))
    && (forall d, x :: 0 <= d < DESC_CNT && x in h.lists[d] ==> IsBlock(h, x, d) && x !in h.live)
  }

  /** A block handed out is a whole block of an arena, and big enough for every request that fits the
      address space with its header. */
  ghost predicate LiveOk(h: Heap) {
    forall x :: x in h.live ==>
      && ArenaOf(x) in h.arenas
      && (if h.arenas[ArenaOf(x)].Small? then IsBlock(h, x, h.arenas[ArenaOf(x)].desc) else x == 4096 * ArenaOf(x) + 12)
      && (h.live[x] <= Capacity(h, x) <==> h.live[x] + 12 <= 0x1_0000_0000)
  }

  /** Every block of an arena is listed or handed out. */
  ghost predicate Complete(h: Heap)
    requires |h.lists| == DESC_CNT
  {
    forall a :: a in h.arenas ==> if h.arenas[a].Small? then AllPlaced(h, a, h.arenas[a].desc) else 4096 * a + 12 in h.live
  }

  ghost predicate AllPlaced(h: Heap, a: nat, d: nat)
    requires |h.lists| == DESC_CNT
  {
    d < DESC_CNT && forall idx: nat :: idx < PerArena(d) ==> Block(a, d, idx) in h.lists[d] || Block(a, d, idx) in h.live
  }

  /** The blocks of arena A on LIST. */
  ghost function FreeOf(list: seq<nat>, a: nat, d: nat): set<nat> {
    set idx: nat | idx < PerArena(d) && Block(a, d, idx) in list
  }

  /** free_cnt counts an arena's blocks on the free list; an arena with no block in use is not kept,
      except NEWEST while it is being set up. */
  ghost predicate CountsOk(h: Heap, newest: Option<nat>)
    requires |h.lists| == DESC_CNT
  {
    forall a :: a in h.arenas && h.arenas[a].Small? ==> Counted(h, a, h.arenas[a].desc, newest)
  }

  ghost predicate Counted(h: Heap, a: nat, d: nat, newest: Option<nat>)
    requires |h.lists| == DESC_CNT && a in h.arenas && h.arenas[a].Small?
  {
    && d < DESC_CNT && h.arenas[a].freeCnt == |FreeOf(h.lists[d], a, d)|
    && (newest != Some(a) ==> h.arenas[a].freeCnt < PerArena(d))
  }

  ghost predicate Inv(h: Heap, newest: Option<nat>) {
    PagesOk(h) && ListsOk(h) && LiveOk(h) && Complete(h) && CountsOk(h, newest)
  }

  // ----- what it means for the program -------------------------------------------------------------------------

  lemma BlockInside(d: nat, idx: nat)
    requires d < DESC_CNT && idx < PerArena(d)
    ensures 0 <= idx * BlockSize(d) && 12 + idx * BlockSize(d) + BlockSize(d) <= 4096
  {
  }

  lemma BlockArena(a: nat, d: nat, idx: nat)
    requires d < DESC_CNT && idx < PerArena(d)
    ensures ArenaOf(Block(a, d, idx)) == a
  {
    BlockInside(d, idx);
  }

  lemma BlockUnique(a: nat, d: nat, i: nat, j: nat)
    requires d < DESC_CNT && Block(a, d, i) == Block(a, d, j)
    ensures i == j
  {
  }

  /** The bytes of two blocks handed out never overlap, and lie within their arenas' pages after the
      header. */
  lemma BlocksApart(h: Heap, x: nat, y: nat)
    requires Inv(h, None) && x in h.live && y in h.live && x < y
    ensures ArenaOf(x) in h.arenas && ArenaOf(y) in h.arenas
    ensures x + Capacity(h, x) <= y
    ensures 4096 * ArenaOf(x) + 12 <= x && x + Capacity(h, x) <= 4096 * (ArenaOf(x) + Span(h.arenas[ArenaOf(x)]))
  {
    hide ListsOk, Complete, CountsOk;
    WithinArena(h, x);
    WithinArena(h, y);
    if ArenaOf(x) == ArenaOf(y) {
      SameArena(h, x, y);
    } else {
      assert ArenaOf(y) in h.owner && h.owner[ArenaOf(y)] == ArenaOf(y);
    }
  }

  lemma WithinArena(h: Heap, x: nat)
    requires PagesOk(h) && LiveOk(h) && x in h.live
    ensures ArenaOf(x) in h.arenas
    ensures 4096 * ArenaOf(x) + 12 <= x && x + Capacity(h, x) <= 4096 * (ArenaOf(x) + Span(h.arenas[ArenaOf(x)]))
  {
    match h.arenas[ArenaOf(x)]
    case Small(d, _) =>
      var idx: nat :| idx < PerArena(d) && x == Block(ArenaOf(x), d, idx);
      BlockInside(d, idx);
    case Big(_) =>
  }

  lemma SameArena(h: Heap, x: nat, y: nat)
    requires PagesOk(h) && LiveOk(h) && x in h.live && y in h.live && x < y && ArenaOf(x) == ArenaOf(y)
    ensures ArenaOf(x) in h.arenas && x + Capacity(h, x) <= y
  {
    match h.arenas[ArenaOf(x)]
    case Small(d, _) =>
      var i: nat :| i < PerArena(d) && x == Block(ArenaOf(x), d, i);
      var j: nat :| j < PerArena(d) && y == Block(ArenaOf(x), d, j);
      BlockGap(d, i, j);
    case Big(_) =>
  }

  lemma BlockGap(d: nat, i: nat, j: nat)
    requires i * BlockSize(d) < j * BlockSize(d)
    ensures i * BlockSize(d) + BlockSize(d) <= j * BlockSize(d)
  {
  }

  /** Every arena has a block in use. */
  lemma ArenaInUse(h: Heap, a: nat)
    requires Inv(h, None) && a in h.arenas
    ensures exists x :: x in h.live && ArenaOf(x) == a
  {
    hide PagesOk, LiveOk, IsBlock, Block, PerArena;
    match h.arenas[a]
    case Small(d, _) =>
      assert Counted(h, a, d, None) && AllPlaced(h, a, d);
      var free := FreeOf(h.lists[d], a, d);
      if forall idx :: idx in Upto(PerArena(d)) ==> idx in free {
        SubsetSize(Upto(PerArena(d)), free);
      }
      var idx :| idx in Upto(PerArena(d)) && idx !in free;
      BlockArena(a, d, idx);
    case Big(_) =>
      assert ArenaOf(4096 * a + 12) == a;
  }

  /** When everything has been freed, only the pages of others are marked. */
  lemma AllPagesBack(h: Heap)
    requires Inv(h, None) && h.live == map[]
    ensures h.arenas == map[] && forall p: nat :: p in h.foreign <==> p < |h.used| && h.used[p]
  {
    hide ListsOk, LiveOk, Complete, CountsOk;
    forall a | a in h.arenas
      ensures false
    {
      ArenaInUse(h, a);
    }
    assert h.arenas.Keys == {};
  }

  // ----- a page is divided into blocks --------------------------------------------------------------------------

  ghost function BlocksOf(a: nat, d: nat, n: nat): seq<nat> {
    seq(n, idx requires 0 <= idx < n => Block(a, d, idx))
  }

  /** Page A, until now free, becomes an arena of descriptor D, whose list was empty. */
  ghost predicate Carved(h: Heap, w: Heap, a: nat, d: nat) {
    && |h.lists| == DESC_CNT && d < DESC_CNT && a < |h.used| && !h.used[a] && h.lists[d] == []
    && w == h.(used := h.used[a := true], arenas := h.arenas[a := Small(d, PerArena(d))],
               lists := h.lists[d := BlocksOf(a, d, PerArena(d))], owner := h.owner[a := a])
  }

  lemma NewArena(h: Heap, a: nat)
    requires PagesOk(h) && a < |h.used| && !h.used[a]
    ensures a !in h.arenas && a !in h.owner
  {
    assert a in h.arenas ==> a in h.owner;
  }

  lemma CarvedPages(h: Heap, w: Heap, a: nat, d: nat)
    requires PagesOk(h) && Carved(h, w, a, d)
    ensures PagesOk(w)
  {
    hide BlocksOf, PerArena, OwnersOk, ArenasOk;
    NewArena(h, a);
    ExtendedPages(h, w, a, 1);
  }

  /** N free pages from A on become an arena. */
  ghost predicate Extended(h: Heap, w: Heap, a: nat, n: nat) {
    && w.foreign == h.foreign && a !in h.arenas && n > 0 && a + n <= |h.used| && (forall p :: a <= p < a + n ==> !h.used[p])
    && |w.used| == |h.used| && (forall p :: 0 <= p < |h.used| ==> w.used[p] == (h.used[p] || a <= p < a + n))
    && (forall p: nat :: p in w.owner <==> p in h.owner || a <= p < a + n)
    && (forall p: nat :: p in w.owner ==> w.owner[p] == if a <= p < a + n then a else h.owner[p])
    && w.arenas.Keys == h.arenas.Keys + {a} && (forall b :: b in h.arenas ==> w.arenas[b] == h.arenas[b])
    && Span(w.arenas[a]) == n && (w.arenas[a].Small? ==> w.arenas[a].desc < DESC_CNT)
  }

  lemma ExtendedOwners(h: Heap, w: Heap, a: nat, n: nat)
    requires OwnersOk(h) && Extended(h, w, a, n)
    ensures OwnersOk(w)
  {
    hide Span;
  }

  lemma ExtendedAt(h: Heap, w: Heap, a: nat, n: nat, b: nat, p: nat)
    requires OwnersOk(h) && ArenasOk(h) && Extended(h, w, a, n) && b in w.arenas && b <= p < b + Span(w.arenas[b])
    ensures p in w.owner && w.owner[p] == b
  {
    hide Span;
    assert b != a ==> p in h.owner && h.owner[p] == b;
  }

  lemma ExtendedArenas(h: Heap, w: Heap, a: nat, n: nat)
    requires OwnersOk(h) && ArenasOk(h) && Extended(h, w, a, n)
    ensures ArenasOk(w)
  {
    hide Span, OwnersOk;
    ExtendedKinds(h, w, a, n);
    forall b, p: nat | b in w.arenas && b <= p < b + Span(w.arenas[b])
      ensures p in w.owner && w.owner[p] == b
    {
      ExtendedAt(h, w, a, n, b, p);
    }
  }

  lemma ExtendedKinds(h: Heap, w: Heap, a: nat, n: nat)
    requires ArenasOk(h) && Extended(h, w, a, n)
    ensures forall b :: b in w.arenas ==> Span(w.arenas[b]) > 0 && (w.arenas[b].Small? ==> w.arenas[b].desc < DESC_CNT)
  {
    hide Span;
  }

  lemma ExtendedPages(h: Heap, w: Heap, a: nat, n: nat)
    requires PagesOk(h) && Extended(h, w, a, n)
    ensures PagesOk(w)
  {
    hide OwnersOk, ArenasOk, Extended;
    ExtendedOwners(h, w, a, n);
    ExtendedArenas(h, w, a, n);
  }

  lemma NewBlock(h: Heap, a: nat, d: nat, idx: nat)
    requires PagesOk(h) && LiveOk(h) && a < |h.used| && !h.used[a] && d < DESC_CNT && idx < PerArena(d)
    ensures Block(a, d, idx) !in h.live
  {
    NewArena(h, a);
    BlockArena(a, d, idx);
  }

  lemma BlocksDistinct(a: nat, d: nat)
    requires d < DESC_CNT
    ensures Distinct(BlocksOf(a, d, PerArena(d)))
  {
    hide Block, PerArena, BlockSize;
    var list := BlocksOf(a, d, PerArena(d));
    forall i, j | 0 <= i < j < |list|
      ensures list[i] != list[j]
    {
      if list[i] == list[j] {
        BlockUnique(a, d, i, j);
      }
    }
  }

  lemma CarvedElement(h: Heap, w: Heap, a: nat, d: nat, e: nat, x: nat)
    requires PagesOk(h) && ListsOk(h) && LiveOk(h) && Carved(h, w, a, d) && e < DESC_CNT && x in w.lists[e]
    ensures IsBlock(w, x, e) && x !in w.live
  {
    hide Block, PerArena, BlockSize, PagesOk, LiveOk;
    NewArena(h, a);
    if e == d {
      var idx :| 0 <= idx < PerArena(d) && BlocksOf(a, d, PerArena(d))[idx] == x;
      BlockArena(a, d, idx);
      NewBlock(h, a, d, idx);
    } else {
      assert IsBlock(h, x, e);
    }
  }

  lemma CarvedLists(h: Heap, w: Heap, a: nat, d: nat)
    requires PagesOk(h) && ListsOk(h) && LiveOk(h) && Carved(h, w, a, d)
    ensures ListsOk(w)
  {
    hide BlocksOf, PerArena, PagesOk, LiveOk, IsBlock;
    BlocksDistinct(a, d);
    forall e, x | 0 <= e < DESC_CNT && x in w.lists[e]
      ensures IsBlock(w, x, e) && x !in w.live
    {
      CarvedElement(h, w, a, d, e, x);
    }
  }

  lemma CarvedLive(h: Heap, w: Heap, a: nat, d: nat)
    requires PagesOk(h) && LiveOk(h) && Carved(h, w, a, d)
    ensures LiveOk(w)
  {
    hide Block, PerArena, BlockSize, BlocksOf;
    NewArena(h, a);
    forall x | x in w.live
      ensures w.arenas[ArenaOf(x)] == h.arenas[ArenaOf(x)] && Capacity(w, x) == Capacity(h, x)
    {
    }
    forall x | x in w.live && w.arenas[ArenaOf(x)].Small?
      ensures IsBlock(w, x, w.arenas[ArenaOf(x)].desc)
    {
      assert IsBlock(h, x, h.arenas[ArenaOf(x)].desc);
    }
  }

  lemma CarvedComplete(h: Heap, w: Heap, a: nat, d: nat)
    requires PagesOk(h) && ListsOk(h) && Complete(h) && Carved(h, w, a, d)
    ensures |w.lists| == DESC_CNT && Complete(w)
  {
    hide Block, PerArena, BlockSize;
    NewArena(h, a);
    forall b | b in w.arenas && w.arenas[b].Small?
      ensures AllPlaced(w, b, w.arenas[b].desc)
    {
      if b == a {
        assert forall idx: nat :: idx < PerArena(d) ==> Block(a, d, idx) == w.lists[d][idx];
      } else {
        assert AllPlaced(h, b, h.arenas[b].desc);
      }
    }
  }

  lemma CarvedCounts(h: Heap, w: Heap, a: nat, d: nat)
    requires PagesOk(h) && ListsOk(h) && CountsOk(h, None) && Carved(h, w, a, d)
    ensures |w.lists| == DESC_CNT && CountsOk(w, Some(a))
  {
    hide Block, PerArena, BlockSize;
    NewArena(h, a);
    forall b | b in w.arenas && w.arenas[b].Small?
      ensures Counted(w, b, w.arenas[b].desc, Some(a))
    {
      if b == a {
        assert forall idx: nat :: idx < PerArena(d) ==> Block(a, d, idx) == w.lists[d][idx];
        AllIndices(FreeOf(w.lists[d], a, d), PerArena(d));
      } else {
        assert Counted(h, b, h.arenas[b].desc, None);
        if w.arenas[b].desc == d {
          NoneListed(h, w, a, b, d);
        }
      }
    }
  }

  /** An arena of the same descriptor had no block listed, and none of the new ones is its. */
  lemma NoneListed(h: Heap, w: Heap, a: nat, b: nat, d: nat)
    requires Carved(h, w, a, d) && a != b
    ensures FreeOf(w.lists[d], b, d) == FreeOf(h.lists[d], b, d) == {}
  {
    hide Block, PerArena, BlockSize;
    forall idx: nat | idx < PerArena(d)
      ensures Block(b, d, idx) !in w.lists[d]
    {
      BlockArena(b, d, idx);
      forall j | 0 <= j < PerArena(d)
        ensures w.lists[d][j] != Block(b, d, idx)
      {
        BlockArena(a, d, j);
      }
    }
  }

  ghost function Upto(n: nat): (s: set<nat>)
    ensures (forall i: nat :: i in s <==> i < n) && |s| == n
  {
    if n == 0 then {} else Upto(n - 1) + {n - 1}
  }

  lemma AllIndices(s: set<nat>, n: nat)
    requires forall i: nat :: i in s <==> i < n
    ensures |s| == n
  {
    assert s == Upto(n);
  }

  lemma CarvedInv(h: Heap, w: Heap, a: nat, d: nat)
    requires Inv(h, None) && Carved(h, w, a, d)
    ensures Inv(w, Some(a))
  {
    hide PagesOk, ListsOk, LiveOk, Complete, CountsOk, Carved;
    HasLists(h);
    CarvedPages(h, w, a, d);
    CarvedLists(h, w, a, d);
    CarvedLive(h, w, a, d);
    CarvedComplete(h, w, a, d);
    CarvedCounts(h, w, a, d);
  }

  lemma HasLists(h: Heap)
    requires ListsOk(h)
    ensures |h.lists| == DESC_CNT
  {
  }

  // ----- the front block is handed out ------------------------------------------------------------------------------

  /** The first block on the list of D is handed out for SIZE bytes. */
  ghost predicate Taken(h: Heap, w: Heap, d: nat, size: nat) {
    && |h.lists| == DESC_CNT && d < DESC_CNT && h.lists[d] != []
    && var x := h.lists[d][0];
    && ArenaOf(x) in h.arenas && h.arenas[ArenaOf(x)].Small? && h.arenas[ArenaOf(x)].freeCnt > 0
    && w == h.(lists := h.lists[d := h.lists[d][1..]], live := h.live[x := size],
               arenas := h.arenas[ArenaOf(x) := h.arenas[ArenaOf(x)].(freeCnt := h.arenas[ArenaOf(x)].freeCnt - 1)])
  }

  /** Arenas are the same up to their free counts. */
  ghost predicate SameArenas(h: Heap, w: Heap) {
    && w.arenas.Keys == h.arenas.Keys
    && (forall a :: a in h.arenas ==>
          if h.arenas[a].Small? then w.arenas[a].Small? && w.arenas[a].desc == h.arenas[a].desc else w.arenas[a] == h.arenas[a])
  }

  lemma SamePages(h: Heap, w: Heap)
    requires PagesOk(h) && SameArenas(h, w) && w.used == h.used && w.owner == h.owner && w.foreign == h.foreign
    ensures PagesOk(w)
  {
    assert forall a :: a in h.arenas ==> Span(w.arenas[a]) == Span(h.arenas[a]);
  }

  lemma SameBlock(h: Heap, w: Heap, x: nat, d: nat)
    requires SameArenas(h, w)
    ensures IsBlock(w, x, d) <==> IsBlock(h, x, d)
  {
    hide Block, PerArena;
  }

  /** What a listed block is like: the front of its list has a free count to give. */
  lemma FrontBlock(h: Heap, d: nat, newest: Option<nat>)
    requires Inv(h, newest) && d < DESC_CNT && h.lists[d] != []
    ensures var x := h.lists[d][0];
      && IsBlock(h, x, d) && x !in h.live && ArenaOf(x) in h.arenas && h.arenas[ArenaOf(x)].Small? && h.arenas[ArenaOf(x)].desc == d
      && h.arenas[ArenaOf(x)].freeCnt > 0
  {
    hide PagesOk, LiveOk, Complete, Block, PerArena;
    var x := h.lists[d][0];
    assert x in h.lists[d] && IsBlock(h, x, d);
    var a := ArenaOf(x);
    assert Counted(h, a, d, newest);
    var idx: nat :| idx < PerArena(d) && x == Block(a, d, idx);
    assert idx in FreeOf(h.lists[d], a, d);
  }

  lemma TakenLists(h: Heap, w: Heap, d: nat, size: nat)
    requires ListsOk(h) && Taken(h, w, d, size)
    ensures ListsOk(w)
  {
    hide IsBlock;
    forall e, x | 0 <= e < DESC_CNT && x in w.lists[e]
      ensures IsBlock(w, x, e) && x !in w.live
    {
      assert x in h.lists[e] && IsBlock(h, x, e);
      SameBlock(h, w, x, e);
      if e == d {
        assert x != h.lists[d][0];
      } else {
        OtherList(h, h.lists[d][0], d, e);
      }
    }
  }

  /** A block is on the list of its own size only. */
  lemma OtherList(h: Heap, x: nat, d: nat, e: nat)
    requires ListsOk(h) && d < DESC_CNT && e < DESC_CNT && d != e && x in h.lists[d]
    ensures x !in h.lists[e]
  {
    hide Block, PerArena;
    assert IsBlock(h, x, d);
  }

  lemma TakenLive(h: Heap, w: Heap, d: nat, size: nat)
    requires ListsOk(h) && LiveOk(h) && Taken(h, w, d, size) && size <= BlockSize(d)
    ensures LiveOk(w)
  {
    hide Block, PerArena, BlockSize, IsBlock;
    var front := h.lists[d][0];
    assert front in h.lists[d] && IsBlock(h, front, d);
    BlockFacts(h, front, d);
    forall x | x in w.live
      ensures && ArenaOf(x) in w.arenas
              && (if w.arenas[ArenaOf(x)].Small? then IsBlock(w, x, w.arenas[ArenaOf(x)].desc) else x == 4096 * ArenaOf(x) + 12)
              && (w.live[x] <= Capacity(w, x) <==> w.live[x] + 12 <= 0x1_0000_0000)
    {
      if w.arenas[ArenaOf(x)].Small? {
        SameBlock(h, w, x, w.arenas[ArenaOf(x)].desc);
      }
    }
  }

  lemma BlockFacts(h: Heap, x: nat, d: nat)
    requires IsBlock(h, x, d)
    ensures ArenaOf(x) in h.arenas && h.arenas[ArenaOf(x)].Small? && h.arenas[ArenaOf(x)].desc == d
  {
    hide Block, PerArena;
  }

  lemma TakenComplete(h: Heap, w: Heap, d: nat, size: nat)
    requires ListsOk(h) && Complete(h) && Taken(h, w, d, size)
    ensures Complete(w)
  {
    hide Block, PerArena, IsBlock;
    forall b | b in w.arenas && w.arenas[b].Small?
      ensures AllPlaced(w, b, w.arenas[b].desc)
    {
      assert AllPlaced(h, b, h.arenas[b].desc);
      assert h.lists[d] == [h.lists[d][0]] + h.lists[d][1..];
    }
  }

  lemma TakenCounts(h: Heap, w: Heap, d: nat, size: nat, newest: Option<nat>)
    requires ListsOk(h) && CountsOk(h, newest) && Taken(h, w, d, size) && (newest.None? || newest == Some(ArenaOf(h.lists[d][0])))
    ensures CountsOk(w, None)
  {
    hide Block, PerArena, IsBlock;
    var x := h.lists[d][0];
    assert x in h.lists[d] && IsBlock(h, x, d);
    BlockFacts(h, x, d);
    forall b | b in w.arenas && w.arenas[b].Small?
      ensures Counted(w, b, w.arenas[b].desc, None)
    {
      assert Counted(h, b, h.arenas[b].desc, newest);
      if b == ArenaOf(x) {
        FreeLess(h, x, d);
      } else if w.arenas[b].desc == d {
        FreeElsewhere(h.lists[d], w.lists[d], x, b, d);
      }
    }
  }

  lemma FreeLess(h: Heap, x: nat, d: nat)
    requires ListsOk(h) && d < DESC_CNT && h.lists[d] != [] && x == h.lists[d][0]
    ensures |FreeOf(h.lists[d][1..], ArenaOf(x), d)| == |FreeOf(h.lists[d], ArenaOf(x), d)| - 1
    ensures |FreeOf(h.lists[d], ArenaOf(x), d)| <= PerArena(d)
  {
    hide Block, PerArena;
    assert x in h.lists[d] && IsBlock(h, x, d);
    var a := ArenaOf(x);
    var idx: nat :| idx < PerArena(d) && x == Block(a, d, idx);
    FreeBound(h.lists[d], a, d);
    assert h.lists[d] == [x] + h.lists[d][1..];
    assert x !in h.lists[d][1..];
    forall j: nat | j < PerArena(d) && j != idx
      ensures Block(a, d, j) != x
    {
      if Block(a, d, j) == x {
        BlockUnique(a, d, j, idx);
      }
    }
    assert FreeOf(h.lists[d], a, d) == FreeOf(h.lists[d][1..], a, d) + {idx};
  }

  lemma FreeBound(list: seq<nat>, a: nat, d: nat)
    ensures |FreeOf(list, a, d)| <= PerArena(d)
  {
    hide Block, PerArena;
    SubsetSize(FreeOf(list, a, d), Upto(PerArena(d)));
  }

  lemma {:induction false} SubsetSize(s: set<nat>, t: set<nat>)
    requires s <= t
    ensures |s| <= |t| && (|s| == |t| ==> s == t)
  {
    if s != {} {
      var x :| x in s;
      SubsetSize(s - {x}, t - {x});
      assert s == s - {x} + {x} && t == t - {x} + {x};
    }
  }

  /** Lists that differ in X only have the same blocks of other arenas. */
  lemma FreeElsewhere(list: seq<nat>, list': seq<nat>, x: nat, b: nat, d: nat)
    requires d < DESC_CNT && b != ArenaOf(x) && forall y :: y != x ==> (y in list <==> y in list')
    ensures FreeOf(list', b, d) == FreeOf(list, b, d)
  {
    hide Block, PerArena;
    forall idx: nat | idx < PerArena(d)
      ensures Block(b, d, idx) != x
    {
      BlockArena(b, d, idx);
    }
  }

  lemma TakenInv(h: Heap, w: Heap, d: nat, size: nat, newest: Option<nat>)
    requires Inv(h, newest) && Taken(h, w, d, size) && size <= BlockSize(d) && (newest.None? || newest == Some(ArenaOf(h.lists[d][0])))
    ensures Inv(w, None)
  {
    hide PagesOk, ListsOk, LiveOk, Complete, CountsOk, BlockSize;
    SamePages(h, w);
    TakenLists(h, w, d, size);
    TakenLive(h, w, d, size);
    TakenComplete(h, w, d, size);
    TakenCounts(h, w, d, size, newest);
  }

  // ----- a block comes back ------------------------------------------------------------------------------------------

  /** Block X of a small arena goes to the front of its list. */
  ghost predicate Returned(h: Heap, w: Heap, x: nat, d: nat) {
    && |h.lists| == DESC_CNT && d < DESC_CNT && x in h.live && IsBlock(h, x, d)
    && w == h.(lists := h.lists[d := [x] + h.lists[d]], live := h.live - {x},
               arenas := h.arenas[ArenaOf(x) := h.arenas[ArenaOf(x)].(freeCnt := h.arenas[ArenaOf(x)].freeCnt + 1)])
  }

  lemma ReturnedLists(h: Heap, w: Heap, x: nat, d: nat)
    requires ListsOk(h) && Returned(h, w, x, d)
    ensures ListsOk(w)
  {
    hide IsBlock;
    BlockFacts(h, x, d);
    assert x !in h.lists[d];
    forall e, y | 0 <= e < DESC_CNT && y in w.lists[e]
      ensures IsBlock(w, y, e) && y !in w.live
    {
      assert y == x || (y in h.lists[e] && IsBlock(h, y, e));
      SameBlock(h, w, y, e);
    }
  }

  lemma ReturnedLive(h: Heap, w: Heap, x: nat, d: nat)
    requires LiveOk(h) && Returned(h, w, x, d)
    ensures LiveOk(w)
  {
    hide Block, PerArena, BlockSize, IsBlock;
    BlockFacts(h, x, d);
    forall y | y in w.live
      ensures && ArenaOf(y) in w.arenas
              && (if w.arenas[ArenaOf(y)].Small? then IsBlock(w, y, w.arenas[ArenaOf(y)].desc) else y == 4096 * ArenaOf(y) + 12)
              && (w.live[y] <= Capacity(w, y) <==> w.live[y] + 12 <= 0x1_0000_0000)
    {
      if w.arenas[ArenaOf(y)].Small? {
        SameBlock(h, w, y, w.arenas[ArenaOf(y)].desc);
      }
    }
  }

  lemma ReturnedComplete(h: Heap, w: Heap, x: nat, d: nat)
    requires Returned(h, w, x, d) && Complete(h) && PagesOk(h)
    ensures Complete(w)
  {
    hide Block, PerArena, PagesOk;
    forall b | b in w.arenas
      ensures if w.arenas[b].Small? then AllPlaced(w, b, w.arenas[b].desc) else 4096 * b + 12 in w.live
    {
      if w.arenas[b].Small? {
        assert AllPlaced(h, b, h.arenas[b].desc);
        ReturnedPlaced(h, w, x, d, b);
      } else {
        assert ArenaOf(4096 * b + 12) == b;
      }
    }
  }

  lemma ReturnedPlaced(h: Heap, w: Heap, x: nat, d: nat, b: nat)
    requires Returned(h, w, x, d) && b in h.arenas && h.arenas[b].Small? && AllPlaced(h, b, h.arenas[b].desc)
    ensures AllPlaced(w, b, h.arenas[b].desc)
  {
    hide Block, PerArena;
    var e := h.arenas[b].desc;
    forall idx: nat | idx < PerArena(e)
      ensures Block(b, e, idx) in w.lists[e] || Block(b, e, idx) in w.live
    {
      if Block(b, e, idx) == x {
        BlockArena(b, e, idx);
      }
    }
  }

  lemma ReturnedCounts(h: Heap, w: Heap, x: nat, d: nat)
    requires ListsOk(h) && CountsOk(h, None) && Returned(h, w, x, d)
    ensures CountsOk(w, Some(ArenaOf(x)))
    ensures w.arenas[ArenaOf(x)].freeCnt <= PerArena(d)
  {
    hide Block, PerArena, IsBlock;
    BlockFacts(h, x, d);
    forall b | b in w.arenas && w.arenas[b].Small?
      ensures Counted(w, b, w.arenas[b].desc, Some(ArenaOf(x)))
    {
      assert Counted(h, b, h.arenas[b].desc, None);
      if b == ArenaOf(x) {
        FreeMore(h, x, d);
      } else if w.arenas[b].desc == d {
        FreeElsewhere(h.lists[d], w.lists[d], x, b, d);
      }
    }
    assert Counted(w, ArenaOf(x), d, Some(ArenaOf(x)));
    FreeBound(w.lists[d], ArenaOf(x), d);
  }

  lemma FreeMore(h: Heap, x: nat, d: nat)
    requires ListsOk(h) && d < DESC_CNT && x in h.live && IsBlock(h, x, d)
    ensures |FreeOf([x] + h.lists[d], ArenaOf(x), d)| == |FreeOf(h.lists[d], ArenaOf(x), d)| + 1
  {
    hide Block, PerArena;
    var a := ArenaOf(x);
    var idx: nat :| idx < PerArena(d) && x == Block(a, d, idx);
    assert x !in h.lists[d];
    forall j: nat | j < PerArena(d) && j != idx
      ensures Block(a, d, j) != x
    {
      if Block(a, d, j) == x {
        BlockUnique(a, d, j, idx);
      }
    }
    assert FreeOf([x] + h.lists[d], a, d) == FreeOf(h.lists[d], a, d) + {idx};
  }

  lemma ReturnedInv(h: Heap, w: Heap, x: nat, d: nat)
    requires Inv(h, None) && Returned(h, w, x, d)
    ensures Inv(w, Some(ArenaOf(x))) && w.arenas[ArenaOf(x)].freeCnt <= PerArena(d)
    ensures w.arenas[ArenaOf(x)].freeCnt < PerArena(d) ==> Inv(w, None)
  {
    hide PagesOk, ListsOk, LiveOk, Complete, PerArena, IsBlock, FreeOf;
    BlockFacts(h, x, d);
    SamePages(h, w);
    ReturnedLists(h, w, x, d);
    ReturnedLive(h, w, x, d);
    ReturnedComplete(h, w, x, d);
    ReturnedCounts(h, w, x, d);
  }

  // ----- an unused arena goes ------------------------------------------------------------------------------------------

  /** Arena A of descriptor D, all of whose blocks are listed, is given back. */
  ghost predicate Dissolved(h: Heap, w: Heap, a: nat, d: nat) {
    && |h.lists| == DESC_CNT && d < DESC_CNT && a in h.arenas && h.arenas[a] == Small(d, PerArena(d)) && a < |h.used|
    && |w.lists| == DESC_CNT && Distinct(w.lists[d]) && (forall x :: x in w.lists[d] <==> x in h.lists[d] && ArenaOf(x) != a)
    && w == h.(used := h.used[a := false], arenas := h.arenas - {a}, lists := h.lists[d := w.lists[d]], owner := h.owner - {a})
  }

  /** Pages of A alone are released. */
  ghost predicate Shrunk(h: Heap, w: Heap, a: nat, n: nat) {
    && w.foreign == h.foreign && a in h.arenas && Span(h.arenas[a]) == n && a + n <= |h.used|
    && |w.used| == |h.used| && (forall p :: 0 <= p < |h.used| ==> w.used[p] == (h.used[p] && !(a <= p < a + n)))
    && (forall p: nat :: p in w.owner <==> p in h.owner && !(a <= p < a + n))
    && (forall p :: p in w.owner ==> w.owner[p] == h.owner[p])
    && w.arenas == h.arenas - {a}
  }

  lemma ShrunkPages(h: Heap, w: Heap, a: nat, n: nat)
    requires PagesOk(h) && Shrunk(h, w, a, n)
    ensures PagesOk(w)
  {
    hide OwnersOk, ArenasOk, Shrunk;
    ShrunkOwners(h, w, a, n);
    ShrunkArenas(h, w, a, n);
  }

  lemma ShrunkOwners(h: Heap, w: Heap, a: nat, n: nat)
    requires OwnersOk(h) && ArenasOk(h) && Shrunk(h, w, a, n)
    ensures OwnersOk(w)
  {
    hide Span;
  }

  lemma ShrunkArenas(h: Heap, w: Heap, a: nat, n: nat)
    requires ArenasOk(h) && Shrunk(h, w, a, n)
    ensures ArenasOk(w)
  {
    hide Span;
    forall b, p: nat | b in w.arenas && b <= p < b + Span(w.arenas[b])
      ensures p in w.owner && w.owner[p] == b
    {
      assert p in h.owner && h.owner[p] == b;
    }
  }

  lemma AllListed(h: Heap, a: nat, d: nat)
    requires ListsOk(h) && CountsOk(h, Some(a)) && d < DESC_CNT && a in h.arenas && h.arenas[a] == Small(d, PerArena(d))
    ensures forall idx: nat :: idx < PerArena(d) ==> Block(a, d, idx) in h.lists[d]
  {
    hide Block, PerArena, IsBlock;
    assert Counted(h, a, d, Some(a));
    SubsetSize(FreeOf(h.lists[d], a, d), Upto(PerArena(d)));
    forall idx: nat | idx < PerArena(d)
      ensures Block(a, d, idx) in h.lists[d]
    {
      assert idx in Upto(PerArena(d));
    }
  }

  /** All its blocks being listed, none is in use. */
  lemma NoneLive(h: Heap, a: nat, d: nat, x: nat)
    requires ListsOk(h) && LiveOk(h) && CountsOk(h, Some(a)) && x in h.live
    requires d < DESC_CNT && a in h.arenas && h.arenas[a] == Small(d, PerArena(d))
    ensures ArenaOf(x) != a
  {
    hide Block, PerArena, CountsOk;
    AllListed(h, a, d);
    assert ArenaOf(x) == a ==> IsBlock(h, x, d);
  }

  lemma DissolvedLists(h: Heap, w: Heap, a: nat, d: nat)
    requires ListsOk(h) && Dissolved(h, w, a, d)
    ensures ListsOk(w)
  {
    hide Block, PerArena;
    forall e, x | 0 <= e < DESC_CNT && x in w.lists[e]
      ensures IsBlock(w, x, e) && x !in w.live
    {
      assert x in h.lists[e] && IsBlock(h, x, e);
    }
  }

  lemma DissolvedLive(h: Heap, w: Heap, a: nat, d: nat)
    requires ListsOk(h) && LiveOk(h) && CountsOk(h, Some(a)) && Dissolved(h, w, a, d)
    ensures LiveOk(w)
  {
    hide Block, PerArena, BlockSize, ListsOk, CountsOk;
    forall x | x in w.live
      ensures && ArenaOf(x) in w.arenas
              && (if w.arenas[ArenaOf(x)].Small? then IsBlock(w, x, w.arenas[ArenaOf(x)].desc) else x == 4096 * ArenaOf(x) + 12)
              && (w.live[x] <= Capacity(w, x) <==> w.live[x] + 12 <= 0x1_0000_0000)
    {
      NoneLive(h, a, d, x);
      assert h.arenas[ArenaOf(x)].Small? ==> IsBlock(h, x, h.arenas[ArenaOf(x)].desc);
    }
  }

  lemma DissolvedComplete(h: Heap, w: Heap, a: nat, d: nat)
    requires Dissolved(h, w, a, d) && Complete(h)
    ensures Complete(w)
  {
    hide Block, PerArena;
    forall b | b in w.arenas && w.arenas[b].Small?
      ensures AllPlaced(w, b, w.arenas[b].desc)
    {
      assert AllPlaced(h, b, h.arenas[b].desc);
      forall idx: nat | idx < PerArena(w.arenas[b].desc)
        ensures ArenaOf(Block(b, w.arenas[b].desc, idx)) != a
      {
        BlockArena(b, w.arenas[b].desc, idx);
      }
    }
  }

  lemma DissolvedCounts(h: Heap, w: Heap, a: nat, d: nat)
    requires Dissolved(h, w, a, d) && CountsOk(h, Some(a))
    ensures CountsOk(w, None)
  {
    hide Block, PerArena;
    forall b | b in w.arenas && w.arenas[b].Small?
      ensures Counted(w, b, w.arenas[b].desc, None)
    {
      var e := w.arenas[b].desc;
      assert Counted(h, b, e, Some(a));
      forall idx: nat | idx < PerArena(e)
        ensures ArenaOf(Block(b, e, idx)) != a
      {
        BlockArena(b, e, idx);
      }
      assert FreeOf(w.lists[e], b, e) == FreeOf(h.lists[e], b, e);
    }
  }

  lemma DissolvedInv(h: Heap, w: Heap, a: nat, d: nat)
    requires Inv(h, Some(a)) && Dissolved(h, w, a, d)
    ensures Inv(w, None)
  {
    hide PagesOk, ListsOk, LiveOk, Complete, CountsOk, PerArena;
    assert Shrunk(h, w, a, 1);
    ShrunkPages(h, w, a, 1);
    DissolvedLists(h, w, a, d);
    DissolvedLive(h, w, a, d);
    DissolvedComplete(h, w, a, d);
    DissolvedCounts(h, w, a, d);
  }

  // ----- big blocks -----------------------------------------------------------------------------------------------------

  /** The pages malloc asks for, in 32-bit arithmetic. */
  function PageCount(size: nat): nat {
    ((size + 12) % 0x1_0000_0000 + 4095) % 0x1_0000_0000 / 4096
  }

  /** The pages suffice exactly if size and header fit the address space. */
  lemma PagesSuffice(size: nat)
    requires 1024 < size < 0x1_0000_0000 && PageCount(size) > 0
    ensures size <= 4096 * PageCount(size) - 12 <==> size + 12 <= 0x1_0000_0000
  {
  }

  /** N free pages from A on become a big block of SIZE bytes. */
  ghost predicate BigTaken(h: Heap, w: Heap, a: nat, size: nat) {
    && PageCount(size) > 0 && IsGroup(h.used, a, PageCount(size), false) && 1024 < size < 0x1_0000_0000
    && w == h.(used := SetRange(h.used, a, PageCount(size), true), arenas := h.arenas[a := Big(PageCount(size))],
               owner := w.owner, live := h.live[4096 * a + 12 := size])
    && (forall p: nat :: p in w.owner <==> p in h.owner || a <= p < a + PageCount(size))
    && (forall p: nat :: p in w.owner ==> w.owner[p] == if a <= p < a + PageCount(size) then a else h.owner[p])
  }

  lemma BigPages(h: Heap, w: Heap, a: nat, size: nat)
    requires PagesOk(h) && BigTaken(h, w, a, size)
    ensures PagesOk(w) && a !in h.arenas
  {
    hide PageCount, OwnersOk, ArenasOk;
    assert a < |h.used| && !h.used[a];
    NewArena(h, a);
    ExtendedPages(h, w, a, PageCount(size));
  }

  lemma BigLists(h: Heap, w: Heap, a: nat, size: nat)
    requires ListsOk(h) && BigTaken(h, w, a, size) && a !in h.arenas
    ensures ListsOk(w)
  {
    hide PageCount, Block, PerArena;
    forall d, x | 0 <= d < DESC_CNT && x in w.lists[d]
      ensures IsBlock(w, x, d) && x !in w.live
    {
      assert IsBlock(h, x, d);
    }
  }

  lemma BigLive(h: Heap, w: Heap, a: nat, size: nat)
    requires LiveOk(h) && BigTaken(h, w, a, size) && a !in h.arenas
    ensures LiveOk(w)
  {
    hide PageCount, Block, PerArena, BlockSize;
    PagesSuffice(size);
    forall x | x in w.live
      ensures && ArenaOf(x) in w.arenas
              && (if w.arenas[ArenaOf(x)].Small? then IsBlock(w, x, w.arenas[ArenaOf(x)].desc) else x == 4096 * ArenaOf(x) + 12)
              && (w.live[x] <= Capacity(w, x) <==> w.live[x] + 12 <= 0x1_0000_0000)
    {
      if x != 4096 * a + 12 {
        assert h.arenas[ArenaOf(x)].Small? ==> IsBlock(h, x, h.arenas[ArenaOf(x)].desc);
      }
    }
  }

  lemma BigComplete(h: Heap, w: Heap, a: nat, size: nat)
    requires |h.lists| == DESC_CNT && Complete(h) && BigTaken(h, w, a, size) && a !in h.arenas
    ensures Complete(w)
  {
    hide PageCount, Block, PerArena;
    forall b | b in w.arenas && w.arenas[b].Small?
      ensures AllPlaced(w, b, w.arenas[b].desc)
    {
      assert AllPlaced(h, b, h.arenas[b].desc);
    }
  }

  lemma BigCounts(h: Heap, w: Heap, a: nat, size: nat)
    requires |h.lists| == DESC_CNT && CountsOk(h, None) && BigTaken(h, w, a, size) && a !in h.arenas
    ensures CountsOk(w, None)
  {
    hide PageCount, FreeOf, PerArena;
    forall b | b in w.arenas && w.arenas[b].Small?
      ensures Counted(w, b, w.arenas[b].desc, None)
    {
      assert Counted(h, b, h.arenas[b].desc, None);
    }
  }

  lemma BigTakenInv(h: Heap, w: Heap, a: nat, size: nat)
    requires Inv(h, None) && BigTaken(h, w, a, size)
    ensures Inv(w, None)
  {
    hide PagesOk, ListsOk, LiveOk, Complete, CountsOk, BigTaken;
    BigPages(h, w, a, size);
    BigLists(h, w, a, size);
    HasLists(h);
    BigLive(h, w, a, size);
    BigComplete(h, w, a, size);
    BigCounts(h, w, a, size);
  }

  /** The big block of arena A is given back. */
  ghost predicate BigFreed(h: Heap, w: Heap, a: nat, n: nat) {
    && a in h.arenas && h.arenas[a] == Big(n) && a + n <= |h.used|
    && w == h.(used := SetRange(h.used, a, n, false), arenas := h.arenas - {a}, owner := w.owner, live := h.live - {4096 * a + 12})
    && (forall p: nat :: p in w.owner <==> p in h.owner && !(a <= p < a + n))
    && (forall p :: p in w.owner ==> w.owner[p] == h.owner[p])
  }

  lemma BigFreedRest(h: Heap, w: Heap, a: nat, n: nat)
    requires Inv(h, None) && BigFreed(h, w, a, n)
    ensures ListsOk(w) && LiveOk(w)
  {
    hide PagesOk, Complete, CountsOk, Block, PerArena, BlockSize;
    forall d, x | 0 <= d < DESC_CNT && x in w.lists[d]
      ensures IsBlock(w, x, d) && x !in w.live
    {
      assert IsBlock(h, x, d);
    }
    forall x | x in w.live
      ensures && ArenaOf(x) in w.arenas
              && (if w.arenas[ArenaOf(x)].Small? then IsBlock(w, x, w.arenas[ArenaOf(x)].desc) else x == 4096 * ArenaOf(x) + 12)
              && (w.live[x] <= Capacity(w, x) <==> w.live[x] + 12 <= 0x1_0000_0000)
    {
      assert h.arenas[ArenaOf(x)].Small? ==> IsBlock(h, x, h.arenas[ArenaOf(x)].desc);
    }
  }

  lemma BigFreedPlaces(h: Heap, w: Heap, a: nat, n: nat)
    requires Inv(h, None) && BigFreed(h, w, a, n)
    ensures |w.lists| == DESC_CNT && Complete(w) && CountsOk(w, None)
  {
    hide PagesOk, LiveOk, Block, PerArena, FreeOf, IsBlock;
    forall b | b in w.arenas && w.arenas[b].Small?
      ensures AllPlaced(w, b, w.arenas[b].desc) && Counted(w, b, w.arenas[b].desc, None)
    {
      assert AllPlaced(h, b, h.arenas[b].desc) && Counted(h, b, h.arenas[b].desc, None);
      forall idx: nat | idx < PerArena(w.arenas[b].desc)
        ensures Block(b, w.arenas[b].desc, idx) != 4096 * a + 12
      {
        BlockArena(b, w.arenas[b].desc, idx);
      }
    }
  }

  lemma BigFreedInv(h: Heap, w: Heap, a: nat, n: nat)
    requires Inv(h, None) && BigFreed(h, w, a, n)
    ensures Inv(w, None)
  {
    hide OwnersOk, ArenasOk, ListsOk, LiveOk, Complete, CountsOk;
    assert Shrunk(h, w, a, n);
    ShrunkPages(h, w, a, n);
    BigFreedRest(h, w, a, n);
    BigFreedPlaces(h, w, a, n);
  }

  // ----- the allocator ---------------------------------------------------------------------------------------------------

  class Allocator {
    const used: Bitmap
    var arenas: map<nat, Arena>
    var lists: seq<seq<nat>>
    ghost var live: map<nat, nat>
    ghost var owner: map<nat, nat>
    ghost var foreign: set<nat>

    ghost function H(): Heap
      requires used.Valid()
      reads this, used.bits
    {
      Heap(used.Bits(), arenas, lists, live, owner, foreign)
    }

    ghost predicate Valid()
      reads this, used, used.bits
    {
      used.Valid() && Inv(H(), None)
    }

    constructor (pages: nat)
      ensures Valid() && live == map[] && foreign == {} && fresh(used) && fresh(used.bits)
    {
      used := new Bitmap(pages);
      arenas, lists, live, owner, foreign := map[], seq(DESC_CNT, _ => []), map[], map[], {};
    }

    /** palloc_get_multiple from the kernel pool. */
    method GetPages(cnt: nat) returns (r: Option<nat>)
      requires used.Valid()
      modifies used.bits
      ensures r.Some? ==> cnt > 0 && IsGroup(old(used.Bits()), r.value, cnt, false)
      ensures used.Bits() == if r.Some? then SetRange(old(used.Bits()), r.value, cnt, true) else old(used.Bits())
      ensures r.None? && cnt > 0 ==> forall k: nat :: !IsGroup(old(used.Bits()), k, cnt, false)
    {
      if cnt == 0 {
        return None;
      }
      r := used.ScanAndFlip(0, cnt, false);
    }

    /** Somebody else, such as thread_create, takes CNT pages from the pool. */
    method TakePages(cnt: nat) returns (r: Option<nat>)
      requires Valid()
      modifies `foreign, used.bits
      ensures Valid() && (r.Some? <==> cnt > 0 && exists k :: IsGroup(old(used.Bits()), k, cnt, false))
      ensures r.Some? ==> IsGroup(old(used.Bits()), r.value, cnt, false)
      ensures foreign == if r.Some? then old(foreign) + Pages(r.value, cnt) else old(foreign)
    {
      hide Inv, SetRange;
      ghost var h := H();
      r := GetPages(cnt);
      if r.Some? {
        foreign := foreign + Pages(r.value, cnt);
        ForeignTaken(h, H(), r.value, cnt);
      }
    }

    /** And gives them back. */
    method GivePages(page: nat, cnt: nat)
      requires Valid() && forall p :: page <= p < page + cnt ==> p in foreign
      modifies `foreign, used.bits
      ensures Valid() && foreign == old(foreign) - Pages(page, cnt)
    {
      hide Inv, SetRange;
      ghost var h := H();
      ForeignMarked(h, page, cnt);
      if cnt > 0 {
        used.SetMultiple(page, cnt, false);
      }
      foreign := foreign - Pages(page, cnt);
      ForeignGiven(h, H(), page, cnt);
    }

    /** The loop of malloc over the descriptors. */
    method FindDescriptor(size: nat) returns (d: nat)
      ensures d <= DESC_CNT && (d < DESC_CNT ==> size <= BlockSize(d)) && forall e :: 0 <= e < d ==> BlockSize(e) < size
      ensures d == DESC_CNT <==> size > 1024
    {
      d := 0;
      while d < DESC_CNT && BlockSize(d) < size
        invariant d <= DESC_CNT && forall e :: 0 <= e < d ==> BlockSize(e) < size
      {
        d := d + 1;
      }
      assert d == DESC_CNT ==> BlockSize(6) < size;
    }

    /** A new arena for descriptor D, whose free list is empty. */
    method NewSmallArena(d: nat) returns (r: Option<nat>)
      requires Valid() && d < DESC_CNT && lists[d] == []
      modifies this, used.bits
      ensures used.Valid() && live == old(live) && foreign == old(foreign)
      ensures r.None? ==> H() == old(H())
      ensures r.None? <==> forall p :: 0 <= p < used.bitCnt ==> old(used.Bits())[p]
      ensures r.Some? ==> Inv(H(), r) && lists[d] != [] && ArenaOf(lists[d][0]) == r.value
    {
      hide Inv, PerArena, Block;
      ghost var h := H();
      HasSeven(h);
      r := GetPages(1);
      if r.None? {
        forall p | 0 <= p < |h.used|
          ensures h.used[p]
        {
          assert !IsGroup(h.used, p, 1, false);
        }
        return;
      }
      var a := r.value;
      assert used.Bits() == h.used[a := true] by {
        assert h.used[a] == false;
      }
      arenas := arenas[a := Small(d, PerArena(d))];
      owner := owner[a := a];
      var list: seq<nat> := [];
      for i := 0 to PerArena(d)
        invariant list == BlocksOf(a, d, i)
      {
        list := list + [Block(a, d, i)];
      }
      lists := lists[d := list];
      assert Carved(h, H(), a, d);
      CarvedInv(h, H(), a, d);
      BlockArena(a, d, 0);
    }

    /** malloc. */
    method Malloc(size: nat) returns (r: Option<nat>)
      requires Valid() && size < 0x1_0000_0000
      modifies this, used.bits
      ensures Valid() && foreign == old(foreign)
      ensures r.None? ==> H() == old(H())
      ensures r.Some? <==> CanServe(old(H()), size)
      ensures r.Some? ==> r.value !in old(live) && live == old(live)[r.value := size]
    {
      hide Inv, BlockSize, PerArena, PageCount, IsGroup, CanServe;
      ghost var h := H();
      if size == 0 {
        ServedBy(h, size, 0);
        return None;
      }
      var d := FindDescriptor(size);
      ServedBy(h, size, d);
      if d == DESC_CNT {
        r := MallocBig(size);
        return;
      }
      r := MallocSmall(size, d);
    }

    /** malloc of at most a kilobyte: the first block on the list of D, after a page was divided if need be. */
    method MallocSmall(size: nat, d: nat) returns (r: Option<nat>)
      requires Valid() && d < DESC_CNT && 0 < size <= BlockSize(d)
      modifies this, used.bits
      ensures Valid() && foreign == old(foreign)
      ensures r.None? ==> H() == old(H())
      ensures |old(lists)| == DESC_CNT && (r.Some? <==> old(lists)[d] != [] || exists p :: 0 <= p < used.bitCnt && !old(used.Bits())[p])
      ensures r.Some? ==> r.value !in old(live) && live == old(live)[r.value := size]
    {
      hide Inv, BlockSize, PerArena;
      ghost var h := H();
      HasSeven(h);
      ghost var newest: Option<nat> := None;
      if lists[d] == [] {
        var a := NewSmallArena(d);
        if a.None? {
          return None;
        }
        newest := a;
      }
      ghost var u := H();
      HasSevenNow(u, newest);
      FrontBlock(u, d, newest);
      var b := lists[d][0];
      lists := lists[d := lists[d][1..]];
      arenas := arenas[ArenaOf(b) := arenas[ArenaOf(b)].(freeCnt := arenas[ArenaOf(b)].freeCnt - 1)];
      live := live[b := size];
      assert Taken(u, H(), d, size);
      TakenInv(u, H(), d, size, newest);
      return Some(b);
    }

    /** malloc of more than a kilobyte: whole pages. */
    method MallocBig(size: nat) returns (r: Option<nat>)
      requires Valid() && 1024 < size < 0x1_0000_0000
      modifies this, used.bits
      ensures Valid() && foreign == old(foreign)
      ensures r.None? ==> H() == old(H())
      ensures r.Some? <==> PageCount(size) > 0 && exists k :: IsGroup(old(used.Bits()), k, PageCount(size), false)
      ensures r.Some? ==> r.value !in old(live) && live == old(live)[r.value := size]
    {
      hide Inv, PageCount, Owning, SetRange;
      ghost var h := H();
      var n := PageCount(size);
      var page := GetPages(n);
      if page.None? {
        return None;
      }
      var a := page.value;
      arenas := arenas[a := Big(n)];
      owner := Owning(owner, a, n);
      live := live[4096 * a + 12 := size];
      assert BigTaken(h, H(), a, size);
      BigTakenInv(h, H(), a, size);
      NewBig(h, a, size);
      return Some(4096 * a + 12);
    }

    /** The blocks of arena A are taken off LIST one by one. */
    method RemoveBlocks(list: seq<nat>, a: nat, d: nat) returns (left: seq<nat>)
      requires d < DESC_CNT && Distinct(list)
      requires forall x :: x in list && ArenaOf(x) == a ==> exists idx: nat :: idx < PerArena(d) && x == Block(a, d, idx)
      ensures Distinct(left) && forall x :: x in left <==> x in list && ArenaOf(x) != a
    {
      hide Block, PerArena;
      left := list;
      for i := 0 to PerArena(d)
        invariant Distinct(left)
        invariant forall x :: x in left <==> x in list && !exists idx: nat :: idx < i && x == Block(a, d, idx)
      {
        DroppedDistinct(left, Block(a, d, i));
        left := Dropped(left, Block(a, d, i));
      }
      forall idx: nat | idx < PerArena(d)
        ensures ArenaOf(Block(a, d, idx)) == a
      {
        BlockArena(a, d, idx);
      }
    }

    /** free. */
    method Free(p: Option<nat>)
      requires Valid() && (p.Some? ==> p.value in live)
      modifies this, used.bits
      ensures Valid() && foreign == old(foreign) && live == if p.Some? then old(live) - {p.value} else old(live)
    {
      hide Inv, BlockSize, PerArena, IsBlock;
      if p.None? {
        return;
      }
      var x := p.value;
      var a := ArenaOf(x);
      ghost var h := H();
      LiveBlock(h, x);
      if arenas[a].Big? {
        FreeBig(a);
        return;
      }
      var d := arenas[a].desc;
      HasSeven(h);
      lists := lists[d := [x] + lists[d]];
      arenas := arenas[a := arenas[a].(freeCnt := arenas[a].freeCnt + 1)];
      live := live - {x};
      ghost var u := H();
      assert Returned(h, u, x, d);
      ReturnedInv(h, u, x, d);
      if arenas[a].freeCnt >= PerArena(d) {
        Dissolve(a, d);
      }
    }

    /** An arena with no block in use goes back to the page allocator. */
    method Dissolve(a: nat, d: nat)
      requires used.Valid() && Inv(H(), Some(a)) && d < DESC_CNT && a in arenas && arenas[a] == Small(d, PerArena(d)) && a < used.bitCnt
      modifies `lists, `arenas, `owner, used.bits
      ensures Valid()
    {
      hide Inv, BlockSize, PerArena, IsBlock, Bitmap.Bits;
      ghost var u := H();
      HasSevenNow(u, Some(a));
      ListedBlocks(u, a, d);
      var left := RemoveBlocks(lists[d], a, d);
      lists := lists[d := left];
      arenas, owner := arenas - {a}, owner - {a};
      used.SetMultiple(a, 1, false);
      assert used.Bits() == u.used[a := false];
      assert Dissolved(u, H(), a, d);
      DissolvedInv(u, H(), a, d);
    }

    /** palloc_free_multiple for the pages of a big block. */
    method FreeBig(a: nat)
      requires Valid() && a in arenas && arenas[a].Big? && a + arenas[a].pages <= used.bitCnt
      modifies this, used.bits
      ensures Valid() && foreign == old(foreign) && live == old(live) - {4096 * a + 12}
    {
      hide Inv, SetRange;
      ghost var h := H();
      var n := arenas[a].pages;
      used.SetMultiple(a, n, false);
      arenas, live := arenas - {a}, live - {4096 * a + 12};
      owner := map q | q in owner && !(a <= q < a + n) :: owner[q];
      assert BigFreed(h, H(), a, n);
      BigFreedInv(h, H(), a, n);
    }
  }

  /** When malloc succeeds: a block of the smallest fitting size is listed, or a page is free for more; a big
      request needs that many free pages in a row. */
  ghost predicate CanServe(h: Heap, size: nat) {
    && size > 0
    && if size <= 1024 then
         (exists d :: 0 <= d < |h.lists| && Smallest(size, d) && h.lists[d] != []) || exists p :: 0 <= p < |h.used| && !h.used[p]
       else
         PageCount(size) > 0 && exists k :: IsGroup(h.used, k, PageCount(size), false)
  }

  ghost predicate Smallest(size: nat, d: nat) {
    size <= BlockSize(d) && forall e :: 0 <= e < d ==> BlockSize(e) < size
  }

  lemma ServedBy(h: Heap, size: nat, d: nat)
    requires Inv(h, None) && d <= DESC_CNT && (d < DESC_CNT && size > 0 ==> Smallest(size, d)) && (size > 0 ==> (d == DESC_CNT <==> size > 1024))
    ensures |h.lists| == DESC_CNT && (CanServe(h, size) ==> size > 0)
    ensures size > 0 && d < DESC_CNT ==> (CanServe(h, size) <==> h.lists[d] != [] || exists p :: 0 <= p < |h.used| && !h.used[p])
    ensures size > 0 && d == DESC_CNT ==>
      (CanServe(h, size) <==> PageCount(size) > 0 && exists k :: IsGroup(h.used, k, PageCount(size), false))
  {
    hide PagesOk, LiveOk, Complete, CountsOk, BlockSize, IsBlock, PageCount, IsGroup;
    forall e | 0 <= e < |h.lists| && size > 0 && d < DESC_CNT && Smallest(size, e)
      ensures e == d
    {
      assert size <= BlockSize(e) && size <= BlockSize(d);
    }
  }

  ghost function Pages(page: nat, cnt: nat): (s: set<nat>)
    ensures forall p: nat :: p in s <==> page <= p < page + cnt
  {
    Upto(page + cnt) - Upto(page)
  }

  /** Pages others take or give back are none of malloc's. */
  lemma ForeignTaken(h: Heap, w: Heap, page: nat, cnt: nat)
    requires Inv(h, None) && IsGroup(h.used, page, cnt, false)
    requires w == h.(used := SetRange(h.used, page, cnt, true), foreign := h.foreign + Pages(page, cnt))
    ensures Inv(w, None)
  {
    hide ArenasOk, ListsOk, LiveOk, Complete, CountsOk;
    ForeignAside(h, w);
  }

  lemma ForeignMarked(h: Heap, page: nat, cnt: nat)
    requires Inv(h, None) && forall p :: page <= p < page + cnt ==> p in h.foreign
    ensures cnt > 0 ==> page + cnt <= |h.used|
  {
    hide ArenasOk, ListsOk, LiveOk, Complete, CountsOk;
    assert cnt > 0 ==> page + cnt - 1 in h.foreign;
  }

  lemma ForeignGiven(h: Heap, w: Heap, page: nat, cnt: nat)
    requires Inv(h, None) && (forall p :: page <= p < page + cnt ==> p in h.foreign) && (cnt > 0 ==> page + cnt <= |h.used|)
    requires w == h.(used := if cnt > 0 then SetRange(h.used, page, cnt, false) else h.used,
                     foreign := h.foreign - Pages(page, cnt))
    ensures Inv(w, None)
  {
    hide ArenasOk, ListsOk, LiveOk, Complete, CountsOk;
    ForeignAside(h, w);
  }

  lemma ForeignAside(h: Heap, w: Heap)
    requires ArenasOk(h) && ListsOk(h) && LiveOk(h) && Complete(h) && CountsOk(h, None)
    requires w == h.(used := w.used, foreign := w.foreign)
    ensures ArenasOk(w) && ListsOk(w) && LiveOk(w) && Complete(w) && CountsOk(w, None)
  {
    hide ListsOk, LiveOk, Complete, CountsOk;
    HasLists(h);
    ListsAside(h, w);
    LiveAside(h, w);
    PlacesAside(h, w);
  }

  lemma ListsAside(h: Heap, w: Heap)
    requires ListsOk(h) && w == h.(used := w.used, foreign := w.foreign)
    ensures ListsOk(w)
  {
    hide IsBlock;
    forall d, x | 0 <= d < DESC_CNT && x in w.lists[d]
      ensures IsBlock(w, x, d)
    {
      assert IsBlock(h, x, d);
      SameBlock(h, w, x, d);
    }
  }

  lemma LiveAside(h: Heap, w: Heap)
    requires LiveOk(h) && w == h.(used := w.used, foreign := w.foreign)
    ensures LiveOk(w)
  {
    hide IsBlock, BlockSize;
    forall x | x in w.live && w.arenas[ArenaOf(x)].Small?
      ensures IsBlock(w, x, w.arenas[ArenaOf(x)].desc)
    {
      assert IsBlock(h, x, h.arenas[ArenaOf(x)].desc);
      SameBlock(h, w, x, h.arenas[ArenaOf(x)].desc);
    }
  }

  lemma PlacesAside(h: Heap, w: Heap)
    requires |h.lists| == DESC_CNT && Complete(h) && CountsOk(h, None) && w == h.(used := w.used, foreign := w.foreign)
    ensures Complete(w) && CountsOk(w, None)
  {
    hide Block, PerArena, FreeOf;
    forall b | b in w.arenas && w.arenas[b].Small?
      ensures AllPlaced(w, b, w.arenas[b].desc) && Counted(w, b, w.arenas[b].desc, None)
    {
      assert AllPlaced(h, b, h.arenas[b].desc) && Counted(h, b, h.arenas[b].desc, None);
    }
  }

  /** OWNER with the N pages from A on given to A. */
  ghost function Owning(owner: map<nat, nat>, a: nat, n: nat): (r: map<nat, nat>)
    ensures forall p: nat :: p in r <==> p in owner || a <= p < a + n
    ensures forall p: nat :: p in r ==> r[p] == if a <= p < a + n then a else owner[p]
  {
    var pages := Upto(a + n) - Upto(a);
    owner + map p | p in pages :: a
  }

  function Dropped(s: seq<nat>, x: nat): (r: seq<nat>)
    ensures forall y :: y in r <==> y in s && y != x
  {
    if s == [] then []
    else
      var rest := Dropped(s[1..], x);
      if s[0] == x then rest else [s[0]] + rest
  }

  lemma {:induction false} DroppedDistinct(s: seq<nat>, x: nat)
    requires Distinct(s)
    ensures Distinct(Dropped(s, x))
  {
    if s != [] {
      DroppedDistinct(s[1..], x);
      assert s[0] !in s[1..];
    }
  }

  lemma HasSeven(h: Heap)
    requires Inv(h, None)
    ensures |h.lists| == DESC_CNT
  {
  }

  lemma HasSevenNow(h: Heap, newest: Option<nat>)
    requires Inv(h, newest)
    ensures |h.lists| == DESC_CNT
  {
  }

  lemma NewBig(h: Heap, a: nat, size: nat)
    requires Inv(h, None) && PageCount(size) > 0 && IsGroup(h.used, a, PageCount(size), false)
    ensures 4096 * a + 12 !in h.live
  {
    hide ListsOk, Complete, CountsOk, PageCount, IsBlock;
    assert a < |h.used| && !h.used[a];
    NewArena(h, a);
    assert ArenaOf(4096 * a + 12) == a;
  }

  lemma LiveBlock(h: Heap, x: nat)
    requires Inv(h, None) && x in h.live
    ensures ArenaOf(x) in h.arenas && ArenaOf(x) < |h.used|
    ensures h.arenas[ArenaOf(x)].Small? ==> h.arenas[ArenaOf(x)].desc < DESC_CNT && IsBlock(h, x, h.arenas[ArenaOf(x)].desc)
    ensures h.arenas[ArenaOf(x)].Big? ==> x == 4096 * ArenaOf(x) + 12 && ArenaOf(x) + h.arenas[ArenaOf(x)].pages <= |h.used|
  {
    hide ListsOk, Complete, CountsOk, Block, PerArena;
    var a := ArenaOf(x);
    assert a in h.owner;
    assert h.arenas[a].Big? ==> a + h.arenas[a].pages - 1 in h.owner;
  }

  lemma ListedBlocks(h: Heap, a: nat, d: nat)
    requires Inv(h, Some(a)) && d < DESC_CNT
    ensures Distinct(h.lists[d])
    ensures forall x :: x in h.lists[d] && ArenaOf(x) == a ==> exists idx: nat :: idx < PerArena(d) && x == Block(a, d, idx)
  {
    hide PagesOk, LiveOk, Complete, CountsOk, Block, PerArena;
    forall x | x in h.lists[d] && ArenaOf(x) == a
      ensures exists idx: nat :: idx < PerArena(d) && x == Block(a, d, idx)
    {
      assert IsBlock(h, x, d);
    }
  }

  /** malloc of the largest size gets a single page. */
  lemma HugeRequest()
    ensures PageCount(0xFFFF_FFFF) == 1 && 4096 * PageCount(0xFFFF_FFFF) - 12 < 0xFFFF_FFFF
  {
  }
}
