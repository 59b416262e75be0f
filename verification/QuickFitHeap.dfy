/**
 The QuickFit allocator itself (port/src/allocator.rs, `QuickFit`), for quick
 layouts.  Its abstract state is the sequence of blocks cut from the arena so far
 and, for each, whether a client holds it or a list does.
 */
module QuickFitHeap {
  import opened Wrappers
  import opened Bits
  import Mem
  import BumpAlloc
  import opened QuickFit

  /** The first address of the arena that a block can start at. */
  function FirstBlock(base: nat): nat {
    base + BumpAlloc.AlignOffset(base, MIN_ALLOC_SIZE)
  }

  /**
   The heap invariant, with blocks cut up to address `hi`: live and listed blocks
   tile the arena from its first block to `hi`, and the lists in memory are intact.
   */
  ghost predicate Heap(base: nat, len: nat, mem: Memory, heads: seq<Option<Addr>>,
                       tiles: seq<Block>, live: map<Addr, nat>, lists: seq<seq<Addr>>, hi: nat) {
    && (forall a | base <= a < base + len :: a in mem)
    && Tiled(tiles, FirstBlock(base), hi) && (tiles == [] || hi <= base + len)
    && Partition(tiles, live, lists)
    && ListsAt(mem, heads, lists)
  }

  /** Every live block holds the same bytes in both memories. */
  ghost predicate LiveKept(mem: Memory, mem': Memory, live: map<Addr, nat>) {
    forall a | a in live :: SameBytes(mem, mem', a, a + ClassSize(live[a]))
  }

  /** The `n` bytes at `q` in `mem'` are those at `p` in `mem`. */
  ghost predicate SameContents(mem: Memory, p: Addr, mem': Memory, q: Addr, n: nat) {
    forall i | 0 <= i < n :: ByteAt(mem, p, i).Some? && ByteAt(mem', q, i) == ByteAt(mem, p, i)
  }

  function ByteAt(mem: Memory, p: Addr, i: nat): Option<Cell> {
    if p + i in mem then Some(mem[p + i]) else None
  }

  lemma LiveKeptTransitive(m0: Memory, m1: Memory, m2: Memory, live: map<Addr, nat>)
    requires LiveKept(m0, m1, live) && LiveKept(m1, m2, live)
    ensures LiveKept(m0, m2, live)
  {
    forall a | a in live
      ensures SameBytes(m0, m2, a, a + ClassSize(live[a]))
    {
      assert SameBytes(m0, m1, a, a + ClassSize(live[a])) && SameBytes(m1, m2, a, a + ClassSize(live[a]));
    }
  }

  lemma TileInArena(base: nat, len: nat, mem: Memory, heads: seq<Option<Addr>>, tiles: seq<Block>,
                    live: map<Addr, nat>, lists: seq<seq<Addr>>, hi: nat, b: Block)
    requires Heap(base, len, mem, heads, tiles, live, lists, hi) && b in tiles
    ensures base <= b.addr && b.End() <= base + len && b.k < NUM_QLISTS && BumpAlloc.Aligned(b.addr, ClassSize(b.k))
    ensures forall a | b.addr <= a < b.End() :: a in mem
  {
    var i :| 0 <= i < |tiles| && tiles[i] == b;
    TiledOrder(tiles, FirstBlock(base), hi, i, i);
  }

  /** Writing inside one tile leaves the live blocks of other tiles alone. */
  lemma OthersKept(tiles: seq<Block>, lo: nat, hi: nat, live: map<Addr, nat>, lists: seq<seq<Addr>>,
                   mem: Memory, mem': Memory, b: Block)
    requires Tiled(tiles, lo, hi) && Partition(tiles, live, lists) && b in tiles
    requires forall a | a in mem && !(b.addr <= a < b.End()) :: a in mem' && mem'[a] == mem[a]
    ensures LiveKept(mem, mem', live - {b.addr})
  {
    forall a | a in live - {b.addr}
      ensures SameBytes(mem, mem', a, a + ClassSize(live[a]))
    {
      TilesDisjoint(tiles, lo, hi, Block(a, live[a]), b);
    }
  }

  /** Freeing a live block. */
  lemma FreeLive(base: nat, len: nat, mem: Memory, heads: seq<Option<Addr>>, tiles: seq<Block>,
                 live: map<Addr, nat>, lists: seq<seq<Addr>>, hi: nat, p: Addr)
    requires Heap(base, len, mem, heads, tiles, live, lists, hi) && p in live
    ensures var k := live[p];
            && k < NUM_QLISTS
            && var mem' := WriteHeader(mem, p, Header(heads[k], p, ClassSize(k), ClassSize(k)));
            && Heap(base, len, mem', heads[k := Some(p)], tiles, live - {p}, lists[k := [p] + lists[k]], hi)
            && LiveKept(mem, mem', live - {p})
  {
    var k := live[p];
    var b := Block(p, k);
    TileInArena(base, len, mem, heads, tiles, live, lists, hi, b);
    TilesClear(tiles, FirstBlock(base), hi, live, lists, b);
    forall j | 0 <= j < NUM_QLISTS
      ensures p !in lists[j]
    {
      assert FreeTiles(tiles, live, lists[j], j);
    }
    PushListed(mem, heads, lists, p, k);
    PartitionFree(tiles, FirstBlock(base), hi, live, lists, p);
    OthersKept(tiles, FirstBlock(base), hi, live, lists, mem,
               WriteHeader(mem, p, Header(heads[k], p, ClassSize(k), ClassSize(k))), b);
  }

  /** Freeing a block newly cut at `hi`. */
  lemma FreeNew(base: nat, len: nat, mem: Memory, heads: seq<Option<Addr>>, tiles: seq<Block>,
                live: map<Addr, nat>, lists: seq<seq<Addr>>, hi: nat, k: nat)
    requires Heap(base, len, mem, heads, tiles, live, lists, hi)
    requires k < NUM_QLISTS && BumpAlloc.Aligned(hi, ClassSize(k)) && hi + ClassSize(k) <= base + len
    ensures var mem' := WriteHeader(mem, hi, Header(heads[k], hi, ClassSize(k), ClassSize(k)));
            && Heap(base, len, mem', heads[k := Some(hi)], tiles + [Block(hi, k)], live, lists[k := [hi] + lists[k]],
                    hi + ClassSize(k))
            && LiveKept(mem, mem', live)
  {
    var lo := FirstBlock(base);
    TiledBounds(tiles, lo, hi);
    BeyondClear(tiles, lo, hi, live, lists);
    PushListed(mem, heads, lists, hi, k);
    PartitionAddFree(tiles, lo, hi, live, lists, k);
    TiledSnoc(tiles, lo, hi, Block(hi, k));
    var mem' := WriteHeader(mem, hi, Header(heads[k], hi, ClassSize(k), ClassSize(k)));
    forall a | a in live
      ensures SameBytes(mem, mem', a, a + ClassSize(live[a]))
    {
      assert Block(a, live[a]).End() <= hi;
    }
  }

  /** Handing out the first block of list `k`. */
  lemma AllocateListed(base: nat, len: nat, mem: Memory, heads: seq<Option<Addr>>, tiles: seq<Block>,
                       live: map<Addr, nat>, lists: seq<seq<Addr>>, hi: nat, k: nat)
    requires Heap(base, len, mem, heads, tiles, live, lists, hi)
    requires k < NUM_QLISTS && lists[k] != []
    ensures var p := lists[k][0];
            && heads[k] == Some(p) && p in mem && mem[p].Part? && HasHeader(mem, p, mem[p].header)
            && mem[p].header.addr == p && p !in live && BumpAlloc.Aligned(p, ClassSize(k))
            && var mem' := WriteHeader(mem, p, mem[p].header.(next := None));
            && Heap(base, len, mem', heads[k := mem[p].header.next], tiles, live[p := k], lists[k := lists[k][1..]], hi)
            && LiveKept(mem, mem', live)
  {
    var p := lists[k][0];
    var b := Block(p, k);
    assert FreeTiles(tiles, live, lists[k], k);
    assert ListAt(mem, heads[k], lists[k], k);
    TileInArena(base, len, mem, heads, tiles, live, lists, hi, b);
    TilesClear(tiles, FirstBlock(base), hi, live, lists, b);
    assert p !in lists[k][1..];
    PopListed(mem, heads, lists, k, mem[p].header);
    PartitionAllocate(tiles, FirstBlock(base), hi, live, lists, k);
    OthersKept(tiles, FirstBlock(base), hi, live, lists, mem, WriteHeader(mem, p, mem[p].header.(next := None)), b);
    assert live - {p} == live;
  }

  /** Handing out a block newly cut at `hi`. */
  lemma AllocateNew(base: nat, len: nat, mem: Memory, heads: seq<Option<Addr>>, tiles: seq<Block>,
                    live: map<Addr, nat>, lists: seq<seq<Addr>>, hi: nat, k: nat)
    requires Heap(base, len, mem, heads, tiles, live, lists, hi)
    requires k < NUM_QLISTS && BumpAlloc.Aligned(hi, ClassSize(k)) && hi + ClassSize(k) <= base + len
    ensures hi !in live
    ensures Heap(base, len, mem, heads, tiles + [Block(hi, k)], live[hi := k], lists, hi + ClassSize(k))
  {
    PartitionAddLive(tiles, FirstBlock(base), hi, live, lists, k);
    TiledSnoc(tiles, FirstBlock(base), hi, Block(hi, k));
  }

  /** Client data written inside one live block. */
  lemma WriteLive(base: nat, len: nat, mem: Memory, mem': Memory, heads: seq<Option<Addr>>, tiles: seq<Block>,
                  live: map<Addr, nat>, lists: seq<seq<Addr>>, hi: nat, p: Addr)
    requires Heap(base, len, mem, heads, tiles, live, lists, hi) && p in live
    requires mem'.Keys == mem.Keys
    requires forall a | a in mem && !(p <= a < p + ClassSize(live[p])) :: mem'[a] == mem[a]
    ensures Heap(base, len, mem', heads, tiles, live, lists, hi) && LiveKept(mem, mem', live - {p})
  {
    var b := Block(p, live[p]);
    OthersKept(tiles, FirstBlock(base), hi, live, lists, mem, mem', b);
    forall k | 0 <= k < NUM_QLISTS
      ensures ListAt(mem', heads[k], lists[k], k)
    {
      var q := lists[k];
      assert FreeTiles(tiles, live, q, k);
      forall j | 0 <= j < |q|
        ensures SameBytes(mem, mem', q[j], q[j] + HEADER_SIZE)
      {
        TilesDisjoint(tiles, FirstBlock(base), hi, Block(q[j], k), b);
      }
      ListKept(mem, mem', heads[k], q, k);
    }
  }

  /**
   Every byte between the first block and the end of the last belongs to exactly
   one block, which is aligned to its size and either live or in the list of its
   class; fewer than 64 bytes lie before the first block.
   */
  lemma EveryByteOwned(base: nat, len: nat, mem: Memory, heads: seq<Option<Addr>>, tiles: seq<Block>,
                       live: map<Addr, nat>, lists: seq<seq<Addr>>, hi: nat, x: Addr) returns (b: Block)
    requires Heap(base, len, mem, heads, tiles, live, lists, hi) && FirstBlock(base) <= x < hi
    ensures FirstBlock(base) < base + MIN_ALLOC_SIZE
    ensures b.k < NUM_QLISTS && BumpAlloc.Aligned(b.addr, ClassSize(b.k)) && b.addr <= x < b.End() <= base + len
    ensures b.addr in live <==> b.addr !in lists[b.k]
    ensures b.addr in live ==> live[b.addr] == b.k
    ensures forall a | a in live && a <= x < a + ClassSize(live[a]) :: a == b.addr
    ensures forall k, j | 0 <= k < NUM_QLISTS && 0 <= j < |lists[k]| && lists[k][j] <= x < lists[k][j] + ClassSize(k) ::
              lists[k][j] == b.addr && k == b.k
  {
    var lo := FirstBlock(base);
    var i := TiledCovers(tiles, lo, hi, x);
    b := tiles[i];
    assert b in tiles;
    TileInArena(base, len, mem, heads, tiles, live, lists, hi, b);
    assert FreeTiles(tiles, live, lists[b.k], b.k);
    forall a | a in live && a <= x < a + ClassSize(live[a])
      ensures a == b.addr && live[a] == b.k
    {
      TilesDisjoint(tiles, lo, hi, Block(a, live[a]), b);
    }
    forall k, j | 0 <= k < NUM_QLISTS && 0 <= j < |lists[k]| && lists[k][j] <= x < lists[k][j] + ClassSize(k)
      ensures lists[k][j] == b.addr && k == b.k
    {
      assert FreeTiles(tiles, live, lists[k], k);
      TilesDisjoint(tiles, lo, hi, Block(lists[k][j], k), b);
    }
    if b.addr in live {
      TileAt(tiles, lo, hi, Block(b.addr, live[b.addr]), b);
    }
  }

  // ----- alignment

  lemma ClassMultiple(k: nat, x: nat)
    requires BumpAlloc.Aligned(x, ClassSize(k))
    ensures BumpAlloc.Aligned(x, MIN_ALLOC_SIZE)
  {
    BumpAlloc.AlignedIsMod(x, ClassSize(k));
    BumpAlloc.AlignedIsMod(x, MIN_ALLOC_SIZE);
    Pow2Add(6, k);
    assert Pow2(6) == 64;
    assert ClassSize(k) == 64 * Pow2(k);
    ModFactor(x, 64, Pow2(k));
  }

  lemma ClassSizeMultiple(k: nat)
    ensures BumpAlloc.Aligned(ClassSize(k), MIN_ALLOC_SIZE)
  {
    BumpAlloc.AlignedIsMod(ClassSize(k), ClassSize(k));
    DivModUnique(ClassSize(k), ClassSize(k), 1, 0);
    ClassMultiple(k, ClassSize(k));
  }

  /** Sums and differences of multiples of 64 are multiples of 64. */
  lemma UnitsAdd(x: nat, y: nat)
    requires BumpAlloc.Aligned(x, MIN_ALLOC_SIZE) && BumpAlloc.Aligned(y, MIN_ALLOC_SIZE)
    ensures BumpAlloc.Aligned(x + y, MIN_ALLOC_SIZE)
    ensures x >= y ==> BumpAlloc.Aligned(x - y, MIN_ALLOC_SIZE)
    ensures x < MIN_ALLOC_SIZE ==> x == 0
  {
    BumpAlloc.AlignedIsMod(x, 64);
    BumpAlloc.AlignedIsMod(y, 64);
    var m, n := x / 64, y / 64;
    UnitsAligned(x + y, m + n);
    if x >= y {
      UnitsAligned(x - y, m - n);
    }
  }

  lemma UnitsAligned(x: nat, n: nat)
    requires x == 64 * n
    ensures BumpAlloc.Aligned(x, MIN_ALLOC_SIZE)
  {
    BumpAlloc.AlignedIsMod(x, 64);
  }

  lemma RestAligned(plen: nat, k: nat)
    requires BumpAlloc.Aligned(plen, MIN_ALLOC_SIZE) && plen >= ClassSize(k)
    ensures BumpAlloc.Aligned(plen - ClassSize(k), MIN_ALLOC_SIZE)
    ensures plen - ClassSize(k) < MIN_ALLOC_SIZE ==> plen == ClassSize(k)
  {
    ClassSizeMultiple(k);
    UnitsAdd(plen, ClassSize(k));
    UnitsAdd(plen - ClassSize(k), 0);
  }

  lemma EndAligned(ptr: nat, k: nat)
    requires BumpAlloc.Aligned(ptr, MIN_ALLOC_SIZE)
    ensures BumpAlloc.Aligned(ptr + ClassSize(k), MIN_ALLOC_SIZE)
  {
    ClassSizeMultiple(k);
    UnitsAdd(ptr, ClassSize(k));
  }

  /** The offset to the next multiple of 64 fits in a prefix that ends at one. */
  lemma AfterOffset(ptr: nat, offset: nat, plen: nat)
    requires BumpAlloc.Aligned(ptr, MIN_ALLOC_SIZE) ==> offset == 0
    requires offset < MIN_ALLOC_SIZE && BumpAlloc.Aligned(ptr + offset, MIN_ALLOC_SIZE)
    requires BumpAlloc.Aligned(ptr + plen, MIN_ALLOC_SIZE)
    ensures offset <= plen && BumpAlloc.Aligned(plen - offset, MIN_ALLOC_SIZE)
  {
    BumpAlloc.AlignedIsMod(ptr, 64);
    BumpAlloc.AlignedIsMod(ptr + offset, 64);
    BumpAlloc.AlignedIsMod(ptr + plen, 64);
    if offset <= plen {
      BumpAlloc.AlignedIsMod(plen - offset, 64);
    }
  }

  /** The test by which `realloc` keeps a block: the new layout, adjusted, is the old one as it was given. */
  predicate Stays(layout: Layout, newSize: nat) {
    Adjust(Layout(newSize, layout.align)) == (layout.size, layout.align)
  }

  /** When `realloc` keeps the block, the new layout has the block's class. */
  lemma SameClass(layout: Layout, newSize: nat)
    requires IsQuick(Layout(newSize, layout.align))
             && Adjust(Layout(newSize, layout.align)) == (layout.size, layout.align)
    ensures ClassOf(layout) == ClassOf(Layout(newSize, layout.align))
  {
    var k := ClassOf(Layout(newSize, layout.align));
    AdjustQuick(Layout(newSize, layout.align));
    ClassLayout(k);
    assert layout == Layout(ClassSize(k), ClassSize(k));
  }

  /**
   The block is kept if and only if the new size belongs to its class and the old layout was
   already that of the whole class.
   */
  lemma StaysIff(layout: Layout, newSize: nat)
    requires IsQuick(layout) && IsQuick(Layout(newSize, layout.align))
    ensures var k := ClassOf(layout);
            Stays(layout, newSize) <==>
              ClassOf(Layout(newSize, layout.align)) == k && layout == Layout(ClassSize(k), ClassSize(k))
  {
    AdjustQuick(Layout(newSize, layout.align));
    if Stays(layout, newSize) {
      SameClass(layout, newSize);
    }
  }

  /** From 100 bytes to 120, both of the 128-byte class, the block would do but is not kept. */
  lemma FitsButMoves()
    ensures IsQuick(Layout(100, 8)) && IsQuick(Layout(120, 8)) && ClassSize(1) == 128
    ensures ClassOf(Layout(100, 8)) == ClassOf(Layout(120, 8)) == 1 && !Stays(Layout(100, 8), 120)
  {
    assert Pow2(7) == 128 && Pow2(8) == 256;
    ClassBetween(Layout(100, 8));
    ClassBetween(Layout(120, 8));
  }

  lemma ClassBetween(layout: Layout)
    requires 64 < layout.size <= 128 && layout.align <= 64
    ensures IsQuick(layout) && ClassOf(layout) == 1
  {
    var k := ClassOf(layout);
    assert Pow2(6) == 64 && Pow2(8) == 256;
    if k >= 2 {
      Pow2Monotone(8, k + 6);
    }
    AdjustQuick(layout);
  }

  /**
   The live block at `p` is now the one at `q`, of the new size's class, with the old
   contents as far as both sizes go; no other live block has changed.
   */
  ghost predicate Resized(mem: Memory, live: map<Addr, nat>, mem': Memory, live': map<Addr, nat>,
                          p: Addr, q: Addr, layout: Layout, newSize: nat)
  {
    && live' == (live - {p})[q := ClassOf(Layout(newSize, layout.align))]
    && (q == p || q !in live)
    && LiveKept(mem, mem', live - {p})
    && SameContents(mem, p, mem', q, if layout.size < newSize then layout.size else newSize)
  }

  lemma StaysPut(mem: Memory, live: map<Addr, nat>, p: Addr, layout: Layout, newSize: nat)
    requires IsQuick(Layout(newSize, layout.align)) && Stays(layout, newSize)
    requires p in live && live[p] == ClassOf(layout) && layout.size <= ClassSize(live[p])
    requires forall a | p <= a < p + ClassSize(live[p]) :: a in mem
    ensures Resized(mem, live, mem, live, p, p, layout, newSize)
  {
    SameClass(layout, newSize);
    assert live == (live - {p})[p := live[p]];
  }

  /** A block of class `k` can be cut off the front of the prefix. */
  predicate PieceFits(ptr: Addr, plen: nat, k: nat) {
    k < NUM_QLISTS && ClassSize(k) <= plen && BumpAlloc.Aligned(ptr, ClassSize(k))
  }

  predicate LargestPiece(ptr: Addr, plen: nat, k: nat) {
    PieceFits(ptr, plen, k) && forall j | k < j < NUM_QLISTS :: !PieceFits(ptr, plen, j)
  }

  // ----- the allocator

  /** `ptr::copy` of `n` bytes. */
  function Copy(mem: Memory, src: Addr, dst: Addr, n: nat): (mem': Memory)
    requires forall a | src <= a < src + n :: a in mem
    ensures mem'.Keys == mem.Keys
  {
    map a | a in mem :: if dst <= a < dst + n then mem[src + (a - dst)] else mem[a]
  }

  class Allocator {
    const base: Addr
    const len: nat
    var cursor: nat
    var qlists: seq<Option<Addr>>
    var mem: Memory
    ghost var tiles: seq<Block>
    ghost var live: map<Addr, nat>
    ghost var lists: seq<seq<Addr>>

    constructor (base: Addr, len: nat, mem: Memory)
      requires base > 0
      requires forall a | base <= a < base + len :: a in mem
      ensures Valid() && this.base == base && this.len == len && live == map[] && cursor == 0
    {
      this.base, this.len, this.mem := base, len, mem;
      cursor := 0;
      qlists := seq(NUM_QLISTS, i => None);
      tiles, live, lists := [], map[], seq(NUM_QLISTS, i => []);
    }

    ghost predicate HeapTo(hi: nat)
      reads this
    {
      Heap(base, len, mem, qlists, tiles, live, lists, hi)
    }

    /** The end of the last block cut from the arena. */
    ghost function Hi(): nat
      reads this
    {
      if cursor == 0 then FirstBlock(base) else base + cursor
    }

    ghost predicate Valid()
      reads this
    {
      base > 0 && cursor <= len && HeapTo(Hi()) && (cursor > 0 ==> BumpAlloc.Aligned(base + cursor, MIN_ALLOC_SIZE))
    }

    /** No block of class `k` is listed and the tail has no room for one. */
    ghost predicate Exhausted(k: nat)
      requires k < |lists|
      reads this
    {
      lists[k] == [] && !BumpAlloc.Room(base, len, cursor, ClassSize(k), ClassSize(k))
    }

    /** The store that `free` makes for a block of class `k`. */
    method Push(p: Addr, k: nat)
      requires k < |qlists|
      modifies this`mem, this`qlists
      ensures mem == WriteHeader(old(mem), p, Header(old(qlists)[k], p, ClassSize(k), ClassSize(k)))
      ensures qlists == old(qlists)[k := Some(p)]
    {
      mem := WriteHeader(mem, p, Header(qlists[k], p, ClassSize(k), ClassSize(k)));
      qlists := qlists[k := Some(p)];
    }

    /** Give a live block back under a layout of its class. */
    method Free(block: Option<Addr>, layout: Layout)
      requires Valid() && IsQuick(layout)
      requires block.Some? ==> block.value in live && live[block.value] == ClassOf(layout)
      modifies this`mem, this`qlists, this`live, this`lists
      ensures Valid()
      ensures block.None? ==> mem == old(mem) && live == old(live) && lists == old(lists) && qlists == old(qlists)
      ensures block.Some? ==>
                && live == old(live) - {block.value} && LiveKept(old(mem), mem, live)
                && var k := ClassOf(layout);
                   k < |old(lists)| && lists == old(lists)[k := [block.value] + old(lists)[k]]
    {
      if block.None? {
        return;
      }
      var p := block.value;
      AdjustQuick(layout);
      var k := Log2(Adjust(layout).0) - ALLOC_UNIT_SHIFT;
      FreeAs(p, k);
    }

    /** Put a live block of class `k` on list `k`. */
    method FreeAs(p: Addr, k: nat)
      requires Valid() && p in live && live[p] == k
      modifies this`mem, this`qlists, this`live, this`lists
      ensures Valid() && live == old(live) - {p} && LiveKept(old(mem), mem, live)
      ensures k < |old(lists)| && lists == old(lists)[k := [p] + old(lists)[k]]
    {
      FreeLive(base, len, mem, qlists, tiles, live, lists, Hi(), p);
      Push(p, k);
      live, lists := live - {p}, lists[k := [p] + lists[k]];
    }

    /** Free the block of class `k` that starts where the blocks cut so far end. */
    method CutFree(ptr: Addr, k: nat)
      requires HeapTo(ptr) && k < NUM_QLISTS && ptr + ClassSize(k) <= base + len && BumpAlloc.Aligned(ptr, ClassSize(k))
      modifies this`mem, this`qlists, this`tiles, this`lists
      ensures HeapTo(ptr + ClassSize(k))
      ensures LiveKept(old(mem), mem, live) && tiles == old(tiles) + [Block(ptr, k)]
    {
      FreeNew(base, len, mem, qlists, tiles, live, lists, ptr, k);
      ClassLayout(k);
      Push(ptr, ClassOf(Layout(ClassSize(k), ClassSize(k))));
      tiles, lists := tiles + [Block(ptr, k)], lists[k := [ptr] + lists[k]];
    }

    /** Free the first `ClassSize(k)` bytes of the prefix. */
    method FreeFront(ptr: Addr, plen: nat, k: nat) returns (r: Option<(Addr, nat)>)
      requires HeapTo(ptr) && k < NUM_QLISTS && ptr + plen <= base + len
      requires plen >= ClassSize(k) && BumpAlloc.Aligned(ptr, ClassSize(k))
      requires BumpAlloc.Aligned(ptr, MIN_ALLOC_SIZE) && BumpAlloc.Aligned(plen, MIN_ALLOC_SIZE)
      modifies this`mem, this`qlists, this`tiles, this`lists
      ensures LiveKept(old(mem), mem, live) && tiles == old(tiles) + [Block(ptr, k)]
      ensures r.None? ==> HeapTo(ptr + plen)
      ensures r.Some? ==>
                var (ptr', plen') := r.value;
                && HeapTo(ptr') && ptr' + plen' == ptr + plen && plen' < plen
                && BumpAlloc.Aligned(ptr', MIN_ALLOC_SIZE) && BumpAlloc.Aligned(plen', MIN_ALLOC_SIZE)
    {
      var size := ClassSize(k);
      CutFree(ptr, k);
      EndAligned(ptr, k);
      RestAligned(plen, k);
      return if plen - size >= MIN_ALLOC_SIZE then Some((ptr + size, plen - size)) else None;
    }

    /** Free the largest aligned class-sized piece at the front of the prefix, and return the rest. */
    method TryFreePrefix(ptr: Addr, plen: nat) returns (r: Option<(Addr, nat)>, ghost piece: nat)
      requires HeapTo(ptr) && ptr + plen <= base + len
      requires BumpAlloc.Aligned(ptr, MIN_ALLOC_SIZE) && BumpAlloc.Aligned(plen, MIN_ALLOC_SIZE)
      modifies this`mem, this`qlists, this`tiles, this`lists
      ensures LiveKept(old(mem), mem, live) && old(tiles) <= tiles
      ensures plen >= MIN_ALLOC_SIZE ==> LargestPiece(ptr, plen, piece) && tiles == old(tiles) + [Block(ptr, piece)]
      ensures r.None? ==> HeapTo(ptr + plen)
      ensures r.Some? ==>
                var (ptr', plen') := r.value;
                && HeapTo(ptr') && ptr' + plen' == ptr + plen && plen' < plen
                && BumpAlloc.Aligned(ptr', MIN_ALLOC_SIZE) && BumpAlloc.Aligned(plen', MIN_ALLOC_SIZE)
    {
      piece := 0;
      var k := NUM_QLISTS;
      while k > 0
        invariant 0 <= k <= NUM_QLISTS
        invariant mem == old(mem) && qlists == old(qlists) && tiles == old(tiles) && lists == old(lists)
        invariant k == 0 ==> plen < MIN_ALLOC_SIZE
        invariant forall j | k <= j < NUM_QLISTS :: !PieceFits(ptr, plen, j)
      {
        k := k - 1;
        var size := ClassSize(k);
        if plen >= size && BumpAlloc.AlignOffset(ptr, size) == 0 {
          r := FreeFront(ptr, plen, k);
          piece := k;
          return;
        }
        assert k == 0 ==> size == MIN_ALLOC_SIZE by { assert Pow2(6) == 64; }
      }
      r := None;
    }

    /** Cut the whole prefix, from its first multiple of 64 on, into free blocks. */
    method FreePrefix(ptr: Addr, plen: nat)
      requires HeapTo(ptr + BumpAlloc.AlignOffset(ptr, MIN_ALLOC_SIZE))
      requires ptr + plen <= base + len && BumpAlloc.Aligned(ptr + plen, MIN_ALLOC_SIZE)
      modifies this`mem, this`qlists, this`tiles, this`lists
      ensures HeapTo(ptr + plen)
      ensures LiveKept(old(mem), mem, live) && old(tiles) <= tiles
    {
      var offset := BumpAlloc.AlignOffset(ptr, MIN_ALLOC_SIZE);
      AfterOffset(ptr, offset, plen);
      var rest: Option<(Addr, nat)> := Some((ptr + offset, plen - offset));
      while rest.Some?
        invariant rest.Some? ==>
                    && HeapTo(rest.value.0) && rest.value.0 + rest.value.1 == ptr + plen
                    && BumpAlloc.Aligned(rest.value.0, MIN_ALLOC_SIZE)
                    && BumpAlloc.Aligned(rest.value.1, MIN_ALLOC_SIZE)
        invariant rest.None? ==> HeapTo(ptr + plen)
        invariant LiveKept(old(mem), mem, live) && old(tiles) <= tiles
        decreases if rest.Some? then rest.value.1 + 1 else 0
      {
        ghost var before := mem;
        ghost var piece;
        rest, piece := TryFreePrefix(rest.value.0, rest.value.1);
        LiveKeptTransitive(old(mem), before, mem, live);
      }
    }

    /** Cut an aligned block of class `k` from the tail of the arena. */
    method AllocTail(size: nat, align: nat, ghost k: nat) returns (r: Option<Addr>)
      requires Valid() && k < NUM_QLISTS && size == align == ClassSize(k)
      modifies this
      ensures Valid()
      ensures r.None? <==> !BumpAlloc.Room(base, len, old(cursor), ClassSize(k), ClassSize(k))
      ensures r.None? ==> mem == old(mem) && live == old(live) && cursor == old(cursor)
                          && tiles == old(tiles) && lists == old(lists) && qlists == old(qlists)
      ensures r.Some? ==>
                && r.value !in old(live) && live == old(live)[r.value := k] && BumpAlloc.Aligned(r.value, ClassSize(k))
                && LiveKept(old(mem), mem, old(live)) && old(tiles) <= tiles
                && BumpAlloc.FirstMultiple(base + old(cursor), ClassSize(k), r.value)
                && base + cursor == r.value + ClassSize(k)
    {
      // The source passes its size as the alignment and its alignment as the size.
      var granted := TryAlloc(size, align, k);
      if granted.None? {
        return None;
      }
      var (prefix, plen, ptr) := granted.value;
      Carve(prefix, plen, ptr, k);
      return Some(ptr);
    }

    /** Free the prefix of a grant and make the block behind it live. */
    method Carve(prefix: Addr, plen: nat, ptr: Addr, ghost k: nat)
      requires k < NUM_QLISTS && HeapTo(prefix + BumpAlloc.AlignOffset(prefix, MIN_ALLOC_SIZE))
      requires ptr == prefix + plen && BumpAlloc.Aligned(ptr, ClassSize(k)) && BumpAlloc.Aligned(ptr, MIN_ALLOC_SIZE)
      requires base > 0 && 0 < cursor <= len && base + cursor == ptr + ClassSize(k)
      requires BumpAlloc.Aligned(base + cursor, MIN_ALLOC_SIZE)
      modifies this`mem, this`qlists, this`tiles, this`lists, this`live
      ensures Valid()
      ensures ptr !in old(live) && live == old(live)[ptr := k]
      ensures LiveKept(old(mem), mem, old(live)) && old(tiles) <= tiles
    {
      FreePrefix(prefix, plen);
      CutLive(ptr, k);
      assert Hi() == ptr + ClassSize(k);
    }

    /** `BumpAlloc::try_alloc`, for one caller: the prefix, its length, and the aligned block behind it. */
    method TryAlloc(align: nat, size: nat, ghost k: nat) returns (r: Option<(Addr, nat, Addr)>)
      requires Valid() && k < NUM_QLISTS && size == align == ClassSize(k)
      modifies this`cursor
      ensures r.None? <==> !BumpAlloc.Room(base, len, old(cursor), ClassSize(k), ClassSize(k))
      ensures r.None? ==> cursor == old(cursor)
      ensures r.Some? ==>
                var (prefix, plen, ptr) := r.value;
                && prefix == base + old(cursor) && ptr == prefix + plen && BumpAlloc.Aligned(ptr, ClassSize(k))
                && BumpAlloc.FirstMultiple(base + old(cursor), ClassSize(k), ptr)
                && BumpAlloc.Aligned(ptr, MIN_ALLOC_SIZE)
                && prefix + BumpAlloc.AlignOffset(prefix, MIN_ALLOC_SIZE) == old(Hi())
                && 0 < cursor <= len && base + cursor == ptr + ClassSize(k)
                && BumpAlloc.Aligned(base + cursor, MIN_ALLOC_SIZE)
    {
      var granted := BumpAlloc.Attempt(base, len, cursor, align, size);
      BumpAlloc.AttemptIff(base, len, cursor, align, size);
      if granted.None? {
        return None;
      }
      var grant := granted.value;
      var ptr := base + grant.BlockStart();
      ClassMultiple(k, ptr);
      EndAligned(ptr, k);
      cursor := grant.End();
      return Some((base + grant.start, grant.adjust, ptr));
    }

    /** The block of class `k` that starts where the blocks cut so far end becomes live. */
    ghost method CutLive(ptr: Addr, k: nat)
      requires HeapTo(ptr) && k < NUM_QLISTS && ptr + ClassSize(k) <= base + len && BumpAlloc.Aligned(ptr, ClassSize(k))
      modifies this`tiles, this`live
      ensures HeapTo(ptr + ClassSize(k))
      ensures ptr !in old(live) && live == old(live)[ptr := k] && tiles == old(tiles) + [Block(ptr, k)]
    {
      AllocateNew(base, len, mem, qlists, tiles, live, lists, ptr, k);
      tiles, live := tiles + [Block(ptr, k)], live[ptr := k];
    }

    /** Take the first block of list `k`, if there is one. */
    method AllocQuick(k: nat) returns (r: Option<Addr>)
      requires Valid() && k < NUM_QLISTS
      modifies this`mem, this`qlists, this`live, this`lists
      ensures Valid()
      ensures r.None? <==> old(lists)[k] == []
      ensures r.None? ==> mem == old(mem) && live == old(live) && lists == old(lists) && qlists == old(qlists)
      ensures r.Some? ==>
                && r.value == old(lists)[k][0] && lists == old(lists)[k := old(lists)[k][1..]]
                && r.value !in old(live) && live == old(live)[r.value := k] && BumpAlloc.Aligned(r.value, ClassSize(k))
                && LiveKept(old(mem), mem, old(live))
    {
      assert ListAt(mem, qlists[k], lists[k], k);
      if qlists[k].None? {
        return None;
      }
      var p := qlists[k].value;
      AllocateListed(base, len, mem, qlists, tiles, live, lists, Hi(), k);
      var header := mem[p].header;
      mem := WriteHeader(mem, p, header.(next := None));
      qlists := qlists[k := header.next];
      live, lists := live[p := k], lists[k := lists[k][1..]];
      return Some(header.addr);
    }

    /** A block of the layout's class: from its list, or else from the tail, or else none. */
    method Malloc(layout: Layout) returns (r: Option<Addr>)
      requires Valid() && IsQuick(layout)
      modifies this
      ensures Valid()
      ensures var k := ClassOf(layout);
              && k < NUM_QLISTS == |old(lists)|
              && (r.None? <==> old(Exhausted(k)))
              && (r.None? ==> mem == old(mem) && live == old(live) && cursor == old(cursor)
                              && tiles == old(tiles) && lists == old(lists) && qlists == old(qlists))
              && (r.Some? ==>
                    && r.value !in old(live) && live == old(live)[r.value := k]
                    && BumpAlloc.Aligned(r.value, ClassSize(k))
                    && layout.size <= ClassSize(k)
                    && LiveKept(old(mem), mem, old(live)) && old(tiles) <= tiles)
      ensures var k := ClassOf(layout);
              if old(lists)[k] != [] then
                && r == Some(old(lists)[k][0]) && lists == old(lists)[k := old(lists)[k][1..]]
                && cursor == old(cursor) && tiles == old(tiles)
              else
                r.Some? ==> BumpAlloc.FirstMultiple(base + old(cursor), ClassSize(k), r.value)
                            && base + cursor == r.value + ClassSize(k)
    {
      AdjustQuick(layout);
      var (size, align) := Adjust(layout);
      var k := Log2(size) - ALLOC_UNIT_SHIFT;
      r := AllocQuick(k);
      if r.None? {
        r := AllocTail(size, align, k);
      }
    }

    /** A client stores a byte inside a block that it holds. */
    method Store(block: Addr, offset: nat, value: nat)
      requires Valid() && block in live && offset < ClassSize(live[block])
      modifies this`mem
      ensures Valid() && LiveKept(old(mem), mem, live - {block})
      ensures block + offset in old(mem) && mem == old(mem)[block + offset := Data(value)]
    {
      TileInArena(base, len, mem, qlists, tiles, live, lists, Hi(), Block(block, live[block]));
      WriteLive(base, len, mem, mem[block + offset := Data(value)], qlists, tiles, live, lists, Hi(), block);
      mem := mem[block + offset := Data(value)];
    }

    /**
     Move a live block to a new size.  `None` leaves everything as it was; otherwise
     the result is a block of the new layout's class that holds the old contents, as
     far as both sizes go, and no other live block has changed.
     */
    method Realloc(block: Option<Addr>, layout: Layout, newSize: nat) returns (r: Option<Addr>)
      requires Valid() && IsQuick(layout) && IsQuick(Layout(newSize, layout.align))
      requires block.Some? ==> block.value in live && live[block.value] == ClassOf(layout)
      modifies this
      ensures Valid()
      ensures block.None? && r.Some? ==> r.value !in old(live) && live == old(live)[r.value := ClassOf(layout)]
                                         && LiveKept(old(mem), mem, old(live))
      ensures r.None? ==> mem == old(mem) && live == old(live)
      ensures var k := ClassOf(if block.None? then layout else Layout(newSize, layout.align));
              && k < |old(lists)|
              && (r.None? <==> old(Exhausted(k)) && (block.None? || !Stays(layout, newSize)))
      ensures block.Some? && r.Some? ==>
                Resized(old(mem), old(live), mem, live, block.value, r.value, layout, newSize)
      ensures block.Some? ==>
                && (r == block <==> Stays(layout, newSize))
                && (r == block ==>
                      mem == old(mem) && cursor == old(cursor) && tiles == old(tiles) && lists == old(lists))
    {
      if block.None? {
        r := Malloc(layout);
      } else {
        r := Resize(block.value, layout, newSize);
      }
    }

    /** `realloc` of the live block at `p`. */
    method Resize(p: Addr, layout: Layout, newSize: nat) returns (r: Option<Addr>)
      requires Valid() && IsQuick(layout) && IsQuick(Layout(newSize, layout.align))
      requires p in live && live[p] == ClassOf(layout)
      modifies this
      ensures Valid()
      ensures r.None? ==> mem == old(mem) && live == old(live)
      ensures var k := ClassOf(Layout(newSize, layout.align));
              k < |old(lists)| && (r.None? <==> old(Exhausted(k)) && !Stays(layout, newSize))
      ensures r.Some? ==> Resized(old(mem), old(live), mem, live, p, r.value, layout, newSize)
      ensures r == Some(p) <==> Stays(layout, newSize)
      ensures r == Some(p) ==> mem == old(mem) && cursor == old(cursor) && tiles == old(tiles) && lists == old(lists)
    {
      var newLayout := Layout(newSize, layout.align);
      AdjustQuick(layout);
      AdjustQuick(newLayout);
      var (size, align) := Adjust(newLayout);
      TileInArena(base, len, mem, qlists, tiles, live, lists, Hi(), Block(p, live[p]));
      if size == layout.size && align == layout.align {
        StaysPut(mem, live, p, layout, newSize);
        return Some(p);
      }
      r := Malloc(newLayout);
      if r.Some? {
        MoveTo(p, r.value, layout, newSize, old(mem), old(live));
      }
    }

    /** The rest of `realloc` once the new block `q` exists: copy, then free the old block. */
    method MoveTo(p: Addr, q: Addr, layout: Layout, newSize: nat, ghost mem0: Memory, ghost live0: map<Addr, nat>)
      requires Valid() && IsQuick(layout) && IsQuick(Layout(newSize, layout.align))
      requires p in live0 && live0[p] == ClassOf(layout) && q !in live0
      requires live == live0[q := ClassOf(Layout(newSize, layout.align))]
      requires LiveKept(mem0, mem, live0)
      requires forall a | p <= a < p + ClassSize(live0[p]) :: a in mem0
      modifies this`mem, this`qlists, this`live, this`lists
      ensures Valid()
      ensures Resized(mem0, live0, mem, live, p, q, layout, newSize)
    {
      var n := if layout.size < newSize then layout.size else newSize;
      AdjustQuick(layout);
      AdjustQuick(Layout(newSize, layout.align));
      ghost var mem1, k := mem, live[q];
      CopyBytes(p, q, n);
      ghost var mem2 := mem;
      assert live - {q} == live0;
      assert live - {p} == (live0 - {p})[q := k];
      Free(Some(p), layout);
      Moved(mem0, mem1, mem2, mem, live0, live, p, q, n);
    }

    /** `ptr::copy` between two live blocks. */
    method CopyBytes(p: Addr, q: Addr, n: nat)
      requires Valid() && p in live && q in live && n <= ClassSize(live[p]) && n <= ClassSize(live[q])
      modifies this`mem
      ensures Valid()
      ensures SameContents(old(mem), p, mem, q, n) && LiveKept(old(mem), mem, live - {q})
    {
      TileInArena(base, len, mem, qlists, tiles, live, lists, Hi(), Block(p, live[p]));
      TileInArena(base, len, mem, qlists, tiles, live, lists, Hi(), Block(q, live[q]));
      WriteLive(base, len, mem, Copy(mem, p, q, n), qlists, tiles, live, lists, Hi(), q);
      CopyContents(mem, p, q, n);
      mem := Copy(mem, p, q, n);
    }
  }

  lemma TileBelow(tiles: seq<Block>, lo: nat, hi: nat, b: Block)
    requires Tiled(tiles, lo, hi) && b in tiles
    ensures b.End() <= hi
  {
    var i :| 0 <= i < |tiles| && tiles[i] == b;
    TiledOrder(tiles, lo, hi, i, i);
  }

  /** A live block as large as the arena leaves no block to give in any class. */
  lemma FullArena(a: Allocator, p: Addr, k: nat)
    requires a.Valid() && p in a.live && ClassSize(a.live[p]) == a.len && k < NUM_QLISTS
    ensures a.Exhausted(k)
  {
    var lo, hi, b := FirstBlock(a.base), a.Hi(), Block(p, a.live[p]);
    TileInArena(a.base, a.len, a.mem, a.qlists, a.tiles, a.live, a.lists, hi, b);
    TileBelow(a.tiles, lo, hi, b);
    assert p == a.base && hi == a.base + a.len;
    if a.lists[k] != [] {
      var c := Block(a.lists[k][0], k);
      assert FreeTiles(a.tiles, a.live, a.lists[k], k);
      TileInArena(a.base, a.len, a.mem, a.qlists, a.tiles, a.live, a.lists, hi, c);
      TilesDisjoint(a.tiles, lo, hi, b, c);
    }
  }

  /** A block given back is the next one handed out for its class. */
  method FreeThenMalloc(a: Allocator, p: Addr, layout: Layout, again: Layout) returns (r: Option<Addr>)
    requires a.Valid() && IsQuick(layout) && p in a.live && a.live[p] == ClassOf(layout)
    requires IsQuick(again) && ClassOf(again) == ClassOf(layout)
    modifies a
    ensures a.Valid() && r == Some(p) && a.live == old(a.live) && a.lists == old(a.lists)
  {
    ghost var lists0, live0, k := a.lists, a.live, ClassOf(layout);
    a.Free(Some(p), layout);
    PushPop(lists0, live0, k, p);
    r := a.Malloc(again);
  }

  lemma PushPop(lists: seq<seq<Addr>>, live: map<Addr, nat>, k: nat, p: Addr)
    requires k < |lists| && p in live && live[p] == k
    ensures var pushed := lists[k := [p] + lists[k]];
            && pushed[k] != [] && pushed[k][0] == p && pushed[k := pushed[k][1..]] == lists
            && (live - {p})[p := k] == live
  {
    assert ([p] + lists[k])[1..] == lists[k];
  }

  /** In an arena of 128 bytes, a block of 100 bytes cannot be resized to 120. */
  method ReallocRefuses(mem: Memory) returns (a: Allocator, p: Addr, r: Option<Addr>)
    requires forall x | 0x80 <= x < 0x100 :: x in mem
    ensures a.Valid() && a.live == map[p := 1] && ClassSize(1) == 128
    ensures r == None
  {
    FitsButMoves();
    a := new Allocator(0x80, 0x80, mem);
    assert BumpAlloc.FitsAt(0x80, 0x80, 0, 128, 128, 0x80);
    var block := a.Malloc(Layout(100, 8));
    p := block.value;
    FullArena(a, p, 1);
    r := a.Realloc(block, Layout(100, 8), 120);
  }

  /** The memories along a move: before it, after the allocation, after the copy, after the old block is freed. */
  lemma Moved(mem0: Memory, mem1: Memory, mem2: Memory, mem3: Memory, live0: map<Addr, nat>, live3: map<Addr, nat>,
              p: Addr, q: Addr, n: nat)
    requires p in live0 && n <= ClassSize(live0[p])
    requires q in live3 && n <= ClassSize(live3[q])
    requires forall a | a in live0 && a != p :: a in live3 && live3[a] == live0[a]
    requires forall a | p <= a < p + ClassSize(live0[p]) :: a in mem0
    requires SameContents(mem1, p, mem2, q, n)
    requires LiveKept(mem0, mem1, live0) && LiveKept(mem1, mem2, live0) && LiveKept(mem2, mem3, live3)
    ensures LiveKept(mem0, mem3, live0 - {p})
    ensures SameContents(mem0, p, mem3, q, n)
  {
    forall a | a in live0 - {p}
      ensures SameBytes(mem0, mem3, a, a + ClassSize(live0[a]))
    {
      assert SameBytes(mem0, mem1, a, a + ClassSize(live0[a]));
      assert SameBytes(mem1, mem2, a, a + ClassSize(live0[a]));
      assert SameBytes(mem2, mem3, a, a + ClassSize(live3[a]));
    }
    assert SameBytes(mem2, mem3, q, q + ClassSize(live3[q]));
    assert SameBytes(mem0, mem1, p, p + ClassSize(live0[p]));
    forall i | 0 <= i < n
      ensures ByteAt(mem0, p, i).Some? && ByteAt(mem3, q, i) == ByteAt(mem0, p, i)
    {
      assert ByteAt(mem1, p, i).Some? && ByteAt(mem2, q, i) == ByteAt(mem1, p, i);
      assert p + i in mem0;
    }
  }

  lemma CopyContents(mem: Memory, p: Addr, q: Addr, n: nat)
    requires forall a | p <= a < p + n :: a in mem
    requires forall a | q <= a < q + n :: a in mem
    ensures SameContents(mem, p, Copy(mem, p, q, n), q, n)
  {
    forall i | 0 <= i < n
      ensures ByteAt(mem, p, i).Some? && ByteAt(Copy(mem, p, q, n), q, i) == ByteAt(mem, p, i)
    {
      assert p + i in mem && q + i in mem;
    }
  }
}
