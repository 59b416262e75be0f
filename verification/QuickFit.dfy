/**
 The QuickFit heap on its quick lists (port/src/allocator.rs): size classes,
 intrusive free lists in the heap's own memory, and the greedy splitting of the
 prefix that a tail allocation leaves.
 */
module QuickFit {
  import opened Wrappers
  import opened Bits
  import Mem
  import opened BumpAlloc

  const ALLOC_UNIT_SHIFT: nat := 6
  const MIN_ALLOC_SIZE: nat := 64
  const MAX_QUICK_SIZE: nat := 16384
  const NUM_QLISTS: nat := 9

  type Addr = nat

  // ----- layouts and size classes

  datatype Layout = Layout(size: nat, align: nat)

  function NextPowerOfTwo(n: nat): nat {
    RaiseTo(n, 0)
  }

  /** The first power of two from `Pow2(j)` on that is not below `n`. */
  function RaiseTo(n: nat, j: nat): (r: nat)
    ensures r >= n && r >= Pow2(j)
    ensures r > Pow2(j) ==> r < 2 * n
    decreases if Pow2(j) < n then n - Pow2(j) else 0
  {
    if n <= Pow2(j) then Pow2(j) else RaiseTo(n, j + 1)
  }

  function Log2(n: nat): nat {
    if n < 2 then 0 else 1 + Log2(n / 2)
  }

  function Max(a: nat, b: nat): nat {
    if a < b then b else a
  }

  /** The block size of class `k`. */
  function ClassSize(k: nat): (s: nat)
    ensures s >= 64
  {
    Pow2Monotone(6, k + 6);
    assert Pow2(6) == 64;
    Pow2(k + ALLOC_UNIT_SHIFT)
  }

  function Adjust(layout: Layout): (nat, nat) {
    if layout.size > MAX_QUICK_SIZE then (layout.size, layout.align)
    else
      var size := Max(MIN_ALLOC_SIZE, NextPowerOfTwo(layout.size));
      (size, Max(layout.align, size))
  }

  /** Layouts served from the quick lists: neither large nor over-aligned. */
  predicate IsQuick(layout: Layout) {
    layout.size <= MAX_QUICK_SIZE && layout.align <= Adjust(layout).0
  }

  function ClassOf(layout: Layout): nat {
    var l := Log2(Adjust(layout).0);
    if l < ALLOC_UNIT_SHIFT then 0 else l - ALLOC_UNIT_SHIFT
  }

  lemma {:induction false} RaiseToPow2(n: nat, j: nat, m: nat) returns (i: nat)
    requires n <= Pow2(m) && j <= m
    ensures j <= i <= m && RaiseTo(n, j) == Pow2(i)
    decreases m - j
  {
    if n <= Pow2(j) {
      i := j;
    } else {
      i := RaiseToPow2(n, j + 1, m);
    }
  }

  lemma {:induction false} Log2Pow2(j: nat)
    ensures Log2(Pow2(j)) == j
  {
    if j > 0 {
      Log2Pow2(j - 1);
    }
  }

  /** A quick layout is adjusted to the size and alignment of its class, the smallest class that fits it. */
  lemma AdjustQuick(layout: Layout)
    requires IsQuick(layout)
    ensures var k := ClassOf(layout);
            && k < NUM_QLISTS
            && Adjust(layout) == (ClassSize(k), ClassSize(k))
            && layout.size <= ClassSize(k)
            && (k > 0 ==> ClassSize(k) < 2 * layout.size)
  {
    assert Pow2(14) == MAX_QUICK_SIZE;
    assert Pow2(6) == MIN_ALLOC_SIZE;
    var i := RaiseToPow2(layout.size, 0, 14);
    if i <= 6 {
      Pow2Monotone(i, 6);
      Log2Pow2(6);
    } else {
      Pow2Monotone(6, i);
      Log2Pow2(i);
      Pow2Strict(6, i);
    }
  }

  lemma Pow2Strict(j: nat, k: nat)
    requires j < k
    ensures Pow2(j) < Pow2(k)
  {
    Pow2Monotone(j + 1, k);
  }

  /** The layout under which `try_free_prefix` frees a block belongs to that block's class. */
  lemma ClassLayout(k: nat)
    requires k < NUM_QLISTS
    ensures IsQuick(Layout(ClassSize(k), ClassSize(k))) && ClassOf(Layout(ClassSize(k), ClassSize(k))) == k
  {
    assert Pow2(14) == MAX_QUICK_SIZE;
    Pow2Monotone(k + 6, 14);
    RaisePow2(k + 6, 0);
    Log2Pow2(k + 6);
  }

  lemma {:induction false} RaisePow2(m: nat, j: nat)
    requires j <= m
    ensures RaiseTo(Pow2(m), j) == Pow2(m)
    decreases m - j
  {
    if j < m {
      Pow2Strict(j, m);
      RaisePow2(m, j + 1);
    }
  }

  // ----- memory

  /** The header that links a free block, stored in the block's own first 64 bytes. */
  datatype Header = Header(next: Option<Addr>, addr: Addr, size: nat, align: nat)

  /** What a byte of memory holds: data, or byte `i` of a header. */
  datatype Cell = Data(value: nat) | Part(header: Header, i: nat)

  type Memory = map<Addr, Cell>

  const HEADER_SIZE: nat := 64

  function WriteHeader(mem: Memory, p: Addr, h: Header): (mem': Memory)
    ensures mem'.Keys == mem.Keys
  {
    map a | a in mem :: if p <= a < p + HEADER_SIZE then Part(h, a - p) else mem[a]
  }

  /** An intact header at `p`. */
  predicate HasHeader(mem: Memory, p: Addr, h: Header) {
    forall a | p <= a < p + HEADER_SIZE :: a in mem && mem[a] == Part(h, a - p)
  }

  /** `head` is the list of the addresses `q`, linked through headers of class `k`. */
  predicate ListAt(mem: Memory, head: Option<Addr>, q: seq<Addr>, k: nat)
    decreases |q|
  {
    if q == [] then head == None
    else
      && head == Some(q[0]) && q[0] in mem && mem[q[0]].Part?
      && var h := mem[q[0]].header;
      && HasHeader(mem, q[0], h)
      && h.addr == q[0] && h.size == ClassSize(k) && h.align == ClassSize(k)
      && ListAt(mem, h.next, q[1..], k)
  }

  /** Both memories hold the same bytes from `lo` up to `hi`. */
  ghost predicate SameBytes(mem: Memory, mem': Memory, lo: nat, hi: nat) {
    forall a | lo <= a < hi && a in mem :: a in mem' && mem'[a] == mem[a]
  }

  /** The header bytes of every block of `q` are the same in both memories. */
  ghost predicate SameHeaders(mem: Memory, mem': Memory, q: seq<Addr>) {
    forall j | 0 <= j < |q| :: SameBytes(mem, mem', q[j], q[j] + HEADER_SIZE)
  }

  lemma {:induction false} ListKept(mem: Memory, mem': Memory, head: Option<Addr>, q: seq<Addr>, k: nat)
    requires ListAt(mem, head, q, k) && SameHeaders(mem, mem', q)
    ensures ListAt(mem', head, q, k)
    decreases |q|
  {
    if q != [] {
      var h := mem[q[0]].header;
      assert SameBytes(mem, mem', q[0], q[0] + HEADER_SIZE);
      assert HasHeader(mem', q[0], h);
      assert forall j | 0 <= j < |q[1..]| :: q[1..][j] == q[j + 1];
      ListKept(mem, mem', h.next, q[1..], k);
    }
  }

  // ----- tiles

  /** A block of the heap, live or free, of the size of its class. */
  datatype Block = Block(addr: Addr, k: nat) {
    function End(): nat {
      addr + ClassSize(k)
    }
  }

  /** The blocks lie end to end from `lo` to `hi`, each aligned to its size. */
  predicate Tiled(tiles: seq<Block>, lo: nat, hi: nat) {
    if tiles == [] then lo == hi
    else
      var b := tiles[|tiles| - 1];
      && b.k < NUM_QLISTS && Aligned(b.addr, ClassSize(b.k)) && b.End() == hi
      && Tiled(tiles[..|tiles| - 1], lo, b.addr)
  }

  lemma TiledSnoc(tiles: seq<Block>, lo: nat, hi: nat, b: Block)
    requires Tiled(tiles, lo, hi)
    requires b.addr == hi && b.k < NUM_QLISTS && Aligned(b.addr, ClassSize(b.k))
    ensures Tiled(tiles + [b], lo, b.End())
  {
    assert (tiles + [b])[..|tiles|] == tiles;
  }

  /** Tiles are in bounds, aligned, and in address order without overlap. */
  lemma {:induction false} TiledOrder(tiles: seq<Block>, lo: nat, hi: nat, i: nat, j: nat)
    requires Tiled(tiles, lo, hi) && i <= j < |tiles|
    ensures lo <= tiles[j].addr && tiles[j].End() <= hi
    ensures tiles[j].k < NUM_QLISTS && Aligned(tiles[j].addr, ClassSize(tiles[j].k))
    ensures i < j ==> tiles[i].End() <= tiles[j].addr
    decreases |tiles|
  {
    var n := |tiles| - 1;
    TiledBounds(tiles[..n], lo, tiles[n].addr);
    if j < n {
      TiledOrder(tiles[..n], lo, tiles[n].addr, i, j);
    } else if i < n {
      TiledOrder(tiles[..n], lo, tiles[n].addr, i, i);
    }
  }

  lemma {:induction false} TiledBounds(tiles: seq<Block>, lo: nat, hi: nat)
    requires Tiled(tiles, lo, hi)
    ensures lo <= hi
    decreases |tiles|
  {
    if tiles != [] {
      TiledBounds(tiles[..|tiles| - 1], lo, tiles[|tiles| - 1].addr);
    }
  }

  /** Every byte between the ends belongs to a tile. */
  lemma {:induction false} TiledCovers(tiles: seq<Block>, lo: nat, hi: nat, x: Addr) returns (i: nat)
    requires Tiled(tiles, lo, hi) && lo <= x < hi
    ensures i < |tiles| && tiles[i].addr <= x < tiles[i].End()
    decreases |tiles|
  {
    var n := |tiles| - 1;
    if x < tiles[n].addr {
      i := TiledCovers(tiles[..n], lo, tiles[n].addr, x);
    } else {
      i := n;
    }
  }

  /** Two different tiles share no byte. */
  lemma TilesDisjoint(tiles: seq<Block>, lo: nat, hi: nat, b: Block, c: Block)
    requires Tiled(tiles, lo, hi) && b in tiles && c in tiles
    ensures b == c || b.End() <= c.addr || c.End() <= b.addr
  {
    var i :| 0 <= i < |tiles| && tiles[i] == b;
    var j :| 0 <= j < |tiles| && tiles[j] == c;
    if i < j {
      TiledOrder(tiles, lo, hi, i, j);
    } else if j < i {
      TiledOrder(tiles, lo, hi, j, i);
    }
  }

  /** The sizes of the tiles add up to the memory they cover. */
  function TotalSize(tiles: seq<Block>): nat {
    if tiles == [] then 0 else TotalSize(tiles[..|tiles| - 1]) + ClassSize(tiles[|tiles| - 1].k)
  }

  lemma {:induction false} TilesConserve(tiles: seq<Block>, lo: nat, hi: nat)
    requires Tiled(tiles, lo, hi)
    ensures lo + TotalSize(tiles) == hi
    decreases |tiles|
  {
    if tiles != [] {
      TilesConserve(tiles[..|tiles| - 1], lo, tiles[|tiles| - 1].addr);
    }
  }

  // ----- the free lists

  /** Heads, lists and memory agree. */
  ghost predicate ListsAt(mem: Memory, heads: seq<Option<Addr>>, lists: seq<seq<Addr>>) {
    && |heads| == |lists| == NUM_QLISTS
    && forall k | 0 <= k < NUM_QLISTS :: ListAt(mem, heads[k], lists[k], k)
  }

  /** The header of every listed block other than `p` lies clear of the header bytes at `p`. */
  ghost predicate Clear(lists: seq<seq<Addr>>, p: Addr) {
    forall k | 0 <= k < |lists| :: ClearOf(lists[k], p)
  }

  ghost predicate ClearOf(q: seq<Addr>, p: Addr) {
    forall j | 0 <= j < |q| :: q[j] == p || q[j] + HEADER_SIZE <= p || p + HEADER_SIZE <= q[j]
  }

  lemma WriteKeepsList(mem: Memory, p: Addr, h: Header, head: Option<Addr>, q: seq<Addr>, k: nat)
    requires ListAt(mem, head, q, k) && ClearOf(q, p) && p !in q
    ensures ListAt(WriteHeader(mem, p, h), head, q, k)
  {
    var mem' := WriteHeader(mem, p, h);
    forall j | 0 <= j < |q|
      ensures SameBytes(mem, mem', q[j], q[j] + HEADER_SIZE)
    {
      assert q[j] != p;
    }
    ListKept(mem, mem', head, q, k);
  }

  /** `free`'s store: `p` becomes the head of list `k`. */
  lemma PushListed(mem: Memory, heads: seq<Option<Addr>>, lists: seq<seq<Addr>>, p: Addr, k: nat)
    requires ListsAt(mem, heads, lists) && k < NUM_QLISTS
    requires Clear(lists, p) && forall j | 0 <= j < NUM_QLISTS :: p !in lists[j]
    requires forall a | p <= a < p + HEADER_SIZE :: a in mem
    ensures var mem' := WriteHeader(mem, p, Header(heads[k], p, ClassSize(k), ClassSize(k)));
            ListsAt(mem', heads[k := Some(p)], lists[k := [p] + lists[k]])
  {
    var h := Header(heads[k], p, ClassSize(k), ClassSize(k));
    var mem' := WriteHeader(mem, p, h);
    var heads', lists' := heads[k := Some(p)], lists[k := [p] + lists[k]];
    forall j | 0 <= j < NUM_QLISTS
      ensures ListAt(mem', heads'[j], lists'[j], j)
    {
      WriteKeepsList(mem, p, h, heads[j], lists[j], j);
      if j == k {
        assert ([p] + lists[k])[1..] == lists[k];
        assert HasHeader(mem', p, h);
      }
    }
  }

  /** `head`'s unlinking: the first block of list `k` leaves it. */
  lemma PopListed(mem: Memory, heads: seq<Option<Addr>>, lists: seq<seq<Addr>>, k: nat, h: Header)
    requires ListsAt(mem, heads, lists) && k < NUM_QLISTS && lists[k] != []
    requires Clear(lists, lists[k][0])
    requires forall j | 0 <= j < NUM_QLISTS :: lists[k][0] !in (if j == k then lists[k][1..] else lists[j])
    requires HasHeader(mem, lists[k][0], h)
    ensures heads[k] == Some(lists[k][0]) && h.addr == lists[k][0]
    ensures ListsAt(WriteHeader(mem, lists[k][0], h.(next := None)), heads[k := h.next], lists[k := lists[k][1..]])
  {
    var p := lists[k][0];
    var mem' := WriteHeader(mem, p, h.(next := None));
    assert ListAt(mem, heads[k], lists[k], k);
    assert mem[p] == Part(h, 0);
    var heads', lists' := heads[k := h.next], lists[k := lists[k][1..]];
    forall j | 0 <= j < NUM_QLISTS
      ensures ListAt(mem', heads'[j], lists'[j], j)
    {
      if j == k {
        assert forall i | 0 <= i < |lists[k][1..]| :: lists[k][1..][i] == lists[k][i + 1];
        assert ClearOf(lists[k], p);
        WriteKeepsList(mem, p, h.(next := None), h.next, lists[k][1..], k);
      } else {
        WriteKeepsList(mem, p, h.(next := None), heads[j], lists[j], j);
      }
    }
  }

  // ----- live blocks and listed blocks

  predicate Distinct(q: seq<Addr>) {
    forall i, j | 0 <= i < j < |q| :: q[i] != q[j]
  }

  /** The blocks of list `k` are tiles of class `k`, none of them live, none listed twice. */
  ghost predicate FreeTiles(tiles: seq<Block>, live: map<Addr, nat>, q: seq<Addr>, k: nat) {
    Distinct(q) && forall j | 0 <= j < |q| :: Block(q[j], k) in tiles && q[j] !in live
  }

  /** Every tile is either live or in the list of its class, and nothing else is. */
  ghost predicate Partition(tiles: seq<Block>, live: map<Addr, nat>, lists: seq<seq<Addr>>) {
    && |lists| == NUM_QLISTS
    && (forall a | a in live :: Block(a, live[a]) in tiles)
    && (forall k | 0 <= k < NUM_QLISTS :: FreeTiles(tiles, live, lists[k], k))
    && (forall b | b in tiles :: b.k < NUM_QLISTS && (b.addr in live || b.addr in lists[b.k]))
  }

  lemma TileAt(tiles: seq<Block>, lo: nat, hi: nat, b: Block, c: Block)
    requires Tiled(tiles, lo, hi) && b in tiles && c in tiles && b.addr == c.addr
    ensures b == c
  {
    TilesDisjoint(tiles, lo, hi, b, c);
  }

  /** Different tiles keep their headers apart, so the lists are clear of any tile's header. */
  lemma TilesClear(tiles: seq<Block>, lo: nat, hi: nat, live: map<Addr, nat>, lists: seq<seq<Addr>>, b: Block)
    requires Tiled(tiles, lo, hi) && Partition(tiles, live, lists) && b in tiles
    ensures Clear(lists, b.addr)
    ensures forall k | 0 <= k < NUM_QLISTS && b.addr in lists[k] :: k == b.k
  {
    forall k | 0 <= k < NUM_QLISTS
      ensures ClearOf(lists[k], b.addr) && (b.addr in lists[k] ==> k == b.k)
    {
      assert FreeTiles(tiles, live, lists[k], k);
      forall j | 0 <= j < |lists[k]|
        ensures lists[k][j] == b.addr || lists[k][j] + HEADER_SIZE <= b.addr || b.addr + HEADER_SIZE <= lists[k][j]
      {
        TilesDisjoint(tiles, lo, hi, Block(lists[k][j], k), b);
      }
      if b.addr in lists[k] {
        var j :| 0 <= j < |lists[k]| && lists[k][j] == b.addr;
        TileAt(tiles, lo, hi, Block(lists[k][j], k), b);
      }
    }
  }

  /** Past the last tile there is room for a header. */
  lemma BeyondClear(tiles: seq<Block>, lo: nat, hi: nat, live: map<Addr, nat>, lists: seq<seq<Addr>>)
    requires Tiled(tiles, lo, hi) && Partition(tiles, live, lists)
    ensures Clear(lists, hi) && hi !in live
    ensures forall k | 0 <= k < NUM_QLISTS :: hi !in lists[k]
    ensures forall b | b in tiles :: b.End() <= hi
  {
    forall b | b in tiles
      ensures b.End() <= hi
    {
      var i :| 0 <= i < |tiles| && tiles[i] == b;
      TiledOrder(tiles, lo, hi, i, i);
    }
    forall k | 0 <= k < NUM_QLISTS
      ensures ClearOf(lists[k], hi) && hi !in lists[k]
    {
      assert FreeTiles(tiles, live, lists[k], k);
    }
  }

  lemma PartitionFree(tiles: seq<Block>, lo: nat, hi: nat, live: map<Addr, nat>, lists: seq<seq<Addr>>, p: Addr)
    requires Tiled(tiles, lo, hi) && Partition(tiles, live, lists) && p in live
    ensures live[p] < NUM_QLISTS
    ensures Partition(tiles, live - {p}, lists[live[p] := [p] + lists[live[p]]])
  {
    var k := live[p];
    var live', lists' := live - {p}, lists[k := [p] + lists[k]];
    assert Block(p, k) in tiles;
    forall j | 0 <= j < NUM_QLISTS
      ensures FreeTiles(tiles, live', lists'[j], j)
    {
      assert FreeTiles(tiles, live, lists[j], j);
    }
    forall b | b in tiles
      ensures b.addr in live' || b.addr in lists'[b.k]
    {
      if b.addr == p {
        TileAt(tiles, lo, hi, b, Block(p, k));
        assert lists'[k][0] == p;
      } else if b.addr in lists[b.k] && b.k == k {
        var i :| 0 <= i < |lists[k]| && lists[k][i] == b.addr;
        assert lists'[k][i + 1] == b.addr;
      }
    }
  }

  lemma PartitionAllocate(tiles: seq<Block>, lo: nat, hi: nat, live: map<Addr, nat>, lists: seq<seq<Addr>>, k: nat)
    requires Tiled(tiles, lo, hi) && Partition(tiles, live, lists) && k < NUM_QLISTS && lists[k] != []
    ensures lists[k][0] !in live
    ensures Partition(tiles, live[lists[k][0] := k], lists[k := lists[k][1..]])
  {
    var p := lists[k][0];
    var live', lists' := live[p := k], lists[k := lists[k][1..]];
    assert FreeTiles(tiles, live, lists[k], k);
    assert Block(p, k) in tiles;
    TilesClear(tiles, lo, hi, live, lists, Block(p, k));
    forall j | 0 <= j < NUM_QLISTS
      ensures FreeTiles(tiles, live', lists'[j], j)
    {
      assert FreeTiles(tiles, live, lists[j], j);
      assert j != k ==> p !in lists[j];
      assert j == k ==> forall i | 0 <= i < |lists'[k]| :: lists'[k][i] == lists[k][i + 1];
    }
    forall b | b in tiles
      ensures b.addr in live' || b.addr in lists'[b.k]
    {
      if b.addr != p && b.addr in lists[b.k] && b.k == k {
        var i :| 0 <= i < |lists[k]| && lists[k][i] == b.addr;
        assert lists'[k][i - 1] == b.addr;
      }
    }
  }

  lemma PartitionAddLive(tiles: seq<Block>, lo: nat, hi: nat, live: map<Addr, nat>, lists: seq<seq<Addr>>, k: nat)
    requires Tiled(tiles, lo, hi) && Partition(tiles, live, lists) && k < NUM_QLISTS
    ensures hi !in live
    ensures Partition(tiles + [Block(hi, k)], live[hi := k], lists)
  {
    var tiles' := tiles + [Block(hi, k)];
    BeyondClear(tiles, lo, hi, live, lists);
    assert forall b :: b in tiles' <==> b in tiles || b == Block(hi, k);
    forall j | 0 <= j < NUM_QLISTS
      ensures FreeTiles(tiles', live[hi := k], lists[j], j)
    {
      assert FreeTiles(tiles, live, lists[j], j);
    }
  }

  /** A new tile that is freed at once. */
  lemma PartitionAddFree(tiles: seq<Block>, lo: nat, hi: nat, live: map<Addr, nat>, lists: seq<seq<Addr>>, k: nat)
    requires Tiled(tiles, lo, hi) && Partition(tiles, live, lists) && k < NUM_QLISTS && Aligned(hi, ClassSize(k))
    ensures Partition(tiles + [Block(hi, k)], live, lists[k := [hi] + lists[k]])
  {
    PartitionAddLive(tiles, lo, hi, live, lists, k);
    TiledSnoc(tiles, lo, hi, Block(hi, k));
    PartitionFree(tiles + [Block(hi, k)], lo, hi + ClassSize(k), live[hi := k], lists, hi);
    assert live[hi := k] - {hi} == live;
  }
}
