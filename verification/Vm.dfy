/**
 Editing a page table through its recursive slot (aarch64/src/vm.rs, `next_mut`,
 `map_to`, `map_phys_range`).

 A pointer into the KZERO linear map is a physical frame.  Every other table
 pointer is a virtual address that the MMU translates, at each access, through
 the table in ttbr1 as it is at that moment.
 */
module Vm {
  import opened Wrappers
  import opened Bits
  import opened Mem
  import opened Descriptor
  import opened PageTable
  import opened PageTableShape
  import opened VirtualAddress

  const KZERO: VirtAddr := 0xffff_8000_0000_0000


  datatype PageSize = Page4K | Page2M | Page1G {
    /** The depth of the entries that map blocks of this size. */
    function Depth(): Depth {
      match this
      case Page4K => 3
      case Page2M => 2
      case Page1G => 1
    }

    function Size(): (s: U64)
      ensures s == BlockSize(Depth())
    {
      match this
      case Page4K => PAGE_SIZE_4K
      case Page2M => PAGE_SIZE_2M
      case Page1G => PAGE_SIZE_1G
    }

    /** The number of the block that `x` lies in. */
    function BlockOf(x: nat): nat {
      match this
      case Page4K => x / PAGE_SIZE_4K
      case Page2M => x / PAGE_SIZE_2M
      case Page1G => x / PAGE_SIZE_1G
    }

    /** Where in its block `x` lies. */
    function Offset(x: nat): nat {
      match this
      case Page4K => x % PAGE_SIZE_4K
      case Page2M => x % PAGE_SIZE_2M
      case Page1G => x % PAGE_SIZE_1G
    }
  }

  lemma {:induction false} PageSizesPow2()
    ensures forall size: PageSize :: IsPow2(size.Size())
  {
    Pow2Constants();
    Pow2IsPow2(12);
    Pow2IsPow2(21);
    Pow2IsPow2(30);
  }

  /** The output address of a leaf: its aligned block address and the offset of `va` in the block. */
  function OutputAddr(leaf: Leaf, va: VirtAddr): PhysAddr {
    var pa := leaf.entry.addr * 0x1000;
    pa - BlockOffset(pa, leaf.depth) + BlockOffset(va, leaf.depth)
  }

  /** An entry maps each address to the block that holds the entry's address, at the same offset. */
  lemma {:induction false} BlockOutput(leaf: Leaf, size: PageSize, va: VirtAddr)
    requires leaf.depth == size.Depth()
    ensures var pa := 0x1000 * leaf.entry.addr; OutputAddr(leaf, va) == pa - size.Offset(pa) + size.Offset(va)
  {
    match size
    case Page4K =>
    case Page2M =>
    case Page1G =>
  }

  /** The MMU: the physical address that `va` reads through the tables at `root`. */
  function Translate(mem: Memory, root: Frame, va: VirtAddr): Option<PhysAddr> {
    if !IsHigh(va) then None
    else
      match Walk(mem, root, Indices(va))
      case None => None
      case Some(leaf) => Some(OutputAddr(leaf, va))
  }

  /** A `&mut Table`: through the linear map, or at a virtual address. */
  datatype TableRef = Linear(frame: Frame) | Virtual(va: VirtAddr)

  /** The frame an access through `t` reaches. */
  function Resolve(mem: Memory, ttbr: Frame, t: TableRef): Option<Frame> {
    match t
    case Linear(f) => Some(f)
    case Virtual(va) =>
      match Translate(mem, ttbr, va)
      case None => None
      case Some(pa) => if pa / 0x1000 < 0x10_0000_0000 then Some(pa / 0x1000) else None
  }

  /** The recursive address of `va`'s table at `level` resolves to exactly that table. */
  lemma {:induction false} RecursiveResolve(mem: Memory, ttbr: Frame, root: Frame, va: VirtAddr, level: Level)
    requires Recursive(mem, ttbr, root) && Recursive(mem, root, root)
    requires TableAt(mem, root, Indices(va)[..level.Depth()]).Some?
    ensures Translate(mem, ttbr, RecursiveTableAddr(va, level)).Some?
    ensures Resolve(mem, ttbr, Virtual(RecursiveTableAddr(va, level)))
         == TableAt(mem, root, Indices(va)[..level.Depth()])
  {
    ResolveAt(mem, ttbr, root, Indices(va)[..level.Depth()], RecursiveTableAddr(va, level));
  }

  lemma {:induction false} ResolveAt(mem: Memory, ttbr: Frame, root: Frame, p: Path, r: VirtAddr)
    requires Recursive(mem, ttbr, root) && Recursive(mem, root, root)
    requires |p| <= 3 && TableAt(mem, root, p).Some?
    requires IsHigh(r) && r % 0x1000 == 0 && Indices(r) == Repeat(4 - |p|) + p
    ensures Translate(mem, ttbr, r).Some?
    ensures Resolve(mem, ttbr, Virtual(r)) == TableAt(mem, root, p)
  {
    var f := TableAt(mem, root, p).value;
    RecursiveLanding(mem, ttbr, root, p, f);
    WalkToTable(mem, ttbr, Indices(r), f);
    PageOutput(Walk(mem, ttbr, Indices(r)).value, r);
  }

  lemma {:induction false} PageOutput(leaf: Leaf, va: VirtAddr)
    requires leaf.depth == 3 && va % 0x1000 == 0
    ensures OutputAddr(leaf, va) / 0x1000 == leaf.entry.addr
  {
  }

  // ----- what a partial edit keeps

  ghost predicate InTree(mem: Memory, root: Frame, f: Frame) {
    exists p {:trigger IsTableAt(mem, root, p)} :: IsTableAt(mem, root, p) && TableAt(mem, root, p) == Some(f)
  }

  /**
   `mem'` extends the tables below `root` by tables taken from `free`, with no
   effect on any translation and on no frame outside the tree.
   */
  ghost predicate Extends(mem: Memory, free: set<Frame>, mem': Memory, free': set<Frame>, ttbr: Frame, root: Frame) {
    && mem'.Keys == mem.Keys && free' <= free
    && ttbr in mem && mem'[ttbr][RECURSIVE] == mem[ttbr][RECURSIVE]
    && SameWalks(mem, mem', root)
    && (forall f | f in mem && f !in free && !InTree(mem, root, f) :: mem'[f] == mem[f])
    && (forall f | InTree(mem', root, f) :: InTree(mem, root, f) || f in free)
  }

  /** The state in which `map_to` works: slot 511 of ttbr1 leads to `root`. */
  ghost predicate Editing(mem: Memory, free: set<Frame>, ttbr: Frame, root: Frame) {
    Tree(mem, free, ttbr, root) && Recursive(mem, ttbr, root) && Recursive(mem, root, root)
  }

  lemma {:induction false} ExtendsTransitive(m0: Memory, f0: set<Frame>, m1: Memory, f1: set<Frame>, m2: Memory,
                                             f2: set<Frame>, ttbr: Frame, root: Frame)
    requires Extends(m0, f0, m1, f1, ttbr, root) && Extends(m1, f1, m2, f2, ttbr, root)
    ensures Extends(m0, f0, m2, f2, ttbr, root)
  {
  }

  lemma {:induction false} LinkExtends(mem: Memory, free: set<Frame>, ttbr: Frame, root: Frame, p: Path, i: Index,
                                       n: Frame)
    requires Editing(mem, free, ttbr, root)
    requires IsTableAt(mem, root, p) && n in free && |p| <= 2 && Pos(p + [i])
    requires !mem[TableAt(mem, root, p).value][i].valid
    ensures var mem' := Link(mem, TableAt(mem, root, p).value, i, n);
            && Editing(mem', free - {n}, ttbr, root)
            && Extends(mem, free, mem', free - {n}, ttbr, root)
            && TableAt(mem', root, p + [i]) == Some(n)
  {
    var f := TableAt(mem, root, p).value;
    var mem' := Link(mem, f, i, n);
    assert f == root ==> p == [] && i != RECURSIVE by {
      assert IsTableAt(mem, root, []);
      if p == [] {
        assert (p + [i])[0] == i;
      }
    }
    assert f == ttbr ==> p == [];
    assert n != root by { assert IsTableAt(mem, root, []); }
    LinkKeepsTree(mem, free, ttbr, root, p, i, n);
    LinkBelow(mem, free, ttbr, root, p, i, n, p + [i]);
    forall idx | |idx| == 4 && Pos(idx)
      ensures Walk(mem', root, idx) == Walk(mem, root, idx)
    {
      LinkKeepsWalks(mem, free, ttbr, root, p, i, n, idx);
    }
    forall g | InTree(mem', root, g)
      ensures InTree(mem, root, g) || g in free
    {
      var q :| IsTableAt(mem', root, q) && TableAt(mem', root, q) == Some(g);
      if p + [i] <= q {
        LinkBelow(mem, free, ttbr, root, p, i, n, q);
      } else {
        LinkAgrees(mem, free, ttbr, root, p, i, n);
        AgreeTableAt(mem, mem', root, p + [i], q);
        assert IsTableAt(mem, root, q);
      }
    }
    assert InTree(mem, root, f);
  }

  // ----- reaching a table step by step

  /** One step down to position `q`: the table there was found or made. */
  ghost predicate Stepped(mem: Memory, avail: nat, mem': Memory, avail': nat, root: Frame, q: Path) {
    && Grew(mem, mem', root, q, 3) && !BlockAt(mem, root, q)
    && avail == avail' + if TableAt(mem, root, q).None? then 1 else 0
  }

  /** There is no table at position `q` and none can be made. */
  ghost predicate Stuck(mem: Memory, free: set<Frame>, root: Frame, q: Path, err: PageTableError) {
    && TableAt(mem, root, q).None?
    && if BlockAt(mem, root, q) then err == EntryIsNotTable else err == AllocationFailed && free == {}
  }

  /** A whole edit has made just the tables missing on the way to `p`, and spent a frame on each. */
  ghost predicate Took(mem: Memory, avail: nat, mem': Memory, avail': nat, root: Frame, p: Path) {
    Grew(mem, mem', root, p, |p|) && avail == avail' + Lacking(mem, root, p)
  }

  /** An edit that began in `mem` has made the tables on the way to `p`. */
  ghost predicate Came(mem: Memory, avail: nat, mem': Memory, avail': nat, root: Frame, p: Path) {
    && Grew(mem, mem', root, p, 3) && !Blocked(mem, root, p)
    && avail == avail' + Lacking(mem, root, p)
  }

  lemma {:induction false} CameStep(m0: Memory, a0: nat, m1: Memory, a1: nat, m2: Memory, a2: nat, root: Frame,
                                    p: Path, i: Index)
    requires Came(m0, a0, m1, a1, root, p) && Stepped(m1, a1, m2, a2, root, p + [i])
    requires Pos(p + [i]) && |p| <= 2
    ensures Came(m0, a0, m2, a2, root, p + [i])
  {
    LackingStep(m0, root, p, i);
    NoneYet(m0, m1, root, p, i);
    GrewJoin(m0, m1, m2, root, p, p + [i], 3);
  }

  /** One step below where an edit has come, everything is as it was. */
  lemma {:induction false} NoneYet(m0: Memory, m1: Memory, root: Frame, p: Path, i: Index)
    requires Grew(m0, m1, root, p, 3) && Pos(p + [i]) && |p| <= 2
    ensures TableAt(m1, root, p + [i]).Some? <==> TableAt(m0, root, p + [i]).Some?
    ensures BlockAt(m1, root, p + [i]) <==> BlockAt(m0, root, p + [i])
  {
    assert !(p + [i] <= p);
  }

  lemma {:induction false} CameStuck(m0: Memory, a0: nat, m1: Memory, free1: set<Frame>, root: Frame, p: Path,
                                     i: Index, q: Path, err: PageTableError)
    requires Came(m0, a0, m1, |free1|, root, p) && Stuck(m1, free1, root, p + [i], err)
    requires Pos(p + [i]) && |p| <= 2 && p + [i] <= q
    ensures Obstacle(m0, root, q, a0) == Some(err)
  {
    LackingStep(m0, root, p, i);
    NoneYet(m0, m1, root, p, i);
    ObstacleBelow(m0, root, p + [i], q);
    if !BlockAt(m0, root, p + [i]) {
      FreeBelow(m0, root, p + [i], q);
    }
  }

  // ----- what a whole edit does

  /** Frames that are neither free nor tables below `root` keep their contents and stay out of the tree. */
  ghost predicate OthersKept(mem: Memory, free: set<Frame>, mem': Memory, root: Frame) {
    && mem'.Keys == mem.Keys
    && (forall f | f in mem && f !in free && !InTree(mem, root, f) :: mem'[f] == mem[f])
    && (forall f | InTree(mem', root, f) :: InTree(mem, root, f) || f in free)
  }

  /** The other frames are as they were, and so is slot 511 of `ttbr`. */
  ghost predicate SlotsKept(mem: Memory, free: set<Frame>, mem': Memory, ttbr: Frame, root: Frame) {
    OthersKept(mem, free, mem', root) && ttbr in mem && mem'[ttbr][RECURSIVE] == mem[ttbr][RECURSIVE]
  }

  /**
   The address map of `mem'` is that of `mem` with the block of `va` replaced:
   outside the recursive slot, exactly the addresses of the block end at entry `e`.
   */
  ghost predicate MapsBlock(mem: Memory, mem': Memory, root: Frame, va: VirtAddr, size: PageSize, e: Entry) {
    forall va': VirtAddr {:trigger Walk(mem', root, Indices(va'))} | IsHigh(va') && Indices(va')[0] != RECURSIVE ::
      Walk(mem', root, Indices(va')) ==
      if size.BlockOf(va') == size.BlockOf(va) then Ends(e, size.Depth()) else Walk(mem, root, Indices(va'))
  }

  /** A mapped block translates to the entry's physical block, and no other address differently. */
  lemma {:induction false} MapsBlockTranslates(mem: Memory, mem': Memory, root: Frame, va: VirtAddr, size: PageSize,
                                               e: Entry, va': VirtAddr)
    requires MapsBlock(mem, mem', root, va, size, e)
    requires IsHigh(va') && Indices(va')[0] != RECURSIVE
    ensures var pa := 0x1000 * e.addr;
            Translate(mem', root, va') ==
            if size.BlockOf(va') != size.BlockOf(va) then Translate(mem, root, va')
            else if e.valid then Some(pa - size.Offset(pa) + size.Offset(va'))
            else None
  {
    BlockOutput(Leaf(e, size.Depth()), size, va');
  }

  /** The temporary redirection of slot 511 lets the walk through ttbr1 reach `self`. */
  lemma {:induction false} BeginMap(mem: Memory, free: set<Frame>, ttbr: Frame, self: Frame)
    requires Tree(mem, free, ttbr, self) && Recursive(mem, self, self)
    ensures var mem' := Write(mem, ttbr, RECURSIVE, TableEntry(self));
            && Editing(mem', free, ttbr, self)
            && SameWalks(mem, mem', self)
            && (forall f | InTree(mem', self, f) :: InTree(mem, self, f))
            && Grew(mem, mem', self, [], 3)
  {
    var mem' := Write(mem, ttbr, RECURSIVE, TableEntry(self));
    WriteRecursiveSlot(mem, free, ttbr, self, TableEntry(self));
    forall idx | |idx| == 4 && Pos(idx)
      ensures Walk(mem', self, idx) == Walk(mem, self, idx)
    {
      AgreeWalk(mem, mem', self, [RECURSIVE], idx);
    }
    AgreeGrew(mem, mem', self, [RECURSIVE], 3);
    forall f: Frame | InTree(mem', self, f)
      ensures InTree(mem, self, f)
    {
      var p :| IsTableAt(mem', self, p) && TableAt(mem', self, p) == Some(f);
      assert IsTableAt(mem, self, p);
    }
  }

  /** Frames that are neither free nor tables below `root` keep their contents, but for slot 511 of `ttbr`. */
  ghost predicate OthersRedirected(mem: Memory, free: set<Frame>, mem': Memory, ttbr: Frame, root: Frame) {
    && mem'.Keys == mem.Keys
    && forall f | f in mem && f !in free && !InTree(mem, root, f) ::
         mem'[f] == if f == ttbr then mem[f][RECURSIVE := TableEntry(root)] else mem[f]
  }

  /** An edit given up before the leaf is written has changed no translation. */
  lemma {:induction false} AbandonMap(mem: Memory, free: set<Frame>, mem1: Memory, free1: set<Frame>, ttbr: Frame,
                                      self: Frame)
    requires Tree(mem, free, ttbr, self) && Recursive(mem, self, self)
    requires Extends(Write(mem, ttbr, RECURSIVE, TableEntry(self)), free, mem1, free1, ttbr, self)
    ensures SameWalks(mem, mem1, self)
    ensures OthersRedirected(mem, free, mem1, ttbr, self)
  {
    BeginMap(mem, free, ttbr, self);
  }

  /** Writing the leaf and then restoring slot 511 completes the edit begun in `mem`. */
  lemma {:induction false} FinishMap(mem: Memory, free: set<Frame>, mem1: Memory, free1: set<Frame>, ttbr: Frame,
                                     self: Frame, p: Path, i: Index, e: Entry)
    requires Tree(mem, free, ttbr, self) && Recursive(mem, self, self)
    requires Editing(mem1, free1, ttbr, self)
    requires Extends(Write(mem, ttbr, RECURSIVE, TableEntry(self)), free, mem1, free1, ttbr, self)
    requires IsTableAt(mem1, self, p) && p != [] && Pos(p + [i]) && IsLast(e, |p|)
    ensures var mem2 := Write(Write(mem1, TableAt(mem1, self, p).value, i, e), ttbr, RECURSIVE, mem[ttbr][RECURSIVE]);
            && Tree(mem2, free1, ttbr, self) && Recursive(mem2, self, self)
            && WalksReplaced(mem, mem2, self, p + [i], e)
            && OthersKept(mem, free, mem2, self)
  {
    var f := TableAt(mem1, self, p).value;
    var mem2 := Write(Write(mem1, f, i, e), ttbr, RECURSIVE, mem[ttbr][RECURSIVE]);
    BeginMap(mem, free, ttbr, self);
    FinishWalks(mem1, free1, ttbr, self, p, i, e, mem[ttbr][RECURSIVE]);
    assert InTree(mem1, self, f);
    assert IsTableAt(mem, self, []) && IsTableAt(mem1, self, []);
    assert InTree(mem, self, self);
    assert f != ttbr && f != self;
  }

  /** The same, as seen from the state `mem1` before the last two writes. */
  lemma {:induction false} FinishWalks(mem1: Memory, free1: set<Frame>, ttbr: Frame, self: Frame, p: Path, i: Index,
                                       e: Entry, slot: Entry)
    requires Editing(mem1, free1, ttbr, self)
    requires IsTableAt(mem1, self, p) && p != [] && Pos(p + [i]) && IsLast(e, |p|)
    requires ttbr == self ==> slot.valid && slot.pageOrTable && slot.addr == self
    ensures var mem2 := Write(Write(mem1, TableAt(mem1, self, p).value, i, e), ttbr, RECURSIVE, slot);
            && Tree(mem2, free1, ttbr, self) && Recursive(mem2, self, self)
            && WalksReplaced(mem1, mem2, self, p + [i], e)
            && (forall g | InTree(mem2, self, g) :: InTree(mem1, self, g))
  {
    var f := TableAt(mem1, self, p).value;
    var memL := Write(mem1, f, i, e);
    var mem2 := Write(memL, ttbr, RECURSIVE, slot);
    assert IsTableAt(mem1, self, []);
    LeafKeepsTree(mem1, free1, ttbr, self, p, i, e);
    WriteRecursiveSlot(memL, free1, ttbr, self, slot);
    forall idx | |idx| == 4 && Pos(idx)
      ensures Walk(mem2, self, idx) == if p + [i] <= idx then Ends(e, |p|) else Walk(mem1, self, idx)
    {
      LeafWalks(mem1, free1, ttbr, self, p, i, e, idx);
      AgreeWalk(memL, mem2, self, [RECURSIVE], idx);
    }
    forall g: Frame | InTree(mem2, self, g)
      ensures InTree(mem1, self, g)
    {
      var q :| IsTableAt(mem2, self, q) && TableAt(mem2, self, q) == Some(g);
      assert IsTableAt(mem1, self, q) && TableAt(mem1, self, q) == Some(g);
    }
  }

  /** The last two writes leave the shape down to the leaf's depth. */
  lemma {:induction false} FinishGrew(mem1: Memory, free1: set<Frame>, ttbr: Frame, self: Frame, p: Path, i: Index,
                                      e: Entry, slot: Entry)
    requires Tree(mem1, free1, ttbr, self)
    requires IsTableAt(mem1, self, p) && Pos(p + [i]) && IsLast(e, |p|)
    ensures Grew(mem1, Write(Write(mem1, TableAt(mem1, self, p).value, i, e), ttbr, RECURSIVE, slot), self, [], |p|)
  {
    var memL := Write(mem1, TableAt(mem1, self, p).value, i, e);
    var mem2 := Write(memL, ttbr, RECURSIVE, slot);
    WriteAgrees(mem1, free1, ttbr, self, p, i, e);
    LeafKeepsTree(mem1, free1, ttbr, self, p, i, e);
    WriteRecursiveSlot(memL, free1, ttbr, self, slot);
    AgreeGrew(mem1, memL, self, p + [i], |p|);
    AgreeGrew(memL, mem2, self, [RECURSIVE], |p|);
    GrewJoin(mem1, memL, mem2, self, [], [], |p|);
  }

  /** Indices and block numbers say the same about a completed edit. */
  lemma {:induction false} BlockOfIndices(mem: Memory, mem': Memory, root: Frame, va: VirtAddr, size: PageSize,
                                          e: Entry)
    requires IsHigh(va)
    requires WalksReplaced(mem, mem', root, Indices(va)[..size.Depth() + 1], e)
    ensures MapsBlock(mem, mem', root, va, size, e)
  {
    forall va': VirtAddr | IsHigh(va') && Indices(va')[0] != RECURSIVE
      ensures Walk(mem', root, Indices(va'))
           == if size.BlockOf(va') == size.BlockOf(va) then Ends(e, size.Depth()) else Walk(mem, root, Indices(va'))
    {
      SameBlock(va, va', size.Depth());
    }
  }

  /** What the last two writes of `map_to` leave. */
  lemma {:induction false} FinishBlock(mem: Memory, free: set<Frame>, mem1: Memory, free1: set<Frame>, ttbr: Frame,
                                       self: Frame, va: VirtAddr, size: PageSize, e: Entry)
    requires Tree(mem, free, ttbr, self) && Recursive(mem, self, self)
    requires Editing(mem1, free1, ttbr, self)
    requires Extends(Write(mem, ttbr, RECURSIVE, TableEntry(self)), free, mem1, free1, ttbr, self)
    requires Indices(va)[0] != RECURSIVE && IsLast(e, size.Depth())
    requires TableAt(mem1, self, Indices(va)[..size.Depth()]).Some?
    ensures var f, i := TableAt(mem1, self, Indices(va)[..size.Depth()]).value, Indices(va)[size.Depth()];
            && f in mem1 && f != ttbr
            && var mem2 := Write(Write(mem1, f, i, e), ttbr, RECURSIVE, mem[ttbr][RECURSIVE]);
            && Tree(mem2, free1, ttbr, self) && Recursive(mem2, self, self)
            && MapsBlock(mem, mem2, self, HighAlias(va), size, e)
            && OthersKept(mem, free, mem2, self)
            && Grew(mem1, mem2, self, [], size.Depth())
  {
    var idx := Indices(va);
    var n: nat := size.Depth();
    OneFurther(idx, n, n + 1);
    assert IsTableAt(mem1, self, idx[..n]);
    FinishMap(mem, free, mem1, free1, ttbr, self, idx[..n], idx[n], e);
    FinishGrew(mem1, free1, ttbr, self, idx[..n], idx[n], e, mem[ttbr][RECURSIVE]);
    var mem2 := Write(Write(mem1, TableAt(mem1, self, idx[..n]).value, idx[n], e), ttbr, RECURSIVE,
                      mem[ttbr][RECURSIVE]);
    BlockOfIndices(mem, mem2, self, HighAlias(va), size, e);
  }

  // ----- mapping a physical range at KZERO

  /** The entry that `map_to` writes: at level 3 the page flag is set. */
  function Written(entry: Entry, size: PageSize): Entry {
    if size.Page4K? then entry.(pageOrTable := true) else entry
  }

  /** Two entries map with the same attributes: they agree but for the address and the page flag. */
  predicate SameAttributes(e: Entry, f: Entry) {
    && e.valid == f.valid && e.mairIndex == f.mairIndex && e.nonSecure == f.nonSecure
    && e.accessPermission == f.accessPermission && e.shareable == f.shareable && e.accessed == f.accessed
    && e.pxn == f.pxn && e.uxn == f.uxn
    && e.bit11 == f.bit11 && e.bits48 == f.bits48 && e.bits55 == f.bits55
  }

  /** The walk of `va` ends at depth `size` with the attributes of `entry`, and nowhere if that is not valid. */
  predicate EndsAs(mem: Memory, root: Frame, va: VirtAddr, entry: Entry, size: PageSize) {
    match Walk(mem, root, Indices(va))
    case None => !entry.valid
    case Some(leaf) =>
      leaf.depth == size.Depth() && SameAttributes(leaf.entry, entry) && (leaf.entry.pageOrTable <==> size.Page4K?)
  }

  /** Every address of the block of `va` ends so, at an entry that names the frame of `entry`. */
  ghost predicate BlockEndsAs(mem: Memory, root: Frame, va: VirtAddr, entry: Entry, size: PageSize) {
    forall va': VirtAddr {:trigger Walk(mem, root, Indices(va'))} |
      IsHigh(va') && Indices(va')[0] != RECURSIVE && size.BlockOf(va') == size.BlockOf(va) ::
      && EndsAs(mem, root, va', entry, size)
      && (entry.valid ==> Walk(mem, root, Indices(va')).value.entry.addr == entry.addr)
  }

  ghost predicate RangeEndsAs(mem: Memory, root: Frame, entry: Entry, size: PageSize, lo: nat, hi: nat) {
    forall va: VirtAddr {:trigger Walk(mem, root, Indices(va))} |
      IsHigh(va) && Indices(va)[0] != RECURSIVE && KZERO + lo <= va < KZERO + hi :: EndsAs(mem, root, va, entry, size)
  }

  /** A mapped block has the attributes that the caller asked for. */
  lemma {:induction false} MapsBlockAs(mem: Memory, mem': Memory, root: Frame, va: VirtAddr, size: PageSize,
                                       entry: Entry)
    requires MapsBlock(mem, mem', root, va, size, Written(entry, size))
    requires entry.valid && entry.pageOrTable ==> size.Page4K?
    ensures BlockEndsAs(mem', root, va, entry, size)
  {
    forall va': VirtAddr | IsHigh(va') && Indices(va')[0] != RECURSIVE && size.BlockOf(va') == size.BlockOf(va)
      ensures EndsAs(mem', root, va', entry, size)
      ensures entry.valid ==> Walk(mem', root, Indices(va')).value.entry.addr == entry.addr
    {
      assert Walk(mem', root, Indices(va')) == Ends(Written(entry, size), size.Depth());
    }
  }

  /** So has every address of a mapped range. */
  lemma {:induction false} MapsRangeAs(mem: Memory, mem': Memory, root: Frame, entry: Entry, size: PageSize,
                                       lo: nat, hi: nat)
    requires MapsRange(mem, mem', root, entry, size, lo, hi)
    requires entry.valid && entry.pageOrTable ==> size.Page4K?
    ensures RangeEndsAs(mem', root, entry, size, lo, hi)
  {
    forall va: VirtAddr | IsHigh(va) && Indices(va)[0] != RECURSIVE && KZERO + lo <= va < KZERO + hi
      ensures EndsAs(mem', root, va, entry, size)
    {
      assert Walk(mem', root, Indices(va)) == Ends(EntryFor(entry, size, va - KZERO), size.Depth());
    }
  }

  /** The entry that maps the block of physical address `pa`. */
  function EntryFor(entry: Entry, size: PageSize, pa: PhysAddr): Entry {
    Written(WithPhysAddr(entry, pa - size.Offset(pa)), size)
  }

  /** Outside the recursive slot, exactly the addresses from `lo` up to `hi` have been mapped at KZERO. */
  ghost predicate MapsRange(mem: Memory, mem': Memory, root: Frame, entry: Entry, size: PageSize, lo: nat, hi: nat) {
    forall va: VirtAddr {:trigger Walk(mem', root, Indices(va))} | IsHigh(va) && Indices(va)[0] != RECURSIVE ::
      Walk(mem', root, Indices(va)) ==
      if KZERO + lo <= va < KZERO + hi then Ends(EntryFor(entry, size, va - KZERO), size.Depth())
      else Walk(mem, root, Indices(va))
  }

  const LINEAR_LIMIT: nat := 0x7f80_0000_0000

  /** A physical address below the limit has its linear address in ttbr1's half, outside the recursive slot. */
  lemma {:induction false} LinearAddr(pa: PhysAddr)
    requires pa < LINEAR_LIMIT
    ensures pa + KZERO < U64_LIMIT
    ensures IsHigh(pa + KZERO) && Indices(pa + KZERO)[0] != RECURSIVE
  {
  }

  lemma {:induction false} AlignedBlock(x: nat, y: nat, size: PageSize)
    requires size.Offset(x) == 0
    ensures size.BlockOf(y) == size.BlockOf(x) <==> x <= y < x + size.Size()
    ensures x <= y < x + size.Size() ==> y - size.Offset(y) == x
  {
    match size
    case Page4K =>
    case Page2M =>
    case Page1G =>
  }

  lemma {:induction false} MapsRangeStep(mem: Memory, mem1: Memory, mem2: Memory, root: Frame, entry: Entry,
                                         size: PageSize, lo: nat, pa: PhysAddr)
    requires lo <= pa && OnBlock(pa, size)
    requires MapsRange(mem, mem1, root, entry, size, lo, pa)
    requires MapsBlock(mem1, mem2, root, pa + KZERO, size, EntryFor(entry, size, pa))
    ensures MapsRange(mem, mem2, root, entry, size, lo, pa + size.Size())
  {
    KzeroAligned(pa, size);
    forall va: VirtAddr | IsHigh(va) && Indices(va)[0] != RECURSIVE
      ensures Walk(mem2, root, Indices(va))
           == if KZERO + lo <= va < KZERO + pa + size.Size() then Ends(EntryFor(entry, size, va - KZERO), size.Depth())
              else Walk(mem, root, Indices(va))
    {
      AlignedBlock(pa + KZERO, va, size);
      if pa + KZERO <= va < pa + KZERO + size.Size() {
        AlignedBlock(pa, va - KZERO, size);
        assert EntryFor(entry, size, va - KZERO) == EntryFor(entry, size, pa);
      }
    }
  }

  lemma {:induction false} MapsRangeKept(mem: Memory, mem1: Memory, mem2: Memory, root: Frame, entry: Entry,
                                         size: PageSize, lo: nat, hi: nat)
    requires MapsRange(mem, mem1, root, entry, size, lo, hi)
    requires SameWalks(mem1, mem2, root)
    ensures MapsRange(mem, mem2, root, entry, size, lo, hi)
  {
  }

  lemma {:induction false} KzeroAligned(pa: nat, size: PageSize)
    ensures size.Offset(pa + KZERO) == size.Offset(pa)
  {
    match size {
      case Page4K => ModShift(pa, 0x1000, 0xf_fff8_0000_0000);
      case Page2M => ModShift(pa, 0x20_0000, 0x7ff_fc00_0000);
      case Page1G => ModShift(pa, 0x4000_0000, 0x3_fffe_0000);
    }
  }

  /** A mapped range translates every address of it to itself, and no other address differently. */
  lemma {:induction false} MapsRangeTranslates(mem: Memory, mem': Memory, root: Frame, entry: Entry, size: PageSize,
                                               lo: nat, hi: nat, va: VirtAddr)
    requires MapsRange(mem, mem', root, entry, size, lo, hi) && hi <= LINEAR_LIMIT
    requires IsHigh(va) && Indices(va)[0] != RECURSIVE && entry.valid
    ensures Translate(mem', root, va)
         == if KZERO + lo <= va < KZERO + hi then Some(va - KZERO) else Translate(mem, root, va)
  {
    if KZERO + lo <= va < KZERO + hi {
      LinearOutput(entry, size, va);
    }
  }

  lemma {:induction false} LinearOutput(entry: Entry, size: PageSize, va: VirtAddr)
    requires KZERO <= va < KZERO + LINEAR_LIMIT
    ensures OutputAddr(Leaf(EntryFor(entry, size, va - KZERO), size.Depth()), va) == va - KZERO
  {
    var pa := va - KZERO;
    KzeroAligned(pa, size);
    FieldHolds(pa, size);
    BlockOutput(Leaf(EntryFor(entry, size, pa), size.Depth()), size, va);
  }

  /** The address field holds the block's address. */
  lemma {:induction false} FieldHolds(pa: nat, size: PageSize)
    requires pa < LINEAR_LIMIT
    ensures var base := pa - size.Offset(pa);
            base / 0x1000 % 0x10_0000_0000 * 0x1000 == base && size.Offset(base) == 0
  {
    var base := pa - size.Offset(pa);
    BlockBase(pa, size);
    assert base / 0x1000 < 0x10_0000_0000;
  }

  lemma {:induction false} BlockBase(pa: nat, size: PageSize)
    ensures var base := pa - size.Offset(pa); size.Offset(base) == 0 && base % 0x1000 == 0
  {
    var base := pa - size.Offset(pa);
    match size
    case Page4K => MultipleBelow(pa, PAGE_SIZE_4K);
    case Page2M =>
      MultipleBelow(pa, PAGE_SIZE_2M);
      ModFactor(base, 0x1000, 0x200);
    case Page1G =>
      MultipleBelow(pa, PAGE_SIZE_1G);
      ModFactor(base, 0x1000, 0x4_0000);
  }

  lemma {:induction false} OthersKeptTransitive(m0: Memory, f0: set<Frame>, m1: Memory, f1: set<Frame>, m2: Memory,
                                                root: Frame)
    requires OthersKept(m0, f0, m1, root) && OthersKept(m1, f1, m2, root) && f1 <= f0
    ensures OthersKept(m0, f0, m2, root)
  {
  }

  lemma {:induction false} RedirectedLater(m0: Memory, f0: set<Frame>, m1: Memory, f1: set<Frame>, m2: Memory,
                                           ttbr: Frame, root: Frame)
    requires OthersKept(m0, f0, m1, root) && OthersRedirected(m1, f1, m2, ttbr, root) && f1 <= f0
    ensures OthersRedirected(m0, f0, m2, ttbr, root)
  {
  }

  /** `t` is how the source refers to the table at position `p`: `self` itself, or a recursive address. */
  predicate Names(t: TableRef, root: Frame, p: Path) {
    match t
    case Linear(f) => p == [] && f == root
    case Virtual(r) => |p| <= 3 && IsHigh(r) && r % 0x1000 == 0 && Indices(r) == Repeat(4 - |p|) + p
  }

  lemma {:induction false} NamesNext(va: VirtAddr, level: Level, root: Frame)
    requires level != Level3
    ensures Names(Virtual(RecursiveTableAddr(va, level.Next().value)), root, Indices(va)[..level.Depth() + 1])
  {
  }

  /** Table pointer `t` reaches the table at position `p`. */
  ghost predicate PointsTo(mem: Memory, ttbr: Frame, root: Frame, p: Path, t: TableRef) {
    Names(t, root, p) && TableAt(mem, root, p).Some? && Resolve(mem, ttbr, t) == TableAt(mem, root, p)
  }

  lemma {:induction false} RefResolves(mem: Memory, ttbr: Frame, root: Frame, p: Path, t: TableRef)
    requires Recursive(mem, ttbr, root) && Recursive(mem, root, root)
    requires Names(t, root, p) && TableAt(mem, root, p).Some?
    ensures PointsTo(mem, ttbr, root, p, t)
  {
    if t.Virtual? {
      ResolveAt(mem, ttbr, root, p, t.va);
    }
  }

  /** Clearing a new frame does not move what a reference reaches. */
  lemma {:induction false} ClearKeepsRef(mem: Memory, free: set<Frame>, ttbr: Frame, root: Frame, n: Frame, p: Path,
                                         t: TableRef)
    requires Editing(mem, free, ttbr, root) && n in free && Pos(p) && |p| <= 3
    requires PointsTo(mem, ttbr, root, p, t)
    ensures Resolve(mem[n := EmptyTable()], ttbr, t) == Resolve(mem, ttbr, t)
  {
    var mem' := mem[n := EmptyTable()];
    ClearKeepsTree(mem, free, ttbr, root, n);
    AgreeTableAt(mem, mem', root, [RECURSIVE], p);
    RefResolves(mem', ttbr, root, p, t);
  }

  /** The path to the table that maps the block at `pa`, and the paths of several blocks. */
  function PathOf(pa: PhysAddr, size: PageSize): Path
    requires pa < LINEAR_LIMIT
  {
    Indices(pa + KZERO)[..size.Depth()]
  }

  lemma {:induction false} PathIsPos(pa: PhysAddr, size: PageSize)
    requires pa < LINEAR_LIMIT
    ensures Pos(PathOf(pa, size)) && |PathOf(pa, size)| == size.Depth()
  {
    LinearAddr(pa);
  }

  function PathsOf(steps: seq<PhysAddr>, size: PageSize): (paths: seq<Path>)
    requires forall j | 0 <= j < |steps| :: steps[j] < LINEAR_LIMIT
    ensures |paths| == |steps|
  {
    if steps == [] then []
    else PathsOf(steps[..|steps| - 1], size) + [PathOf(steps[|steps| - 1], size)]
  }

  /** `paths` are the paths of the blocks at `steps`. */
  ghost predicate ArePaths(paths: seq<Path>, steps: seq<PhysAddr>, size: PageSize) {
    && |paths| == |steps|
    && (forall j | 0 <= j < |steps| :: steps[j] < LINEAR_LIMIT)
    && (forall j {:trigger PathOf(steps[j], size)} | 0 <= j < |steps| :: paths[j] == PathOf(steps[j], size))
  }

  lemma {:induction false} PathsOfAll(steps: seq<PhysAddr>, size: PageSize)
    requires forall j | 0 <= j < |steps| :: steps[j] < LINEAR_LIMIT
    ensures ArePaths(PathsOf(steps, size), steps, size)
    decreases |steps|
  {
    if steps != [] {
      PathsOfAll(steps[..|steps| - 1], size);
      forall j | 0 <= j < |steps|
        ensures PathsOf(steps, size)[j] == PathOf(steps[j], size)
      {
        assert j < |steps| - 1 ==> steps[..|steps| - 1][j] == steps[j];
      }
    }
  }

  class Kernel {
    var mem: Memory
    var free: set<Frame>   // the frames pagealloc can still hand out
    const ttbr1: Frame

    constructor (mem: Memory, free: set<Frame>, ttbr1: Frame)
      ensures this.mem == mem && this.free == free && this.ttbr1 == ttbr1
    {
      this.mem, this.free, this.ttbr1 := mem, free, ttbr1;
    }

    method AllocPagetable() returns (r: Result<Frame, PageTableError>)
      requires free <= mem.Keys
      modifies this
      ensures r.Err? <==> old(free) == {}
      ensures r.Err? ==> r.error == AllocationFailed && mem == old(mem) && free == old(free)
      ensures r.Ok? ==> r.value in old(free) && free == old(free) - {r.value}
                        && mem == old(mem)[r.value := EmptyTable()]
    {
      if free == {} {
        return Err(AllocationFailed);
      }
      var n :| n in free;
      free := free - {n};
      mem := mem[n := EmptyTable()];
      return Ok(n);
    }

    /**
     The valid entry `index` of the table that `t` reaches, after giving it a new table
     if it was invalid.  The reference is translated for the read and again for the write.
     */
    method EntryOrNewTable(t: TableRef, index: Index, ghost p: Path, ghost root: Frame)
      returns (r: Result<Entry, PageTableError>)
      requires Editing(mem, free, ttbr1, root) && PointsTo(mem, ttbr1, root, p, t)
      requires |p| <= 2 && Pos(p) && Pos(p + [index])
      modifies this
      ensures Editing(mem, free, ttbr1, root) && Extends(old(mem), old(free), mem, free, ttbr1, root)
      ensures var f := old(TableAt(mem, root, p)).value;
              && f in old(mem)
              && (r.Err? <==> !old(mem)[f][index].valid && old(free) == {})
              && (r.Err? ==> r.error == AllocationFailed && mem == old(mem) && free == old(free))
              && (old(mem)[f][index].valid ==> mem == old(mem) && free == old(free) && r == Ok(mem[f][index]))
              && (r.Ok? && !old(mem)[f][index].valid ==>
                    && r.value == TableEntry(r.value.addr) && r.value.addr in old(free)
                    && free == old(free) - {r.value.addr} && mem == Link(old(mem), f, index, r.value.addr))
    {
      ghost var mem0, free0 := mem, free;
      assert IsTableAt(mem, root, p);
      var entry := mem[Resolve(mem, ttbr1, t).value][index];
      if !entry.valid {
        var table := AllocPagetable();
        if table.Err? {
          return Err(table.error);
        }
        entry := TableEntry(table.value);
        ClearKeepsRef(mem0, free0, ttbr1, root, table.value, p, t);
        mem := Write(mem, Resolve(mem, ttbr1, t).value, index, entry);
        assert mem == Link(mem0, TableAt(mem0, root, p).value, index, table.value);
        LinkExtends(mem0, free0, ttbr1, root, p, index, table.value);
      }
      return Ok(entry);
    }

    /** Make sure that entry `index` of the table that `t` reaches leads to a table. */
    method EnsureTable(t: TableRef, index: Index, ghost p: Path, ghost root: Frame)
      returns (r: Result<(), PageTableError>)
      requires Editing(mem, free, ttbr1, root) && PointsTo(mem, ttbr1, root, p, t)
      requires |p| <= 2 && Pos(p) && Pos(p + [index])
      modifies this
      ensures Editing(mem, free, ttbr1, root) && Extends(old(mem), old(free), mem, free, ttbr1, root)
      ensures r.Ok? ==> TableAt(mem, root, p + [index]).Some?
                        && Stepped(old(mem), old(|free|), mem, |free|, root, p + [index])
      ensures r.Err? ==> mem == old(mem) && free == old(free) && Stuck(mem, free, root, p + [index], r.error)
    {
      ghost var mem0, free0 := mem, free;
      assert IsTableAt(mem, root, p) && (p + [index])[..|p|] == p;
      var entry := EntryOrNewTable(t, index, p, root);
      if entry.Err? {
        return Err(entry.error);
      }
      if !entry.value.pageOrTable {
        return Err(EntryIsNotTable);
      }
      EntryStepped(mem0, free0, ttbr1, root, p, index, mem, free, entry.value);
      return Ok(());
    }

    /** The next table in the walk for `va`, created if its entry is invalid. */
    method NextMut(t: TableRef, level: Level, va: VirtAddr, ghost root: Frame)
      returns (r: Result<TableRef, PageTableError>)
      requires level != Level3 && Indices(va)[0] != RECURSIVE
      requires Editing(mem, free, ttbr1, root) && PointsTo(mem, ttbr1, root, Indices(va)[..level.Depth()], t)
      modifies this
      ensures Editing(mem, free, ttbr1, root) && Extends(old(mem), old(free), mem, free, ttbr1, root)
      ensures r.Ok? ==> PointsTo(mem, ttbr1, root, Indices(va)[..level.Depth() + 1], r.value)
                        && Stepped(old(mem), old(|free|), mem, |free|, root, Indices(va)[..level.Depth() + 1])
      ensures r.Err? ==> mem == old(mem) && free == old(free)
                         && Stuck(mem, free, root, Indices(va)[..level.Depth() + 1], r.error)
    {
      ghost var idx, d := Indices(va), level.Depth();
      OneFurther(idx, d, d + 1);
      var index := VaIndex(va, level);
      assert index == idx[d];
      var found := EnsureTable(t, index, idx[..d], root);
      if found.Err? {
        return Err(found.error);
      }
      var next := level.Next().value;
      r := Ok(Virtual(RecursiveTableAddr(va, next)));
      NamesNext(va, level, root);
      RefResolves(mem, ttbr1, root, idx[..d + 1], r.value);
    }

    /**
     Map the block of `va` in the tables of `self` to `entry`, creating the tables
     that are missing.  An error leaves slot 511 of ttbr1 redirected to `self`.
     */
    method MapTo(self: Frame, entry: Entry, va: VirtAddr, size: PageSize) returns (r: Result<(), PageTableError>)
      requires Tree(mem, free, ttbr1, self) && Recursive(mem, self, self)
      requires Indices(va)[0] != RECURSIVE
      requires entry.valid && entry.pageOrTable ==> size.Page4K?
      modifies this
      ensures old(Obstacle(mem, self, Indices(va)[..size.Depth()], |free|)) == if r.Ok? then None else Some(r.error)
      ensures Tree(mem, free, ttbr1, self) && Recursive(mem, self, self) && free <= old(free)
      ensures r.Ok? ==>
                && MapsBlock(old(mem), mem, self, HighAlias(va), size, Written(entry, size))
                && BlockEndsAs(mem, self, HighAlias(va), entry, size)
                && SlotsKept(old(mem), old(free), mem, ttbr1, self)
                && Took(old(mem), old(|free|), mem, |free|, self, Indices(va)[..size.Depth()])
      ensures r.Err? ==>
                && SameWalks(old(mem), mem, self)
                && OthersRedirected(old(mem), old(free), mem, ttbr1, self)
                && mem[ttbr1][RECURSIVE] == TableEntry(self)
    {
      ghost var mem0, free0, p := mem, free, Indices(va)[..size.Depth()];
      var oldRecursiveEntry := mem[ttbr1][RECURSIVE];
      mem := Write(mem, ttbr1, RECURSIVE, TableEntry(self));
      ghost var memR := mem;
      Redirected(mem0, free0, ttbr1, self, p);
      var dest := ReachTable(self, va, size);
      if dest.Err? {
        AbandonMap(mem0, free0, mem, free, ttbr1, self);
        return Err(dest.error);
      }
      ghost var mem1 := mem;
      WriteDest(self, dest.value, entry, va, size, oldRecursiveEntry, mem0, free0);
      GrewThrough(mem0, memR, mem1, mem, self, p);
      return Ok(());
    }

    /** The end of `map_to`: write the entry through `dest`, then put slot 511 of ttbr1 back. */
    method WriteDest(self: Frame, dest: TableRef, entry: Entry, va: VirtAddr, size: PageSize, oldRecursiveEntry: Entry,
                     ghost mem0: Memory, ghost free0: set<Frame>)
      requires Tree(mem0, free0, ttbr1, self) && Recursive(mem0, self, self)
      requires Indices(va)[0] != RECURSIVE
      requires entry.valid && entry.pageOrTable ==> size.Page4K?
      requires oldRecursiveEntry == mem0[ttbr1][RECURSIVE]
      requires Editing(mem, free, ttbr1, self)
      requires Extends(Write(mem0, ttbr1, RECURSIVE, TableEntry(self)), free0, mem, free, ttbr1, self)
      requires PointsTo(mem, ttbr1, self, Indices(va)[..size.Depth()], dest)
      modifies this`mem
      ensures Tree(mem, free, ttbr1, self) && Recursive(mem, self, self)
      ensures MapsBlock(mem0, mem, self, HighAlias(va), size, Written(entry, size))
      ensures BlockEndsAs(mem, self, HighAlias(va), entry, size)
      ensures OthersKept(mem0, free0, mem, self)
      ensures mem[ttbr1][RECURSIVE] == oldRecursiveEntry
      ensures Grew(old(mem), mem, self, [], size.Depth())
    {
      var index := VaIndex(va, match size case Page4K => Level3 case Page2M => Level2 case Page1G => Level1);
      // Entries at level 3 should have the page flag set
      var leaf := if size == Page4K then entry.(pageOrTable := true) else entry;
      FinishBlock(mem0, free0, mem, free, ttbr1, self, va, size, leaf);
      mem := Write(mem, Resolve(mem, ttbr1, dest).value, index, leaf);
      mem := Write(mem, ttbr1, RECURSIVE, oldRecursiveEntry);
      MapsBlockAs(mem0, mem, self, HighAlias(va), size, entry);
    }

    /** An edit that began in `mem0` has come to the table at position `p`, which `t` reaches. */
    ghost predicate OnTheWay(self: Frame, p: Path, t: TableRef, mem0: Memory, free0: set<Frame>)
      reads this
    {
      PointsTo(mem, ttbr1, self, p, t) && Came(mem0, |free0|, mem, |free|, self, p)
    }

    /** The chain of `next_mut` calls down to the table that holds entries of the given size. */
    method ReachTable(self: Frame, va: VirtAddr, size: PageSize) returns (r: Result<TableRef, PageTableError>)
      requires Editing(mem, free, ttbr1, self)
      requires Indices(va)[0] != RECURSIVE
      modifies this
      ensures Editing(mem, free, ttbr1, self) && Extends(old(mem), old(free), mem, free, ttbr1, self)
      ensures r.Ok? ==> OnTheWay(self, Indices(va)[..size.Depth()], r.value, old(mem), old(free))
      ensures old(Obstacle(mem, self, Indices(va)[..size.Depth()], |free|)) == if r.Ok? then None else Some(r.error)
    {
      match size
      case Page4K => r := Table3(self, va);
      case Page2M => r := Table2(self, va, Indices(va)[..2]);
      case Page1G => r := Table1(self, va, Indices(va)[..1]);
    }

    /** The table at depth 1, on the way to position `q`. */
    method Table1(self: Frame, va: VirtAddr, ghost q: Path) returns (r: Result<TableRef, PageTableError>)
      requires Editing(mem, free, ttbr1, self) && Indices(va)[0] != RECURSIVE && Indices(va)[..1] <= q
      modifies this
      ensures Editing(mem, free, ttbr1, self) && Extends(old(mem), old(free), mem, free, ttbr1, self)
      ensures r.Ok? ==> OnTheWay(self, Indices(va)[..1], r.value, old(mem), old(free))
      ensures r.Err? ==> old(Obstacle(mem, self, q, |free|)) == Some(r.error)
      ensures r.Ok? && q == Indices(va)[..1] ==> old(Obstacle(mem, self, q, |free|)) == None
    {
      AtRoot(mem, free, ttbr1, self, va);
      r := Descend(Linear(self), Level0, va, self, q, mem, free);
    }

    /** The table at depth 2, on the way to position `q`. */
    method Table2(self: Frame, va: VirtAddr, ghost q: Path) returns (r: Result<TableRef, PageTableError>)
      requires Editing(mem, free, ttbr1, self) && Indices(va)[0] != RECURSIVE && Indices(va)[..2] <= q
      modifies this
      ensures Editing(mem, free, ttbr1, self) && Extends(old(mem), old(free), mem, free, ttbr1, self)
      ensures r.Ok? ==> OnTheWay(self, Indices(va)[..2], r.value, old(mem), old(free))
      ensures r.Err? ==> old(Obstacle(mem, self, q, |free|)) == Some(r.error)
      ensures r.Ok? && q == Indices(va)[..2] ==> old(Obstacle(mem, self, q, |free|)) == None
    {
      OneFurther(Indices(va), 1, 2);
      r := Table1(self, va, q);
      if r.Ok? {
        r := Descend(r.value, Level1, va, self, q, old(mem), old(free));
      }
    }

    /** The table at depth 3. */
    method Table3(self: Frame, va: VirtAddr) returns (r: Result<TableRef, PageTableError>)
      requires Editing(mem, free, ttbr1, self) && Indices(va)[0] != RECURSIVE
      modifies this
      ensures Editing(mem, free, ttbr1, self) && Extends(old(mem), old(free), mem, free, ttbr1, self)
      ensures r.Ok? ==> OnTheWay(self, Indices(va)[..3], r.value, old(mem), old(free))
      ensures old(Obstacle(mem, self, Indices(va)[..3], |free|)) == if r.Ok? then None else Some(r.error)
    {
      OneFurther(Indices(va), 2, 3);
      r := Table2(self, va, Indices(va)[..3]);
      if r.Ok? {
        r := Descend(r.value, Level2, va, self, Indices(va)[..3], old(mem), old(free));
      }
    }

    /** One `next_mut` on the way to the table at position `q`. */
    method Descend(t: TableRef, level: Level, va: VirtAddr, self: Frame, ghost q: Path,
                   ghost mem0: Memory, ghost free0: set<Frame>)
      returns (r: Result<TableRef, PageTableError>)
      requires level != Level3 && Indices(va)[0] != RECURSIVE && Indices(va)[..level.Depth() + 1] <= q
      requires Editing(mem, free, ttbr1, self) && Extends(mem0, free0, mem, free, ttbr1, self)
      requires OnTheWay(self, Indices(va)[..level.Depth()], t, mem0, free0)
      modifies this
      ensures Editing(mem, free, ttbr1, self) && Extends(mem0, free0, mem, free, ttbr1, self)
      ensures r.Err? ==> Obstacle(mem0, self, q, |free0|) == Some(r.error)
      ensures r.Ok? ==> OnTheWay(self, Indices(va)[..level.Depth() + 1], r.value, mem0, free0)
      ensures r.Ok? && q == Indices(va)[..level.Depth() + 1] ==> Obstacle(mem0, self, q, |free0|) == None
    {
      ghost var mem1, free1, d := mem, free, level.Depth();
      ghost var p, i := Indices(va)[..d], Indices(va)[d];
      OneFurther(Indices(va), d, d + 1);
      r := NextMut(t, level, va, self);
      ExtendsTransitive(mem0, free0, mem1, free1, mem, free, ttbr1, self);
      if r.Ok? {
        CameStep(mem0, |free0|, mem1, |free1|, mem, |free|, self, p, i);
      } else {
        CameStuck(mem0, |free0|, mem1, free1, self, p, i, q, r.error);
      }
    }

    /** `map_to` for the block at `pa`, at its KZERO address. */
    method MapLinear(self: Frame, entry: Entry, size: PageSize, pa: PhysAddr) returns (r: Result<(), PageTableError>)
      requires Tree(mem, free, ttbr1, self) && Recursive(mem, self, self)
      requires entry.valid && entry.pageOrTable ==> size.Page4K?
      requires OnBlock(pa, size)
      modifies this
      ensures Tree(mem, free, ttbr1, self) && Recursive(mem, self, self) && free <= old(free)
      ensures old(Obstacle(mem, self, PathOf(pa, size), |free|)) == if r.Ok? then None else Some(r.error)
      ensures r.Ok? ==>
                && MapsBlock(old(mem), mem, self, pa + KZERO, size, EntryFor(entry, size, pa))
                && BlockEndsAs(mem, self, pa + KZERO, WithPhysAddr(entry, pa), size)
                && SlotsKept(old(mem), old(free), mem, ttbr1, self)
                && Took(old(mem), old(|free|), mem, |free|, self, PathOf(pa, size))
      ensures r.Err? ==> SameWalks(old(mem), mem, self) && OthersRedirected(old(mem), old(free), mem, ttbr1, self)
    {
      LinearAddr(pa);
      r := MapTo(self, WithPhysAddr(entry, pa), pa + KZERO, size);
    }

    /** One round of the loop of `map_phys_range`: extend the mapped range by the block at `pa`. */
    method MapNext(self: Frame, entry: Entry, size: PageSize, pa: PhysAddr,
                   ghost mem0: Memory, ghost free0: set<Frame>, ghost lo: nat, ghost paths: seq<Path>)
      returns (r: Result<(), PageTableError>)
      requires Mapped(mem, free, ttbr1, self, entry, size, mem0, free0, lo, pa, paths)
      requires entry.valid && entry.pageOrTable ==> size.Page4K?
      requires lo <= pa && OnBlock(pa, size)
      modifies this
      ensures Tree(mem, free, ttbr1, self) && Recursive(mem, self, self) && free <= free0
      ensures r.Ok? <==> Fits(mem0, self, paths + [PathOf(pa, size)], |free0|)
      ensures r.Ok? ==>
                RangeDone(mem0, free0, mem, free, ttbr1, self, entry, size, lo, pa + size.Size(),
                          paths + [PathOf(pa, size)])
      ensures r.Err? ==>
                && r.error == (if Blocked(mem0, self, PathOf(pa, size)) then EntryIsNotTable else AllocationFailed)
                && MapsRange(mem0, mem, self, entry, size, lo, pa)
                && OthersRedirected(mem0, free0, mem, ttbr1, self)
    {
      ghost var mem1, free1, p := mem, free, PathOf(pa, size);
      PathIsPos(pa, size);
      ObstacleNext(mem0, |free0|, mem1, |free1|, self, paths, size.Depth(), p);
      r := MapLinear(self, entry, size, pa);
      if r.Ok? {
        RangeNext(mem0, free0, mem1, free1, mem, free, ttbr1, self, entry, size, lo, pa, paths);
      } else {
        MapsRangeKept(mem0, mem1, mem, self, entry, size, lo, pa);
        RedirectedLater(mem0, free0, mem1, free1, mem, ttbr1, self);
      }
    }

    /** The `i`-th round, where `steps` are the blocks to map. */
    method MapStep(self: Frame, entry: Entry, size: PageSize, steps: seq<PhysAddr>, i: nat,
                   ghost paths: seq<Path>, ghost lo: nat, ghost hi: nat, ghost mem0: Memory, ghost free0: set<Frame>)
      returns (r: Result<(), PageTableError>)
      requires entry.valid && entry.pageOrTable ==> size.Page4K?
      requires BlocksAt(steps, lo, hi, size) && ArePaths(paths, steps, size) && i < |steps|
      requires MappedTo(mem, free, ttbr1, self, entry, size, mem0, free0, steps, paths, i, lo, hi)
      modifies this
      ensures r.Ok? ==> MappedTo(mem, free, ttbr1, self, entry, size, mem0, free0, steps, paths, i + 1, lo, hi)
      ensures r.Err? ==> Stopped(mem, free, ttbr1, self, entry, size, mem0, free0, lo, steps, paths, i, r.error)
    {
      assert paths[i] == PathOf(steps[i], size);
      NextPath(paths, i);
      ReachNext(steps, lo, hi, size, i);
      r := MapNext(self, entry, size, steps[i], mem0, free0, lo, paths[..i]);
      if r.Err? {
        FitsNot(mem0, self, paths, i, |free0|);
      }
    }

    /** The loop of `map_phys_range` over the blocks at `steps`. */
    method MapSteps(self: Frame, entry: Entry, size: PageSize, steps: seq<PhysAddr>, ghost paths: seq<Path>,
                    ghost lo: nat, ghost hi: nat)
      returns (r: Result<(), PageTableError>, startva: Option<VirtAddr>, endva: VirtAddr, i: nat)
      requires Tree(mem, free, ttbr1, self) && Recursive(mem, self, self)
      requires entry.valid && entry.pageOrTable ==> size.Page4K?
      requires BlocksAt(steps, lo, hi, size) && ArePaths(paths, steps, size)
      modifies this
      ensures r.Ok? ==>
                && MappedTo(mem, free, ttbr1, self, entry, size, old(mem), old(free), steps, paths, |steps|, lo, hi)
                && Bounds(steps, |steps|, size, startva, endva)
      ensures r.Err? ==>
                && i < |steps|
                && Stopped(mem, free, ttbr1, self, entry, size, old(mem), old(free), lo, steps, paths, i, r.error)
    {
      ghost var mem0, free0 := mem, free;
      startva, endva, i := None, 0, 0;
      NothingDone(mem, free, ttbr1, self, entry, size, steps, paths, lo, hi);
      while i < |steps|
        invariant 0 <= i <= |steps|
        invariant MappedTo(mem, free, ttbr1, self, entry, size, mem0, free0, steps, paths, i, lo, hi)
        invariant Bounds(steps, i, size, startva, endva)
      {
        r := MapStep(self, entry, size, steps, i, paths, lo, hi, mem0, free0);
        if r.Err? {
          return;
        }
        startva, endva := Extend(steps, i, size, startva, endva);
        i := i + 1;
      }
      r := Ok(());
    }

    /** `map_phys_range` for the blocks at `steps`. */
    method MapBlocks(self: Frame, entry: Entry, size: PageSize, steps: seq<PhysAddr>, ghost lo: nat, ghost hi: nat)
      returns (r: Result<(VirtAddr, VirtAddr), PageTableError>)
      requires Tree(mem, free, ttbr1, self) && Recursive(mem, self, self)
      requires entry.valid && entry.pageOrTable ==> size.Page4K?
      requires BlocksAt(steps, lo, hi, size)
      modifies this
      ensures Tree(mem, free, ttbr1, self) && Recursive(mem, self, self) && free <= old(free)
      ensures RangeResult(old(mem), old(free), mem, ttbr1, self, entry, size, steps, lo, hi, r)
    {
      PathsOfAll(steps, size);
      var mapped, startva, endva, _ := MapSteps(self, entry, size, steps, PathsOf(steps, size), lo, hi);
      if mapped.Err? {
        return Err(mapped.error);
      }
      NextPath(PathsOf(steps, size), |steps|);
      FinalBounds(steps, lo, hi, size, startva, endva);
      MapsRangeAs(old(mem), mem, self, entry, size, lo, Reach(steps, |steps|, lo, hi));
      return if startva == None then Err(PhysRangeIsZero) else Ok((startva.value, endva));
    }

    /** Map every block that the physical range meets, after rounding outward, at its KZERO address. */
    method MapPhysRange(self: Frame, range: PhysRange, entry: Entry, size: PageSize)
      returns (r: Result<(VirtAddr, VirtAddr), PageTableError>)
      requires Tree(mem, free, ttbr1, self) && Recursive(mem, self, self)
      requires entry.valid && entry.pageOrTable ==> size.Page4K?
      requires range.end <= LINEAR_LIMIT - size.Size()
      modifies this
      ensures Tree(mem, free, ttbr1, self) && Recursive(mem, self, self) && free <= old(free)
      ensures var lo, hi, steps := Lo(range, size), Hi(range, size), BlockSteps(range, size);
              && BlocksAt(steps, lo, hi, size)
              && RangeResult(old(mem), old(free), mem, ttbr1, self, entry, size, steps, lo, hi, r)
    {
      var steps := BlockSteps(range, size);
      BlocksOfRange(range, size);
      r := MapBlocks(self, entry, size, steps, Lo(range, size), Hi(range, size));
    }
  }

  /**
   What `map_phys_range` does and returns for the blocks at `steps`, from `lo` to `hi`.  It
   succeeds exactly when there is a block, none of the old entries on the way to any of them
   is itself a block, and the frames suffice for all the missing tables.
   */
  ghost predicate RangeResult(mem: Memory, free: set<Frame>, mem': Memory, ttbr: Frame, self: Frame, entry: Entry,
                              size: PageSize,
                              steps: seq<PhysAddr>, lo: nat, hi: nat, r: Result<(VirtAddr, VirtAddr), PageTableError>)
    requires BlocksAt(steps, lo, hi, size)
  {
    && (r == Err(PhysRangeIsZero) <==> hi <= lo)
    && (r == Err(PhysRangeIsZero) ==> mem' == mem)
    && (r.Ok? <==> lo < hi && Fits(mem, self, PathsOf(steps, size), |free|))
    && (r.Ok? ==>
          && r.value.0 == lo + KZERO && r.value.1 == hi + KZERO
          && MapsRange(mem, mem', self, entry, size, lo, hi) && RangeEndsAs(mem', self, entry, size, lo, hi)
          && SlotsKept(mem, free, mem', ttbr, self))
    && (r.Err? && lo < hi ==>
          && OthersRedirected(mem, free, mem', ttbr, self)
          && exists i | 0 <= i < |steps| ::
               FailedAt(mem, |free|, mem', self, entry, size, lo, steps, PathsOf(steps, size), i, r.error))
  }

  /** The first address mapped, once there is one, and the end of the last block. */
  method Extend(steps: seq<PhysAddr>, i: nat, size: PageSize, startva: Option<VirtAddr>, endva: VirtAddr)
    returns (startva': Option<VirtAddr>, endva': VirtAddr)
    requires i < |steps| && steps[i] < LINEAR_LIMIT && Bounds(steps, i, size, startva, endva)
    ensures Bounds(steps, i + 1, size, startva', endva')
  {
    startva' := if startva == None then Some(steps[i] + KZERO) else startva;
    endva' := steps[i] + size.Size() + KZERO;
  }

  lemma {:induction false} FinalBounds(steps: seq<PhysAddr>, lo: nat, hi: nat, size: PageSize,
                                       startva: Option<VirtAddr>, endva: VirtAddr)
    requires BlocksAt(steps, lo, hi, size) && Bounds(steps, |steps|, size, startva, endva)
    ensures steps == [] <==> hi <= lo
    ensures lo < hi ==> lo + KZERO < U64_LIMIT && hi + KZERO < U64_LIMIT
    ensures if lo < hi then startva == Some(lo + KZERO) && endva == hi + KZERO else startva == None
  {
  }

  /** The state after mapping the blocks of `paths`, from `lo` up to `hi`, beginning with `mem0`. */
  ghost predicate Mapped(mem: Memory, free: set<Frame>, ttbr: Frame, self: Frame, entry: Entry, size: PageSize,
                         mem0: Memory, free0: set<Frame>, lo: nat, hi: nat, paths: seq<Path>)
  {
    && Tree(mem, free, ttbr, self) && Recursive(mem, self, self) && free <= free0
    && RangeDone(mem0, free0, mem, free, ttbr, self, entry, size, lo, hi, paths)
  }

  /** The state after mapping the first `i` of the blocks at `steps`. */
  ghost predicate MappedTo(mem: Memory, free: set<Frame>, ttbr: Frame, self: Frame, entry: Entry, size: PageSize,
                           mem0: Memory, free0: set<Frame>, steps: seq<PhysAddr>, paths: seq<Path>,
                           i: nat, lo: nat, hi: nat)
    requires i <= |steps| == |paths|
  {
    && Mapped(mem, free, ttbr, self, entry, size, mem0, free0, lo, Reach(steps, i, lo, hi), paths[..i])
    && (i == 0 ==> mem == mem0)
  }

  /** The blocks of `paths` have been mapped from `lo` up to `hi`, with frames for just the missing tables. */
  ghost predicate RangeDone(mem: Memory, free: set<Frame>, mem': Memory, free': set<Frame>, ttbr: Frame, self: Frame,
                            entry: Entry, size: PageSize, lo: nat, hi: nat, paths: seq<Path>) {
    && MapsRange(mem, mem', self, entry, size, lo, hi) && SlotsKept(mem, free, mem', ttbr, self)
    && Spent(mem, |free|, mem', |free'|, self, paths, size.Depth())
  }

  lemma {:induction false} RangeNext(m0: Memory, f0: set<Frame>, m1: Memory, f1: set<Frame>, m2: Memory, f2: set<Frame>,
                                     ttbr: Frame, self: Frame, entry: Entry, size: PageSize, lo: nat, pa: PhysAddr,
                                     paths: seq<Path>)
    requires RangeDone(m0, f0, m1, f1, ttbr, self, entry, size, lo, pa, paths) && f1 <= f0
    requires lo <= pa && OnBlock(pa, size)
    requires MapsBlock(m1, m2, self, pa + KZERO, size, EntryFor(entry, size, pa))
    requires SlotsKept(m1, f1, m2, ttbr, self) && Took(m1, |f1|, m2, |f2|, self, PathOf(pa, size))
    requires Obstacle(m1, self, PathOf(pa, size), |f1|) == None
    ensures RangeDone(m0, f0, m2, f2, ttbr, self, entry, size, lo, pa + size.Size(), paths + [PathOf(pa, size)])
  {
    PathIsPos(pa, size);
    MapsRangeStep(m0, m1, m2, self, entry, size, lo, pa);
    OthersKeptTransitive(m0, f0, m1, f1, m2, self);
    SpentNext(m0, |f0|, m1, |f1|, m2, |f2|, self, paths, size.Depth(), PathOf(pa, size));
  }

  lemma {:induction false} NothingDone(mem: Memory, free: set<Frame>, ttbr: Frame, self: Frame, entry: Entry,
                                       size: PageSize, steps: seq<PhysAddr>, paths: seq<Path>, lo: nat, hi: nat)
    requires Tree(mem, free, ttbr, self) && Recursive(mem, self, self) && BlocksAt(steps, lo, hi, size)
    requires |paths| == |steps|
    ensures MappedTo(mem, free, ttbr, self, entry, size, mem, free, steps, paths, 0, lo, hi)
  {
    NothingSpent(mem, |free|, self, paths, size.Depth());
  }

  lemma {:induction false} NextPath(paths: seq<Path>, i: nat)
    requires i <= |paths|
    ensures i < |paths| ==> paths[..i] + [paths[i]] == paths[..i + 1]
    ensures i == |paths| ==> paths[..i] == paths
  {
  }

  lemma {:induction false} NothingSpent(mem: Memory, avail: nat, root: Frame, paths: seq<Path>, n: nat)
    ensures Spent(mem, avail, mem, avail, root, paths[..0], n)
  {
    assert paths[..0] == [];
  }

  /** Where the first `i` blocks end. */
  function Reach(steps: seq<PhysAddr>, i: nat, lo: nat, hi: nat): nat
    requires i <= |steps|
  {
    if i < |steps| then steps[i] else if i > 0 then hi else lo
  }

  predicate OnBlock(pa: PhysAddr, size: PageSize) {
    pa < LINEAR_LIMIT && size.Offset(pa) == 0
  }

  /** The blocks at `steps` follow one another from `lo` to `hi`. */
  ghost predicate BlocksAt(steps: seq<PhysAddr>, lo: nat, hi: nat, size: PageSize) {
    && Consecutive(steps, lo, hi, size.Size())
    && (forall j | 0 <= j < |steps| :: steps[j] < LINEAR_LIMIT)
    && (forall j {:trigger OnBlock(steps[j], size)} | 0 <= j < |steps| :: OnBlock(steps[j], size))
  }

  /** The range rounded outward to whole blocks, and the blocks in it. */
  function Lo(range: PhysRange, size: PageSize): PhysAddr {
    PageSizesPow2();
    RoundDown(range.start, size.Size())
  }

  function Hi(range: PhysRange, size: PageSize): PhysAddr
    requires range.end <= LINEAR_LIMIT - size.Size()
  {
    PageSizesPow2();
    RoundUp(range.end, size.Size())
  }

  function BlockSteps(range: PhysRange, size: PageSize): seq<PhysAddr>
    requires range.end <= LINEAR_LIMIT - size.Size()
  {
    PageSizesPow2();
    StepByRounded(range, size.Size())
  }

  lemma {:induction false} BlocksOfRange(range: PhysRange, size: PageSize)
    requires range.end <= LINEAR_LIMIT - size.Size()
    ensures BlocksAt(BlockSteps(range, size), Lo(range, size), Hi(range, size), size)
  {
    var steps := BlockSteps(range, size);
    PageSizesPow2();
    StepsRounded(range, size.Size());
    forall j | 0 <= j < |steps|
      ensures steps[j] < LINEAR_LIMIT && OnBlock(steps[j], size)
    {
      assert steps[j] in steps;
    }
  }

  lemma {:induction false} ReachNext(steps: seq<PhysAddr>, lo: nat, hi: nat, size: PageSize, i: nat)
    requires BlocksAt(steps, lo, hi, size) && i < |steps|
    ensures Reach(steps, i, lo, hi) == steps[i] && Reach(steps, i + 1, lo, hi) == steps[i] + size.Size()
    ensures lo <= steps[i] && OnBlock(steps[i], size)
  {
    assert i + 1 < |steps| ==> OneStepOn(steps, i + 1, size.Size());
  }

  /** The first and the last address of the first `i` blocks. */
  predicate Bounds(steps: seq<PhysAddr>, i: nat, size: PageSize, startva: Option<VirtAddr>, endva: VirtAddr)
    requires i <= |steps|
  {
    if i == 0 then startva == None
    else steps[0] < LINEAR_LIMIT && startva == Some(steps[0] + KZERO) && endva == steps[i - 1] + size.Size() + KZERO
  }

  /** The blocks before the `i`-th fit and are mapped; the `i`-th does not fit, for the reason given. */
  ghost predicate FailedAt(mem: Memory, avail: nat, mem': Memory, root: Frame, entry: Entry, size: PageSize, lo: nat,
                           steps: seq<PhysAddr>, paths: seq<Path>, i: nat, err: PageTableError)
    requires i < |steps| == |paths|
  {
    && MapsRange(mem, mem', root, entry, size, lo, steps[i])
    && Fits(mem, root, paths[..i], avail) && !Fits(mem, root, paths[..i + 1], avail)
    && err == if Blocked(mem, root, paths[i]) then EntryIsNotTable else AllocationFailed
  }

  /** The state in which `map_phys_range` has failed at the `i`-th block. */
  ghost predicate Stopped(mem: Memory, free: set<Frame>, ttbr: Frame, self: Frame, entry: Entry, size: PageSize,
                          mem0: Memory, free0: set<Frame>, lo: nat, steps: seq<PhysAddr>,
                          paths: seq<Path>, i: nat, err: PageTableError)
    requires i < |steps| == |paths|
  {
    && Tree(mem, free, ttbr, self) && Recursive(mem, self, self) && free <= free0
    && !Fits(mem0, self, paths, |free0|)
    && FailedAt(mem0, |free0|, mem, self, entry, size, lo, steps, paths, i, err)
    && OthersRedirected(mem0, free0, mem, ttbr, self)
  }

  lemma {:induction false} FitsNot(mem: Memory, root: Frame, paths: seq<Path>, i: nat, avail: nat)
    requires i < |paths| && !Fits(mem, root, paths[..i + 1], avail)
    ensures !Fits(mem, root, paths, avail)
  {
    if Fits(mem, root, paths, avail) {
      FitsPrefix(mem, root, paths, i + 1, avail);
    }
  }

  /** A table found or a new one linked is one step down. */
  lemma {:induction false} EntryStepped(mem: Memory, free: set<Frame>, ttbr: Frame, root: Frame, p: Path, i: Index,
                     mem': Memory, free': set<Frame>, entry: Entry)
    requires Editing(mem, free, ttbr, root)
    requires IsTableAt(mem, root, p) && |p| <= 2 && Pos(p + [i]) && entry.valid && entry.pageOrTable
    requires var f := TableAt(mem, root, p).value;
             if mem[f][i].valid then mem' == mem && free' == free && entry == mem[f][i]
             else entry.addr in free && free' == free - {entry.addr} && mem' == Link(mem, f, i, entry.addr)
    ensures TableAt(mem', root, p + [i]).Some? && Stepped(mem, |free|, mem', |free'|, root, p + [i])
  {
    var f := TableAt(mem, root, p).value;
    assert (p + [i])[..|p|] == p;
    if mem[f][i].valid {
      forall q: Path | q <= p + [i]
        ensures TableAt(mem, root, q).Some?
      {
        TableAbove(mem, root, p + [i], q);
      }
    } else {
      LinkGrew(mem, free, ttbr, root, p, i, entry.addr, 3);
      LinkBelow(mem, free, ttbr, root, p, i, entry.addr, p + [i]);
    }
  }

  /** What the redirection of slot 511 leaves as it was. */
  lemma {:induction false} Redirected(mem: Memory, free: set<Frame>, ttbr: Frame, self: Frame, p: Path)
    requires Tree(mem, free, ttbr, self) && Recursive(mem, self, self) && Pos(p) && |p| <= 3
    ensures var memR := Write(mem, ttbr, RECURSIVE, TableEntry(self));
            && Editing(memR, free, ttbr, self) && Grew(mem, memR, self, [], 3)
            && Obstacle(memR, self, p, |free|) == Obstacle(mem, self, p, |free|)
            && Lacking(memR, self, p) == Lacking(mem, self, p)
  {
    BeginMap(mem, free, ttbr, self);
    SameObstacle(mem, Write(mem, ttbr, RECURSIVE, TableEntry(self)), self, 3, p);
  }

  lemma {:induction false} GrewThrough(m0: Memory, m1: Memory, m2: Memory, m3: Memory, root: Frame, p: Path)
    requires Grew(m0, m1, root, [], 3) && Grew(m1, m2, root, p, 3) && |p| <= 3 && Grew(m2, m3, root, [], |p|)
    ensures Grew(m0, m3, root, p, |p|)
  {
    GrewJoin(m0, m1, m2, root, [], p, 3);
  }

  lemma {:induction false} OneFurther(idx: Path, d: nat, n: nat)
    requires d < n <= |idx|
    ensures idx[..d] + [idx[d]] == idx[..d + 1] && idx[..d + 1] <= idx[..n] && idx[..d + 1][..d] == idx[..d]
    ensures Pos(idx) ==> Pos(idx[..d]) && Pos(idx[..d + 1])
  {
  }

  /** At the root an edit has come nowhere yet. */
  lemma {:induction false} AtRoot(mem: Memory, free: set<Frame>, ttbr: Frame, root: Frame, va: VirtAddr)
    requires Editing(mem, free, ttbr, root)
    ensures PointsTo(mem, ttbr, root, Indices(va)[..0], Linear(root)) && Extends(mem, free, mem, free, ttbr, root)
    ensures Came(mem, |free|, mem, |free|, root, Indices(va)[..0])
  {
    assert Indices(va)[..0] == [];
  }

  // ----- a failing map_to

  /**
   A state in which `map_to` fails for every address and page size: a root with nothing
   mapped, the kernel root apart from it, and no frame left.
   */
  lemma {:induction false} MapToFails(va: VirtAddr, size: PageSize)
    requires Indices(va)[0] != RECURSIVE
    ensures var mem := NothingLeft();
            && Tree(mem, {}, 0, 1) && Recursive(mem, 1, 1)
            && Obstacle(mem, 1, Indices(va)[..size.Depth()], 0) == Some(AllocationFailed)
            && mem[0][RECURSIVE] != TableEntry(1)
  {
    var mem := NothingLeft();
    EmptyTree(mem, 0, 1);
    NothingMapped(mem, 1, Indices(va)[..size.Depth()]);
  }

  /** Frame 0 for the kernel root and frame 1 for a root with nothing but its recursive slot. */
  function NothingLeft(): (mem: Memory)
    ensures mem.Keys == {0, 1}
  {
    map[0 := EmptyTable(), 1 := EmptyTable()[RECURSIVE := TableEntry(1)]]
  }

  /** In that state `map_to` leaves the kernel root's slot 511 changed. */
  method MapToLeavesSlot(k: Kernel, entry: Entry, va: VirtAddr, size: PageSize)
    returns (r: Result<(), PageTableError>)
    requires k.mem == NothingLeft() && k.free == {} && k.ttbr1 == 0
    requires Indices(va)[0] != RECURSIVE
    requires entry.valid && entry.pageOrTable ==> size.Page4K?
    modifies k
    ensures r == Err(AllocationFailed) && 0 in k.mem
    ensures k.mem[0][RECURSIVE] == TableEntry(1) != old(k.mem[0][RECURSIVE])
  {
    MapToFails(va, size);
    r := k.MapTo(1, entry, va, size);
  }

  /** With nothing mapped the tables form a tree of one. */
  lemma {:induction false} EmptyTree(mem: Memory, ttbr: Frame, root: Frame)
    requires ttbr in mem && root in mem && forall i: Index | i != RECURSIVE :: !mem[root][i].valid
    ensures Tree(mem, {}, ttbr, root)
  {
    forall q: Path | q != [] && Pos(q)
      ensures TableAt(mem, root, q).None?
    {
      NothingMapped(mem, root, q);
    }
  }

  /** No table below such a root exists, and each has to be made. */
  lemma {:induction false} NothingMapped(mem: Memory, root: Frame, q: Path)
    requires q != [] && Pos(q) && root in mem && forall i: Index | i != RECURSIVE :: !mem[root][i].valid
    ensures TableAt(mem, root, q).None? && Obstacle(mem, root, q, 0) == Some(AllocationFailed)
    decreases |q|
  {
    if |q| > 1 {
      NothingMapped(mem, root, q[..|q| - 1]);
    } else {
      assert q == [] + [q[0]];
      LackingStep(mem, root, [], q[0]);
    }
  }
}
