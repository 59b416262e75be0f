/**
 Four-level translation tables in physical memory and the MMU's walk over them,
 for 4KiB granules and 48-bit addresses (the "Translation process" section of the
 Arm Architecture Reference Manual).  A table is named by its position: the
 indices that lead to it from the root.
 */
module PageTable {
  import opened Wrappers
  import opened Mem
  import opened Descriptor

  type Index = x: nat | x < 512

  type Path = seq<Index>

  type Table = t: seq<Entry> | |t| == 512 ghost witness seq(512, i => Empty())

  type Memory = map<Frame, Table>

  /** The root slot through which tables are reached recursively. */
  const RECURSIVE: Index := 511

  function EmptyTable(): (t: Table)
    ensures forall i: Index :: !t[i].valid
  {
    seq(512, i => Empty())
  }

  // ----- the hardware walk

  type Depth = x: nat | x < 4

  datatype Leaf = Leaf(entry: Entry, depth: Depth)

  /** The walk from table `f`, whose entries are selected by `idx[d]`. */
  function WalkFrom(mem: Memory, f: Frame, idx: Path, d: nat): Option<Leaf>
    requires |idx| == 4 && d < 4
    decreases 4 - d
  {
    if f !in mem then None
    else
      var e := mem[f][idx[d]];
      if !e.valid then None
      else if e.pageOrTable then
        if d == 3 then Some(Leaf(e, 3)) else WalkFrom(mem, e.addr, idx, d + 1)
      else if d == 1 || d == 2 then Some(Leaf(e, d))
      else None
  }

  function Walk(mem: Memory, root: Frame, idx: Path): Option<Leaf>
    requires |idx| == 4
  {
    WalkFrom(mem, root, idx, 0)
  }

  // ----- tables by position

  function Child(mem: Memory, f: Frame, i: Index): Option<Frame> {
    if f in mem && mem[f][i].valid && mem[f][i].pageOrTable then Some(mem[f][i].addr) else None
  }

  /** The frame of the table at position `p` below `root`. */
  function TableAt(mem: Memory, root: Frame, p: Path): Option<Frame> {
    if p == [] then Some(root)
    else
      match TableAt(mem, root, p[..|p| - 1])
      case None => None
      case Some(f) => Child(mem, f, p[|p| - 1])
  }

  /** Positions outside the recursive slot of the root. */
  predicate Pos(p: Path) {
    p != [] ==> p[0] != RECURSIVE
  }

  predicate IsTableAt(mem: Memory, root: Frame, p: Path) {
    Pos(p) && |p| <= 3 && TableAt(mem, root, p).Some?
  }

  /**
   The tables below `root` form a tree: every position has a frame of its own,
   none of them free, and only the root may be the table in `ttbr`.
   */
  ghost predicate Tree(mem: Memory, free: set<Frame>, ttbr: Frame, root: Frame) {
    && free <= mem.Keys
    && ttbr in mem && ttbr !in free
    && (forall p {:trigger IsTableAt(mem, root, p)} | IsTableAt(mem, root, p) ::
          TableAt(mem, root, p).value in mem
          && TableAt(mem, root, p).value !in free
          && (p != [] ==> TableAt(mem, root, p).value != ttbr))
    && (forall p, q {:trigger IsTableAt(mem, root, p), IsTableAt(mem, root, q)} |
          IsTableAt(mem, root, p) && IsTableAt(mem, root, q) && TableAt(mem, root, p) == TableAt(mem, root, q) ::
            p == q)
  }

  /** Slot 511 of `f` points at `root` as a table. */
  predicate Recursive(mem: Memory, f: Frame, root: Frame) {
    Child(mem, f, RECURSIVE) == Some(root)
  }

  lemma {:induction false} TableAtConcat(mem: Memory, root: Frame, p: Path, f: Frame, q: Path)
    requires TableAt(mem, root, p) == Some(f)
    ensures TableAt(mem, root, p + q) == TableAt(mem, f, q)
    decreases |q|
  {
    if q == [] {
      assert p + q == p;
    } else {
      TableAtConcat(mem, root, p, f, q[..|q| - 1]);
      assert (p + q)[..|p + q| - 1] == p + q[..|q| - 1];
    }
  }

  /** The walk passes through the table at each position along its path. */
  lemma {:induction false} WalkVia(mem: Memory, root: Frame, idx: Path, d: nat, f: Frame)
    requires |idx| == 4 && d < 4
    requires TableAt(mem, root, idx[..d]) == Some(f)
    ensures Walk(mem, root, idx) == WalkFrom(mem, f, idx, d)
    decreases d
  {
    if d > 0 {
      assert idx[..d][..d - 1] == idx[..d - 1];
      var g := TableAt(mem, root, idx[..d - 1]).value;
      WalkVia(mem, root, idx, d - 1, g);
      assert Child(mem, g, idx[d - 1]) == Some(f);
    }
  }

  /** A path of four table entries ends in a page: the table they lead to. */
  lemma WalkToTable(mem: Memory, root: Frame, idx: Path, f: Frame)
    requires |idx| == 4
    requires TableAt(mem, root, idx) == Some(f)
    ensures Walk(mem, root, idx).Some?
    ensures Walk(mem, root, idx).value.depth == 3 && Walk(mem, root, idx).value.entry.addr == f
  {
    var g := TableAt(mem, root, idx[..3]).value;
    WalkVia(mem, root, idx, 3, g);
  }

  function Repeat(n: nat): (p: Path)
    ensures |p| == n && forall i | 0 <= i < n :: p[i] == RECURSIVE
  {
    if n == 0 then [] else Repeat(n - 1) + [RECURSIVE]
  }

  lemma {:induction false} RecursiveChain(mem: Memory, root: Frame, n: nat)
    requires Recursive(mem, root, root)
    ensures TableAt(mem, root, Repeat(n)) == Some(root)
  {
    if n > 0 {
      RecursiveChain(mem, root, n - 1);
      assert Repeat(n)[..n - 1] == Repeat(n - 1);
    }
  }

  lemma {:induction false} RepeatFront(n: nat)
    ensures Repeat(n + 1) == [RECURSIVE] + Repeat(n)
  {
  }

  /** Indices shifted down behind 511s lead to the table they used to lead through. */
  lemma {:induction false} RecursiveLanding(mem: Memory, ttbr: Frame, root: Frame, p: Path, f: Frame)
    requires Recursive(mem, ttbr, root) && Recursive(mem, root, root)
    requires |p| <= 3 && TableAt(mem, root, p) == Some(f)
    ensures TableAt(mem, ttbr, Repeat(4 - |p|) + p) == Some(f)
  {
    var n := 3 - |p|;
    var first: Path := [RECURSIVE];
    assert TableAt(mem, ttbr, first) == Some(root) by {
      assert first[..0] == [];
    }
    RecursiveChain(mem, root, n);
    TableAtConcat(mem, ttbr, first, root, Repeat(n));
    RepeatFront(n);
    TableAtConcat(mem, ttbr, Repeat(n + 1), root, p);
  }

  // ----- changing one entry

  /**
   Two memories agree on every entry of the tables below `root`, except at
   position `slot` and inside the recursive slot.
   */
  ghost predicate AgreeOff(mem: Memory, mem': Memory, root: Frame, slot: Path) {
    forall p: Path, i: Index | IsTableAt(mem, root, p) && Pos(p + [i]) && p + [i] != slot ::
      var f := TableAt(mem, root, p).value;
      f in mem && f in mem' && mem'[f][i] == mem[f][i]
  }

  lemma {:induction false} AgreeTableAt(mem: Memory, mem': Memory, root: Frame, slot: Path, p: Path)
    requires AgreeOff(mem, mem', root, slot)
    requires Pos(p) && |p| <= 3 && !(slot <= p)
    ensures TableAt(mem', root, p) == TableAt(mem, root, p)
    decreases |p|
  {
    if p != [] {
      var q, i := p[..|p| - 1], p[|p| - 1];
      assert p == q + [i];
      AgreeTableAt(mem, mem', root, slot, q);
      assert TableAt(mem, root, q).Some? ==> IsTableAt(mem, root, q);
    }
  }

  lemma {:induction false} AgreeWalkFrom(mem: Memory, mem': Memory, root: Frame, slot: Path, idx: Path, d: nat)
    requires AgreeOff(mem, mem', root, slot)
    requires |idx| == 4 && d < 4 && Pos(idx) && !(slot <= idx)
    requires TableAt(mem, root, idx[..d]).Some?
    ensures var f := TableAt(mem, root, idx[..d]).value;
            WalkFrom(mem', f, idx, d) == WalkFrom(mem, f, idx, d)
    decreases 4 - d
  {
    var f := TableAt(mem, root, idx[..d]).value;
    assert IsTableAt(mem, root, idx[..d]);
    assert idx[..d] + [idx[d]] == idx[..d + 1] && idx[..d + 1][..d] == idx[..d];
    assert idx[..d + 1] != slot;
    assert f in mem && f in mem' && mem'[f][idx[d]] == mem[f][idx[d]];
    var e := mem[f][idx[d]];
    if e.valid && e.pageOrTable && d < 3 {
      AgreeWalkFrom(mem, mem', root, slot, idx, d + 1);
    }
  }

  /** Entries off the path do not matter to a walk. */
  lemma AgreeWalk(mem: Memory, mem': Memory, root: Frame, slot: Path, idx: Path)
    requires AgreeOff(mem, mem', root, slot)
    requires |idx| == 4 && Pos(idx) && !(slot <= idx)
    ensures Walk(mem', root, idx) == Walk(mem, root, idx)
  {
    assert idx[..0] == [];
    AgreeWalkFrom(mem, mem', root, slot, idx, 0);
  }

  /** Outside the recursive slot every walk ends as before. */
  ghost predicate SameWalks(mem: Memory, mem': Memory, root: Frame) {
    forall idx {:trigger Walk(mem', root, idx)} | |idx| == 4 && Pos(idx) ::
      Walk(mem', root, idx) == Walk(mem, root, idx)
  }

  /** Outside the recursive slot, the walks through position `q` end at entry `e` and all others as before. */
  ghost predicate WalksReplaced(mem: Memory, mem': Memory, root: Frame, q: Path, e: Entry)
    requires 0 < |q| <= 4
  {
    forall idx {:trigger Walk(mem', root, idx)} | |idx| == 4 && Pos(idx) ::
      Walk(mem', root, idx) == if q <= idx then Ends(e, |q| - 1) else Walk(mem, root, idx)
  }

  /** In a tree, writing entry `i` of the table at `p` changes position `p + [i]` only. */
  lemma WriteAgrees(mem: Memory, free: set<Frame>, ttbr: Frame, root: Frame, p: Path, i: Index, e: Entry)
    requires Tree(mem, free, ttbr, root)
    requires IsTableAt(mem, root, p)
    ensures AgreeOff(mem, Write(mem, TableAt(mem, root, p).value, i, e), root, p + [i])
  {
    var f := TableAt(mem, root, p).value;
    var mem' := Write(mem, f, i, e);
    forall q: Path, j: Index | IsTableAt(mem, root, q) && Pos(q + [j]) && q + [j] != p + [i]
      ensures var g := TableAt(mem, root, q).value; g in mem && g in mem' && mem'[g][j] == mem[g][j]
    {
      if TableAt(mem, root, q).value == f {
        assert q == p;
        assert j != i;
      }
    }
  }

  function Write(mem: Memory, f: Frame, i: Index, e: Entry): Memory
    requires f in mem
  {
    mem[f := mem[f][i := e]]
  }

  /** Writing the recursive slot of `ttbr` does not change the tree. */
  lemma WriteRecursiveSlot(mem: Memory, free: set<Frame>, ttbr: Frame, root: Frame, e: Entry)
    requires Tree(mem, free, ttbr, root)
    ensures AgreeOff(mem, Write(mem, ttbr, RECURSIVE, e), root, [RECURSIVE])
    ensures Tree(Write(mem, ttbr, RECURSIVE, e), free, ttbr, root)
    ensures var mem' := Write(mem, ttbr, RECURSIVE, e);
            forall p | IsTableAt(mem', root, p) ::
              IsTableAt(mem, root, p) && TableAt(mem', root, p) == TableAt(mem, root, p)
  {
    var mem' := Write(mem, ttbr, RECURSIVE, e);
    forall q: Path, j: Index | IsTableAt(mem, root, q) && Pos(q + [j]) && q + [j] != [RECURSIVE]
      ensures var g := TableAt(mem, root, q).value; g in mem && g in mem' && mem'[g][j] == mem[g][j]
    {
      if q == [] {
        assert (q + [j])[0] == j;
      }
    }
    TreeKept(mem, mem', free, free, ttbr, root, [RECURSIVE]);
  }

  /** A tree stays a tree when no table hangs below the one changed position. */
  lemma TreeKept(mem: Memory, mem': Memory, free: set<Frame>, free': set<Frame>, ttbr: Frame, root: Frame, slot: Path)
    requires Tree(mem, free, ttbr, root)
    requires AgreeOff(mem, mem', root, slot)
    requires mem.Keys <= mem'.Keys && free' <= free
    requires forall p {:trigger TableAt(mem', root, p)} | Pos(p) && |p| <= 3 && slot <= p ::
               TableAt(mem', root, p).None?
    ensures Tree(mem', free', ttbr, root)
    ensures forall p | IsTableAt(mem', root, p) ::
              IsTableAt(mem, root, p) && TableAt(mem', root, p) == TableAt(mem, root, p)
  {
    forall p | IsTableAt(mem', root, p)
      ensures IsTableAt(mem, root, p) && TableAt(mem', root, p) == TableAt(mem, root, p)
    {
      AgreeTableAt(mem, mem', root, slot, p);
    }
  }

  /** Clearing a frame that is not in the tree leaves the tree alone. */
  lemma ClearKeepsTree(mem: Memory, free: set<Frame>, ttbr: Frame, root: Frame, n: Frame)
    requires Tree(mem, free, ttbr, root) && n in free
    ensures var mem' := mem[n := EmptyTable()];
            && AgreeOff(mem, mem', root, [RECURSIVE]) && Tree(mem', free, ttbr, root)
            && mem'[ttbr] == mem[ttbr] && root in mem' && mem'[root] == mem[root]
  {
    var mem' := mem[n := EmptyTable()];
    assert IsTableAt(mem, root, []);
    TreeKept(mem, mem', free, free, ttbr, root, [RECURSIVE]);
  }

  // ----- installing an empty table in an invalid entry

  /** The memory after a cleared frame `n` is linked at entry `i` of the table at `p`. */
  function Link(mem: Memory, f: Frame, i: Index, n: Frame): Memory
    requires f in mem
  {
    Write(mem, f, i, TableEntry(n))[n := EmptyTable()]
  }

  lemma LinkAgrees(mem: Memory, free: set<Frame>, ttbr: Frame, root: Frame, p: Path, i: Index, n: Frame)
    requires Tree(mem, free, ttbr, root)
    requires IsTableAt(mem, root, p) && n in free
    ensures TableAt(mem, root, p).value in mem
    ensures AgreeOff(mem, Link(mem, TableAt(mem, root, p).value, i, n), root, p + [i])
  {
    WriteAgrees(mem, free, ttbr, root, p, i, TableEntry(n));
  }

  /** Below the linked position there is the new table and nothing else. */
  lemma LinkBelow(mem: Memory, free: set<Frame>, ttbr: Frame, root: Frame, p: Path, i: Index, n: Frame, q: Path)
    requires Tree(mem, free, ttbr, root)
    requires IsTableAt(mem, root, p) && n in free && |p| <= 2 && Pos(p + [i])
    requires p + [i] <= q
    ensures TableAt(mem, root, p).value in mem
    ensures TableAt(Link(mem, TableAt(mem, root, p).value, i, n), root, q) == if q == p + [i] then Some(n) else None
    decreases |q|
  {
    var f := TableAt(mem, root, p).value;
    var mem' := Link(mem, f, i, n);
    if q == p + [i] {
      LinkAgrees(mem, free, ttbr, root, p, i, n);
      AgreeTableAt(mem, mem', root, p + [i], p);
      assert q[..|q| - 1] == p;
    } else {
      LinkBelow(mem, free, ttbr, root, p, i, n, q[..|q| - 1]);
    }
  }

  /** Linking an empty table below an invalid entry translates every address as before. */
  lemma LinkKeepsWalks(mem: Memory, free: set<Frame>, ttbr: Frame, root: Frame, p: Path, i: Index, n: Frame, idx: Path)
    requires Tree(mem, free, ttbr, root)
    requires IsTableAt(mem, root, p) && n in free && |p| <= 2 && Pos(p + [i])
    requires !mem[TableAt(mem, root, p).value][i].valid
    requires |idx| == 4 && Pos(idx)
    ensures Walk(Link(mem, TableAt(mem, root, p).value, i, n), root, idx) == Walk(mem, root, idx)
  {
    var f := TableAt(mem, root, p).value;
    var mem' := Link(mem, f, i, n);
    LinkAgrees(mem, free, ttbr, root, p, i, n);
    if p + [i] <= idx {
      assert idx[..|p|] == p && idx[|p|] == i;
      assert idx[..|p| + 1] == p + [i];
      WalkVia(mem, root, idx, |p|, f);
      LinkBelow(mem, free, ttbr, root, p, i, n, p + [i]);
      WalkVia(mem', root, idx, |p| + 1, n);
    } else {
      AgreeWalk(mem, mem', root, p + [i], idx);
    }
  }

  lemma LinkKeepsTree(mem: Memory, free: set<Frame>, ttbr: Frame, root: Frame, p: Path, i: Index, n: Frame)
    requires Tree(mem, free, ttbr, root)
    requires IsTableAt(mem, root, p) && n in free && |p| <= 2 && Pos(p + [i])
    ensures TableAt(mem, root, p).value in mem
    ensures Tree(Link(mem, TableAt(mem, root, p).value, i, n), free - {n}, ttbr, root)
  {
    var f := TableAt(mem, root, p).value;
    var mem' := Link(mem, f, i, n);
    LinkAgrees(mem, free, ttbr, root, p, i, n);
    forall q | IsTableAt(mem', root, q)
      ensures if q == p + [i] then TableAt(mem', root, q) == Some(n)
              else IsTableAt(mem, root, q) && TableAt(mem', root, q) == TableAt(mem, root, q)
    {
      if p + [i] <= q {
        LinkBelow(mem, free, ttbr, root, p, i, n, q);
      } else {
        AgreeTableAt(mem, mem', root, p + [i], q);
      }
    }
  }

  // ----- writing a leaf

  /** An entry at which the MMU ends a walk at depth `d`, with a leaf or without one. */
  predicate IsLast(e: Entry, d: nat) {
    e.valid ==> if d == 3 then e.pageOrTable else (d == 1 || d == 2) && !e.pageOrTable
  }

  /** What a walk that ends at entry `e` yields. */
  function Ends(e: Entry, d: Depth): Option<Leaf> {
    if e.valid then Some(Leaf(e, d)) else None
  }

  /** A leaf takes over all paths through its position and no other. */
  lemma LeafWalks(mem: Memory, free: set<Frame>, ttbr: Frame, root: Frame, p: Path, i: Index, e: Entry, idx: Path)
    requires Tree(mem, free, ttbr, root)
    requires IsTableAt(mem, root, p) && IsLast(e, |p|) && Pos(p + [i])
    requires |idx| == 4 && Pos(idx)
    ensures TableAt(mem, root, p).value in mem
    ensures Walk(Write(mem, TableAt(mem, root, p).value, i, e), root, idx)
         == if p + [i] <= idx then Ends(e, |p|) else Walk(mem, root, idx)
  {
    var f := TableAt(mem, root, p).value;
    var mem' := Write(mem, f, i, e);
    WriteAgrees(mem, free, ttbr, root, p, i, e);
    if p + [i] <= idx {
      assert idx[..|p|] == p && idx[|p|] == i;
      AgreeTableAt(mem, mem', root, p + [i], p);
      WalkVia(mem', root, idx, |p|, f);
    } else {
      AgreeWalk(mem, mem', root, p + [i], idx);
    }
  }

  lemma LeafKeepsTree(mem: Memory, free: set<Frame>, ttbr: Frame, root: Frame, p: Path, i: Index, e: Entry)
    requires Tree(mem, free, ttbr, root)
    requires IsTableAt(mem, root, p) && Pos(p + [i])
    requires |p| < 3 ==> !e.valid || !e.pageOrTable
    ensures TableAt(mem, root, p).value in mem
    ensures var mem' := Write(mem, TableAt(mem, root, p).value, i, e);
            && Tree(mem', free, ttbr, root)
            && (forall q | IsTableAt(mem', root, q) ::
                  IsTableAt(mem, root, q) && TableAt(mem', root, q) == TableAt(mem, root, q))
  {
    var mem' := Write(mem, TableAt(mem, root, p).value, i, e);
    WriteAgrees(mem, free, ttbr, root, p, i, e);
    forall q | Pos(q) && |q| <= 3 && p + [i] <= q
      ensures TableAt(mem', root, q).None?
    {
      NothingBelowLeaf(mem, mem', root, p, i, q);
    }
    TreeKept(mem, mem', free, free, ttbr, root, p + [i]);
  }

  lemma {:induction false} NothingBelowLeaf(mem: Memory, mem': Memory, root: Frame, p: Path, i: Index, q: Path)
    requires AgreeOff(mem, mem', root, p + [i])
    requires IsTableAt(mem, root, p) && Pos(p + [i])
    requires Child(mem', TableAt(mem, root, p).value, i).None?
    requires p + [i] <= q
    ensures TableAt(mem', root, q).None?
    decreases |q|
  {
    if |q| == |p| + 1 {
      assert q == p + [i] && q[..|q| - 1] == p;
      AgreeTableAt(mem, mem', root, p + [i], p);
    } else {
      NothingBelowLeaf(mem, mem', root, p, i, q[..|q| - 1]);
    }
  }
}
