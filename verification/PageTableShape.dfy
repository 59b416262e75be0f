/**
 Which tables and blocks stand where, and what reaching a table takes: the tables
 missing on a path, and the block entries in its way (aarch64/src/vm.rs, `next_mut`).
 */
module PageTableShape {
  import opened Wrappers
  import opened Descriptor
  import opened PageTable

  datatype PageTableError = AllocationFailed | EntryIsNotTable | PhysRangeIsZero

  /** The entry at position `q` is valid and not a table. */
  predicate BlockAt(mem: Memory, root: Frame, q: Path) {
    && q != []
    && var f := TableAt(mem, root, q[..|q| - 1]);
       f.Some? && f.value in mem && mem[f.value][q[|q| - 1]].valid && !mem[f.value][q[|q| - 1]].pageOrTable
  }

  /** A block entry stands at or above position `p`. */
  predicate Blocked(mem: Memory, root: Frame, p: Path) {
    p != [] && (BlockAt(mem, root, p) || Blocked(mem, root, p[..|p| - 1]))
  }

  /** The number of positions from the root down to `p` that have no table. */
  function Lacking(mem: Memory, root: Frame, p: Path): nat {
    if p == [] then 0
    else Lacking(mem, root, p[..|p| - 1]) + if TableAt(mem, root, p).None? then 1 else 0
  }

  /** Why the table at `p` cannot be reached or made with `avail` frames for new tables. */
  function Obstacle(mem: Memory, root: Frame, p: Path, avail: nat): (r: Option<PageTableError>)
    ensures r != Some(PhysRangeIsZero)
  {
    if Blocked(mem, root, p) then Some(EntryIsNotTable)
    else if Lacking(mem, root, p) > avail then Some(AllocationFailed)
    else None
  }

  /**
   Down to depth `n`, the tables of `mem'` are those of `mem` and the ones on the way to
   `p`; blocks stand where they stood.
   */
  ghost predicate Grew(mem: Memory, mem': Memory, root: Frame, p: Path, n: nat) {
    forall q: Path
      {:trigger TableAt(mem', root, q)} {:trigger TableAt(mem, root, q)} {:trigger BlockAt(mem', root, q)} |
      Pos(q) && |q| <= n ::
      && (TableAt(mem', root, q).Some? <==> TableAt(mem, root, q).Some? || q <= p)
      && (BlockAt(mem', root, q) <==> BlockAt(mem, root, q))
  }

  lemma {:induction false} TableAbove(mem: Memory, root: Frame, p: Path, q: Path)
    requires q <= p && TableAt(mem, root, p).Some?
    ensures TableAt(mem, root, q).Some?
    decreases |p|
  {
    if q != p {
      assert q <= p[..|p| - 1];
      TableAbove(mem, root, p[..|p| - 1], q);
    }
  }

  // ----- one more step down a path

  lemma {:induction false} LackingStep(mem: Memory, root: Frame, p: Path, i: Index)
    ensures (p + [i])[..|p|] == p
    ensures Lacking(mem, root, p + [i]) == Lacking(mem, root, p) + if TableAt(mem, root, p + [i]).None? then 1 else 0
    ensures Blocked(mem, root, p + [i]) <==> BlockAt(mem, root, p + [i]) || Blocked(mem, root, p)
  {
    assert (p + [i])[..|p|] == p;
  }

  /** What is in the way of `p` is in the way of everything below. */
  lemma {:induction false} ObstacleBelow(mem: Memory, root: Frame, p: Path, q: Path)
    requires p <= q
    ensures Blocked(mem, root, p) ==> Blocked(mem, root, q)
    ensures Lacking(mem, root, p) <= Lacking(mem, root, q)
    decreases |q|
  {
    if p != q {
      assert p <= q[..|q| - 1];
      ObstacleBelow(mem, root, p, q[..|q| - 1]);
    }
  }

  /** Below an invalid entry no block stands. */
  lemma {:induction false} FreeBelow(mem: Memory, root: Frame, p: Path, q: Path)
    requires p <= q && !Blocked(mem, root, p) && TableAt(mem, root, p).None?
    ensures !Blocked(mem, root, q) && TableAt(mem, root, q).None?
    decreases |q|
  {
    if p != q {
      assert p <= q[..|q| - 1];
      FreeBelow(mem, root, p, q[..|q| - 1]);
    }
  }

  // ----- what writes do to the shape

  /** Memories that agree off a position no longer than `n` would see have the same shape. */
  lemma {:induction false} AgreeGrew(mem: Memory, mem': Memory, root: Frame, slot: Path, n: nat)
    requires AgreeOff(mem, mem', root, slot) && n <= 3
    requires slot == [RECURSIVE] || |slot| > n
    ensures Grew(mem, mem', root, [], n)
  {
    forall q: Path | Pos(q) && |q| <= n
      ensures TableAt(mem', root, q) == TableAt(mem, root, q)
      ensures BlockAt(mem', root, q) <==> BlockAt(mem, root, q)
    {
      AgreeTableAt(mem, mem', root, slot, q);
      if q != [] {
        AgreeBlock(mem, mem', root, slot, q);
      }
    }
  }

  lemma {:induction false} AgreeBlock(mem: Memory, mem': Memory, root: Frame, slot: Path, q: Path)
    requires AgreeOff(mem, mem', root, slot)
    requires q != [] && Pos(q) && |q| <= 4 && !(slot <= q)
    ensures BlockAt(mem', root, q) <==> BlockAt(mem, root, q)
  {
    var r, i := q[..|q| - 1], q[|q| - 1];
    assert r + [i] == q;
    assert !(slot <= r);
    AgreeTableAt(mem, mem', root, slot, r);
    if TableAt(mem, root, r).Some? {
      assert IsTableAt(mem, root, r);
    }
  }

  /** Linking a new table at an invalid entry adds that table and nothing else. */
  lemma {:induction false} LinkGrew(mem: Memory, free: set<Frame>, ttbr: Frame, root: Frame, p: Path, i: Index,
                                    f: Frame, n: nat)
    requires Tree(mem, free, ttbr, root)
    requires IsTableAt(mem, root, p) && f in free && |p| <= 2 && Pos(p + [i]) && n <= 3
    requires !mem[TableAt(mem, root, p).value][i].valid
    ensures TableAt(mem, root, p + [i]).None? && !BlockAt(mem, root, p + [i])
    ensures Grew(mem, Link(mem, TableAt(mem, root, p).value, i, f), root, p + [i], n)
  {
    var mem' := Link(mem, TableAt(mem, root, p).value, i, f);
    assert (p + [i])[..|p|] == p;
    forall q: Path | Pos(q) && |q| <= n
      ensures TableAt(mem', root, q).Some? <==> TableAt(mem, root, q).Some? || q <= p + [i]
      ensures BlockAt(mem', root, q) <==> BlockAt(mem, root, q)
    {
      if p + [i] <= q {
        LinkGrewBelow(mem, free, ttbr, root, p, i, f, q);
      } else {
        LinkAgrees(mem, free, ttbr, root, p, i, f);
        AgreeTableAt(mem, mem', root, p + [i], q);
        if q <= p + [i] {
          assert q <= p;
          TableAbove(mem, root, p, q);
        }
        if q != [] {
          AgreeBlock(mem, mem', root, p + [i], q);
        }
      }
    }
  }

  lemma {:induction false} LinkGrewBelow(mem: Memory, free: set<Frame>, ttbr: Frame, root: Frame, p: Path, i: Index,
                                         f: Frame, q: Path)
    requires Tree(mem, free, ttbr, root)
    requires IsTableAt(mem, root, p) && f in free && |p| <= 2 && Pos(p + [i]) && p + [i] <= q
    requires !mem[TableAt(mem, root, p).value][i].valid
    ensures var mem' := Link(mem, TableAt(mem, root, p).value, i, f);
            && (TableAt(mem', root, q).Some? <==> q == p + [i]) && TableAt(mem, root, q).None?
            && !BlockAt(mem', root, q) && !BlockAt(mem, root, q)
  {
    var mem' := Link(mem, TableAt(mem, root, p).value, i, f);
    LinkBelow(mem, free, ttbr, root, p, i, f, q);
    assert (p + [i])[..|p|] == p;
    if q == p + [i] {
      LinkAgrees(mem, free, ttbr, root, p, i, f);
      AgreeTableAt(mem, mem', root, p + [i], p);
    } else {
      assert p + [i] <= q[..|q| - 1];
      LinkBelow(mem, free, ttbr, root, p, i, f, q[..|q| - 1]);
      if TableAt(mem, root, q[..|q| - 1]).Some? {
        TableAbove(mem, root, q[..|q| - 1], p + [i]);
      }
    }
  }

  // ----- what is in the way, seen from a tree of the same shape

  lemma {:induction false} SameObstacle(mem: Memory, mem': Memory, root: Frame, n: nat, q: Path)
    requires Grew(mem, mem', root, [], n) && Pos(q) && |q| <= n
    ensures Blocked(mem', root, q) <==> Blocked(mem, root, q)
    ensures Lacking(mem', root, q) == Lacking(mem, root, q)
    decreases |q|
  {
    if q != [] {
      SameObstacle(mem, mem', root, n, q[..|q| - 1]);
      assert !(q <= []);
    }
  }

  lemma {:induction false} GrewJoin(m0: Memory, m1: Memory, m2: Memory, root: Frame, p: Path, q: Path, n: nat)
    requires Grew(m0, m1, root, p, n) && Grew(m1, m2, root, q, n) && p <= q
    ensures Grew(m0, m2, root, q, n)
  {
  }

  // ----- several paths one after the other

  predicate OnSome(paths: seq<Path>, q: Path) {
    exists j | 0 <= j < |paths| :: q <= paths[j]
  }

  /** The positions down to `p` that have no table and lie on none of the paths before it. */
  function LackingNew(mem: Memory, root: Frame, before: seq<Path>, p: Path): nat {
    if p == [] then 0
    else LackingNew(mem, root, before, p[..|p| - 1])
         + if TableAt(mem, root, p).None? && !OnSome(before, p) then 1 else 0
  }

  /** The number of positions on the paths, each counted once, that have no table. */
  function LackingAll(mem: Memory, root: Frame, paths: seq<Path>): nat {
    if paths == [] then 0
    else
      var before := paths[..|paths| - 1];
      LackingAll(mem, root, before) + LackingNew(mem, root, before, paths[|paths| - 1])
  }

  /** No block is in the way of any of the paths, and there are frames for all the tables that are missing on them. */
  ghost predicate Fits(mem: Memory, root: Frame, paths: seq<Path>, avail: nat) {
    (forall j | 0 <= j < |paths| :: !Blocked(mem, root, paths[j])) && LackingAll(mem, root, paths) <= avail
  }

  ghost predicate GrewAll(mem: Memory, mem': Memory, root: Frame, paths: seq<Path>, n: nat) {
    forall q: Path {:trigger TableAt(mem', root, q)} {:trigger BlockAt(mem', root, q)} |
      Pos(q) && |q| <= n && q != [] ::
      && (TableAt(mem', root, q).Some? <==> TableAt(mem, root, q).Some? || OnSome(paths, q))
      && (BlockAt(mem', root, q) <==> BlockAt(mem, root, q))
  }

  /** Edits along `paths` have made the tables missing there, and spent a frame on each. */
  ghost predicate Spent(mem: Memory, avail: nat, mem': Memory, avail': nat, root: Frame, paths: seq<Path>, n: nat) {
    && GrewAll(mem, mem', root, paths, n) && Fits(mem, root, paths, avail)
    && avail == avail' + LackingAll(mem, root, paths)
  }

  /** Seen from the tree grown along `paths`, the next path lacks just what it adds. */
  lemma {:induction false} LackingNext(mem: Memory, mem': Memory, root: Frame, paths: seq<Path>, n: nat, p: Path)
    requires GrewAll(mem, mem', root, paths, n) && Pos(p) && |p| <= n
    ensures Lacking(mem', root, p) == LackingNew(mem, root, paths, p)
    ensures Blocked(mem', root, p) <==> Blocked(mem, root, p)
    decreases |p|
  {
    if p != [] {
      LackingNext(mem, mem', root, paths, n, p[..|p| - 1]);
    }
  }

  lemma {:induction false} FitsSnoc(mem: Memory, root: Frame, paths: seq<Path>, p: Path, avail: nat)
    ensures (paths + [p])[..|paths|] == paths
    ensures LackingAll(mem, root, paths + [p]) == LackingAll(mem, root, paths) + LackingNew(mem, root, paths, p)
    ensures (forall j | 0 <= j < |paths| :: !Blocked(mem, root, paths[j])) ==>
              (Fits(mem, root, paths + [p], avail) <==>
               !Blocked(mem, root, p) && LackingAll(mem, root, paths + [p]) <= avail)
  {
    var paths' := paths + [p];
    assert paths'[..|paths|] == paths && paths'[|paths|] == p;
    assert forall j | 0 <= j < |paths| :: paths'[j] == paths[j];
  }

  /** The obstacle that the next path meets in the grown tree is that of all the paths together. */
  lemma {:induction false} ObstacleNext(mem: Memory, avail: nat, mem': Memory, avail': nat, root: Frame,
                                        paths: seq<Path>, n: nat, p: Path)
    requires Spent(mem, avail, mem', avail', root, paths, n) && Pos(p) && |p| <= n
    ensures Obstacle(mem', root, p, avail') == None <==> Fits(mem, root, paths + [p], avail)
    ensures Obstacle(mem', root, p, avail') == Some(EntryIsNotTable) <==> Blocked(mem, root, p)
  {
    LackingNext(mem, mem', root, paths, n, p);
    FitsSnoc(mem, root, paths, p, avail);
  }

  /** One more edit that succeeds. */
  lemma {:induction false} SpentNext(mem: Memory, avail: nat, m1: Memory, a1: nat, m2: Memory, a2: nat, root: Frame,
                                     paths: seq<Path>, n: nat, p: Path)
    requires Spent(mem, avail, m1, a1, root, paths, n) && Pos(p) && |p| <= n
    requires Grew(m1, m2, root, p, n) && a1 == a2 + Lacking(m1, root, p) && Obstacle(m1, root, p, a1) == None
    ensures Spent(mem, avail, m2, a2, root, paths + [p], n)
  {
    ObstacleNext(mem, avail, m1, a1, root, paths, n, p);
    LackingNext(mem, m1, root, paths, n, p);
    FitsSnoc(mem, root, paths, p, avail);
    forall q: Path | Pos(q) && |q| <= n && q != []
      ensures OnSome(paths + [p], q) <==> OnSome(paths, q) || q <= p
    {
      OnSomeSnoc(paths, p, q);
    }
  }

  lemma {:induction false} OnSomeSnoc(paths: seq<Path>, p: Path, q: Path)
    ensures OnSome(paths + [p], q) <==> OnSome(paths, q) || q <= p
  {
    var paths' := paths + [p];
    if OnSome(paths, q) {
      var j :| 0 <= j < |paths| && q <= paths[j];
      assert q <= paths'[j];
    }
    if q <= p {
      assert q <= paths'[|paths|];
    }
  }

  /** Adding paths can only take away room. */
  lemma {:induction false} FitsPrefix(mem: Memory, root: Frame, paths: seq<Path>, k: nat, avail: nat)
    requires k <= |paths| && Fits(mem, root, paths, avail)
    ensures Fits(mem, root, paths[..k], avail)
    decreases |paths|
  {
    if k < |paths| {
      var last := |paths| - 1;
      assert forall j | 0 <= j < last :: paths[..last][j] == paths[j];
      FitsPrefix(mem, root, paths[..last], k, avail);
      assert paths[..last][..k] == paths[..k];
    } else {
      assert paths[..k] == paths;
    }
  }

  // ----- the count is the number of missing tables

  /** The positions on one of the paths, the root apart, that have no table. */
  ghost predicate IsMissing(mem: Memory, root: Frame, paths: seq<Path>, q: Path) {
    q != [] && OnSome(paths, q) && TableAt(mem, root, q).None?
  }

  /** The positions down to `p`, the root apart, that have no table and lie on none of the paths before it. */
  function NewlyMissing(mem: Memory, root: Frame, before: seq<Path>, p: Path): (r: set<Path>)
    ensures |r| == LackingNew(mem, root, before, p) && forall q | q in r :: |q| <= |p|
  {
    if p == [] then {}
    else
      var above := NewlyMissing(mem, root, before, p[..|p| - 1]);
      if TableAt(mem, root, p).None? && !OnSome(before, p) then above + {p} else above
  }

  lemma {:induction false} NewlyMissingMembers(mem: Memory, root: Frame, before: seq<Path>, p: Path, q: Path)
    ensures q in NewlyMissing(mem, root, before, p)
            <==> q != [] && q <= p && TableAt(mem, root, q).None? && !OnSome(before, q)
    decreases |p|
  {
    if p != [] {
      NewlyMissingMembers(mem, root, before, p[..|p| - 1], q);
      if q <= p && q != p {
        assert q <= p[..|p| - 1];
      }
    }
  }

  /** `LackingAll` is the cardinality of the set of missing positions. */
  lemma {:induction false} LackingIsMissing(mem: Memory, root: Frame, paths: seq<Path>) returns (missing: set<Path>)
    ensures forall q: Path :: q in missing <==> IsMissing(mem, root, paths, q)
    ensures |missing| == LackingAll(mem, root, paths)
    decreases |paths|
  {
    if paths == [] {
      missing := {};
    } else {
      var before, p := paths[..|paths| - 1], paths[|paths| - 1];
      var old' := LackingIsMissing(mem, root, before);
      var new' := NewlyMissing(mem, root, before, p);
      assert before + [p] == paths;
      forall q: Path
        ensures q in old' + new' <==> IsMissing(mem, root, paths, q)
        ensures !(q in old' && q in new')
      {
        NewlyMissingMembers(mem, root, before, p, q);
        OnSomeSnoc(before, p, q);
      }
      missing := old' + new';
      assert old' !! new';
    }
  }
}
