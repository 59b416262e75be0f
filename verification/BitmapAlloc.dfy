/**
 The bitmap page allocator (port/src/bitmapalloc.rs).  Its abstract state is the
 set of free pages; every operation is specified by what it does to that set.
 */
module BitmapAlloc {
  import opened Wrappers
  import opened Bits
  import opened Mem
  import opened Repeated
  import opened BitmapGeometry
  import opened BitmapScan

  datatype Error = NotEnoughBitmaps | OutOfBounds | MisalignedAddr | OutOfSpace | NotAllocated

  // ----- bytes

  function TrailingOnes(x: nat): nat {
    if x % 2 == 1 then 1 + TrailingOnes(x / 2) else 0
  }

  /** The first zero bit of a word that is not all ones. */
  lemma {:induction false} TrailingOnesAt(x: nat, w: nat)
    requires x < Pow2(w) - 1
    ensures TrailingOnes(x) < w && !BitAt(x, TrailingOnes(x))
    ensures forall j | 0 <= j < TrailingOnes(x) :: BitAt(x, j)
  {
    if x % 2 == 1 {
      TrailingOnesAt(x / 2, w - 1);
      forall j | 0 <= j < TrailingOnes(x)
        ensures BitAt(x, j)
      {
        if j > 0 {
          assert BitAt(x / 2, j - 1);
        }
      }
    }
  }

  lemma {:induction false} OnesAt(w: nat, j: nat)
    requires j < w
    ensures BitAt(Pow2(w) - 1, j)
  {
    assert (Pow2(w) - 1) / 2 == Pow2(w - 1) - 1;
    if j > 0 {
      OnesAt(w - 1, j - 1);
    }
  }

  /** Zeros among the lowest `w` bits. */
  function CountZeros(x: nat, w: nat): nat
    decreases w
  {
    if w == 0 then 0 else (if x % 2 == 1 then 0 else 1) + CountZeros(x / 2, w - 1)
  }

  lemma {:induction false} CountZerosTop(x: nat, w: nat)
    ensures CountZeros(x, w + 1) == CountZeros(x, w) + (if BitAt(x, w) then 0 else 1)
    decreases w
  {
    if w > 0 {
      CountZerosTop(x / 2, w - 1);
    }
  }

  /** A byte of all ones has no free page. */
  lemma FullByte(g: Geometry, bm: Bitmaps, c: nat, p: nat)
    requires g.Formed() && Shaped(g, bm) && p < g.NumPages() && c == p / 8
    requires ByteOf(g, bm, c) == 255
    ensures Used(g, bm, p)
  {
    assert Pow2(8) == 256;
    OnesAt(8, p % 8);
  }

  /** Every page that does not start below `end` is marked as allocated. */
  ghost predicate Sealed(g: Geometry, bm: Bitmaps, end: nat)
    requires g.Formed() && Shaped(g, bm)
  {
    forall p | p in FreePages(g, bm) :: g.PageAddr(p) < end
  }

  // ----- counting free pages

  /** The number of free pages below page `n`. */
  function FreeBelow(g: Geometry, bm: Bitmaps, n: nat): nat
    requires g.Formed() && Shaped(g, bm) && n <= g.NumPages()
  {
    if n == 0 then 0 else FreeBelow(g, bm, n - 1) + (if Used(g, bm, n - 1) then 0 else 1)
  }

  ghost function FreeUnder(g: Geometry, bm: Bitmaps, n: nat): set<nat>
    requires g.Formed() && Shaped(g, bm) && n <= g.NumPages()
  {
    set p | 0 <= p < n && !Used(g, bm, p)
  }

  lemma {:induction false} FreeUnderStep(g: Geometry, bm: Bitmaps, n: nat)
    requires g.Formed() && Shaped(g, bm) && n < g.NumPages()
    ensures FreeUnder(g, bm, n + 1) == FreeUnder(g, bm, n) + if Used(g, bm, n) then {} else {n}
    ensures n !in FreeUnder(g, bm, n)
  {
  }

  lemma {:induction false} FreeBelowCard(g: Geometry, bm: Bitmaps, n: nat)
    requires g.Formed() && Shaped(g, bm) && n <= g.NumPages()
    ensures |FreeUnder(g, bm, n)| == FreeBelow(g, bm, n)
  {
    if n > 0 {
      FreeBelowCard(g, bm, n - 1);
      FreeUnderStep(g, bm, n - 1);
    }
  }

  /** `count_zeros` of a byte counts its eight pages. */
  lemma {:induction false} FreeInByte(g: Geometry, bm: Bitmaps, c: nat, k: nat)
    requires g.Formed() && Shaped(g, bm) && c < g.NumBytes() && k <= 8
    ensures FreeBelow(g, bm, 8 * c + k) == FreeBelow(g, bm, 8 * c) + CountZeros(ByteOf(g, bm, c), k)
    decreases k
  {
    if k > 0 {
      FreeInByte(g, bm, c, k - 1);
      CountZerosTop(ByteOf(g, bm, c), k - 1);
      assert (8 * c + k - 1) / 8 == c && (8 * c + k - 1) % 8 == k - 1;
    }
  }

  lemma {:induction false} NoneFreeAbove(g: Geometry, bm: Bitmaps, n: nat, m: nat)
    requires g.Formed() && Shaped(g, bm) && n <= m <= g.NumPages()
    requires forall p | n <= p < m :: Used(g, bm, p)
    ensures FreeBelow(g, bm, m) == FreeBelow(g, bm, n)
    decreases m - n
  {
    if n < m {
      NoneFreeAbove(g, bm, n, m - 1);
    }
  }

  /** When all free pages start below the end, and the end is no later than page `n`, counting up to `n` counts all. */
  lemma CountedBelow(g: Geometry, bm: Bitmaps, end: nat, n: nat)
    requires g.Formed() && Shaped(g, bm) && Sealed(g, bm, end)
    requires n <= g.NumPages() && end <= g.PageAddr(n)
    ensures |FreePages(g, bm)| == FreeBelow(g, bm, n)
  {
    forall p | n <= p < g.NumPages()
      ensures Used(g, bm, p)
    {
      TimesLess(p, n, g.pageSize);
      assert p !in FreePages(g, bm);
    }
    NoneFreeAbove(g, bm, n, g.NumPages());
    FreeBelowCard(g, bm, g.NumPages());
  }

  lemma {:induction false} AllFreeBelow(g: Geometry, bm: Bitmaps, n: nat)
    requires g.Formed() && Shaped(g, bm) && n <= g.NumPages()
    ensures FreeBelow(g, bm, n) <= n
    ensures FreeBelow(g, bm, n) == n <==> forall p | 0 <= p < n :: !Used(g, bm, p)
  {
    if n > 0 {
      AllFreeBelow(g, bm, n - 1);
    }
  }

  /** When the free pages all lie below a page-aligned end, they fit below it. */
  lemma FreeFits(g: Geometry, bm: Bitmaps, end: nat)
    requires g.Formed() && Shaped(g, bm) && Sealed(g, bm, end)
    requires g.IsPageAddr(end) && end <= g.MaxBytes()
    ensures Times(|FreePages(g, bm)|, g.pageSize) <= end
  {
    var n := g.PageOf(end);
    QuotRem(end, g.pageSize);
    TimesLess(n, g.NumPages(), g.pageSize);
    CountedBelow(g, bm, end, n);
    AllFreeBelow(g, bm, n);
    TimesLess(FreeBelow(g, bm, n), n, g.pageSize);
  }

  /** An end that is not page-aligned lies strictly inside its page. */
  lemma PartialPage(g: Geometry, end: nat)
    requires g.Formed() && !g.IsPageAddr(end) && end <= g.MaxBytes()
    ensures var n := g.PageOf(end); n < g.NumPages() && g.PageAddr(n) < end < g.PageAddr(n + 1)
  {
    QuotRem(end, g.pageSize);
    TimesLess(g.PageOf(end), g.NumPages(), g.pageSize);
  }

  /**
   The free pages take more bytes than there are below the end exactly when the end is
   not page-aligned and every page that starts below it is free.
   */
  lemma UsageUnderflows(g: Geometry, bm: Bitmaps, end: nat)
    requires g.Formed() && Shaped(g, bm) && Sealed(g, bm, end) && end <= g.MaxBytes()
    ensures Times(|FreePages(g, bm)|, g.pageSize) > end <==>
            !g.IsPageAddr(end) && forall p | 0 <= p < g.NumPages() && g.PageAddr(p) < end :: !Used(g, bm, p)
  {
    if g.IsPageAddr(end) {
      FreeFits(g, bm, end);
    } else {
      var n := g.PageOf(end);
      PartialPage(g, end);
      CountedBelow(g, bm, end, n + 1);
      AllFreeBelow(g, bm, n + 1);
      TimesLess(FreeBelow(g, bm, n + 1), n, g.pageSize);
      TimesLess(n, FreeBelow(g, bm, n + 1), g.pageSize);
      StartsBelow(g, end);
    }
  }

  /** The pages that start below an end inside page `n` are the pages up to `n`. */
  lemma StartsBelow(g: Geometry, end: nat)
    requires g.Formed() && end <= g.MaxBytes() && !g.IsPageAddr(end)
    ensures forall p | 0 <= p < g.NumPages() :: g.PageAddr(p) < end <==> p <= g.PageOf(end)
  {
    var n := g.PageOf(end);
    PartialPage(g, end);
    forall p | 0 <= p < g.NumPages()
      ensures g.PageAddr(p) < end <==> p <= n
    {
      TimesLess(p, n, g.pageSize);
      TimesLess(n + 1, p, g.pageSize);
    }
  }

  /** Taking a page raises the usage by exactly one page. */
  lemma TakingRaisesUsage(g: Geometry, free: set<nat>, p: nat)
    requires p in free
    ensures Times(|free - {p}|, g.pageSize) + g.pageSize == Times(|free|, g.pageSize)
  {
    assert |free - {p}| == |free| - 1;
  }

  // ----- the gaps between used ranges

  /** The ranges that `free_unused_ranges` frees, starting at `next`. */
  function Gaps(next: PhysAddr, used: seq<PhysRange>, end: PhysAddr): seq<PhysRange>
    decreases |used|
  {
    if used == [] then Gap(next, end)
    else Gap(next, used[0].start) + Gaps(if next < used[0].end then used[0].end else next, used[1..], end)
  }

  /** The range from `lo` to `hi`, if there is anything in between. */
  function Gap(lo: PhysAddr, hi: PhysAddr): seq<PhysRange> {
    if lo < hi then [PhysRange(lo, hi)] else []
  }

  lemma GapsStep(next: PhysAddr, used: seq<PhysRange>, end: PhysAddr, i: nat)
    requires i < |used|
    ensures var u := used[i];
            Gaps(next, used[i..], end) ==
              Gap(next, u.start) + Gaps(if next < u.end then u.end else next, used[i + 1..], end)
  {
    assert used[i..][1..] == used[i + 1..];
  }

  predicate Sorted(used: seq<PhysRange>) {
    forall i, j | 0 <= i < j < |used| :: used[i].start <= used[j].start
  }

  predicate InRange(x: nat, r: PhysRange) {
    r.start <= x < r.end
  }

  predicate InSome(x: nat, rs: seq<PhysRange>) {
    exists i | 0 <= i < |rs| :: InRange(x, rs[i])
  }

  /** For ranges sorted by start, however they overlap, the gaps are exactly what no range covers. */
  lemma {:induction false} GapsAreUnused(next: PhysAddr, used: seq<PhysRange>, end: PhysAddr, x: nat)
    requires Sorted(used) && x < end
    ensures InSome(x, Gaps(next, used, end)) <==> next <= x && !InSome(x, used)
    decreases |used|
  {
    var gaps := Gaps(next, used, end);
    if used == [] {
      if next < end {
        assert gaps[0] == PhysRange(next, end);
      }
    } else {
      var u, rest := used[0], used[1..];
      var next' := if next < u.end then u.end else next;
      GapsAreUnused(next', rest, end, x);
      InSomeCons(x, u, rest);
      assert used == [u] + rest;
      if next < u.start {
        InSomeCons(x, PhysRange(next, u.start), Gaps(next', rest, end));
      } else {
        assert gaps == Gaps(next', rest, end);
      }
      if next <= x < u.start {
        assert !InSome(x, rest);
      }
    }
  }

  lemma InSomeCons(x: nat, r: PhysRange, rs: seq<PhysRange>)
    ensures InSome(x, [r] + rs) <==> InRange(x, r) || InSome(x, rs)
  {
    if InSome(x, rs) {
      var i :| 0 <= i < |rs| && InRange(x, rs[i]);
      assert ([r] + rs)[i + 1] == rs[i];
    }
    if InRange(x, r) {
      assert ([r] + rs)[0] == r;
    }
    if InSome(x, [r] + rs) {
      var i :| 0 <= i < |[r] + rs| && InRange(x, ([r] + rs)[i]);
      if i > 0 {
        assert rs[i - 1] == ([r] + rs)[i];
      }
    }
  }

  // ----- the allocator

  class BitmapPageAlloc {
    const g: Geometry
    var bitmaps: Bitmaps
    var end: PhysAddr
    var nextPaToScan: PhysAddr

    /** `new_all_allocated`. */
    constructor (numBitmaps: nat, bitmapBytes: nat, pageSize: U64)
      requires Geometry(numBitmaps, bitmapBytes, pageSize).Valid()
      ensures Valid() && g == Geometry(numBitmaps, bitmapBytes, pageSize)
      ensures end == g.MaxBytes() && nextPaToScan == 0 && Free() == {}
    {
      g := Geometry(numBitmaps, bitmapBytes, pageSize);
      bitmaps := seq(numBitmaps, i => seq(bitmapBytes, j => 255));
      end := Geometry(numBitmaps, bitmapBytes, pageSize).MaxBytes();
      nextPaToScan := 0;
      new;
      forall p | 0 <= p < g.NumPages()
        ensures Used(g, bitmaps, p)
      {
        ByteBound(g, p / 8);
        FullByte(g, bitmaps, p / 8, p);
      }
    }

    /** Everything past `end` is marked as allocated, and the scan resumes no later than there. */
    ghost predicate Valid()
      reads this
    {
      && g.Valid() && Shaped(g, bitmaps) && end <= g.MaxBytes()
      && g.IsPageAddr(nextPaToScan) && (nextPaToScan == 0 || (nextPaToScan <= end && nextPaToScan < g.MaxBytes()))
      && Sealed(g, bitmaps, end)
    }

    ghost function Free(): set<nat>
      requires g.Formed() && Shaped(g, bitmaps)
      reads this
    {
      FreePages(g, bitmaps)
    }

    /** One round of the loop of `mark_range`. */
    method MarkPage(pa: PhysAddr, markAllocated: bool, ghost bm: Bitmaps, ghost lo: nat) returns (r: Result<(), Error>)
      requires g.Formed() && Shaped(g, bitmaps) && Shaped(g, bm)
      requires g.IsPageAddr(pa) && lo <= pa
      requires Marked(g, bm, bitmaps, lo, pa, markAllocated)
      modifies this`bitmaps
      ensures Shaped(g, bitmaps)
      ensures r == if pa < g.MaxBytes() then Ok(()) else Err(OutOfBounds)
      ensures r.Err? ==> bitmaps == old(bitmaps)
      ensures r.Ok? ==> Marked(g, bm, bitmaps, lo, pa + g.pageSize, markAllocated) && pa + g.pageSize <= g.MaxBytes()
    {
      var (bitmapIdx, byteIdx, bitIdx) := g.PhysAddrAsIndices(pa);
      MarkedPage(g, bm, bitmaps, lo, pa, markAllocated);
      if bitmapIdx >= |bitmaps| {
        return Err(OutOfBounds);
      }
      bitmaps := bitmaps[bitmapIdx := SetBit(bitmaps[bitmapIdx], 8 * byteIdx + bitIdx, markAllocated)];
      return Ok(());
    }

    /** Mark every page that the range meets, after rounding outward. */
    method MarkRange(range: PhysRange, markAllocated: bool, checkEnd: bool) returns (r: Result<(), Error>)
      requires g.Valid() && Shaped(g, bitmaps)
      requires !(checkEnd && range.end > end) ==> range.end + g.pageSize - 1 < U64_LIMIT
      modifies this`bitmaps
      ensures Shaped(g, bitmaps)
      ensures r == Err(NotEnoughBitmaps) <==> checkEnd && range.end > end
      ensures r == Err(NotEnoughBitmaps) ==> bitmaps == old(bitmaps)
      ensures r != Err(NotEnoughBitmaps) ==>
                var lo, hi := RoundDown(range.start, g.pageSize), RoundUp(range.end, g.pageSize);
                && r == (if lo < hi && g.MaxBytes() < hi then Err(OutOfBounds) else Ok(()))
                && Free() == if markAllocated then old(Free()) - PagesIn(g, lo, hi)
                   else old(Free()) + PagesIn(g, lo, hi)
    {
      if checkEnd && range.end > end {
        return Err(NotEnoughBitmaps);
      }
      var steps := StepByRounded(range, g.pageSize);
      PagesOfRange(g, range);
      r := MarkSteps(steps, markAllocated, RoundDown(range.start, g.pageSize), RoundUp(range.end, g.pageSize));
    }

    /** The loop of `mark_range` over the pages at `steps`, from `lo` to `hi`. */
    method MarkSteps(steps: seq<PhysAddr>, markAllocated: bool, ghost lo: nat, ghost hi: nat)
      returns (r: Result<(), Error>)
      requires g.Formed() && Shaped(g, bitmaps) && PagesAt(g, steps, lo, hi)
      modifies this`bitmaps
      ensures Shaped(g, bitmaps)
      ensures r == if lo < hi && g.MaxBytes() < hi then Err(OutOfBounds) else Ok(())
      ensures Free() == if markAllocated then old(Free()) - PagesIn(g, lo, hi) else old(Free()) + PagesIn(g, lo, hi)
    {
      r := Ok(());
      var i := 0;
      while i < |steps|
        invariant 0 <= i <= |steps| && Shaped(g, bitmaps)
        invariant Marked(g, old(bitmaps), bitmaps, lo, Reached(steps, i, hi), markAllocated)
        invariant i > 0 ==> steps[i - 1] + g.pageSize <= g.MaxBytes()
        invariant r == Ok(())
      {
        var pa := steps[i];
        assert i + 1 < |steps| ==> OneStepOn(steps, i + 1, g.pageSize);
        r := MarkPage(pa, markAllocated, old(bitmaps), lo);
        if r.Err? {
          MarkedAll(g, old(bitmaps), bitmaps, lo, pa, hi, markAllocated);
          return;
        }
        i := i + 1;
      }
      MarkedFree(g, old(bitmaps), bitmaps, lo, hi, markAllocated);
    }

    method MarkAllocated(range: PhysRange) returns (r: Result<(), Error>)
      requires Valid()
      modifies this`bitmaps
      ensures Valid()
      ensures r == if range.end > end then Err(NotEnoughBitmaps) else Ok(())
      ensures Free() == if r.Err? then old(Free())
                        else old(Free()) - PagesIn(g, RoundDown(range.start, g.pageSize),
                                                   RoundUp(range.end, g.pageSize))
    {
      r := MarkRange(range, true, true);
      if range.end <= end {
        RoundedInBounds(g, range.end);
      }
    }

    method MarkFree(range: PhysRange) returns (r: Result<(), Error>)
      requires Valid()
      modifies this`bitmaps
      ensures Valid()
      ensures r == if range.end > end then Err(NotEnoughBitmaps) else Ok(())
      ensures Free() == if r.Err? then old(Free())
                        else old(Free()) + PagesIn(g, RoundDown(range.start, g.pageSize),
                                                   RoundUp(range.end, g.pageSize))
    {
      r := MarkRange(range, false, true);
      if range.end <= end {
        RoundedInBounds(g, range.end);
      }
    }

    /** The byte from which the next allocation scans. */
    ghost function StartByte(): (nat, nat)
      requires Valid()
      reads this
    {
      var (b, y, _) := g.PhysAddrAsIndices(nextPaToScan);
      (b, y)
    }

    ghost function Order(): seq<nat>
      requires Valid()
      reads this
    {
      StartInBounds(g, end, nextPaToScan);
      ScanOrder(g, end, StartByte().0, StartByte().1)
    }

    /** The first byte in scan order that is not all ones. */
    method FindByte() returns (r: Option<ByteIndices>, ghost c: nat)
      requires Valid()
      ensures r.None? ==> FullUpTo(g, bitmaps, Order(), |Order()|)
      ensures r.Some? ==> Found(g, bitmaps, Order(), r.value, c)
      ensures r.Some? ==> NextInTurn(Free(), g.PageOf(nextPaToScan) / 8, c)
    {
      var (firstBitmapIdx, firstByteIdx, _) := g.PhysAddrAsIndices(nextPaToScan);
      StartInBounds(g, end, nextPaToScan);
      var scan := new ByteScan(g, end, firstBitmapIdx, firstByteIdx);
      ScanOrderComplete(g, end, firstBitmapIdx, firstByteIdx);
      assert scan.Remaining() == Order();
      r, c := FindNotFull(scan, bitmaps);
      if r.Some? {
        ghost var start := g.PageOf(nextPaToScan) / 8;
        QuotRem(start, g.bitmapBytes);
        FirstInTurn(g, bitmaps, end, firstBitmapIdx, firstByteIdx, start, c);
      }
    }

    /**
     Hand out the lowest free page of the first byte, in scan order, that has one;
     fail exactly when no page is free.
     */
    method Allocate() returns (r: Result<PhysAddr, Error>)
      requires Valid()
      modifies this
      ensures Valid() && end == old(end)
      ensures r == Err(OutOfSpace) <==> old(Free()) == {}
      ensures r.Err? ==> r.error == OutOfSpace && bitmaps == old(bitmaps) && nextPaToScan == old(nextPaToScan)
      ensures r.Ok? ==>
                && g.IsPageAddr(r.value)
                && var p := g.PageOf(r.value);
                && p in old(Free()) && Free() == old(Free()) - {p} && nextPaToScan == r.value
                && Times(|Free()|, g.pageSize) + g.pageSize == Times(|old(Free())|, g.pageSize)
                && FirstNotFull(g, old(bitmaps), old(Order()), p / 8)
                && NextInTurn(old(Free()), g.PageOf(old(nextPaToScan)) / 8, p / 8)
                && forall q | q in old(Free()) && q / 8 == p / 8 :: p <= q
    {
      var found, b, y, k;
      ghost var p;
      found, b, y, k, p := FindPage();
      if !found {
        return Err(OutOfSpace);
      }
      TakingRaisesUsage(g, Free(), p);
      var pa := TakePage(b, y, k, p);
      return Ok(pa);
    }

    /** The indices of the page to hand out. */
    method FindPage() returns (found: bool, b: nat, y: nat, k: nat, ghost p: nat)
      requires Valid()
      ensures found <==> Free() != {}
      ensures found ==>
                && b < g.numBitmaps && y < g.bitmapBytes && k < 8
                && g.Row(p / 8) == b && g.Col(p / 8) == y && p % 8 == k && p in Free()
                && FirstNotFull(g, bitmaps, Order(), p / 8)
                && NextInTurn(Free(), g.PageOf(nextPaToScan) / 8, p / 8)
                && forall q | q in Free() && q / 8 == p / 8 :: p <= q
    {
      b, y, k, p := 0, 0, 0, 0;
      StartInBounds(g, end, nextPaToScan);
      var foundIndices;
      ghost var c;
      foundIndices, c := FindByte();
      if foundIndices.None? {
        ghost var (b0, y0, _) := g.PhysAddrAsIndices(nextPaToScan);
        NoPageFree(g, bitmaps, end, b0, y0);
        found := false;
        return;
      }
      b, y := foundIndices.value.bitmap, foundIndices.value.byte;
      PageToTake(g, bitmaps, Order(), c);
      k := TrailingOnes(bitmaps[b][y]);
      p := 8 * c + k;
      found := true;
    }

    /** Mark the page of the given indices as allocated, and scan from it next. */
    method TakePage(b: nat, y: nat, k: nat, ghost p: nat) returns (pa: PhysAddr)
      requires Valid() && b < g.numBitmaps && y < g.bitmapBytes && k < 8
      requires g.Row(p / 8) == b && g.Col(p / 8) == y && p % 8 == k
      requires p in Free()
      modifies this`bitmaps, this`nextPaToScan
      ensures Valid() && Free() == old(Free()) - {p}
      ensures g.IsPageAddr(pa) && g.PageOf(pa) == p && nextPaToScan == pa
    {
      TakenPage(g, bitmaps, end, p);
      bitmaps := bitmaps[b := SetBit(bitmaps[b], 8 * y + k, true)];
      pa := g.IndicesAsPhysAddr(b, y, k);
      nextPaToScan := pa;
    }

    /**
     Test the bit of the page at `pa`, and clear the bit that `Cleared` names.  The
     source panics for misaligned addresses and for addresses past the last bitmap.
     */
    method Deallocate(pa: PhysAddr) returns (r: Result<(), Error>)
      requires Valid()
      requires pa <= end ==> g.IsPageAddr(pa) && pa < g.MaxBytes()
      modifies this`bitmaps, this`nextPaToScan
      ensures g.Formed() && Shaped(g, bitmaps)
      ensures r == if pa > end then Err(OutOfBounds)
                   else if g.PageOf(pa) in old(Free()) then Err(NotAllocated)
                   else Ok(())
      ensures r.Err? ==> bitmaps == old(bitmaps) && nextPaToScan == old(nextPaToScan)
      ensures r.Ok? ==> Free() == old(Free()) + {Cleared(g, pa)} && nextPaToScan == pa
      ensures Valid() <==> !(pa == end && g.PhysAddrAsIndices(pa).1 == 0)
    {
      if pa > end {
        return Err(OutOfBounds);
      }
      var (bitmapIdx, byteIdx, bitIdx) := g.PhysAddrAsIndices(pa);
      BitOfAddr(g, bitmaps, pa);
      if !IsSet(bitmaps[bitmapIdx], 8 * byteIdx + bitIdx) {
        return Err(NotAllocated);
      }
      ClearBit(bitmapIdx, bitIdx);
      ClearedAtEnd(g, pa, end, Free());
      nextPaToScan := pa;
      return Ok(());
    }

    /** `bitmap.set(bit_idx, false)` on bitmap `b`. */
    method ClearBit(b: nat, k: nat)
      requires g.Formed() && Shaped(g, bitmaps) && b < g.numBitmaps && k < 8
      modifies this`bitmaps
      ensures Shaped(g, bitmaps)
      ensures Free() == old(Free()) + {8 * Times(b, g.bitmapBytes) + k}
    {
      ClearedBit(g, bitmaps, b, k);
      bitmaps := bitmaps[b := SetBit(bitmaps[b], k, false)];
    }

    /** Bytes used and bytes in total; the source subtracts unsigned, see `UsageUnderflows`. */
    method UsageBytes() returns (used: int, total: nat)
      requires Valid()
      ensures total == end && used + Times(|Free()|, g.pageSize) == total
    {
      PageAddrOf(g, 0);
      var scan := new ByteScan(g, end, 0, 0);
      ScanFromZero(g, end);
      ghost var n := |scan.Remaining()|;
      var freeBytes := CountFree(scan, bitmaps);
      CountedBelow(g, bitmaps, end, 8 * n);
      return end - freeBytes, end;
    }

    /** Free the gaps between the used ranges, and make the end of available memory the new end. */
    method FreeUnusedRanges(available: PhysRange, usedRanges: seq<PhysRange>) returns (r: Result<(), Error>)
      requires Valid()
      modifies this
      ensures Valid() <==> r.Err? || available.end <= g.MaxBytes()
      ensures g.Valid() && Shaped(g, bitmaps)
      ensures var gaps := Gaps(available.start, usedRanges, available.end);
              r == if AllEndBelow(gaps, old(end)) then Ok(()) else Err(NotEnoughBitmaps)
      ensures r.Ok? ==>
                && end == available.end && nextPaToScan == 0
                && forall p | 0 <= p < g.NumPages() ::
                     p in Free() <==>
                     && (p in old(Free()) || Touched(g, Gaps(available.start, usedRanges, available.end), p))
                     && g.PageAddr(p) < RoundDown(available.end, g.pageSize)
      ensures r.Err? ==>
                && end == old(end) && nextPaToScan == old(nextPaToScan)
                && StoppedEarly(g, old(Free()), Free(), Gaps(available.start, usedRanges, available.end), end)
    {
      r := FreeGaps(available, usedRanges);
      if r.Ok? {
        ghost var freed := Free();
        r := SealAt(available.end);
        assert forall p | 0 <= p < g.NumPages() ::
            p in Free() <==> p in freed && g.PageAddr(p) < RoundDown(available.end, g.pageSize);
      }
    }

    /** Free every gap, in order, until one reaches past the end. */
    method FreeGaps(available: PhysRange, usedRanges: seq<PhysRange>) returns (r: Result<(), Error>)
      requires Valid()
      modifies this`bitmaps
      ensures Valid()
      ensures r == if AllEndBelow(Gaps(available.start, usedRanges, available.end), end) then Ok(())
                   else Err(NotEnoughBitmaps)
      ensures r.Ok? ==> Freed(g, old(Free()), Free(), Gaps(available.start, usedRanges, available.end))
      ensures r.Err? ==> StoppedEarly(g, old(Free()), Free(), Gaps(available.start, usedRanges, available.end), end)
    {
      ghost var gaps := Gaps(available.start, usedRanges, available.end);
      var nextStart;
      ghost var done;
      r, nextStart, done := FreeBetween(available.start, usedRanges, available.end);
      if r == Ok(()) {
        assert Gap(nextStart, available.end) + [] == Gap(nextStart, available.end);
        r, done := FreeUpTo(nextStart, available.end, old(Free()), gaps, done, []);
        assert done + [] == done;
      }
    }

    /** Free the gap before each used range; `nextStart` is where the last gap would start. */
    method FreeBetween(start: PhysAddr, usedRanges: seq<PhysRange>, ghost stop: PhysAddr)
      returns (r: Result<(), Error>, nextStart: PhysAddr, ghost done: seq<PhysRange>)
      requires Valid()
      modifies this`bitmaps
      ensures Valid()
      ensures r == Ok(()) || r == Err(NotEnoughBitmaps)
      ensures r.Err? ==> StoppedEarly(g, old(Free()), Free(), Gaps(start, usedRanges, stop), end)
      ensures r == Ok(()) ==>
                Progress(g, old(Free()), Free(), Gaps(start, usedRanges, stop), done, Gap(nextStart, stop), end)
    {
      r, nextStart, done := Ok(()), start, [];
      ghost var gaps := Gaps(start, usedRanges, stop);
      var i := 0;
      assert usedRanges[0..] == usedRanges;
      while i < |usedRanges|
        invariant 0 <= i <= |usedRanges| && r == Ok(())
        invariant Valid()
        invariant Progress(g, old(Free()), Free(), gaps, done, Gaps(nextStart, usedRanges[i..], stop), end)
      {
        var range := usedRanges[i];
        GapsStep(nextStart, usedRanges, stop, i);
        ghost var later := Gaps(if nextStart < range.end then range.end else nextStart, usedRanges[i + 1..], stop);
        var freed;
        freed, done := FreeUpTo(nextStart, range.start, old(Free()), gaps, done, later);
        if freed.Err? {
          r := freed;
          return;
        }
        if nextStart < range.end {
          nextStart := range.end;
        }
        i := i + 1;
      }
    }

    /** Free the gap from `start` to `stop`, if there is one; `later` are the gaps after it. */
    method FreeUpTo(start: PhysAddr, stop: PhysAddr, ghost free0: set<nat>, ghost gaps: seq<PhysRange>,
                    ghost done: seq<PhysRange>, ghost later: seq<PhysRange>)
      returns (r: Result<(), Error>, ghost done': seq<PhysRange>)
      requires Valid() && Progress(g, free0, Free(), gaps, done, Gap(start, stop) + later, end)
      modifies this`bitmaps
      ensures Valid()
      ensures r == Ok(()) || r == Err(NotEnoughBitmaps)
      ensures r.Err? ==> StoppedEarly(g, free0, Free(), gaps, end)
      ensures r == Ok(()) ==> Progress(g, free0, Free(), gaps, done', later, end)
    {
      r, done' := Ok(()), done;
      if start < stop {
        r := FreeGap(PhysRange(start, stop), free0, done);
        done' := done + [PhysRange(start, stop)];
        assert gaps[|done|] == PhysRange(start, stop) && gaps[..|done|] == done;
        assert r.Err? ==> StoppedAt(g, free0, Free(), gaps, |done|, end);
      }
    }

    method FreeGap(gap: PhysRange, ghost free0: set<nat>, ghost done: seq<PhysRange>) returns (r: Result<(), Error>)
      requires Valid() && gap.start < gap.end
      requires AllEndBelow(done, end) && Freed(g, free0, Free(), done)
      modifies this`bitmaps
      ensures Valid()
      ensures r == if gap.end > end then Err(NotEnoughBitmaps) else Ok(())
      ensures r.Ok? ==> AllEndBelow(done + [gap], end) && Freed(g, free0, Free(), done + [gap])
      ensures r.Err? ==> Freed(g, free0, Free(), done)
    {
      r := MarkFree(gap);
      if r.Ok? {
        FreedStep(g, free0, old(Free()), done, gap);
      }
    }

    /** Move the end and mark everything past it as allocated. */
    method SealAt(newEnd: PhysAddr) returns (r: Result<(), Error>)
      requires Valid()
      modifies this
      ensures Valid() <==> newEnd <= g.MaxBytes()
      ensures g.Valid() && Shaped(g, bitmaps) && end == newEnd && nextPaToScan == 0 && r == Ok(())
      ensures forall p | 0 <= p < g.NumPages() ::
                p in Free() <==> p in old(Free()) && g.PageAddr(p) < RoundDown(newEnd, g.pageSize)
    {
      end := newEnd;
      RoundedInBounds(g, g.MaxBytes());
      PagesBelowMax(g);
      r := MarkRange(PhysRange(end, g.MaxBytes()), true, false);
      nextPaToScan := 0;
    }
  }

  /** What setting the bit of a free page does, and which address its indices name. */
  lemma {:induction false} TakenPage(g: Geometry, bm: Bitmaps, end: nat, p: nat)
    requires g.Formed() && Shaped(g, bm) && Sealed(g, bm, end) && p in FreePages(g, bm)
    ensures var b, y, k := g.Row(p / 8), g.Col(p / 8), p % 8;
            var pa := g.IndicesAsPhysAddr(b, y, k);
            && g.IsPageAddr(pa) && g.PageOf(pa) == p && pa < end
            && b < |bm| && y < |bm[b]|
            && var bm' := bm[b := SetBit(bm[b], 8 * y + k, true)];
            && Shaped(g, bm') && Sealed(g, bm', end) && FreePages(g, bm') == FreePages(g, bm) - {p}
  {
    SetBitFree(g, bm, p / 8, p % 8, true);
    IndicesOfPage(g, p);
  }

  lemma {:induction false} IndicesOfPage(g: Geometry, p: nat)
    requires g.Formed()
    ensures var pa := g.IndicesAsPhysAddr(g.Row(p / 8), g.Col(p / 8), p % 8);
            g.IsPageAddr(pa) && g.PageOf(pa) == p && pa == g.PageAddr(p)
  {
    PageAddrOf(g, p);
    QuotRem(p / 8, g.bitmapBytes);
  }

  lemma {:induction false} ClearedBit(g: Geometry, bm: Bitmaps, b: nat, k: nat)
    requires g.Formed() && Shaped(g, bm) && b < g.numBitmaps && k < 8
    ensures var bm' := bm[b := SetBit(bm[b], k, false)];
            Shaped(g, bm') && FreePages(g, bm') == FreePages(g, bm) + {8 * Times(b, g.bitmapBytes) + k}
  {
    var c := Times(b, g.bitmapBytes);
    QuotRemOf(b, 0, g.bitmapBytes);
    assert g.Row(c) == b && g.Col(c) == 0;
    ByteBound(g, c);
    SetBitFree(g, bm, c, k, false);
  }

  lemma PagesBelowMax(g: Geometry)
    requires g.Formed()
    ensures forall p | 0 <= p < g.NumPages() :: g.PageAddr(p) < g.MaxBytes()
  {
    forall p | 0 <= p < g.NumPages()
      ensures g.PageAddr(p) < g.MaxBytes()
    {
      PageAddrOf(g, p);
    }
  }

  /** The gaps `done` are freed, and of all the gaps `rest` are still to come. */
  ghost predicate Progress(g: Geometry, free0: set<nat>, free: set<nat>, gaps: seq<PhysRange>, done: seq<PhysRange>,
                           rest: seq<PhysRange>, end: nat)
    requires g.Formed()
  {
    gaps == done + rest && AllEndBelow(done, end) && Freed(g, free0, free, done)
  }

  /** The gap at `n` is the first that reaches past the end, and exactly those before it are freed. */
  ghost predicate StoppedAt(g: Geometry, free0: set<nat>, free: set<nat>, gaps: seq<PhysRange>, n: nat, end: nat)
    requires g.Formed() && n < |gaps|
  {
    gaps[n].end > end && AllEndBelow(gaps[..n], end) && Freed(g, free0, free, gaps[..n])
  }

  ghost predicate StoppedEarly(g: Geometry, free0: set<nat>, free: set<nat>, gaps: seq<PhysRange>, end: nat)
    requires g.Formed()
  {
    exists n | 0 <= n < |gaps| :: StoppedAt(g, free0, free, gaps, n, end)
  }

  predicate AllEndBelow(rs: seq<PhysRange>, end: nat) {
    forall i | 0 <= i < |rs| :: rs[i].end <= end
  }

  /** Page `p` meets the range. */
  predicate Touches(g: Geometry, r: PhysRange, p: nat) {
    g.PageAddr(p) < r.end && r.start < g.PageAddr(p) + g.pageSize
  }

  predicate Touched(g: Geometry, rs: seq<PhysRange>, p: nat) {
    exists i | 0 <= i < |rs| :: Touches(g, rs[i], p)
  }

  /** `free` is `free0` and every page that meets one of the ranges. */
  ghost predicate Freed(g: Geometry, free0: set<nat>, free: set<nat>, rs: seq<PhysRange>) {
    && (forall p | p in free :: 0 <= p < g.NumPages())
    && (forall p | 0 <= p < g.NumPages() :: p in free <==> p in free0 || Touched(g, rs, p))
  }

  lemma FreedStep(g: Geometry, free0: set<nat>, free: set<nat>, rs: seq<PhysRange>, gap: PhysRange)
    requires g.Valid() && gap.start < gap.end && gap.end + g.pageSize - 1 < U64_LIMIT
    requires Freed(g, free0, free, rs)
    ensures Freed(g, free0, free + PagesIn(g, RoundDown(gap.start, g.pageSize), RoundUp(gap.end, g.pageSize)),
                  rs + [gap])
  {
    var lo, hi := RoundDown(gap.start, g.pageSize), RoundUp(gap.end, g.pageSize);
    forall p | 0 <= p < g.NumPages()
      ensures p in PagesIn(g, lo, hi) <==> Touches(g, gap, p)
      ensures Touched(g, rs + [gap], p) <==> Touched(g, rs, p) || Touches(g, gap, p)
    {
      PageMeets(g, gap, p);
      TouchedSnoc(g, rs, gap, p);
    }
  }

  /** Rounding outward selects the pages that meet the range. */
  lemma PageMeets(g: Geometry, r: PhysRange, p: nat)
    requires g.Valid() && r.start < r.end && r.end + g.pageSize - 1 < U64_LIMIT
    ensures RoundDown(r.start, g.pageSize) <= g.PageAddr(p) < RoundUp(r.end, g.pageSize) <==> Touches(g, r, p)
  {
    var lo, x := RoundDown(r.start, g.pageSize), g.PageAddr(p);
    RoundsDown(r.start, g.pageSize);
    RoundedInBounds(g, r.end);
    PageAddrAligned(g, p);
    if x < lo {
      NextMultiple(x, lo, g.pageSize);
    }
    if lo < x {
      NextMultiple(lo, x, g.pageSize);
    }
  }

  lemma PageAddrAligned(g: Geometry, p: nat)
    requires g.Formed()
    ensures g.PageAddr(p) % g.pageSize == 0
  {
    PageAddrOf(g, p);
    QuotRemIsDivMod(g.PageAddr(p), g.pageSize);
  }

  lemma TouchedSnoc(g: Geometry, rs: seq<PhysRange>, r: PhysRange, p: nat)
    ensures Touched(g, rs + [r], p) <==> Touched(g, rs, p) || Touches(g, r, p)
  {
    var rs' := rs + [r];
    if Touched(g, rs, p) {
      var i :| 0 <= i < |rs| && Touches(g, rs[i], p);
      assert rs'[i] == rs[i];
    }
    if Touches(g, r, p) {
      assert rs'[|rs|] == r;
    }
  }

  predicate Aligned(r: PhysRange, step: nat)
    requires step >= 1
  {
    r.start % step == 0 && r.end % step == 0
  }

  lemma {:induction false} GapsAligned(next: PhysAddr, used: seq<PhysRange>, end: PhysAddr, step: nat)
    requires step >= 1 && next % step == 0 && end % step == 0
    requires forall i | 0 <= i < |used| :: Aligned(used[i], step)
    ensures forall i | 0 <= i < |Gaps(next, used, end)| :: Aligned(Gaps(next, used, end)[i], step)
    decreases |used|
  {
    if used != [] {
      var u := used[0];
      assert Aligned(u, step);
      GapsAligned(if next < u.end then u.end else next, used[1..], end, step);
    }
  }

  /**
   With page-aligned boundaries and ranges sorted by start, however they overlap
   or reach past the available memory, the gaps meet exactly the pages of
   available memory that lie in no used range.
   */
  lemma GapsMeetUnusedPages(g: Geometry, available: PhysRange, used: seq<PhysRange>, p: nat)
    requires g.Valid() && Sorted(used) && Aligned(available, g.pageSize)
    requires forall i | 0 <= i < |used| :: Aligned(used[i], g.pageSize)
    requires g.PageAddr(p) < available.end
    ensures Touched(g, Gaps(available.start, used, available.end), p) <==>
            available.start <= g.PageAddr(p) && !InSome(g.PageAddr(p), used)
  {
    var x := g.PageAddr(p);
    var gaps := Gaps(available.start, used, available.end);
    GapsAreUnused(available.start, used, available.end, x);
    GapsAligned(available.start, used, available.end, g.pageSize);
    PageAddrAligned(g, p);
    forall i | 0 <= i < |gaps|
      ensures Touches(g, gaps[i], p) <==> InRange(x, gaps[i])
    {
      assert Aligned(gaps[i], g.pageSize);
      if x < gaps[i].start {
        NextMultiple(x, gaps[i].start, g.pageSize);
      }
    }
  }

  /**
   What a successful `free_unused_ranges` did, for aligned and sorted ranges: the
   pages of available memory in no used range became free, the pages from the new
   end up became allocated, and every other page kept its state.
   */
  lemma FreesExactlyUnused(g: Geometry, available: PhysRange, used: seq<PhysRange>, free0: set<nat>, free: set<nat>,
                           p: nat)
    requires g.Valid() && Sorted(used) && Aligned(available, g.pageSize)
    requires forall i | 0 <= i < |used| :: Aligned(used[i], g.pageSize)
    requires p in free <==> (p in free0 || Touched(g, Gaps(available.start, used, available.end), p))
                            && g.PageAddr(p) < RoundDown(available.end, g.pageSize)
    ensures p in free <==>
            if g.PageAddr(p) >= available.end then false
            else if available.start <= g.PageAddr(p) && !InSome(g.PageAddr(p), used) then true
            else p in free0
  {
    var lo := RoundDown(available.end, g.pageSize);
    RoundsDown(available.end, g.pageSize);
    if lo < available.end {
      NextMultiple(lo, available.end, g.pageSize);
    }
    if g.PageAddr(p) < available.end {
      GapsMeetUnusedPages(g, available, used, p);
    }
  }

  /** A boundary of the gaps is a boundary of the available memory or of a used range. */
  ghost predicate StartsWell(used: seq<PhysRange>, next: nat, gap: PhysRange) {
    gap.start == next || exists j | 0 <= j < |used| :: used[j].end == gap.start
  }

  ghost predicate EndsWell(used: seq<PhysRange>, end: nat, gap: PhysRange) {
    gap.end == end || exists j | 0 <= j < |used| :: used[j].start == gap.end
  }

  lemma {:induction false} GapBoundaries(next: PhysAddr, used: seq<PhysRange>, end: PhysAddr, i: nat)
    requires i < |Gaps(next, used, end)|
    ensures var gap := Gaps(next, used, end)[i];
            gap.start < gap.end && StartsWell(used, next, gap) && EndsWell(used, end, gap)
    decreases |used|
  {
    if used != [] {
      var u := used[0];
      var first := Gap(next, u.start);
      var next' := if next < u.end then u.end else next;
      assert used[0] == u;
      if i >= |first| {
        GapBoundaries(next', used[1..], end, i - |first|);
        var gap := Gaps(next', used[1..], end)[i - |first|];
        assert Gaps(next, used, end)[i] == gap;
        BoundaryOfRest(used, next', end, gap);
      }
    }
  }

  lemma {:induction false} BoundaryOfRest(used: seq<PhysRange>, next: nat, end: nat, gap: PhysRange)
    requires used != [] && StartsWell(used[1..], next, gap) && EndsWell(used[1..], end, gap)
    ensures StartsWell(used, next, gap) && EndsWell(used, end, gap)
  {
    if gap.start != next {
      var j :| 0 <= j < |used[1..]| && used[1..][j].end == gap.start;
      assert used[j + 1].end == gap.start;
    }
    if gap.end != end {
      var j :| 0 <= j < |used[1..]| && used[1..][j].start == gap.end;
      assert used[j + 1].start == gap.end;
    }
  }

  /** The gap starts in available memory, and one of its boundaries there is not page-aligned. */
  predicate Ragged(gap: PhysRange, end: nat, step: nat)
    requires step >= 1
  {
    gap.start < end && (gap.start % step != 0 || (gap.end < end && gap.end % step != 0))
  }

  /** Page `p` of available memory belongs to a used range and is freed all the same. */
  ghost predicate Lost(g: Geometry, available: PhysRange, used: seq<PhysRange>, p: nat) {
    && p < g.NumPages() && g.PageAddr(p) < available.end
    && Touched(g, used, p) && Touched(g, Gaps(available.start, used, available.end), p)
  }

  predicate NoneEmpty(used: seq<PhysRange>) {
    forall i | 0 <= i < |used| :: used[i].start < used[i].end
  }

  /** A page that an address strictly inside it shares between a used range and a gap is lost. */
  lemma {:induction false} RaggedLoses(g: Geometry, available: PhysRange, used: seq<PhysRange>, i: nat) returns (p: nat)
    requires g.Valid() && Aligned(available, g.pageSize) && available.end <= g.MaxBytes() && NoneEmpty(used)
    requires i < |Gaps(available.start, used, available.end)|
    requires Ragged(Gaps(available.start, used, available.end)[i], available.end, g.pageSize)
    ensures Lost(g, available, used, p)
  {
    var gaps := Gaps(available.start, used, available.end);
    var gap := gaps[i];
    GapBoundaries(available.start, used, available.end, i);
    if gap.start % g.pageSize != 0 {
      p := StraddlingPage(g, gap.start);
      var j :| 0 <= j < |used| && used[j].end == gap.start;
      assert Touches(g, used[j], p);
    } else {
      p := StraddlingPage(g, gap.end);
      var j :| 0 <= j < |used| && used[j].start == gap.end;
      assert Touches(g, used[j], p);
    }
    assert Touches(g, gaps[i], p);
  }

  /** A whole page of available memory lies in a gap that it meets and whose boundaries are aligned. */
  lemma {:induction false} PageInGap(g: Geometry, available: PhysRange, gap: PhysRange, p: nat)
    requires g.Valid() && Aligned(available, g.pageSize) && g.PageAddr(p) < available.end
    requires Touches(g, gap, p) && !Ragged(gap, available.end, g.pageSize)
    ensures gap.start <= g.PageAddr(p) && g.PageAddr(p) + g.pageSize <= gap.end
    ensures g.PageAddr(p) + g.pageSize <= available.end
  {
    var x := g.PageAddr(p);
    PageAddrAligned(g, p);
    NextMultiple(x, available.end, g.pageSize);
    if x < gap.start {
      NextMultiple(x, gap.start, g.pageSize);
    }
    if gap.end < available.end {
      NextMultiple(x, gap.end, g.pageSize);
    }
  }

  lemma {:induction false} LostIsRagged(g: Geometry, available: PhysRange, used: seq<PhysRange>, p: nat)
    returns (i: nat)
    requires g.Valid() && Sorted(used) && NoneEmpty(used) && Aligned(available, g.pageSize)
    requires Lost(g, available, used, p)
    ensures var gaps := Gaps(available.start, used, available.end);
            i < |gaps| && Ragged(gaps[i], available.end, g.pageSize)
  {
    var gaps := Gaps(available.start, used, available.end);
    i :| 0 <= i < |gaps| && Touches(g, gaps[i], p);
    if !Ragged(gaps[i], available.end, g.pageSize) {
      var j :| 0 <= j < |used| && Touches(g, used[j], p);
      var x := if used[j].start < g.PageAddr(p) then g.PageAddr(p) else used[j].start;
      PageInGap(g, available, gaps[i], p);
      assert InRange(x, gaps[i]) && InRange(x, used[j]);
      GapsAreUnused(available.start, used, available.end, x);
      assert false;
    }
  }

  /**
   For used ranges sorted by start, however many and however they overlap, around
   page-aligned available memory: a page in use is freed exactly when one of the gaps
   has a boundary inside available memory that is not page-aligned.
   */
  lemma {:induction false} LosesPageIff(g: Geometry, available: PhysRange, used: seq<PhysRange>)
    requires g.Valid() && Sorted(used) && NoneEmpty(used)
    requires Aligned(available, g.pageSize) && available.end <= g.MaxBytes()
    ensures var gaps := Gaps(available.start, used, available.end);
            (exists p: nat :: Lost(g, available, used, p))
            <==> exists i | 0 <= i < |gaps| :: Ragged(gaps[i], available.end, g.pageSize)
  {
    var gaps := Gaps(available.start, used, available.end);
    if p: nat :| Lost(g, available, used, p) {
      var i := LostIsRagged(g, available, used, p);
    }
    if i :| 0 <= i < |gaps| && Ragged(gaps[i], available.end, g.pageSize) {
      var p := RaggedLoses(g, available, used, i);
    }
  }

  /**
   One used range inside aligned available memory shares a page with what is freed
   exactly when one of its ends is not page-aligned.
   */
  lemma {:induction false} UnalignedRangeLosesPage(g: Geometry, available: PhysRange, u: PhysRange)
    requires g.Valid() && Aligned(available, g.pageSize)
    requires available.start <= u.start < u.end <= available.end <= g.MaxBytes()
    ensures (exists p: nat :: Lost(g, available, [u], p)) <==> !Aligned(u, g.pageSize)
  {
    var gaps := Gaps(available.start, [u], available.end);
    LosesPageIff(g, available, [u]);
    assert gaps == Gap(available.start, u.start) + Gap(u.end, available.end) by {
      assert [u][1..] == [];
    }
    if u.end % g.pageSize != 0 {
      assert Ragged(gaps[|gaps| - 1], available.end, g.pageSize);
    } else if u.start % g.pageSize != 0 {
      assert Ragged(gaps[0], available.end, g.pageSize);
    }
  }

  /** An address that is not page-aligned lies strictly inside a page. */
  lemma StraddlingPage(g: Geometry, x: nat) returns (p: nat)
    requires g.Valid() && x % g.pageSize != 0 && x < g.MaxBytes()
    ensures p < g.NumPages() && g.PageAddr(p) < x < g.PageAddr(p) + g.pageSize
  {
    p := g.PageOf(x);
    QuotRem(x, g.pageSize);
    QuotRemIsDivMod(x, g.pageSize);
    TimesLess(p, g.NumPages(), g.pageSize);
  }

  /** The page whose bit `deallocate` clears: it takes the bit number within its byte for one within its bitmap. */
  function Cleared(g: Geometry, pa: PhysAddr): nat
    requires g.Formed()
  {
    var (bitmapIdx, _, bitIdx) := g.PhysAddrAsIndices(pa);
    8 * Times(bitmapIdx, g.bitmapBytes) + bitIdx
  }

  /** `deallocate` frees the page it was asked to free exactly when that page is in the first byte of its bitmap. */
  lemma ClearedIsAsked(g: Geometry, pa: PhysAddr)
    requires g.Formed() && g.IsPageAddr(pa)
    ensures Cleared(g, pa) == g.PageOf(pa) <==> g.PhysAddrAsIndices(pa).1 == 0
  {
    QuotRem(g.PageOf(pa) / 8, g.bitmapBytes);
  }

  /** The page cleared has the bit number of the page asked for, in the first byte of the same bitmap. */
  lemma ClearedIndices(g: Geometry, pa: PhysAddr)
    requires g.Formed() && g.IsPageAddr(pa)
    ensures var (b, _, k) := g.PhysAddrAsIndices(pa);
            g.PageAddr(Cleared(g, pa)) == g.IndicesAsPhysAddr(b, 0, k)
            && g.PhysAddrAsIndices(g.PageAddr(Cleared(g, pa))) == (b, 0, k)
  {
    var (b, y, k) := g.PhysAddrAsIndices(pa);
    AddrRoundTrip(g, b, 0, k);
  }

  /** The page cleared starts at or past `end` only if it is the page at `end` itself. */
  lemma ClearedAtEnd(g: Geometry, pa: PhysAddr, end: PhysAddr, free: set<nat>)
    requires g.Formed() && g.IsPageAddr(pa) && pa <= end && Cleared(g, pa) in free
    ensures g.PageAddr(Cleared(g, pa)) < end <==> !(pa == end && g.PhysAddrAsIndices(pa).1 == 0)
  {
    IndicesRoundTrip(g, pa);
    ClearedIsAsked(g, pa);
    ClearedBelow(g, pa);
    TimesLess(Cleared(g, pa), g.PageOf(pa), g.pageSize);
  }

  /** With two bytes in a bitmap and 4 KiB pages, asking for page 8 back frees page 0. */
  lemma DeallocateDiverges()
    ensures var g := Geometry(1, 2, 0x1000);
            g.Valid() && g.IsPageAddr(0x8000) && 0x8000 < g.MaxBytes() && g.PageOf(0x8000) == 8
              && Cleared(g, 0x8000) == 0
  {
    var g := Geometry(1, 2, 0x1000);
    QuotRemIsDivMod(0x8000, 0x1000);
    QuotRemIsDivMod(1, 2);
    TimesIsMul(1, 2);
    TimesIsMul(16, 0x1000);
    Pow2Constants();
    assert Pow2(12) == 0x1000;
  }

  /** On a new allocator of that shape, giving the page at 0x8000 back leaves page 0 free and page 8 taken. */
  method DeallocateFreesAnother() returns (a: BitmapPageAlloc)
    ensures fresh(a) && a.Valid() && a.g == Geometry(1, 2, 0x1000)
    ensures a.g.PageOf(0x8000) == 8 && a.Free() == {0}
  {
    DeallocateDiverges();
    a := new BitmapPageAlloc(1, 2, 0x1000);
    var r := a.Deallocate(0x8000);
  }

  /** An allocator shape with two bitmaps of one byte, for 16 pages of 4 KiB. */
  lemma TwoBitmaps(g: Geometry)
    requires g == Geometry(2, 1, 0x1000)
    ensures g.Valid() && g.NumPages() == 16 && g.MaxBytes() == 0x1_0000
    ensures g.IsPageAddr(0x8000) && g.PageOf(0x8000) == 8 && g.PageAddr(8) == 0x8000
    ensures g.PhysAddrAsIndices(0x8000).1 == 0 && Cleared(g, 0x8000) == 8
  {
    QuotRemIsDivMod(0x8000, 0x1000);
    QuotRemIsDivMod(1, 1);
    TimesIsMul(2, 1);
    TimesIsMul(8, 0x1000);
    TimesIsMul(16, 0x1000);
    Pow2Constants();
    assert Pow2(12) == 0x1000;
    ClearedIsAsked(g, 0x8000);
  }

  /** With all memory up to 0x8000 in use, giving back the page at that end frees it. */
  method DeallocateAtEnd() returns (a: BitmapPageAlloc)
    ensures fresh(a) && a.g == Geometry(2, 1, 0x1000) && Shaped(a.g, a.bitmaps)
    ensures a.end == a.g.PageAddr(8) && 8 in a.Free() && !a.Valid()
  {
    TwoBitmaps(Geometry(2, 1, 0x1000));
    a := new BitmapPageAlloc(2, 1, 0x1000);
    var u := PhysRange(0, 0x8000);
    NoGaps(u);
    var r := a.FreeUnusedRanges(u, [u]);
    r := a.Deallocate(0x8000);
  }

  /** With available memory that ends inside page 0, freeing it makes the usage negative. */
  method UsageGoesNegative() returns (a: BitmapPageAlloc, used: int, total: nat)
    ensures fresh(a) && a.Valid() && a.end == total == 0x800 && used == -0x800
  {
    TwoBitmaps(Geometry(2, 1, 0x1000));
    a := new BitmapPageAlloc(2, 1, 0x1000);
    var u := PhysRange(0, 0x800);
    NoGaps(u);
    var r := a.FreeUnusedRanges(u, [u]);
    assert a.Free() == {};
    r := a.MarkFree(u);
    HalfPage(a.g);
    used, total := a.UsageBytes();
  }

  lemma HalfPage(g: Geometry)
    requires g == Geometry(2, 1, 0x1000)
    ensures g.Valid() && PagesIn(g, RoundDown(0, 0x1000), RoundUp(0x800, 0x1000)) == {0} && Times(1, 0x1000) == 0x1000
  {
    TwoBitmaps(g);
    RoundsDown(0, 0x1000);
    RoundsUp(0x800, 0x1000);
    TimesIsMul(1, 0x1000);
    forall p: nat
      ensures g.PageAddr(p) < 0x1000 <==> p == 0
    {
      TimesIsMul(p, 0x1000);
    }
  }

  /** Memory that is all in use has no gaps. */
  lemma NoGaps(u: PhysRange)
    ensures Gaps(u.start, [u], u.end) == []
  {
    assert [u][1..] == [];
  }

  lemma ClearedBelow(g: Geometry, pa: PhysAddr)
    requires g.Formed() && g.IsPageAddr(pa)
    ensures Cleared(g, pa) <= g.PageOf(pa) && g.PageAddr(Cleared(g, pa)) <= pa
  {
    QuotRem(g.PageOf(pa) / 8, g.bitmapBytes);
    IndicesRoundTrip(g, pa);
    TimesLess(Cleared(g, pa), g.PageOf(pa), g.pageSize);
  }

  /** The bit that stands for the page at `pa`. */
  lemma {:induction false} BitOfAddr(g: Geometry, bm: Bitmaps, pa: PhysAddr)
    requires g.Formed() && Shaped(g, bm) && g.IsPageAddr(pa) && pa < g.MaxBytes()
    ensures var (b, y, k) := g.PhysAddrAsIndices(pa);
            && b < |bm| && y < |bm[b]| && k < 8
            && (IsSet(bm[b], 8 * y + k) <==> g.PageOf(pa) !in FreePages(g, bm))
            && Cleared(g, pa) == 8 * Times(b, g.bitmapBytes) + k && g.PageAddr(g.PageOf(pa)) == pa
  {
    var (_, _, k) := g.PhysAddrAsIndices(pa);
    IndicesRoundTrip(g, pa);
    SetBitFree(g, bm, g.PageOf(pa) / 8, k, false);
  }

  /** The bytes of `order` are consecutive from `n`. */
  ghost predicate InOrder(g: Geometry, order: seq<nat>, n: nat) {
    n + |order| <= g.NumBytes() && forall i | 0 <= i < |order| :: order[i] == n + i
  }

  /** Of `total` bytes the scan has passed the first `n`, whose free pages take `freeBytes` bytes. */
  ghost predicate Counted(scan: ByteScan, bm: Bitmaps, n: nat, total: nat, freeBytes: nat)
    reads scan
  {
    && scan.Valid() && Shaped(scan.g, bm)
    && InOrder(scan.g, scan.Remaining(), n) && n + |scan.Remaining()| == total
    && freeBytes == FreeBytesBelow(scan.g, bm, n)
  }

  /** `Iterator::map` and `sum` over a scan in byte order: the free pages, in bytes. */
  method CountFree(scan: ByteScan, bm: Bitmaps) returns (freeBytes: nat)
    requires scan.Valid() && Shaped(scan.g, bm)
    requires InOrder(scan.g, scan.Remaining(), 0)
    modifies scan
    ensures |old(scan.Remaining())| <= scan.g.NumBytes()
    ensures freeBytes == FreeBytesBelow(scan.g, bm, |old(scan.Remaining())|)
  {
    ghost var total, n := |scan.Remaining()|, 0;
    freeBytes := 0;
    while true
      invariant Counted(scan, bm, n, total, freeBytes)
      decreases total - n
    {
      var more;
      more, freeBytes := CountNext(scan, bm, freeBytes, n, total);
      if !more {
        return;
      }
      n := n + 1;
    }
  }

  method CountNext(scan: ByteScan, bm: Bitmaps, freeBytes: nat, ghost n: nat, ghost total: nat)
    returns (more: bool, sum: nat)
    requires Counted(scan, bm, n, total, freeBytes)
    modifies scan
    ensures n <= total && (more <==> n < total)
    ensures !more ==> sum == freeBytes
    ensures more ==> Counted(scan, bm, n + 1, total, sum)
  {
    ghost var order := scan.Remaining();
    var r, byte := NextByte(scan, bm);
    more, sum := r.Some?, freeBytes;
    if more {
      assert order[0] == n && byte == ByteOf(scan.g, bm, n);
      ByteAdds(scan.g, bm, n);
      sum := freeBytes + Times(CountZeros(byte, 8), scan.g.pageSize);
    }
  }

  /** The bytes of the free pages among the first `n` bytes of the bitmaps. */
  function FreeBytesBelow(g: Geometry, bm: Bitmaps, n: nat): nat
    requires g.Formed() && Shaped(g, bm) && 8 * n <= g.NumPages()
  {
    Times(FreeBelow(g, bm, 8 * n), g.pageSize)
  }

  lemma ByteAdds(g: Geometry, bm: Bitmaps, n: nat)
    requires g.Formed() && Shaped(g, bm) && n < g.NumBytes()
    ensures FreeBytesBelow(g, bm, n + 1) ==
            FreeBytesBelow(g, bm, n) + Times(CountZeros(ByteOf(g, bm, n), 8), g.pageSize)
  {
    FreeInByte(g, bm, n, 8);
    TimesAdd(FreeBelow(g, bm, 8 * n), CountZeros(ByteOf(g, bm, n), 8), g.pageSize);
  }

  /** The scan from the first byte visits the bytes in order, and all that cover memory below the end. */
  lemma ScanFromZero(g: Geometry, end: nat)
    requires g.Formed() && end <= g.MaxBytes()
    ensures var order := ScanOrder(g, end, 0, 0);
            && InOrder(g, order, 0)
            && end <= g.PageAddr(8 * |order|)
  {
    ScanOrderComplete(g, end, 0, 0);
    var order := ScanOrder(g, end, 0, 0);
    assert order != [] ==> order[|order| - 1] < g.NumBytes();
    assert g.PageAddr(8 * |order|) < end ==> |order| in order;
  }

  /** The next byte of the scan, with its contents. */
  method NextByte(scan: ByteScan, bm: Bitmaps) returns (r: Option<ByteIndices>, byte: Byte)
    requires scan.Valid() && Shaped(scan.g, bm)
    requires InBounds(scan.g, scan.Remaining())
    modifies scan
    ensures scan.Valid()
    ensures r.None? <==> old(scan.Remaining()) == []
    ensures r.Some? ==>
              var c := old(scan.Remaining())[0];
              && c < scan.g.NumBytes() && byte == ByteOf(scan.g, bm, c)
              && scan.g.Row(c) == r.value.bitmap && scan.g.Col(c) == r.value.byte
              && scan.Remaining() == old(scan.Remaining())[1..]
  {
    byte := 0;
    r := scan.Next();
    if r.Some? {
      byte := bm[r.value.bitmap][r.value.byte];
    }
  }

  /** The scan has found the first `n` bytes of `order` full and goes on from there. */
  ghost predicate Searched(scan: ByteScan, bm: Bitmaps, order: seq<nat>, n: nat)
    reads scan
  {
    && scan.Valid() && Shaped(scan.g, bm) && InBounds(scan.g, order)
    && FullUpTo(scan.g, bm, order, n) && scan.Remaining() == order[n..]
  }

  /** Look at the next byte: none left, or a full one, or the one sought. */
  method FindNext(scan: ByteScan, bm: Bitmaps, ghost order: seq<nat>, ghost n: nat)
    returns (r: Option<ByteIndices>, full: bool, ghost c: nat)
    requires Searched(scan, bm, order, n)
    modifies scan
    ensures r.None? ==> n == |order|
    ensures r.Some? && full ==> Searched(scan, bm, order, n + 1)
    ensures r.Some? && !full ==> n < |order| && Found(scan.g, bm, order, r.value, c)
  {
    var byte;
    c := if n < |order| then order[n] else 0;
    assert order[n..] != [] ==> order[n..][0] == order[n] && order[n..][1..] == order[n + 1..];
    r, byte := NextByte(scan, bm);
    full := byte == 255;
    if r.Some? && full {
      FullStep(scan.g, bm, order, n);
    } else if r.Some? {
      assert FirstNotFull(scan.g, bm, order, order[n]);
    }
  }

  /** `Iterator::find` over the scan, for a byte that is not all ones. */
  method FindNotFull(scan: ByteScan, bm: Bitmaps) returns (r: Option<ByteIndices>, ghost c: nat)
    requires scan.Valid() && Shaped(scan.g, bm)
    requires InBounds(scan.g, scan.Remaining())
    modifies scan
    ensures r.None? ==> FullUpTo(scan.g, bm, old(scan.Remaining()), |old(scan.Remaining())|)
    ensures r.Some? ==> Found(scan.g, bm, old(scan.Remaining()), r.value, c)
  {
    ghost var order, n := scan.Remaining(), 0;
    while true
      invariant Searched(scan, bm, order, n)
      decreases |order| - n
    {
      var full;
      r, full, c := FindNext(scan, bm, order, n);
      if r.None? || !full {
        return;
      }
      n := n + 1;
    }
  }

  /** The address up to which the first `i` steps reach. */
  function Reached(steps: seq<PhysAddr>, i: nat, hi: nat): nat
    requires i <= |steps|
  {
    if i < |steps| then steps[i] else hi
  }

  /** `bm'` is `bm` with the pages from address `lo` up to `hi` set to `v`. */
  ghost predicate Marked(g: Geometry, bm: Bitmaps, bm': Bitmaps, lo: nat, hi: nat, v: bool)
    requires g.Formed() && Shaped(g, bm) && Shaped(g, bm')
  {
    forall p {:trigger Used(g, bm', p)} | 0 <= p < g.NumPages() ::
      Used(g, bm', p) <==> if lo <= g.PageAddr(p) < hi then v else Used(g, bm, p)
  }

  /** The pages at `steps` follow one another from `lo` to `hi`. */
  ghost predicate PagesAt(g: Geometry, steps: seq<PhysAddr>, lo: nat, hi: nat)
    requires g.Formed()
  {
    Consecutive(steps, lo, hi, g.pageSize) && forall i | 0 <= i < |steps| :: g.IsPageAddr(steps[i])
  }

  lemma {:induction false} PagesOfRange(g: Geometry, range: PhysRange)
    requires g.Valid() && range.end + g.pageSize - 1 < U64_LIMIT
    ensures PagesAt(g, StepByRounded(range, g.pageSize), RoundDown(range.start, g.pageSize),
                    RoundUp(range.end, g.pageSize))
  {
    var steps := StepByRounded(range, g.pageSize);
    StepsRounded(range, g.pageSize);
    forall i | 0 <= i < |steps|
      ensures g.IsPageAddr(steps[i])
    {
      assert steps[i] in steps;
      QuotRemIsDivMod(steps[i], g.pageSize);
    }
  }

  /** What setting the bit of the page at `pa` does to the pages marked so far, if there is such a page. */
  lemma {:induction false} MarkedPage(g: Geometry, bm: Bitmaps, bm1: Bitmaps, lo: nat, pa: nat, v: bool)
    requires g.Formed() && Shaped(g, bm) && Shaped(g, bm1)
    requires Marked(g, bm, bm1, lo, pa, v) && lo <= pa && g.IsPageAddr(pa)
    ensures var (b, y, k) := g.PhysAddrAsIndices(pa);
            && (b < |bm1| <==> pa < g.MaxBytes())
            && (b < |bm1| ==>
                  && y < |bm1[b]| && k < 8 && pa + g.pageSize <= g.MaxBytes()
                  && var bm2 := bm1[b := SetBit(bm1[b], 8 * y + k, v)];
                  && Shaped(g, bm2) && Marked(g, bm, bm2, lo, pa + g.pageSize, v))
  {
    var (b, y, k) := g.PhysAddrAsIndices(pa);
    IndicesRoundTrip(g, pa);
    if pa < g.MaxBytes() {
      SetBitPage(g, bm1, g.PageOf(pa) / 8, k, v);
      MarkedStep(g, bm, bm1, bm1[b := SetBit(bm1[b], 8 * y + k, v)], lo, pa, v);
      TimesOrder(g.PageOf(pa), g.NumPages(), g.pageSize);
    }
  }

  lemma {:induction false} MarkedStep(g: Geometry, bm: Bitmaps, bm1: Bitmaps, bm2: Bitmaps, lo: nat, pa: nat, v: bool)
    requires g.Formed() && Shaped(g, bm) && Shaped(g, bm1) && Shaped(g, bm2)
    requires Marked(g, bm, bm1, lo, pa, v) && lo <= pa && g.IsPageAddr(pa)
    requires forall q | 0 <= q < g.NumPages() ::
               Used(g, bm2, q) <==> if q == g.PageOf(pa) then v else Used(g, bm1, q)
    ensures Marked(g, bm, bm2, lo, pa + g.pageSize, v)
  {
    var n := g.PageOf(pa);
    QuotRem(pa, g.pageSize);
    forall p | 0 <= p < g.NumPages()
      ensures Used(g, bm2, p) <==> if lo <= g.PageAddr(p) < pa + g.pageSize then v else Used(g, bm, p)
    {
      TimesLess(p, n, g.pageSize);
      TimesLess(p, n + 1, g.pageSize);
    }
  }

  /** Beyond the last page there is nothing to mark. */
  lemma MarkedAll(g: Geometry, bm: Bitmaps, bm': Bitmaps, lo: nat, pa: nat, hi: nat, v: bool)
    requires g.Formed() && Shaped(g, bm) && Shaped(g, bm')
    requires Marked(g, bm, bm', lo, pa, v) && g.MaxBytes() <= pa <= hi
    ensures FreePages(g, bm') == if v then FreePages(g, bm) - PagesIn(g, lo, hi)
            else FreePages(g, bm) + PagesIn(g, lo, hi)
  {
    PagesBelowMax(g);
  }

  lemma MarkedFree(g: Geometry, bm: Bitmaps, bm': Bitmaps, lo: nat, hi: nat, v: bool)
    requires g.Formed() && Shaped(g, bm) && Shaped(g, bm')
    requires Marked(g, bm, bm', lo, hi, v)
    ensures FreePages(g, bm') == if v then FreePages(g, bm) - PagesIn(g, lo, hi)
            else FreePages(g, bm) + PagesIn(g, lo, hi)
  {
  }

  /** `c` is the first byte of `order` that is not all ones. */
  ghost predicate FirstNotFull(g: Geometry, bm: Bitmaps, order: seq<nat>, c: nat)
    requires g.Formed() && Shaped(g, bm)
  {
    c < g.NumBytes() && ByteOf(g, bm, c) != 255
    && exists n | 0 <= n < |order| :: order[n] == c && FullUpTo(g, bm, order, n)
  }

  /** Going round from byte `c0`, byte `c` comes before every other byte that has a free page. */
  predicate NextInTurn(free: set<nat>, c0: nat, c: nat) {
    forall q | q in free :: if c0 <= c then !(c0 <= q / 8 < c) else c <= q / 8 < c0
  }

  /** The first byte in scan order that is not all ones is the next in turn from the start of the scan. */
  lemma FirstInTurn(g: Geometry, bm: Bitmaps, end: nat, b: nat, y: nat, c0: nat, c: nat)
    requires g.Formed() && Shaped(g, bm) && Sealed(g, bm, end) && end <= g.MaxBytes()
    requires b < g.numBitmaps && y < g.bitmapBytes && g.IndicesAsPhysAddr(b, y, 0) <= end
    requires c0 == Times(b, g.bitmapBytes) + y
    requires FirstNotFull(g, bm, ScanOrder(g, end, b, y), c)
    ensures NextInTurn(FreePages(g, bm), c0, c)
  {
    var order := ScanOrder(g, end, b, y);
    var n :| 0 <= n < |order| && order[n] == c && FullUpTo(g, bm, order, n);
    ScanOrderComplete(g, end, b, y);
    forall q | q in FreePages(g, bm)
      ensures if c0 <= c then !(c0 <= q / 8 < c) else c <= q / 8 < c0
    {
      TimesLess(8 * (q / 8), q, g.pageSize);
      assert q / 8 in order;
      var i :| 0 <= i < |order| && order[i] == q / 8;
      if i < n {
        FullByte(g, bm, q / 8, q);
      }
      InOrderFrom(g, end, b, y, n, i);
    }
  }

  /** Where the scan order goes from its start, and where it ends. */
  lemma InOrderFrom(g: Geometry, end: nat, b: nat, y: nat, n: nat, i: nat)
    requires g.Formed() && end <= g.MaxBytes()
    requires b < g.numBitmaps && y < g.bitmapBytes && g.IndicesAsPhysAddr(b, y, 0) <= end
    requires n < |ScanOrder(g, end, b, y)| && i < |ScanOrder(g, end, b, y)| && n <= i
    ensures var order, c0 := ScanOrder(g, end, b, y), Times(b, g.bitmapBytes) + y;
            if c0 <= order[n] then !(c0 <= order[i] < order[n]) else order[n] <= order[i] < c0
  {
    TimesLess(0, 8 * (Times(b, g.bitmapBytes) + y), g.pageSize);
  }

  /** The byte `c` at these indices is the first in `order` that is not all ones. */
  ghost predicate Found(g: Geometry, bm: Bitmaps, order: seq<nat>, ix: ByteIndices, c: nat)
    requires g.Formed() && Shaped(g, bm)
  {
    FirstNotFull(g, bm, order, c) && g.Row(c) == ix.bitmap && g.Col(c) == ix.byte
  }

  ghost predicate InBounds(g: Geometry, order: seq<nat>) {
    forall i | 0 <= i < |order| :: order[i] < g.NumBytes()
  }

  /** The first `n` bytes of `order` are all ones. */
  ghost predicate FullUpTo(g: Geometry, bm: Bitmaps, order: seq<nat>, n: nat)
    requires g.Formed() && Shaped(g, bm)
  {
    n <= |order| && forall i | 0 <= i < n :: order[i] < g.NumBytes() && ByteOf(g, bm, order[i]) == 255
  }

  lemma FullStep(g: Geometry, bm: Bitmaps, order: seq<nat>, n: nat)
    requires g.Formed() && Shaped(g, bm) && FullUpTo(g, bm, order, n)
    requires n < |order| && order[n] < g.NumBytes() && ByteOf(g, bm, order[n]) == 255
    ensures FullUpTo(g, bm, order, n + 1)
  {
  }

  lemma MaxBytesAligned(g: Geometry)
    requires g.Formed()
    ensures g.MaxBytes() % g.pageSize == 0
  {
    PageAddrOf(g, g.NumPages());
    QuotRemIsDivMod(g.MaxBytes(), g.pageSize);
  }

  /** Rounding up stays in bounds, and covers no page that starts at or past the end. */
  lemma RoundedInBounds(g: Geometry, end: PhysAddr)
    requires g.Valid() && end + g.pageSize - 1 < U64_LIMIT
    ensures end <= g.MaxBytes() ==> RoundUp(end, g.pageSize) <= g.MaxBytes()
    ensures forall p: nat | g.PageAddr(p) < RoundUp(end, g.pageSize) :: g.PageAddr(p) < end
  {
    var hi := RoundUp(end, g.pageSize);
    RoundsUp(end, g.pageSize);
    if end <= g.MaxBytes() < hi {
      MaxBytesAligned(g);
      NextMultiple(g.MaxBytes(), hi, g.pageSize);
    }
    forall p: nat | g.PageAddr(p) < hi
      ensures g.PageAddr(p) < end
    {
      PageAddrOf(g, p);
      QuotRemIsDivMod(g.PageAddr(p), g.pageSize);
      NextMultiple(g.PageAddr(p), hi, g.pageSize);
    }
  }

  /** The byte of a page up to `end` starts no later. */
  lemma StartInBounds(g: Geometry, end: nat, pa: PhysAddr)
    requires g.Formed() && g.IsPageAddr(pa) && end <= g.MaxBytes()
    requires pa == 0 || (pa <= end && pa < g.MaxBytes())
    ensures var (b, y, _) := g.PhysAddrAsIndices(pa);
            b < g.numBitmaps && y < g.bitmapBytes && g.IndicesAsPhysAddr(b, y, 0) <= pa <= end
  {
    PageAddrOf(g, 0);
    IndicesRoundTrip(g, pa);
    var (b, y, k) := g.PhysAddrAsIndices(pa);
    var c := 8 * (Times(b, g.bitmapBytes) + y);
    TimesLess(c, c + k, g.pageSize);
  }

  /** If every scanned byte is full, no page below `end` is free. */
  lemma NoPageFree(g: Geometry, bm: Bitmaps, end: nat, b: nat, y: nat)
    requires g.Formed() && Shaped(g, bm) && end <= g.MaxBytes() && b < g.numBitmaps && y < g.bitmapBytes
    requires Sealed(g, bm, end) && g.IndicesAsPhysAddr(b, y, 0) <= end
    requires FullUpTo(g, bm, ScanOrder(g, end, b, y), |ScanOrder(g, end, b, y)|)
    ensures FreePages(g, bm) == {}
  {
    ScanOrderComplete(g, end, b, y);
    forall p | p in FreePages(g, bm)
      ensures false
    {
      var c := p / 8;
      TimesLess(8 * c, p, g.pageSize);
      assert c in ScanOrder(g, end, b, y);
      FullByte(g, bm, c, p);
    }
  }

  lemma {:induction false} PageToTake(g: Geometry, bm: Bitmaps, order: seq<nat>, c: nat)
    requires g.Formed() && Shaped(g, bm) && FirstNotFull(g, bm, order, c)
    ensures g.Row(c) < g.numBitmaps && g.Col(c) < g.bitmapBytes
    ensures var k := TrailingOnes(ByteOf(g, bm, c));
            var p := 8 * c + k;
            && k < 8 && p / 8 == c && p % 8 == k && p in FreePages(g, bm)
            && forall q | q in FreePages(g, bm) && q / 8 == c :: p <= q
  {
    ByteBound(g, c);
    FirstFreePage(g, bm, c);
    QuotRem(c, g.bitmapBytes);
  }

  /** The lowest zero bit of a byte is its lowest free page. */
  lemma FirstFreePage(g: Geometry, bm: Bitmaps, c: nat)
    requires g.Formed() && Shaped(g, bm) && c < g.NumBytes() && ByteOf(g, bm, c) != 255
    ensures var k := TrailingOnes(ByteOf(g, bm, c));
            && k < 8 && 8 * c + k in FreePages(g, bm) && (8 * c + k) / 8 == c
            && forall q | q in FreePages(g, bm) && q / 8 == c :: 8 * c + k <= q
  {
    assert Pow2(8) == 256;
    var x := ByteOf(g, bm, c);
    TrailingOnesAt(x, 8);
    var k := TrailingOnes(x);
    assert (8 * c + k) / 8 == c && (8 * c + k) % 8 == k;
    assert !Used(g, bm, 8 * c + k);
    forall q | q in FreePages(g, bm) && q / 8 == c
      ensures 8 * c + k <= q
    {
      assert q == 8 * c + q % 8;
      assert !BitAt(x, q % 8);
    }
  }
}
