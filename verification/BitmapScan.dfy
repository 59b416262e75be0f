/**
 The wrap-around iteration over bitmap bytes (port/src/bitmapalloc.rs,
 `indices_from`).  The running address `currpa` moves by one page per bitmap, not
 by the memory a bitmap covers, so it lags behind the byte being visited.
 */
module BitmapScan {
  import opened Wrappers
  import opened Bits
  import opened Mem
  import opened Repeated
  import opened BitmapGeometry

  datatype ByteIndices = ByteIndices(bitmap: nat, byte: nat)

  function UpTo(a: nat, b: nat): (s: seq<nat>)
    requires a <= b
    ensures |s| == b - a && forall i | 0 <= i < |s| :: s[i] == a + i
  {
    seq(b - a, i requires 0 <= i => a + i)
  }

  lemma UpToCons(a: nat, b: nat, rest: seq<nat>)
    requires a < b
    ensures UpTo(a, b) + rest == [a] + (UpTo(a + 1, b) + rest)
    ensures UpTo(a, b) == [a] + UpTo(a + 1, b)
  {
  }

  /** The bitmap at whose start the scan wraps, when bitmap `b` starts with running address `currpa`. */
  function StopBitmap(g: Geometry, end: nat, b: nat, currpa: nat): (stop: nat)
    requires b <= g.numBitmaps
    ensures b <= stop <= g.numBitmaps
    decreases g.numBitmaps - b
  {
    if b == g.numBitmaps || currpa >= end then b else StopBitmap(g, end, b + 1, currpa + g.pageSize)
  }

  /** The scan passes `n` bitmaps, the running address one page further at each, while it is below `end`. */
  lemma {:induction false} StopIsFirst(g: Geometry, end: nat, b: nat, currpa: nat, n: nat)
    requires b + n <= g.numBitmaps
    ensures n < StopBitmap(g, end, b, currpa) - b ==> currpa + Times(n, g.pageSize) < end
    ensures n == StopBitmap(g, end, b, currpa) - b ==>
              b + n == g.numBitmaps || currpa + Times(n, g.pageSize) >= end
    decreases n
  {
    if n > 0 && b < g.numBitmaps && currpa < end {
      StopIsFirst(g, end, b + 1, currpa + g.pageSize, n - 1);
    }
  }

  /** Although `currpa` lags, the scan does not wrap before it has passed every byte below `end`. */
  lemma {:induction false} StopCovers(g: Geometry, end: nat, b: nat, currpa: nat)
    requires g.Formed() && b <= g.numBitmaps && end <= g.MaxBytes()
    requires currpa <= g.IndicesAsPhysAddr(b, 0, 0)
    ensures end <= g.IndicesAsPhysAddr(StopBitmap(g, end, b, currpa), 0, 0)
    decreases g.numBitmaps - b
  {
    if b < g.numBitmaps && currpa < end {
      LagAfter(g, b, 0);
      StopCovers(g, end, b + 1, currpa + g.pageSize);
    }
  }

  /** One page past byte `(b, y)` is not beyond the start of the next bitmap. */
  lemma LagAfter(g: Geometry, b: nat, y: nat)
    requires g.Formed() && y < g.bitmapBytes
    ensures g.IndicesAsPhysAddr(b, y, 0) + g.pageSize <= g.IndicesAsPhysAddr(b + 1, 0, 0)
  {
    TimesOrder(8 * (Times(b, g.bitmapBytes) + y), 8 * Times(b + 1, g.bitmapBytes), g.pageSize);
  }

  /**
   The order in which a scan started at `(b, y)` visits the bytes.  Started at the
   end itself, it wraps before its first byte; with an end of 0 it does so each time.
   */
  function ScanOrder(g: Geometry, end: nat, b: nat, y: nat): seq<nat>
    requires b < g.numBitmaps && y < g.bitmapBytes
  {
    var pa, start := g.IndicesAsPhysAddr(b, y, 0), Times(b, g.bitmapBytes) + y;
    var stop := StopBitmap(g, end, b + 1, pa + g.pageSize);
    StopAfter(g, b, y, stop);
    if end == 0 then [0]
    else if pa >= end then UpTo(0, start)
    else UpTo(start, Times(stop, g.bitmapBytes)) + UpTo(0, start)
  }

  lemma StopAfter(g: Geometry, b: nat, y: nat, stop: nat)
    requires y < g.bitmapBytes && b < stop <= g.numBitmaps
    ensures Times(b, g.bitmapBytes) + y < Times(stop, g.bitmapBytes) <= g.NumBytes()
  {
    TimesOrder(b, stop, g.bitmapBytes);
    TimesLess(stop, g.numBitmaps, g.bitmapBytes);
  }

  /**
   From any start up to the end, the scan order repeats no byte, has only bytes of
   the bitmaps, and has every byte that covers an address below `end`.
   */
  lemma ScanOrderComplete(g: Geometry, end: nat, b: nat, y: nat)
    requires g.Formed() && end <= g.MaxBytes()
    requires b < g.numBitmaps && y < g.bitmapBytes && g.IndicesAsPhysAddr(b, y, 0) <= end
    ensures var s := ScanOrder(g, end, b, y);
            && (forall i, j | 0 <= i < j < |s| :: s[i] != s[j])
            && (forall i | 0 <= i < |s| :: s[i] < g.NumBytes())
            && (forall c: nat | g.PageAddr(8 * c) < end :: c in s)
  {
    var pa, start := g.IndicesAsPhysAddr(b, y, 0), Times(b, g.bitmapBytes) + y;
    ByteBound(g, start);
    QuotRemOf(b, y, g.bitmapBytes);
    if 0 < end && pa < end {
      FirstPassComplete(g, end, b, y);
    } else if end > 0 {
      forall c: nat | g.PageAddr(8 * c) < end
        ensures c in UpTo(0, start)
      {
        TimesLess(8 * c, 8 * start, g.pageSize);
        assert UpTo(0, start)[c] == c;
      }
    }
  }

  lemma FirstPassComplete(g: Geometry, end: nat, b: nat, y: nat)
    requires g.Formed() && end <= g.MaxBytes()
    requires b < g.numBitmaps && y < g.bitmapBytes && g.IndicesAsPhysAddr(b, y, 0) < end
    ensures var s := ScanOrder(g, end, b, y);
            && (forall i, j | 0 <= i < j < |s| :: s[i] != s[j])
            && (forall i | 0 <= i < |s| :: s[i] < g.NumBytes())
            && (forall c: nat | g.PageAddr(8 * c) < end :: c in s)
  {
    var pa := g.IndicesAsPhysAddr(b, y, 0);
    var stop := StopBitmap(g, end, b + 1, pa + g.pageSize);
    var start, n := Times(b, g.bitmapBytes) + y, Times(stop, g.bitmapBytes);
    StopAfter(g, b, y, stop);
    LagAfter(g, b, y);
    StopCovers(g, end, b + 1, pa + g.pageSize);
    Rotation(start, n);
    forall c: nat | g.PageAddr(8 * c) < end
      ensures c < n
    {
      TimesLess(8 * c, 8 * n, g.pageSize);
    }
  }

  /**
   The scan visits only bytes that cover an address below `end` exactly when it starts at
   the end itself, or the last byte of the bitmaps it passes before wrapping is such a byte.
   */
  lemma ScanStaysBelowIff(g: Geometry, end: nat, b: nat, y: nat)
    requires g.Formed() && end <= g.MaxBytes()
    requires b < g.numBitmaps && y < g.bitmapBytes && g.IndicesAsPhysAddr(b, y, 0) <= end
    ensures var pa := g.IndicesAsPhysAddr(b, y, 0);
            var n := Times(StopBitmap(g, end, b + 1, pa + g.pageSize), g.bitmapBytes);
            && n >= 1
            && ((forall c | c in ScanOrder(g, end, b, y) :: g.PageAddr(8 * c) < end)
                <==> end > 0 && (pa == end || g.PageAddr(8 * (n - 1)) < end))
  {
    var pa, start := g.IndicesAsPhysAddr(b, y, 0), Times(b, g.bitmapBytes) + y;
    var stop := StopBitmap(g, end, b + 1, pa + g.pageSize);
    var s, n := ScanOrder(g, end, b, y), Times(stop, g.bitmapBytes);
    StopAfter(g, b, y, stop);
    if end == 0 {
      assert s[0] == 0;
    } else if pa == end {
      forall c | c in s
        ensures g.PageAddr(8 * c) < end
      {
        TimesLess(8 * c, 8 * start, g.pageSize);
      }
    } else {
      Rotation(start, n);
      forall c | c in s
        ensures g.PageAddr(8 * c) <= g.PageAddr(8 * (n - 1))
      {
        TimesLess(8 * c, 8 * (n - 1), g.pageSize);
      }
    }
  }

  /** With two bytes to a bitmap and one page of memory, the scan visits a byte past the end. */
  lemma ScanGoesPast()
    ensures var g := Geometry(1, 2, 0x1000);
            g.Formed() && 0x1000 <= g.MaxBytes() && 1 in ScanOrder(g, 0x1000, 0, 0) && g.PageAddr(8 * 1) > 0x1000
  {
    var g := Geometry(1, 2, 0x1000);
    TimesIsMul(1, 2);
    TimesIsMul(8, 0x1000);
    TimesIsMul(16, 0x1000);
    assert ScanOrder(g, 0x1000, 0, 0)[1] == 1;
  }

  /** The numbers below `n`, started in the middle, are each there once. */
  lemma Rotation(start: nat, n: nat)
    requires start <= n
    ensures var s := UpTo(start, n) + UpTo(0, start);
            && (forall i, j | 0 <= i < j < |s| :: s[i] != s[j])
            && (forall i | 0 <= i < |s| :: s[i] < n)
            && (forall c | 0 <= c < n :: c in s)
  {
    var s := UpTo(start, n) + UpTo(0, start);
    forall c | 0 <= c < n
      ensures c in s
    {
      assert s[if c < start then n - start + c else c - start] == c;
    }
  }

  /** The closure that `indices_from` returns. */
  class ByteScan {
    const g: Geometry
    const end: PhysAddr
    const startBitmap: nat
    const startByte: nat
    var bitmapIdx: nat
    var byteIdx: nat
    var passedFirst: bool
    var currpa: nat
    ghost var wrapped: bool

    constructor (g: Geometry, end: PhysAddr, startBitmap: nat, startByte: nat)
      requires g.Formed() && end <= g.MaxBytes()
      requires startBitmap < g.numBitmaps && startByte < g.bitmapBytes
      requires g.IndicesAsPhysAddr(startBitmap, startByte, 0) <= end
      ensures this.g == g && this.end == end
      ensures Valid() && Remaining() == ScanOrder(g, end, startBitmap, startByte)
    {
      this.g, this.end, this.startBitmap, this.startByte := g, end, startBitmap, startByte;
      bitmapIdx, byteIdx, passedFirst := startBitmap, startByte, false;
      currpa := g.IndicesAsPhysAddr(startBitmap, startByte, 0);
      wrapped := false;
      new;
      if StartAddr() == 0 {
        AtZero();
      }
    }

    ghost function Start(): nat {
      Times(startBitmap, g.bitmapBytes) + startByte
    }

    ghost function StartAddr(): nat {
      g.IndicesAsPhysAddr(startBitmap, startByte, 0)
    }

    ghost function Position(): nat
      reads this
    {
      Times(bitmapIdx, g.bitmapBytes) + byteIdx
    }

    /** The bitmap at which the first pass ends. */
    ghost function Stop(): nat
      requires startBitmap < g.numBitmaps
    {
      StopBitmap(g, end, startBitmap + 1, StartAddr() + g.pageSize)
    }

    ghost predicate InBounds()
      reads this
    {
      && g.Formed() && end <= g.MaxBytes() && StartAddr() <= end
      && startBitmap < g.numBitmaps && startByte < g.bitmapBytes && byteIdx < g.bitmapBytes
    }

    /** Going on from the start, before the scan has wrapped. */
    ghost predicate FirstPass()
      requires InBounds()
      reads this
    {
      if StartAddr() == end then !passedFirst && bitmapIdx == startBitmap && byteIdx == startByte && currpa == end
      else
        && startBitmap <= bitmapIdx <= Stop()
        && (passedFirst <==> Position() > Start())
        && Position() >= Start()
        && (byteIdx > 0 || bitmapIdx == startBitmap ==> bitmapIdx < Stop() && currpa < end)
        && (bitmapIdx < g.numBitmaps ==>
              Stop() == if byteIdx == 0 then StopBitmap(g, end, bitmapIdx, currpa)
                        else StopBitmap(g, end, bitmapIdx + 1, currpa + g.pageSize))
    }

    /** Catching up with the start, from the first byte on. */
    ghost predicate SecondPass()
      requires InBounds()
      reads this
    {
      && currpa == Times(bitmapIdx, g.pageSize)
      && bitmapIdx <= startBitmap && Position() <= Start()
      && (passedFirst || (StartAddr() == end && Position() == 0))
    }

    ghost predicate Valid()
      reads this
    {
      && InBounds()
      && if end == 0 then Start() == startByte == 0 && (passedFirst || Position() == byteIdx == 0)
         else if wrapped then SecondPass()
         else FirstPass()
    }

    /** The bytes still to be visited, in order. */
    ghost function Remaining(): seq<nat>
      requires Valid()
      reads this
    {
      StopAfter(g, startBitmap, startByte, Stop());
      if end == 0 then (if passedFirst then [] else [0])
      else if wrapped then UpTo(Position(), Start())
      else if StartAddr() == end then UpTo(0, Start())
      else
        PositionInPass();
        UpTo(Position(), Times(Stop(), g.bitmapBytes)) + UpTo(0, Start())
    }

    /** A start at address 0 is the first byte. */
    lemma AtZero()
      requires InBounds() && StartAddr() == 0
      ensures startBitmap == startByte == 0 && Start() == 0
    {
      TimesLess(0, 8 * Start(), g.pageSize);
      TimesAtLeast(startBitmap, g.bitmapBytes);
    }

    lemma PositionInPass()
      requires Valid() && end > 0 && !wrapped && StartAddr() < end
      ensures Position() <= Times(Stop(), g.bitmapBytes)
    {
      if bitmapIdx < Stop() {
        TimesOrder(bitmapIdx, Stop(), g.bitmapBytes);
      }
    }

    /** The first pass ends exactly at its stop bitmap, and the second pass never wraps. */
    lemma WrapsAtStop()
      requires Valid() && end > 0
      ensures bitmapIdx >= g.numBitmaps || currpa >= end <==> !wrapped && (StartAddr() == end || bitmapIdx == Stop())
    {
      if wrapped && bitmapIdx > 0 {
        TimesAtLeast(startBitmap, g.bitmapBytes);
        TimesLess(bitmapIdx, 8 * Start(), g.pageSize);
      }
    }

    /** Cycle back to the first byte. */
    method Wrap()
      requires Valid() && (end > 0 ==> !wrapped && (StartAddr() == end || bitmapIdx == Stop()))
      modifies this
      ensures Valid() && wrapped && bitmapIdx == byteIdx == 0 && passedFirst == old(passedFirst)
      ensures Remaining() == old(Remaining())
    {
      StopAfter(g, startBitmap, startByte, Stop());
      assert end > 0 && StartAddr() < end ==> byteIdx == 0 && Remaining() == UpTo(0, Start());
      bitmapIdx := 0;
      byteIdx := 0;
      currpa := 0;
      wrapped := true;
    }

    /** One byte further, and one page further at the end of a bitmap. */
    twostate predicate Moved()
      reads this
    {
      && passedFirst && wrapped == old(wrapped)
      && if old(byteIdx) + 1 >= g.bitmapBytes
         then byteIdx == 0 && bitmapIdx == old(bitmapIdx) + 1 && currpa == old(currpa) + g.pageSize
         else byteIdx == old(byteIdx) + 1 && bitmapIdx == old(bitmapIdx) && currpa == old(currpa)
    }

    twostate lemma FirstPassMoved()
      requires old(Valid()) && end > 0 && !old(wrapped) && StartAddr() < end && Moved()
      requires old(bitmapIdx) < Stop() && old(currpa) < end
      ensures Valid() && old(Remaining()) == [old(Position())] + Remaining()
    {
      StopAfter(g, old(bitmapIdx), old(byteIdx), Stop());
      UpToCons(old(Position()), Times(Stop(), g.bitmapBytes), UpTo(0, Start()));
      assert Position() == old(Position()) + 1;
    }

    twostate lemma SecondPassMoved()
      requires old(Valid()) && end > 0 && old(wrapped) && old(Position()) < Start() && Moved()
      ensures Valid() && old(Remaining()) == [old(Position())] + Remaining()
    {
      BeforeStart(old(bitmapIdx), old(byteIdx), startBitmap, startByte, g.bitmapBytes);
      UpToCons(old(Position()), Start(), []);
      assert Position() == old(Position()) + 1;
    }

    /** Whether anything is left, once the scan has wrapped if it had to. */
    lemma Ahead()
      requires Valid() && (end == 0 ==> Position() == bitmapIdx == byteIdx == 0)
      requires end > 0 ==> bitmapIdx < g.numBitmaps && currpa < end
      ensures passedFirst && bitmapIdx == startBitmap && byteIdx == startByte <==> Remaining() == []
      ensures Remaining() != [] ==>
                && Remaining()[0] == Position() && bitmapIdx < g.numBitmaps
                && g.Row(Position()) == bitmapIdx && g.Col(Position()) == byteIdx
                && (end > 0 && wrapped ==> Position() < Start())
                && (end > 0 && !wrapped ==> StartAddr() < end && bitmapIdx < Stop())
    {
      QuotRemOf(startBitmap, startByte, g.bitmapBytes);
      QuotRemOf(bitmapIdx, byteIdx, g.bitmapBytes);
      if end > 0 {
        WrapsAtStop();
        if !wrapped {
          StopAfter(g, bitmapIdx, byteIdx, Stop());
        }
      } else {
        AtZero();
      }
    }

    method Next() returns (r: Option<ByteIndices>)
      requires Valid()
      modifies this
      ensures Valid()
      ensures r.None? <==> old(Remaining()) == []
      ensures r.None? ==> Remaining() == []
      ensures r.Some? ==>
                && g.Row(old(Remaining())[0]) == r.value.bitmap && g.Col(old(Remaining())[0]) == r.value.byte
                && r.value.bitmap < g.numBitmaps && r.value.byte < g.bitmapBytes
                && Remaining() == old(Remaining())[1..]
    {
      if end > 0 {
        WrapsAtStop();
      }
      if bitmapIdx >= g.numBitmaps || currpa >= end {
        Wrap();
      }
      Ahead();
      if passedFirst && bitmapIdx == startBitmap && byteIdx == startByte {
        return None;
      }
      r := Some(ByteIndices(bitmapIdx, byteIdx));
      Advance();
    }

    /** Step to the next byte. */
    method Advance()
      requires Valid() && (end == 0 ==> !passedFirst && Position() == 0)
      requires end > 0 && wrapped ==> Position() < Start()
      requires end > 0 && !wrapped ==> StartAddr() < end && bitmapIdx < Stop()
      modifies this
      ensures Valid()
      ensures old(Remaining()) == [old(Position())] + Remaining()
    {
      if end > 0 {
        WrapsAtStop();
      }
      passedFirst := true;
      byteIdx := byteIdx + 1;
      if byteIdx >= g.bitmapBytes {
        byteIdx := 0;
        bitmapIdx := bitmapIdx + 1;
        currpa := currpa + g.pageSize;
      }
      if end > 0 && wrapped {
        SecondPassMoved();
      } else if end > 0 {
        FirstPassMoved();
      }
    }
  }

  lemma BeforeStart(b: nat, y: nat, b1: nat, y1: nat, s: nat)
    requires y < s && y1 < s && Times(b, s) + y < Times(b1, s) + y1
    ensures b <= b1 && (y + 1 >= s ==> b + 1 <= b1)
  {
    if b1 < b {
      TimesOrder(b1, b, s);
    }
  }
}
