/**
 The shape of the bitmap page allocator (port/src/bitmapalloc.rs): which bit of
 which byte of which bitmap stands for a page, and what setting a bit does.

 Pages and bytes are also numbered consecutively over all bitmaps: page `p` is bit
 `p % 8` of byte `p / 8`, and byte `c` is byte `Col(c)` of bitmap `Row(c)`.
 */
module BitmapGeometry {
  import opened Bits
  import opened Mem
  import opened Repeated

  type Byte = x: nat | x < 256

  datatype Geometry = Geometry(numBitmaps: nat, bitmapBytes: nat, pageSize: U64) {

    predicate Formed() {
      numBitmaps >= 1 && bitmapBytes >= 1 && pageSize >= 1
    }

    predicate Valid() {
      Formed() && IsPow2(pageSize) && MaxBytes() + pageSize <= U64_LIMIT
    }

    function NumBytes(): nat {
      Times(numBitmaps, bitmapBytes)
    }

    function NumPages(): nat {
      8 * NumBytes()
    }

    /** The address of page `p`. */
    function PageAddr(p: nat): nat {
      Times(p, pageSize)
    }

    /** The physical memory covered by all bitmaps. */
    function MaxBytes(): nat {
      PageAddr(NumPages())
    }

    function Row(c: nat): nat
      requires Formed()
    {
      Quot(c, bitmapBytes)
    }

    function Col(c: nat): nat
      requires Formed()
    {
      Rem(c, bitmapBytes)
    }

    predicate IsPageAddr(pa: nat)
      requires Formed()
    {
      Rem(pa, pageSize) == 0
    }

    function PageOf(pa: nat): nat
      requires Formed()
    {
      Quot(pa, pageSize)
    }

    /** The bitmap, the byte in it and the bit in that byte for a page address. */
    function PhysAddrAsIndices(pa: nat): (nat, nat, nat)
      requires Formed()
    {
      var p := PageOf(pa);
      (Row(p / 8), Col(p / 8), p % 8)
    }

    function IndicesAsPhysAddr(bitmapIdx: nat, byteIdx: nat, bitIdx: nat): nat {
      PageAddr(8 * (Times(bitmapIdx, bitmapBytes) + byteIdx) + bitIdx)
    }
  }

  // ----- the source's arithmetic

  /** `max_bytes`, `bytes_per_bitmap` and `bytes_per_bitmap_byte` as the source multiplies them. */
  lemma MaxBytesProduct(g: Geometry)
    ensures g.MaxBytes() == g.numBitmaps * (g.bitmapBytes * (8 * g.pageSize))
  {
    var n, s, ps := g.numBitmaps, g.bitmapBytes, g.pageSize;
    TimesIsMul(n, s);
    TimesIsMul(8 * Times(n, s), ps);
    IndicesSum(n, 0, 0, s, ps);
  }

  /** The quotients and remainders by which the source finds the indices of an aligned address. */
  lemma PhysAddrAsIndicesArithmetic(g: Geometry, pa: nat)
    requires g.Formed() && pa % g.pageSize == 0
    ensures g.bitmapBytes * (8 * g.pageSize) > 0
    ensures var perByte := 8 * g.pageSize;
            var perBitmap := g.bitmapBytes * perByte;
            var offset := pa % perBitmap;
            var byteIdx := offset / perByte;
            g.PhysAddrAsIndices(pa) == (pa / perBitmap, byteIdx, (offset - byteIdx * perByte) / g.pageSize)
  {
    var p := pa / g.pageSize;
    assert pa == p * g.pageSize;
    QuotRemIsDivMod(pa, g.pageSize);
    QuotRemIsDivMod(p / 8, g.bitmapBytes);
    DigitIndices(g.bitmapBytes, g.pageSize, p);
  }

  /** The sum by which the source computes the address of indices. */
  lemma IndicesAsPhysAddrArithmetic(g: Geometry, b: nat, y: nat, k: nat)
    ensures g.IndicesAsPhysAddr(b, y, k)
         == b * (g.bitmapBytes * (8 * g.pageSize)) + y * (8 * g.pageSize) + k * g.pageSize
  {
    TimesIsMul(b, g.bitmapBytes);
    TimesIsMul(8 * (b * g.bitmapBytes + y) + k, g.pageSize);
    IndicesSum(b, y, k, g.bitmapBytes, g.pageSize);
  }

  lemma IndicesSum(b: nat, y: nat, k: nat, s: nat, ps: nat)
    ensures b * (s * (8 * ps)) + y * (8 * ps) + k * ps == (8 * (b * s + y) + k) * ps
  {
    assert b * (s * (8 * ps)) == 8 * ((b * s) * ps) by {
      assert s * (8 * ps) == 8 * (s * ps);
      assert b * (8 * (s * ps)) == 8 * (b * (s * ps));
      assert b * (s * ps) == (b * s) * ps;
    }
    assert y * (8 * ps) == 8 * (y * ps);
    assert (8 * (b * s + y) + k) * ps == 8 * ((b * s + y) * ps) + k * ps;
    assert (b * s + y) * ps == (b * s) * ps + y * ps;
  }

  lemma DigitIndices(s: nat, ps: nat, p: nat)
    requires s >= 1 && ps >= 1
    ensures var u := 8 * ps;
            && u > 0 && s * u > 0
            && var offset := p * ps % (s * u);
               && p * ps / (s * u) == p / 8 / s
               && offset / u == p / 8 % s
               && 0 <= offset - offset / u * u
               && (offset - offset / u * u) / ps == p % 8
  {
    var b, y, k := p / 8 / s, p / 8 % s, p % 8;
    var u := 8 * ps;
    IndicesSum(b, y, k, s, ps);
    assert p / 8 == b * s + y;
    SmallDigit(k, 8, ps, 0);
    SmallDigit(y, s, u, k * ps);
    DivModUnique(p * ps, s * u, b, y * u + k * ps);
    DivModUnique(y * u + k * ps, u, y, k * ps);
    DivModUnique(k * ps, ps, k, 0);
  }

  lemma SmallDigit(d: nat, n: nat, w: nat, r: nat)
    requires d < n && r < w
    ensures d * w + r < n * w
  {
    assert (d + 1) * w <= n * w;
    assert (d + 1) * w == d * w + w;
  }

  // ----- the two conversions are inverse

  lemma IndicesRoundTrip(g: Geometry, pa: nat)
    requires g.Formed() && g.IsPageAddr(pa)
    ensures var (b, y, k) := g.PhysAddrAsIndices(pa);
            && y < g.bitmapBytes && k < 8
            && g.IndicesAsPhysAddr(b, y, k) == pa == g.PageAddr(g.PageOf(pa))
            && (pa < g.MaxBytes() <==> b < g.numBitmaps)
            && (pa < g.MaxBytes() <==> g.PageOf(pa) < g.NumPages())
  {
    var p := g.PageOf(pa);
    QuotRem(pa, g.pageSize);
    QuotRem(p / 8, g.bitmapBytes);
    TimesLess(p, g.NumPages(), g.pageSize);
    ByteBound(g, p / 8);
  }

  lemma AddrRoundTrip(g: Geometry, b: nat, y: nat, k: nat)
    requires g.Formed() && y < g.bitmapBytes && k < 8
    ensures var pa := g.IndicesAsPhysAddr(b, y, k);
            g.IsPageAddr(pa) && g.PhysAddrAsIndices(pa) == (b, y, k)
  {
    var c := Times(b, g.bitmapBytes) + y;
    QuotRemOf(8 * c + k, 0, g.pageSize);
    QuotRemOf(b, y, g.bitmapBytes);
  }

  lemma PageAddrOf(g: Geometry, p: nat)
    requires g.Formed()
    ensures g.IsPageAddr(g.PageAddr(p)) && g.PageOf(g.PageAddr(p)) == p
    ensures g.PageAddr(p) < g.MaxBytes() <==> p < g.NumPages()
  {
    QuotRemOf(p, 0, g.pageSize);
    TimesLess(p, g.NumPages(), g.pageSize);
  }

  lemma ByteBound(g: Geometry, c: nat)
    requires g.Formed()
    ensures c < g.NumBytes() <==> g.Row(c) < g.numBitmaps
  {
    QuotRem(c, g.bitmapBytes);
    if g.Row(c) < g.numBitmaps {
      TimesOrder(g.Row(c), g.numBitmaps, g.bitmapBytes);
    } else {
      TimesLess(g.numBitmaps, g.Row(c), g.bitmapBytes);
    }
  }

  lemma SameByte(g: Geometry, c: nat, d: nat)
    requires g.Formed() && g.Row(c) == g.Row(d) && g.Col(c) == g.Col(d)
    ensures c == d
  {
    QuotRem(c, g.bitmapBytes);
    QuotRem(d, g.bitmapBytes);
  }

  // ----- bits

  type Bitmaps = seq<seq<Byte>>

  predicate Shaped(g: Geometry, bm: Bitmaps) {
    |bm| == g.numBitmaps && forall b | 0 <= b < |bm| :: |bm[b]| == g.bitmapBytes
  }

  function ByteOf(g: Geometry, bm: Bitmaps, c: nat): Byte
    requires g.Formed() && Shaped(g, bm) && c < g.NumBytes()
  {
    ByteBound(g, c);
    bm[g.Row(c)][g.Col(c)]
  }

  /** Page `p` is marked allocated. */
  predicate Used(g: Geometry, bm: Bitmaps, p: nat)
    requires g.Formed() && Shaped(g, bm) && p < g.NumPages()
  {
    BitAt(ByteOf(g, bm, p / 8), p % 8)
  }

  /** `Bitmap::is_set`. */
  predicate IsSet(bitmap: seq<Byte>, i: nat)
    requires i < 8 * |bitmap|
  {
    And(bitmap[i / 8], Shl(1, i % 8)) > 0
  }

  function WithBit(x: Byte, k: nat, v: bool): (r: Byte)
    requires k < 8
    ensures forall j | 0 <= j < 8 :: BitAt(r, j) <==> if j == k then v else BitAt(x, j)
  {
    WithBitAt(x, k, v);
    if v then Or(x, Shl(1, k)) else And(x, 255 - Shl(1, k))
  }

  lemma WithBitAt(x: Byte, k: nat, v: bool)
    requires k < 8
    ensures Shl(1, k) < 256
    ensures var r := if v then Or(x, Shl(1, k)) else And(x, 255 - Shl(1, k));
            r < 256 && forall j | 0 <= j < 8 :: BitAt(r, j) <==> if j == k then v else BitAt(x, j)
  {
    assert Pow2(8) == 256;
    Pow2Monotone(k, 7);
    assert Shl(1, k) == Pow2(k);
    OrBound(x, Pow2(k), 8);
    AndBound(x, 255 - Pow2(k));
    var r := if v then Or(x, Shl(1, k)) else And(x, 255 - Shl(1, k));
    forall j | 0 <= j < 8
      ensures BitAt(r, j) <==> if j == k then v else BitAt(x, j)
    {
      OrAt(x, Pow2(k), j);
      AndAt(x, 255 - Pow2(k), j);
      NotAt(Pow2(k), 8, j);
      Pow2At(k, j);
    }
  }

  /** `Bitmap::set`. */
  function SetBit(bitmap: seq<Byte>, i: nat, v: bool): seq<Byte>
    requires i < 8 * |bitmap|
  {
    bitmap[i / 8 := WithBit(bitmap[i / 8], i % 8, v)]
  }

  /** Testing and setting bit `8 * Col(c) + k` of bitmap `Row(c)` reads and writes page `8 * c + k`. */
  lemma SetBitPage(g: Geometry, bm: Bitmaps, c: nat, k: nat, v: bool)
    requires g.Formed() && Shaped(g, bm) && c < g.NumBytes() && k < 8
    ensures var b, y := g.Row(c), g.Col(c);
            && b < |bm| && y < |bm[b]|
            && var bm' := bm[b := SetBit(bm[b], 8 * y + k, v)];
            && Shaped(g, bm')
            && (IsSet(bm[b], 8 * y + k) <==> Used(g, bm, 8 * c + k))
            && (forall q | 0 <= q < g.NumPages() :: Used(g, bm', q) <==> if q == 8 * c + k then v else Used(g, bm, q))
  {
    ByteBound(g, c);
    IsSetPage(g, bm, c, k);
    var b, y := g.Row(c), g.Col(c);
    var bm' := bm[b := SetBit(bm[b], 8 * y + k, v)];
    forall q | 0 <= q < g.NumPages()
      ensures Used(g, bm', q) <==> if q == 8 * c + k then v else Used(g, bm, q)
    {
      SetBitByte(g, bm, c, k, v, q / 8);
    }
  }

  lemma IsSetPage(g: Geometry, bm: Bitmaps, c: nat, k: nat)
    requires g.Formed() && Shaped(g, bm) && c < g.NumBytes() && k < 8
    ensures g.Row(c) < |bm| && 8 * g.Col(c) + k < 8 * |bm[g.Row(c)]|
    ensures IsSet(bm[g.Row(c)], 8 * g.Col(c) + k) <==> Used(g, bm, 8 * c + k)
  {
    ByteBound(g, c);
    assert Shl(1, k) == Pow2(k);
    AndPow2(ByteOf(g, bm, c), k);
    assert (8 * c + k) / 8 == c && (8 * c + k) % 8 == k;
    var y := g.Col(c);
    assert (8 * y + k) / 8 == y && (8 * y + k) % 8 == k;
  }

  lemma SetBitByte(g: Geometry, bm: Bitmaps, c: nat, k: nat, v: bool, d: nat)
    requires g.Formed() && Shaped(g, bm) && c < g.NumBytes() && k < 8 && d < g.NumBytes()
    ensures var b, y := g.Row(c), g.Col(c);
            && b < |bm| && y < |bm[b]|
            && var bm' := bm[b := SetBit(bm[b], 8 * y + k, v)];
            && Shaped(g, bm')
            && ByteOf(g, bm', d) == if d == c then WithBit(ByteOf(g, bm, d), k, v) else ByteOf(g, bm, d)
  {
    ByteBound(g, c);
    ByteBound(g, d);
    SetBitAt(bm[g.Row(c)], g.Col(c), k, v);
    if g.Row(c) == g.Row(d) && g.Col(c) == g.Col(d) {
      SameByte(g, c, d);
    }
  }

  lemma SetBitAt(bitmap: seq<Byte>, y: nat, k: nat, v: bool)
    requires y < |bitmap| && k < 8
    ensures var r := SetBit(bitmap, 8 * y + k, v);
            |r| == |bitmap| && forall j | 0 <= j < |r| :: r[j] == if j == y then WithBit(bitmap[y], k, v) else bitmap[j]
  {
    assert (8 * y + k) / 8 == y && (8 * y + k) % 8 == k;
  }

  // ----- sets of pages

  /** The pages that are marked free. */
  function FreePages(g: Geometry, bm: Bitmaps): set<nat>
    requires g.Formed() && Shaped(g, bm)
  {
    set p | 0 <= p < g.NumPages() && !Used(g, bm, p)
  }

  /** Setting one bit takes its page out of the free set, clearing it puts the page in. */
  lemma SetBitFree(g: Geometry, bm: Bitmaps, c: nat, k: nat, v: bool)
    requires g.Formed() && Shaped(g, bm) && c < g.NumBytes() && k < 8
    ensures var b, y, p := g.Row(c), g.Col(c), 8 * c + k;
            && b < |bm| && y < |bm[b]|
            && (IsSet(bm[b], 8 * y + k) <==> p !in FreePages(g, bm))
            && var bm' := bm[b := SetBit(bm[b], 8 * y + k, v)];
            && Shaped(g, bm')
            && FreePages(g, bm') == if v then FreePages(g, bm) - {p} else FreePages(g, bm) + {p}
  {
    SetBitPage(g, bm, c, k, v);
  }

  /** The pages of the address range from `lo` up to `hi`. */
  function PagesIn(g: Geometry, lo: nat, hi: nat): set<nat> {
    set p | 0 <= p < g.NumPages() && lo <= g.PageAddr(p) < hi
  }
}
