/**
 The 64-bit descriptor word of an entry, with the bit ranges that the bitstruct
 of aarch64/src/vm.rs declares: `Encode` and `Decode` are inverse bijections.
 */
module DescriptorBits {
  import opened Bits
  import opened Mem
  import opened Descriptor

  function Bit(b: bool): U1 {
    if b then 1 else 0
  }

  /** Bits 0 to 11. */
  function EncodeLow(e: Entry): (w: nat)
    ensures w < 0x1000
  {
    Bit(e.valid) + 2 * Bit(e.pageOrTable) + 4 * e.mairIndex + 0x20 * Bit(e.nonSecure) + 0x40 * e.accessPermission
    + 0x100 * e.shareable + 0x400 * Bit(e.accessed) + 0x800 * e.bit11
  }

  /** Bits 48 to 63. */
  function EncodeHigh(e: Entry): (w: nat)
    ensures w < 0x1_0000
  {
    e.bits48 + 0x20 * Bit(e.pxn) + 0x40 * Bit(e.uxn) + 0x80 * e.bits55
  }

  function Encode(e: Entry): (w: U64)
    ensures w % 0x1000 == EncodeLow(e)
    ensures w / 0x1000 % 0x10_0000_0000 == e.addr
    ensures w / 0x1_0000_0000_0000 == EncodeHigh(e)
  {
    Split(EncodeLow(e), e.addr, EncodeHigh(e));
    EncodeLow(e) + 0x1000 * e.addr + 0x1_0000_0000_0000 * EncodeHigh(e)
  }

  lemma Split(lo: nat, mid: nat, hi: nat)
    requires lo < 0x1000 && mid < 0x10_0000_0000 && hi < 0x1_0000
    ensures var w := lo + 0x1000 * mid + 0x1_0000_0000_0000 * hi;
            w % 0x1000 == lo && w / 0x1000 % 0x10_0000_0000 == mid && w / 0x1_0000_0000_0000 == hi
  {
  }

  function Decode(w: U64): Entry {
    DecodeParts(w % 0x1000, w / 0x1000 % 0x10_0000_0000, w / 0x1_0000_0000_0000)
  }

  function DecodeParts(lo: nat, mid: Frame, hi: nat): Entry
    requires lo < 0x1000 && hi < 0x1_0000
  {
    Entry(lo % 2 == 1, lo / 2 % 2 == 1, lo / 4 % 8, lo / 0x20 % 2 == 1, lo / 0x40 % 4, lo / 0x100 % 4,
          lo / 0x400 % 2 == 1, lo / 0x800,
          mid,
          hi % 0x20, hi / 0x20 % 2 == 1, hi / 0x40 % 2 == 1, hi / 0x80)
  }

  /** The declared bit ranges do not overlap. */
  lemma DecodeEncode(e: Entry)
    ensures Decode(Encode(e)) == e
  {
    LowFields(Bit(e.valid), Bit(e.pageOrTable), e.mairIndex, Bit(e.nonSecure), e.accessPermission, e.shareable,
              Bit(e.accessed), e.bit11);
    HighFields(e.bits48, Bit(e.pxn), Bit(e.uxn), e.bits55);
  }

  lemma LowFields(a: U1, b: U1, c: U3, d: U1, e: U2, f: U2, g: U1, h: U1)
    ensures var lo := a + 2 * b + 4 * c + 0x20 * d + 0x40 * e + 0x100 * f + 0x400 * g + 0x800 * h;
            && lo % 2 == a && lo / 2 % 2 == b && lo / 4 % 8 == c && lo / 0x20 % 2 == d && lo / 0x40 % 4 == e
            && lo / 0x100 % 4 == f && lo / 0x400 % 2 == g && lo / 0x800 == h
  {
    var lo := a + 2 * b + 4 * c + 0x20 * d + 0x40 * e + 0x100 * f + 0x400 * g + 0x800 * h;
    assert lo / 0x800 == h;
    assert lo / 0x400 == g + 2 * h;
    assert lo / 0x100 == f + 4 * (g + 2 * h);
    assert lo / 0x40 == e + 4 * (f + 4 * (g + 2 * h));
    assert lo / 0x20 == d + 2 * (e + 4 * (f + 4 * (g + 2 * h)));
    assert lo / 4 == c + 8 * (d + 2 * (e + 4 * (f + 4 * (g + 2 * h))));
    assert lo / 2 == b + 2 * (c + 8 * (d + 2 * (e + 4 * (f + 4 * (g + 2 * h)))));
  }

  lemma HighFields(a: U5, b: U1, c: U1, d: U9)
    ensures var hi := a + 0x20 * b + 0x40 * c + 0x80 * d;
            hi % 0x20 == a && hi / 0x20 % 2 == b && hi / 0x40 % 2 == c && hi / 0x80 == d
  {
    var hi := a + 0x20 * b + 0x40 * c + 0x80 * d;
    assert hi / 0x80 == d;
    assert hi / 0x40 == c + 2 * d;
    assert hi / 0x20 == b + 2 * (c + 2 * d);
  }

  /** The declared bit ranges leave no bit out. */
  lemma EncodeDecode(w: U64)
    ensures Encode(Decode(w)) == w
  {
    LowSum(w % 0x1000);
    HighSum(w / 0x1_0000_0000_0000);
    Digit(w, 0x1000, 0x10_0000_0000);
    assert EncodeLow(Decode(w)) == w % 0x1000;
    assert EncodeHigh(Decode(w)) == w / 0x1_0000_0000_0000;
  }

  lemma LowSum(lo: nat)
    requires lo < 0x1000
    ensures lo == lo % 2 + 2 * (lo / 2 % 2) + 4 * (lo / 4 % 8) + 0x20 * (lo / 0x20 % 2) + 0x40 * (lo / 0x40 % 4)
                  + 0x100 * (lo / 0x100 % 4) + 0x400 * (lo / 0x400 % 2) + 0x800 * (lo / 0x800)
  {
    Digit(lo, 2, 2);
    Digit(lo, 4, 8);
    Digit(lo, 0x20, 2);
    Digit(lo, 0x40, 4);
    Digit(lo, 0x100, 4);
    Digit(lo, 0x400, 2);
  }

  lemma HighSum(hi: nat)
    requires hi < 0x1_0000
    ensures hi == hi % 0x20 + 0x20 * (hi / 0x20 % 2) + 0x40 * (hi / 0x40 % 2) + 0x80 * (hi / 0x80)
  {
    assert hi / 0x20 == hi / 0x20 % 2 + 2 * (hi / 0x40);
    assert hi / 0x40 == hi / 0x40 % 2 + 2 * (hi / 0x80);
  }

  /** The bits of a word from `lo` up to, but excluding, `hi`. */
  function Field(w: nat, lo: nat, hi: nat): nat
    requires lo < hi
  {
    w / Pow2(lo) % Pow2(hi - lo)
  }

  /** Each field stands in the bits that the source declares for it. */
  lemma FieldBits(e: Entry)
    ensures var w := Encode(e);
            && Field(w, 0, 1) == Bit(e.valid) && Field(w, 1, 2) == Bit(e.pageOrTable) && Field(w, 2, 5) == e.mairIndex
            && Field(w, 5, 6) == Bit(e.nonSecure) && Field(w, 6, 8) == e.accessPermission
            && Field(w, 8, 10) == e.shareable && Field(w, 10, 11) == Bit(e.accessed)
            && Field(w, 12, 48) == e.addr && Field(w, 53, 54) == Bit(e.pxn) && Field(w, 54, 55) == Bit(e.uxn)
  {
    var w := Encode(e);
    LowFields(Bit(e.valid), Bit(e.pageOrTable), e.mairIndex, Bit(e.nonSecure), e.accessPermission, e.shareable,
              Bit(e.accessed), e.bit11);
    HighFields(e.bits48, Bit(e.pxn), Bit(e.uxn), e.bits55);
    Pow2Positions();
    LowBits(w, w % 0x1000, w / 0x1000);
    HighBits(w, w / 0x1_0000_0000_0000);
  }

  lemma Pow2Positions()
    ensures Pow2(0) == 1 && Pow2(1) == 2 && Pow2(2) == 4 && Pow2(3) == 8 && Pow2(5) == 0x20 && Pow2(6) == 0x40
    ensures Pow2(8) == 0x100 && Pow2(10) == 0x400 && Pow2(12) == 0x1000 && Pow2(36) == 0x10_0000_0000
    ensures Pow2(53) == 0x20_0000_0000_0000 && Pow2(54) == 0x40_0000_0000_0000
  {
    Pow2Constants();
  }

  lemma LowBits(w: nat, lo: nat, rest: nat)
    requires lo < 0x1000 && w == lo + 0x1000 * rest
    ensures w % 2 == lo % 2 && w / 2 % 2 == lo / 2 % 2 && w / 4 % 8 == lo / 4 % 8 && w / 0x20 % 2 == lo / 0x20 % 2
    ensures w / 0x40 % 4 == lo / 0x40 % 4 && w / 0x100 % 4 == lo / 0x100 % 4 && w / 0x400 % 2 == lo / 0x400 % 2
  {
    LowField(w, lo, rest, 1, 2, 0x800);
    LowField(w, lo, rest, 2, 2, 0x400);
    LowField(w, lo, rest, 4, 8, 0x80);
    LowField(w, lo, rest, 0x20, 2, 0x40);
    LowField(w, lo, rest, 0x40, 4, 0x10);
    LowField(w, lo, rest, 0x100, 4, 4);
    LowField(w, lo, rest, 0x400, 2, 2);
  }

  lemma LowField(w: nat, lo: nat, rest: nat, d: nat, n: nat, k: nat)
    requires d > 0 && n > 0 && d * (n * k) == 0x1000 && w == lo + 0x1000 * rest
    ensures w / d % n == lo / d % n
  {
    assert d * (n * (k * rest)) == d * (n * k) * rest;
    MulDistributes(d, lo / d, n * (k * rest));
    DivModUnique(w, d, lo / d + n * (k * rest), lo % d);
    ModShift(lo / d, n, k * rest);
  }

  lemma HighBits(w: nat, hi: nat)
    requires hi == w / 0x1_0000_0000_0000
    ensures w / 0x20_0000_0000_0000 == hi / 0x20 && w / 0x40_0000_0000_0000 == hi / 0x40
  {
    Digit(w, 0x1_0000_0000_0000, 0x20);
    Digit(w, 0x1_0000_0000_0000, 0x40);
  }

  /** The word that `next_mut` writes for a new table in frame `f`. */
  lemma TableWord(f: Frame)
    ensures Encode(TableEntry(f)) == 0x60_0000_0000_0703 + 0x1000 * f
  {
  }
}
