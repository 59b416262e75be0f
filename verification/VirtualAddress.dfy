/**
 The index arithmetic of virtual addresses (aarch64/src/vm.rs, `va_index` and
 `recursive_table_addr`).
 */
module VirtualAddress {
  import opened Wrappers
  import opened Bits
  import opened Mem
  import opened PageTable

  type VirtAddr = U64

  datatype Level = Level0 | Level1 | Level2 | Level3 {
    function Next(): Option<Level> {
      match this
      case Level0 => Some(Level1)
      case Level1 => Some(Level2)
      case Level2 => Some(Level3)
      case Level3 => None
    }

    function Depth(): nat {
      match this
      case Level0 => 0
      case Level1 => 1
      case Level2 => 2
      case Level3 => 3
    }
  }

  /** The bytes of address space that one entry at depth `d` stands for. */
  function BlockSize(d: nat): (s: nat)
    requires d < 4
    ensures s > 0
  {
    match d
    case 0 => 0x80_0000_0000
    case 1 => PAGE_SIZE_1G
    case 2 => PAGE_SIZE_2M
    case 3 => PAGE_SIZE_4K
  }

  /** Addresses translated by ttbr1. */
  predicate IsHigh(va: VirtAddr) {
    va / 0x1_0000_0000_0000 == 0xffff
  }

  /** The index of `va`'s entry in a table at `level`. */
  function VaIndex(va: VirtAddr, level: Level): Index {
    match level
    case Level0 => va / 0x80_0000_0000 % 512
    case Level1 => va / PAGE_SIZE_1G % 512
    case Level2 => va / PAGE_SIZE_2M % 512
    case Level3 => va / PAGE_SIZE_4K % 512
  }

  /** Where in its block at depth `d` an address lies. */
  function BlockOffset(x: nat, d: nat): nat
    requires d < 4
  {
    match d
    case 0 => x % 0x80_0000_0000
    case 1 => x % PAGE_SIZE_1G
    case 2 => x % PAGE_SIZE_2M
    case 3 => x % PAGE_SIZE_4K
  }

  /** The source's shift and mask compute that index. */
  lemma {:induction false} VaIndexBits(va: VirtAddr, level: Level)
    ensures VaIndex(va, level) == match level
      case Level0 => And(Shr(va, 39), 0x1ff)
      case Level1 => And(Shr(va, 30), 0x1ff)
      case Level2 => And(Shr(va, 21), 0x1ff)
      case Level3 => And(Shr(va, 12), 0x1ff)
  {
    Pow2Constants();
    match level
    case Level0 => LowNine(va / 0x80_0000_0000);
    case Level1 => LowNine(va / PAGE_SIZE_1G);
    case Level2 => LowNine(va / PAGE_SIZE_2M);
    case Level3 => LowNine(va / PAGE_SIZE_4K);
  }

  lemma {:induction false} LowNine(x: nat)
    ensures And(x, 0x1ff) == x % 512
  {
    Pow2Constants();
    AndLow(x, 9);
  }

  function Indices(va: VirtAddr): (idx: Path)
    ensures |idx| == 4
  {
    [VaIndex(va, Level0), VaIndex(va, Level1), VaIndex(va, Level2), VaIndex(va, Level3)]
  }

  /** The number with four base-512 digits between the high part `h` and the offset `o`. */
  function Compose(h: nat, i0: nat, i1: nat, i2: nat, i3: nat, o: nat): nat {
    0x1_0000_0000_0000 * h + 0x80_0000_0000 * i0 + 0x4000_0000 * i1 + 0x20_0000 * i2 + 0x1000 * i3 + o
  }

  /**
   The virtual address of the table at `level` for `va`, through the recursive
   slot: the indices of `va` shifted down behind 511s.
   */
  function RecursiveTableAddr(va: VirtAddr, level: Level): (r: VirtAddr)
    ensures IsHigh(r) && r % 0x1000 == 0
    ensures Indices(r) == Repeat(4 - level.Depth()) + Indices(va)[..level.Depth()]
  {
    var i := Indices(va);
    match level
    case Level0 =>
      IndicesOfCompose(0xffff, 511, 511, 511, 511, 0);
      Compose(0xffff, 511, 511, 511, 511, 0)
    case Level1 =>
      IndicesOfCompose(0xffff, 511, 511, 511, i[0], 0);
      Compose(0xffff, 511, 511, 511, i[0], 0)
    case Level2 =>
      IndicesOfCompose(0xffff, 511, 511, i[0], i[1], 0);
      Compose(0xffff, 511, 511, i[0], i[1], 0)
    case Level3 =>
      IndicesOfCompose(0xffff, 511, i[0], i[1], i[2], 0);
      Compose(0xffff, 511, i[0], i[1], i[2], 0)
  }

  lemma DivChain(x: nat)
    ensures x / 0x20_0000 == x / 0x1000 / 512
    ensures x / 0x4000_0000 == x / 0x20_0000 / 512
    ensures x / 0x80_0000_0000 == x / 0x4000_0000 / 512
    ensures x / 0x1_0000_0000_0000 == x / 0x80_0000_0000 / 512
  {
    Digit(x, 0x1000, 512);
    Digit(x, 0x20_0000, 512);
    Digit(x, 0x4000_0000, 512);
    Digit(x, 0x80_0000_0000, 512);
  }

  lemma IndicesOfCompose(h: nat, i0: nat, i1: nat, i2: nat, i3: nat, o: nat)
    requires h < 0x1_0000 && i0 < 512 && i1 < 512 && i2 < 512 && i3 < 512 && o < 0x1000
    ensures var va := Compose(h, i0, i1, i2, i3, o);
            && va < U64_LIMIT
            && va / 0x1_0000_0000_0000 == h && va % 0x1000 == o && Indices(va) == [i0, i1, i2, i3]
  {
    var va := Compose(h, i0, i1, i2, i3, o);
    DivChain(va);
    var t0 := 512 * h + i0;
    var t1 := 512 * t0 + i1;
    var t2 := 512 * t1 + i2;
    var t3 := 512 * t2 + i3;
    assert va == 0x1000 * t3 + o;
    assert va / 0x1000 == t3 && t3 / 512 == t2 && t2 / 512 == t1 && t1 / 512 == t0 && t0 / 512 == h;
  }

  /** The address of ttbr1's half with the same indices and offset. */
  function HighAlias(va: VirtAddr): (r: VirtAddr)
    ensures IsHigh(r) && Indices(r) == Indices(va) && r % 0x1000 == va % 0x1000
    ensures IsHigh(va) ==> r == va
  {
    var i := Indices(va);
    IndicesOfCompose(0xffff, i[0], i[1], i[2], i[3], va % 0x1000);
    ComposeOfIndices(va);
    Compose(0xffff, i[0], i[1], i[2], i[3], va % 0x1000)
  }

  lemma ComposeOfIndices(va: VirtAddr)
    ensures var i := Indices(va); va == Compose(va / 0x1_0000_0000_0000, i[0], i[1], i[2], i[3], va % 0x1000)
  {
    DivChain(va);
  }

  /** Two high addresses lie in the same block exactly when their indices agree down to its depth. */
  lemma SameBlock(va: VirtAddr, va': VirtAddr, d: nat)
    requires IsHigh(va) && IsHigh(va') && d < 4
    ensures va / BlockSize(d) == va' / BlockSize(d) <==> Indices(va)[..d + 1] <= Indices(va')
  {
    DivChain(va);
    DivChain(va');
    var i, j := Indices(va), Indices(va');
    if d == 0 {
      assert i[..1] <= j <==> i[0] == j[0];
    } else if d == 1 {
      assert i[..2] <= j <==> i[0] == j[0] && i[1] == j[1];
    } else if d == 2 {
      assert i[..3] <= j <==> i[0] == j[0] && i[1] == j[1] && i[2] == j[2];
    } else {
      assert i[..4] <= j <==> i[0] == j[0] && i[1] == j[1] && i[2] == j[2] && i[3] == j[3];
    }
  }

  // ----- the source's bit operations

  const INDICES_MASK: nat := 0x0000_ffff_ffff_f000

  function RecursiveShift(level: Level): nat {
    match level
    case Level0 => 36
    case Level1 => 27
    case Level2 => 18
    case Level3 => 9
  }

  function RecursiveOnes(level: Level): nat {
    match level
    case Level0 => Or(Or(Or(Shl(511, 39), Shl(511, 30)), Shl(511, 21)), Shl(511, 12))
    case Level1 => Or(Or(Shl(511, 39), Shl(511, 30)), Shl(511, 21))
    case Level2 => Or(Shl(511, 39), Shl(511, 30))
    case Level3 => Shl(511, 39)
  }

  /** The sign extension and the 511s before the shifted indices. */
  function HighOnes(level: Level): nat {
    match level
    case Level0 => 0xffff_ffff_ffff_f000
    case Level1 => 0xffff_ffff_ffe0_0000
    case Level2 => 0xffff_ffff_c000_0000
    case Level3 => 0xffff_ff80_0000_0000
  }

  /** The shifts, masks and ors of `recursive_table_addr` compose that address. */
  lemma {:induction false} RecursiveTableAddrBits(va: VirtAddr, level: Level)
    ensures RecursiveTableAddr(va, level)
         == Or(Or(0xffff_0000_0000_0000, RecursiveOnes(level)),
               And(Shr(And(va, INDICES_MASK), RecursiveShift(level)), INDICES_MASK))
  {
    ShiftAndMask(va, level);
    OnesBits(level);
    var i := Indices(va);
    match level {
      case Level0 => OrHigh(level, 0);
      case Level1 => OrHigh(level, Compose(0, 0, 0, 0, i[0], 0));
      case Level2 => OrHigh(level, Compose(0, 0, 0, i[0], i[1], 0));
      case Level3 => OrHigh(level, Compose(0, 0, i[0], i[1], i[2], 0));
    }
  }

  lemma {:induction false} OrHigh(level: Level, b: nat)
    requires b < match level
                 case Level0 => 0x1000
                 case Level1 => 0x20_0000
                 case Level2 => 0x4000_0000
                 case Level3 => 0x80_0000_0000
    ensures Or(HighOnes(level), b) == HighOnes(level) + b
  {
    Pow2Constants();
    match level {
      case Level0 => OrDisjoint(0xf_ffff_ffff_ffff, 12, b);
      case Level1 => OrDisjoint(0x7ff_ffff_ffff, 21, b);
      case Level2 => OrDisjoint(0x3_ffff_ffff, 30, b);
      case Level3 => OrDisjoint(0x1ff_ffff, 39, b);
    }
  }

  lemma {:induction false} ShiftAndMask(va: VirtAddr, level: Level)
    ensures var i := Indices(va);
            And(Shr(And(va, INDICES_MASK), RecursiveShift(level)), INDICES_MASK) == match level
              case Level0 => 0
              case Level1 => Compose(0, 0, 0, 0, i[0], 0)
              case Level2 => Compose(0, 0, 0, i[0], i[1], 0)
              case Level3 => Compose(0, 0, i[0], i[1], i[2], 0)
  {
    var i := Indices(va);
    var x := And(va, INDICES_MASK);
    MaskedIndices(va);
    ShiftDivides(x, level);
    AndMask(Shr(x, RecursiveShift(level)));
    match level {
      case Level0 => Shifted36(i[0], i[1], i[2], i[3]);
      case Level1 => Shifted27(i[0], i[1], i[2], i[3]);
      case Level2 => Shifted18(i[0], i[1], i[2], i[3]);
      case Level3 => Shifted9(i[0], i[1], i[2], i[3]);
    }
  }

  /** Masking leaves the indices. */
  lemma {:induction false} MaskedIndices(va: VirtAddr)
    ensures var i := Indices(va); And(va, INDICES_MASK) == Compose(0, i[0], i[1], i[2], i[3], 0)
  {
    var i := Indices(va);
    var h, o := va / 0x1_0000_0000_0000, va % 0x1000;
    ComposeOfIndices(va);
    AndMask(va);
    DivModUnique(va, 0x1_0000_0000_0000, h, Compose(0, i[0], i[1], i[2], i[3], o));
  }

  lemma {:induction false} ShiftDivides(x: nat, level: Level)
    ensures Shr(x, RecursiveShift(level)) == x / match level
      case Level0 => 0x10_0000_0000
      case Level1 => 0x800_0000
      case Level2 => 0x4_0000
      case Level3 => 0x200
  {
    Pow2Constants();
  }

  lemma {:induction false} AndMask(x: nat)
    ensures And(x, INDICES_MASK) == x % 0x1_0000_0000_0000 - x % 0x1000
  {
    Pow2Constants();
    AndField(x, 48, 12);
  }

  /** Masking a number below 2 to the 48 drops its low twelve bits. */
  lemma {:induction false} MaskDrops(hi: nat, lo: nat)
    requires lo < 0x1000 && 0x1000 * hi + lo < 0x1_0000_0000_0000
    ensures var y := 0x1000 * hi + lo; y % 0x1_0000_0000_0000 - y % 0x1000 == 0x1000 * hi
  {
    var y := 0x1000 * hi + lo;
    DivModUnique(y, 0x1000, hi, lo);
    DivModUnique(y, 0x1_0000_0000_0000, 0, y);
  }

  lemma {:induction false} Shifted9(i0: nat, i1: nat, i2: nat, i3: nat)
    requires i0 < 512 && i1 < 512 && i2 < 512 && i3 < 512
    ensures var y := Compose(0, i0, i1, i2, i3, 0) / 0x200;
            y % 0x1_0000_0000_0000 - y % 0x1000 == Compose(0, 0, i0, i1, i2, 0)
  {
    var hi, lo := 0x4_0000 * i0 + 0x200 * i1 + i2, 8 * i3;
    DivModUnique(Compose(0, i0, i1, i2, i3, 0), 0x200, 0x1000 * hi + lo, 0);
    MaskDrops(hi, lo);
  }

  lemma {:induction false} Shifted18(i0: nat, i1: nat, i2: nat, i3: nat)
    requires i0 < 512 && i1 < 512 && i2 < 512 && i3 < 512
    ensures var y := Compose(0, i0, i1, i2, i3, 0) / 0x4_0000;
            y % 0x1_0000_0000_0000 - y % 0x1000 == Compose(0, 0, 0, i0, i1, 0)
  {
    var q, r := i3 / 64, i3 % 64;
    var hi, lo := 0x200 * i0 + i1, 8 * i2 + q;
    DivModUnique(Compose(0, i0, i1, i2, i3, 0), 0x4_0000, 0x1000 * hi + lo, 0x1000 * r);
    MaskDrops(hi, lo);
  }

  lemma {:induction false} Shifted27(i0: nat, i1: nat, i2: nat, i3: nat)
    requires i0 < 512 && i1 < 512 && i2 < 512 && i3 < 512
    ensures var y := Compose(0, i0, i1, i2, i3, 0) / 0x800_0000;
            y % 0x1_0000_0000_0000 - y % 0x1000 == Compose(0, 0, 0, 0, i0, 0)
  {
    var q, r := i2 / 64, i2 % 64;
    var lo := 8 * i1 + q;
    DivModUnique(Compose(0, i0, i1, i2, i3, 0), 0x800_0000, 0x1000 * i0 + lo, 0x20_0000 * r + 0x1000 * i3);
    MaskDrops(i0, lo);
  }

  lemma {:induction false} Shifted36(i0: nat, i1: nat, i2: nat, i3: nat)
    requires i0 < 512 && i1 < 512 && i2 < 512 && i3 < 512
    ensures var y := Compose(0, i0, i1, i2, i3, 0) / 0x10_0000_0000;
            y % 0x1_0000_0000_0000 - y % 0x1000 == 0
  {
    var q, r := i1 / 64, i1 % 64;
    var lo := 8 * i0 + q;
    DivModUnique(Compose(0, i0, i1, i2, i3, 0), 0x10_0000_0000, lo, 0x4000_0000 * r + 0x20_0000 * i2 + 0x1000 * i3);
    MaskDrops(0, lo);
  }

  /** The sign extension and the 511s form one run of ones. */
  lemma {:induction false} OnesBits(level: Level)
    ensures Or(0xffff_0000_0000_0000, RecursiveOnes(level)) == HighOnes(level)
  {
    Pow2Constants();
    OrOnes(39, 511, 30);
    OrOnes(30, 0x3_ffff, 21);
    OrOnes(21, 0x7ff_ffff, 12);
    match level {
      case Level0 => OrDisjoint(0xffff, 48, 0xffff_ffff_f000);
      case Level1 => OrDisjoint(0xffff, 48, 0xffff_ffe0_0000);
      case Level2 => OrDisjoint(0xffff, 48, 0xffff_c000_0000);
      case Level3 => OrDisjoint(0xffff, 48, 0xff80_0000_0000);
    }
  }

  lemma OrOnes(k: nat, ones: nat, j: nat)
    requires k == j + 9
    ensures Or(Shl(ones, k), Shl(511, j)) == Shl(512 * ones + 511, j)
  {
    var p := Pow2(j);
    assert Pow2(k) == 512 * p by {
      Pow2Add(9, j);
      Pow2Constants();
    }
    OrDisjoint(ones, k, 511 * p);
    Distribute(p, ones);
  }

  lemma Distribute(p: nat, ones: nat)
    ensures ones * (512 * p) + 511 * p == (512 * ones + 511) * p
  {
  }
}
