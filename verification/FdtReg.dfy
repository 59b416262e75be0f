/**
 The `reg` and `ranges` properties of a node (port/src/fdt.rs): sections 2.3.5, 2.3.6 and
 2.3.8 of the Devicetree Specification. Addresses are unbounded, so 64-bit overflow is not
 represented; names are compared byte by byte.
 */
module FdtReg {
  import opened Wrappers
  import opened FdtTokens
  import opened FdtTree
  import opened FdtScan
  import opened FdtParent

  /** The structure and strings blocks of a flattened devicetree. */
  datatype DeviceTree = DeviceTree(structs: Bytes, strings: Bytes)

  function Text(b: Bytes): string {
    seq(|b|, k requires 0 <= k < |b| => b[k] as int as char)
  }

  /** The zero-terminated string at `start`. */
  function InlineStr(b: Bytes, start: nat): Option<string> {
    match ZeroPosition(b, start)
    case None => None
    case Some(n) => Some(Text(b[start..start + n]))
  }

  function FindProp(strings: Bytes, props: seq<Property>, name: string): (r: Option<Property>)
    ensures r.Some? ==> r.value in props
  {
    if props == [] then None
    else if InlineStr(strings, props[0].nameStart) == Some(name) then Some(props[0])
    else FindProp(strings, props[1..], name)
  }

  function PropertyOf(dt: DeviceTree, n: Node, name: string): Option<Property> {
    FindProp(dt.strings, Properties(Lex(dt.structs), n), name)
  }

  /** The number in a value's first cell, or the default. */
  function CellValue(value: Option<Bytes>, default: nat): nat {
    if value.Some? && U32At(value.value, 0).Some? then U32At(value.value, 0).value else default
  }

  function CellCount(dt: DeviceTree, n: Option<Node>, name: string, default: nat): nat {
    match n
    case None => default
    case Some(n) =>
      match PropertyOf(dt, n, name)
      case None => default
      case Some(p) => CellValue(ValueBytes(dt.structs, p), default)
  }

  function AddressCells(dt: DeviceTree, n: Option<Node>): nat {
    CellCount(dt, n, "#address-cells", 2)
  }

  function SizeCells(dt: DeviceTree, n: Option<Node>): nat {
    CellCount(dt, n, "#size-cells", 1)
  }

  function Wide(hi: nat, lo: nat): nat {
    0x1_0000_0000 * hi + lo
  }

  function U64At(s: Bytes, i: nat): Option<nat> {
    match (U32At(s, i), U32At(s, i + 4))
    case (Some(hi), Some(lo)) => Some(Wide(hi, lo))
    case _ => None
  }

  function ConsumeCells(s: Bytes, i: nat, cells: nat): Option<nat> {
    if i + 4 * cells > |s| then None
    else if cells == 1 then (match U32At(s, i) case None => None case Some(x) => Some(x))
    else if cells == 0 then None
    else U64At(s, i)
  }

  datatype RegBlock = RegBlock(addr: nat, len: Option<nat>)

  predicate RegCellsOk(ac: nat, sc: nat) {
    0 < ac <= 2 && sc <= 2
  }

  /** The block whose cells start at `i`. */
  function RegAt(s: Bytes, i: nat, ac: nat, sc: nat): Option<RegBlock> {
    match ConsumeCells(s, i, ac)
    case None => None
    case Some(addr) => Some(RegBlock(addr, if sc > 0 then ConsumeCells(s, i + 4 * ac, sc) else None))
  }

  /** What `property_reg_iter` yields from `i` on, in a value that ends at `stop`. */
  function Regs(s: Bytes, i: nat, stop: nat, ac: nat, sc: nat): seq<RegBlock>
    decreases stop - i
  {
    var next := i + 4 * ac + 4 * sc;
    if !RegCellsOk(ac, sc) || next > stop then []
    else
      match RegAt(s, i, ac, sc)
      case None => []
      case Some(r) => [r] + Regs(s, next, stop, ac, sc)
  }

  function ValueStart(p: Option<Property>): nat {
    if p.Some? then p.value.valueStart else 0
  }

  function ValueStop(p: Option<Property>): nat {
    if p.Some? then p.value.valueStart + p.value.valueLen else 0
  }

  function NodeRegs(dt: DeviceTree, n: Node): seq<RegBlock> {
    var parent := Parent(Lex(dt.structs), n);
    var prop := PropertyOf(dt, n, "reg");
    Regs(dt.structs, ValueStart(prop), ValueStop(prop), AddressCells(dt, parent), SizeCells(dt, parent))
  }

  datatype Range = Identity | Window(child: nat, parent: nat, len: nat)

  predicate RangeCellsOk(pac: nat, ac: nat, sc: nat) {
    0 < pac <= 2 && 0 < ac <= 2 && 0 < sc <= 2
  }

  /** The window whose cells start at `i`. */
  function WindowAt(s: Bytes, i: nat, pac: nat, ac: nat, sc: nat): Option<Range> {
    match (ConsumeCells(s, i, ac), ConsumeCells(s, i + 4 * ac, pac), ConsumeCells(s, i + 4 * ac + 4 * pac, sc))
    case (Some(child), Some(parent), Some(len)) => Some(Window(child, parent, len))
    case _ => None
  }

  function Windows(s: Bytes, i: nat, stop: nat, pac: nat, ac: nat, sc: nat): seq<Range>
    decreases stop - i
  {
    var next := i + 4 * ac + 4 * pac + 4 * sc;
    if !RangeCellsOk(pac, ac, sc) || next > stop then []
    else
      match WindowAt(s, i, pac, ac, sc)
      case None => []
      case Some(w) => [w] + Windows(s, next, stop, pac, ac, sc)
  }

  /** What `property_range_iter` yields: an empty or missing value stands for the identity. */
  function Ranges(s: Bytes, i: nat, stop: nat, pac: nat, ac: nat, sc: nat): seq<Range> {
    if i == stop then [Identity] else Windows(s, i, stop, pac, ac, sc)
  }

  function NodeRanges(dt: DeviceTree, n: Node): seq<Range> {
    var pac := AddressCells(dt, Parent(Lex(dt.structs), n));
    var ac, sc := AddressCells(dt, Some(n)), SizeCells(dt, Some(n));
    var prop := PropertyOf(dt, n, "ranges");
    Ranges(dt.structs, ValueStart(prop), ValueStop(prop), pac, ac, sc)
  }

  function Translate(w: Range, r: RegBlock): Option<RegBlock> {
    match w
    case Identity => Some(r)
    case Window(child, parent, len) =>
      if child <= r.addr < child + len then Some(RegBlock(r.addr - child + parent, r.len)) else None
  }

  /** The block as the first window that covers it translates it. */
  function FirstCover(ws: seq<Range>, r: RegBlock): Option<RegBlock> {
    if ws == [] then None
    else
      match Translate(ws[0], r)
      case Some(t) => Some(t)
      case None => FirstCover(ws[1..], r)
  }

  datatype TranslatedReg = Translated(reg: RegBlock) | Unreachable

  /** The walk of `property_translated_reg_iter` from `at` to the root. */
  function Ascend(dt: DeviceTree, r: RegBlock, at: Option<Node>): Option<TranslatedReg>
    requires at.Some? ==> at.value.depth >= 0
    decreases if at.Some? then at.value.depth + 1 else 0
  {
    match at
    case None => None
    case Some(n) =>
      if n.depth == 0 then Some(Translated(r))
      else
        match FirstCover(NodeRanges(dt, n), r)
        case None => Some(Unreachable)
        case Some(t) =>
          ParentBetween(Lex(dt.structs), n);
          Ascend(dt, t, Parent(Lex(dt.structs), n))
  }

  /** The translations of `regs`, up to the first that has none. */
  function AscendAll(dt: DeviceTree, regs: seq<RegBlock>, n: Node): seq<TranslatedReg> {
    if regs == [] then []
    else
      ParentBetween(Lex(dt.structs), n);
      match Ascend(dt, regs[0], Parent(Lex(dt.structs), n))
      case None => []
      case Some(t) => [t] + AscendAll(dt, regs[1..], n)
  }

  // ----- the source's iterators

  class RegIter {
    const structs: Bytes
    const addressCells: nat
    const sizeCells: nat
    const valueEnd: nat
    var valueI: nat

    ghost predicate Valid()
      reads this
    {
      valueI <= valueEnd
    }

    constructor (dt: DeviceTree, node: Node)
      ensures Valid() && Remaining() == NodeRegs(dt, node)
    {
      var parent := Parent(Lex(dt.structs), node);
      var prop := PropertyOf(dt, node, "reg");
      structs := dt.structs;
      addressCells := AddressCells(dt, parent);
      sizeCells := SizeCells(dt, parent);
      valueI := ValueStart(prop);
      valueEnd := ValueStop(prop);
    }

    ghost function Remaining(): seq<RegBlock>
      reads this
    {
      Regs(structs, valueI, valueEnd, addressCells, sizeCells)
    }

    method Next() returns (r: Option<RegBlock>)
      requires Valid()
      modifies this
      ensures Valid()
      ensures r.None? ==> old(Remaining()) == []
      ensures r.Some? ==> old(Remaining()) == [r.value] + Remaining()
    {
      if addressCells == 0 || addressCells > 2 || sizeCells > 2 {
        return None;
      }
      var addressSize, lenSize := addressCells * 4, sizeCells * 4;
      var remaining := valueEnd - valueI;
      if addressSize + lenSize > remaining {
        return None;
      }
      var addr := ConsumeCells(structs, valueI, addressCells);
      if addr.None? {
        return None;
      }
      valueI := valueI + addressSize;
      var len := None;
      if sizeCells > 0 {
        len := ConsumeCells(structs, valueI, sizeCells);
      }
      valueI := valueI + lenSize;
      return Some(RegBlock(addr.value, len));
    }
  }

  class RangeIter {
    const structs: Bytes
    const parentAddressCells: nat
    const addressCells: nat
    const sizeCells: nat
    const valueEnd: nat
    const isIdentity: bool
    var valueI: nat
    var identityReturned: bool

    ghost predicate Valid()
      reads this
    {
      valueI <= valueEnd && (isIdentity ==> valueI == valueEnd)
    }

    constructor (dt: DeviceTree, node: Node)
      ensures Valid() && Remaining() == NodeRanges(dt, node)
    {
      var parent := Parent(Lex(dt.structs), node);
      var prop := PropertyOf(dt, node, "ranges");
      structs := dt.structs;
      parentAddressCells := AddressCells(dt, parent);
      addressCells := AddressCells(dt, Some(node));
      sizeCells := SizeCells(dt, Some(node));
      valueI := ValueStart(prop);
      valueEnd := ValueStop(prop);
      isIdentity := ValueStart(prop) == ValueStop(prop);
      identityReturned := false;
    }

    ghost function Remaining(): seq<Range>
      reads this
    {
      if isIdentity then (if identityReturned then [] else [Identity])
      else Windows(structs, valueI, valueEnd, parentAddressCells, addressCells, sizeCells)
    }

    method Next() returns (r: Option<Range>)
      requires Valid()
      modifies this
      ensures Valid()
      ensures r.None? ==> old(Remaining()) == []
      ensures r.Some? ==> old(Remaining()) == [r.value] + Remaining()
    {
      if isIdentity {
        if !identityReturned {
          identityReturned := true;
          return Some(Identity);
        }
        return None;
      }
      if addressCells == 0 || sizeCells == 0 || addressCells > 2 || sizeCells > 2 {
        return None;
      }
      if parentAddressCells == 0 || parentAddressCells > 2 {
        return None;
      }
      var addressSize, parentAddressSize, lenSize := addressCells * 4, parentAddressCells * 4, sizeCells * 4;
      var remaining := valueEnd - valueI;
      if addressSize + parentAddressSize + lenSize > remaining {
        return None;
      }
      var child := ConsumeCells(structs, valueI, addressCells);
      if child.None? {
        return None;
      }
      valueI := valueI + addressSize;
      var parent := ConsumeCells(structs, valueI, parentAddressCells);
      if parent.None? {
        return None;
      }
      valueI := valueI + parentAddressSize;
      var len := ConsumeCells(structs, valueI, sizeCells);
      if len.None? {
        return None;
      }
      valueI := valueI + lenSize;
      return Some(Window(child.value, parent.value, len.value));
    }
  }

  /** The inner loop: the first of the node's ranges that translates the block. */
  method TranslateAt(dt: DeviceTree, n: Node, reg: RegBlock) returns (r: Option<RegBlock>)
    ensures r == FirstCover(NodeRanges(dt, n), reg)
  {
    var ranges := new RangeIter(dt, n);
    var range := ranges.Next();
    while range.Some?
      invariant ranges.Valid()
      invariant range.None? ==> FirstCover(NodeRanges(dt, n), reg) == None
      invariant range.Some? ==>
                  FirstCover(NodeRanges(dt, n), reg) == FirstCover([range.value] + ranges.Remaining(), reg)
      decreases range.Some?, |ranges.Remaining()|
    {
      assert ([range.value] + ranges.Remaining())[1..] == ranges.Remaining();
      r := Translate(range.value, reg);
      if r.Some? {
        return;
      }
      range := ranges.Next();
    }
    return None;
  }

  /** The walk from the node to the root. */
  method TranslateReg(dt: DeviceTree, node: Node, reg: RegBlock) returns (r: Option<TranslatedReg>)
    ensures Parent(Lex(dt.structs), node).Some? ==> Parent(Lex(dt.structs), node).value.depth >= 0
    ensures r == Ascend(dt, reg, Parent(Lex(dt.structs), node))
  {
    ghost var toks := Lex(dt.structs);
    ParentBetween(toks, node);
    ghost var sought := Ascend(dt, reg, Parent(toks, node));
    var translated := reg;
    var parent := Parent(Lex(dt.structs), node);
    while parent.Some?
      invariant parent.Some? ==> parent.value.depth >= 0
      invariant sought == Ascend(dt, translated, parent)
      decreases if parent.Some? then parent.value.depth + 1 else 0
    {
      if parent.value.depth == 0 {
        return Some(Translated(translated));
      }
      var next := TranslateAt(dt, parent.value, translated);
      if next.None? {
        return Some(Unreachable);
      }
      translated := next.value;
      ParentBetween(toks, parent.value);
      parent := Parent(Lex(dt.structs), parent.value);
    }
    return None;
  }

  /** What `property_translated_reg_iter` returns. */
  class TranslatedRegIter {
    const dt: DeviceTree
    const node: Node
    const regs: RegIter
    var current: Option<RegBlock>

    ghost predicate Valid()
      reads this, regs
    {
      regs.Valid()
    }

    constructor (dt: DeviceTree, node: Node)
      ensures Valid() && fresh(regs)
      ensures Remaining() == AscendAll(dt, NodeRegs(dt, node), node)
    {
      var iter := new RegIter(dt, node);
      var first := iter.Next();
      this.dt := dt;
      this.node := node;
      regs := iter;
      current := first;
    }

    ghost function Remaining(): seq<TranslatedReg>
      reads this, regs
    {
      AscendAll(dt, if current.Some? then [current.value] + regs.Remaining() else [], node)
    }

    method Next() returns (r: Option<TranslatedReg>)
      requires Valid()
      modifies this, regs
      ensures Valid()
      ensures r.None? ==> old(Remaining()) == []
      ensures r.Some? ==> old(Remaining()) == [r.value] + Remaining()
    {
      r := None;
      if current.Some? {
        var reg := current.value;
        ghost var later := regs.Remaining();
        current := regs.Next();
        assert ([reg] + later)[1..] == later;
        r := TranslateReg(dt, node, reg);
      }
    }
  }
}
