/**
 Translation table entries (aarch64/src/vm.rs, `Entry`).  An entry is a record of
 its fields; DescriptorBits places the fields in the 64-bit descriptor word.
 */
module Descriptor {
  import opened Mem

  type U1 = x: nat | x < 2
  type U2 = x: nat | x < 4
  type U3 = x: nat | x < 8
  type U5 = x: nat | x < 32
  type U9 = x: nat | x < 512

  /** A frame number: a 48-bit physical address without its 12 offset bits. */
  type Frame = x: nat | x < 0x10_0000_0000

  datatype Entry = Entry(
    valid: bool,
    pageOrTable: bool,
    mairIndex: U3,
    nonSecure: bool,
    accessPermission: U2,
    shareable: U2,
    accessed: bool,
    bit11: U1,
    addr: Frame,
    bits48: U5,
    pxn: bool,
    uxn: bool,
    bits55: U9)

  const NORMAL: U3 := 0
  const INNER: U2 := 3

  function Empty(): Entry
  {
    Entry(false, false, 0, false, 0, 0, false, 0, 0, 0, false, false, 0)
  }

  function RwKernelData(): Entry
  {
    Empty().(shareable := INNER, accessed := true, uxn := true, pxn := true, mairIndex := NORMAL, valid := true)
  }

  /** `with_phys_addr`: the 36-bit field keeps address bits 12 to 47. */
  function WithPhysAddr(e: Entry, pa: PhysAddr): (r: Entry)
    ensures r.addr * 0x1000 == pa % 0x1_0000_0000_0000 - pa % 0x1000
    ensures r == e.(addr := r.addr)
  {
    e.(addr := pa / 0x1000 % 0x10_0000_0000)
  }

  /** An entry that points at a next-level table in frame `f`. */
  function TableEntry(f: Frame): (e: Entry)
    ensures e.valid && e.pageOrTable && e.addr == f
  {
    WithPhysAddr(RwKernelData(), f * 0x1000).(pageOrTable := true)
  }
}
