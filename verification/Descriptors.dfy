/**
  Hardware descriptors: how the driver allocates, links, terminates and labels a chain of them,
  and which descriptors an engine visits when it walks that chain.
*/
module Descriptors {
  import opened XdmaTypes

  // ----- the control word

  type u4 = x: int | 0 <= x < 16

  /** The fields of the 32-bit control word: magic, descriptor counter, extra adjacent, flags. */
  datatype Control = Control(magic: bv16, counter: u4, adj: u4, flags: bv8)
  {
    function Word(): bv32
    {
      ((magic as bv32) << 16) | ((counter as bv32) << 12) | ((adj as bv32) << 8) | (flags as bv32)
    }

    /** The hardware stops after a descriptor with this bit. */
    predicate Stopped() { flags & 0x01 != 0 }

    /**
      Extra adjacent count as the hardware reads it, bits 8 to 13: the driver's mask 0xf0ff keeps
      two of these bits with the counter nibble.
    */
    function FetchAdj(): nat { adj + 16 * (counter % 4) }
  }

  /** Masking a control word with 0x0000f0ff clears the magic and the adjacency field only. */
  lemma {:induction false} MaskAdj(c: Control)
    ensures c.Word() & 0x0000f0ff == Control(0, c.counter, 0, c.flags).Word()
  {}

  lemma {:induction false} MergeAdj(c: Control, adj: u4)
    requires c.magic == 0 && c.adj == 0
    ensures c.Word() | 0xAD4B0000 | ((adj as bv32) << 8) == Control(DESC_MAGIC, c.counter, adj, c.flags).Word()
  {}

  lemma {:induction false} MaskFlags(c: Control, flags: bv8)
    ensures (c.Word() & !0xFF) | (flags as bv32) == c.(flags := flags).Word()
  {}

  // ----- descriptors

  /** struct xdma_desc; `control` stands for the word Control.Word(). */
  datatype Desc = Desc(control: Control, bytes: u32, srcLo: u32, srcHi: u32,
                       dstLo: u32, dstHi: u32, nextLo: u32, nextHi: u32)
  {
    function Src(): u64 { Join64(srcHi, srcLo) }

    function Dst(): u64 { Join64(dstHi, dstLo) }

    function Next(): u64 { Join64(nextHi, nextLo) }
  }

  function WithNext(d: Desc, bus: u64): Desc
  {
    d.(nextLo := Lo32(bus), nextHi := Hi32(bus))
  }

  function WithSource(d: Desc, bus: u64): Desc
  {
    d.(srcLo := Lo32(bus), srcHi := Hi32(bus))
  }

  /** xdma_desc_set: host and endpoint address go to source and destination by direction. */
  function WithTransfer(d: Desc, rcBus: u64, ep: u64, len: u32, dirToDev: bool): (r: Desc)
  {
    if dirToDev then
      d.(bytes := len, srcLo := Lo32(rcBus), srcHi := Hi32(rcBus), dstLo := Lo32(ep), dstHi := Hi32(ep))
    else
      d.(bytes := len, srcLo := Lo32(ep), srcHi := Hi32(ep), dstLo := Lo32(rcBus), dstHi := Hi32(rcBus))
  }

  /** xdma_desc_link: the adjacency field is cleared; bus address 0 terminates. */
  function Linked(d: Desc, bus: u64): Desc
  {
    WithNext(d, bus).(control := Control(DESC_MAGIC, d.control.counter, 0, d.control.flags))
  }

  /** xdma_desc_control: magic and adjacency are kept. */
  function Controlled(d: Desc, flags: bv8): Desc
  {
    d.(control := d.control.(flags := flags))
  }

  /**
    The adjacency value xdma_desc_adjacent writes: capped at 15 and at the number of descriptors
    between the next descriptor and the end of its 4 KB page. The subtraction is on u32, so an
    offset within the last 31 bytes of a page wraps around and caps nothing.
  */
  function AdjacentCount(nextLo: u32, nextAdjacent: int): u4
  {
    if nextAdjacent <= 0 then 0 else
    var extra := Min(nextAdjacent - 1, MAX_EXTRA_ADJ);
    var max4k := ((0x1000 - nextLo % 0x1000) / DESC_BYTES - 1) % TWO32;
    Min(extra, max4k)
  }

  function WithAdjacent(d: Desc, nextAdjacent: int): Desc
  {
    d.(control := Control(DESC_MAGIC, d.control.counter, AdjacentCount(d.nextLo, nextAdjacent), d.control.flags))
  }

  // ----- chains

  /**
    xdma_desc_alloc: an array of `number` descriptors at bus address `bus`, linked one to the next,
    with adjacency counts and no flags.
  */
  ghost predicate Allocated(ds: seq<Desc>, bus: u64, number: nat)
  {
    && |ds| == number
    && forall i :: 0 <= i < number ==> AllocatedAt(ds[i], bus, number, i)
  }

  ghost predicate AllocatedAt(d: Desc, bus: u64, number: nat, i: nat)
  {
    && d.bytes == 0
    && d.Next() == (if i < number - 1 then Add64(bus, DESC_BYTES * (i + 1)) else 0)
    && d.control == Control(DESC_MAGIC, 0, if i < number - 1 then Min(number - i - 2, MAX_EXTRA_ADJ) else 0, 0)
  }

  method XdmaDescAlloc(number: nat, bus: u64) returns (ds: array<Desc>)
    requires number >= 1
    ensures fresh(ds) && Allocated(ds[..], bus, number)
  {
    ds := new Desc[number];
    var descBus := bus;
    var adj := number - 1;
    var i := 0;
    while i < number - 1
      invariant 0 <= i <= number - 1 == i + adj
      invariant descBus == Add64(bus, DESC_BYTES * i)
      invariant forall k :: 0 <= k < i ==> AllocatedAt(ds[k], bus, number, k)
    {
      Add64Assoc(bus, DESC_BYTES * i, DESC_BYTES);
      descBus := Add64(descBus, DESC_BYTES);
      ds[i] := WithNext(ds[i], descBus).(bytes := 0);
      var extraAdj := 0;
      if adj > 0 {
        extraAdj := Min(adj - 1, MAX_EXTRA_ADJ);
        adj := adj - 1;
      }
      ds[i] := ds[i].(control := Control(DESC_MAGIC, 0, extraAdj, 0));
      i := i + 1;
    }
    ds[i] := WithNext(ds[i], 0).(bytes := 0, control := Control(DESC_MAGIC, 0, 0, 0));
  }
}
