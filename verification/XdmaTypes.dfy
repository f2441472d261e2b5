/** Constants and machine words shared by the models of the XDMA driver. */
module XdmaTypes {

  const TWO32: nat := 0x1_0000_0000
  const TWO64: nat := 0x1_0000_0000_0000_0000

  type u32 = x: int | 0 <= x < TWO32
  type u64 = x: int | 0 <= x < TWO64
  type byte = bv8

  datatype Option<+T> = None | Some(value: T)

  const PAGE_SIZE: nat := 4096

  // pcie_dma_driver/include/xdma-core.h:78-89, 115-117, 146, 154
  const MAX_EXTRA_ADJ: nat := 15
  const XDMA_TRANSFER_MAX_BYTES: nat := 2048 * 4096
  const XDMA_DESC_MAX_BYTES: nat := 0x3FFFF
  const XDMA_DESC_STOPPED: bv8 := 0x01
  const XDMA_DESC_COMPLETED: bv8 := 0x02
  const XDMA_DESC_EOP: bv8 := 0x10
  const DESC_MAGIC: bv16 := 0xAD4B

  /** sizeof(struct xdma_desc) and sizeof(struct xdma_result): eight 32-bit words. */
  const DESC_BYTES: nat := 32
  const RESULT_BYTES: nat := 32

  /** The two halves a 64-bit address is stored as (PCI_DMA_L and PCI_DMA_H). */
  function Lo32(a: u64): u32 { a % TWO32 }

  function Hi32(a: u64): u32 { a / TWO32 }

  function Join64(hi: u32, lo: u32): u64 { hi * TWO32 + lo }

  /** Unsigned 64-bit addition wraps around. */
  function Add64(a: int, b: int): u64 { (a + b) % TWO64 }

  /** Conversion to a 32-bit signed int. */
  function AsInt32(x: int): int
  {
    if x % TWO32 < 0x8000_0000 then x % TWO32 else x % TWO32 - TWO32
  }

  lemma {:induction false} Add64Assoc(a: int, b: int, c: int)
    ensures Add64(Add64(a, b), c) == Add64(a, b + c)
  {}

  lemma {:induction false} Add64Zero(a: u64)
    ensures Add64(a, 0) == a
  {}

  lemma {:induction false} Add64Exact(a: nat, b: nat)
    requires a + b < TWO64
    ensures Add64(a, b) == a + b
  {}

  function Min(a: int, b: int): int { if a <= b then a else b }
}
