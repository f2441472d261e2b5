/**
  check_transfer_align, and what an accepted request guarantees about every descriptor built for it.
*/
module Alignment {
  import opened XdmaTypes
  import opened Descriptors
  import opened DescriptorChain
  import opened ScatterGather
  import opened TransferBuild
  import opened DmaMemory
  import opened Transfers

  // ----- bitwise and, on non-negative numbers

  function BitAnd(x: nat, y: nat): nat
  {
    if x == 0 || y == 0 then 0
    else 2 * BitAnd(x / 2, y / 2) + (if x % 2 == 1 && y % 2 == 1 then 1 else 0)
  }

  predicate IsPow2(m: nat)
  {
    m == 1 || (m > 1 && m % 2 == 0 && IsPow2(m / 2))
  }

  /** Masking with a power of two less one is the remainder. */
  lemma {:induction false} MaskIsRemainder(x: nat, m: nat)
    requires IsPow2(m)
    ensures BitAnd(x, m - 1) == x % m
    decreases m
  {
    if m > 1 {
      var h := m / 2;
      MaskIsRemainder(x / 2, h);
      assert (m - 1) / 2 == h - 1;
      HalveRemainder(x, h);
    }
  }

  lemma {:induction false} HalveRemainder(x: nat, h: nat)
    requires h > 0
    ensures x % (2 * h) == 2 * (x / 2 % h) + x % 2
  {
    var q, r := x / 2 / h, x / 2 % h;
    assert x == 2 * h * q + (2 * r + x % 2);
    DivUnique(x, 2 * h, q, 2 * r + x % 2);
  }

  lemma {:induction false} SameRemainder(a: int, b: int, m: nat, q: int)
    requires m > 0 && a - b == m * q
    ensures a % m == b % m
  {
    var d := q - a / m + b / m;
    assert a % m - b % m == m * d;
    MulOrder(m, d);
  }

  /** m divides the page size, so it divides every multiple of a page. */
  predicate DividesPage(m: nat)
  {
    m > 0 && m * (PAGE_SIZE / m) == PAGE_SIZE
  }

  lemma {:induction false} Pow2DividesPage(m: nat)
    requires IsPow2(m) && m <= PAGE_SIZE
    ensures DividesPage(m)
  {
    Pow2Cases(m);
  }

  lemma {:induction false} Pow2Cases(m: nat)
    requires IsPow2(m) && m <= PAGE_SIZE
    ensures m in {1, 2, 4, 8, 16, 32, 64, 128, 256, 512, 1024, 2048, 4096}
  {
    if m > 1 { Pow2Cases(m / 2); }
  }

  /** Adding pages does not change the remainder. */
  lemma {:induction false} PagesVanish(a: int, b: int, pages: int, m: nat)
    requires DividesPage(m) && a - b == PAGE_SIZE * pages
    ensures a % m == b % m
  {
    var c := PAGE_SIZE / m;
    assert m * (c * pages) == (m * c) * pages;
    SameRemainder(a, b, m, c * pages);
  }

  // ----- the check

  function AddrLsb(a: u64, alignBytes: nat): nat
  {
    BitAnd(Lo32(a), (alignBytes - 1) % TWO32)
  }

  lemma {:induction false} AddrLsbIsRemainder(a: u64, alignBytes: nat)
    requires IsPow2(alignBytes) && alignBytes <= PAGE_SIZE
    ensures AddrLsb(a, alignBytes) == a % alignBytes
  {
    assert (alignBytes - 1) % TWO32 == alignBytes - 1;
    MaskIsRemainder(Lo32(a), alignBytes);
    Pow2DividesPage(alignBytes);
    LowWordRemainder(a, alignBytes);
  }

  /**
    check_transfer_align. The address mask is an int, so it applies to the low 32 bits; `alignBytes`
    and `granularity` are the engine's addr_align and len_granularity.
  */
  function CheckTransferAlign(streaming: bool, nonIncrAddr: bool, alignBytes: nat, granularity: nat,
                              buf: u64, count: u64, pos: u64, sync: bool): int
  {
    var bufLsb, posLsb := AddrLsb(buf, alignBytes), AddrLsb(pos, alignBytes);
    if streaming || nonIncrAddr then
      if bufLsb != 0 then -EINVAL
      else if !streaming && posLsb != 0 && sync then -EINVAL
      else if BitAnd(count, (granularity - 1) % TWO64) != 0 then -EINVAL
      else 0
    else if bufLsb != posLsb then -EINVAL
    else 0
  }

  /** What the check decides: congruence in incremental mode, whole multiples otherwise. */
  lemma {:induction false} CheckMeaning(streaming: bool, nonIncrAddr: bool, alignBytes: nat, granularity: nat,
                                        buf: u64, count: u64, pos: u64, sync: bool)
    requires IsPow2(alignBytes) && alignBytes <= PAGE_SIZE
    requires IsPow2(granularity) && granularity <= PAGE_SIZE
    ensures CheckTransferAlign(streaming, nonIncrAddr, alignBytes, granularity, buf, count, pos, sync) == 0 <==>
      if streaming || nonIncrAddr
      then buf % alignBytes == 0 && count % granularity == 0
           && (!streaming && sync ==> pos % alignBytes == 0)
      else buf % alignBytes == pos % alignBytes
  {
    AddrLsbIsRemainder(buf, alignBytes);
    AddrLsbIsRemainder(pos, alignBytes);
    MaskIsRemainder(count, granularity);
    assert (granularity - 1) % TWO64 == granularity - 1;
  }

  lemma {:induction false} LowWordRemainder(x: u64, m: nat)
    requires DividesPage(m)
    ensures Lo32(x) % m == x % m
  {
    PagesVanish(x, Lo32(x), 0x10_0000 * (x / TWO32), m);
  }

  // ----- from the request to its descriptors

  /** Bytes at the same distance from congruent addresses have congruent bus and card addresses. */
  lemma {:induction false} BusCongruent(pt: PageTable, v: nat, ep: nat, k: nat, m: nat)
    requires DividesPage(m) && v % m == ep % m
    ensures BusOf(pt, v + k) % m == Add64(ep, k) % m
  {
    var page := (v + k) / PAGE_SIZE;
    PagesVanish(BusOf(pt, v + k), v + k, pt(page) - page, m);
    PagesVanish(ep + k, Add64(ep, k), 0x10_0000_0000_0000 * ((ep + k) / TWO64), m);
    ShiftRemainder(v, ep, k, m);
  }

  lemma {:induction false} ShiftRemainder(a: nat, b: nat, k: nat, m: nat)
    requires m > 0 && a % m == b % m
    ensures (a + k) % m == (b + k) % m
  {
    SameRemainder(a + k, b + k, m, a / m - b / m);
  }

  /** A non-empty block contributes its own first byte to the meaning of the transfer. */
  lemma {:induction false} BlockStarts(bs: seq<Block>, j: nat) returns (k: nat)
    requires j < |bs| && bs[j].len > 0
    ensures k < |Flatten(bs)| && Flatten(bs)[k] == (bs[j].addr, bs[j].ep)
    decreases j
  {
    Add64Zero(bs[j].addr);
    Add64Zero(bs[j].ep);
    if j == 0 {
      k := 0;
    } else {
      var k' := BlockStarts(bs[1..], j - 1);
      k := bs[0].len + k';
    }
  }

  lemma {:induction false} CoalesceNonEmpty(es: seq<DmaEntry>, i: nat, addr: u64, len: nat, ep: u64, force: bool,
                                            j: nat)
    requires i < |es| && forall k :: 0 <= k < |es| ==> es[k].len > 0
    requires j < |Coalesce(es, i, addr, len, ep, force, true)|
    ensures Coalesce(es, i, addr, len, ep, force, true)[j].len > 0
    decreases |es| - i
  {
    var len' := len + es[i].len;
    if i + 1 < |es| {
      if Breaks(es, i, len', force) {
        if j > 0 { CoalesceNonEmpty(es, i + 1, es[i + 1].addr, 0, Add64(ep, len'), force, j - 1); }
      } else {
        CoalesceNonEmpty(es, i + 1, addr, len', ep, force, j);
      }
    }
  }

  function HostAddr(d: Desc, toCard: bool): u64 { if toCard then d.Src() else d.Dst() }

  function CardAddr(d: Desc, toCard: bool): u64 { if toCard then d.Dst() else d.Src() }

  /**
    If the check accepts an incremental request, then in every descriptor of every chunk of it, host
    and card address agree modulo the engine's alignment.
  */
  lemma {:induction false} DescriptorsAligned(t: Transfer, pt: PageTable, alignBytes: nat, granularity: nat,
                                              buf: u64, count: u64, pos: u64, off: nat, len: nat, j: nat)
    requires IsPow2(alignBytes) && alignBytes <= PAGE_SIZE
    requires CheckTransferAlign(false, false, alignBytes, granularity, buf, count, pos, true) == 0
    requires 0 < len && off + len <= count && buf + count < TWO64 && pos + count < TWO64
    requires t.Moves(BlocksOf(pt, buf + off, len, pos + off, false)) && j < t.descNum
    ensures HostAddr(t.descs[j], t.dirToDev) % alignBytes == CardAddr(t.descs[j], t.dirToDev) % alignBytes
  {
    Pow2DividesPage(alignBytes);
    CheckMeaning(false, false, alignBytes, 1, buf, count, pos, true);
    CheckTransferIncremental(alignBytes, granularity, buf, count, pos);
    ShiftRemainder(buf, pos, off, alignBytes);
    ChunkAligned(t, pt, alignBytes, buf + off, len, pos + off, j);
  }

  /** The same for one chunk, whose buffer and position are congruent. */
  lemma {:induction false} ChunkAligned(t: Transfer, pt: PageTable, m: nat, v: nat, len: nat, ep: u64, j: nat)
    requires DividesPage(m) && v % m == ep % m && 0 < len
    requires t.Moves(BlocksOf(pt, v, len, ep, false)) && j < t.descNum
    ensures HostAddr(t.descs[j], t.dirToDev) % m == CardAddr(t.descs[j], t.dirToDev) % m
  {
    var bs := BlocksOf(pt, v, len, ep, false);
    BlockAligned(pt, v, len, ep, m, j);
    assert Carries(t.descs[j], bs[j], t.dirToDev);
    CarriesAddresses(t.descs[j], bs[j], t.dirToDev);
  }

  lemma {:induction false} CheckTransferIncremental(alignBytes: nat, granularity: nat, buf: u64, count: u64, pos: u64)
    ensures CheckTransferAlign(false, false, alignBytes, granularity, buf, count, pos, true)
            == CheckTransferAlign(false, false, alignBytes, 1, buf, count, pos, true)
  {}

  lemma {:induction false} BlockAligned(pt: PageTable, v: nat, len: nat, ep: u64, m: nat, j: nat)
    requires 0 < len && DividesPage(m) && v % m == ep % m
    requires j < |BlocksOf(pt, v, len, ep, false)|
    ensures var b := BlocksOf(pt, v, len, ep, false)[j]; b.len > 0 && b.addr % m == b.ep % m
  {
    var bs := BlocksOf(pt, v, len, ep, false);
    var es := MappedSplit(pt, v, len);
    CoalesceNonEmpty(es, 0, es[0].addr, 0, ep, false, j);
    var k := BlockStarts(bs, j);
    BlocksExact(pt, v, len, ep, false);
    BusCongruent(pt, v, ep, k, m);
  }

  lemma {:induction false} CarriesAddresses(d: Desc, b: Block, toCard: bool)
    requires Carries(d, b, toCard) && b.len > 0
    ensures HostAddr(d, toCard) == b.addr && CardAddr(d, toCard) == b.ep
  {
    var ps := DescPairs(d, toCard);
    assert ps[0] == Run(b.addr, b.ep, b.len)[0];
    Add64Zero(b.addr);
    Add64Zero(b.ep);
    Add64Zero(d.Src());
    Add64Zero(d.Dst());
  }
}
