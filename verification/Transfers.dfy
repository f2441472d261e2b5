/**
  transfer_create: from a buffer to a terminated chain of descriptors.
*/
module Transfers {
  import opened XdmaTypes
  import opened Descriptors
  import opened DescriptorChain
  import opened ScatterGather
  import opened TransferBuild
  import opened DmaMemory

  // ----- the scatterlist of a buffer

  /** pci_map_sg: one bus entry per fragment, with its length and its offset in the page. */
  function DmaMap(es: seq<SgEntry>): (r: seq<DmaEntry>)
    requires forall k :: 0 <= k < |es| ==> es[k].offset < PAGE_SIZE
    ensures |r| == |es|
  {
    seq(|es|, k requires 0 <= k < |es| => DmaEntry(es[k].frame * PAGE_SIZE + es[k].offset, es[k].length))
  }

  /** The mapped fragments of a buffer. */
  function MappedSplit(pt: PageTable, start: nat, count: nat): (es: seq<DmaEntry>)
    requires count > 0
    ensures |es| == NrPages(start, count)
  {
    seq(NrPages(start, count), i requires 0 <= i < NrPages(start, count) => MappedFragment(pt, start, count, i))
  }

  function MappedFragment(pt: PageTable, start: nat, count: nat, i: nat): (e: DmaEntry)
    requires count > 0 && i < NrPages(start, count)
    ensures 0 < e.len <= PAGE_SIZE
  {
    FragmentShape(start, count, i);
    DmaEntry(BusOf(pt, FragStart(start, i)), FragEnd(start, count, i) - FragStart(start, i))
  }

  lemma {:induction false} DmaMapOfSplit(es: seq<SgEntry>, pt: PageTable, start: nat, count: nat)
    requires count > 0 && IsSplit(es, pt, start, count)
    requires forall k :: 0 <= k < |es| ==> es[k].offset < PAGE_SIZE
    ensures DmaMap(es) == MappedSplit(pt, start, count)
  {
    forall i | 0 <= i < |es|
      ensures DmaMap(es)[i] == MappedFragment(pt, start, count, i)
    {
      FragmentShape(start, count, i);
    }
  }

  // ----- the page split is exact

  /** The bytes of n virtual addresses from v on, for consecutive endpoint addresses from ep. */
  function VirtRun(pt: PageTable, v: nat, ep: int, n: nat): (r: seq<BytePair>)
    ensures |r| == n && forall k :: 0 <= k < n ==> r[k] == (BusOf(pt, v + k), Add64(ep, k))
  {
    seq(n, k requires 0 <= k => (BusOf(pt, v + k), Add64(ep, k)))
  }

  lemma {:induction false} VirtConcat(pt: PageTable, v: nat, ep: int, m: nat, n: nat)
    ensures VirtRun(pt, v, ep, m) + VirtRun(pt, v + m, Add64(ep, m), n) == VirtRun(pt, v, ep, m + n)
  {
    var tail, all := VirtRun(pt, v + m, Add64(ep, m), n), VirtRun(pt, v, ep, m + n);
    forall k | 0 <= k < n
      ensures tail[k] == all[m + k]
    {
      Add64Assoc(ep, m, k);
    }
  }

  /** Inside one page, consecutive virtual addresses have consecutive bus addresses. */
  lemma {:induction false} PageRun(pt: PageTable, v: nat, ep: int, n: nat)
    requires v % PAGE_SIZE + n <= PAGE_SIZE
    ensures Run(BusOf(pt, v), ep, n) == VirtRun(pt, v, ep, n)
  {
    var run, virt := Run(BusOf(pt, v), ep, n), VirtRun(pt, v, ep, n);
    forall k | 0 <= k < n
      ensures run[k] == virt[k]
    {
      assert (v + k) / PAGE_SIZE == v / PAGE_SIZE;
    }
  }

  /** Fragment i contributes its own bytes, which end where fragment i + 1 or the buffer does. */
  lemma {:induction false} FragmentRun(pt: PageTable, start: nat, count: nat, i: nat, v: nat, len: nat, ep: u64)
    requires count > 0 && i < NrPages(start, count)
    requires v == FragStart(start, i) && len == MappedSplit(pt, start, count)[i].len
    ensures var es := MappedSplit(pt, start, count);
            Flatten(Spread(es, i, ep)) == VirtRun(pt, v, ep, len) + Flatten(Spread(es, i + 1, Add64(ep, len)))
    ensures v + len == if i + 1 < NrPages(start, count) then FragStart(start, i + 1) else start + count
  {
    FragmentShape(start, count, i);
    var es := MappedSplit(pt, start, count);
    FlattenCons(Block(es[i].addr, ep, len), Spread(es, i + 1, Add64(ep, len)));
    PageRun(pt, v, ep, len);
  }

  /** The fragments from i on flatten to the rest of the buffer, byte for byte. */
  lemma {:induction false} SplitExact(pt: PageTable, start: nat, count: nat, i: nat, v: nat, ep: u64)
    requires count > 0 && i < NrPages(start, count) && v == FragStart(start, i) <= start + count
    ensures Flatten(Spread(MappedSplit(pt, start, count), i, ep)) == VirtRun(pt, v, ep, start + count - v)
    decreases NrPages(start, count) - i
  {
    var es := MappedSplit(pt, start, count);
    var len := es[i].len;
    FragmentRun(pt, start, count, i, v, len, ep);
    var rest := Flatten(Spread(es, i + 1, Add64(ep, len)));
    if i + 1 < |es| {
      FragmentShape(start, count, i + 1);
      SplitExact(pt, start, count, i + 1, v + len, Add64(ep, len));
    }
    var n := start + count - (v + len);
    assert rest == VirtRun(pt, v + len, Add64(ep, len), n);
    VirtConcat(pt, v, ep, len, n);
  }

  lemma {:induction false} VirtSnoc(pt: PageTable, buf: nat, pos: nat, n: nat)
    requires 0 < n && pos + n <= TWO64
    ensures VirtRun(pt, buf, pos, n) == VirtRun(pt, buf, pos, n - 1) + [(BusOf(pt, buf + n - 1), pos + n - 1)]
  {}

  /** The byte loop is the buffer's bytes in order. */
  lemma {:induction false} ExecVirt(mem: Memory, pt: PageTable, buf: nat, pos: nat, n: nat, toCard: bool)
    requires pos + n <= TWO64
    ensures Exec(mem, VirtRun(pt, buf, pos, n), toCard) == Memcpy(mem, pt, buf, pos, n, toCard)
  {
    if n > 0 {
      ExecVirt(mem, pt, buf, pos, n - 1, toCard);
      var p := (BusOf(pt, buf + n - 1), pos + n - 1);
      VirtSnoc(pt, buf, pos, n);
      ExecConcat(mem, VirtRun(pt, buf, pos, n - 1), [p], toCard);
      ExecOne(Exec(mem, VirtRun(pt, buf, pos, n - 1), toCard), p, toCard);
    }
  }

  lemma {:induction false} ExecOne(mem: Memory, p: BytePair, toCard: bool)
    ensures Exec(mem, [p], toCard) == CopyByte(mem, p, toCard)
  {
    assert [p][1..] == [];
  }

  /** The blocks transfer_create builds for a buffer, at consecutive endpoint addresses. */
  function BlocksOf(pt: PageTable, start: nat, count: nat, ep: u64, force: bool): (bs: seq<Block>)
    requires count > 0
    ensures 0 < |bs| <= NrPages(start, count)
  {
    CoalesceAll(MappedSplit(pt, start, count), ep, force, true)
  }

  /** However the fragments are merged, the blocks move the buffer's bytes in order. */
  lemma {:induction false} BlocksExact(pt: PageTable, start: nat, count: nat, ep: u64, force: bool)
    requires count > 0
    ensures Flatten(BlocksOf(pt, start, count, ep, force)) == VirtRun(pt, start, ep, count)
  {
    var es := MappedSplit(pt, start, count);
    Add64Zero(es[0].addr);
    Add64Zero(ep);
    CoalesceMeaning(es, 0, es[0].addr, 0, ep, force);
    RunEmpty(es[0].addr, ep, Flatten(Spread(es, 0, ep)));
    SplitExact(pt, start, count, 0, start, ep);
  }

  // ----- transfers

  datatype TransferState = New | Submitted | Completed | Failed

  /** struct xdma_transfer. */
  class Transfer {
    const descs: array<Desc>
    const descBus: u64
    const descNum: nat
    const dirToDev: bool
    const descAdjacent: nat
    var state: TransferState
    var cyclic: bool
    var lastInRequest: bool
    var sizeOfRequest: nat

    constructor (descs: array<Desc>, descBus: u64, descNum: nat, dirToDev: bool)
      ensures this.descs == descs && this.descBus == descBus && this.descNum == this.descAdjacent == descNum
      ensures this.dirToDev == dirToDev && state == New && !cyclic && !lastInRequest && sizeOfRequest == 0
    {
      this.descs, this.descBus, this.descNum, this.dirToDev := descs, descBus, descNum, dirToDev;
      descAdjacent := descNum;
      state, cyclic, lastInRequest, sizeOfRequest := New, false, false, 0;
    }

    /** The descriptors form a terminated chain that moves the blocks bs. */
    ghost predicate Moves(bs: seq<Block>)
      reads descs
    {
      && descNum == descAdjacent == |bs|
      && Chained(descs[..], descBus, descNum)
      && descBus % PAGE_SIZE == 0
      && forall k :: 0 <= k < descNum ==> Carries(descs[k], bs[k], dirToDev)
    }
  }

  lemma {:induction false} PageAligned(bus: nat)
    requires bus % PAGE_SIZE == 0
    ensures bus % DESC_BYTES == 0
  {}

  /**
    The fetch that engine_start announces for a transfer reads 16 descriptors at most, all of its chain
    and all in one page, since the array starts on a page.
  */
  lemma {:induction false} FirstFetchOfTransfer(t: Transfer, bs: seq<Block>)
    requires t.Moves(bs)
    ensures 1 + FirstAdjacent(t.descAdjacent) <= t.descNum
    ensures InOnePage(t.descBus, 1 + FirstAdjacent(t.descAdjacent))
  {
    FirstFetchInPage(t.descBus, t.descNum);
  }

  /** pci_alloc_consistent: any page-aligned bus address with room for the array. */
  method AllocBus(bytes: nat) returns (bus: u64)
    requires bytes <= TWO64
    ensures bus % PAGE_SIZE == 0 && bus + bytes <= TWO64
  {
    assert 0 % PAGE_SIZE == 0;
    bus :| bus % PAGE_SIZE == 0 && bus + bytes <= TWO64;
  }

  lemma {:induction false} FilledCarries(d: Desc, was: Desc, b: Block, dirToDev: bool)
    requires Fills(d, was, b, dirToDev)
    ensures Carries(d, b, dirToDev)
  {}

  /** Links and control as xdma_desc_alloc leaves them, whatever the adjacency count. */
  ghost predicate Unterminated(d: Desc, bus: u64, number: nat, k: nat)
  {
    && d.Next() == (if k < number - 1 then Add64(bus, DESC_BYTES * (k + 1)) else 0)
    && d.control == Control(DESC_MAGIC, 0, d.control.adj, 0)
  }

  ghost predicate SamePayload(d: Desc, e: Desc)
  {
    d.bytes == e.bytes && d.Src() == e.Src() && d.Dst() == e.Dst()
  }

  lemma {:induction false} LabelInner(d: Desc, bus: u64, number: nat, n: nat, k: nat)
    requires k < n - 1 < number && bus + DESC_BYTES * number <= TWO64
    requires Unterminated(d, bus, number, k)
    ensures ChainedAt(WithAdjacent(d, n - k - 1), bus, n, k)
  {}

  lemma {:induction false} LabelLast(d: Desc, bus: u64, number: nat, n: nat)
    requires 0 < n <= number && Unterminated(d, bus, number, n - 1)
    ensures ChainedAt(WithAdjacent(Controlled(Linked(d, 0), LAST_FLAGS), 0), bus, n, n - 1)
  {}

  /** Descriptor k of the finished chain, moving what it moved before. */
  ghost predicate Labelled(d: Desc, was: Desc, bus: u64, n: nat, k: nat)
  {
    ChainedAt(d, bus, n, k) && SamePayload(d, was)
  }

  lemma {:induction false} LabelPayload(d: Desc, next: int)
    ensures SamePayload(WithAdjacent(d, next), d) && SamePayload(Controlled(Linked(d, 0), LAST_FLAGS), d)
  {}

  /** Writing the adjacency count finishes a descriptor; `d` is what terminating the chain made of `was`. */
  lemma {:induction false} LabelStep(d: Desc, was: Desc, bus: u64, number: nat, n: nat, k: nat)
    requires k < n <= number && bus + DESC_BYTES * number <= TWO64 && Unterminated(was, bus, number, k)
    requires d == if k < n - 1 then was else Controlled(Linked(was, 0), LAST_FLAGS)
    ensures Labelled(WithAdjacent(d, n - k - 1), was, bus, n, k)
  {
    LabelPayload(was, n - k - 1);
    LabelPayload(d, n - k - 1);
    if k < n - 1 {
      LabelInner(was, bus, number, n, k);
    } else {
      LabelLast(was, bus, number, n);
    }
  }

  /** Every descriptor of ds is linked to the next and has no flags. */
  ghost predicate AllUnterminated(ds: seq<Desc>, bus: u64)
  {
    forall k {:trigger Unterminated(ds[k], bus, |ds|, k)} :: 0 <= k < |ds| ==> Unterminated(ds[k], bus, |ds|, k)
  }

  ghost predicate LabelledUpto(ds: seq<Desc>, was: seq<Desc>, bus: u64, n: nat, i: nat)
  {
    && |ds| == |was| && i <= |ds|
    && forall k {:trigger Labelled(ds[k], was[k], bus, n, k)} :: 0 <= k < i ==> Labelled(ds[k], was[k], bus, n, k)
  }

  lemma {:induction false} LabelledChain(ds: seq<Desc>, was: seq<Desc>, bus: u64, n: nat)
    requires 0 < n && LabelledUpto(ds, was, bus, n, n)
    requires bus % DESC_BYTES == 0 && bus + DESC_BYTES * |ds| <= TWO64
    ensures Chained(ds, bus, n)
    ensures forall k {:trigger SamePayload(ds[k], was[k])} :: 0 <= k < n ==> SamePayload(ds[k], was[k])
  {
    forall k | 0 <= k < n
      ensures ChainedAt(ds[k], bus, n, k)
    {
      LabelledAt(ds, was, bus, n, k);
    }
    forall k | 0 <= k < n
      ensures SamePayload(ds[k], was[k])
    {
      LabelledAt(ds, was, bus, n, k);
    }
  }

  lemma {:induction false} LabelledAt(ds: seq<Desc>, was: seq<Desc>, bus: u64, n: nat, k: nat)
    requires LabelledUpto(ds, was, bus, n, n) && k < n
    ensures ChainedAt(ds[k], bus, n, k) && SamePayload(ds[k], was[k])
  {
    assert Labelled(ds[k], was[k], bus, n, k);
  }

  /** The same for the whole array: only descriptor k changed. */
  lemma {:induction false} LabelNext(ds: seq<Desc>, was: seq<Desc>, bus: u64, n: nat, k: nat, d: Desc)
    requires LabelledUpto(ds, was, bus, n, k) && k < |ds| && Labelled(d, was[k], bus, n, k)
    ensures LabelledUpto(ds[k := d], was, bus, n, k + 1)
  {
    forall x | 0 <= x < k + 1
      ensures Labelled(ds[k := d][x], was[x], bus, n, x)
    {
      if x < k { assert Labelled(ds[x], was[x], bus, n, x); }
    }
  }

  /**
    The end of transfer_create (with transfer_perf): terminates descriptor `last`, then labels each
    descriptor up to it with the number of descriptors adjacent to the next.
  */
  method Terminate(descs: array<Desc>, bus: u64, last: nat)
    requires last < descs.Length
    requires bus % DESC_BYTES == 0 && bus + DESC_BYTES * descs.Length <= TWO64
    requires AllUnterminated(descs[..], bus)
    modifies descs
    ensures Chained(descs[..], bus, last + 1) && ChainWords(descs[..], last + 1)
    ensures forall k {:trigger descs[k]} :: 0 <= k <= last ==> SamePayload(descs[k], old(descs[k]))
  {
    ghost var was := descs[..];
    descs[last] := Linked(descs[last], 0);
    descs[last] := Controlled(descs[last], LAST_FLAGS);
    var n := last + 1;
    var i := 0;
    while i < n
      invariant 0 <= i <= n
      invariant forall k :: i <= k < last ==> descs[k] == was[k]
      invariant i <= last ==> descs[last] == Controlled(Linked(was[last], 0), LAST_FLAGS)
      invariant LabelledUpto(descs[..], was, bus, n, i)
    {
      assert Unterminated(was[i], bus, |was|, i);
      LabelStep(descs[i], was[i], bus, |was|, n, i);
      LabelNext(descs[..], was, bus, n, i, WithAdjacent(descs[i], n - i - 1));
      ghost var ds := descs[..];
      descs[i] := WithAdjacent(descs[i], n - i - 1);
      assert descs[..] == ds[i := descs[i]];
      i := i + 1;
    }
    LabelledChain(descs[..], was, bus, n);
    ChainedWords(descs[..], bus, n);
  }

  /** transfer_create, when the pages of the buffer can all be had. */
  method TransferCreate(start: u64, cnt: u64, epAddr: u64, dirToDev: bool, nonIncrAddr: bool,
                        forceNewDesc: bool, userspace: bool, pt: PageTable) returns (t: Transfer)
    requires 0 < cnt && start + cnt < TWO64 && NrPages(start, cnt) < 0x8000_0000
    ensures fresh(t) && fresh(t.descs)
    ensures t.state == New && !t.cyclic && !t.lastInRequest && t.dirToDev == dirToDev
    ensures t.descNum <= NrPages(start, cnt) == t.descs.Length
    ensures ChainWords(t.descs[..], t.descNum) && forall k :: 0 <= k < t.descNum ==> t.descs[k].bytes < 0x4_0000
    ensures t.Moves(CoalesceAll(MappedSplit(pt, start, cnt), epAddr, forceNewDesc && !userspace,
                                !userspace || !nonIncrAddr))
  {
    var sgm := SgCreateMapper(cnt);
    CapacitySuffices(start, cnt, cnt);
    var rc;
    if userspace {
      rc := sgm.GetUserPages(start, cnt, pt, NrPages(start, cnt));
    } else {
      rc := sgm.KernelPages(start, cnt, pt, v => true);
    }
    forall k | 0 <= k < rc
      ensures sgm.sgl[k].offset < PAGE_SIZE
    {
      FragmentShape(start, cnt, k);
    }
    var es := DmaMap(sgm.sgl[..rc]);
    DmaMapOfSplit(sgm.sgl[..rc], pt, start, cnt);
    assert es == MappedSplit(pt, start, cnt);
    t := ChainEntries(es, epAddr, dirToDev, nonIncrAddr, forceNewDesc, userspace);
  }

  /** The part of transfer_create that follows pci_map_sg. */
  method ChainEntries(es: seq<DmaEntry>, epAddr: u64, dirToDev: bool, nonIncrAddr: bool,
                      forceNewDesc: bool, userspace: bool) returns (t: Transfer)
    requires 0 < |es| < 0x8000_0000
    requires forall k :: 0 <= k < |es| ==> es[k].len <= PAGE_SIZE
    ensures fresh(t) && fresh(t.descs)
    ensures t.state == New && !t.cyclic && !t.lastInRequest && t.dirToDev == dirToDev
    ensures t.descNum <= |es| == t.descs.Length
    ensures ChainWords(t.descs[..], t.descNum) && forall k :: 0 <= k < t.descNum ==> t.descs[k].bytes < 0x4_0000
    ensures t.Moves(CoalesceAll(es, epAddr, forceNewDesc && !userspace, !userspace || !nonIncrAddr))
  {
    var bus := AllocBus(DESC_BYTES * |es|);
    PageAligned(bus);
    var descs := XdmaDescAlloc(|es|, bus);
    ghost var blank := descs[..];
    var last := Build(descs, es, epAddr, dirToDev, nonIncrAddr, forceNewDesc, userspace);
    ghost var bs := CoalesceAll(es, epAddr, forceNewDesc && !userspace, !userspace || !nonIncrAddr);
    forall k | 0 <= k < descs.Length
      ensures Unterminated(descs[k], bus, descs.Length, k)
    {
      assert AllocatedAt(blank[k], bus, |es|, k);
    }
    ghost var filled := descs[..];
    Terminate(descs, bus, last);
    t := new Transfer(descs, bus, last + 1, dirToDev);
    CoalesceBounds(es, 0, es[0].addr, 0, epAddr, forceNewDesc && !userspace, !userspace || !nonIncrAddr);
    forall k | 0 <= k < t.descNum
      ensures Carries(descs[k], bs[k], dirToDev) && descs[k].bytes < 0x4_0000
    {
      assert bs[k] in bs;
      FilledCarries(filled[k], blank[k], bs[k], dirToDev);
      assert SamePayload(descs[k], filled[k]);
    }
  }
}
