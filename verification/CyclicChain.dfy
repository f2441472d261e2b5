/**
  cyclic_transfer_setup: the ring of descriptors that makes the hardware fill ring block k mod 256 and
  result slot k mod 256 with its k-th result.
*/
module CyclicChain {
  import opened XdmaTypes
  import opened Descriptors
  import opened DescriptorChain
  import opened ScatterGather
  import opened TransferBuild
  import opened DmaMemory
  import opened Transfers
  import opened Alignment
  import opened ResultBuffer
  import opened RxRing

  const RX_BUF_SIZE: nat := 256 * 4096
  const CYCLIC_FLAGS: bv8 := XDMA_DESC_EOP | XDMA_DESC_COMPLETED

  /**
    Descriptor k writes a page to ring block k and reports to result slot k, eight words each. It reports
    completion (0x02) and takes part in packets (0x10), and does not stop the engine (0x01).
  */
  ghost predicate Serves(d: Desc, pt: PageTable, rxBuffer: nat, resultBus: u64, k: nat)
  {
    && d.Dst() == BusOf(pt, rxBuffer + RX_BUF_BLOCK * k) && d.bytes == RX_BUF_BLOCK
    && d.Src() == Add64(resultBus, 32 * k)
    && d.control.Word() & 0xFF == 0x12
  }

  /**
    The eight words reported for a descriptor that serves slot k change the bytes of slot k and no others,
    and the driver then reads the reported status and length there, and in all other slots what it read before.
  */
  lemma {:induction false} ReportInSlot(d: Desc, pt: PageTable, rxBuffer: nat, resultBus: u64, k: nat, b: seq<u8>,
                                        words: seq<u32>)
    requires k < 256 && |b| == 256 * 32 && resultBus + 256 * 32 <= TWO64 && |words| == 8
    requires Serves(d, pt, rxBuffer, resultBus, k)
    ensures resultBus <= d.Src() <= resultBus + |b| - 32
    ensures var b' := Report(b, resultBus, d.Src(), words);
            && (forall i :: 0 <= i < |b| && !(32 * k <= i < 32 * k + 32) ==> b'[i] == b[i])
            && ReadSlot(b', k) == Result(words[0], words[1])
            && (forall j :: 0 <= j < 256 && j != k ==> ReadSlot(b', j) == ReadSlot(b, j))
  {
    Add64Exact(resultBus, 32 * k);
    ReportAt(b, resultBus, k, words);
  }

  ghost predicate SameTarget(d: Desc, e: Desc)
  {
    d.Dst() == e.Dst() && d.bytes == e.bytes
  }

  /** transfer_set_result_addresses. */
  method SetResultAddresses(t: Transfer, resultBus: u64)
    requires t.descNum <= t.descs.Length
    modifies t.descs
    ensures forall k :: 0 <= k < t.descNum ==>
      t.descs[k] == WithSource(old(t.descs[k]), Add64(resultBus, 32 * k))
  {
    var bus := resultBus;
    var i := 0;
    while i < t.descNum
      invariant 0 <= i <= t.descNum && bus == Add64(resultBus, RESULT_BYTES * i)
      invariant forall k :: 0 <= k < i ==>
        t.descs[k] == WithSource(old(t.descs[k]), Add64(resultBus, RESULT_BYTES * k))
      invariant forall k :: i <= k < t.descNum ==> t.descs[k] == old(t.descs[k])
    {
      t.descs[i] := WithSource(t.descs[i], bus);
      Add64Assoc(resultBus, RESULT_BYTES * i, RESULT_BYTES);
      bus := Add64(bus, RESULT_BYTES);
      i := i + 1;
    }
  }

  /** transfer_set_all_control: clears the flags, then sets them. */
  method SetAllControl(t: Transfer, flags: bv8)
    requires t.descNum <= t.descs.Length
    modifies t.descs
    ensures forall k :: 0 <= k < t.descNum ==> t.descs[k] == Controlled(old(t.descs[k]), flags)
  {
    var i := 0;
    while i < t.descNum
      invariant 0 <= i <= t.descNum
      invariant forall k :: 0 <= k < i ==> t.descs[k] == Controlled(old(t.descs[k]), flags)
      invariant forall k :: i <= k < t.descNum ==> t.descs[k] == old(t.descs[k])
    {
      t.descs[i] := Controlled(t.descs[i], 0);
      t.descs[i] := Controlled(t.descs[i], t.descs[i].control.flags | flags);
      i := i + 1;
    }
  }

  /** The prefetch hint of a descriptor inside a chain suits a ring as well. */
  lemma {:induction false} InnerHint(d: Desc, bus: u64, n: nat, k: nat)
    requires ChainedAt(d, bus, n, k) && k < n - 1 && bus % 32 == 0
    ensures k + 1 + d.control.FetchAdj() < n
    ensures d.Next() % 0x1000 + 32 * (1 + d.control.FetchAdj()) <= 0x1000
  {
    LowBits(d.nextHi, d.nextLo);
    LowAligned(d.nextHi, d.nextLo, bus, k + 1);
    AdjacentInPage(d.nextLo, n - k - 1);
  }

  lemma {:induction false} InnerRing(d: Desc, src: u64, bus: u64, n: nat, k: nat)
    requires ChainedAt(d, bus, n, k) && k < n - 1 && bus % 32 == 0
    ensures var r := Controlled(WithSource(d, src), CYCLIC_FLAGS);
            RingAt(r, bus, n, k) && SameTarget(r, d) && r.Src() == src && r.control.flags == CYCLIC_FLAGS
  {
    InnerHint(d, bus, n, k);
    var r := Controlled(WithSource(d, src), CYCLIC_FLAGS);
    assert r.Next() == d.Next() && r.control.FetchAdj() == d.control.FetchAdj();
  }

  /** The last descriptor, linked back to the first, announces no further one. */
  lemma {:induction false} ClosingRing(d: Desc, src: u64, bus: u64, n: nat)
    requires n > 0 && ChainedAt(d, bus, n, n - 1) && bus % 32 == 0
    ensures var r := Linked(Controlled(WithSource(d, src), CYCLIC_FLAGS), bus);
            RingAt(r, bus, n, n - 1) && SameTarget(r, d) && r.Src() == src && r.control.flags == CYCLIC_FLAGS
  {
    OffsetAligned(bus);
    LastInPage(bus % 0x1000, 1);
    var r := Linked(Controlled(WithSource(d, src), CYCLIC_FLAGS), bus);
    assert r.Next() == bus && r.control.FetchAdj() == 0;
  }

  /** cyclic_transfer_setup, for the descriptors; the ring buffer starts on a page. */
  method CyclicTransferSetup(rxBuffer: u64, pt: PageTable, resultBus: u64) returns (t: Transfer)
    requires rxBuffer % PAGE_SIZE == 0 && rxBuffer + RX_BUF_SIZE < TWO64
    ensures fresh(t) && t.cyclic && t.descNum == t.descAdjacent == RX_BUF_PAGES && t.state == New
    ensures RingOfDescs(t.descs[..], t.descBus, RX_BUF_PAGES)
    ensures t.descBus % PAGE_SIZE == 0 && InOnePage(t.descBus, 1 + FirstAdjacent(t.descAdjacent))
    ensures forall k :: 0 <= k < RX_BUF_PAGES ==> Serves(t.descs[k], pt, rxBuffer, resultBus, k)
  {
    t := TransferCreate(rxBuffer, RX_BUF_SIZE, 0, false, false, true, false, pt);
    BlocksArePages(t, pt, rxBuffer);
    FirstFetchOfTransfer(t, CoalesceAll(MappedSplit(pt, rxBuffer, RX_BUF_SIZE), 0, true, true));
    ghost var built := t.descs[..];
    SetResultAddresses(t, resultBus);
    SetAllControl(t, CYCLIC_FLAGS);
    var last := t.descNum - 1;
    t.descs[last] := Linked(t.descs[last], t.descBus);
    t.cyclic := true;
    forall k | 0 <= k < t.descNum
      ensures RingAt(t.descs[k], t.descBus, t.descNum, k) && Serves(t.descs[k], pt, rxBuffer, resultBus, k)
    {
      assert ChainedAt(built[k], t.descBus, t.descNum, k);
      if k < last {
        InnerRing(built[k], Add64(resultBus, 32 * k), t.descBus, t.descNum, k);
      } else {
        ClosingRing(built[k], Add64(resultBus, 32 * k), t.descBus, t.descNum);
      }
      LowByte(t.descs[k].control);
    }
  }

  /** Forced apart, every page of the ring buffer gets a descriptor of its own. */
  lemma {:induction false} BlocksArePages(t: Transfer, pt: PageTable, rxBuffer: u64)
    requires rxBuffer % PAGE_SIZE == 0 && rxBuffer + RX_BUF_SIZE < TWO64 && !t.dirToDev
    requires t.Moves(CoalesceAll(MappedSplit(pt, rxBuffer, RX_BUF_SIZE), 0, true, true))
    ensures t.descNum == RX_BUF_PAGES
    ensures forall k :: 0 <= k < t.descNum ==>
      t.descs[k].Dst() == BusOf(pt, rxBuffer + RX_BUF_BLOCK * k) && t.descs[k].bytes == RX_BUF_BLOCK
  {
    var es := MappedSplit(pt, rxBuffer, RX_BUF_SIZE);
    var bs := CoalesceAll(es, 0, true, true);
    CoalesceForced(es, 0, 0, true, 0);
    forall k | 0 <= k < t.descNum
      ensures t.descs[k].Dst() == BusOf(pt, rxBuffer + RX_BUF_BLOCK * k) && t.descs[k].bytes == RX_BUF_BLOCK
    {
      CoalesceForced(es, 0, 0, true, k);
      PageEntry(pt, rxBuffer, k);
      assert Carries(t.descs[k], bs[k], false);
      CarriesAddresses(t.descs[k], bs[k], false);
      assert |DescPairs(t.descs[k], false)| == |Run(bs[k].addr, bs[k].ep, bs[k].len)|;
    }
  }

  lemma {:induction false} PageEntry(pt: PageTable, rxBuffer: u64, k: nat)
    requires rxBuffer % PAGE_SIZE == 0 && k < 256
    ensures NrPages(rxBuffer, RX_BUF_SIZE) == 256
    ensures MappedSplit(pt, rxBuffer, RX_BUF_SIZE)[k]
            == DmaEntry(BusOf(pt, rxBuffer + RX_BUF_BLOCK * k), RX_BUF_BLOCK)
  {}

  /**
    The k-th descriptor executed from the start, for every k, fills ring block k mod 256 and reports to
    result slot k mod 256, the hardware position that the ring protocol calls hw: for an engine that
    follows the links, and for one that fetches as announced, starting with what engine_start writes.
  */
  lemma {:induction false} FetchAgreesWithRing(ds: seq<Desc>, bus: u64, pt: PageTable, rxBuffer: nat, resultBus: u64,
                                               fuel: nat, k: nat)
    requires RingOfDescs(ds, bus, 256) && k < fuel
    requires forall i :: 0 <= i < 256 ==> Serves(ds[i], pt, rxBuffer, resultBus, i)
    ensures var links := LinkWalk(ds, bus, Fetch(ds, bus, bus), fuel);
            var fetched := PrefetchWalk(ds, bus, Fetch(ds, bus, bus), FirstAdjacent(256), fuel);
            && |links| == fuel <= |fetched| && fetched[k] == links[k] == k % 256
            && Serves(ds[fetched[k]], pt, rxBuffer, resultBus, k % 256)
            && !ds[fetched[k]].control.Stopped()
  {
    RingWalksAgree(ds, bus, 256, FirstAdjacent(256), fuel, k);
    FollowRing(ds, bus, 256, k % 256);
  }
}
