/**
  What the hardware makes of a descriptor chain: walking it link by link, and walking it with the
  prefetch of contiguous descriptors that the adjacency counts announce.
*/
module DescriptorChain {
  import opened XdmaTypes
  import opened Descriptors

  const LAST_FLAGS: bv8 := XDMA_DESC_STOPPED | XDMA_DESC_EOP | XDMA_DESC_COMPLETED

  /** Index, in the array allocated at `bus`, of the descriptor at bus address `at`. */
  function Fetch(ds: seq<Desc>, bus: u64, at: u64): Option<nat>
  {
    if bus <= at && (at - bus) % DESC_BYTES == 0 && (at - bus) / DESC_BYTES < |ds|
    then Some((at - bus) / DESC_BYTES)
    else None
  }

  /** Descriptor that the next pointer of descriptor i leads to. */
  function Follow(ds: seq<Desc>, bus: u64, i: nat): (r: Option<nat>)
    requires i < |ds|
    ensures r.Some? ==> r.value < |ds|
  {
    Fetch(ds, bus, ds[i].Next())
  }

  /** Indices of the descriptors executed when the engine is at descriptor `at`, up to `fuel` of them. */
  function LinkWalk(ds: seq<Desc>, bus: u64, at: Option<nat>, fuel: nat): seq<nat>
    requires at.Some? ==> at.value < |ds|
    decreases fuel
  {
    if fuel == 0 || at.None? then [] else
    var i := at.value;
    if ds[i].control.Stopped() then [i] else [i] + LinkWalk(ds, bus, Follow(ds, bus, i), fuel - 1)
  }

  /** Descriptors executed out of `count` fetched together at index i. */
  function BlockRun(ds: seq<Desc>, i: nat, count: nat): (run: seq<nat>)
    requires 0 < count && i + count <= |ds|
    ensures 0 < |run| <= count
    ensures forall k :: 0 <= k < |run| ==> run[k] == i + k
    ensures |run| < count ==> ds[i + |run| - 1].control.Stopped()
    ensures forall k :: i <= k < i + |run| - 1 ==> !ds[k].control.Stopped()
    decreases count
  {
    if ds[i].control.Stopped() || count == 1 then [i] else [i] + BlockRun(ds, i + 1, count - 1)
  }

  /** Like LinkWalk, but fetching 1 + adj contiguous descriptors at a time, up to `fuel` times. */
  function PrefetchWalk(ds: seq<Desc>, bus: u64, at: Option<nat>, adj: nat, fuel: nat): seq<nat>
    requires at.Some? ==> at.value < |ds|
    decreases fuel
  {
    if fuel == 0 || at.None? || at.value + 1 + adj > |ds| then [] else
    var run := BlockRun(ds, at.value, 1 + adj);
    var last := at.value + |run| - 1;
    if ds[last].control.Stopped() then run
    else run + PrefetchWalk(ds, bus, Follow(ds, bus, last), ds[last].control.FetchAdj(), fuel - 1)
  }

  function Range(lo: nat, hi: nat): (r: seq<nat>)
    requires lo <= hi
    ensures |r| == hi - lo && forall k :: 0 <= k < |r| ==> r[k] == lo + k
  {
    seq(hi - lo, k requires 0 <= k => lo + k)
  }

  lemma {:induction false} FetchAt(ds: seq<Desc>, bus: u64, i: nat)
    requires bus + DESC_BYTES * |ds| <= TWO64 && i < |ds|
    ensures Fetch(ds, bus, bus + DESC_BYTES * i) == Some(i)
  {}

  lemma {:induction false} RangeConcat(lo: nat, mid: nat, hi: nat)
    requires lo <= mid <= hi
    ensures Range(lo, mid) + Range(mid, hi) == Range(lo, hi)
  {}

  // ----- chains as transfer_create leaves them

  /** The first n descriptors of ds form a terminated chain at bus address `bus`. */
  ghost predicate Chained(ds: seq<Desc>, bus: u64, n: nat)
  {
    && 0 < n <= |ds|
    && bus % DESC_BYTES == 0 && bus + DESC_BYTES * |ds| <= TWO64
    && forall i {:trigger ChainedAt(ds[i], bus, n, i)} :: 0 <= i < n ==> ChainedAt(ds[i], bus, n, i)
  }

  ghost predicate ChainedAt(d: Desc, bus: int, n: nat, i: nat)
  {
    if i < n - 1 then
      && d.Next() == bus + DESC_BYTES * (i + 1)
      && d.control == Control(DESC_MAGIC, 0, AdjacentCount(d.nextLo, n - i - 1), 0)
    else
      d.Next() == 0 && d.control == Control(DESC_MAGIC, 0, 0, LAST_FLAGS)
  }

  lemma {:induction false} FollowChain(ds: seq<Desc>, bus: u64, n: nat, i: nat)
    requires Chained(ds, bus, n) && i < n - 1
    ensures Follow(ds, bus, i) == Some(i + 1)
  {
    assert ChainedAt(ds[i], bus, n, i);
    FetchAt(ds, bus, i + 1);
  }

  /** The only descriptor of the chain that stops the engine is the last one. */
  lemma {:induction false} OnlyLastStops(ds: seq<Desc>, bus: u64, n: nat, i: nat)
    requires Chained(ds, bus, n) && i < n
    ensures ds[i].control.Stopped() <==> i == n - 1
  {
    assert ChainedAt(ds[i], bus, n, i);
  }

  /** Following the links executes the n built descriptors in order and stops, however many were allocated. */
  lemma {:induction false} LinkWalkVisitsAll(ds: seq<Desc>, bus: u64, n: nat, i: nat, fuel: nat)
    requires Chained(ds, bus, n) && i < n <= i + fuel
    ensures LinkWalk(ds, bus, Some(i), fuel) == Range(i, n)
    decreases n - i
  {
    OnlyLastStops(ds, bus, n, i);
    if i < n - 1 {
      FollowChain(ds, bus, n, i);
      LinkWalkVisitsAll(ds, bus, n, i + 1, fuel - 1);
    }
  }

  /** What is prefetched with the next descriptor stays inside the chain. */
  lemma {:induction false} PrefetchInChain(ds: seq<Desc>, bus: u64, n: nat, i: nat)
    requires Chained(ds, bus, n) && i < n - 1
    ensures i + 1 + ds[i].control.FetchAdj() < n
  {
    assert ChainedAt(ds[i], bus, n, i);
  }

  lemma {:induction false} RoomInPage(off: int)
    requires 0 <= off < 0x1000 && off % 32 == 0
    ensures off + 32 * ((0x1000 - off) / 32) == 0x1000
    ensures ((0x1000 - off) / 32 - 1) % 0x1_0000_0000 == (0x1000 - off) / 32 - 1
  {}

  lemma {:induction false} OffsetAligned(lo: int)
    requires lo % 32 == 0
    ensures lo % 0x1000 % 32 == 0
  {
    assert lo % 0x1000 == 32 * (lo / 32 - 128 * (lo / 0x1000));
  }

  lemma {:induction false} AdjacentInPage(lo: u32, nextAdjacent: int)
    requires lo % 32 == 0
    ensures lo % 0x1000 + 32 * (1 + AdjacentCount(lo, nextAdjacent)) <= 0x1000
  {
    OffsetAligned(lo);
    RoomInPage(lo % 0x1000);
  }

  /** No more could be announced: 15 are, or all that follow, or the page has no room for one more. */
  lemma {:induction false} AdjacentMaximal(lo: u32, nextAdjacent: int)
    requires lo % 32 == 0 && nextAdjacent > 0
    ensures var adj := AdjacentCount(lo, nextAdjacent);
            adj == 15 || adj == nextAdjacent - 1 || lo % 0x1000 + 32 * (2 + adj) > 0x1000
  {
    OffsetAligned(lo);
    RoomInPage(lo % 0x1000);
  }

  lemma {:induction false} LowBits(hi: int, lo: int)
    ensures (hi * 0x1_0000_0000 + lo) % 0x1000 == lo % 0x1000
  {}

  lemma {:induction false} NextInChain(ds: seq<Desc>, bus: u64, n: nat, i: nat)
    requires Chained(ds, bus, n) && i < n - 1
    ensures ds[i].control.FetchAdj() == AdjacentCount(ds[i].nextLo, n - i - 1)
    ensures ds[i].Next() == bus + 32 * (i + 1)
  {
    assert ChainedAt(ds[i], bus, n, i);
  }

  /** What is prefetched with the next descriptor stays inside one 4 KB page. */
  lemma {:induction false} PrefetchInPage(ds: seq<Desc>, bus: u64, n: nat, i: nat)
    requires Chained(ds, bus, n) && i < n - 1
    ensures ds[i].Next() % 0x1000 + DESC_BYTES * (1 + ds[i].control.FetchAdj()) <= 0x1000
  {
    NextInChain(ds, bus, n, i);
    LowBits(ds[i].nextHi, ds[i].nextLo);
    LowAligned(ds[i].nextHi, ds[i].nextLo, bus, i + 1);
    AdjacentInPage(ds[i].nextLo, n - i - 1);
  }

  /** And as many are announced as 15, the chain and the page allow. */
  lemma {:induction false} PrefetchMaximal(ds: seq<Desc>, bus: u64, n: nat, i: nat)
    requires Chained(ds, bus, n) && i < n - 1
    ensures var adj := ds[i].control.FetchAdj();
            adj == 15 || i + 1 + adj == n - 1 || ds[i].Next() % 0x1000 + 32 * (2 + adj) > 0x1000
  {
    NextInChain(ds, bus, n, i);
    LowBits(ds[i].nextHi, ds[i].nextLo);
    LowAligned(ds[i].nextHi, ds[i].nextLo, bus, i + 1);
    AdjacentMaximal(ds[i].nextLo, n - i - 1);
  }

  /** The low word of a descriptor's bus address is a multiple of 32. */
  lemma {:induction false} LowAligned(hi: int, lo: int, bus: int, k: int)
    requires hi * 0x1_0000_0000 + lo == bus + 32 * k && bus % 32 == 0
    ensures lo % 32 == 0
  {}

  /** A block fetched inside the chain runs to its end, or to the end of the chain. */
  lemma {:induction false} BlockInChain(ds: seq<Desc>, bus: u64, n: nat, i: nat, adj: nat)
    requires Chained(ds, bus, n) && i + adj < n
    ensures BlockRun(ds, i, 1 + adj) == Range(i, i + adj + 1)
  {
    var run := BlockRun(ds, i, 1 + adj);
    OnlyLastStops(ds, bus, n, i + |run| - 1);
    assert |run| == adj + 1;
  }

  /** One fetch inside the chain: the whole block runs, and what the rest of the walk executes follows it. */
  lemma {:induction false} PrefetchStep(ds: seq<Desc>, bus: u64, n: nat, i: nat, adj: nat, fuel: nat, rest: seq<nat>)
    requires Chained(ds, bus, n) && i + adj < n && fuel > 0
    requires i + adj < n - 1 ==>
      rest == PrefetchWalk(ds, bus, Some(i + adj + 1), ds[i + adj].control.FetchAdj(), fuel - 1)
    ensures PrefetchWalk(ds, bus, Some(i), adj, fuel)
            == if i + adj == n - 1 then Range(i, n) else Range(i, i + adj + 1) + rest
  {
    BlockInChain(ds, bus, n, i, adj);
    OnlyLastStops(ds, bus, n, i + adj);
    if i + adj < n - 1 { FollowChain(ds, bus, n, i + adj); }
  }

  /** Prefetching executes the same descriptors as following the links. */
  lemma {:induction false} PrefetchVisitsAll(ds: seq<Desc>, bus: u64, n: nat, i: nat, adj: nat, fuel: nat)
    requires Chained(ds, bus, n) && i + adj < n <= i + fuel
    ensures PrefetchWalk(ds, bus, Some(i), adj, fuel) == Range(i, n)
    decreases n - i
  {
    var next := i + adj + 1;
    if next < n {
      PrefetchInChain(ds, bus, n, i + adj);
      PrefetchVisitsAll(ds, bus, n, next, ds[i + adj].control.FetchAdj(), fuel - 1);
      RangeConcat(i, next, n);
    }
    PrefetchStep(ds, bus, n, i, adj, fuel, if next < n then Range(next, n) else []);
  }

  lemma {:induction false} PrefetchAgrees(ds: seq<Desc>, bus: u64, n: nat, adj: nat, fuel: nat)
    requires Chained(ds, bus, n) && adj < n <= fuel
    ensures PrefetchWalk(ds, bus, Fetch(ds, bus, bus), adj, fuel) == LinkWalk(ds, bus, Fetch(ds, bus, bus), fuel)
  {
    FetchAt(ds, bus, 0);
    PrefetchVisitsAll(ds, bus, n, 0, adj, fuel);
    LinkWalkVisitsAll(ds, bus, n, 0, fuel);
  }

  // ----- the control words of a chain

  /** The lowest byte of a control word is its flags. */
  lemma {:induction false} LowByte(c: Control)
    ensures c.Word() & 0xFF == c.flags as bv32
  {}

  /**
    In raw bits: the last descriptor stops the engine (0x01), reports completion (0x02) and ends the packet
    (0x10), and announces nothing; all others have magic number and adjacency only.
  */
  ghost predicate ChainWords(ds: seq<Desc>, n: nat)
  {
    && 0 < n <= |ds| && ds[n - 1].control.Word() == 0xAD4B_0013
    && forall i {:trigger ds[i]} :: 0 <= i < n - 1 ==> ds[i].control.Word() & 0xFFFF_F0FF == 0xAD4B_0000
  }

  lemma {:induction false} ChainedWords(ds: seq<Desc>, bus: u64, n: nat)
    requires Chained(ds, bus, n)
    ensures ChainWords(ds, n)
  {
    assert ChainedAt(ds[n - 1], bus, n, n - 1);
    LastWord();
    forall i | 0 <= i < n - 1
      ensures ds[i].control.Word() & 0xFFFF_F0FF == 0xAD4B_0000
    {
      assert ChainedAt(ds[i], bus, n, i);
      InnerWord(AdjacentCount(ds[i].nextLo, n - i - 1));
    }
  }

  lemma {:induction false} LastWord()
    ensures Control(DESC_MAGIC, 0, 0, LAST_FLAGS).Word() == 0xAD4B_0013
  {}

  lemma {:induction false} InnerWord(adj: u4)
    ensures Control(DESC_MAGIC, 0, adj, 0).Word() & 0xFFFF_F0FF == 0xAD4B_0000
  {}

  /** The hardware interrupts for an executed descriptor that asks for it with the COMPLETED bit. */
  predicate Interrupts(ds: seq<Desc>, walk: seq<nat>)
    requires forall k :: 0 <= k < |walk| ==> walk[k] < |ds|
  {
    exists k :: 0 <= k < |walk| && ds[walk[k]].control.Word() & 0x02 != 0
  }

  /** Executing a whole chain raises the interrupt. */
  lemma {:induction false} ChainInterrupts(ds: seq<Desc>, bus: u64, n: nat)
    requires Chained(ds, bus, n)
    ensures Interrupts(ds, Range(0, n))
  {
    ChainedWords(ds, bus, n);
    assert Range(0, n)[n - 1] == n - 1;
  }

  // ----- the first fetch

  /** The count engine_start writes to first_desc_adjacent. */
  function FirstAdjacent(descAdjacent: nat): nat
  {
    if descAdjacent > 0 then Min(descAdjacent - 1, MAX_EXTRA_ADJ) else 0
  }

  /** Every one of the first n descriptors of an array at `bus` lies in the 4 KB page of the first. */
  ghost predicate InOnePage(bus: nat, n: nat)
  {
    forall i {:trigger PageOf(bus, i)} :: 0 <= i < n ==> PageOf(bus, i) == bus / 0x1000
  }

  /** The 4 KB page of descriptor i. */
  function PageOf(bus: nat, i: nat): nat { (bus + DESC_BYTES * i) / 0x1000 }

  lemma {:induction false} SamePage(bus: nat, i: nat)
    requires bus % DESC_BYTES == 0
    ensures PageOf(bus, i) == bus / 0x1000 <==> bus % 0x1000 + 32 * i < 0x1000
  {
    assert bus + 32 * i == 0x1000 * (bus / 0x1000) + (bus % 0x1000 + 32 * i);
  }

  /**
    The first fetch is not capped at 4 KB: the descriptors it reads lie in one page exactly when the
    16, or fewer, at the start of the array end within its page, which a page-aligned array ensures.
  */
  lemma {:induction false} FirstFetchInPage(bus: u64, n: nat)
    requires bus % DESC_BYTES == 0 && n > 0
    ensures 1 + FirstAdjacent(n) <= n
    ensures InOnePage(bus, 1 + FirstAdjacent(n)) <==> bus % 0x1000 + DESC_BYTES * Min(n, 16) <= 0x1000
    ensures bus % 0x1000 == 0 ==> InOnePage(bus, 1 + FirstAdjacent(n))
  {
    var fetched := 1 + FirstAdjacent(n);
    assert fetched == Min(n, 16);
    OffsetAligned(bus);
    forall i: nat | i < fetched
      ensures PageOf(bus, i) == bus / 0x1000 <==> bus % 0x1000 + 32 * i < 0x1000
    {
      SamePage(bus, i);
    }
    LastInPage(bus % 0x1000, fetched);
    assert InOnePage(bus, fetched) ==> PageOf(bus, fetched - 1) == bus / 0x1000;
  }

  lemma {:induction false} LastInPage(off: nat, n: nat)
    requires off % 32 == 0 && n > 0
    ensures off + 32 * (n - 1) < 0x1000 <==> off + 32 * n <= 0x1000
  {}

  // ----- cyclic chains

  /** All n descriptors are linked in a ring, none stops the engine, and no prefetch leaves the ring. */
  ghost predicate RingOfDescs(ds: seq<Desc>, bus: u64, n: nat)
  {
    && 0 < n <= |ds|
    && bus + DESC_BYTES * |ds| <= TWO64
    && forall i {:trigger RingAt(ds[i], bus, n, i)} :: 0 <= i < n ==> RingAt(ds[i], bus, n, i)
  }

  /** Index of the descriptor after number i in a ring of n. */
  function RingNext(n: nat, i: nat): nat { if i < n - 1 then i + 1 else 0 }

  ghost predicate RingAt(d: Desc, bus: int, n: nat, i: nat)
  {
    && !d.control.Stopped() && d.Next() == bus + DESC_BYTES * RingNext(n, i)
    && RingNext(n, i) + d.control.FetchAdj() < n
    && d.Next() % 0x1000 + DESC_BYTES * (1 + d.control.FetchAdj()) <= 0x1000
  }

  lemma {:induction false} FollowRing(ds: seq<Desc>, bus: u64, n: nat, i: nat)
    requires RingOfDescs(ds, bus, n) && i < n
    ensures !ds[i].control.Stopped()
    ensures Follow(ds, bus, i) == Some(RingNext(n, i)) && RingNext(n, i) + ds[i].control.FetchAdj() < n
  {
    assert RingAt(ds[i], bus, n, i);
    FetchAt(ds, bus, RingNext(n, i));
  }

  /** The k-th descriptor fetched from the start of a ring of n is number k mod n, for every k. */
  lemma {:induction false} RingWalk(ds: seq<Desc>, bus: u64, n: nat, start: nat, fuel: nat, k: nat)
    requires RingOfDescs(ds, bus, n) && start < n && k < fuel
    ensures |LinkWalk(ds, bus, Some(start), fuel)| == fuel
    ensures LinkWalk(ds, bus, Some(start), fuel)[k] == (start + k) % n
    decreases fuel
  {
    FollowRing(ds, bus, n, start);
    if fuel > 1 {
      RingWalk(ds, bus, n, RingNext(n, start), fuel - 1, if k == 0 then 0 else k - 1);
    }
    if k == 0 { DivUnique(start, n, 0, start); } else { RingStep(n, start, k); }
  }

  /** Place k after number i is place k - 1 after the next. */
  lemma {:induction false} RingStep(n: nat, i: nat, k: nat)
    requires i < n && k > 0
    ensures (RingNext(n, i) + (k - 1)) % n == (i + k) % n
  {
    if i == n - 1 { ModShift(k - 1, n); }
  }

  /** A block fetched inside a ring runs to its end. */
  lemma {:induction false} BlockInRing(ds: seq<Desc>, bus: u64, n: nat, i: nat, adj: nat)
    requires RingOfDescs(ds, bus, n) && i + adj < n
    ensures BlockRun(ds, i, 1 + adj) == Range(i, i + adj + 1)
  {
    var run := BlockRun(ds, i, 1 + adj);
    FollowRing(ds, bus, n, i + |run| - 1);
    assert |run| == adj + 1;
  }

  /** One fetch in a ring: the whole block runs, and what the rest of the walk executes follows it. */
  lemma {:induction false} RingPrefetchStep(ds: seq<Desc>, bus: u64, n: nat, i: nat, adj: nat, fuel: nat,
                                            rest: seq<nat>)
    requires RingOfDescs(ds, bus, n) && i + adj < n && fuel > 0
    requires rest == PrefetchWalk(ds, bus, Some(RingNext(n, i + adj)), ds[i + adj].control.FetchAdj(), fuel - 1)
    ensures PrefetchWalk(ds, bus, Some(i), adj, fuel) == Range(i, i + adj + 1) + rest
  {
    BlockInRing(ds, bus, n, i, adj);
    FollowRing(ds, bus, n, i + adj);
  }

  /** The first m entries go around a ring of n, from `start` on. */
  ghost predicate Cycles(walk: seq<nat>, n: nat, start: nat, m: nat)
    requires n > 0
  {
    |walk| >= m && forall k {:trigger walk[k]} :: 0 <= k < m ==> walk[k] == (start + k) % n
  }

  lemma {:induction false} CyclesOn(n: nat, i: nat, last: nat, rest: seq<nat>, m: nat)
    requires i <= last < n && m > 0 && Cycles(rest, n, RingNext(n, last), m - 1)
    ensures Cycles(Range(i, last + 1) + rest, n, i, m)
  {
    var walk := Range(i, last + 1) + rest;
    forall k | 0 <= k < m
      ensures walk[k] == (i + k) % n
    {
      if k <= last - i {
        DivUnique(i + k, n, 0, i + k);
      } else {
        assert walk[k] == rest[k - (last - i) - 1];
        RingStep(n, last, k - (last - i));
      }
    }
  }

  /** Prefetching, too, makes the k-th descriptor executed number k mod n, for every k. */
  lemma {:induction false} RingPrefetchWalk(ds: seq<Desc>, bus: u64, n: nat, start: nat, adj: nat, fuel: nat)
    requires RingOfDescs(ds, bus, n) && start + adj < n && fuel > 0
    ensures Cycles(PrefetchWalk(ds, bus, Some(start), adj, fuel), n, start, fuel)
    decreases fuel
  {
    var last := start + adj;
    FollowRing(ds, bus, n, last);
    var next, adj' := RingNext(n, last), ds[last].control.FetchAdj();
    var rest := PrefetchWalk(ds, bus, Some(next), adj', fuel - 1);
    if fuel > 1 { RingPrefetchWalk(ds, bus, n, next, adj', fuel - 1); }
    CyclesOn(n, start, last, rest, fuel);
    RingPrefetchStep(ds, bus, n, start, adj, fuel, rest);
  }

  /** From the start of a ring, following the links and fetching as announced execute the same descriptors. */
  lemma {:induction false} RingWalksAgree(ds: seq<Desc>, bus: u64, n: nat, adj: nat, fuel: nat, k: nat)
    requires RingOfDescs(ds, bus, n) && adj < n && k < fuel
    ensures var links := LinkWalk(ds, bus, Fetch(ds, bus, bus), fuel);
            var fetched := PrefetchWalk(ds, bus, Fetch(ds, bus, bus), adj, fuel);
            |links| == fuel <= |fetched| && fetched[k] == links[k] == k % n
  {
    FetchAt(ds, bus, 0);
    RingWalk(ds, bus, n, 0, fuel, k);
    RingPrefetchWalk(ds, bus, n, 0, adj, fuel);
  }

  lemma {:induction false} ModShift(k: nat, n: nat)
    requires n > 0
    ensures (k + n) % n == k % n
  {
    DivUnique(k + n, n, k / n + 1, k % n);
  }

  lemma {:induction false} DivUnique(a: nat, n: nat, q: nat, r: nat)
    requires n > 0 && a == n * q + r && r < n
    ensures a / n == q && a % n == r
  {
    MulOrder(n, a / n - q);
  }

  lemma {:induction false} MulOrder(n: int, d: int)
    requires n > 0
    ensures d >= 1 ==> n * d >= n
    ensures d <= -1 ==> n * d <= -n
  {}
}
