/**
  The receive ring of a streaming C2H engine: following the hardware (engine_ring_process), claiming
  results (complete_cyclic) and copying claimed blocks to the user (copy_cyclic_to_user).
*/
module RxRing {
  import opened XdmaTypes

  // pcie_dma_driver/include/xdma-core.h:79, 133-136, 156
  const RX_BUF_BLOCK: nat := 4096
  const RX_BUF_PAGES: nat := 256
  const C2H_WB: nat := 0x52B4
  const EIO: int := 5

  /** struct xdma_result: what the hardware reports about one ring block. */
  datatype Result = Result(status: u32, length: u32)
  {
    predicate Eop() { status % 2 == 1 }

    predicate HasMagic() { status / 0x1_0000 == C2H_WB }

    /** Accepted by complete_cyclic. */
    predicate Good() { HasMagic() && 0 < length <= RX_BUF_BLOCK }
  }

  /** The result slots and the driver's ring indices. */
  datatype Ring = Ring(results: seq<Result>, head: nat, tail: nat, overrun: bool)
  {
    predicate WellShaped() { |results| == 256 && head < 256 && tail < 256 }
  }

  function Succ(i: nat): nat { (i + 1) % 256 }

  // ----- engine_ring_process

  predicate ScanMore(r: Ring)
    requires r.WellShaped()
  {
    r.results[r.tail].status != 0 && !r.overrun
  }

  /** One iteration of the loop. */
  function ScanStep(r: Ring): (r': Ring)
    requires r.WellShaped() && ScanMore(r)
    ensures r'.WellShaped()
  {
    r.(tail := Succ(r.tail), overrun := Succ(r.tail) == r.head)
  }

  /** How many more iterations the scan can make: the tail's distance to the head. */
  function ScanRoom(r: Ring): nat
    requires r.WellShaped()
  {
    if r.overrun then 0 else if r.tail < r.head then r.head - r.tail else r.head + 256 - r.tail
  }

  /** The whole loop, for arbitrary slot contents; returns the number of EOPs seen as well. */
  function Scan(r: Ring): (p: (Ring, nat))
    requires r.WellShaped()
    ensures p.0.WellShaped() && p.0.results == r.results && p.0.head == r.head
    decreases ScanRoom(r)
  {
    if !ScanMore(r) then (r, 0) else
    var rest := Scan(ScanStep(r));
    (rest.0, rest.1 + if r.results[r.tail].Eop() then 1 else 0)
  }

  /** The slot k places after `at`. */
  function Around(at: nat, k: nat): nat { (at + k) % 256 }

  lemma {:induction false} AroundSucc(at: nat, k: nat)
    requires at < 256
    ensures Around(Succ(at), k) == Around(at, k + 1)
  {}

  /** The n slots from `at` on, around the ring, are filled. */
  ghost predicate FilledRun(results: seq<Result>, at: nat, n: nat)
    requires |results| == 256
  {
    forall k {:trigger Around(at, k)} :: 0 <= k < n ==> results[Around(at, k)].status != 0
  }

  /** How many of the n slots from `at` on, around the ring, end a packet. */
  function EopCount(results: seq<Result>, at: nat, n: nat): nat
    requires |results| == 256 && at < 256
    decreases n
  {
    if n == 0 then 0 else (if results[at].status % 2 == 1 then 1 else 0) + EopCount(results, Succ(at), n - 1)
  }

  /** The tail passed n filled slots, among them `eops` EOPs, and could not pass a further one. */
  ghost predicate Scanned(r: Ring, n: nat, r': Ring, eops: nat)
    requires r.WellShaped()
  {
    && n <= ScanRoom(r) && FilledRun(r.results, r.tail, n)
    && r' == r.(tail := Around(r.tail, n), overrun := n == ScanRoom(r))
    && (n < ScanRoom(r) ==> r.results[r'.tail].status == 0)
    && eops == EopCount(r.results, r.tail, n)
  }

  /**
    What the scan computes: the tail passes the longest run of filled slots that does not go beyond the
    head, which it reaches only as an overrun, and the count is the number of EOPs passed.
  */
  lemma {:induction false} ScanMeaning(r: Ring) returns (n: nat)
    requires r.WellShaped() && !r.overrun
    ensures Scanned(r, n, Scan(r).0, Scan(r).1)
    decreases ScanRoom(r)
  {
    n := 0;
    if ScanMore(r) {
      var next := ScanStep(r);
      if next.overrun {
        n := 1;
        assert Scan(next) == (next, 0);
        assert EopCount(r.results, next.tail, 0) == 0;
      } else {
        var m := ScanMeaning(next);
        n := m + 1;
        ScannedCons(r, m, Scan(next).0, Scan(next).1);
      }
    }
  }

  lemma {:induction false} ScannedCons(r: Ring, m: nat, r': Ring, eops: nat)
    requires r.WellShaped() && ScanMore(r) && Succ(r.tail) != r.head && Scanned(ScanStep(r), m, r', eops)
    ensures Scanned(r, m + 1, r', eops + if r.results[r.tail].Eop() then 1 else 0)
  {
    AroundSucc(r.tail, m);
    FilledCons(r.results, r.tail, m);
    assert ScanRoom(r) == ScanRoom(ScanStep(r)) + 1;
  }

  lemma {:induction false} FilledCons(results: seq<Result>, at: nat, m: nat)
    requires |results| == 256 && at < 256 && results[at].status != 0 && FilledRun(results, Succ(at), m)
    ensures FilledRun(results, at, m + 1)
  {
    forall k: nat | k < m + 1
      ensures results[Around(at, k)].status != 0
    {
      if k > 0 { AroundSucc(at, k - 1); }
    }
  }

  // ----- the claim loop of complete_cyclic

  /** Ring and local variables of the loop. */
  datatype Claim = Claim(ring: Ring, pktLength: nat, credits: nat, fault: bool, eop: bool)

  predicate ClaimMore(c: Claim)
  {
    (c.ring.head != c.ring.tail || c.ring.overrun) && !c.fault && !c.eop
  }

  /** One iteration of the loop: judge the result at the head, clear it, move on. */
  function ClaimStep(c: Claim): (c': Claim)
    requires c.ring.WellShaped() && ClaimMore(c)
    ensures c'.ring.WellShaped()
  {
    var r := c.ring;
    var result := r.results[r.head];
    var ring' := r.(results := r.results[r.head := Result(0, 0)], head := Succ(r.head));
    if result.Good() then
      Claim(ring', c.pktLength + result.length, c.credits + 1, false, result.Eop())
    else
      c.(ring := ring', fault := true)
  }

  /**
    What the loop makes of the raw words of a result: it is malformed unless the upper half of its status
    is the magic number and its length is from 1 to 4096, and ends a packet by the lowest status bit.
  */
  lemma {:induction false} ClaimStepWords(c: Claim)
    requires c.ring.WellShaped() && ClaimMore(c)
    ensures var w, c' := c.ring.results[c.ring.head], ClaimStep(c);
            && (c'.fault <==> w.status / 0x1_0000 != 0x52B4 || w.length == 0 || w.length > 4096)
            && (c'.fault ==> !c'.eop && c'.pktLength == c.pktLength && c'.credits == c.credits)
            && (!c'.fault ==> (c'.eop <==> w.status % 2 == 1)
                              && c'.pktLength == c.pktLength + w.length && c'.credits == c.credits + 1)
  {}

  /** Slots holding a nonzero status. */
  function Filled(results: seq<Result>): nat
  {
    if results == [] then 0 else (if results[0].status != 0 then 1 else 0) + Filled(results[1..])
  }

  lemma {:induction false} FilledClear(results: seq<Result>, i: nat)
    requires i < |results|
    ensures Filled(results[i := Result(0, 0)]) == Filled(results) - if results[i].status != 0 then 1 else 0
    decreases i
  {
    if i > 0 {
      assert results[i := Result(0, 0)][1..] == results[1..][i - 1 := Result(0, 0)];
      FilledClear(results[1..], i - 1);
    } else {
      assert results[0 := Result(0, 0)][1..] == results[1..];
    }
  }

  /**
    Every iteration either clears a filled slot or is the last one, so the loop ends whatever the
    slots contain, even with the overrun flag set.
  */
  lemma {:induction false} ClaimProgress(c: Claim)
    requires c.ring.WellShaped() && ClaimMore(c)
    ensures var c' := ClaimStep(c);
            || Filled(c'.ring.results) < Filled(c.ring.results)
            || (Filled(c'.ring.results) == Filled(c.ring.results) && c'.fault)
  {
    FilledClear(c.ring.results, c.ring.head);
  }

  /** The whole loop, for arbitrary slot contents. */
  function ClaimAll(c: Claim): (c': Claim)
    requires c.ring.WellShaped()
    ensures c'.ring.WellShaped() && !ClaimMore(c')
    decreases Filled(c.ring.results), ClaimMore(c)
  {
    if !ClaimMore(c) then c else
    ClaimProgress(c);
    ClaimAll(ClaimStep(c))
  }

  // ----- what the claim loop computes

  /** The k-th result a loop starting at `at` reads: it clears what it reads, so after 256 it finds empty slots. */
  function ReadAt(results: seq<Result>, at: nat, k: nat): Result
    requires |results| == 256
  {
    if k < 256 then results[Around(at, k)] else Result(0, 0)
  }

  /** How many places after `at` slot j is. */
  function Offset(at: nat, j: nat): nat { (j - at) % 256 }

  /** Clearing the slot read first leaves the results read after it alone. */
  lemma {:induction false} ReadNext(results: seq<Result>, at: nat, k: nat)
    requires |results| == 256 && at < 256
    ensures ReadAt(results[at := Result(0, 0)], Succ(at), k) == ReadAt(results, at, k + 1)
  {
    AroundSucc(at, k);
  }

  /** Sum of the lengths of the first n results read. */
  function Lengths(results: seq<Result>, at: nat, n: nat): nat
    requires |results| == 256
  {
    if n == 0 then 0 else Lengths(results, at, n - 1) + ReadAt(results, at, n - 1).length
  }

  lemma {:induction false} LengthsNext(results: seq<Result>, at: nat, n: nat)
    requires |results| == 256 && at < 256
    ensures Lengths(results, at, n + 1)
            == results[at].length + Lengths(results[at := Result(0, 0)], Succ(at), n)
  {
    if n == 0 {
      assert Lengths(results, at, 1) == Lengths(results, at, 0) + ReadAt(results, at, 0).length;
    } else {
      LengthsNext(results, at, n - 1);
      ReadNext(results, at, n - 1);
    }
  }

  /** The slots read, and no others, are cleared. */
  ghost predicate ClearedRun(results: seq<Result>, at: nat, n: nat, results': seq<Result>)
  {
    && |results'| == |results| == 256
    && forall j {:trigger results'[j]} :: 0 <= j < 256 ==>
         results'[j] == if Offset(at, j) < n then Result(0, 0) else results[j]
  }

  /** The raw words of a result that is claimed. */
  predicate GoodWords(w: Result) { w.status / 0x1_0000 == 0x52B4 && 1 <= w.length <= 4096 }

  /** The raw status of a result that ends a packet. */
  predicate EopWord(w: Result) { w.status % 2 == 1 }

  /** All of the first n results read are good, and none ends a packet but the last. */
  ghost predicate GoodRun(results: seq<Result>, at: nat, n: nat)
    requires |results| == 256
  {
    forall k {:trigger ReadAt(results, at, k)} :: 0 <= k < n ==>
      GoodWords(ReadAt(results, at, k)) && (k < n - 1 ==> !EopWord(ReadAt(results, at, k)))
  }

  /**
    From ring r, `good` results were claimed: all good, at most the last ending a packet. Then came a
    malformed one, if `fault`. The loop stopped for that, at the EOP, or at the tail.
  */
  ghost predicate Claimed(r: Ring, good: nat, c: Claim)
    requires r.WellShaped()
  {
    var n := good + if c.fault then 1 else 0;
    && c.ring == r.(head := c.ring.head, results := c.ring.results) && HeadMoved(r, n, c.ring.head)
    && ClearedRun(r.results, r.head, n, c.ring.results)
    && GoodRun(r.results, r.head, good)
    && (c.eop <==> good > 0 && EopWord(ReadAt(r.results, r.head, good - 1)))
    && (c.fault ==> !c.eop && !GoodWords(ReadAt(r.results, r.head, good)))
    && (c.fault || c.eop || (c.ring.head == c.ring.tail && !c.ring.overrun))
  }

  /** The head moved n places, and not beyond the tail unless there was an overrun. */
  ghost predicate HeadMoved(r: Ring, n: nat, head: nat)
  {
    head == Around(r.head, n) && (!r.overrun ==> n <= Offset(r.head, r.tail))
  }

  lemma {:induction false} HeadMovedCons(r: Ring, r1: Ring, n: nat, head: nat)
    requires r.head < 256 && r.tail < 256 && (r.head != r.tail || r.overrun)
    requires r1.head == Succ(r.head) && r1.tail == r.tail && r1.overrun == r.overrun && HeadMoved(r1, n, head)
    ensures HeadMoved(r, n + 1, head)
  {
    AroundSucc(r.head, n);
    OffsetSucc(r.head, r.tail);
  }

  /**
    What the claim loop computes, for arbitrary slots: it takes the longest run of good results that
    goes no further than the first EOP and the tail, clears what it read, and adds up lengths and credits.
  */
  lemma {:induction false} ClaimMeaning(c: Claim) returns (good: nat)
    requires c.ring.WellShaped() && !c.fault && !c.eop
    ensures var c' := ClaimAll(c);
            && Claimed(c.ring, good, c')
            && c'.credits == c.credits + good
            && c'.pktLength == c.pktLength + Lengths(c.ring.results, c.ring.head, good)
    decreases Filled(c.ring.results), ClaimMore(c)
  {
    var r := c.ring;
    if !ClaimMore(c) {
      good := 0;
      NothingClaimed(r, c);
    } else {
      ClaimProgress(c);
      var next := ClaimStep(c);
      assert ClaimAll(c) == ClaimAll(next);
      if next.fault || next.eop {
        assert ClaimAll(next) == next;
        good := if next.fault then 0 else 1;
        OneClaimed(c);
        LengthsNext(r.results, r.head, 0);
      } else {
        var more := ClaimMeaning(next);
        good := more + 1;
        ClaimedCons(c, more, ClaimAll(next));
        LengthsNext(r.results, r.head, more);
      }
    }
  }

  lemma {:induction false} NothingClaimed(r: Ring, c: Claim)
    requires r.WellShaped() && c.ring == r && !c.fault && !c.eop && r.head == r.tail && !r.overrun
    ensures Claimed(r, 0, c)
  {
    assert r == r.(head := Around(r.head, 0), results := r.results);
  }

  lemma {:induction false} ClearedFirst(results: seq<Result>, at: nat)
    requires |results| == 256 && at < 256
    ensures ClearedRun(results, at, 1, results[at := Result(0, 0)])
  {}

  lemma {:induction false} OneClaimed(c: Claim)
    requires c.ring.WellShaped() && ClaimMore(c) && (ClaimStep(c).fault || ClaimStep(c).eop)
    ensures var c' := ClaimStep(c); Claimed(c.ring, if c'.fault then 0 else 1, c')
  {
    ClearedFirst(c.ring.results, c.ring.head);
    assert ReadAt(c.ring.results, c.ring.head, 0) == c.ring.results[c.ring.head];
  }

  lemma {:induction false} ClearedCons(results: seq<Result>, at: nat, n: nat, results': seq<Result>)
    requires |results| == 256 && at < 256 && ClearedRun(results[at := Result(0, 0)], Succ(at), n, results')
    ensures ClearedRun(results, at, n + 1, results')
  {
    forall j | 0 <= j < 256
      ensures results'[j] == if Offset(at, j) < n + 1 then Result(0, 0) else results[j]
    {
      OffsetSucc(at, j);
    }
  }

  lemma {:induction false} OffsetSucc(at: nat, j: nat)
    requires at < 256 && j < 256
    ensures if j == at then Offset(at, j) == 0 else Offset(at, j) == Offset(Succ(at), j) + 1
  {}

  lemma {:induction false} GoodCons(results: seq<Result>, at: nat, n: nat)
    requires |results| == 256 && at < 256 && GoodWords(results[at]) && !EopWord(results[at])
    requires GoodRun(results[at := Result(0, 0)], Succ(at), n)
    ensures GoodRun(results, at, n + 1)
  {
    forall k: nat | k < n + 1
      ensures GoodWords(ReadAt(results, at, k)) && (k < n ==> !EopWord(ReadAt(results, at, k)))
    {
      if k > 0 { ReadNext(results, at, k - 1); }
    }
  }

  lemma {:induction false} ClaimedCons(c: Claim, more: nat, c': Claim)
    requires c.ring.WellShaped() && ClaimMore(c) && !ClaimStep(c).fault && !ClaimStep(c).eop
    requires Claimed(ClaimStep(c).ring, more, c')
    ensures Claimed(c.ring, more + 1, c')
  {
    var r := c.ring;
    var n := more + if c'.fault then 1 else 0;
    HeadMovedCons(r, ClaimStep(c).ring, n, c'.ring.head);
    ClearedCons(r.results, r.head, n, c'.ring.results);
    GoodCons(r.results, r.head, more);
    ReadNext(r.results, r.head, more);
    if more > 0 { ReadNext(r.results, r.head, more - 1); }
  }

  /** Between one and 4096 bytes are claimed per credit, so credits are due exactly when bytes are. */
  lemma {:induction false} ClaimCounts(c: Claim)
    requires c.ring.WellShaped() && c.credits <= c.pktLength <= 4096 * c.credits
    ensures var c' := ClaimAll(c); c'.credits <= c'.pktLength <= 4096 * c'.credits
    decreases Filled(c.ring.results), ClaimMore(c)
  {
    if ClaimMore(c) {
      ClaimProgress(c);
      ClaimCounts(ClaimStep(c));
    }
  }

  // ----- copying

  /** The bytes copy_cyclic_to_user hands over: `remaining` bytes, block by block from block `at` on. */
  function Gather(rx: seq<byte>, at: nat, remaining: nat): (r: seq<byte>)
    requires |rx| == 256 * 4096 && at < 256
    ensures |r| == remaining
    decreases remaining
  {
    if remaining == 0 then [] else
    var copy := Min(remaining, 4096);
    rx[at * 4096..at * 4096 + copy] + Gather(rx, Succ(at), remaining - copy)
  }

  /** s with `data` written over it from index `at` on. */
  function Overwritten(s: seq<byte>, at: nat, data: seq<byte>): (r: seq<byte>)
    requires at + |data| <= |s|
    ensures |r| == |s|
  {
    s[..at] + data + s[at + |data|..]
  }

  lemma {:induction false} OverwrittenTwice(s: seq<byte>, at: nat, a: seq<byte>, b: seq<byte>)
    requires at + |a| + |b| <= |s|
    ensures Overwritten(Overwritten(s, at, a), at + |a|, b) == Overwritten(s, at, a + b)
  {}

  lemma {:induction false} NothingLeft(s: seq<byte>, at: nat, rx: seq<byte>, head: nat)
    requires |rx| == 256 * 4096 && head < 256 && at <= |s|
    ensures Overwritten(s, at, Gather(rx, head, 0)) == s
  {
    assert s[..at] + [] + s[at..] == s;
  }

  /** The first block, and the others from the next block on. */
  lemma {:induction false} GatherStep(rx: seq<byte>, at: nat, remaining: nat)
    requires |rx| == 256 * 4096 && at < 256 && remaining > 0
    ensures var copy := Min(remaining, 4096);
            Gather(rx, at, remaining) == Gather(rx, at, copy) + Gather(rx, Succ(at), remaining - copy)
  {
    GatherBlock(rx, at, Min(remaining, 4096));
  }

  lemma {:induction false} GatherBlock(rx: seq<byte>, at: nat, copy: nat)
    requires |rx| == 256 * 4096 && at < 256 && copy <= 4096
    ensures Gather(rx, at, copy) == rx[at * 4096..at * 4096 + copy]
  {
    if copy > 0 { assert Gather(rx, Succ(at), 0) == []; }
  }

  /**
    How many of `pktLength` bytes are written when the first `goodCopies` calls of copy_to_user, of a
    block each, succeed and a further one, if it is made, leaves `uncopied` bytes of its block unwritten.
  */
  function Written(pktLength: nat, goodCopies: nat, uncopied: nat): int
  {
    if CopyFails(pktLength, goodCopies) then Min(pktLength, 4096 * (goodCopies + 1)) - uncopied else pktLength
  }

  /** The calls that succeed do not suffice. */
  predicate CopyFails(pktLength: nat, goodCopies: nat) { 4096 * goodCopies < pktLength }

  /** `uncopied` is what a call of copy_to_user that fails can return. */
  predicate CanReturn(pktLength: nat, goodCopies: nat, uncopied: nat)
  {
    CopyFails(pktLength, goodCopies) ==> 0 < uncopied <= Min(4096, pktLength - 4096 * goodCopies)
  }

  /** Between two calls: `calls` have succeeded, `remaining` bytes are to go, `left` of them to be written. */
  predicate CopyState(pktLength: nat, goodCopies: nat, uncopied: nat, calls: nat, remaining: nat, left: int)
  {
    && calls <= goodCopies && remaining <= pktLength && 0 <= left
    && pktLength - remaining == Min(pktLength, 4096 * calls)
    && left == Written(pktLength, goodCopies, uncopied) - (pktLength - remaining)
  }

  lemma {:induction false} CopyStateNext(pktLength: nat, goodCopies: nat, uncopied: nat, calls: nat, remaining: nat,
                                         left: int)
    requires CanReturn(pktLength, goodCopies, uncopied) && remaining > 0
    requires CopyState(pktLength, goodCopies, uncopied, calls, remaining, left)
    ensures var copy := Min(remaining, 4096);
      if calls < goodCopies then
        copy == Min(left, 4096) && CopyState(pktLength, goodCopies, uncopied, calls + 1, remaining - copy, left - copy)
      else
        && CopyFails(pktLength, goodCopies) && 0 < uncopied && left == copy - uncopied
        && pktLength - remaining == Min(pktLength, 4096 * goodCopies)
  {}

  lemma {:induction false} CopyStateLast(pktLength: nat, goodCopies: nat, uncopied: nat, calls: nat, left: int)
    requires CanReturn(pktLength, goodCopies, uncopied) && CopyState(pktLength, goodCopies, uncopied, calls, 0, left)
    ensures left == 0 && !CopyFails(pktLength, goodCopies) && Min(pktLength, 4096 * goodCopies) == pktLength
  {}

  // ----- the engine

  /** The part of struct xdma_engine that serves a cyclic transfer. */
  class RxEngine {
    const results: array<Result>
    const rxBuffer: array<byte>
    var rxHead: nat
    var rxTail: nat
    var rxOverrun: bool
    var eopFound: bool
    var userBufferIndex: nat
    // sum of the writes to the credits register
    var creditsWritten: nat

    ghost predicate Valid()
      reads this
    {
      && results.Length == 256 && rxBuffer.Length == 256 * 4096 && rxHead < 256 && rxTail < 256
      && results as object != rxBuffer as object
    }

    ghost function TheRing(): (r: Ring)
      requires Valid()
      reads this, results
      ensures r.WellShaped()
    {
      Ring(results[..], rxHead, rxTail, rxOverrun)
    }

    /** cyclic_transfer_setup, for the ring; initial credits are written in credit mode. */
    constructor (enableCredit: bool)
      ensures Valid() && fresh(results) && fresh(rxBuffer)
      ensures rxHead == rxTail == 0 && !rxOverrun && !eopFound && userBufferIndex == 0
      ensures creditsWritten == if enableCredit then 128 else 0
    {
      results := new Result[256];
      rxBuffer := new byte[256 * 4096];
      rxHead, rxTail, rxOverrun, eopFound, userBufferIndex := 0, 0, false, false, 0;
      creditsWritten := if enableCredit then 128 else 0;
    }

    /** engine_ring_process. */
    method RingProcess() returns (eopCount: nat)
      requires Valid()
      modifies `rxTail, `rxOverrun
      ensures Valid() && (TheRing(), eopCount) == Scan(old(TheRing()))
    {
      eopCount := 0;
      ghost var start := TheRing();
      while results[rxTail].status != 0 && !rxOverrun
        invariant Valid() && results[..] == old(results[..])
        invariant Scan(start) == (Scan(TheRing()).0, Scan(TheRing()).1 + eopCount)
        decreases ScanRoom(TheRing())
      {
        if results[rxTail].status % 2 == 1 {
          eopCount := eopCount + 1;
        }
        PassSlot();
      }
    }

    /** The tail moves on, and may run into the head. */
    method PassSlot()
      requires Valid() && ScanMore(TheRing())
      modifies `rxTail, `rxOverrun
      ensures Valid() && TheRing() == ScanStep(old(TheRing()))
    {
      rxTail := (rxTail + 1) % RX_BUF_PAGES;
      if rxTail == rxHead {
        rxOverrun := true;
      }
    }

    /** The locked part of complete_cyclic. */
    method ClaimResults() returns (pktLength: nat, numCredit: nat, fault: bool)
      requires Valid()
      modifies `rxHead, `eopFound, results
      ensures Valid()
      ensures var c := ClaimAll(Claim(old(TheRing()), 0, 0, false, false));
        TheRing() == c.ring && pktLength == c.pktLength && numCredit == c.credits && fault == c.fault
        && eopFound == (old(eopFound) || c.eop)
    {
      pktLength, numCredit, fault := 0, 0, false;
      var eop := false;
      ghost var start := Claim(TheRing(), 0, 0, false, false);
      while (rxHead != rxTail || rxOverrun) && !fault && !eop
        invariant Valid()
        invariant ClaimAll(start) == ClaimAll(Claim(TheRing(), pktLength, numCredit, fault, eop))
        invariant eopFound == (old(eopFound) || eop)
        decreases Filled(results[..]), !fault && !eop
      {
        ghost var c := Claim(TheRing(), pktLength, numCredit, fault, eop);
        ClaimProgress(c);
        pktLength, numCredit, fault, eop := ClaimResult(pktLength, numCredit);
      }
    }

    /** One round of the claim loop: the result at the head is judged and cleared, and the head moves on. */
    method ClaimResult(length: nat, credits: nat) returns (pktLength: nat, numCredit: nat, fault: bool, eop: bool)
      requires Valid() && ClaimMore(Claim(TheRing(), length, credits, false, false))
      modifies `rxHead, `eopFound, results
      ensures Valid()
      ensures Claim(TheRing(), pktLength, numCredit, fault, eop)
              == ClaimStep(Claim(old(TheRing()), length, credits, false, false))
      ensures eopFound == (old(eopFound) || eop)
    {
      pktLength, numCredit, fault, eop := length, credits, false, false;
      ghost var was := results[..];
      var result := results[rxHead];
      if result.status / 0x1_0000 != C2H_WB || result.length > RX_BUF_BLOCK || result.length == 0 {
        fault := true;
      } else {
        pktLength := pktLength + result.length;
        numCredit := numCredit + 1;
        if result.status % 2 == 1 {
          eop := true;
          eopFound := true;
        }
      }
      results[rxHead] := Result(0, 0);
      assert results[..] == was[rxHead := Result(0, 0)];
      rxHead := (rxHead + 1) % RX_BUF_PAGES;
    }

    /**
      copy_cyclic_to_user. The first `goodCopies` calls of copy_to_user succeed and a further one
      reports `uncopied` bytes left, having written the others; the code hands that positive number on
      as its own result. The user's memory has room for what is written: a call that does not find it
      there is one that fails.
    */
    method CopyCyclicToUser(pktLength: nat, start: nat, buf: array<byte>, goodCopies: nat,
                            uncopied: nat) returns (rc: nat)
      requires Valid() && start < 256 && buf != rxBuffer && CanReturn(pktLength, goodCopies, uncopied)
      requires userBufferIndex + Written(pktLength, goodCopies, uncopied) <= buf.Length
      modifies `userBufferIndex, buf
      ensures Valid()
      ensures userBufferIndex == old(userBufferIndex) + Min(pktLength, 4096 * goodCopies)
      ensures buf[..] == Overwritten(old(buf[..]), old(userBufferIndex),
                                     Gather(rxBuffer[..], start, Written(pktLength, goodCopies, uncopied)))
      ensures rc == if CopyFails(pktLength, goodCopies) then uncopied else pktLength
      ensures rc > 0 <==> pktLength > 0
    {
      var remaining: nat, head: nat, calls: nat := pktLength, start, 0;
      ghost var left := Written(pktLength, goodCopies, uncopied);
      ghost var target := Overwritten(buf[..], userBufferIndex, Gather(rxBuffer[..], start, left));
      while remaining > 0
        invariant head < 256 && CopyState(pktLength, goodCopies, uncopied, calls, remaining, left)
        invariant userBufferIndex == old(userBufferIndex) + pktLength - remaining
        invariant ToWrite(buf, head, left, target)
      {
        CopyStateNext(pktLength, goodCopies, uncopied, calls, remaining, left);
        var copy: nat := if remaining > RX_BUF_BLOCK then RX_BUF_BLOCK else remaining;
        rc := CopyBlock(buf, head, copy, calls < goodCopies, uncopied, left, target);
        if rc > 0 {
          return rc;
        }
        calls := calls + 1;
        remaining := remaining - copy;
        left := left - copy;
        head := (head + 1) % RX_BUF_PAGES;
      }
      CopyStateLast(pktLength, goodCopies, uncopied, calls, left);
      NothingLeft(buf[..], userBufferIndex, rxBuffer[..], head);
      rc := pktLength;
    }

    /** Writing `left` bytes from block `head` on would make the user buffer `target`. */
    ghost predicate ToWrite(buf: array<byte>, head: nat, left: nat, target: seq<byte>)
      requires Valid() && head < 256
      reads this, buf, rxBuffer
    {
      && userBufferIndex + left <= buf.Length
      && Overwritten(buf[..], userBufferIndex, Gather(rxBuffer[..], head, left)) == target
    }

    /** What copy_to_user does when it writes the first `copy` bytes of block `head`. */
    method CopyToUser(buf: array<byte>, head: nat, copy: nat, ghost rx: seq<byte>)
      requires Valid() && head < 256 && buf != rxBuffer && rx == rxBuffer[..]
      requires copy <= 4096 && userBufferIndex + copy <= buf.Length
      modifies buf
      ensures buf[..] == Overwritten(old(buf[..]), userBufferIndex, Gather(rx, head, copy))
    {
      GatherBlock(rx, head, copy);
      forall k | 0 <= k < copy { buf[userBufferIndex + k] := rxBuffer[head * 4096 + k]; }
    }

    /**
      copy_to_user for one block and the advance after it, when `left` bytes are to be written from it on
      to make the user buffer `target`: a call that fails writes these and returns the rest of the block.
    */
    method CopyBlock(buf: array<byte>, head: nat, copy: nat, good: bool, uncopied: nat, ghost left: nat,
                     ghost target: seq<byte>) returns (rc: nat)
      requires Valid() && head < 256 && buf != rxBuffer && 0 < copy <= 4096 && ToWrite(buf, head, left, target)
      requires if good then copy == Min(left, 4096) else 0 < uncopied && left == copy - uncopied
      modifies `userBufferIndex, buf
      ensures rc == if good then 0 else uncopied
      ensures userBufferIndex == old(userBufferIndex) + if good then copy else 0
      ensures if good then ToWrite(buf, Succ(head), left - copy, target) else buf[..] == target
    {
      ghost var rx := rxBuffer[..];
      if !good {
        CopyToUser(buf, head, copy - uncopied, rx);
        return uncopied;
      }
      GatherStep(rx, head, left);
      OverwrittenTwice(buf[..], userBufferIndex, Gather(rx, head, copy), Gather(rx, Succ(head), left - copy));
      CopyToUser(buf, head, copy, rx);
      userBufferIndex := userBufferIndex + copy;
      rc := 0;
    }

    /**
      complete_cyclic: claims results under the lock, copies them, then returns their credits. A
      fault returns no credits; a failed copy returns them all the same, since its result is positive.
    */
    method CompleteCyclic(buf: array<byte>, goodCopies: nat, uncopied: nat) returns (rc: int)
      requires Valid() && buf != rxBuffer && buf as object != results as object
      requires var c := ClaimAll(Claim(TheRing(), 0, 0, false, false));
        !c.fault ==> CanReturn(c.pktLength, goodCopies, uncopied)
                     && userBufferIndex + Written(c.pktLength, goodCopies, uncopied) <= buf.Length
      modifies this, results, buf
      ensures Valid()
      ensures var c := ClaimAll(Claim(old(TheRing()), 0, 0, false, false));
        && results[..] == c.ring.results && rxHead == c.ring.head && rxTail == c.ring.tail
        && eopFound == (old(eopFound) || c.eop)
        && (c.fault ==> rc == -5 && creditsWritten == old(creditsWritten) && rxOverrun == c.ring.overrun
                        && userBufferIndex == old(userBufferIndex) && buf[..] == old(buf[..]))
        && (!c.fault ==>
              var written := Written(c.pktLength, goodCopies, uncopied);
              && creditsWritten == old(creditsWritten) + c.credits && !rxOverrun
              && rc == (if CopyFails(c.pktLength, goodCopies) then uncopied else c.pktLength)
              && userBufferIndex == old(userBufferIndex) + Min(c.pktLength, 4096 * goodCopies)
              && buf[..] == Overwritten(old(buf[..]), old(userBufferIndex),
                                        Gather(old(rxBuffer[..]), old(rxHead), written)))
    {
      var head := rxHead;
      ClaimCounts(Claim(TheRing(), 0, 0, false, false));
      var pktLength, numCredit, fault := ClaimResults();
      if fault {
        rc := -EIO;
      } else {
        rc := CopyCyclicToUser(pktLength, head, buf, goodCopies, uncopied);
        rxOverrun := false;
        if rc > 0 {
          creditsWritten := creditsWritten + numCredit;
        }
      }
    }
  }
}
