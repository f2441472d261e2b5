/**
  transfer_data and the read/write entry point: a request on a character device, carried out chunk by
  chunk by the engine, is a memcpy between the caller's buffer and the card.
*/
module Requests {
  import opened XdmaTypes
  import opened Descriptors
  import opened DescriptorChain
  import opened ScatterGather
  import opened TransferBuild
  import opened DmaMemory
  import opened Transfers
  import opened EngineQueue
  import opened Alignment

  const EIO: int := 5
  const ERESTARTSYS: int := 512
  const LOFF_MAX: nat := 0x7FFF_FFFF_FFFF_FFFF

  /**
    The SG DMA hardware on a memory-mapped channel: it fetches the descriptor at `first` with firstAdjacent
    contiguous ones, goes on with what each block's last descriptor points to, and stops after a STOPPED
    descriptor, or earlier if it meets an error. It interrupts if a descriptor it executed asks for that, and
    on errors.
  */
  class Card {
    var mem: Memory

    constructor (mem: Memory)
      ensures this.mem == mem
    {
      this.mem := mem;
    }

    method RunEngine(ds: seq<Desc>, bus: u64, n: nat, first: u64, firstAdjacent: nat, toCard: bool)
      returns (irq: bool)
      requires Chained(ds, bus, n) && first == bus && firstAdjacent == FirstAdjacent(n)
      modifies this
      ensures mem == ExecWalk(old(mem), ds, Range(0, n), toCard) && irq == Interrupts(ds, Range(0, n))
    {
      irq := RunEngineUpto(ds, bus, n, first, firstAdjacent, toCard, n);
    }

    /** The same, for an engine that gets to execute `limit` descriptors and less than all only for an error. */
    method RunEngineUpto(ds: seq<Desc>, bus: u64, n: nat, first: u64, firstAdjacent: nat, toCard: bool, limit: nat)
      returns (irq: bool)
      requires Chained(ds, bus, n) && first == bus && firstAdjacent == FirstAdjacent(n) && limit <= n
      modifies this
      ensures mem == ExecWalk(old(mem), ds, Range(0, limit), toCard)
      ensures irq == (limit < n || Interrupts(ds, Range(0, n)))
    {
      FetchAt(ds, bus, 0);
      PrefetchVisitsAll(ds, bus, n, 0, firstAdjacent, |ds|);
      var walk := PrefetchWalk(ds, bus, Fetch(ds, bus, first), firstAdjacent, |ds|);
      assert walk[..limit] == Range(0, limit);
      mem := ExecWalk(mem, ds, walk[..limit], toCard);
      irq := limit < |walk| || Interrupts(ds, walk);
    }
  }

  /** The chain built for a piece of the buffer is a memcpy of that piece. */
  lemma {:induction false} ChainIsMemcpy(mem: Memory, t: Transfer, pt: PageTable, buf: u64, pos: u64, n: nat)
    requires 0 < n && pos + n <= TWO64
    requires t.Moves(BlocksOf(pt, buf, n, pos, false))
    ensures ExecWalk(mem, t.descs[..], Range(0, t.descNum), t.dirToDev) == Memcpy(mem, pt, buf, pos, n, t.dirToDev)
  {
    var bs := BlocksOf(pt, buf, n, pos, false);
    ExecBlocks(mem, t.descs[..], bs, 0, t.dirToDev);
    assert bs[0..] == bs;
    BlocksExact(pt, buf, n, pos, false);
    ExecVirt(mem, pt, buf, pos, n, t.dirToDev);
  }

  /** What an idle engine without errors shows in its status register. */
  const IDLE: Status := Status(false, false)

  /**
    What the hardware makes of a transfer: it completes all descriptors, or reports an error with `descs` of
    them completed.
  */
  datatype HwOutcome = Done | Error(descs: nat)

  function Executed(o: HwOutcome, descNum: nat): nat { if o.Done? then descNum else Min(o.descs, descNum) }

  /** Service of an engine that is done with its only transfer, or reports an error in it. */
  method ServiceOnly(engine: Engine, t: Transfer, writeback: u32, errors: bool, completed: u32) returns (rc: int)
    requires engine.Valid() && engine.FreshRun() && engine.transferList == [t] && !t.cyclic
    requires !engine.status.errors && !engine.shutdown.request
    requires writeback % 0x100_0000 == 0 || writeback % 0x100_0000 == completed
    requires if errors then completed <= t.descNum && (writeback % 0x100_0000 == 0 || writeback >= 0x8000_0000)
             else completed == t.descNum
    modifies engine, t`state
    ensures rc == if writeback >= 0x8000_0000 then -1 else 0
    ensures engine.submitted == old(engine.submitted) && !engine.shutdown.request
    ensures !errors ==> t.state == Completed && Ready(engine)
    ensures errors ==> t.state == Failed && engine.status.errors && engine.transferList == [t]
  {
    OnlyTransfer(t, completed);
    assert engine.NewlyCompleted(writeback, completed) == completed;
    rc := engine.Service(writeback, Status(false, errors), completed);
  }

  /**
    transfer_monitor for the only transfer on the queue, after the hardware finished with it: in poll mode
    the writeback word reads as the expected count, or has its error bit set, and a count of more than 24
    bits is given up on at once; otherwise the interrupt, without which the wait would not end, makes the
    interrupt work service the engine.
  */
  method TransferMonitor(engine: Engine, t: Transfer, pollMode: bool, irq: bool, outcome: HwOutcome) returns (rc: int)
    requires !pollMode ==> irq
    requires engine.Valid() && engine.FreshRun() && engine.transferList == [t]
    requires t.descNum < TWO32 && !t.cyclic && !engine.status.errors
    requires !engine.shutdown.request
    modifies engine, t`state
    ensures engine.submitted == old(engine.submitted) && !engine.shutdown.request
    ensures var served := !pollMode || t.descNum < 0x100_0000;
      && (served && outcome.Done? ==> rc == 0 && t.state == Completed && Ready(engine))
      && (served && outcome.Error? ==> rc == (if pollMode then -1 else 0) && t.state == Failed && engine.status.errors)
      && (!served ==> rc == -1 && t.state == old(t.state) && engine.Valid())
      && (!served || outcome.Error? ==> engine.transferList == [t])
  {
    var completed: u32 := Executed(outcome, t.descNum);
    if pollMode {
      var expected: u32 := t.descNum;
      if WbCount(expected) != expected {
        return -1;
      }
      var writeback: u32 := if outcome.Error? then WB_ERR + completed else completed;
      ErrorWord(completed);
      rc := ServiceOnly(engine, t, writeback, outcome.Error?, completed);
    } else {
      rc := ServiceOnly(engine, t, 0, outcome.Error?, completed);
      rc := 0;
    }
  }

  /** The error bit of a writeback word is not part of the count. */
  lemma {:induction false} ErrorWord(c: nat)
    requires c < 0x100_0000
    ensures (0x8000_0000 + c) % 0x100_0000 == c
  {}

  /** An idle engine that accepts transfers and has seen no hardware error. */
  ghost predicate Ready(engine: Engine)
    reads engine, engine.submitted, engine.transferList, engine.retired
  {
    && engine.Valid() && engine.transferList == []
    && !engine.status.errors && !engine.shutdown.request
  }

  /** The rest of a round once the transfer is built: queue, run, wait. */
  method RunTransfer(engine: Engine, card: Card, t: Transfer, ghost addr: u64, ghost len: nat, ghost pos: u64,
                     ghost pt: PageTable, pollMode: bool, outcome: HwOutcome) returns (rc: int)
    requires Ready(engine) && t !in engine.submitted && t.state == New && !t.cyclic && t.dirToDev == engine.dirToDev
    requires 0 < len && pos + len <= TWO64 && t.Moves(BlocksOf(pt, addr, len, pos, false)) && t.descNum < 0x100_0000
    requires outcome.Error? ==> outcome.descs < t.descNum
    modifies engine, card, t`state
    ensures engine.submitted == old(engine.submitted) + [t]
    ensures outcome.Done? ==> Ready(engine) && t.state == Completed && rc == 0
    ensures outcome.Done? ==> card.mem == Memcpy(old(card.mem), pt, addr, pos, len, engine.dirToDev)
    ensures outcome.Error? ==> t.state == Failed
    ensures outcome.Error? ==>
      card.mem == ExecWalk(old(card.mem), t.descs[..], Range(0, outcome.descs), engine.dirToDev)
  {
    rc := engine.Queue(t);
    ChainIsMemcpy(card.mem, t, pt, addr, pos, len);
    ChainInterrupts(t.descs[..], t.descBus, t.descNum);
    var irq := card.RunEngineUpto(t.descs[..], t.descBus, t.descNum, engine.firstDesc, engine.firstDescAdjacent,
                                  engine.dirToDev, Executed(outcome, t.descNum));
    rc := TransferMonitor(engine, t, pollMode, irq, outcome);
  }

  /** One round of the loop in transfer_data: build, queue, run, wait. */
  method TransferChunk(engine: Engine, card: Card, addr: u64, len: nat, pos: u64, pt: PageTable, pollMode: bool,
                       lastInRequest: bool, size: nat, outcome: HwOutcome) returns (t: Transfer, rc: int)
    requires Ready(engine) && !engine.nonIncrAddr
    requires 0 < len <= XDMA_TRANSFER_MAX_BYTES && addr + len < TWO64 && pos + len <= LOFF_MAX
    modifies engine, card
    ensures fresh(t) && engine.submitted == old(engine.submitted) + [t]
    ensures t.lastInRequest == lastInRequest && (lastInRequest ==> t.sizeOfRequest == size)
    ensures t.Moves(BlocksOf(pt, addr, len, pos, false)) && t.dirToDev == engine.dirToDev
    ensures outcome.Done? ==> Ready(engine) && t.state == Completed && rc == 0
    ensures outcome.Done? ==> card.mem == Memcpy(old(card.mem), pt, addr, pos, len, engine.dirToDev)
    ensures outcome.Error? ==> t.state == Failed
    ensures outcome.Error? ==>
      card.mem == ExecWalk(old(card.mem), t.descs[..], Range(0, Min(outcome.descs, t.descNum - 1)), engine.dirToDev)
  {
    ChunkFragments(addr, len);
    t := TransferCreate(addr, len, pos, engine.dirToDev, engine.nonIncrAddr, false, true, pt);
    if lastInRequest {
      t.lastInRequest := true;
      t.sizeOfRequest := size;
    }
    var capped := if outcome.Done? then Done else Error(Min(outcome.descs, t.descNum - 1));
    rc := RunTransfer(engine, card, t, addr, len, pos, pt, pollMode, capped);
  }

  /** What transfer_data makes of a transfer's state and the monitor's return code. */
  function ChunkResult(state: TransferState, rc: int): int
  {
    if state != Submitted then (if state != Completed then -EIO else 0)
    else if rc != 0 then -ERESTARTSYS
    else 0
  }

  lemma {:induction false} MemcpyNext(mem: Memory, mem1: Memory, mem2: Memory, pt: PageTable, buf: nat, pos: nat,
                                      done: nat, buf1: nat, pos1: nat, len: nat, toCard: bool)
    requires pos + done + len <= TWO64 && buf1 == buf + done && pos1 == pos + done
    requires mem1 == Memcpy(mem, pt, buf, pos, done, toCard) && mem2 == Memcpy(mem1, pt, buf1, pos1, len, toCard)
    ensures mem2 == Memcpy(mem, pt, buf, pos, done + len, toCard)
  {
    MemcpySplit(mem, pt, buf, pos, done, len, toCard);
  }

  /** TransferChunk for the bytes from `done` on of a request on the buffer at buf and the position pos. */
  method TransferPiece(engine: Engine, card: Card, addr: u64, len: nat, at: u64, pt: PageTable, pollMode: bool,
                       lastInRequest: bool, done: nat, outcome: HwOutcome, ghost buf: u64, ghost pos: u64,
                       ghost mem: Memory)
    returns (t: Transfer, rc: int)
    requires Ready(engine) && !engine.nonIncrAddr && addr == buf + done && at == pos + done
    requires 0 < len <= XDMA_TRANSFER_MAX_BYTES && addr + len < TWO64 && at + len <= LOFF_MAX
    requires card.mem == Memcpy(mem, pt, buf, pos, done, engine.dirToDev)
    modifies engine, card
    ensures fresh(t) && engine.submitted == old(engine.submitted) + [t]
    ensures t.lastInRequest == lastInRequest && (lastInRequest ==> t.sizeOfRequest == done + len)
    ensures outcome.Done? ==> Ready(engine) && t.state == Completed && rc == 0
    ensures outcome.Done? ==> card.mem == Memcpy(mem, pt, buf, pos, done + len, engine.dirToDev)
    ensures outcome.Error? ==> t.state == Failed
  {
    ghost var mem1 := card.mem;
    t, rc := TransferChunk(engine, card, addr, len, at, pt, pollMode, lastInRequest, done + len, outcome);
    if outcome.Done? {
      MemcpyNext(mem, mem1, card.mem, pt, buf, pos, done, addr, at, len, engine.dirToDev);
    }
  }

  // ----- requests

  /** The engine is ready, and the card's memory is what memcpy of `done` bytes makes of `mem`. */
  ghost predicate Copied(engine: Engine, card: Card, mem: Memory, pt: PageTable, buf: nat, pos: nat, done: nat)
    requires pos + done <= TWO64
    reads engine, engine.submitted, engine.transferList, engine.retired, card
  {
    Ready(engine) && card.mem == Memcpy(mem, pt, buf, pos, done, engine.dirToDev)
  }

  /** The body of the loop in transfer_data: returns its result and how far it got the request on. */
  method TransferRound(engine: Engine, card: Card, addr: u64, remaining: nat, at: u64, pt: PageTable, pollMode: bool,
                       done: nat, outcome: HwOutcome, ghost buf: u64, ghost pos: u64, ghost mem: Memory)
    returns (res: int, moved: nat, t: Transfer)
    requires !engine.nonIncrAddr && addr == buf + done && at == pos + done
    requires 0 < remaining && addr + remaining < TWO64 && at + remaining <= LOFF_MAX
    requires Copied(engine, card, mem, pt, buf, pos, done)
    modifies engine, card
    ensures fresh(t) && engine.submitted == old(engine.submitted) + [t]
    ensures t.lastInRequest == (remaining <= 0x80_0000) && (t.lastInRequest ==> t.sizeOfRequest == done + remaining)
    ensures outcome.Done? ==> res == 0 && moved == Min(remaining, 0x80_0000)
    ensures outcome.Done? ==> Copied(engine, card, mem, pt, buf, pos, done + moved)
    ensures outcome.Error? ==> res == -5 && moved == 0
  {
    var transferLen := if remaining > XDMA_TRANSFER_MAX_BYTES then XDMA_TRANSFER_MAX_BYTES else remaining;
    var rc;
    t, rc := TransferPiece(engine, card, addr, transferLen, at, pt, pollMode, transferLen >= remaining, done, outcome,
                           buf, pos, mem);
    res := ChunkResult(t.state, rc);
    moved := if res != 0 then 0 else transferLen;
  }

  /** The transfer of a request in which the hardware reports an error, if any, and how far it gets in it. */
  datatype Fault = NoFault | FaultIn(chunk: nat, descs: nat)

  function ChunkOutcome(fault: Fault, i: nat): HwOutcome
  {
    if fault.FaultIn? && fault.chunk == i then Error(fault.descs) else Done
  }

  /** How many transfers of 8 MiB a request takes. */
  function Chunks(count: nat): nat { (count + 0x7F_FFFF) / 0x80_0000 }

  /** With bytes left after i full transfers there is another one, the last exactly if it takes them all. */
  lemma {:induction false} ChunkLeft(count: nat, i: nat)
    requires 0x80_0000 * i < count
    ensures i < Chunks(count) && (i + 1 == Chunks(count) <==> count <= 0x80_0000 * (i + 1))
  {}

  /** Does the request meet the error? */
  predicate Fails(fault: Fault, count: nat) { fault.FaultIn? && fault.chunk < Chunks(count) }

  /** Of the transfers from number `from` on, the one that ends the request, if it is there, is marked so. */
  ghost predicate LastMarked(s: seq<Transfer>, from: nat, n: nat, count: nat)
    reads s`lastInRequest, s`sizeOfRequest
  {
    forall k {:trigger s[k]} :: from <= k < |s| ==>
      (s[k].lastInRequest <==> k == from + n - 1) && (k == from + n - 1 ==> s[k].sizeOfRequest == count)
  }

  /**
    transfer_data, for a request that has the engine to itself. Without a hardware error it returns the
    byte count, advances the position by it, and copies exactly what memcpy would. With one it fails as a
    whole, although the position has advanced by the transfers before.
  */
  method TransferData(engine: Engine, card: Card, buf: u64, count: nat, pos: u64, pt: PageTable,
                      pollMode: bool, fault: Fault) returns (res: int, pos': u64)
    requires Ready(engine) && !engine.nonIncrAddr
    requires buf + count < TWO64 && pos + count <= LOFF_MAX
    modifies engine, card
    ensures old(engine.submitted) <= engine.submitted
    ensures LastMarked(engine.submitted, |old(engine.submitted)|, Chunks(count), count)
    ensures |engine.submitted| - |old(engine.submitted)|
         == if Fails(fault, count) then fault.chunk + 1 else Chunks(count)
    ensures !Fails(fault, count) ==>
      && Ready(engine) && res == count && pos' == pos + count
      && card.mem == Memcpy(old(card.mem), pt, buf, pos, count, engine.dirToDev)
    ensures Fails(fault, count) ==> res == -5 && pos' == pos + 0x80_0000 * fault.chunk
  {
    var done, remaining: int := 0, count;
    var transferAddr := buf;
    res, pos' := 0, pos;
    var i := 0;
    ghost var mem, was, n := card.mem, engine.submitted, Chunks(count);
    while res == 0 && remaining > 0
      invariant 0 <= done <= count && 0 <= i && transferAddr == buf + done && pos' == pos + done
      invariant was <= engine.submitted && |engine.submitted| == |was| + i
      invariant LastMarked(engine.submitted, |was|, n, count)
      invariant forall k :: |was| <= k < |engine.submitted| ==> fresh(engine.submitted[k])
      invariant res == 0 ==> Copied(engine, card, mem, pt, buf, pos, done)
      invariant res == 0 ==> 0 <= remaining == count - done && (fault.FaultIn? ==> i <= fault.chunk)
      invariant res == 0 ==> if remaining > 0 then done == 0x80_0000 * i else i == n
      invariant res != 0 ==> res == -5 && Fails(fault, count) && i == fault.chunk + 1 && done == 0x80_0000 * fault.chunk
      decreases remaining
    {
      ChunkLeft(count, i);
      var moved, transfer;
      res, moved, transfer := TransferRound(engine, card, transferAddr, remaining, pos', pt, pollMode, done,
                                            ChunkOutcome(fault, i), buf, pos, mem);
      remaining := if res != 0 then 0 else remaining - moved;
      transferAddr := transferAddr + moved;
      done := done + moved;
      pos' := pos' + moved;
      i := i + 1;
    }
    res := if res != 0 then res else done;
  }

  /** char_sgdma_read_write. */
  method ReadWrite(engine: Engine, card: Card, buf: u64, count: u64, pos: u64, dirToDev: bool, pt: PageTable,
                   pollMode: bool, fault: Fault) returns (res: int, pos': u64)
    requires Ready(engine) && !engine.nonIncrAddr
    requires buf + count < TWO64 && pos + count <= LOFF_MAX
    modifies engine, card
    ensures var accepted := dirToDev == engine.dirToDev &&
              CheckTransferAlign(engine.streaming, false, engine.addrAlign, engine.lenGranularity,
                                 buf, count, pos, true) == 0;
      if !accepted then
        && res == -22 && pos' == pos && card.mem == old(card.mem)
        && Ready(engine) && engine.submitted == old(engine.submitted)
      else if Fails(fault, count) then
        res == -5 && pos' == pos + 0x80_0000 * fault.chunk
      else
        && res == count && pos' == pos + count && card.mem == Memcpy(old(card.mem), pt, buf, pos, count, dirToDev)
        && Ready(engine)
  {
    pos' := pos;
    if dirToDev != engine.dirToDev {
      return -EINVAL, pos;
    }
    var rc := CheckTransferAlign(engine.streaming, engine.nonIncrAddr, engine.addrAlign, engine.lenGranularity,
                                 buf, count, pos, true);
    if rc != 0 {
      return rc, pos;
    }
    res, pos' := TransferData(engine, card, buf, count, pos, pt, pollMode, fault);
  }
}
