/**
  Several requests queued on one engine: in every interleaving of submissions and completions, the card
  has carried out a prefix of the accepted requests, each as a memcpy, in order of submission.
*/
module QueuedRequests {
  import opened XdmaTypes
  import opened DescriptorChain
  import opened ScatterGather
  import opened DmaMemory
  import opened Transfers
  import opened EngineQueue
  import opened Requests

  /** What one call of transfer_create is asked for: a chunk of somebody's buffer and a card position. */
  datatype Request = Request(pt: PageTable, buf: u64, pos: u64, len: nat)
  {
    predicate WellPosed() { 0 < len <= XDMA_TRANSFER_MAX_BYTES && buf + len < TWO64 && pos + len <= LOFF_MAX }
  }

  type Chunk = r: Request | r.WellPosed() witness Request(_ => 0, 0, 0, 1)

  /** One request after the other, each as a memcpy. */
  function MemcpyAll(mem: Memory, rs: seq<Chunk>, toCard: bool): Memory
    decreases |rs|
  {
    if rs == [] then mem else
    var r, before := rs[|rs| - 1], MemcpyAll(mem, rs[..|rs| - 1], toCard);
    Memcpy(before, r.pt, r.buf, r.pos, r.len, toCard)
  }

  /** Transfer t is the chain built for request r. */
  ghost predicate Carries(t: Transfer, r: Chunk, toCard: bool)
    reads t.descs
  {
    t.dirToDev == toCard && t.descNum < 0x100_0000 && t.Moves(BlocksOf(r.pt, r.buf, r.len, r.pos, false))
  }

  /** The queued transfers are the chains of the requests rs, in order. */
  ghost predicate QueueCarries(list: seq<Transfer>, rs: seq<Chunk>, toCard: bool)
    reads list`cyclic, set t | t in list :: t.descs
  {
    && |list| == |rs|
    && forall k {:trigger Carries(list[k], rs[k], toCard)} :: 0 <= k < |list| ==>
         !list[k].cyclic && Carries(list[k], rs[k], toCard)
  }

  /** The first n of the accepted requests rs are done, the others are queued. */
  ghost predicate Progress(engine: Engine, card: Card, mem: Memory, rs: seq<Chunk>, n: nat)
    reads engine, engine.submitted, engine.transferList, engine.retired, card
    reads set t | t in engine.transferList :: t.descs
  {
    && engine.Valid() && !engine.shutdown.request && !engine.nonIncrAddr
    && (engine.transferList != [] ==> engine.FreshRun())
    && n <= |rs| && QueueCarries(engine.transferList, rs[n..], engine.dirToDev)
    && card.mem == MemcpyAll(mem, rs[..n], engine.dirToDev)
  }

  /** transfer_create and transfer_queue, for a request that finds the engine idle or at work. */
  method Submit(engine: Engine, card: Card, r: Chunk, ghost mem: Memory, ghost rs: seq<Chunk>, ghost n: nat)
    returns (t: Transfer)
    requires Progress(engine, card, mem, rs, n)
    modifies engine
    ensures Progress(engine, card, mem, rs + [r], n)
    ensures fresh(t) && engine.submitted == old(engine.submitted) + [t]
    ensures engine.transferList == old(engine.transferList) + [t]
  {
    ChunkFragments(r.buf, r.len);
    t := TransferCreate(r.buf, r.len, r.pos, engine.dirToDev, engine.nonIncrAddr, false, true, r.pt);
    ghost var list := engine.transferList;
    var _ := engine.Queue(t);
    QueueSnoc(list, rs[n..], t, r, engine.dirToDev);
    assert (rs + [r])[n..] == rs[n..] + [r] && (rs + [r])[..n] == rs[..n];
  }

  lemma {:induction false} QueueSnoc(list: seq<Transfer>, rs: seq<Chunk>, t: Transfer, r: Chunk, toCard: bool)
    requires QueueCarries(list, rs, toCard) && !t.cyclic && Carries(t, r, toCard)
    ensures QueueCarries(list + [t], rs + [r], toCard)
  {
    forall k | 0 <= k < |list| + 1
      ensures !(list + [t])[k].cyclic && Carries((list + [t])[k], (rs + [r])[k], toCard)
    {
      if k < |list| { assert Carries(list[k], rs[k], toCard); }
    }
  }

  lemma {:induction false} QueueTail(list: seq<Transfer>, rs: seq<Chunk>, toCard: bool)
    requires QueueCarries(list, rs, toCard) && list != []
    ensures QueueCarries(list[1..], rs[1..], toCard)
  {
    forall k | 0 <= k < |list| - 1
      ensures !list[1..][k].cyclic && Carries(list[1..][k], rs[1..][k], toCard)
    {
      assert Carries(list[k + 1], rs[k + 1], toCard);
    }
  }

  lemma {:induction false} QueueNotCyclic(list: seq<Transfer>, rs: seq<Chunk>, toCard: bool)
    requires QueueCarries(list, rs, toCard)
    ensures Engine.NoneCyclic(list)
  {
    forall k | 0 <= k < |list|
      ensures !list[k].cyclic
    {
      assert Carries(list[k], rs[k], toCard);
    }
  }

  /** When the first transfer has completed and no other, it alone is taken off. */
  lemma {:induction false} HeadOnly(list: seq<Transfer>)
    requires list != []
    ensures list[0].descNum <= Total(Counts(list)) && Passed(Counts(list), list[0].descNum) == 0
    ensures Upto(Counts(list), 1) == list[0].descNum
  {
    UptoMono(Counts(list), 1, |list|);
    assert Upto(Counts(list), 1) == Upto(Counts(list), 0) + list[0].descNum;
  }

  /** The card executes the chain that the engine was started with. */
  method ExecuteHead(engine: Engine, card: Card, ghost r: Chunk) returns (irq: bool)
    requires engine.FreshRun() && Carries(engine.transferList[0], r, engine.dirToDev)
    modifies card
    ensures card.mem == Memcpy(old(card.mem), r.pt, r.buf, r.pos, r.len, engine.dirToDev) && irq
  {
    var t := engine.transferList[0];
    ChainIsMemcpy(card.mem, t, r.pt, r.buf, r.pos, r.len);
    ChainInterrupts(t.descs[..], t.descBus, t.descNum);
    irq := card.RunEngine(t.descs[..], t.descBus, t.descNum, engine.firstDesc, engine.firstDescAdjacent,
                          engine.dirToDev);
  }

  /** The interrupt after that is serviced: the head leaves the queue, and the engine goes on with the next. */
  method ServiceHead(engine: Engine)
    requires engine.Valid() && !engine.shutdown.request && engine.FreshRun()
    requires Engine.NoneCyclic(engine.transferList) && engine.transferList[0].descNum < 0x100_0000
    modifies engine, engine.transferList`state
    ensures engine.Valid() && !engine.shutdown.request && engine.submitted == old(engine.submitted)
    ensures engine.transferList == old(engine.transferList)[1..]
    ensures old(engine.transferList)[0].state == Completed
    ensures engine.transferList != [] ==> engine.FreshRun()
  {
    ghost var list := engine.transferList;
    var descNum := engine.transferList[0].descNum;
    HeadOnly(list);
    assert engine.NewlyCompleted(0, descNum) == descNum;
    var _ := engine.Service(0, IDLE, descNum);
    assert engine.Serviced(list, descNum) && list[0 + 1..] == list[1..];
    assert list[0].state == Outcome(Counts(list), descNum, 0);
  }

  /** The same, for a queue whose other transfers are the chains of the requests `rest`. */
  method ServiceQueue(engine: Engine, ghost rest: seq<Chunk>)
    requires engine.Valid() && !engine.shutdown.request && engine.FreshRun()
    requires Engine.NoneCyclic(engine.transferList) && engine.transferList[0].descNum < 0x100_0000
    requires QueueCarries(engine.transferList[1..], rest, engine.dirToDev)
    modifies engine, engine.transferList`state
    ensures engine.Valid() && !engine.shutdown.request && engine.submitted == old(engine.submitted)
    ensures engine.transferList == old(engine.transferList)[1..]
    ensures old(engine.transferList)[0].state == Completed
    ensures engine.transferList != [] ==> engine.FreshRun()
    ensures QueueCarries(engine.transferList, rest, engine.dirToDev)
  {
    ServiceHead(engine);
  }

  lemma {:induction false} OneMore(mem: Memory, rs: seq<Chunk>, n: nat, toCard: bool)
    requires n < |rs|
    ensures rs[n..][1..] == rs[n + 1..] && var r := rs[n];
      MemcpyAll(mem, rs[..n + 1], toCard) == Memcpy(MemcpyAll(mem, rs[..n], toCard), r.pt, r.buf, r.pos, r.len, toCard)
  {
    assert rs[..n + 1][..n] == rs[..n];
  }

  /** One transfer is executed and its completion serviced: one more request is done. */
  method Complete(engine: Engine, card: Card, ghost mem: Memory, ghost rs: seq<Chunk>, ghost n: nat)
    requires Progress(engine, card, mem, rs, n) && engine.transferList != []
    modifies engine, card, engine.transferList`state
    ensures n < |rs| && Progress(engine, card, mem, rs, n + 1)
    ensures engine.submitted == old(engine.submitted) && engine.transferList == old(engine.transferList)[1..]
    ensures old(engine.transferList)[0].state == Completed
  {
    ghost var list := engine.transferList;
    QueueNotCyclic(list, rs[n..], engine.dirToDev);
    ghost var rest := rs[n + 1..];
    OneMore(mem, rs, n, engine.dirToDev);
    QueueTail(list, rs[n..], engine.dirToDev);
    assert Carries(list[0], rs[n..][0], engine.dirToDev);
    var irq := ExecuteHead(engine, card, rs[n]);
    if irq {
      ServiceQueue(engine, rest);
    }
  }

  // ----- every run

  /** A request arrives, or the engine gets to complete a transfer if one is queued. */
  datatype Event = Arrival(r: Chunk) | Completion

  /** The requests that arrived, in order. */
  function Arrived(events: seq<Event>): seq<Chunk>
    decreases |events|
  {
    if events == [] then [] else
    After(Arrived(events[..|events| - 1]), events[|events| - 1])
  }

  /** How many completions there are among the events. */
  function Completions(events: seq<Event>): nat
    decreases |events|
  {
    if events == [] then 0 else
    Completions(events[..|events| - 1]) + if events[|events| - 1].Completion? then 1 else 0
  }

  /** How many requests are done after the events: each completion does one more, if there is one to do. */
  function Done(events: seq<Event>): nat
    decreases |events|
  {
    if events == [] then 0 else
    var before, n := events[..|events| - 1], Done(events[..|events| - 1]);
    if events[|events| - 1].Completion? && n < |Arrived(before)| then n + 1 else n
  }

  /** Every completion does a request if and only if there is one to do each time. */
  lemma {:induction false} DoneBalanced(events: seq<Event>)
    ensures Done(events) <= Completions(events) && Done(events) <= |Arrived(events)|
    ensures Done(events) == Completions(events) <==> Balanced(events)
    decreases |events|
  {
    if events != [] { DoneBalanced(events[..|events| - 1]); }
  }

  /** At no point have there been more completions than arrivals. */
  predicate Balanced(events: seq<Event>)
    decreases |events|
  {
    events == [] || (Balanced(events[..|events| - 1]) && Completions(events) <= |Arrived(events)|)
  }

  /** The requests accepted after event e. */
  function After(rs: seq<Chunk>, e: Event): seq<Chunk> { if e.Arrival? then rs + [e.r] else rs }

  method Step(engine: Engine, card: Card, e: Event, ghost mem: Memory, ghost rs: seq<Chunk>, ghost n: nat)
    returns (ghost n': nat)
    requires Progress(engine, card, mem, rs, n)
    modifies engine, card, engine.transferList`state
    ensures Progress(engine, card, mem, After(rs, e), n')
    ensures n' == if e.Completion? && n < |rs| then n + 1 else n
    ensures forall k :: 0 <= k < |engine.transferList| ==>
      fresh(engine.transferList[k]) || engine.transferList[k] in old(engine.transferList)
  {
    n' := n;
    match e {
      case Arrival(r) =>
        var _ := Submit(engine, card, r, mem, rs, n);
      case Completion =>
        if engine.transferList != [] {
          Complete(engine, card, mem, rs, n);
          n' := n + 1;
        }
    }
  }

  /**
    However arrivals and completions interleave, the memory is what the first n requests make of it one
    after the other, in the order they arrived, where every completion that finds a transfer queued adds
    one to n; once the queue is empty, that is all of them.
  */
  method Run(engine: Engine, card: Card, events: seq<Event>) returns (ghost n: nat)
    requires Ready(engine) && !engine.nonIncrAddr
    modifies engine, card
    ensures n <= |Arrived(events)| && engine.Valid()
    ensures card.mem == MemcpyAll(old(card.mem), Arrived(events)[..n], engine.dirToDev)
    ensures engine.transferList == [] <==> n == |Arrived(events)|
    ensures n == Done(events) && (n == Completions(events) <==> Balanced(events))
  {
    ghost var mem := card.mem;
    n := 0;
    var i := 0;
    while i < |events|
      invariant 0 <= i <= |events|
      invariant Progress(engine, card, mem, Arrived(events[..i]), n)
      invariant n == Done(events[..i])
      invariant forall k :: 0 <= k < |engine.transferList| ==> fresh(engine.transferList[k])
    {
      assert events[..i + 1][..i] == events[..i];
      n := Step(engine, card, events[i], mem, Arrived(events[..i]), n);
      i := i + 1;
    }
    assert events[..i] == events;
    DoneBalanced(events);
  }
}
