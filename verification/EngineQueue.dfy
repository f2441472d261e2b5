/**
  The transfer queue of a memory-mapped SG DMA engine: submission, start, and service of completed
  descriptors. Every method is one section under engine->lock.
*/
module EngineQueue {
  import opened XdmaTypes
  import opened DescriptorChain
  import opened Transfers

  const WB_ERR: nat := 0x8000_0000

  /**
    What service looks at in the status register: the BUSY bit, and whether one of the bits
    MAGIC_STOPPED, ALIGN_MISMATCH, READ_ERROR or DESC_ERROR is set.
  */
  datatype Status = Status(busy: bool, errors: bool)

  /** enum shutdown_state: the bits ENGINE_SHUTDOWN_REQUEST and ENGINE_SHUTDOWN_IDLE. */
  datatype Shutdown = Shutdown(request: bool, idle: bool)

  const SHUTDOWN_NONE: Shutdown := Shutdown(false, false)

  // ----- completion accounting

  /** Descriptors of the first k transfers. */
  function Upto(counts: seq<nat>, k: nat): nat
    requires k <= |counts|
  {
    if k == 0 then 0 else Upto(counts, k - 1) + counts[k - 1]
  }

  function Total(counts: seq<nat>): nat { Upto(counts, |counts|) }

  /**
    Index of the transfer at which the list loop of engine_service stops, when it is at transfer i
    and c completed descriptors are left: it goes on while more are left than transfer i has.
  */
  function PassedFrom(counts: seq<nat>, i: nat, c: nat): (m: nat)
    requires i <= |counts|
    ensures i <= m <= |counts|
    decreases |counts| - i
  {
    if i == |counts| || c <= counts[i] then i else PassedFrom(counts, i + 1, c - counts[i])
  }

  /** How many transfers the list loop takes off for c completed descriptors. */
  function Passed(counts: seq<nat>, c: nat): (m: nat)
    ensures m <= |counts|
  {
    PassedFrom(counts, 0, c)
  }

  /** What becomes of transfer k when c descriptors completed: COMPLETED iff all its descriptors are among them. */
  function Outcome(counts: seq<nat>, c: nat, k: nat): TransferState
    requires k < |counts|
  {
    if Upto(counts, k + 1) <= c then Completed else Failed
  }

  lemma {:induction false} PassedFromCovers(counts: seq<nat>, i: nat, c: nat)
    requires i < |counts| && c <= Total(counts) - Upto(counts, i)
    ensures var m := PassedFrom(counts, i, c);
            && m < |counts| && (c >= 1 ==> Upto(counts, m) < Upto(counts, i) + c)
            && Upto(counts, i) + c <= Upto(counts, m + 1)
    decreases |counts| - i
  {
    if c > counts[i] { PassedFromCovers(counts, i + 1, c - counts[i]); }
  }

  /** Taking one transfer after those passed gives the shortest prefix that covers c descriptors. */
  lemma {:induction false} PassedCovers(counts: seq<nat>, c: nat)
    requires counts != [] && c <= Total(counts)
    ensures var m := Passed(counts, c);
            && m < |counts| && c <= Upto(counts, m + 1)
            && (c >= 1 ==> Upto(counts, m) < c)
            && (forall k :: 0 <= k < m ==> Outcome(counts, c, k) == Completed)
  {
    var m := Passed(counts, c);
    PassedFromCovers(counts, 0, c);
    forall k | 0 <= k < m
      ensures Outcome(counts, c, k) == Completed
    {
      UptoMono(counts, k + 1, m);
    }
  }

  /** No other length is shortest: a prefix covers c exactly when it is longer than those passed. */
  lemma {:induction false} PassedShortest(counts: seq<nat>, c: nat, k: nat)
    requires 1 <= c <= Total(counts) && k <= |counts|
    ensures Upto(counts, k) >= c <==> k > Passed(counts, c)
  {
    var m := Passed(counts, c);
    PassedCovers(counts, c);
    if k <= m { UptoMono(counts, k, m); } else { UptoMono(counts, m + 1, k); }
  }

  lemma {:induction false} UptoMono(counts: seq<nat>, j: nat, k: nat)
    requires j <= k <= |counts|
    ensures Upto(counts, j) <= Upto(counts, k)
    decreases k
  {
    if j < k { UptoMono(counts, j, k - 1); }
  }

  // ----- the engine

  ghost predicate Distinct<T>(s: seq<T>)
  {
    forall i, j {:trigger Differ(s, i, j)} :: 0 <= i < j < |s| ==> Differ(s, i, j)
  }

  ghost predicate Differ<T>(s: seq<T>, i: nat, j: nat)
    requires i < |s| && j < |s|
  {
    s[i] != s[j]
  }

  lemma {:induction false} DistinctAt<T>(s: seq<T>, m: nat)
    requires Distinct(s) && m < |s|
    ensures forall k :: 0 <= k < |s| && k != m ==> s[k] != s[m]
  {
    forall k | 0 <= k < |s| && k != m
      ensures s[k] != s[m]
    {
      if k < m { assert Differ(s, k, m); } else { assert Differ(s, m, k); }
    }
  }

  lemma {:induction false} DistinctTail<T>(s: seq<T>, t: seq<T>)
    requires Distinct(s + t)
    ensures Distinct(t) && forall k :: 0 <= k < |s| ==> s[k] !in t
  {
    forall i: nat, j: nat | i < j < |t|
      ensures Differ(t, i, j)
    {
      assert Differ(s + t, |s| + i, |s| + j);
    }
    forall i, j | 0 <= i < |s| && 0 <= j < |t|
      ensures s[i] != t[j]
    {
      assert Differ(s + t, i, |s| + j);
    }
  }

  lemma {:induction false} DistinctSnoc<T>(s: seq<T>, x: T)
    requires Distinct(s) && x !in s
    ensures Distinct(s + [x])
  {
    forall i: nat, j: nat | i < j < |s + [x]|
      ensures Differ(s + [x], i, j)
    {
      if j < |s| { assert Differ(s, i, j); }
    }
  }

  /** Descriptor counts of the queued transfers. */
  function Counts(list: seq<Transfer>): (r: seq<nat>)
    ensures |r| == |list| && forall k :: 0 <= k < |list| ==> r[k] == list[k].descNum
  {
    seq(|list|, k requires 0 <= k < |list| => list[k].descNum)
  }

  /** Descriptors of the transfers from number i on. */
  function DescsFrom(s: seq<Transfer>, i: nat): nat
    decreases |s|
  {
    if i >= |s| then 0 else DescsFrom(s[..|s| - 1], i) + s[|s| - 1].descNum
  }

  /** Appending the first k transfers of a list adds their descriptors. */
  lemma {:induction false} DescsAppended(s: seq<Transfer>, list: seq<Transfer>, i: nat, k: nat)
    requires i <= |s| && k <= |list|
    ensures DescsFrom(s + list[..k], i) == DescsFrom(s, i) + Upto(Counts(list), k)
    decreases k
  {
    var t := s + list[..k];
    if k == 0 {
      assert t == s;
    } else {
      assert t[..|t| - 1] == s + list[..k - 1];
      DescsAppended(s, list, i, k - 1);
    }
  }

  /** The part of struct xdma_engine that serves memory-mapped transfers. */
  class Engine {
    const dirToDev: bool
    const nonIncrAddr: bool
    const streaming: bool
    const addrAlign: nat
    const lenGranularity: nat
    var running: bool
    var shutdown: Shutdown
    var status: Status
    var descDequeued: nat
    var transferList: seq<Transfer>
    // registers written by engine_start
    var firstDesc: u64
    var firstDescAdjacent: nat
    // every transfer accepted so far, and those no longer queued, both in order of submission
    ghost var submitted: seq<Transfer>
    ghost var retired: seq<Transfer>
    // how many had been retired when the engine was last started
    ghost var runStart: nat

    /** Queue and history agree: transfers leave SUBMITTED once, in order, when they leave the queue. */
    ghost predicate Consistent()
      reads `submitted, `transferList, `retired, transferList`state, retired`state
    {
      && submitted == retired + transferList
      && Distinct(submitted)
      && WaitingFrom(transferList, 0) && FinishedUpto(retired, |retired|)
    }

    static ghost predicate WaitingFrom(s: seq<Transfer>, m: nat)
      reads s`state
    {
      forall k :: m <= k < |s| ==> s[k].state == Submitted && s[k].descNum > 0
    }

    /** engine_service serves no cyclic transfer: an engine that has one gets another service routine. */
    static ghost predicate NoneCyclic(s: seq<Transfer>)
      reads s`cyclic
    {
      forall k :: 0 <= k < |s| ==> !s[k].cyclic
    }

    static ghost predicate FinishedUpto(s: seq<Transfer>, m: nat)
      reads s`state
    {
      m <= |s| && forall k :: 0 <= k < m ==> s[k].state == Completed || s[k].state == Failed
    }

    /** The start registers name the chain of transfer t. */
    ghost predicate StartedWith(t: Transfer)
      reads `firstDesc, `firstDescAdjacent
    {
      firstDesc == t.descBus && firstDescAdjacent == FirstAdjacent(t.descAdjacent)
    }

    /**
      The run of the engine: it was started with the first transfer that was queued then, and
      descDequeued counts the descriptors of the transfers that have left the queue since.
    */
    ghost predicate RunAccount()
      reads `descDequeued, `firstDesc, `firstDescAdjacent, `submitted, `retired, `runStart
    {
      && runStart <= |retired| && runStart < |submitted|
      && StartedWith(submitted[runStart])
      && descDequeued == DescsFrom(retired, runStart)
    }

    /** The engine has just been started, or nothing has left the queue since. */
    ghost predicate FreshRun()
      reads `running, `descDequeued, `firstDesc, `firstDescAdjacent, `transferList
    {
      running && transferList != [] && descDequeued == 0 && StartedWith(transferList[0])
    }

    /**
      What holds whenever engine->lock is free: but for a shutdown, the engine runs exactly when transfers are
      queued.
    */
    ghost predicate Valid()
      reads `running, `shutdown, `descDequeued, `firstDesc, `firstDescAdjacent, `runStart
      reads `submitted, `transferList, `retired, transferList`state, retired`state
    {
      && Consistent()
      && (running ==> transferList != [] && RunAccount())
      && (!shutdown.request && transferList != [] ==> running)
    }

    constructor (dirToDev: bool, nonIncrAddr: bool, streaming: bool, addrAlign: nat, lenGranularity: nat)
      ensures Valid() && !running && transferList == [] && submitted == [] && shutdown == SHUTDOWN_NONE
      ensures this.dirToDev == dirToDev && this.nonIncrAddr == nonIncrAddr && this.streaming == streaming
      ensures this.addrAlign == addrAlign && this.lenGranularity == lenGranularity && status == Status(false, false)
    {
      this.dirToDev, this.nonIncrAddr, this.streaming := dirToDev, nonIncrAddr, streaming;
      this.addrAlign, this.lenGranularity := addrAlign, lenGranularity;
      running, shutdown, status, descDequeued := false, SHUTDOWN_NONE, Status(false, false), 0;
      transferList, firstDesc, firstDescAdjacent, submitted, retired, runStart := [], 0, 0, [], [], 0;
    }

    /** engine_start: the two BUG_ONs are the preconditions. */
    method Start()
      requires !running
      requires transferList != []
      modifies `running, `shutdown, `descDequeued, `firstDesc, `firstDescAdjacent, `runStart
      ensures FreshRun() && shutdown == SHUTDOWN_NONE && runStart == |retired|
    {
      var transfer := transferList[0];
      shutdown := SHUTDOWN_NONE;
      descDequeued := 0;
      firstDesc := transfer.descBus;
      var extraAdj := 0;
      if transfer.descAdjacent > 0 {
        extraAdj := transfer.descAdjacent - 1;
        if extraAdj > MAX_EXTRA_ADJ {
          extraAdj := MAX_EXTRA_ADJ;
        }
      }
      firstDescAdjacent := extraAdj;
      running := true;
      runStart := |retired|;
    }

    /** transfer_queue. */
    method Queue(t: Transfer) returns (rc: int)
      requires Valid()
      requires t.descNum > 0 && t.state == New && t !in submitted
      modifies this, t`state
      ensures Valid()
      ensures old(shutdown).request ==>
        rc == -1 && transferList == old(transferList) && submitted == old(submitted) && t.state == New
        && running == old(running) && shutdown == old(shutdown)
      ensures !old(shutdown).request ==>
        rc == 0 && transferList == old(transferList) + [t] && submitted == old(submitted) + [t] && t.state == Submitted
        && running && shutdown == (if old(running) then old(shutdown) else SHUTDOWN_NONE)
      ensures retired == old(retired) && status == old(status)
      ensures !old(shutdown).request && (!old(running) || old(FreshRun())) ==> FreshRun()
      ensures forall k :: 0 <= k < |old(submitted)| ==> old(submitted)[k].state == old(submitted[k].state)
    {
      if shutdown.request {
        return -1;
      }
      DistinctSnoc(submitted, t);
      assert submitted + [t] == retired + (transferList + [t]);
      t.state := Submitted;
      transferList := transferList + [t];
      submitted := submitted + [t];
      if !running {
        Start();
      }
      rc := 0;
    }

    /**
      engine_service_transfer_list: takes completed transfers off the list, all but the last.
      Returns the count left over.
    */
    method ServiceTransferList(completed: nat) returns (left: nat)
      requires transferList != [] && Distinct(transferList)
      requires NoneCyclic(transferList)
      modifies `transferList, `descDequeued, transferList`state
      ensures var counts, m := Counts(old(transferList)), Passed(Counts(old(transferList)), completed);
        && transferList == old(transferList)[m..]
        && left + Upto(counts, m) == completed
        && descDequeued == old(descDequeued) + Upto(counts, m)
        && (forall k :: 0 <= k < m ==> old(transferList)[k].state == Completed)
        && (forall k :: m <= k < |old(transferList)| ==> old(transferList)[k].state == old(transferList[k].state))
    {
      left := completed;
      ghost var list, counts, m := transferList, Counts(transferList), 0;
      while transferList != [] && !transferList[0].cyclic && left > transferList[0].descNum
        invariant m <= |list| && transferList == list[m..]
        invariant left + Upto(counts, m) == completed
        invariant descDequeued == old(descDequeued) + Upto(counts, m)
        invariant PassedFrom(counts, m, left) == Passed(counts, completed)
        invariant forall k :: 0 <= k < m ==> list[k].state == Completed
        invariant forall k :: m <= k < |list| ==> list[k].state == old(list[k].state)
        decreases |list| - m
      {
        var transfer := transferList[0];
        assert transfer == list[m] && counts[m] == transfer.descNum;
        DistinctAt(list, m);
        left := left - transfer.descNum;
        CompleteHead(transfer);
        m := m + 1;
      }
    }

    /** Takes the head off the list as completed. */
    method CompleteHead(transfer: Transfer)
      requires transferList != [] && transfer == transferList[0]
      modifies `transferList, `descDequeued, transfer`state
      ensures transferList == old(transferList)[1..] && descDequeued == old(descDequeued) + transfer.descNum
      ensures transfer.state == Completed
    {
      transferList := transferList[1..];
      descDequeued := descDequeued + transfer.descNum;
      transfer.state := Completed;
    }

    /** engine_service_final_transfer; the BUG_ON on a missing transfer is the precondition. */
    method ServiceFinalTransfer(transfer: Transfer, completed: nat)
      requires transferList != [] && transfer == transferList[0]
      modifies `transferList, `descDequeued, transfer`state
      ensures status.errors ==>
        transferList == old(transferList) && transfer.state == Failed && descDequeued == old(descDequeued)
      ensures !status.errors ==>
        && transferList == old(transferList)[1..]
        && transfer.state == (if completed < transfer.descNum then Failed else Completed)
        && descDequeued == old(descDequeued) + transfer.descNum
    {
      if status.errors {
        transfer.state := Failed;
        return;
      }
      if completed < transfer.descNum {
        transfer.state := Failed;
      } else {
        transfer.state := Completed;
      }
      transferList := transferList[1..];
      descDequeued := descDequeued + transfer.descNum;
    }

    /** The middle of engine_service: the list loop, then the final transfer. */
    method ServiceTransfers(completed: nat)
      requires transferList != [] && completed <= Total(Counts(transferList))
      requires Distinct(transferList) && WaitingFrom(transferList, 0) && NoneCyclic(transferList)
      modifies `transferList, `descDequeued, transferList`state
      ensures Serviced(old(transferList), completed)
      ensures var m := Passed(Counts(old(transferList)), completed);
        && WaitingFrom(old(transferList), m + 1)
        && (!status.errors ==>
              && FinishedUpto(old(transferList), m + 1)
              && descDequeued == old(descDequeued) + Upto(Counts(old(transferList)), m + 1))
    {
      ghost var list, counts := transferList, Counts(transferList);
      ghost var m := Passed(counts, completed);
      PassedCovers(counts, completed);
      var left := ServiceTransferList(completed);
      var transfer := transferList[0];
      DistinctAt(list, m);
      assert transfer == list[m];
      ServiceFinalTransfer(transfer, left);
      PrefixServiced(list, m, completed, left);
    }

    /** The states that the list loop and the final transfer leave are those of a serviced prefix. */
    lemma {:induction false} PrefixServiced(list: seq<Transfer>, m: nat, completed: nat, left: nat)
      requires completed <= Total(Counts(list)) && m < |list| && m == Passed(Counts(list), completed)
      requires left + Upto(Counts(list), m) == completed
      requires transferList == if status.errors then list[m..] else list[m..][1..]
      requires forall k :: 0 <= k < m ==> list[k].state == Completed
      requires list[m].state == if status.errors || left < list[m].descNum then Failed else Completed
      ensures Serviced(list, completed) && (!status.errors ==> FinishedUpto(list, m + 1))
    {
      PassedCovers(Counts(list), completed);
      assert Upto(Counts(list), m + 1) == Upto(Counts(list), m) + list[m].descNum;
      assert list[m..][1..] == list[m + 1..];
    }

    /**
      The outcome of servicing `list` with c completed descriptors: the shortest covering prefix is
      gone, and in it exactly the transfers within the first c descriptors are COMPLETED. With a
      hardware error the last of that prefix stays at the head of the queue as FAILED.
    */
    ghost predicate Serviced(list: seq<Transfer>, c: nat)
      reads `status, `transferList, list`state
    {
      var counts := Counts(list);
      var m := Passed(counts, c);
      && m < |list|
      && (!status.errors ==>
            && transferList == list[m + 1..]
            && forall k :: 0 <= k <= m ==>
                 list[k].state == Outcome(counts, c, k))
      && (status.errors ==> transferList == list[m..] && list[m].state == Failed)
    }

    /** What engine_service_resume makes of the shutdown state of an engine that is running or not. */
    function ShutdownAfter(wasRunning: bool, was: Shutdown): Shutdown
      reads `transferList
    {
      if wasRunning then was
      else if was.request then Shutdown(true, true)
      else if transferList != [] then Shutdown(false, false)
      else was
    }

    /** engine_service_resume. */
    method Resume()
      modifies `running, `shutdown, `descDequeued, `firstDesc, `firstDescAdjacent, `runStart
      ensures old(running) ==> unchanged(this)
      ensures !old(running) ==>
        && running == (!shutdown.request && transferList != [])
        && (running ==> FreshRun())
      ensures shutdown == ShutdownAfter(old(running), old(shutdown))
      ensures Consistent() == old(Consistent())
      ensures Valid() <==> Consistent() && (old(running) ==> transferList != [] && RunAccount())
    {
      if !running {
        if shutdown.request {
          shutdown := shutdown.(idle := true);
        } else if transferList != [] {
          Start();
        }
      }
    }

    /** ServiceTransfers, with the serviced prefix moved to the history. */
    method ServiceAndRetire(completed: nat)
      requires Consistent() && transferList != [] && NoneCyclic(transferList)
      requires completed <= Total(Counts(transferList))
      modifies `transferList, `descDequeued, `retired, transferList`state
      ensures Serviced(old(transferList), completed)
      ensures !status.errors ==> Consistent()
      ensures !status.errors ==>
        && retired == old(retired) + old(transferList)[..Passed(Counts(old(transferList)), completed) + 1]
        && descDequeued
           == old(descDequeued) + Upto(Counts(old(transferList)), Passed(Counts(old(transferList)), completed) + 1)
      ensures forall k :: 0 <= k < |old(retired)| ==> old(retired)[k].state == old(retired[k].state)
    {
      ghost var was, list, m := retired, transferList, Passed(Counts(transferList), completed);
      DistinctTail(was, list);
      ServiceTransfers(completed);
      forall k | 0 <= k < |was|
        ensures was[k].state == old(was[k].state)
      {
        assert was[k] !in list;
      }
      if !status.errors {
        Retire(list, m);
      }
    }

    /** Moves the serviced prefix of the queue to the history. */
    ghost method Retire(list: seq<Transfer>, m: nat)
      requires m < |list| && transferList == list[m + 1..]
      requires submitted == retired + list && Distinct(submitted)
      requires FinishedUpto(retired, |retired|) && FinishedUpto(list, m + 1) && WaitingFrom(list, m + 1)
      modifies `retired
      ensures retired == old(retired) + list[..m + 1]
      ensures Consistent()
    {
      assert list == list[..m + 1] + list[m + 1..];
      retired := retired + list[..m + 1];
    }

    /**
      engine_service from the list loop on. The invariant survives unless there was a hardware error, or
      the engine was left running and the queue is now empty.
    */
    method ServiceAndResume(completed: nat)
      requires Consistent() && transferList != [] && NoneCyclic(transferList)
      requires completed <= Total(Counts(transferList))
      requires RunAccount()
      modifies `running, `shutdown, `descDequeued, `firstDesc, `firstDescAdjacent, `runStart
      modifies `transferList, `retired, transferList`state
      ensures Serviced(old(transferList), completed)
      ensures transferList != [] <==>
        status.errors || Passed(Counts(old(transferList)), completed) + 1 < |old(transferList)|
      ensures Valid() <==> !status.errors && (!old(running) || transferList != [])
      ensures !status.errors ==> Consistent()
      ensures !status.errors ==>
        retired == old(retired) + old(transferList)[..Passed(Counts(old(transferList)), completed) + 1]
      ensures running == (old(running) || (!shutdown.request && transferList != []))
      ensures !old(running) && running ==> FreshRun()
      ensures shutdown == ShutdownAfter(old(running), old(shutdown))
      ensures !status.errors ==> RetiredBy(|old(retired)|, old(runStart), old(descDequeued) + completed)
      ensures forall k :: 0 <= k < |old(retired)| ==> old(retired)[k].state == old(retired[k].state)
    {
      ServiceAndAccount(completed);
      Resume();
    }

    /** The same before the engine is resumed. */
    method ServiceAndAccount(completed: nat)
      requires Consistent() && transferList != [] && NoneCyclic(transferList)
      requires completed <= Total(Counts(transferList))
      modifies `transferList, `descDequeued, `retired, transferList`state
      ensures Serviced(old(transferList), completed)
      ensures Consistent() <==> !status.errors
      ensures !status.errors && old(RunAccount()) ==>
        RunAccount() && RetiredBy(|old(retired)|, old(runStart), old(descDequeued) + completed)
      ensures !status.errors ==>
        retired == old(retired) + old(transferList)[..Passed(Counts(old(transferList)), completed) + 1]
      ensures forall k :: 0 <= k < |old(retired)| ==> old(retired)[k].state == old(retired[k].state)
    {
      ghost var was, list, m := retired, transferList, Passed(Counts(transferList), completed);
      ghost var kept, dequeued := RunAccount(), descDequeued;
      ServiceAndRetire(completed);
      if status.errors {
        NotConsistent(list, m);
      } else if kept {
        AccountKept(was, list, m, dequeued);
        RetiredWithin(was, list, m, dequeued, completed);
      }
    }

    /**
      Of the transfers retired from number `from` on, those are COMPLETED that end within the first c
      descriptors since transfer number `start`.
    */
    ghost predicate RetiredBy(from: nat, start: nat, c: nat)
      reads `retired, retired`state
    {
      forall k {:trigger retired[k]} :: from <= k < |retired| ==>
        (retired[k].state == Completed <==> DescsFrom(retired[..k + 1], start) <= c)
    }

    lemma {:induction false} RetiredWithin(was: seq<Transfer>, list: seq<Transfer>, m: nat, dequeued: nat,
                                           completed: nat)
      requires runStart <= |was| && dequeued == DescsFrom(was, runStart)
      requires m < |list| && m == Passed(Counts(list), completed) && retired == was + list[..m + 1]
      requires Serviced(list, completed) && !status.errors
      ensures RetiredBy(|was|, runStart, dequeued + completed)
    {
      forall k | |was| <= k < |retired|
        ensures retired[k].state == Completed <==> DescsFrom(retired[..k + 1], runStart) <= dequeued + completed
      {
        var i := k - |was|;
        assert retired[..k + 1] == was + list[..i + 1] && retired[k] == list[i];
        DescsAppended(was, list, runStart, i + 1);
        assert list[i].state == Outcome(Counts(list), completed, i);
      }
    }

    /** The account of the run, after a prefix of the queue was retired. */
    lemma {:induction false} AccountKept(was: seq<Transfer>, list: seq<Transfer>, m: nat, dequeued: nat)
      requires runStart <= |was| && runStart < |submitted| && StartedWith(submitted[runStart])
      requires m < |list| && retired == was + list[..m + 1]
      requires dequeued == DescsFrom(was, runStart) && descDequeued == dequeued + Upto(Counts(list), m + 1)
      ensures RunAccount()
    {
      DescsAppended(was, list, runStart, m + 1);
    }

    /** A failed transfer at the head of the queue is not waiting to be done. */
    lemma {:induction false} NotConsistent(list: seq<Transfer>, m: nat)
      requires m < |list| && transferList == list[m..] && list[m].state == Failed
      ensures transferList != [] && !Consistent()
    {
      assert transferList[0].state == Failed;
    }

    /**
      The head of engine_service: reads the status, shuts the engine down unless it is still busy and
      no descriptor was reported, finds the count.
    */
    method ShutDown(writeback: u32, hwStatus: Status, hwCount: u32) returns (descCount: u32)
      requires running
      modifies `running, `status
      ensures running == StillBusy(writeback, hwStatus) && descCount == NewlyCompleted(writeback, hwCount)
      ensures status == if WbCount(writeback) == 0 || writeback >= WB_ERR then hwStatus else old(status)
    {
      descCount := WbCount(writeback);
      if descCount == 0 || writeback >= WB_ERR {
        status := hwStatus;
      }
      if !status.busy || descCount != 0 {
        running := false;
      }
      if descCount == 0 {
        descCount := hwCount;
      }
      // account for transfers already dequeued during this run of the engine
      descCount := (descCount - descDequeued) % 0x1_0000_0000;
    }

    /** Descriptors completed and not yet dequeued, as engine_service computes them. */
    function NewlyCompleted(writeback: u32, hwCount: u32): u32
      reads `descDequeued
    {
      Uncounted(CompletedCount(writeback, hwCount), descDequeued)
    }

    /** engine_service for a running engine. */
    method ServiceRunning(writeback: u32, hwStatus: Status, hwCount: u32) returns (rc: int)
      requires Valid()
      requires running && NoneCyclic(transferList) && NewlyCompleted(writeback, hwCount) <= Total(Counts(transferList))
      modifies this, transferList`state
      ensures submitted == old(submitted)
      ensures shutdown == ShutdownAfter(writeback % 0x100_0000 == 0 && hwStatus.busy, old(shutdown))
      ensures rc == if writeback >= 0x8000_0000 then -1 else 0
      ensures status == if writeback % 0x100_0000 == 0 || writeback >= 0x8000_0000 then hwStatus else old(status)
      ensures Serviced(old(transferList), old(NewlyCompleted(writeback, hwCount)))
      ensures var m := Passed(Counts(old(transferList)), old(NewlyCompleted(writeback, hwCount)));
        && (Valid() <==> !status.errors && (!StillBusy(writeback, hwStatus) || m + 1 < |old(transferList)|))
        && (!shutdown.request ==>
              ((running <==> transferList != [])
               <==> status.errors || !StillBusy(writeback, hwStatus) || m + 1 < |old(transferList)|))
        && (!status.errors ==> Consistent() && retired == old(retired) + old(transferList)[..m + 1])
      ensures writeback % 0x100_0000 != 0 ==> running == (!shutdown.request && transferList != [])
      ensures writeback % 0x100_0000 == 0 ==>
        running == (hwStatus.busy || (!shutdown.request && transferList != []))
      ensures var c := if writeback % 0x100_0000 != 0 then writeback % 0x100_0000 else hwCount;
        !status.errors && old(descDequeued) <= c ==> RetiredBy(|old(retired)|, old(runStart), c)
      ensures running && !StillBusy(writeback, hwStatus) ==> FreshRun()
      ensures forall k :: 0 <= k < |old(retired)| ==> old(retired)[k].state == old(retired[k].state)
    {
      rc := if writeback >= WB_ERR then -1 else 0;
      var descCount := ShutDown(writeback, hwStatus, hwCount);
      CountWords(writeback, hwStatus, hwCount, descDequeued);
      ServiceAndResume(descCount);
    }

    /**
      engine_service, called by the interrupt work (writeback 0) or after polling. `hwStatus` and
      `hwCount` are what the status and completed_desc_count registers read as. The engine cannot
      have completed more descriptors than are queued, which is the BUG_ON on a missing transfer. The
      invariant survives a call unless it meets a hardware error or empties the queue of an engine
      that it found busy and left running.
    */
    method Service(writeback: u32, hwStatus: Status, hwCount: u32) returns (rc: int)
      requires Valid()
      requires running ==> NoneCyclic(transferList) && NewlyCompleted(writeback, hwCount) <= Total(Counts(transferList))
      modifies this, transferList`state
      ensures submitted == old(submitted) && shutdown.request == old(shutdown).request
      ensures !old(running) ==>
        && rc == 0 && Valid() && !running && transferList == old(transferList) && retired == old(retired)
        && shutdown == old(shutdown) && status == if writeback == 0 then hwStatus else old(status)
      ensures old(running) ==>
        shutdown == ShutdownAfter(writeback % 0x100_0000 == 0 && hwStatus.busy, old(shutdown))
      ensures old(running) ==> rc == if writeback >= 0x8000_0000 then -1 else 0
      ensures old(running) ==>
        status == if writeback % 0x100_0000 == 0 || writeback >= 0x8000_0000 then hwStatus else old(status)
      ensures old(running) ==> Serviced(old(transferList), old(NewlyCompleted(writeback, hwCount)))
      ensures var m := Passed(Counts(old(transferList)), old(NewlyCompleted(writeback, hwCount)));
        old(running) ==>
          && (Valid() <==> !status.errors && (!StillBusy(writeback, hwStatus) || m + 1 < |old(transferList)|))
          && (!shutdown.request ==>
                ((running <==> transferList != [])
                 <==> status.errors || !StillBusy(writeback, hwStatus) || m + 1 < |old(transferList)|))
          && (!status.errors ==> Consistent() && retired == old(retired) + old(transferList)[..m + 1])
      ensures old(running) && writeback % 0x100_0000 != 0 ==> running == (!shutdown.request && transferList != [])
      ensures old(running) && writeback % 0x100_0000 == 0 ==>
        running == (hwStatus.busy || (!shutdown.request && transferList != []))
      ensures var c := if writeback % 0x100_0000 != 0 then writeback % 0x100_0000 else hwCount;
        old(running) && !status.errors && old(descDequeued) <= c ==> RetiredBy(|old(retired)|, old(runStart), c)
      ensures old(running) && running && !StillBusy(writeback, hwStatus) ==> FreshRun()
      ensures forall k :: 0 <= k < |old(retired)| ==> old(retired)[k].state == old(retired[k].state)
    {
      if !running {
        if writeback == 0 { status := hwStatus; }
        return 0;
      }
      rc := ServiceRunning(writeback, hwStatus, hwCount);
    }
  }

  /** A new engine, started with transfer t. */
  method NewlyStarted(t: Transfer) returns (engine: Engine)
    requires t.descNum > 0 && t.state == New
    modifies t`state
    ensures fresh(engine) && engine.Valid() && engine.FreshRun() && engine.transferList == [t]
    ensures !engine.shutdown.request && engine.retired == []
  {
    engine := new Engine(t.dirToDev, false, false, 1, 1);
    var _ := engine.Queue(t);
  }

  /**
    A run that a busy engine does not survive: the only transfer is taken off as FAILED although the
    engine is at work on it, and the engine runs on with an empty queue.
  */
  method BusyCallFailsLiveTransfer(t: Transfer) returns (engine: Engine)
    requires t.descNum > 0 && t.state == New && !t.cyclic
    modifies t`state
    ensures engine.running && engine.transferList == [] && t.state == Failed && !engine.status.errors
    ensures !engine.Valid()
  {
    engine := NewlyStarted(t);
    OnlyTransfer(t, 0);
    var _ := engine.Service(0, Status(true, false), 0);
  }

  /** A run with a hardware error: the failed transfer is still queued, and the engine is started with it again. */
  method ErrorRestartsFailedTransfer(t: Transfer, hwCount: u32) returns (engine: Engine)
    requires t.descNum > 0 && t.state == New && !t.cyclic && hwCount <= t.descNum
    modifies t`state
    ensures engine.FreshRun() && engine.transferList == [t] && t.state == Failed
    ensures !engine.Valid()
  {
    engine := NewlyStarted(t);
    OnlyTransfer(t, hwCount);
    var _ := engine.Service(0, Status(false, true), hwCount);
  }

  /** What the list loop makes of a queue with a single transfer. */
  lemma {:induction false} OnlyTransfer(t: Transfer, c: nat)
    requires c <= t.descNum
    ensures Total(Counts([t])) == t.descNum && Passed(Counts([t]), c) == 0
    ensures Upto(Counts([t]), 1) == t.descNum
  {
    assert Upto(Counts([t]), 1) == Upto(Counts([t]), 0) + t.descNum;
  }

  /** The subtraction is on u32 and wraps around. */
  function Uncounted(completed: u32, dequeued: nat): u32 { (completed - dequeued) % 0x1_0000_0000 }

  /** The counts and the decision to go on running, in raw words. */
  lemma {:induction false} CountWords(writeback: u32, hwStatus: Status, hwCount: u32, dequeued: nat)
    ensures var c := if writeback % 0x100_0000 != 0 then writeback % 0x100_0000 else hwCount;
            dequeued <= c ==> dequeued + Uncounted(CompletedCount(writeback, hwCount), dequeued) == c
    ensures StillBusy(writeback, hwStatus) <==> writeback % 0x100_0000 == 0 && hwStatus.busy
  {}

  /** The engine was found busy without a reported descriptor, so it is not shut down. */
  predicate StillBusy(writeback: u32, hwStatus: Status) { WbCount(writeback) == 0 && hwStatus.busy }

  /** The descriptor count in a polled writeback word. */
  function WbCount(writeback: u32): u32 { writeback % 0x100_0000 }

  /** Number of completed descriptors service works with: the polled writeback, or the register. */
  function CompletedCount(writeback: u32, hwCount: u32): u32
  {
    if WbCount(writeback) != 0 then WbCount(writeback) else hwCount
  }
}
