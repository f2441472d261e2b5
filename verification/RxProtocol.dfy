/**
  The credit-controlled receive ring as a protocol between the hardware, the service routine and a
  single reader. Each step is one hardware fill, one iteration of a locked loop, one block copied, or
  one change of hands, so the hardware may act between any two of them, locked or not.
*/
module RxProtocol {
  import opened XdmaTypes
  import opened RxRing

  const CREDITS: nat := 128

  /** One result of the hardware, with the bytes it wrote to the ring block. */
  datatype Piece = Piece(result: Result, data: seq<byte>)

  /** A full block unless it ends a packet, reported with its true length and the result magic. */
  predicate WellFormed(p: Piece)
  {
    p.result.Good() && |p.data| == p.result.length && (p.result.Eop() || p.result.length == RX_BUF_BLOCK)
  }

  datatype Reader =
    | Idle
    | Claiming(start: nat, pktLength: nat, credits: nat, fault: bool, eop: bool)
    | Copying(at: nat, remaining: nat, pktLength: nat, credits: nat)

  /**
    rx is the ring buffer, hw the block the hardware fills next. The rest is history: all results
    so far, how many of them the tail and the head have passed, were copied or given up by the
    reader, and the credits lost to faults; `failed` records a failed copy to the user.
  */
  datatype State = State(
    rx: seq<byte>, ring: Ring, hw: nat, hwCredits: nat, serviceLocked: bool, reader: Reader,
    delivered: seq<byte>,
    log: seq<Piece>, scanned: nat, claimed: nat, copied: nat, freed: nat, lost: nat, failed: bool)

  datatype Step =
    | HwFill(piece: Piece)
    | ServiceLock | ServiceIter | ServiceUnlock
    | ReaderLock | ClaimIter | ReaderUnlock
    | CopyBlock | CopyFault | Release

  /** cyclic_transfer_setup in credit mode: empty ring, 128 credits for the hardware. */
  function Init(rx: seq<byte>): State
  {
    State(rx, Ring(seq(256, _ => Result(0, 0)), 0, 0, false), 0, CREDITS, false, Idle, [], [], 0, 0, 0, 0, 0, false)
  }

  function ReaderClaim(s: State): Claim
    requires s.reader.Claiming?
  {
    Claim(s.ring, s.reader.pktLength, s.reader.credits, s.reader.fault, s.reader.eop)
  }

  ghost predicate Enabled(s: State, step: Step)
    requires s.ring.WellShaped()
  {
    match step
    case HwFill(p) => s.hwCredits > 0 && p.result.status != 0 && |p.data| <= RX_BUF_BLOCK
    case ServiceLock => !s.serviceLocked && !s.reader.Claiming?
    case ServiceIter => s.serviceLocked && ScanMore(s.ring)
    case ServiceUnlock => s.serviceLocked && !ScanMore(s.ring)
    case ReaderLock => !s.serviceLocked && s.reader.Idle?
    case ClaimIter => s.reader.Claiming? && ClaimMore(ReaderClaim(s))
    case ReaderUnlock => s.reader.Claiming? && !ClaimMore(ReaderClaim(s))
    case CopyBlock => s.reader.Copying? && s.reader.remaining > 0
    case CopyFault => s.reader.Copying? && s.reader.remaining > 0
    case Release => s.reader.Copying? && s.reader.remaining == 0
  }

  /** The ring buffer after `data` was written at the start of block i. */
  function Overlay(rx: seq<byte>, i: nat, data: seq<byte>): (r: seq<byte>)
    requires |rx| == 256 * 4096 && i < 256 && |data| <= 4096
    ensures |r| == |rx|
  {
    rx[..i * 4096] + data + rx[i * 4096 + |data|..]
  }

  ghost predicate Shape(s: State)
  {
    && |s.rx| == 256 * 4096 && s.ring.WellShaped() && s.hw < 256
    && (s.reader.Claiming? ==> s.reader.start < 256)
    && (s.reader.Copying? ==> s.reader.at < 256)
  }

  ghost function Apply(s: State, step: Step): (s': State)
    requires Shape(s) && Enabled(s, step)
    ensures Shape(s')
  {
    match step
    case HwFill(p) =>
      s.(rx := Overlay(s.rx, s.hw, p.data), ring := s.ring.(results := s.ring.results[s.hw := p.result]),
         hw := Succ(s.hw), hwCredits := s.hwCredits - 1, log := s.log + [p])
    case ServiceLock => s.(serviceLocked := true)
    case ServiceIter => s.(ring := ScanStep(s.ring), scanned := s.scanned + 1)
    case ServiceUnlock => s.(serviceLocked := false)
    case ReaderLock => s.(reader := Claiming(s.ring.head, 0, 0, false, false))
    case ClaimIter =>
      var c := ClaimStep(ReaderClaim(s));
      s.(ring := c.ring, claimed := s.claimed + 1,
         reader := Claiming(s.reader.start, c.pktLength, c.credits, c.fault, c.eop))
    case ReaderUnlock =>
      if s.reader.fault then
        s.(reader := Idle, lost := s.lost + (if s.claimed >= s.freed then s.claimed - s.freed else 0),
           copied := s.claimed, freed := s.claimed)
      else
        s.(reader := Copying(s.reader.start, s.reader.pktLength, s.reader.pktLength, s.reader.credits))
    case CopyBlock =>
      var copy := Min(s.reader.remaining, RX_BUF_BLOCK);
      s.(delivered := s.delivered + s.rx[s.reader.at * 4096..s.reader.at * 4096 + copy],
         reader := s.reader.(at := Succ(s.reader.at), remaining := s.reader.remaining - copy),
         copied := s.copied + 1)
    case CopyFault => s.(reader := s.reader.(remaining := 0), copied := s.claimed, failed := true)
    case Release =>
      s.(reader := Idle, ring := s.ring.(overrun := false), copied := s.claimed, freed := s.claimed,
         hwCredits := s.hwCredits + if s.reader.pktLength > 0 then s.reader.credits else 0)
  }

  // ----- the invariant

  /** Ring indices follow the history, and every credit is somewhere. */
  ghost predicate Counters(s: State)
  {
    && s.freed <= s.copied <= s.claimed <= s.scanned <= |s.log|
    && s.ring.head == s.claimed % 256 && s.ring.tail == s.scanned % 256 && s.hw == |s.log| % 256
    && !s.ring.overrun
    && s.hwCredits + (|s.log| - s.freed) + s.lost == CREDITS
  }

  /** The result slot of the i-th piece, counted from the start of the stream. */
  ghost function Slot(results: seq<Result>, i: nat): Result
    requires |results| == 256
  {
    results[i % 256]
  }

  /** Exactly the slots between head and hardware are filled, with the results logged. */
  ghost predicate Slots(results: seq<Result>, log: seq<Piece>, claimed: nat)
  {
    && |results| == 256
    && (forall i {:trigger Reported(log, i)} :: 0 <= i < |log| ==> Reported(log, i))
    && (forall i {:trigger Slot(results, i)} :: claimed <= i < |log| ==> Slot(results, i) == log[i].result)
    && (forall i {:trigger Slot(results, i)} :: |log| <= i < claimed + 256 ==> Slot(results, i).status == 0)
  }

  /** Piece i was reported with a nonzero status. */
  ghost predicate Reported(log: seq<Piece>, i: nat)
    requires i < |log|
  {
    log[i].result.status != 0
  }

  /** Blocks the reader has not given up still hold what the hardware wrote. */
  ghost predicate Contents(rx: seq<byte>, log: seq<Piece>, freed: nat)
  {
    && |rx| == 256 * 4096
    && forall i {:trigger HeldAt(rx, log, i)} :: freed <= i < |log| ==> HeldAt(rx, log, i)
  }

  ghost predicate HeldAt(rx: seq<byte>, log: seq<Piece>, i: nat)
    requires |rx| == 256 * 4096 && i < |log|
  {
    Holds(rx, i % 256, log[i].data)
  }

  ghost predicate Holds(rx: seq<byte>, b: nat, data: seq<byte>)
    requires |rx| == 256 * 4096 && b < 256
  {
    |data| <= 4096 && rx[b * 4096..b * 4096 + |data|] == data
  }

  /** Sum of the lengths of results i to j - 1. */
  ghost function Length(log: seq<Piece>, i: nat, j: nat): nat
    requires i <= j <= |log|
    decreases j - i
  {
    if i == j then 0 else log[i].result.length + Length(log, i + 1, j)
  }

  /** Bytes of pieces i to j - 1. */
  ghost function Data(log: seq<Piece>, i: nat, j: nat): seq<byte>
    requires i <= j <= |log|
    decreases j - i
  {
    if i == j then [] else log[i].data + Data(log, i + 1, j)
  }

  ghost predicate AllGood(log: seq<Piece>, i: nat, j: nat)
    requires i <= j <= |log|
  {
    forall k :: i <= k < j ==> log[k].result.Good()
  }

  /** Pieces i to j - 1 end a packet at the last of them at most. */
  ghost predicate OnePacket(log: seq<Piece>, i: nat, j: nat)
    requires i <= j <= |log|
  {
    forall k :: i <= k < j - 1 ==> !log[k].result.Eop()
  }

  /** What the reader's local variables say about the results it claimed in this call. */
  ghost predicate ReaderAgrees(reader: Reader, log: seq<Piece>, freed: nat, copied: nat, claimed: nat)
  {
    && freed <= copied <= claimed <= |log|
    && match reader
       case Idle => freed == claimed
       case Claiming(start, pktLength, credits, fault, eop) =>
         && copied == freed && start == freed % 256 && OnePacket(log, freed, claimed)
         && (fault ==> freed < claimed && !log[claimed - 1].result.Good())
         && (!fault ==>
               && credits == claimed - freed && AllGood(log, freed, claimed)
               && pktLength == Length(log, freed, claimed)
               && (eop <==> freed < claimed && log[claimed - 1].result.Eop()))
       case Copying(at, remaining, pktLength, credits) =>
         && (remaining > 0 ==> at == copied % 256) && remaining <= 4096 * (claimed - copied)
         && credits == claimed - freed && (pktLength > 0 <==> credits > 0)
         && AllGood(log, freed, claimed) && OnePacket(log, freed, claimed)
  }

  /** The first n pieces are well formed. */
  ghost predicate WellFormedUpto(log: seq<Piece>, n: nat)
  {
    n <= |log| && forall i {:trigger WellFormed(log[i])} :: 0 <= i < n ==> WellFormed(log[i])
  }

  /**
    With well-formed results claimed so far nothing is delivered but the stream, and only a failed copy loses
    bytes of it.
  */
  ghost predicate Delivery(s: State)
  {
    && s.freed <= s.copied <= s.claimed <= |s.log|
    && (WellFormedUpto(s.log, s.claimed) ==>
          && s.lost == 0
          && (!s.failed ==> s.delivered == Data(s.log, 0, s.copied))
          && (s.failed ==> |s.delivered| < |Data(s.log, 0, s.copied)|)
          && (s.reader.Copying? ==> s.reader.remaining == Length(s.log, s.copied, s.claimed)))
  }

  /** Credits are lost exactly when a result the reader is done with was malformed. */
  ghost predicate Losses(log: seq<Piece>, freed: nat, lost: nat)
  {
    freed <= |log| && (lost == 0 <==> AllGood(log, 0, freed))
  }

  ghost predicate Inv(s: State)
  {
    && Shape(s) && Counters(s) && Slots(s.ring.results, s.log, s.claimed) && Contents(s.rx, s.log, s.freed)
    && ReaderAgrees(s.reader, s.log, s.freed, s.copied, s.claimed) && Delivery(s)
    && Losses(s.log, s.freed, s.lost)
  }

  // ----- the hardware

  /** Ring positions less than 256 apart are different blocks. */
  lemma {:induction false} Apart(i: nat, j: nat)
    requires i < j < i + 256
    ensures i % 256 != j % 256
  {}

  lemma {:induction false} SuccMod(i: nat)
    ensures Succ(i % 256) == (i + 1) % 256
  {}

  lemma {:induction false} ShiftMod(a: nat, k: nat)
    ensures (a % 256 + k) % 256 == (a + k) % 256
  {}

  /** Number of blocks that `remaining` bytes take. */
  function Blocks(remaining: nat): nat { (remaining + 4095) / 4096 }

  lemma {:induction false} BlocksBound(remaining: nat, n: nat)
    requires remaining <= 4096 * n
    ensures Blocks(remaining) <= n
    ensures remaining == 0 ==> Blocks(remaining) == 0
  {}

  lemma {:induction false} OverlayHolds(rx: seq<byte>, i: nat, data: seq<byte>, b: nat, was: seq<byte>)
    requires |rx| == 256 * 4096 && i < 256 && b < 256 && |data| <= 4096
    ensures Holds(Overlay(rx, i, data), i, data)
    ensures b != i && Holds(rx, b, was) ==> Holds(Overlay(rx, i, data), b, was)
  {
    var r := Overlay(rx, i, data);
    assert r[i * 4096..i * 4096 + |data|] == data;
    if b != i && Holds(rx, b, was) {
      assert r[b * 4096..b * 4096 + |was|] == rx[b * 4096..b * 4096 + |was|];
    }
  }

  lemma {:induction false} FillContents(s: State, p: Piece)
    requires Shape(s) && Counters(s) && Contents(s.rx, s.log, s.freed) && Enabled(s, HwFill(p))
    ensures Contents(Overlay(s.rx, s.hw, p.data), s.log + [p], s.freed)
  {
    var log' := s.log + [p];
    forall i: nat | s.freed <= i < |log'|
      ensures HeldAt(Overlay(s.rx, s.hw, p.data), log', i)
    {
      if i < |s.log| {
        Apart(i, |s.log|);
        assert HeldAt(s.rx, s.log, i);
      }
      OverlayHolds(s.rx, s.hw, p.data, i % 256, log'[i].data);
    }
  }

  lemma {:induction false} FillSlots(results: seq<Result>, log: seq<Piece>, claimed: nat, p: Piece)
    requires Slots(results, log, claimed) && p.result.status != 0 && claimed <= |log| < claimed + 256
    ensures Slots(results[|log| % 256 := p.result], log + [p], claimed)
  {
    var results', log' := results[|log| % 256 := p.result], log + [p];
    forall i: nat | i < |log'|
      ensures Reported(log', i)
    {
      if i < |log| { assert Reported(log, i); }
    }
    forall i: nat | claimed <= i < |log'|
      ensures Slot(results', i) == log'[i].result
    {
      if i < |log| {
        Apart(i, |log|);
        assert Slot(results', i) == Slot(results, i);
      }
    }
    forall i: nat | |log'| <= i < claimed + 256
      ensures Slot(results', i).status == 0
    {
      Apart(|log|, i);
      assert Slot(results', i) == Slot(results, i);
    }
  }

  /** History functions look only at the part of the log they are asked about. */
  lemma {:induction false} LogPrefix(log: seq<Piece>, p: Piece, i: nat, j: nat)
    requires i <= j <= |log|
    ensures Length(log + [p], i, j) == Length(log, i, j) && Data(log + [p], i, j) == Data(log, i, j)
    decreases j - i
  {
    if i < j { LogPrefix(log, p, i + 1, j); }
  }

  lemma {:induction false} FillReader(reader: Reader, log: seq<Piece>, p: Piece, freed: nat, copied: nat, claimed: nat)
    requires ReaderAgrees(reader, log, freed, copied, claimed)
    ensures ReaderAgrees(reader, log + [p], freed, copied, claimed)
  {
    LogPrefix(log, p, freed, claimed);
  }

  lemma {:induction false} FillDelivery(s: State, p: Piece)
    requires Inv(s) && Enabled(s, HwFill(p))
    ensures Delivery(Apply(s, HwFill(p)))
  {
    var s' := Apply(s, HwFill(p));
    if WellFormedUpto(s'.log, s.claimed) {
      forall i | 0 <= i < s.claimed ensures WellFormed(s.log[i]) { assert s.log[i] == s'.log[i]; }
      LogPrefix(s.log, p, 0, s.copied);
      LogPrefix(s.log, p, s.copied, s.claimed);
    }
  }

  lemma {:induction false} FillLosses(log: seq<Piece>, p: Piece, freed: nat, lost: nat)
    requires Losses(log, freed, lost)
    ensures Losses(log + [p], freed, lost)
  {
    assert log == (log + [p])[..|log|];
    forall k | 0 <= k < freed
      ensures (log + [p])[k] == log[k]
    {}
  }

  lemma {:induction false} FillInv(s: State, p: Piece)
    requires Inv(s) && Enabled(s, HwFill(p))
    ensures Inv(Apply(s, HwFill(p)))
  {
    SuccMod(|s.log|);
    FillContents(s, p);
    FillSlots(s.ring.results, s.log, s.claimed, p);
    FillReader(s.reader, s.log, p, s.freed, s.copied, s.claimed);
    FillDelivery(s, p);
    FillLosses(s.log, p, s.freed, s.lost);
  }

  // ----- the service routine

  /** The tail stops at the first empty slot, so it cannot catch up with the head. */
  lemma {:induction false} ServiceCounters(s: State)
    requires Shape(s) && Counters(s) && Slots(s.ring.results, s.log, s.claimed) && Enabled(s, ServiceIter)
    ensures Counters(Apply(s, ServiceIter))
  {
    assert Slot(s.ring.results, |s.log|).status == 0;
    assert s.scanned < |s.log|;
    Apart(s.claimed, s.scanned + 1);
    SuccMod(s.scanned);
  }

  lemma {:induction false} ServiceInv(s: State, step: Step)
    requires Inv(s) && Enabled(s, step) && (step.ServiceLock? || step.ServiceIter? || step.ServiceUnlock?)
    ensures Inv(Apply(s, step))
  {
    if step.ServiceIter? { ServiceCounters(s); }
  }

  // ----- the reader

  lemma {:induction false} LengthSnoc(log: seq<Piece>, i: nat, j: nat)
    requires i <= j < |log|
    ensures Length(log, i, j + 1) == Length(log, i, j) + log[j].result.length
    ensures Data(log, i, j + 1) == Data(log, i, j) + log[j].data
    decreases j - i
  {
    if i < j {
      LengthSnoc(log, i + 1, j);
      assert log[i].data + (Data(log, i + 1, j) + log[j].data) == (log[i].data + Data(log, i + 1, j)) + log[j].data;
    } else {
      assert log[j].data + [] == log[j].data == [] + log[j].data;
    }
  }

  /** The claim loop reads the result logged next, and the head follows it. */
  lemma {:induction false} ClaimReads(s: State)
    requires Shape(s) && Counters(s) && Slots(s.ring.results, s.log, s.claimed) && Enabled(s, ClaimIter)
    ensures s.claimed < s.scanned && s.ring.results[s.ring.head] == s.log[s.claimed].result
  {
    assert s.claimed < s.scanned;
    assert Slot(s.ring.results, s.claimed) == s.log[s.claimed].result;
  }

  lemma {:induction false} ClaimSlots(results: seq<Result>, log: seq<Piece>, claimed: nat)
    requires Slots(results, log, claimed) && claimed < |log| < claimed + 256
    ensures Slots(results[claimed % 256 := Result(0, 0)], log, claimed + 1)
  {
    var results' := results[claimed % 256 := Result(0, 0)];
    forall i: nat | claimed + 1 <= i < |log|
      ensures Slot(results', i) == log[i].result
    {
      Apart(claimed, i);
      assert Slot(results', i) == Slot(results, i);
    }
    forall i: nat | |log| <= i < claimed + 1 + 256
      ensures Slot(results', i).status == 0
    {
      if i < claimed + 256 {
        Apart(claimed, i);
        assert Slot(results', i) == Slot(results, i);
      }
    }
  }

  lemma {:induction false} ClaimReader(s: State)
    requires Shape(s) && Enabled(s, ClaimIter) && s.claimed < |s.log|
    requires ReaderAgrees(s.reader, s.log, s.freed, s.copied, s.claimed)
    requires s.ring.results[s.ring.head] == s.log[s.claimed].result
    ensures ReaderAgrees(Apply(s, ClaimIter).reader, s.log, s.freed, s.copied, s.claimed + 1)
  {
    LengthSnoc(s.log, s.freed, s.claimed);
  }

  lemma {:induction false} ClaimInv(s: State)
    requires Inv(s) && Enabled(s, ClaimIter)
    ensures Inv(Apply(s, ClaimIter))
  {
    ClaimReads(s);
    SuccMod(s.claimed);
    ClaimSlots(s.ring.results, s.log, s.claimed);
    ClaimReader(s);
  }

  lemma {:induction false} LengthBounds(log: seq<Piece>, i: nat, j: nat)
    requires i <= j <= |log| && AllGood(log, i, j)
    ensures j - i <= Length(log, i, j) <= 4096 * (j - i)
    decreases j - i
  {
    if i < j { LengthBounds(log, i + 1, j); }
  }

  /** A fault contradicts a well-formed stream, and the credits of the call are lost. */
  lemma {:induction false} FaultInv(s: State)
    requires Inv(s) && Enabled(s, ReaderUnlock) && s.reader.fault
    ensures Inv(Apply(s, ReaderUnlock))
  {
    var last := s.log[s.claimed - 1];
    assert !last.result.Good();
    assert WellFormedUpto(s.log, s.claimed) ==> WellFormed(last);
    assert !AllGood(s.log, 0, s.claimed);
  }

  lemma {:induction false} UnlockInv(s: State)
    requires Inv(s) && Enabled(s, ReaderUnlock)
    ensures Inv(Apply(s, ReaderUnlock))
  {
    if s.reader.fault {
      FaultInv(s);
    } else {
      LengthBounds(s.log, s.freed, s.claimed);
    }
  }

  lemma {:induction false} LockInv(s: State)
    requires Inv(s) && Enabled(s, ReaderLock)
    ensures Inv(Apply(s, ReaderLock))
  {}

  /** In a well-formed claim the next block to copy is one whole piece. */
  lemma {:induction false} NextPiece(s: State)
    requires Shape(s) && s.reader.Copying? && s.reader.remaining > 0
    requires ReaderAgrees(s.reader, s.log, s.freed, s.copied, s.claimed)
    requires Contents(s.rx, s.log, s.freed) && Delivery(s) && WellFormedUpto(s.log, s.claimed)
    ensures s.copied < s.claimed
    ensures Min(s.reader.remaining, 4096) == |s.log[s.copied].data|
    ensures s.rx[s.reader.at * 4096..s.reader.at * 4096 + Min(s.reader.remaining, 4096)] == s.log[s.copied].data
    ensures s.reader.remaining - Min(s.reader.remaining, 4096) == Length(s.log, s.copied + 1, s.claimed)
  {
    assert WellFormed(s.log[s.copied]) && HeldAt(s.rx, s.log, s.copied);
    assert Length(s.log, s.copied + 1, s.claimed) >= 0;
  }

  lemma {:induction false} CopyDelivery(s: State)
    requires Inv(s) && Enabled(s, CopyBlock)
    ensures Delivery(Apply(s, CopyBlock))
  {
    if s.copied < s.claimed { LengthSnoc(s.log, 0, s.copied); }
    if WellFormedUpto(s.log, s.claimed) { NextPiece(s); }
  }

  lemma {:induction false} CopyInv(s: State)
    requires Inv(s) && Enabled(s, CopyBlock)
    ensures Inv(Apply(s, CopyBlock))
  {
    SuccMod(s.copied);
    CopyDelivery(s);
  }

  lemma {:induction false} DataLength(log: seq<Piece>, i: nat, j: nat)
    requires i <= j && WellFormedUpto(log, j)
    ensures |Data(log, i, j)| == Length(log, i, j)
    decreases j - i
  {
    if i < j {
      assert WellFormed(log[i]);
      DataLength(log, i + 1, j);
    }
  }

  lemma {:induction false} DataSplit(log: seq<Piece>, i: nat, j: nat, k: nat)
    requires i <= j <= k <= |log|
    ensures Data(log, i, k) == Data(log, i, j) + Data(log, j, k)
    decreases j - i
  {
    if i < j {
      DataSplit(log, i + 1, j, k);
      assert log[i].data + (Data(log, i + 1, j) + Data(log, j, k))
             == (log[i].data + Data(log, i + 1, j)) + Data(log, j, k);
    }
  }

  lemma {:induction false} CopyFaultInv(s: State)
    requires Inv(s) && Enabled(s, CopyFault)
    ensures Inv(Apply(s, CopyFault))
  {
    if WellFormedUpto(s.log, s.claimed) {
      DataLength(s.log, s.copied, s.claimed);
      DataSplit(s.log, 0, s.copied, s.claimed);
    }
  }

  lemma {:induction false} ReleaseInv(s: State)
    requires Inv(s) && Enabled(s, Release)
    ensures Inv(Apply(s, Release))
  {
    if WellFormedUpto(s.log, s.claimed) {
      LengthBounds(s.log, s.copied, s.claimed);
    }
  }

  // ----- every run

  lemma {:induction false} StepInv(s: State, step: Step)
    requires Inv(s) && Enabled(s, step)
    ensures Inv(Apply(s, step))
  {
    match step
    case HwFill(p) => FillInv(s, p);
    case ServiceLock => ServiceInv(s, step);
    case ServiceIter => ServiceInv(s, step);
    case ServiceUnlock => ServiceInv(s, step);
    case ReaderLock => LockInv(s);
    case ClaimIter => ClaimInv(s);
    case ReaderUnlock => UnlockInv(s);
    case CopyBlock => CopyInv(s);
    case CopyFault => CopyFaultInv(s);
    case Release => ReleaseInv(s);
  }

  lemma {:induction false} InitInv(rx: seq<byte>)
    requires |rx| == 256 * 4096
    ensures Inv(Init(rx))
  {}

  /** The states a run of enabled steps from s leads to: the last one, if all are enabled. */
  ghost function Exec(s: State, steps: seq<Step>): Option<State>
    requires Shape(s)
    decreases |steps|
  {
    if steps == [] then Some(s)
    else if Enabled(s, steps[0]) then Exec(Apply(s, steps[0]), steps[1..])
    else None
  }

  /** s is reachable by some interleaving of hardware, service and reader. */
  ghost predicate Reachable(s: State)
  {
    exists rx, steps :: |rx| == 256 * 4096 && Exec(Init(rx), steps) == Some(s)
  }

  lemma {:induction false} ExecInv(s: State, steps: seq<Step>)
    requires Inv(s)
    ensures Exec(s, steps).Some? ==> Inv(Exec(s, steps).value)
    decreases |steps|
  {
    if steps != [] && Enabled(s, steps[0]) {
      StepInv(s, steps[0]);
      ExecInv(Apply(s, steps[0]), steps[1..]);
    }
  }

  lemma {:induction false} ReachableInv(s: State)
    requires Reachable(s)
    ensures Inv(s)
  {
    var rx, steps :| |rx| == 256 * 4096 && Exec(Init(rx), steps) == Some(s);
    InitInv(rx);
    ExecInv(Init(rx), steps);
  }

  // ----- what holds in every reachable state

  /**
    Credits with the hardware and results whose credits were not returned never exceed 128, and the
    overrun flag is never set.
  */
  lemma {:induction false} CreditsBounded(s: State)
    requires Reachable(s)
    ensures s.freed <= s.claimed <= |s.log| && s.hwCredits + (|s.log| - s.freed) <= 128
    ensures !s.ring.overrun
  {
    ReachableInv(s);
  }

  /**
    No credit is ever lost if and only if every result the reader is done with was well formed: one
    malformed result costs all credits of its call for good.
  */
  lemma {:induction false} CreditsConserved(s: State)
    requires Reachable(s)
    ensures s.freed <= |s.log|
    ensures s.hwCredits + (|s.log| - s.freed) == 128 <==> AllGood(s.log, 0, s.freed)
  {
    ReachableInv(s);
  }

  /** Whatever the reader is doing, a fill goes to an empty slot and to no block it has not given up. */
  lemma {:induction false} FillIsSafe(s: State, i: nat)
    requires Reachable(s) && s.hwCredits > 0
    ensures Shape(s) && s.ring.results[s.hw].status == 0
    ensures s.freed <= i < |s.log| ==> i % 256 != s.hw
  {
    ReachableInv(s);
    assert Slot(s.ring.results, |s.log|).status == 0;
    if s.freed <= i < |s.log| { Apart(i, |s.log|); }
  }

  /** In particular, a fill spares every block that is still to be copied. */
  lemma {:induction false} CopyIsSafe(s: State, k: nat)
    requires Reachable(s) && s.hwCredits > 0 && s.reader.Copying? && k < Blocks(s.reader.remaining)
    ensures s.hw != (s.reader.at + k) % 256
  {
    ReachableInv(s);
    BlocksBound(s.reader.remaining, s.claimed - s.copied);
    ShiftMod(s.copied, k);
    FillIsSafe(s, s.copied + k);
  }

  /** The service routine leaves no result behind: when its loop has ended, it has seen all of them. */
  lemma {:induction false} ServiceSeesAll(s: State)
    requires Reachable(s)
    ensures Shape(s) && (!ScanMore(s.ring) <==> s.scanned == |s.log|)
  {
    ReachableInv(s);
    assert Slot(s.ring.results, |s.log|).status == 0;
    if s.scanned < |s.log| {
      assert Slot(s.ring.results, s.scanned) == s.log[s.scanned].result;
      assert Reported(s.log, s.scanned);
    }
  }

  /**
    While the results claimed are well formed and no copy to the user fails, the bytes delivered are a
    prefix of the bytes the hardware wrote, whatever it wrote after them: nothing is lost, repeated or
    reordered.
  */
  lemma {:induction false} DeliversPrefix(s: State)
    requires Reachable(s) && WellFormedUpto(s.log, s.claimed) && !s.failed
    ensures s.delivered <= Data(s.log, 0, |s.log|)
  {
    ReachableInv(s);
    DataSplit(s.log, 0, s.copied, |s.log|);
  }

  /**
    Between calls of the reader, exactly the pieces whose credits were returned have been delivered,
    if and only if no copy to the user ever failed: a failed copy returns its credits all the same.
  */
  lemma {:induction false} DeliveredIffNoFailedCopy(s: State)
    requires Reachable(s) && WellFormedUpto(s.log, s.claimed) && s.reader.Idle?
    ensures s.freed <= |s.log|
    ensures s.delivered == Data(s.log, 0, s.freed) <==> !s.failed
  {
    ReachableInv(s);
  }

  /** A claimed packet ends at its first EOP: only the last result of a call can carry it. */
  lemma {:induction false} CallStopsAtEop(s: State, k: nat)
    requires Reachable(s) && !s.reader.Idle? && s.freed <= k < s.claimed - 1
    ensures s.claimed <= |s.log| && !s.log[k].result.Eop()
  {
    ReachableInv(s);
  }

  // ----- what goes wrong

  lemma {:induction false} ExecSnoc(s: State, steps: seq<Step>, s1: State, step: Step)
    requires Shape(s) && Exec(s, steps) == Some(s1) && Shape(s1) && Enabled(s1, step)
    ensures Exec(s, steps + [step]) == Some(Apply(s1, step))
    decreases |steps|
  {
    if steps == [] {
      assert [step][1..] == [];
    } else {
      assert (steps + [step])[1..] == steps[1..] + [step];
      ExecSnoc(Apply(s, steps[0]), steps[1..], s1, step);
    }
  }

  lemma {:induction false} ReachableStep(s: State, step: Step)
    requires Reachable(s) && Shape(s) && Enabled(s, step)
    ensures Reachable(Apply(s, step))
  {
    var rx, steps :| |rx| == 256 * 4096 && Exec(Init(rx), steps) == Some(s);
    ExecSnoc(Init(rx), steps, s, step);
  }

  lemma {:induction false} InitReachable(rx: seq<byte>)
    requires |rx| == 256 * 4096
    ensures Reachable(Init(rx)) && Shape(Init(rx))
  {
    assert Exec(Init(rx), []) == Some(Init(rx));
  }

  /** The first result, filled and served. */
  lemma {:induction false} FirstResultServed(p: Piece) returns (s: State)
    requires p.result.status != 0 && |p.data| <= RX_BUF_BLOCK
    ensures Reachable(s) && Shape(s) && !s.serviceLocked && s.reader.Idle?
    ensures s.log == [p] && s.claimed == 0 && s.freed == 0 && s.lost == 0 && s.hwCredits == 127
    ensures s.delivered == [] && !s.failed
    ensures s.ring.head == 0 && s.ring.tail == 1 && !s.ring.overrun && s.ring.results[0] == p.result
  {
    var rx := seq(256 * 4096, _ => 0);
    InitReachable(rx);
    s := Init(rx);
    ReachableStep(s, HwFill(p));
    s := Apply(s, HwFill(p));
    ReachableStep(s, ServiceLock);
    s := Apply(s, ServiceLock);
    ReachableStep(s, ServiceIter);
    s := Apply(s, ServiceIter);
    ReachableStep(s, ServiceUnlock);
    s := Apply(s, ServiceUnlock);
  }

  /** The first result, filled, served and claimed. */
  lemma {:induction false} FirstResultClaimed(p: Piece) returns (s: State)
    requires p.result.status != 0 && |p.data| <= RX_BUF_BLOCK
    ensures Reachable(s) && Shape(s) && !s.serviceLocked
    ensures s.log == [p] && s.claimed == 1 && s.freed == 0 && s.lost == 0 && s.hwCredits == 127
    ensures s.delivered == [] && !s.failed
    ensures s.reader.Claiming? && !ClaimMore(ReaderClaim(s)) && s.reader.fault == !p.result.Good()
    ensures s.reader.start == 0
    ensures !s.reader.fault ==> s.reader.pktLength == p.result.length && s.reader.credits == 1
  {
    s := FirstResultServed(p);
    ReachableStep(s, ReaderLock);
    s := Apply(s, ReaderLock);
    ReachableStep(s, ClaimIter);
    s := Apply(s, ClaimIter);
  }

  /** A run with one malformed result, an empty one: its credit never comes back. */
  lemma {:induction false} MalformedResultLosesCredit() returns (s: State)
    ensures Reachable(s) && s.reader.Idle? && s.log == [Piece(Result(0x52B4_0000, 0), [])]
    ensures s.freed == |s.log| == 1 && s.hwCredits == 127
  {
    s := FirstResultClaimed(Piece(Result(0x52B4_0000, 0), []));
    ReachableStep(s, ReaderUnlock);
    s := Apply(s, ReaderUnlock);
  }

  /** The first result, well formed and about to be copied. */
  lemma {:induction false} FirstResultToCopy(p: Piece) returns (s: State)
    requires WellFormed(p) && p.result.status != 0
    ensures Reachable(s) && Shape(s) && s.log == [p] && s.claimed == 1 && s.freed == 0 && s.hwCredits == 127
    ensures s.reader == Copying(0, p.result.length, p.result.length, 1) && s.delivered == []
  {
    s := FirstResultClaimed(p);
    ReachableStep(s, ReaderUnlock);
    s := Apply(s, ReaderUnlock);
  }

  /** A run with one well-formed byte and a failed copy: its credit comes back, the byte does not arrive. */
  lemma {:induction false} FailedCopyLosesData() returns (s: State)
    ensures Reachable(s) && WellFormedUpto(s.log, 1) && s.reader.Idle? && s.failed
    ensures s.freed == |s.log| == 1 && s.hwCredits == 128
    ensures s.delivered == [] && Data(s.log, 0, 1) == [7]
  {
    var p := Piece(Result(0x52B4_0001, 1), [7]);
    s := FirstResultToCopy(p);
    ReachableStep(s, CopyFault);
    s := Apply(s, CopyFault);
    ReachableStep(s, Release);
    s := Apply(s, Release);
    OnePiece(p);
  }

  lemma {:induction false} OnePiece(p: Piece)
    ensures Data([p], 0, 1) == p.data
    ensures WellFormed(p) ==> WellFormedUpto([p], 1)
  {
    assert Data([p], 1, 1) == [];
    assert p.data + [] == p.data;
  }

  // ----- what goes right

  /** A full block that ends no packet, and a piece that does, in raw words. */
  predicate PacketOfTwo(p: Piece, q: Piece)
  {
    && p.result == Result(0x52B4_0000, 4096) && |p.data| == 4096
    && q.result.status == 0x52B4_0001 && 1 <= q.result.length <= 4096 && |q.data| == q.result.length
  }

  lemma {:induction false} TwoFilled(p: Piece, q: Piece) returns (s: State)
    requires PacketOfTwo(p, q)
    ensures Reachable(s) && Shape(s) && !s.serviceLocked && s.reader.Idle? && !s.failed
    ensures s.log == [p, q] && s.claimed == 0 && s.freed == 0 && s.hwCredits == 126
    ensures s.ring.head == 0 && s.ring.tail == 0 && !s.ring.overrun
    ensures s.ring.results[0] == p.result && s.ring.results[1] == q.result && s.ring.results[2].status == 0
  {
    var rx := seq(256 * 4096, _ => 0);
    InitReachable(rx);
    s := Init(rx);
    ReachableStep(s, HwFill(p));
    s := Apply(s, HwFill(p));
    ReachableStep(s, HwFill(q));
    s := Apply(s, HwFill(q));
  }

  lemma {:induction false} TwoServed(p: Piece, q: Piece) returns (s: State)
    requires PacketOfTwo(p, q)
    ensures Reachable(s) && Shape(s) && !s.serviceLocked && s.reader.Idle? && !s.failed
    ensures s.log == [p, q] && s.claimed == 0 && s.freed == 0 && s.hwCredits == 126
    ensures s.ring.head == 0 && s.ring.tail == 2 && !s.ring.overrun
    ensures s.ring.results[0] == p.result && s.ring.results[1] == q.result
  {
    s := TwoFilled(p, q);
    ReachableStep(s, ServiceLock);
    s := Apply(s, ServiceLock);
    ReachableStep(s, ServiceIter);
    s := Apply(s, ServiceIter);
    ReachableStep(s, ServiceIter);
    s := Apply(s, ServiceIter);
    ReachableStep(s, ServiceUnlock);
    s := Apply(s, ServiceUnlock);
  }

  lemma {:induction false} FirstOfTwoClaimed(p: Piece, q: Piece) returns (s: State)
    requires PacketOfTwo(p, q)
    ensures Reachable(s) && Shape(s) && s.log == [p, q] && s.claimed == 1 && s.freed == 0 && s.hwCredits == 126
    ensures s.reader == Claiming(0, 4096, 1, false, false) && !s.failed
    ensures s.ring.head == 1 && s.ring.tail == 2 && !s.ring.overrun && s.ring.results[1] == q.result
  {
    s := TwoServed(p, q);
    ReachableStep(s, ReaderLock);
    s := Apply(s, ReaderLock);
    ReachableStep(s, ClaimIter);
    s := Apply(s, ClaimIter);
  }

  lemma {:induction false} TwoClaimed(p: Piece, q: Piece) returns (s: State)
    requires PacketOfTwo(p, q)
    ensures Reachable(s) && Shape(s) && s.log == [p, q] && s.claimed == 2 && s.hwCredits == 126 && !s.failed
    ensures s.reader == Copying(0, 4096 + q.result.length, 4096 + q.result.length, 2)
  {
    s := FirstOfTwoClaimed(p, q);
    ReachableStep(s, ClaimIter);
    s := Apply(s, ClaimIter);
    ReachableStep(s, ReaderUnlock);
    s := Apply(s, ReaderUnlock);
  }

  /**
    A run of one call that delivers a full block and the piece after it that ends the packet, whole and in
    order, and leaves all 128 credits with the hardware again.
  */
  lemma {:induction false} PacketDelivered(p: Piece, q: Piece) returns (s: State)
    requires PacketOfTwo(p, q)
    ensures Reachable(s) && s.log == [p, q] && s.reader.Idle? && s.freed == 2
    ensures s.delivered == p.data + q.data && s.hwCredits == 128
  {
    s := TwoClaimed(p, q);
    ReachableStep(s, CopyBlock);
    s := Apply(s, CopyBlock);
    ReachableStep(s, CopyBlock);
    s := Apply(s, CopyBlock);
    ReachableStep(s, Release);
    s := Apply(s, Release);
    assert WellFormed(p) && WellFormed(q);
    DeliveredIffNoFailedCopy(s);
    TwoPieces(p, q);
  }

  lemma {:induction false} TwoPieces(p: Piece, q: Piece)
    ensures Data([p, q], 0, 2) == p.data + q.data
  {
    assert Data([p, q], 2, 2) == [];
    assert Data([p, q], 1, 2) == q.data + [] == q.data;
  }

  // ----- the driver's calls as runs of steps

  /** Running `steps` from s ends in s'. */
  ghost predicate Leads(s: State, steps: seq<Step>, s': State)
  {
    Shape(s) && Exec(s, steps) == Some(s')
  }

  lemma {:induction false} LeadsConcat(s: State, a: seq<Step>, s1: State, b: seq<Step>, s2: State)
    requires Leads(s, a, s1) && Leads(s1, b, s2)
    ensures Leads(s, a + b, s2)
    decreases |a|
  {
    if a == [] {
      assert a + b == b;
    } else {
      assert (a + b)[0] == a[0] && (a + b)[1..] == a[1..] + b;
      LeadsConcat(Apply(s, a[0]), a[1..], s1, b, s2);
    }
  }

  lemma {:induction false} LeadsCons(s: State, step: Step, b: seq<Step>, s2: State)
    requires Shape(s) && Enabled(s, step) && Leads(Apply(s, step), b, s2)
    ensures Leads(s, [step] + b, s2)
  {
    assert ([step] + b)[1..] == b;
  }

  /** With the hardware quiet, the loop of engine_ring_process is a run of service iterations. */
  lemma {:induction false} ScanIsRun(s: State) returns (steps: seq<Step>, s': State)
    requires Shape(s) && s.serviceLocked
    ensures Leads(s, steps, s') && s' == s.(ring := Scan(s.ring).0, scanned := s.scanned + |steps|)
    ensures !ScanMore(s'.ring)
    decreases ScanRoom(s.ring)
  {
    if ScanMore(s.ring) {
      var rest;
      rest, s' := ScanIsRun(Apply(s, ServiceIter));
      LeadsCons(s, ServiceIter, rest, s');
      steps := [ServiceIter] + rest;
    } else {
      steps, s' := [], s;
    }
  }

  /** State s with the claim loop's variables and ring as in c, n results further. */
  ghost function WithClaim(s: State, c: Claim, n: nat): State
    requires s.reader.Claiming?
  {
    s.(ring := c.ring, claimed := s.claimed + n,
       reader := Claiming(s.reader.start, c.pktLength, c.credits, c.fault, c.eop))
  }

  lemma {:induction false} ClaimIsRun(s: State) returns (steps: seq<Step>, s': State)
    requires Shape(s) && s.reader.Claiming?
    ensures Leads(s, steps, s') && s' == WithClaim(s, ClaimAll(ReaderClaim(s)), |steps|)
    decreases Filled(s.ring.results), ClaimMore(ReaderClaim(s))
  {
    if ClaimMore(ReaderClaim(s)) {
      ClaimProgress(ReaderClaim(s));
      var rest;
      rest, s' := ClaimIsRun(Apply(s, ClaimIter));
      LeadsCons(s, ClaimIter, rest, s');
      steps := [ClaimIter] + rest;
    } else {
      steps, s' := [], s;
    }
  }

  /** What copying leaves of s: the first `good` calls of copy_to_user succeed and a further one fails. */
  ghost predicate Copied(s: State, good: nat, s': State)
    requires Shape(s) && s.reader.Copying?
  {
    && Shape(s') && s'.reader.Copying? && s'.reader.remaining == 0
    && s' == s.(delivered := s.delivered + Gather(s.rx, s.reader.at, Min(s.reader.remaining, 4096 * good)),
                copied := s'.copied, reader := s.reader.(remaining := 0, at := s'.reader.at),
                failed := s.failed || CopyFails(s.reader.remaining, good))
  }

  /** A copied block is the first block of what is to be copied. */
  lemma {:induction false} CopiedCons(s: State, good: nat, s': State)
    requires Shape(s) && s.reader.Copying? && s.reader.remaining > 0 && good > 0
    requires Copied(Apply(s, CopyBlock), good - 1, s')
    ensures Copied(s, good, s')
  {
    var at, total := s.reader.at, Min(s.reader.remaining, 4096 * good);
    var copy := Min(total, 4096);
    GatherStep(s.rx, at, total);
    GatherBlock(s.rx, at, copy);
    Assoc(s.delivered, Gather(s.rx, at, copy), Gather(s.rx, Succ(at), total - copy));
  }

  lemma {:induction false} Assoc(a: seq<byte>, b: seq<byte>, c: seq<byte>)
    ensures a + (b + c) == (a + b) + c
  {}

  lemma {:induction false} NothingCopied(s: State, good: nat)
    requires Shape(s) && s.reader.Copying? && (s.reader.remaining == 0 || good == 0)
    ensures Copied(s, good, if s.reader.remaining == 0 then s else Apply(s, CopyFault))
  {
    assert s.delivered + [] == s.delivered;
  }

  /** Copying to the user is a run of copied blocks, ended by a copy fault if the `good` calls do not suffice. */
  lemma {:induction false} CopyIsRun(s: State, good: nat) returns (steps: seq<Step>, s': State)
    requires Shape(s) && s.reader.Copying?
    ensures Leads(s, steps, s') && Copied(s, good, s')
    decreases s.reader.remaining
  {
    if s.reader.remaining == 0 {
      NothingCopied(s, good);
      steps, s' := [], s;
    } else if good == 0 {
      NothingCopied(s, good);
      s' := Apply(s, CopyFault);
      LeadsCons(s, CopyFault, [], s');
      steps := [CopyFault] + [];
    } else {
      var rest;
      rest, s' := CopyIsRun(Apply(s, CopyBlock), good - 1);
      LeadsCons(s, CopyBlock, rest, s');
      CopiedCons(s, good, s');
      steps := [CopyBlock] + rest;
    }
  }

  /**
    With the hardware quiet, an undisturbed complete_cyclic is a run of reader steps: it delivers the
    bytes, moves the ring and returns the credits that the method's contract names, whether all calls
    of copy_to_user succeed or only the first `good` of them.
  */
  lemma {:induction false} CompleteCyclicIsRun(s: State, good: nat) returns (steps: seq<Step>, s': State)
    requires Inv(s) && s.reader.Idle? && !s.serviceLocked
    ensures Leads(s, steps, s') && s'.reader.Idle? && s'.rx == s.rx && s'.log == s.log
    ensures var c := ClaimAll(Claim(s.ring, 0, 0, false, false));
      if c.fault then
        s'.ring == c.ring && s'.delivered == s.delivered && s'.hwCredits == s.hwCredits && s'.failed == s.failed
      else
        && s'.ring == c.ring.(overrun := false) && s'.hwCredits == s.hwCredits + c.credits
        && s'.delivered == s.delivered + Gather(s.rx, s.ring.head, Min(c.pktLength, 4096 * good))
        && s'.failed == (s.failed || CopyFails(c.pktLength, good))
  {
    var locked := Apply(s, ReaderLock);
    ClaimCounts(ReaderClaim(locked));
    var claims, done := ClaimIsRun(locked);
    LeadsCons(s, ReaderLock, claims, done);
    var open := Apply(done, ReaderUnlock);
    LeadsCons(done, ReaderUnlock, [], open);
    LeadsConcat(s, [ReaderLock] + claims, done, [ReaderUnlock], open);
    steps, s' := ([ReaderLock] + claims) + [ReaderUnlock], open;
    if !done.reader.fault {
      var copies, copied := CopyIsRun(open, good);
      LeadsConcat(s, steps, open, copies, copied);
      s' := Apply(copied, Release);
      LeadsCons(copied, Release, [], s');
      LeadsConcat(s, steps + copies, copied, [Release], s');
      steps := (steps + copies) + [Release];
    }
  }
}
