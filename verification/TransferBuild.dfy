/**
  transfer_build: coalescing the fragments of a mapped buffer into hardware descriptors.
*/
module TransferBuild {
  import opened XdmaTypes
  import opened Descriptors
  import opened ScatterGather

  /** A fragment after pci_map_sg: bus address and length. */
  datatype DmaEntry = DmaEntry(addr: u64, len: nat)

  /** A contiguous piece of a transfer: bus address, endpoint address, length. */
  datatype Block = Block(addr: u64, ep: u64, len: nat)

  /** One byte moved: its bus address and its endpoint address. */
  type BytePair = (u64, u64)

  // ----- the meaning of blocks, byte by byte

  function Run(addr: int, ep: int, len: nat): (r: seq<BytePair>)
    ensures |r| == len && forall k :: 0 <= k < len ==> r[k] == (Add64(addr, k), Add64(ep, k))
  {
    seq(len, k requires 0 <= k => (Add64(addr, k), Add64(ep, k)))
  }

  function Flatten(bs: seq<Block>): seq<BytePair>
  {
    if bs == [] then [] else Run(bs[0].addr, bs[0].ep, bs[0].len) + Flatten(bs[1..])
  }

  /** The entries from i on as blocks, at consecutive endpoint addresses from ep. */
  function Spread(es: seq<DmaEntry>, i: nat, ep: u64): seq<Block>
    requires i <= |es|
    decreases |es| - i
  {
    if i == |es| then [] else [Block(es[i].addr, ep, es[i].len)] + Spread(es, i + 1, Add64(ep, es[i].len))
  }

  // ----- coalescing, as a function

  /** Does entry i end a descriptor of `len` bytes? */
  predicate Breaks(es: seq<DmaEntry>, i: nat, len: nat, force: bool)
    requires i + 1 < |es|
  {
    || es[i + 1].addr != Add64(es[i].addr, es[i].len)
    || len > XDMA_DESC_MAX_BYTES - PAGE_SIZE
    || force
  }

  /**
    The blocks built from entry i on, when `len` bytes from bus address `addr` are pending for
    endpoint address ep; `advance` is false in non-incremental addressing mode.
  */
  function Coalesce(es: seq<DmaEntry>, i: nat, addr: u64, len: nat, ep: u64, force: bool,
                    advance: bool): (bs: seq<Block>)
    requires i < |es|
    ensures 0 < |bs| <= |es| - i
    decreases |es| - i
  {
    var len' := len + es[i].len;
    if i + 1 == |es| then
      [Block(addr, ep, len')]
    else if Breaks(es, i, len', force) then
      [Block(addr, ep, len')] +
      Coalesce(es, i + 1, es[i + 1].addr, 0, if advance then Add64(ep, len') else ep, force, advance)
    else
      Coalesce(es, i + 1, addr, len', ep, force, advance)
  }

  function CoalesceAll(es: seq<DmaEntry>, ep: u64, force: bool, advance: bool): (bs: seq<Block>)
    requires |es| > 0
    ensures 0 < |bs| <= |es|
  {
    Coalesce(es, 0, es[0].addr, 0, ep, force, advance)
  }

  lemma {:induction false} RunConcat(addr: int, ep: int, m: nat, n: nat)
    ensures Run(addr, ep, m) + Run(Add64(addr, m), Add64(ep, m), n) == Run(addr, ep, m + n)
  {
    forall k | 0 <= k < n
      ensures Run(Add64(addr, m), Add64(ep, m), n)[k] == Run(addr, ep, m + n)[m + k]
    {
      Add64Assoc(addr, m, k);
      Add64Assoc(ep, m, k);
    }
  }

  lemma {:induction false} RunFlatten(addr: u64, ep: u64, m: nat, e: DmaEntry, rest: seq<BytePair>)
    requires e.addr == Add64(addr, m)
    ensures Run(addr, ep, m) + (Run(e.addr, Add64(ep, m), e.len) + rest) == Run(addr, ep, m + e.len) + rest
  {
    RunConcat(addr, ep, m, e.len);
    assert Run(addr, ep, m) + (Run(e.addr, Add64(ep, m), e.len) + rest)
        == (Run(addr, ep, m) + Run(e.addr, Add64(ep, m), e.len)) + rest;
  }

  lemma {:induction false} FlattenCons(b: Block, bs: seq<Block>)
    ensures Flatten([b] + bs) == Run(b.addr, b.ep, b.len) + Flatten(bs)
  {
    assert ([b] + bs)[1..] == bs;
  }

  lemma {:induction false} RunEmpty(addr: int, ep: int, rest: seq<BytePair>)
    ensures Run(addr, ep, 0) + rest == rest
  {}

  /** Adding entry i to the pending bytes. */
  lemma {:induction false} SpreadStep(es: seq<DmaEntry>, i: nat, addr: u64, len: nat, ep: u64)
    requires i < |es| && es[i].addr == Add64(addr, len)
    ensures Run(addr, ep, len) + Flatten(Spread(es, i, Add64(ep, len)))
            == Run(addr, ep, len + es[i].len) + Flatten(Spread(es, i + 1, Add64(ep, len + es[i].len)))
  {
    Add64Assoc(ep, len, es[i].len);
    var rest := Spread(es, i + 1, Add64(ep, len + es[i].len));
    FlattenCons(Block(es[i].addr, Add64(ep, len), es[i].len), rest);
    RunFlatten(addr, ep, len, es[i], Flatten(rest));
  }

  /** Coalescing keeps the byte-to-endpoint mapping of the scatterlist. */
  lemma {:induction false} CoalesceMeaning(es: seq<DmaEntry>, i: nat, addr: u64, len: nat, ep: u64, force: bool)
    requires i < |es| && es[i].addr == Add64(addr, len)
    ensures Flatten(Coalesce(es, i, addr, len, ep, force, true))
            == Run(addr, ep, len) + Flatten(Spread(es, i, Add64(ep, len)))
    decreases |es| - i
  {
    var len' := len + es[i].len;
    var ep' := Add64(ep, len');
    SpreadStep(es, i, addr, len, ep);
    if i + 1 == |es| {
      FlattenCons(Block(addr, ep, len'), []);
    } else if Breaks(es, i, len', force) {
      var next := es[i + 1].addr;
      Add64Zero(next);
      Add64Zero(ep');
      CoalesceMeaning(es, i + 1, next, 0, ep', force);
      FlattenCons(Block(addr, ep, len'), Coalesce(es, i + 1, next, 0, ep', force, true));
      RunEmpty(next, ep', Flatten(Spread(es, i + 1, ep')));
    } else {
      Add64Assoc(addr, len, es[i].len);
      CoalesceMeaning(es, i + 1, addr, len', ep, force);
    }
  }

  /** With entries of at most a page, no descriptor is longer than the hardware allows. */
  lemma {:induction false} CoalesceBounds(es: seq<DmaEntry>, i: nat, addr: u64, len: nat, ep: u64, force: bool,
                                          advance: bool)
    requires i < |es| && len <= XDMA_DESC_MAX_BYTES - PAGE_SIZE
    requires forall k :: 0 <= k < |es| ==> es[k].len <= PAGE_SIZE
    ensures forall b :: b in Coalesce(es, i, addr, len, ep, force, advance) ==> b.len < 0x4_0000
    decreases |es| - i
  {
    var len' := len + es[i].len;
    if i + 1 == |es| {
    } else if Breaks(es, i, len', force) {
      CoalesceBounds(es, i + 1, es[i + 1].addr, 0, if advance then Add64(ep, len') else ep, force, advance);
    } else {
      CoalesceBounds(es, i + 1, addr, len', ep, force, advance);
    }
  }

  /** Neighbouring blocks are separate only if not contiguous, past the cap, or forced. */
  lemma {:induction false} CoalesceMaximal(es: seq<DmaEntry>, i: nat, addr: u64, len: nat, ep: u64, force: bool,
                                           advance: bool, j: nat)
    requires i < |es| && es[i].addr == Add64(addr, len)
    requires j + 1 < |Coalesce(es, i, addr, len, ep, force, advance)|
    ensures var bs := Coalesce(es, i, addr, len, ep, force, advance);
            || bs[j + 1].addr != Add64(bs[j].addr, bs[j].len)
            || bs[j].len > 0x3_FFFF - 0x1000
            || force
    decreases |es| - i
  {
    var len' := len + es[i].len;
    Add64Assoc(addr, len, es[i].len);
    if Breaks(es, i, len', force) {
      CoalesceHead(es, i + 1, es[i + 1].addr, 0, if advance then Add64(ep, len') else ep, force, advance);
      if j > 0 {
        CoalesceMaximal(es, i + 1, es[i + 1].addr, 0, if advance then Add64(ep, len') else ep, force, advance, j - 1);
      }
    } else {
      CoalesceMaximal(es, i + 1, addr, len', ep, force, advance, j);
    }
  }

  lemma {:induction false} CoalesceHead(es: seq<DmaEntry>, i: nat, addr: u64, len: nat, ep: u64, force: bool,
                                        advance: bool)
    requires i < |es|
    ensures Coalesce(es, i, addr, len, ep, force, advance)[0].addr == addr
    ensures Coalesce(es, i, addr, len, ep, force, advance)[0].ep == ep
    decreases |es| - i
  {
    if i + 1 < |es| && !Breaks(es, i, len + es[i].len, force) {
      CoalesceHead(es, i + 1, addr, len + es[i].len, ep, force, advance);
    }
  }

  /** When every entry is forced into its own descriptor, block k is entry k. */
  lemma {:induction false} CoalesceForced(es: seq<DmaEntry>, i: nat, ep: u64, advance: bool, k: nat)
    requires i < |es| && k < |es| - i
    ensures |Coalesce(es, i, es[i].addr, 0, ep, true, advance)| == |es| - i
    ensures Coalesce(es, i, es[i].addr, 0, ep, true, advance)[k].addr == es[i + k].addr
    ensures Coalesce(es, i, es[i].addr, 0, ep, true, advance)[k].len == es[i + k].len
    decreases |es| - i
  {
    if i + 1 < |es| {
      CoalesceForced(es, i + 1, if advance then Add64(ep, es[i].len) else ep, advance, if k == 0 then 0 else k - 1);
    }
  }

  // ----- transfer_build

  ghost predicate Fills(d: Desc, was: Desc, b: Block, dirToDev: bool)
  {
    b.len < TWO32 && d == WithTransfer(was, b.addr, b.ep, b.len, dirToDev)
  }

  /** The first j descriptors are filled with their blocks, the others as before. */
  ghost predicate FilledUpto(ds: seq<Desc>, was: seq<Desc>, bs: seq<Block>, dirToDev: bool, j: nat)
  {
    && |ds| == |was| && j <= |bs|
    && forall k {:trigger ds[k]} :: 0 <= k < |ds| ==>
         if k < j then Fills(ds[k], was[k], bs[k], dirToDev) else ds[k] == was[k]
  }

  /** xdma_desc_set on descriptor j, which makes it carry block j. */
  method XdmaDescSet(descs: array<Desc>, j: nat, addr: u64, ep: u64, len: u32, dirToDev: bool,
                     ghost was: seq<Desc>, ghost bs: seq<Block>)
    requires j < descs.Length && j < |bs| && bs[j] == Block(addr, ep, len)
    requires FilledUpto(descs[..], was, bs, dirToDev, j)
    modifies descs
    ensures FilledUpto(descs[..], was, bs, dirToDev, j + 1)
  {
    ghost var ds := descs[..];
    descs[j] := WithTransfer(descs[j], addr, ep, len, dirToDev);
    assert descs[..] == ds[j := descs[j]];
  }

  /** The blocks still to be built, when entry i is added to the pending ones. */
  lemma {:induction false} CoalesceNext(es: seq<DmaEntry>, i: nat, addr: u64, len: nat, ep: u64, force: bool,
                                        advance: bool, bs: seq<Block>, j: nat)
    requires i + 1 < |es| && j < |bs| && bs[j..] == Coalesce(es, i, addr, len, ep, force, advance)
    ensures var len' := len + es[i].len;
      if Breaks(es, i, len', force) then
        && j + 1 < |bs| && bs[j] == Block(addr, ep, len')
        && bs[j + 1..]
           == Coalesce(es, i + 1, es[i + 1].addr, 0, if advance then Add64(ep, len') else ep, force, advance)
      else
        bs[j..] == Coalesce(es, i + 1, addr, len', ep, force, advance)
  {
    assert bs[j..][1..] == bs[j + 1..];
  }

  method Build(descs: array<Desc>, es: seq<DmaEntry>, epAddr: u64, dirToDev: bool,
               nonIncrAddr: bool, forceNewDesc: bool, userspace: bool) returns (j: nat)
    requires 0 < |es| <= descs.Length
    requires forall k :: 0 <= k < |es| ==> es[k].len <= PAGE_SIZE
    modifies descs
    ensures var bs := CoalesceAll(es, epAddr, forceNewDesc && !userspace, !userspace || !nonIncrAddr);
            && j == |bs| - 1 < |es|
            && (forall k :: 0 <= k <= j ==> Fills(descs[k], old(descs[k]), bs[k], dirToDev))
            && (forall k :: j < k < descs.Length ==> descs[k] == old(descs[k]))
  {
    var i := 0;
    j := 0;
    var ep: u64 := epAddr;
    var addr: u64 := es[0].addr;
    var contAddr: u64 := addr;
    var contLen: nat := 0;
    ghost var force, advance := forceNewDesc && !userspace, !userspace || !nonIncrAddr;
    ghost var bs := CoalesceAll(es, epAddr, force, advance);
    while i < |es| - 1
      invariant 0 <= i < |es| && j <= i && addr == es[i].addr
      invariant contLen <= XDMA_DESC_MAX_BYTES - PAGE_SIZE
      invariant j < |bs| && bs[j..] == Coalesce(es, i, contAddr, contLen, ep, force, advance)
      invariant FilledUpto(descs[..], old(descs[..]), bs, dirToDev, j)
    {
      var next := es[i + 1].addr;
      var len := es[i].len;
      CoalesceNext(es, i, contAddr, contLen, ep, force, advance, bs, j);
      contLen := contLen + len;
      var newDesc := false;
      if next != Add64(addr, len) {
        newDesc := true;
      } else if contLen > XDMA_DESC_MAX_BYTES - PAGE_SIZE {
        newDesc := true;
      }
      if forceNewDesc && !userspace {
        newDesc := true;
      }
      if newDesc {
        XdmaDescSet(descs, j, contAddr, ep, contLen, dirToDev, old(descs[..]), bs);
        if userspace {
          if !nonIncrAddr { ep := Add64(ep, contLen); }
        } else {
          ep := Add64(ep, contLen);
        }
        contAddr := next;
        contLen := 0;
        j := j + 1;
      }
      addr := next;
      i := i + 1;
    }
    contLen := contLen + es[i].len;
    XdmaDescSet(descs, j, contAddr, ep, contLen, dirToDev, old(descs[..]), bs);
  }
}
