/**
  Host and card memory, what executing descriptors does to them, and the byte loop that a DMA
  request has to amount to.
*/
module DmaMemory {
  import opened XdmaTypes
  import opened Descriptors
  import opened DescriptorChain
  import opened ScatterGather
  import opened TransferBuild

  /** Host memory by bus address and card memory by endpoint address; absent bytes read as zero. */
  datatype Memory = Memory(host: map<u64, byte>, card: map<u64, byte>)

  function Peek(m: map<u64, byte>, a: u64): byte { if a in m then m[a] else 0 }

  function CopyByte(mem: Memory, p: BytePair, toCard: bool): Memory
  {
    if toCard then mem.(card := mem.card[p.1 := Peek(mem.host, p.0)])
    else mem.(host := mem.host[p.0 := Peek(mem.card, p.1)])
  }

  // ----- the engine

  /** Moves the bytes one by one, in order. */
  function Exec(mem: Memory, ps: seq<BytePair>, toCard: bool): Memory
    decreases |ps|
  {
    if ps == [] then mem else Exec(CopyByte(mem, ps[0], toCard), ps[1..], toCard)
  }

  /** The bytes a descriptor moves, as pairs of host and card address. */
  function DescPairs(d: Desc, toCard: bool): seq<BytePair>
  {
    if toCard then Run(d.Src(), d.Dst(), d.bytes) else Run(d.Dst(), d.Src(), d.bytes)
  }

  /** Executes the descriptors with the given indices. */
  function ExecWalk(mem: Memory, ds: seq<Desc>, walk: seq<nat>, toCard: bool): Memory
    requires forall k :: 0 <= k < |walk| ==> walk[k] < |ds|
    decreases |walk|
  {
    if walk == [] then mem
    else ExecWalk(Exec(mem, DescPairs(ds[walk[0]], toCard), toCard), ds, walk[1..], toCard)
  }

  lemma {:induction false} ExecConcat(mem: Memory, ps: seq<BytePair>, qs: seq<BytePair>, toCard: bool)
    ensures Exec(mem, ps + qs, toCard) == Exec(Exec(mem, ps, toCard), qs, toCard)
    decreases |ps|
  {
    if ps == [] {
      assert ps + qs == qs;
    } else {
      assert (ps + qs)[1..] == ps[1..] + qs;
      ExecConcat(CopyByte(mem, ps[0], toCard), ps[1..], qs, toCard);
    }
  }

  /** Descriptor d moves the bytes of block b. */
  ghost predicate Carries(d: Desc, b: Block, toCard: bool)
  {
    DescPairs(d, toCard) == Run(b.addr, b.ep, b.len)
  }

  /** Executing descriptors i to n - 1 in order moves the bytes of the blocks they carry. */
  lemma {:induction false} ExecBlocks(mem: Memory, ds: seq<Desc>, bs: seq<Block>, i: nat, toCard: bool)
    requires i <= |bs| <= |ds|
    requires forall k :: 0 <= k < |bs| ==> Carries(ds[k], bs[k], toCard)
    ensures ExecWalk(mem, ds, Range(i, |bs|), toCard) == Exec(mem, Flatten(bs[i..]), toCard)
    decreases |bs| - i
  {
    if i < |bs| {
      var mem' := Exec(mem, DescPairs(ds[i], toCard), toCard);
      assert Range(i, |bs|)[1..] == Range(i + 1, |bs|);
      assert Carries(ds[i], bs[i], toCard);
      assert bs[i..] == [bs[i]] + bs[i + 1..];
      FlattenCons(bs[i], bs[i + 1..]);
      ExecConcat(mem, Run(bs[i].addr, bs[i].ep, bs[i].len), Flatten(bs[i + 1..]), toCard);
      ExecBlocks(mem', ds, bs, i + 1, toCard);
      assert ExecWalk(mem, ds, Range(i, |bs|), toCard) == ExecWalk(mem', ds, Range(i + 1, |bs|), toCard);
    }
  }

  // ----- the specification

  /**
    The byte loop: for each i below n in order, byte pos + i of the card is copied to or from the
    byte at virtual address buf + i, through the page table.
  */
  function Memcpy(mem: Memory, pt: PageTable, buf: nat, pos: nat, n: nat, toCard: bool): Memory
    requires pos + n <= TWO64
  {
    if n == 0 then mem
    else CopyByte(Memcpy(mem, pt, buf, pos, n - 1, toCard), (BusOf(pt, buf + n - 1), pos + n - 1), toCard)
  }

  lemma {:induction false} MemcpySplit(mem: Memory, pt: PageTable, buf: nat, pos: nat, m: nat, n: nat, toCard: bool)
    requires pos + m + n <= TWO64
    ensures Memcpy(mem, pt, buf, pos, m + n, toCard)
            == Memcpy(Memcpy(mem, pt, buf, pos, m, toCard), pt, buf + m, pos + m, n, toCard)
    decreases n
  {
    if n > 0 {
      MemcpySplit(mem, pt, buf, pos, m, n - 1, toCard);
      assert buf + m + (n - 1) == buf + (m + n) - 1;
    }
  }

  /** To the card: exactly the bytes pos to pos + n - 1 change, each to the byte of the buffer it belongs to. */
  lemma {:induction false} MemcpyToCard(mem: Memory, pt: PageTable, buf: nat, pos: nat, n: nat, a: u64)
    requires pos + n <= TWO64
    ensures var mem' := Memcpy(mem, pt, buf, pos, n, true);
            && mem'.host == mem.host
            && Peek(mem'.card, a)
               == if pos <= a < pos + n then Peek(mem.host, BusOf(pt, buf + (a - pos))) else Peek(mem.card, a)
  {
    if n > 0 {
      MemcpyToCard(mem, pt, buf, pos, n - 1, a);
    }
  }

  /** No virtual address from buf + i + 1 to buf + n - 1 has the bus address of buf + i. */
  ghost predicate LastAlias(pt: PageTable, buf: nat, n: nat, i: nat)
  {
    forall v :: buf + i < v < buf + n ==> BusOf(pt, v) != BusOf(pt, buf + i)
  }

  /** To the host: a byte of the buffer that no later byte of it aliases receives its byte of the card. */
  lemma {:induction false} MemcpyToHost(mem: Memory, pt: PageTable, buf: nat, pos: nat, n: nat, i: nat)
    requires pos + n <= TWO64 && i < n && LastAlias(pt, buf, n, i)
    ensures var mem' := Memcpy(mem, pt, buf, pos, n, false);
            mem'.card == mem.card && Peek(mem'.host, BusOf(pt, buf + i)) == Peek(mem.card, pos + i)
    decreases n
  {
    if i == n - 1 {
      CardUntouched(mem, pt, buf, pos, n - 1);
    } else {
      MemcpyToHost(mem, pt, buf, pos, n - 1, i);
      assert BusOf(pt, buf + (n - 1)) != BusOf(pt, buf + i);
    }
  }

  lemma {:induction false} CardUntouched(mem: Memory, pt: PageTable, buf: nat, pos: nat, n: nat)
    requires pos + n <= TWO64
    ensures Memcpy(mem, pt, buf, pos, n, false).card == mem.card
  {
    if n > 0 { CardUntouched(mem, pt, buf, pos, n - 1); }
  }

  /** To the host: nothing outside the buffer changes. */
  lemma {:induction false} MemcpyToHostFrame(mem: Memory, pt: PageTable, buf: nat, pos: nat, n: nat, a: u64)
    requires pos + n <= TWO64
    requires forall v :: buf <= v < buf + n ==> BusOf(pt, v) != a
    ensures Peek(Memcpy(mem, pt, buf, pos, n, false).host, a) == Peek(mem.host, a)
    decreases n
  {
    if n > 0 {
      MemcpyToHostFrame(mem, pt, buf, pos, n - 1, a);
      assert BusOf(pt, buf + (n - 1)) != a;
    }
  }

  /** With distinct frames behind the pages of the buffer, no byte is aliased. */
  lemma {:induction false} DistinctFramesNoAlias(pt: PageTable, buf: nat, n: nat, i: nat)
    requires i < n
    requires forall p, q :: buf / PAGE_SIZE <= p < q <= (buf + n - 1) / PAGE_SIZE ==> pt(p) != pt(q)
    ensures LastAlias(pt, buf, n, i)
  {
    forall v | buf + i < v < buf + n
      ensures BusOf(pt, v) != BusOf(pt, buf + i)
    {
      var p, q := (buf + i) / PAGE_SIZE, v / PAGE_SIZE;
      if p < q { assert pt(p) != pt(q); }
    }
  }
}
