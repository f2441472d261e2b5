/**
  xdma-sgm.c: cutting a virtual buffer into page fragments, and the bus addresses of its bytes.
*/
module ScatterGather {
  import opened XdmaTypes

  const EINVAL: int := 22
  const ENOMEM: int := 12

  /** A page frame number as the device sees it. */
  type Frame = x: int | 0 <= x < 0x10_0000_0000_0000

  /** Which frame backs each virtual page. */
  type PageTable = nat -> Frame

  /** struct scatterlist before it is mapped for DMA. */
  datatype SgEntry = SgEntry(frame: Frame, offset: nat, length: nat)

  /** Bus address of the byte at virtual address v. */
  function BusOf(pt: PageTable, v: nat): u64
  {
    pt(v / PAGE_SIZE) * PAGE_SIZE + v % PAGE_SIZE
  }

  // ----- the page split, as a function

  /** Number of pages a non-empty buffer touches. */
  function NrPages(start: nat, count: nat): nat
    requires count > 0
  {
    (start + count - 1) / PAGE_SIZE - start / PAGE_SIZE + 1
  }

  /** nr_pages as the code computes it: wrapping subtraction of page numbers, kept in an int. */
  function PageCount(start: u64, count: u64): int
  {
    AsInt32((start + count - 1) % TWO64 / PAGE_SIZE - start / PAGE_SIZE + 1)
  }

  lemma {:induction false} AsInt32Range(x: int)
    ensures 0 <= x < 0x8000_0000 ==> AsInt32(x) == x
    ensures 0x8000_0000 <= x < 0x1_0000_0000 ==> AsInt32(x) == x - 0x1_0000_0000
    ensures AsInt32(0x10_0000_0000_0000) == 0
  {}

  /** For buffers that do not wrap: exact up to 2^31 - 1 pages, negative from there to 2^32 - 1. */
  lemma {:induction false} PageCountExact(start: u64, count: u64)
    requires start + count < TWO64
    ensures count == 0 ==> PageCount(start, count) <= 1
    ensures count > 0 && NrPages(start, count) < 0x8000_0000 ==> PageCount(start, count) == NrPages(start, count)
    ensures count > 0 && 0x8000_0000 <= NrPages(start, count) < 0x1_0000_0000 ==>
      PageCount(start, count) == NrPages(start, count) - 0x1_0000_0000
  {
    LastPage(start, count);
    if count > 0 {
      AsInt32Range(NrPages(start, count));
    } else {
      AsInt32Range(if start == 0 then 0 else (start - 1) / 4096 - start / 4096 + 1);
    }
  }

  /** The subtraction of one wraps around only for an empty buffer at address 0. */
  lemma {:induction false} LastPage(start: nat, count: nat)
    requires start + count < 0x1_0000_0000_0000_0000
    ensures start + count > 0 ==> (start + count - 1) % 0x1_0000_0000_0000_0000 == start + count - 1
    ensures (0 - 1) % 0x1_0000_0000_0000_0000 / 4096 + 1 == 0x10_0000_0000_0000
  {}

  /** Virtual address at which fragment i starts. */
  function FragStart(start: nat, i: nat): nat
  {
    if i == 0 then start else (start / PAGE_SIZE + i) * PAGE_SIZE
  }

  /** Virtual address just past fragment i. */
  function FragEnd(start: nat, count: nat, i: nat): nat
  {
    Min(start + count, (start / PAGE_SIZE + i + 1) * PAGE_SIZE)
  }

  function Fragment(pt: PageTable, start: nat, count: nat, i: nat): SgEntry
    requires FragStart(start, i) <= FragEnd(start, count, i)
  {
    SgEntry(pt(start / PAGE_SIZE + i), FragStart(start, i) % PAGE_SIZE,
            FragEnd(start, count, i) - FragStart(start, i))
  }

  /** The fragments are non-empty, lie in one page each and meet end to end. */
  lemma {:induction false} FragmentShape(start: nat, count: nat, i: nat)
    requires count > 0 && i < NrPages(start, count)
    ensures start <= FragStart(start, i) < FragEnd(start, count, i) <= start + count
    ensures FragStart(start, i) / PAGE_SIZE == start / PAGE_SIZE + i
    ensures FragStart(start, i) % PAGE_SIZE + FragEnd(start, count, i) - FragStart(start, i) <= PAGE_SIZE
    ensures i + 1 < NrPages(start, count) ==> FragEnd(start, count, i) == FragStart(start, i + 1)
    ensures i + 1 == NrPages(start, count) ==> FragEnd(start, count, i) == start + count
  {}

  ghost predicate IsSplit(es: seq<SgEntry>, pt: PageTable, start: nat, count: nat)
    requires count > 0
  {
    && |es| == NrPages(start, count)
    && forall i :: 0 <= i < |es| ==>
      FragStart(start, i) <= FragEnd(start, count, i) && es[i] == Fragment(pt, start, count, i)
  }

  /** Every one of the n virtual pages from `first` on is backed. */
  ghost predicate AllMapped(mapped: nat -> bool, first: nat, n: nat)
  {
    forall p :: first <= p < first + n ==> mapped(p)
  }

  /** max_len / PAGE_SIZE + 2 pages are always enough for max_len bytes. */
  lemma {:induction false} CapacitySuffices(start: nat, count: nat, maxLen: nat)
    requires 0 < count <= maxLen
    ensures NrPages(start, count) <= maxLen / PAGE_SIZE + 2
  {}

  /** A transfer chunk has at most 2049 fragments, well within the 24-bit writeback counter. */
  lemma {:induction false} ChunkFragments(start: nat, count: nat)
    requires 0 < count <= XDMA_TRANSFER_MAX_BYTES
    ensures NrPages(start, count) <= 2049
  {}

  // ----- the mapper

  /** struct sg_mapping_t. */
  class SgMapper {
    const maxPages: nat
    const pages: array<Frame>
    const sgl: array<SgEntry>
    var mappedPages: nat

    ghost predicate Valid()
      reads this
    {
      pages.Length == sgl.Length == maxPages && mappedPages <= maxPages
    }

    constructor (maxLen: u64)
      requires maxLen > 0
      ensures Valid() && fresh(pages) && fresh(sgl)
      ensures maxPages == maxLen / PAGE_SIZE + 2 && mappedPages == 0
    {
      maxPages := maxLen / PAGE_SIZE + 2;
      mappedPages := 0;
      pages := new Frame[maxLen / PAGE_SIZE + 2];
      sgl := new SgEntry[maxLen / PAGE_SIZE + 2];
    }

    /**
      sgm_get_user_pages. `pinned` is what get_user_pages_fast returns: the number of pages it
      pinned, or a negative error. The page count is kept in an int.
    */
    method GetUserPages(start: u64, count: u64, pt: PageTable, pinned: int) returns (rc: int)
      requires Valid() && mappedPages == 0
      requires count > 0 ==> pinned <= NrPages(start, count) < 0x8000_0000
      modifies this, pages, sgl
      ensures Valid()
      ensures start + count >= TWO64 || (count > 0 && NrPages(start, count) > maxPages) ==> rc == -22
      ensures start + count < TWO64 && count == 0 && maxPages > 0 ==> rc == 0
      ensures start + count < TWO64 && 0 < count && pinned < NrPages(start, count) <= maxPages ==> rc == -12
      ensures start + count < TWO64 && 0 < count && pinned == NrPages(start, count) <= maxPages ==>
        rc == mappedPages == NrPages(start, count) && IsSplit(sgl[..rc], pt, start, count)
      ensures rc <= 0 ==> mappedPages == 0
    {
      var first := start / PAGE_SIZE;
      var nrPages := PageCount(start, count);
      if (start + count) % TWO64 < start { return -EINVAL; }
      PageCountExact(start, count);
      if nrPages > maxPages { return -EINVAL; }
      if count == 0 { return 0; }
      if pinned < nrPages {
        // the pages that were pinned are put back
        mappedPages := 0;
        return -ENOMEM;
      }
      forall i | 0 <= i < nrPages { pages[i] := pt(first + i); }
      mappedPages := pinned;
      FillTable(start, count, nrPages, pt);
      rc := nrPages;
    }

    /**
      sgm_kernel_pages, for a buffer from vmalloc. `mapped` says which virtual pages
      vmalloc_to_page finds a page for.
    */
    method KernelPages(start: u64, count: u64, pt: PageTable, mapped: nat -> bool) returns (rc: int)
      requires Valid() && mappedPages == 0
      requires count > 0 ==> NrPages(start, count) < 0x8000_0000
      modifies this, pages, sgl
      ensures Valid()
      ensures start + count >= TWO64 || (count > 0 && NrPages(start, count) > maxPages) ==> rc == -22
      ensures start + count < TWO64 && count == 0 && maxPages > 0 ==> rc == 0
      ensures start + count < TWO64 && 0 < count && NrPages(start, count) <= maxPages ==>
        if AllMapped(mapped, start / PAGE_SIZE, NrPages(start, count))
        then rc == mappedPages == NrPages(start, count) && IsSplit(sgl[..rc], pt, start, count)
        else rc == -12
      ensures rc <= 0 ==> mappedPages == 0
    {
      var first := start / PAGE_SIZE;
      var nrPages := PageCount(start, count);
      if (start + count) % TWO64 < start { return -EINVAL; }
      PageCountExact(start, count);
      if nrPages > maxPages { return -EINVAL; }
      if count == 0 { return 0; }
      var i := 0;
      while i < nrPages
        invariant 0 <= i <= nrPages
        invariant AllMapped(mapped, first, i)
        invariant forall k :: 0 <= k < i ==> pages[k] == pt(first + k)
      {
        if !mapped(first + i) {
          mappedPages := 0;
          return -ENOMEM;
        }
        pages[i] := pt(first + i);
        i := i + 1;
      }
      mappedPages := nrPages;
      FillTable(start, count, nrPages, pt);
      rc := nrPages;
    }

    /** The part of sgm_get_user_pages (and of sgm_kernel_pages) that populates the scatterlist. */
    method FillTable(start: u64, count: u64, nrPages: nat, pt: PageTable)
      requires Valid() && 0 < count && nrPages == NrPages(start, count) <= maxPages
      requires forall i :: 0 <= i < nrPages ==> pages[i] == pt(start / PAGE_SIZE + i)
      modifies sgl
      ensures IsSplit(sgl[..nrPages], pt, start, count)
    {
      var remaining := count;
      FragmentShape(start, count, 0);
      sgl[0] := SgEntry(pages[0], start % PAGE_SIZE, 0);
      if nrPages > 1 {
        sgl[0] := sgl[0].(length := PAGE_SIZE - sgl[0].offset);
        remaining := remaining - sgl[0].length;
        var i := 1;
        while i < nrPages - 1
          invariant 1 <= i <= nrPages - 1
          invariant remaining == start + count - FragStart(start, i)
          invariant forall k :: 0 <= k < i ==> FragStart(start, k) <= FragEnd(start, count, k)
          invariant forall k :: 0 <= k < i ==> sgl[k] == Fragment(pt, start, count, k)
        {
          FragmentShape(start, count, i);
          assert remaining >= PAGE_SIZE;
          sgl[i] := SgEntry(pages[i], 0, PAGE_SIZE);
          remaining := remaining - PAGE_SIZE;
          i := i + 1;
        }
        FragmentShape(start, count, i);
        assert remaining <= PAGE_SIZE;
        sgl[i] := SgEntry(pages[i], 0, remaining);
      } else {
        sgl[0] := sgl[0].(length := remaining);
      }
    }
  }

  /** sg_create_mapper: no mapper for an empty buffer. */
  method SgCreateMapper(maxLen: u64) returns (sgm: SgMapper?)
    ensures sgm == null <==> maxLen == 0
    ensures sgm != null ==>
      && fresh(sgm) && sgm.Valid() && fresh(sgm.pages) && fresh(sgm.sgl)
      && sgm.maxPages == maxLen / PAGE_SIZE + 2 && sgm.mappedPages == 0
  {
    sgm := null;
    if maxLen != 0 {
      sgm := new SgMapper(maxLen);
    }
  }
}
