/** Page geometry, vm/src/page.h. */
module Pages {
  import opened Machine

  const PAGE_SIZE := 256

  type PageData = s: seq<u8> | |s| == PAGE_SIZE witness seq(PAGE_SIZE, i => 0)

  /** struct page_s; a slot whose address is zero is free. */
  datatype Page = Page(addr: u32, data: PageData, iv: u32)

  function ZeroPage(): PageData {
    Repeat<u8>(0, PAGE_SIZE)
  }

  function PageStart(addr: u32): (start: u32)
    ensures start <= addr < start + PAGE_SIZE && Aligned(start)
  {
    addr / PAGE_SIZE * PAGE_SIZE
  }

  predicate Aligned(addr: u32) {
    addr % PAGE_SIZE == 0
  }

  /** Room left in the page of `addr`. */
  function BufferMaxSize(addr: u32): (n: nat)
    ensures 1 <= n <= PAGE_SIZE && addr + n == PageStart(addr) + PAGE_SIZE
  {
    PAGE_SIZE - (addr - PageStart(addr))
  }

  function BufferMinSize(addr: u32, size: nat): (n: nat) {
    if BufferMaxSize(addr) < size then BufferMaxSize(addr) else size
  }

  lemma AlignedGap(addr: u32, end: u32)
    requires Aligned(addr) && Aligned(end) && addr < end
    ensures addr + PAGE_SIZE <= end
  {
  }

  /** Page addresses are a whole number of pages apart. */
  lemma PageIndex(start: u32, addr: u32)
    requires Aligned(start) && Aligned(addr) && start <= addr
    ensures start + PAGE_SIZE * ((addr - start) / PAGE_SIZE) == addr
  {
  }

  lemma PageAt(start: u32, i: nat)
    requires Aligned(start) && start + PAGE_SIZE * i <= U32_MAX
    ensures Aligned(start + PAGE_SIZE * i)
  {
  }

  lemma NextAligned(addr: u32)
    requires Aligned(addr) && addr <= U32_MAX - PAGE_SIZE
    ensures Aligned(addr + PAGE_SIZE)
  {
  }

  lemma PageStartUnique(addr: u32, start: u32)
    requires Aligned(start) && start <= addr < start + PAGE_SIZE
    ensures PageStart(addr) == start
  {
  }
}
