/** struct manifest_s (vm/src/stream.h): what the HSM signs about an application. */
module Manifests {
  import opened Machine
  import opened MerkleTerms
  import opened Pages
  import opened PagedState

  /** What app_hash commits to: the section limits and the pages, in this order. */
  datatype AppHash = AppHash(codeStart: u32, codeEnd: u32, dataStart: u32, bss: u32, pages: seq<PageData>)

  /** Pages from `start` to `end`. */
  function SectionCount(start: u32, end: u32): nat
    requires start <= end
  {
    (end - start) / PAGE_SIZE
  }

  /** The fields the device uses. */
  datatype Manifest = Manifest(appHash: AppHash, pc: u32, bss: u32, code: Section, stack: Section, data: Section,
                               root: Digest, size: u32, last: Entry) {
    /** The two ranges of pages of the application. */
    predicate HasPages() {
      && Aligned(code.start) && Aligned(code.end) && code.start <= code.end
      && Aligned(data.start) && Aligned(bss) && data.start <= bss
    }

    function CodeCount(): nat
      requires code.start <= code.end
    {
      SectionCount(code.start, code.end)
    }

    function DataCount(): nat
      requires data.start <= bss
    {
      SectionCount(data.start, bss)
    }

    function PageCount(): nat
      requires code.start <= code.end && data.start <= bss
    {
      CodeCount() + DataCount()
    }

    /** Address of the i-th page of the application. */
    function AddrOf(i: nat): int
      requires code.start <= code.end
    {
      if i < CodeCount() then code.start + PAGE_SIZE * i else data.start + PAGE_SIZE * (i - CodeCount())
    }

    /** The sections, with the heap starting in the page of `bss`. */
    function MemoryLayout(): Layout {
      Layout(code, stack, data, PageStart(bss))
    }
  }

  lemma AddrFits(m: Manifest, i: nat)
    requires m.HasPages() && i < m.PageCount()
    ensures 0 <= m.AddrOf(i) <= U32_MAX
  {
    PageIndex(m.code.start, m.code.end);
    PageIndex(m.data.start, m.bss);
  }
}
