/**
 What the device's caches, its Merkle state and the host's store say together,
 as predicates on values: the invariants behind vm/src/memory.c and vm/src/stream.c.
 */
module PagedState {
  import opened Machine
  import opened MerkleTerms
  import opened Pages
  import opened PageCache
  import opened Protocol
  import opened HostMerkleTree
  import opened HostStream

  datatype Section = Section(start: u32, end: u32) {
    predicate Contains(addr: u32) {
      start <= addr < end
    }
  }

  /** enum section_e: each section has its own cache. */
  datatype Kind = Code | Stack | Data

  /** The manifest's sections and the page where the heap starts. */
  datatype Layout = Layout(code: Section, stack: Section, data: Section, bss: u32) {
    function Of(k: Kind): Section {
      match k
      case Code => code
      case Stack => stack
      case Data => data
    }
  }

  /** The slots of the three caches. */
  datatype Caches = Caches(code: seq<Page>, stack: seq<Page>, data: seq<Page>) {
    function Of(k: Kind): seq<Page> {
      match k
      case Code => code
      case Stack => stack
      case Data => data
    }

    function With(k: Kind, pages: seq<Page>): Caches {
      match k
      case Code => Caches(pages, stack, data)
      case Stack => Caches(code, pages, data)
      case Data => Caches(code, stack, pages)
    }

    /** The caches without the page in one slot. */
    function Without(k: Kind, n: nat): Caches
      requires n < |Of(k)|
    {
      With(k, RemoveAt(Of(k), n))
    }
  }

  predicate PageAligned(s: Section) {
    Aligned(s.start) && Aligned(s.end) && 0 < s.start <= s.end
  }

  predicate Disjoint(s: Section, t: Section) {
    s.end <= t.start || t.end <= s.start
  }

  /** What the signed manifest guarantees: aligned, disjoint sections without page 0, and the pages of the application. */
  ghost predicate WellFormed(l: Layout, initial: map<u32, PageData>) {
    && PageAligned(l.code) && PageAligned(l.stack) && PageAligned(l.data)
    && Disjoint(l.code, l.stack) && Disjoint(l.code, l.data) && Disjoint(l.stack, l.data)
    && l.data.start <= l.bss <= l.data.end && Aligned(l.bss)
    && forall a: u32 :: a in initial <==> Aligned(a) && (l.code.Contains(a) || l.data.start <= a < l.bss)
  }

  /** The last version of a page handed to the host (or signed), with its counter. */
  datatype Version = Version(data: PageData, iv: u32)

  /**
   `store` has the last committed version of every existing page and `mem` its
   present contents; `entries` is the list behind the Merkle root and `seen` the
   tags the host has ever been given.
   */
  datatype Backing = Backing(store: map<u32, Version>, mem: map<u32, PageData>, entries: seq<Entry>, seen: set<Mac>)

  /** A tag the host may hold: of a signed page, or of a version no newer than the last one. */
  ghost predicate GoodTag(c: Cipher, initial: map<u32, PageData>, store: map<u32, Version>, tag: Mac) {
    match tag
    case OtherBytes(_) => true
    case Hmac(StaticKey, data, addr, iv) => iv == 0 && addr in initial && data == initial[addr]
    case Hmac(DynamicKey, data, addr, iv) =>
      && addr in store && 1 <= iv <= store[addr].iv
      && (iv == store[addr].iv ==> data == c.encrypt(store[addr].data, addr, iv))
  }

  predicate InSection(l: Layout, a: u32) {
    l.code.Contains(a) || l.stack.Contains(a) || l.data.Contains(a)
  }

  /** What is known of one existing page: version 0 is the signed page, and code never changes. */
  predicate GoodVersion(l: Layout, initial: map<u32, PageData>, a: u32, v: Version, present: PageData) {
    && Aligned(a) && InSection(l, a)
    && (v.iv == 0 ==> a in initial && v.data == initial[a])
    && (l.code.Contains(a) ==> v.iv == 0 && present == v.data)
  }

  ghost predicate StoreInv(l: Layout, initial: map<u32, PageData>, store: map<u32, Version>, mem: map<u32, PageData>) {
    && mem.Keys == store.Keys
    && (forall a :: a in store ==> GoodVersion(l, initial, a, store[a], mem[a]))
    && (forall a :: a in initial ==> a in store)
  }

  ghost predicate BackingInv(l: Layout, initial: map<u32, PageData>, c: Cipher, b: Backing) {
    && StoreInv(l, initial, b.store, b.mem)
    && EntriesInv(l, b)
    && GoodTags(c, initial, b.store, b.seen)
  }

  /** One entry with the current counter for every writeable page, and no other. */
  ghost predicate EntriesInv(l: Layout, b: Backing) {
    && DistinctAddrs(b.entries)
    && (forall i :: 0 <= i < |b.entries| ==> CurrentEntry(l, b.store, b.entries[i]))
    && (forall a :: a in b.store && !l.code.Contains(a) ==> IndexOf(b.entries, a) >= 0)
  }

  predicate CurrentEntry(l: Layout, store: map<u32, Version>, e: Entry) {
    e.addr in store && !l.code.Contains(e.addr) && store[e.addr].iv == e.iv
  }

  ghost predicate GoodTags(c: Cipher, initial: map<u32, PageData>, store: map<u32, Version>, seen: set<Mac>) {
    forall tag :: tag in seen ==> GoodTag(c, initial, store, tag)
  }

  /** Every cached page belongs to the cache's section and holds the present contents of its page. */
  ghost predicate CacheInv(s: Section, pages: seq<Page>, b: Backing) {
    && Sorted(pages)
    && b.mem.Keys == b.store.Keys
    && forall i :: 0 <= i < |pages| && pages[i].addr != 0 ==>
         var p := pages[i];
         s.Contains(p.addr) && p.addr in b.store && p.iv == b.store[p.addr].iv && p.data == b.mem[p.addr]
  }

  /** Only cached pages differ from their last committed version. */
  ghost predicate Clean(cs: Caches, b: Backing) {
    && b.mem.Keys == b.store.Keys
    && forall a :: a in b.store && b.store[a].data != b.mem[a] ==> Has(cs.stack, a) || Has(cs.data, a)
  }

  predicate Existing(l: Layout, bssMax: u32, stackMin: u32, a: u32) {
    Aligned(a) && (l.code.Contains(a) || l.data.start <= a < bssMax || stackMin <= a < l.stack.end)
  }

  /** The existing pages are the code, the data up to bss_max and the stack down to stack_min. */
  ghost predicate Frontier(l: Layout, bssMax: u32, stackMin: u32, b: Backing) {
    && Aligned(bssMax) && Aligned(stackMin)
    && l.bss <= bssMax <= l.data.end && l.stack.start <= stackMin <= l.stack.end
    && (forall a: u32 :: a in b.store <==> Existing(l, bssMax, stackMin, a))
    && |b.entries| == PageCount(l, bssMax, stackMin)
  }

  /** Number of writeable pages between the frontiers. */
  function PageCount(l: Layout, bssMax: int, stackMin: int): int {
    (bssMax - l.data.start) / PAGE_SIZE + (l.stack.end - stackMin) / PAGE_SIZE
  }

  /** Existing versions are kept, and new ones are the first of their page. */
  ghost predicate Kept(store: map<u32, Version>, store': map<u32, Version>) {
    forall a :: a in store' ==> if a in store then store'[a] == store[a] else store'[a].iv == 1
  }

  /** One operation advances the counter of a page by one at most. */
  ghost predicate Aged(store: map<u32, Version>, store': map<u32, Version>) {
    forall a :: a in store' ==> store'[a].iv <= (if a in store then store[a].iv else 0) + 1
  }

  function HostCopy(l: Layout, c: Cipher, a: u32, v: Version): HostPage {
    var sealed := c.Sealed(v.data, a, v.iv);
    HostPage(sealed, Hmac(KeyFor(v.iv), sealed, a, v.iv), v.iv, l.code.Contains(a))
  }

  /** An honest host between two requests holds exactly the committed versions. */
  ghost predicate HostInv(l: Layout, c: Cipher, b: Backing, h: HostState) {
    h.alive && h.phase.Idle? && h.entries == b.entries && HoldsCopies(l, c, b.store, h.pages)
  }

  ghost predicate HoldsCopies(l: Layout, c: Cipher, store: map<u32, Version>, pages: map<u32, HostPage>) {
    && pages.Keys == store.Keys
    && forall a :: a in store ==> pages[a] == HostCopy(l, c, a, store[a])
  }

  // ---- Committing a page ----

  function Recorded(entries: seq<Entry>, entry: Entry): seq<Entry> {
    var m := IndexOf(entries, entry.addr);
    if m >= 0 then entries[m := entry] else entries + [entry]
  }

  function TagOf(c: Cipher, p: Page): Mac {
    Hmac(KeyFor(p.iv), c.Sealed(p.data, p.addr, p.iv), p.addr, p.iv)
  }

  /** The backing after version p, whose counter is already incremented, is committed. */
  function Committed(c: Cipher, b: Backing, p: Page): Backing {
    Backing(b.store[p.addr := Version(p.data, p.iv)], b.mem[p.addr := p.data],
            Recorded(b.entries, Entry(p.addr, p.iv)), b.seen + {TagOf(c, p)})
  }

  /** p is the next version of an existing writeable page, or the first one of a new page. */
  ghost predicate NextVersion(l: Layout, b: Backing, p: Page) {
    && p.iv > 0 && Aligned(p.addr) && !l.code.Contains(p.addr) && InSection(l, p.addr)
    && (p.addr in b.store ==> p.iv == b.store[p.addr].iv + 1)
    && (p.addr !in b.store ==> p.iv == 1)
  }

  lemma IndexAfterRecord(entries: seq<Entry>, e: Entry, a: u32)
    ensures IndexOf(Recorded(entries, e), a) >= 0 <==> IndexOf(entries, a) >= 0 || a == e.addr
  {
    var m := IndexOf(entries, e.addr);
    var entries' := Recorded(entries, e);
    assert entries'[if m >= 0 then m else |entries|] == e;
    var i := IndexOf(entries, a);
    if i >= 0 {
      assert entries'[i].addr == a;
    }
    var j := IndexOf(entries', a);
    if j >= 0 && a != e.addr {
      assert entries[j].addr == a;
    }
  }

  lemma RecordedIsDistinct(entries: seq<Entry>, e: Entry)
    requires DistinctAddrs(entries)
    ensures DistinctAddrs(Recorded(entries, e))
  {
  }

  /** The list has an entry for a writeable page exactly when the page exists. */
  lemma EntryIffExists(l: Layout, b: Backing, addr: u32)
    requires EntriesInv(l, b) && !l.code.Contains(addr)
    ensures addr in b.store <==> IndexOf(b.entries, addr) >= 0
    ensures addr in b.store ==> b.entries[IndexOf(b.entries, addr)] == Entry(addr, b.store[addr].iv)
  {
    var m := IndexOf(b.entries, addr);
    if m >= 0 {
      assert CurrentEntry(l, b.store, b.entries[m]);
    }
  }

  lemma CommitKeepsEntries(l: Layout, c: Cipher, b: Backing, p: Page)
    requires EntriesInv(l, b) && NextVersion(l, b, p)
    ensures EntriesInv(l, Committed(c, b, p))
  {
    var b' := Committed(c, b, p);
    var e := Entry(p.addr, p.iv);
    RecordedIsDistinct(b.entries, e);
    forall i | 0 <= i < |b'.entries|
      ensures CurrentEntry(l, b'.store, b'.entries[i])
    {
      if b'.entries[i] != e {
        assert b'.entries[i] == b.entries[i];
        assert CurrentEntry(l, b.store, b.entries[i]);
      }
    }
    forall a | a in b'.store && !l.code.Contains(a)
      ensures IndexOf(b'.entries, a) >= 0
    {
      IndexAfterRecord(b.entries, e, a);
    }
  }

  lemma CommitKeepsTags(c: Cipher, initial: map<u32, PageData>, b: Backing, p: Page)
    requires GoodTags(c, initial, b.store, b.seen) && p.iv > 0
    requires p.addr in b.store ==> b.store[p.addr].iv < p.iv
    ensures GoodTags(c, initial, Committed(c, b, p).store, Committed(c, b, p).seen)
  {
    var b' := Committed(c, b, p);
    forall tag | tag in b'.seen
      ensures GoodTag(c, initial, b'.store, tag)
    {
      if tag in b.seen {
        assert GoodTag(c, initial, b.store, tag);
      }
    }
  }

  lemma CommitKeepsStore(l: Layout, initial: map<u32, PageData>, c: Cipher, b: Backing, p: Page)
    requires StoreInv(l, initial, b.store, b.mem) && NextVersion(l, b, p)
    ensures StoreInv(l, initial, Committed(c, b, p).store, Committed(c, b, p).mem)
  {
    var b' := Committed(c, b, p);
    assert b'.store.Keys == b.store.Keys + {p.addr};
    forall a | a in b'.store
      ensures GoodVersion(l, initial, a, b'.store[a], b'.mem[a])
    {
      assert a == p.addr || GoodVersion(l, initial, a, b.store[a], b.mem[a]);
    }
  }

  lemma CommitKeepsBacking(l: Layout, initial: map<u32, PageData>, c: Cipher, b: Backing, p: Page)
    requires BackingInv(l, initial, c, b) && NextVersion(l, b, p)
    ensures BackingInv(l, initial, c, Committed(c, b, p))
  {
    CommitKeepsStore(l, initial, c, b, p);
    CommitKeepsEntries(l, c, b, p);
    CommitKeepsTags(c, initial, b, p);
  }

  lemma WritePageRecords(h: HostState, addr: u32, data: PageData, mac: Mac, iv: u32)
    requires h.alive && (addr in h.pages ==> !h.pages[addr].readOnly)
    requires addr in h.pages <==> IndexOf(h.entries, addr) >= 0
    ensures WritePage(h, addr, data, mac, iv)
         == h.(pages := h.pages[addr := HostPage(data, mac, iv, false)], entries := Recorded(h.entries, Entry(addr, iv)))
  {
  }

  lemma CommitKeepsCopies(l: Layout, c: Cipher, store: map<u32, Version>, pages: map<u32, HostPage>, p: Page)
    requires HoldsCopies(l, c, store, pages) && !l.code.Contains(p.addr)
    ensures HoldsCopies(l, c, store[p.addr := Version(p.data, p.iv)],
                        pages[p.addr := HostPage(c.Sealed(p.data, p.addr, p.iv), TagOf(c, p), p.iv, false)])
  {
  }

  lemma CommitKeepsHost(l: Layout, c: Cipher, b: Backing, p: Page, h: HostState)
    requires HostInv(l, c, b, h) && EntriesInv(l, b) && NextVersion(l, b, p)
    ensures
      var h' := WritePage(h, p.addr, c.Sealed(p.data, p.addr, p.iv), TagOf(c, p), p.iv);
      h'.io == h.io && HostInv(l, c, Committed(c, b, p), h')
  {
    EntryIffExists(l, b, p.addr);
    if p.addr in h.pages {
      assert h.pages[p.addr] == HostCopy(l, c, p.addr, b.store[p.addr]);
    }
    WritePageRecords(h, p.addr, c.Sealed(p.data, p.addr, p.iv), TagOf(c, p), p.iv);
    CommitKeepsCopies(l, c, b.store, h.pages, p);
  }

  // ---- The three caches together ----

  ghost predicate CachesInv(l: Layout, cs: Caches, b: Backing) {
    && CacheInv(l.code, cs.code, b) && CacheInv(l.stack, cs.stack, b) && CacheInv(l.data, cs.data, b)
    && Clean(cs, b)
  }

  ghost predicate Uncached(cs: Caches, addr: u32) {
    !Has(cs.code, addr) && !Has(cs.stack, addr) && !Has(cs.data, addr)
  }

  lemma CachesAreSorted(l: Layout, cs: Caches, b: Backing, k: Kind)
    requires CachesInv(l, cs, b)
    ensures Sorted(cs.Of(k))
  {
  }

  /** An address missing from its own section's cache is in no cache. */
  lemma MissIsUncached(l: Layout, initial: map<u32, PageData>, cs: Caches, b: Backing, k: Kind, addr: u32)
    requires WellFormed(l, initial) && CachesInv(l, cs, b) && l.Of(k).Contains(addr) && !Has(cs.Of(k), addr)
    ensures Uncached(cs, addr)
  {
  }

  lemma CachedPageIsCurrent(l: Layout, cs: Caches, b: Backing, k: Kind, n: nat)
    requires CachesInv(l, cs, b) && n < |cs.Of(k)| && cs.Of(k)[n].addr != 0
    ensures
      var p := cs.Of(k)[n];
      l.Of(k).Contains(p.addr) && p.addr in b.store && p.iv == b.store[p.addr].iv && p.addr in b.mem && p.data == b.mem[p.addr]
  {
  }

  lemma NewIsUncached(l: Layout, cs: Caches, b: Backing, addr: u32)
    requires CachesInv(l, cs, b) && addr != 0 && addr !in b.store
    ensures Uncached(cs, addr)
  {
  }

  lemma UncachedWithout(cs: Caches, k: Kind, n: nat, addr: u32)
    requires Uncached(cs, addr) && n < |cs.Of(k)|
    ensures Uncached(cs.Without(k, n), addr)
  {
    HasAfterRemove(cs.Of(k), n, addr);
  }

  lemma RemoveKeepsCache(s: Section, pages: seq<Page>, b: Backing, n: nat)
    requires CacheInv(s, pages, b) && n < |pages|
    ensures CacheInv(s, RemoveAt(pages, n), b)
    ensures pages[n].addr != 0 ==> !Has(RemoveAt(pages, n), pages[n].addr)
  {
    RemoveKeepsSorted(pages, n);
    var r := RemoveAt(pages, n);
    forall i | 0 <= i < |r|
      ensures r[i] == pages[if i < n then i else i + 1]
    {
    }
  }

  /** A slot that is free, or holds a code page, can be given up as it is. */
  lemma DropKeepsCaches(l: Layout, cs: Caches, b: Backing, k: Kind, n: nat)
    requires CachesInv(l, cs, b) && 0 !in b.store && n < |cs.Of(k)|
    requires k == Code || cs.Of(k)[n].addr == 0
    ensures CachesInv(l, cs.Without(k, n), b)
  {
    RemoveKeepsCache(l.Of(k), cs.Of(k), b, n);
    forall a | a in b.store && b.store[a].data != b.mem[a]
      ensures Has(cs.Without(k, n).stack, a) || Has(cs.Without(k, n).data, a)
    {
      HasAfterRemove(cs.Of(k), n, a);
    }
  }

  lemma CommitKeepsCache(s: Section, pages: seq<Page>, c: Cipher, b: Backing, p: Page)
    requires CacheInv(s, pages, b) && !Has(pages, p.addr)
    ensures CacheInv(s, pages, Committed(c, b, p))
  {
  }

  /** A slot of a writeable cache can be given up once its page is committed. */
  lemma EvictKeepsCaches(l: Layout, cs: Caches, c: Cipher, b: Backing, k: Kind, n: nat)
    requires CachesInv(l, cs, b) && n < |cs.Of(k)| && cs.Of(k)[n].addr != 0 && cs.Of(k)[n].iv < U32_MAX
    requires Disjoint(l.code, l.stack) && Disjoint(l.code, l.data) && Disjoint(l.stack, l.data)
    ensures
      var p := cs.Of(k)[n];
      CachesInv(l, cs.Without(k, n), Committed(c, b, p.(iv := p.iv + 1)))
  {
    var p := cs.Of(k)[n];
    var next := p.(iv := p.iv + 1);
    var cs' := cs.Without(k, n);
    RemoveKeepsCache(l.Of(k), cs.Of(k), b, n);
    assert Uncached(cs', p.addr) by {
      assert l.Of(k).Contains(p.addr);
    }
    CommitKeepsCache(l.code, cs'.code, c, b, next);
    CommitKeepsCache(l.stack, cs'.stack, c, b, next);
    CommitKeepsCache(l.data, cs'.data, c, b, next);
    forall a | a in b.store && b.store[a].data != b.mem[a] && a != p.addr
      ensures Has(cs'.stack, a) || Has(cs'.data, a)
    {
      HasAfterRemove(cs.Of(k), n, a);
    }
  }

  /** Committing a page that is in no cache leaves the caches as they are. */
  lemma CommitKeepsCaches(l: Layout, cs: Caches, c: Cipher, b: Backing, p: Page)
    requires CachesInv(l, cs, b) && Uncached(cs, p.addr)
    ensures CachesInv(l, cs, Committed(c, b, p))
  {
    CommitKeepsCache(l.code, cs.code, c, b, p);
    CommitKeepsCache(l.stack, cs.stack, c, b, p);
    CommitKeepsCache(l.data, cs.data, c, b, p);
  }

  /** The present version of an uncached page can be put in its cache, where sorting wants it. */
  lemma LoadKeepsCaches(l: Layout, cs: Caches, b: Backing, k: Kind, m: nat, page: Page)
    requires CachesInv(l, cs, b) && m <= |cs.Of(k)| && Sorted(InsertAt(cs.Of(k), m, page))
    requires l.Of(k).Contains(page.addr) && page.addr in b.store && Uncached(cs, page.addr)
    requires page == Page(page.addr, b.store[page.addr].data, b.store[page.addr].iv)
    ensures CachesInv(l, cs.With(k, InsertAt(cs.Of(k), m, page)), b)
  {
    var r := InsertAt(cs.Of(k), m, page);
    forall i | 0 <= i < |r|
      ensures r[i] == if i < m then cs.Of(k)[i] else if i == m then page else cs.Of(k)[i - 1]
    {
    }
    forall a | a in b.store && b.store[a].data != b.mem[a]
      ensures Has(cs.With(k, r).stack, a) || Has(cs.With(k, r).data, a)
    {
      HasAfterInsert(cs.Of(k), m, page, a);
    }
  }

  // ---- New pages ----

  predicate IsZeroPage(b: Backing, a: u32) {
    a in b.store && a in b.mem && b.store[a].data == ZeroPage() && b.store[a].iv == 1 && b.mem[a] == ZeroPage()
  }

  /** Zero pages were created at every page address from `from` up to `to`, and nothing else changed. */
  ghost predicate Grown(b: Backing, b': Backing, from: u32, to: u32) {
    && b.mem.Keys == b.store.Keys && b'.mem.Keys == b'.store.Keys
    && (forall a: u32 :: a in b'.store <==> a in b.store || (Aligned(a) && from <= a < to))
    && (forall a :: a in b.store ==> b'.store[a] == b.store[a] && b'.mem[a] == b.mem[a])
    && (forall a :: a in b'.store && a !in b.store ==> IsZeroPage(b', a))
    && |b'.entries| == |b.entries| + (to - from) / PAGE_SIZE
  }

  lemma NoneGrown(l: Layout, initial: map<u32, PageData>, c: Cipher, b: Backing, from: u32)
    requires BackingInv(l, initial, c, b)
    ensures Grown(b, b, from, from)
  {
  }

  lemma GrownEntries(b: Backing, b': Backing, from: u32, to: u32)
    requires Grown(b, b', from, to)
    ensures |b'.entries| == |b.entries| + (to - from) / PAGE_SIZE
  {
  }

  lemma GrownByOne(l: Layout, c: Cipher, b: Backing, b1: Backing, from: u32, addr: u32)
    requires Aligned(from) && Aligned(addr) && from <= addr <= U32_MAX - PAGE_SIZE
    requires Grown(b, b1, from, addr) && addr !in b1.store && IndexOf(b1.entries, addr) == -1
    ensures Grown(b, Committed(c, b1, Page(addr, ZeroPage(), 1)), from, addr + PAGE_SIZE)
  {
    var b' := Committed(c, b1, Page(addr, ZeroPage(), 1));
    forall a: u32
      ensures a in b'.store <==> a in b.store || (Aligned(a) && from <= a < addr + PAGE_SIZE)
    {
      if Aligned(a) && addr <= a < addr + PAGE_SIZE {
        PageStartUnique(a, addr);
        PageStartUnique(a, a);
      }
    }
  }

  /** New pages an access to `addr` creates: the heap up to it, or the stack down to it. */
  function NewPages(k: Kind, bssMax: u32, stackMin: u32, addr: u32): nat {
    if k == Data && addr >= bssMax then (addr + PAGE_SIZE - bssMax) / PAGE_SIZE
    else if k == Stack && addr < stackMin then (stackMin - addr) / PAGE_SIZE
    else 0
  }

  /** Where the heap ends, and the stack begins, after an access to `addr`. */
  function HeapAfter(k: Kind, bssMax: u32, addr: u32): int {
    if k == Data && addr >= bssMax then addr + PAGE_SIZE else bssMax
  }

  function StackAfter(k: Kind, stackMin: u32, addr: u32): u32 {
    if k == Stack && addr < stackMin then addr else stackMin
  }

  /** A page that exists is within the frontiers. */
  lemma ExistingReach(l: Layout, initial: map<u32, PageData>, k: Kind, bssMax: u32, stackMin: u32, b: Backing, addr: u32)
    requires WellFormed(l, initial) && Frontier(l, bssMax, stackMin, b) && addr in b.store && l.Of(k).Contains(addr)
    ensures HeapAfter(k, bssMax, addr) == bssMax && StackAfter(k, stackMin, addr) == stackMin
  {
    assert Existing(l, bssMax, stackMin, addr);
  }

  /** The new pages of an access are those by which the frontiers move. */
  lemma NewPagesCount(l: Layout, initial: map<u32, PageData>, k: Kind, bssMax: u32, stackMin: u32, b: Backing, addr: u32)
    requires WellFormed(l, initial) && Frontier(l, bssMax, stackMin, b) && Aligned(addr) && l.Of(k).Contains(addr)
    ensures HeapAfter(k, bssMax, addr) <= l.Of(Data).end && l.stack.start <= StackAfter(k, stackMin, addr)
    ensures |b.entries| + NewPages(k, bssMax, stackMin, addr)
         == PageCount(l, HeapAfter(k, bssMax, addr), StackAfter(k, stackMin, addr))
  {
    hide Aligned, Frontier;
    FrontierBounds(l, bssMax, stackMin, b);
    AlignedGap(addr, l.Of(k).end);
    if k == Data && addr >= bssMax {
      NextAligned(addr);
      WholePages(l.data.start, bssMax, addr + PAGE_SIZE);
    } else if k == Stack && addr < stackMin {
      WholePages(addr, stackMin, l.stack.end);
    }
  }

  lemma FrontierFromKeys(l: Layout, bssMax: u32, stackMin: u32, b: Backing, b': Backing)
    requires Frontier(l, bssMax, stackMin, b) && b'.store.Keys == b.store.Keys && |b'.entries| == |b.entries|
    ensures Frontier(l, bssMax, stackMin, b')
  {
  }

  lemma HeapGrows(l: Layout, bssMax: u32, stackMin: u32, b: Backing, b': Backing, to: u32)
    requires Frontier(l, bssMax, stackMin, b) && Grown(b, b', bssMax, to)
    requires Aligned(to) && bssMax <= to <= l.data.end
    requires l.data.start <= l.bss && Aligned(l.data.start)
    ensures Frontier(l, to, stackMin, b')
  {
    hide Grown;
    GrownEntries(b, b', bssMax, to);
    WholePages(l.data.start, bssMax, to);
    HeapPages(l, bssMax, stackMin, b, b', to);
  }

  lemma WholePages(low: u32, mid: u32, high: u32)
    requires Aligned(low) && Aligned(mid) && Aligned(high) && low <= mid <= high
    ensures (mid - low) / PAGE_SIZE + (high - mid) / PAGE_SIZE == (high - low) / PAGE_SIZE
  {
  }

  lemma HeapPages(l: Layout, bssMax: u32, stackMin: u32, b: Backing, b': Backing, to: u32)
    requires Frontier(l, bssMax, stackMin, b) && Grown(b, b', bssMax, to) && bssMax <= to && l.data.start <= l.bss
    ensures forall a: u32 :: a in b'.store <==> Existing(l, to, stackMin, a)
  {
  }

  lemma StackPages(l: Layout, bssMax: u32, stackMin: u32, b: Backing, b': Backing, from: u32)
    requires Frontier(l, bssMax, stackMin, b) && Grown(b, b', from, stackMin) && from <= stackMin
    ensures forall a: u32 :: a in b'.store <==> Existing(l, bssMax, from, a)
  {
  }

  lemma StackGrows(l: Layout, bssMax: u32, stackMin: u32, b: Backing, b': Backing, from: u32)
    requires Frontier(l, bssMax, stackMin, b) && Grown(b, b', from, stackMin)
    requires Aligned(from) && l.stack.start <= from <= stackMin && Aligned(l.stack.end)
    ensures Frontier(l, bssMax, from, b')
  {
    hide Grown;
    GrownEntries(b, b', from, stackMin);
    WholePages(from, stackMin, l.stack.end);
    StackPages(l, bssMax, stackMin, b, b', from);
  }

  /** The flat memory: contents of existing pages, zeros elsewhere. */
  function FlatByte(mem: map<u32, PageData>, addr: u32): u8 {
    var start := PageStart(addr);
    if start in mem then mem[start][addr - start] else 0
  }

  ghost predicate SameMemory(mem: map<u32, PageData>, mem': map<u32, PageData>) {
    forall a: u32 :: FlatByte(mem', a) == FlatByte(mem, a)
  }

  lemma SameMemoryReflexive(mem: map<u32, PageData>)
    ensures SameMemory(mem, mem)
  {
  }

  lemma CodeSection(l: Layout, initial: map<u32, PageData>, k: Kind, addr: u32)
    requires WellFormed(l, initial) && l.Of(k).Contains(addr)
    ensures l.code.Contains(addr) <==> k == Code
    ensures addr > 0
  {
  }

  lemma GrownKeepsMemory(b: Backing, b': Backing, from: u32, to: u32)
    requires Grown(b, b', from, to)
    ensures SameMemory(b.mem, b'.mem)
  {
    forall a: u32
      ensures FlatByte(b'.mem, a) == FlatByte(b.mem, a)
    {
      var start := PageStart(a);
      if start in b'.mem && start !in b.mem {
        assert IsZeroPage(b', start);
      }
    }
  }

  /** Everything about committing the page of a slot that is given up: the flat memory does not change. */
  lemma EvictedSlot(l: Layout, initial: map<u32, PageData>, c: Cipher, cs: Caches, b: Backing, k: Kind, n: nat)
    requires WellFormed(l, initial) && BackingInv(l, initial, c, b) && CachesInv(l, cs, b)
    requires k != Code && n < |cs.Of(k)| && cs.Of(k)[n].addr != 0
    ensures
      var p := cs.Of(k)[n];
      && Aligned(p.addr) && InSection(l, p.addr) && !l.code.Contains(p.addr)
      && p.addr in b.store && p.iv == b.store[p.addr].iv
      && (p.iv < U32_MAX ==>
           var b' := Committed(c, b, p.(iv := p.iv + 1));
           && CachesInv(l, cs.Without(k, n), b')
           && b'.mem == b.mem && b'.store.Keys == b.store.Keys && |b'.entries| == |b.entries| && Aged(b.store, b'.store))
  {
    var p := cs.Of(k)[n];
    CachedPageIsCurrent(l, cs, b, k, n);
    assert GoodVersion(l, initial, p.addr, b.store[p.addr], b.mem[p.addr]);
    EntryIffExists(l, b, p.addr);
    if p.iv < U32_MAX {
      EvictKeepsCaches(l, cs, c, b, k, n);
    }
  }

  /** One step of creating zero pages. */
  lemma CreatedPage(l: Layout, initial: map<u32, PageData>, c: Cipher, cs: Caches, b0: Backing, b: Backing,
                    k: Kind, from: u32, addr: u32)
    requires WellFormed(l, initial) && BackingInv(l, initial, c, b) && CachesInv(l, cs, b) && Grown(b0, b, from, addr)
    requires Aligned(from) && Aligned(addr) && from <= addr <= U32_MAX - PAGE_SIZE
    requires addr !in b0.store && k != Code && l.Of(k).Contains(addr)
    ensures addr !in b.store && InSection(l, addr) && !l.code.Contains(addr)
    ensures
      var b' := Committed(c, b, Page(addr, ZeroPage(), 1));
      CachesInv(l, cs, b') && Grown(b0, b', from, addr + PAGE_SIZE)
  {
    hide GoodTags, StoreInv;
    NewIsUncached(l, cs, b, addr);
    EntryIffExists(l, b, addr);
    CommitKeepsCaches(l, cs, c, b, Page(addr, ZeroPage(), 1));
    GrownByOne(l, c, b0, b, from, addr);
  }

  lemma GrownZeroPage(b: Backing, b': Backing, from: u32, to: u32, a: u32)
    requires Grown(b, b', from, to) && Aligned(a) && from <= a < to && a !in b.store
    ensures IsZeroPage(b', a)
  {
  }

  /** Which pages are there to be created, or already there, for an access inside a section. */
  lemma AccessCases(l: Layout, initial: map<u32, PageData>, k: Kind, bssMax: u32, stackMin: u32, b: Backing, addr: u32)
    requires WellFormed(l, initial) && Frontier(l, bssMax, stackMin, b) && Aligned(addr) && l.Of(k).Contains(addr)
    ensures k == Data && addr >= bssMax ==>
      forall a: u32 :: bssMax <= a < addr + PAGE_SIZE ==> l.data.Contains(a) && a !in b.store
    ensures k == Stack && addr < stackMin ==>
      forall a: u32 :: addr <= a < stackMin ==> l.stack.Contains(a) && a !in b.store
    ensures !(k == Data && addr >= bssMax) && !(k == Stack && addr < stackMin) ==> addr in b.store
    ensures Aligned(bssMax) && Aligned(stackMin) && addr <= U32_MAX - PAGE_SIZE
    ensures addr + PAGE_SIZE <= l.Of(k).end
  {
    hide Frontier, Aligned;
    FrontierBounds(l, bssMax, stackMin, b);
    AlignedGap(addr, l.Of(k).end);
    if k == Data && addr >= bssMax {
      NotThere(l, bssMax, stackMin, b, bssMax, addr + PAGE_SIZE);
    } else if k == Stack && addr < stackMin {
      NotThere(l, bssMax, stackMin, b, addr, stackMin);
    } else {
      ExistsThere(l, bssMax, stackMin, b, addr);
    }
  }

  lemma FrontierBounds(l: Layout, bssMax: u32, stackMin: u32, b: Backing)
    requires Frontier(l, bssMax, stackMin, b)
    ensures Aligned(bssMax) && Aligned(stackMin)
    ensures l.bss <= bssMax <= l.data.end && l.stack.start <= stackMin <= l.stack.end
    ensures |b.entries| == PageCount(l, bssMax, stackMin)
  {
  }

  lemma ExistsThere(l: Layout, bssMax: u32, stackMin: u32, b: Backing, addr: u32)
    requires Frontier(l, bssMax, stackMin, b) && Existing(l, bssMax, stackMin, addr)
    ensures addr in b.store
  {
  }

  /** Between the frontiers nothing exists yet. */
  lemma NotThere(l: Layout, bssMax: u32, stackMin: u32, b: Backing, from: u32, to: u32)
    requires Frontier(l, bssMax, stackMin, b)
    requires to <= l.code.start || l.code.end <= from
    requires to <= l.data.start || bssMax <= from
    requires to <= stackMin || l.stack.end <= from
    ensures forall a: u32 :: from <= a < to ==> a !in b.store
  {
  }

  lemma AgedThenKept(store0: map<u32, Version>, store1: map<u32, Version>, store2: map<u32, Version>)
    requires Aged(store0, store1) && Kept(store1, store2) && store0.Keys == store1.Keys
    ensures Aged(store0, store2)
  {
  }

  lemma GrownIsKept(b: Backing, b': Backing, from: u32, to: u32)
    requires Grown(b, b', from, to)
    ensures Kept(b.store, b'.store)
  {
    forall a | a in b'.store && a !in b.store
      ensures b'.store[a].iv == 1
    {
      assert IsZeroPage(b', a);
    }
  }

  lemma NotAged(store: map<u32, Version>)
    ensures Aged(store, store) && Kept(store, store)
  {
  }

  lemma HeapBounds(l: Layout, initial: map<u32, PageData>, bssMax: u32, stackMin: u32, b: Backing, addr: u32)
    requires WellFormed(l, initial) && Frontier(l, bssMax, stackMin, b) && Aligned(addr) && l.data.Contains(addr)
    requires addr >= bssMax
    ensures l.data.start <= l.bss && Aligned(l.data.start) && Aligned(bssMax)
    ensures addr <= U32_MAX - PAGE_SIZE && Aligned(addr + PAGE_SIZE) && addr + PAGE_SIZE <= l.data.end
    ensures addr !in b.store
  {
    hide Frontier, Aligned;
    assert Aligned(l.data.start);
    FrontierBounds(l, bssMax, stackMin, b);
    AccessCases(l, initial, Data, bssMax, stackMin, b, addr);
    NextAligned(addr);
  }

  /** The heap grown up to an accessed page. */
  lemma HeapAccess(l: Layout, initial: map<u32, PageData>, bssMax: u32, stackMin: u32, b: Backing, b': Backing, addr: u32)
    requires WellFormed(l, initial) && Frontier(l, bssMax, stackMin, b) && Aligned(addr) && l.data.Contains(addr)
    requires addr >= bssMax && Grown(b, b', bssMax, addr + PAGE_SIZE)
    ensures Frontier(l, addr + PAGE_SIZE, stackMin, b') && SameMemory(b.mem, b'.mem) && IsZeroPage(b', addr)
    ensures Kept(b.store, b'.store)
  {
    hide Grown, SameMemory, IsZeroPage, Frontier, WellFormed, Aligned, Kept, Section.Contains, PageCount, InSection, Existing;
    HeapBounds(l, initial, bssMax, stackMin, b, addr);
    GrownIsKept(b, b', bssMax, addr + PAGE_SIZE);
    GrownZeroPage(b, b', bssMax, addr + PAGE_SIZE, addr);
    GrownKeepsMemory(b, b', bssMax, addr + PAGE_SIZE);
    HeapGrows(l, bssMax, stackMin, b, b', addr + PAGE_SIZE);
  }

  /** The stack grown down to an accessed page. */
  lemma StackAccess(l: Layout, initial: map<u32, PageData>, bssMax: u32, stackMin: u32, b: Backing, b': Backing, addr: u32)
    requires WellFormed(l, initial) && Frontier(l, bssMax, stackMin, b) && Aligned(addr) && l.stack.Contains(addr)
    requires addr < stackMin && Grown(b, b', addr, stackMin)
    ensures Frontier(l, bssMax, addr, b') && SameMemory(b.mem, b'.mem) && IsZeroPage(b', addr)
    ensures Kept(b.store, b'.store)
  {
    GrownIsKept(b, b', addr, stackMin);
    hide Grown, SameMemory, IsZeroPage, Frontier, Aligned, Kept;
    AccessCases(l, initial, Stack, bssMax, stackMin, b, addr);
    GrownZeroPage(b, b', addr, stackMin, addr);
    GrownKeepsMemory(b, b', addr, stackMin);
    StackGrows(l, bssMax, stackMin, b, b', addr);
  }

  // ---- The state an application starts in ----

  /** The versions an application starts with. */
  function Signed(initial: map<u32, PageData>): map<u32, Version> {
    map a | a in initial :: Version(initial[a], 0)
  }

  /** Number of signed data pages. */
  function DataPageCount(l: Layout): nat
    requires l.data.start <= l.bss
  {
    (l.bss - l.data.start) / PAGE_SIZE
  }

  function BootEntries(l: Layout): seq<Entry>
    requires l.data.start <= l.bss
  {
    InitialEntries(l.data.start, DataPageCount(l))
  }

  function BootBacking(l: Layout, initial: map<u32, PageData>, seen: set<Mac>): Backing
    requires l.data.start <= l.bss
  {
    Backing(Signed(initial), initial, BootEntries(l), seen)
  }

  /** At the start the host can only have the tags made when the application was signed. */
  ghost predicate SignedTags(initial: map<u32, PageData>, seen: set<Mac>) {
    forall tag :: tag in seen && tag.Hmac? ==>
      tag.key == StaticKey && tag.iv == 0 && tag.addr in initial && tag.data == initial[tag.addr]
  }

  lemma BootEntryIsCurrent(l: Layout, initial: map<u32, PageData>, i: nat)
    requires WellFormed(l, initial) && i < DataPageCount(l)
    ensures CurrentEntry(l, Signed(initial), BootEntries(l)[i])
  {
    hide Aligned;
    PageIndex(l.data.start, l.bss);
    PageAt(l.data.start, i);
  }

  lemma BootEntryExists(l: Layout, initial: map<u32, PageData>, a: u32)
    requires WellFormed(l, initial) && a in initial && !l.code.Contains(a)
    ensures IndexOf(BootEntries(l), a) >= 0
  {
    hide Aligned;
    PageIndex(l.data.start, a);
    PageIndex(l.data.start, l.bss);
    var i := (a - l.data.start) / PAGE_SIZE;
    assert BootEntries(l)[i].addr == a;
  }

  lemma BootEntriesComplete(l: Layout, initial: map<u32, PageData>, seen: set<Mac>)
    requires WellFormed(l, initial) && l.data.start <= l.bss
    ensures EntriesInv(l, BootBacking(l, initial, seen))
  {
    hide WellFormed, CurrentEntry;
    var b := BootBacking(l, initial, seen);
    forall i | 0 <= i < |b.entries|
      ensures CurrentEntry(l, b.store, b.entries[i])
    {
      BootEntryIsCurrent(l, initial, i);
    }
    forall a | a in b.store && !l.code.Contains(a)
      ensures IndexOf(b.entries, a) >= 0
    {
      BootEntryExists(l, initial, a);
    }
  }

  lemma BootInvariants(l: Layout, initial: map<u32, PageData>, c: Cipher, seen: set<Mac>)
    requires WellFormed(l, initial) && SignedTags(initial, seen)
    ensures BackingInv(l, initial, c, BootBacking(l, initial, seen))
    ensures Frontier(l, l.bss, l.stack.end, BootBacking(l, initial, seen))
  {
    var b := BootBacking(l, initial, seen);
    BootEntriesComplete(l, initial, seen);
    forall tag | tag in seen
      ensures GoodTag(c, initial, b.store, tag)
    {
    }
    forall a | a in b.store
      ensures GoodVersion(l, initial, a, b.store[a], b.mem[a])
    {
    }
  }

  ghost predicate AllFree(pages: seq<Page>) {
    forall i :: 0 <= i < |pages| ==> pages[i].addr == 0
  }

  lemma BootCaches(l: Layout, initial: map<u32, PageData>, cs: Caches, seen: set<Mac>)
    requires l.data.start <= l.bss && AllFree(cs.code) && AllFree(cs.stack) && AllFree(cs.data)
    ensures CachesInv(l, cs, BootBacking(l, initial, seen))
  {
  }

  /** The pages of an application, by address. */
  function AppPages(codeStart: u32, code: seq<PageData>, dataStart: u32, data: seq<PageData>): map<u32, PageData>
    requires codeStart + PAGE_SIZE * |code| <= U32_MAX && dataStart + PAGE_SIZE * |data| <= U32_MAX
    decreases |code| + |data|
  {
    if data != [] then
      AppPages(codeStart, code, dataStart, data[..|data| - 1])[dataStart + PAGE_SIZE * (|data| - 1) := data[|data| - 1]]
    else if code != [] then
      AppPages(codeStart, code[..|code| - 1], dataStart, [])[codeStart + PAGE_SIZE * (|code| - 1) := code[|code| - 1]]
    else map[]
  }

  /** The tags of consecutive pages with counter 0, as the signing handshake leaves them. */
  function StaticTags(start: u32, pages: seq<PageData>): seq<Mac>
    requires start + PAGE_SIZE * |pages| <= U32_MAX
  {
    seq(|pages|, i requires 0 <= i < |pages| => Hmac(StaticKey, pages[i], start + PAGE_SIZE * i, 0))
  }

  lemma OneMoreSignedPage(l: Layout, c: Cipher, initial: map<u32, PageData>, pages: map<u32, HostPage>, a: u32, data: PageData)
    requires HoldsCopies(l, c, Signed(initial), pages)
    ensures HoldsCopies(l, c, Signed(initial[a := data]),
                        pages[a := HostPage(data, Hmac(StaticKey, data, a, 0), 0, l.code.Contains(a))])
  {
    assert Signed(initial[a := data]) == Signed(initial)[a := Version(data, 0)];
  }

  /** A host loaded with the signed application holds the copies the device expects. */
  lemma {:induction false} LoadedHostHoldsCopies(l: Layout, c: Cipher, code: seq<PageData>, data: seq<PageData>)
    requires l.code.start + PAGE_SIZE * |code| <= l.code.end && l.data.start + PAGE_SIZE * |data| <= l.data.end
    requires Disjoint(l.code, l.data)
    ensures
      HoldsCopies(l, c, Signed(AppPages(l.code.start, code, l.data.start, data)),
                  InitialPages(l.code.start, code, StaticTags(l.code.start, code),
                               l.data.start, data, StaticTags(l.data.start, data)))
    decreases |code| + |data|
  {
    hide HoldsCopies;
    var n, m := |code|, |data|;
    if m > 0 {
      var rest := data[..m - 1];
      LoadedHostHoldsCopies(l, c, code, rest);
      assert StaticTags(l.data.start, data)[..m - 1] == StaticTags(l.data.start, rest);
      OneMoreSignedPage(l, c, AppPages(l.code.start, code, l.data.start, rest),
                        InitialPages(l.code.start, code, StaticTags(l.code.start, code),
                                     l.data.start, rest, StaticTags(l.data.start, rest)),
                        l.data.start + PAGE_SIZE * (m - 1), data[m - 1]);
    } else if n > 0 {
      var rest := code[..n - 1];
      LoadedHostHoldsCopies(l, c, rest, []);
      assert StaticTags(l.code.start, code)[..n - 1] == StaticTags(l.code.start, rest);
      assert StaticTags(l.data.start, data) == StaticTags(l.data.start, []) == [];
      OneMoreSignedPage(l, c, AppPages(l.code.start, rest, l.data.start, []),
                        InitialPages(l.code.start, rest, StaticTags(l.code.start, rest), l.data.start, [], []),
                        l.code.start + PAGE_SIZE * (n - 1), code[n - 1]);
    } else {
      NoCopies(l, c);
    }
  }

  lemma NoCopies(l: Layout, c: Cipher)
    ensures HoldsCopies(l, c, Signed(map[]), map[])
  {
  }

  // ---- Loads and stores inside a cached page ----

  function FlatBytes(mem: map<u32, PageData>, addr: u32, n: nat): (bytes: seq<u8>)
    requires addr + n <= U32_MAX + 1
    ensures |bytes| == n
  {
    seq<u8>(n, i requires 0 <= i < n => FlatByte(mem, addr + i))
  }

  /** Little-endian value of some bytes. */
  function FromLittleEndian(bytes: seq<u8>): nat {
    if bytes == [] then 0 else bytes[0] + 0x100 * FromLittleEndian(bytes[1..])
  }

  function ToLittleEndian(value: nat, n: nat): (bytes: seq<u8>)
    ensures |bytes| == n
  {
    if n == 0 then [] else [value % 0x100] + ToLittleEndian(value / 0x100, n - 1)
  }

  lemma {:induction false} LittleEndianBound(bytes: seq<u8>)
    ensures FromLittleEndian(bytes) < Pow(0x100, |bytes|)
  {
    if bytes != [] {
      LittleEndianBound(bytes[1..]);
      assert Pow(0x100, |bytes|) == 0x100 * Pow(0x100, |bytes| - 1);
    }
  }

  /** mem' is mem with `bytes` written at `addr`. */
  ghost predicate Overwritten(mem: map<u32, PageData>, mem': map<u32, PageData>, addr: u32, bytes: seq<u8>) {
    forall a: u32 :: FlatByte(mem', a) == if addr <= a < addr + |bytes| then bytes[a - addr] else FlatByte(mem, a)
  }

  /** `data` with `bytes` at `offset`. */
  function Patch(data: PageData, offset: nat, bytes: seq<u8>): (patched: PageData)
    requires offset + |bytes| <= PAGE_SIZE
  {
    data[..offset] + bytes + data[offset + |bytes|..]
  }

  lemma PageHoldsFlatBytes(mem: map<u32, PageData>, addr: u32, n: nat)
    requires PageStart(addr) in mem && n <= BufferMaxSize(addr)
    ensures addr + n <= U32_MAX + 1
    ensures FlatBytes(mem, addr, n) == mem[PageStart(addr)][addr - PageStart(addr)..addr - PageStart(addr) + n]
  {
    var start := PageStart(addr);
    var bytes := FlatBytes(mem, addr, n);
    forall i | 0 <= i < n
      ensures bytes[i] == mem[start][addr - start + i]
    {
      PageStartUnique(addr + i, start);
      var a: u32 := addr + i;
      assert FlatByte(mem, a) == mem[start][a - start];
    }
  }

  lemma PatchOverwrites(mem: map<u32, PageData>, addr: u32, bytes: seq<u8>)
    requires PageStart(addr) in mem && |bytes| <= BufferMaxSize(addr)
    ensures
      var start := PageStart(addr);
      Overwritten(mem, mem[start := Patch(mem[start], addr - start, bytes)], addr, bytes)
  {
    var start := PageStart(addr);
    var mem' := mem[start := Patch(mem[start], addr - start, bytes)];
    forall a: u32
      ensures FlatByte(mem', a) == if addr <= a < addr + |bytes| then bytes[a - addr] else FlatByte(mem, a)
    {
      if addr <= a < addr + |bytes| {
        PageStartUnique(a, start);
      }
    }
  }

  /** Storing into a cached page keeps the invariants, with the flat memory following. */
  lemma StoreKeepsInvariants(l: Layout, initial: map<u32, PageData>, c: Cipher, cs: Caches, b: Backing, k: Kind,
                             slot: nat, data: PageData)
    requires WellFormed(l, initial) && BackingInv(l, initial, c, b) && CachesInv(l, cs, b)
    requires k != Code && slot < |cs.Of(k)| && cs.Of(k)[slot].addr != 0
    ensures
      var p := cs.Of(k)[slot];
      var b' := b.(mem := b.mem[p.addr := data]);
      && p.addr in b.mem && p.data == b.mem[p.addr]
      && BackingInv(l, initial, c, b')
      && CachesInv(l, cs.With(k, cs.Of(k)[slot := p.(data := data)]), b')
  {
    hide BackingInv, CacheInv, WellFormed;
    var p := cs.Of(k)[slot];
    CachedPageIsCurrent(l, cs, b, k, slot);
    StoreKeepsBacking(l, initial, c, b, k, p.addr, data);
    var pages' := cs.Of(k)[slot := p.(data := data)];
    var cs', b' := cs.With(k, pages'), b.(mem := b.mem[p.addr := data]);
    assert pages'[slot].addr == p.addr;
    StoreKeepsOthers(l, initial, cs, b, k, p.addr, data);
    StoreKeepsOwn(l.Of(k), cs.Of(k), b, slot, data);
    forall a | a in b'.store && b'.store[a].data != b'.mem[a]
      ensures Has(cs'.stack, a) || Has(cs'.data, a)
    {
      if a != p.addr {
        SameAddrs(cs.Of(k), pages', a);
      }
    }
  }

  lemma HostIgnoresMemory(l: Layout, c: Cipher, b: Backing, mem: map<u32, PageData>, h: HostState)
    ensures HostInv(l, c, b.(mem := mem), h) == HostInv(l, c, b, h)
  {
  }

  lemma SameAddrs(pages: seq<Page>, pages': seq<Page>, a: u32)
    requires |pages| == |pages'| && forall i :: 0 <= i < |pages| ==> pages[i].addr == pages'[i].addr
    ensures Has(pages, a) <==> Has(pages', a)
  {
    if Has(pages, a) {
      var i :| 0 <= i < |pages| && pages[i].addr == a;
      assert pages'[i].addr == a;
    }
    if Has(pages', a) {
      var i :| 0 <= i < |pages'| && pages'[i].addr == a;
      assert pages[i].addr == a;
    }
  }

  lemma StoreKeepsBacking(l: Layout, initial: map<u32, PageData>, c: Cipher, b: Backing, k: Kind, addr: u32, data: PageData)
    requires WellFormed(l, initial) && BackingInv(l, initial, c, b)
    requires k != Code && l.Of(k).Contains(addr) && addr in b.mem
    ensures BackingInv(l, initial, c, b.(mem := b.mem[addr := data]))
  {
    var b' := b.(mem := b.mem[addr := data]);
    forall a | a in b'.store
      ensures GoodVersion(l, initial, a, b'.store[a], b'.mem[a])
    {
      assert GoodVersion(l, initial, a, b.store[a], b.mem[a]);
    }
    assert b'.mem.Keys == b'.store.Keys;
  }

  lemma StoreKeepsOthers(l: Layout, initial: map<u32, PageData>, cs: Caches, b: Backing, k: Kind, addr: u32, data: PageData)
    requires WellFormed(l, initial) && CachesInv(l, cs, b) && l.Of(k).Contains(addr) && addr in b.mem
    ensures
      var b' := b.(mem := b.mem[addr := data]);
      && (k != Code ==> CacheInv(l.code, cs.code, b'))
      && (k != Stack ==> CacheInv(l.stack, cs.stack, b'))
      && (k != Data ==> CacheInv(l.data, cs.data, b'))
  {
  }

  lemma StoreKeepsOwn(s: Section, pages: seq<Page>, b: Backing, slot: nat, data: PageData)
    requires CacheInv(s, pages, b) && slot < |pages| && pages[slot].addr != 0
    ensures CacheInv(s, pages[slot := pages[slot].(data := data)], b.(mem := b.mem[pages[slot].addr := data]))
  {
  }

  // ---- What an accepted reply means ----

  /** A tag the host could show for a page of the tree authenticates exactly its last committed version. */
  lemma AcceptedVersion(l: Layout, initial: map<u32, PageData>, c: Cipher, b: Backing, addr: u32, iv: u32, data: PageData)
    requires BackingInv(l, initial, c, b) && c.Valid()
    requires Hmac(KeyFor(iv), data, addr, iv) in b.seen
    requires IndexOf(b.entries, addr) >= 0 && b.entries[IndexOf(b.entries, addr)].iv == iv
    ensures addr in b.store && b.store[addr].iv == iv
    ensures b.store[addr].data == if iv == 0 then data else c.decrypt(data, addr, iv)
  {
    assert CurrentEntry(l, b.store, b.entries[IndexOf(b.entries, addr)]);
    assert GoodVersion(l, initial, addr, b.store[addr], b.mem[addr]);
    assert GoodTag(c, initial, b.store, Hmac(KeyFor(iv), data, addr, iv));
  }

  lemma AcceptedCodePage(l: Layout, initial: map<u32, PageData>, c: Cipher, b: Backing, addr: u32, data: PageData)
    requires BackingInv(l, initial, c, b)
    requires Hmac(StaticKey, data, addr, 0) in b.seen && l.code.Contains(addr)
    ensures addr in b.store && b.store[addr] == Version(data, 0)
  {
    assert GoodTag(c, initial, b.store, Hmac(StaticKey, data, addr, 0));
    assert GoodVersion(l, initial, addr, b.store[addr], b.mem[addr]);
  }

  // ---- The honest host answers ----

  lemma PathFits(m: nat, entries: seq<Entry>)
    requires m < |entries| <= 128
    ensures |Path(m, entries)| <= MAX_PROOF_STEPS
  {
    assert Pow(2, 7) == 128;
    PathLengthBound(m, entries, 7);
  }
}
