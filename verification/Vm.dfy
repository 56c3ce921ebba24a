/**
 The streaming virtual machine's memory: vm/src/stream.c (page requests and
 commits, guest loads and stores) over vm/src/memory.c (the three caches).

 The ghost map `mem` is the flat memory: the present contents of every existing
 page.  Every operation that succeeds leaves it as the flat operation would,
 whatever the host replied and whichever page was evicted; with an honest host,
 operations inside a section do succeed.
 */
module Vm {
  import opened Machine
  import opened MerkleTerms
  import opened Pages
  import opened PageCache
  import opened Protocol
  import opened HostMerkleTree
  import opened HostStream
  import opened DeviceMerkle
  import opened PagedState
  import opened HostLink

  datatype Prot = ReadOnly | ReadWrite

  /** Which cache serves a page: code may only be read. */
  function CacheFor(l: Layout, addr: u32, prot: Prot): Option<Kind> {
    if l.code.Contains(addr) then (if prot == ReadOnly then Some(Code) else None)
    else if l.data.Contains(addr) then Some(Data)
    else if l.stack.Contains(addr) then Some(Stack)
    else None
  }

  /** A buffer of guest memory that does not cross a page boundary (nor wrap around). */
  predicate FitsInPage(addr: u32, size: nat) {
    size == 0 || PageStart(addr) == PageStart(Wrap32(addr + size - 1))
  }

  method FitInPage(addr: u32, size: nat) returns (fits: bool)
    ensures fits == FitsInPage(addr, size)
    ensures size <= PAGE_SIZE ==> (fits <==> size <= BufferMaxSize(addr))
  {
    FitsIffRoom(addr, size);
    if size == 0 {
      return true;
    }
    fits := PageStart(addr) == PageStart(Wrap32(addr + size - 1));
  }

  lemma FitsIffRoom(addr: u32, size: nat)
    ensures size <= PAGE_SIZE ==> (FitsInPage(addr, size) <==> size <= BufferMaxSize(addr))
  {
    if 0 < size <= BufferMaxSize(addr) {
      WrapSmall(addr + size - 1);
      PageStartUnique(addr + size - 1, PageStart(addr));
    }
  }

  lemma SameBytes(mem: map<u32, PageData>, mem': map<u32, PageData>, addr: u32, n: nat)
    requires SameMemory(mem, mem') && addr + n <= U32_MAX + 1
    ensures FlatBytes(mem, addr, n) == FlatBytes(mem', addr, n)
  {
  }

  lemma OverwrittenFrom(mem: map<u32, PageData>, mem1: map<u32, PageData>, mem2: map<u32, PageData>, addr: u32, bytes: seq<u8>)
    requires SameMemory(mem, mem1) && Overwritten(mem1, mem2, addr, bytes)
    ensures Overwritten(mem, mem2, addr, bytes)
  {
  }

  function WordOf(bytes: seq<u8>): (value: u32)
    requires |bytes| <= 4
  {
    LittleEndianBound(bytes);
    PowMonotone(0x100, |bytes|, 4);
    assert Pow(0x100, 4) == 0x1_0000_0000;
    FromLittleEndian(bytes)
  }

  /** init_caches: three distinct caches with every slot free. */
  ghost predicate EmptyCaches(code: Cache, stack: Cache, data: Cache)
    reads code, code.pages, stack.pages, data.pages
  {
    && code != stack && code != data && stack != data
    && code.pages != stack.pages && code.pages != data.pages && stack.pages != data.pages
    && code.pages.Length > 0 && stack.pages.Length > 0 && data.pages.Length > 0
    && !code.writeable && stack.writeable && data.writeable && code.current == -1
    && AllFree(code.pages[..]) && AllFree(stack.pages[..]) && AllFree(data.pages[..])
  }

  class Device {
    const layout: Layout
    ghost const initial: map<u32, PageData>
    const cipher: Cipher
    const code: Cache
    const stack: Cache
    const data: Cache
    const merkle: MerkleContext
    const channel: Channel
    var bssMax: u32
    var stackMin: u32
    ghost var store: map<u32, Version>
    ghost var mem: map<u32, PageData>

    /**
     stream_init_app: the memory starts as the signed pages, nothing is cached,
     and the Merkle state comes from the manifest.
     */
    constructor (layout: Layout, ghost initial: map<u32, PageData>, cipher: Cipher,
                 channel: Channel, merkle: MerkleContext, code: Cache, stack: Cache, data: Cache)
      requires WellFormed(layout, initial) && cipher.Valid() && channel.Valid() && SignedTags(initial, channel.seen)
      requires merkle.Valid() && merkle.entries == BootEntries(layout)
      requires EmptyCaches(code, stack, data)
      requires channel.honest ==> HostInv(layout, cipher, BootBacking(layout, initial, channel.seen), channel.host.View())
      ensures Valid() && mem == initial && store == Signed(initial)
      ensures this.layout == layout && this.channel == channel && bssMax == layout.bss && stackMin == layout.stack.end
      ensures this.merkle == merkle && this.code == code && this.stack == stack && this.data == data
    {
      this.layout, this.initial, this.cipher, this.channel := layout, initial, cipher, channel;
      this.merkle, this.code, this.stack, this.data := merkle, code, stack, data;
      bssMax, stackMin := layout.bss, layout.stack.end;
      store := Signed(initial);
      mem := initial;
      new;
      hide WellFormed, BackingInv, HostInv, Frontier, CachesInv;
      BootInvariants(layout, initial, cipher, channel.seen);
      assert Backed() == BootBacking(layout, initial, channel.seen);
      BootCaches(layout, initial, Cached(), channel.seen);
    }

    ghost predicate Objects() {
      && code != stack && code != data && stack != data
      && code.pages != stack.pages && code.pages != data.pages && stack.pages != data.pages
      && code.pages.Length > 0 && stack.pages.Length > 0 && data.pages.Length > 0
      && !code.writeable && stack.writeable && data.writeable
    }

    function CacheOf(k: Kind): Cache {
      match k
      case Code => code
      case Stack => stack
      case Data => data
    }

    ghost function Cached(): Caches
      reads code.pages, stack.pages, data.pages
    {
      Caches(code.pages[..], stack.pages[..], data.pages[..])
    }

    ghost function HostIo(): Io
      reads channel.host, channel.host.merkletree
    {
      channel.host.View().io
    }

    ghost function Backed(): Backing
      reads this, merkle, channel
    {
      Backing(store, mem, merkle.entries, channel.seen)
    }

    /** The Merkle state, the tags and, if honest, the host agree with what was committed. */
    ghost predicate Linked()
      reads this, merkle, channel, channel.host, channel.host.merkletree
    {
      && merkle.Valid() && channel.Valid() && cipher.Valid()
      && BackingInv(layout, initial, cipher, Backed())
      && (channel.honest ==> HostInv(layout, cipher, Backed(), channel.host.View()))
    }

    ghost predicate Valid()
      reads this, code, code.pages, stack.pages, data.pages, merkle, channel, channel.host, channel.host.merkletree
    {
      && Objects() && WellFormed(layout, initial) && Linked()
      && CachesInv(layout, Cached(), Backed())
      && Frontier(layout, bssMax, stackMin, Backed())
      && -1 <= code.current < code.pages.Length
      && (code.current >= 0 ==> code.pages[code.current].addr != 0)
    }

    /** No page has used up its counter. */
    ghost predicate CountersLeft()
      reads this
    {
      forall a :: a in store ==> store[a].iv < U32_MAX
    }

    /** The device's own objects. */
    ghost function Own(): set<object> {
      {this, code, code.pages, stack.pages, data.pages, merkle}
    }

    ghost function Repr(): set<object> {
      {this, code, code.pages, stack.pages, data.pages, merkle, channel, channel.host, channel.host.merkletree}
    }

    /** The tree is not empty and has room for the new pages of an access. */
    ghost predicate RoomFor(k: Kind, addr: u32)
      reads this, merkle
    {
      0 < |merkle.entries| && |merkle.entries| + NewPages(k, bssMax, stackMin, addr) <= 128
    }

    /**
     An honest host can bring this page in: always for code; otherwise counters are left for the page
     given up, and the tree has room.
     */
    ghost predicate Servable(k: Kind, addr: u32)
      reads this, merkle
    {
      channel.honest && (k == Code || (CountersLeft() && RoomFor(k, addr)))
    }

    /** Bounds under which an honest host can serve: 128 entries, and a counter left to use. */
    ghost predicate Roomy()
      reads merkle
    {
      0 < |merkle.entries| <= 128
    }

    /**
     stream_request_page: retrieve, authenticate and decrypt a page.  An accepted
     page is the last committed version of the address, even from an arbitrary host.
     */
    method RequestPage(addr: u32, readOnly: bool) returns (ok: bool, page: Page)
      requires Linked() && Aligned(addr)
      requires readOnly <==> layout.code.Contains(addr)
      modifies channel`seen, channel.host, channel.host.merkletree
      ensures channel.seen == old(channel.seen)
      ensures ok ==> addr in store && page == Page(addr, store[addr].data, store[addr].iv)
      ensures ok ==> Linked()
      ensures channel.honest && addr in store && (readOnly || Roomy()) ==> ok
      ensures channel.honest && ok ==> channel.host.View() == old(channel.host.View())
    {
      hide EntriesInv, GoodTags, HostCopy;
      ghost var h := channel.host.View();
      ghost var served := channel.honest && addr in store;
      ghost var b := Backed();
      var bytes, iv;
      ok, bytes := FetchPage(channel, addr, served, layout, cipher, b);
      page := Page(addr, bytes, 0);
      if !ok {
        return;
      }
      ok, iv := FetchTag(channel, addr, bytes, served, layout, cipher, b, h);
      if !ok {
        return;
      }
      page := Page(addr, if iv == 0 then bytes else cipher.decrypt(bytes, addr, iv), iv);
      if readOnly {
        if served {
          assert GoodVersion(layout, initial, addr, b.store[addr], b.mem[addr]);
        }
        ok := iv == 0;
        if ok {
          AcceptedCodePage(layout, initial, cipher, b, addr, bytes);
        }
        return;
      }
      ok := CheckCounter(channel, merkle, Entry(addr, iv), served, layout, cipher, b, h);
      if ok {
        AcceptedVersion(layout, initial, cipher, b, addr, iv, bytes);
      }
    }

    /**
     stream_commit_page: encrypt and authenticate the next version of a page and
     have the host record it; an existing page replaces its entry, a new one is
     appended.
     */
    method CommitPage(page: Page, insert: bool) returns (ok: bool, iv: u32)
      requires Linked() && Aligned(page.addr) && InSection(layout, page.addr) && !layout.code.Contains(page.addr)
      requires insert ==> page.addr !in store && page.iv == 0
      requires !insert ==> page.addr in store && page.iv == store[page.addr].iv
      modifies this`store, this`mem, merkle, channel`seen, channel.host, channel.host.merkletree
      ensures ok ==> page.iv < U32_MAX && iv == page.iv + 1
      ensures ok ==> Linked() && Backed() == Committed(cipher, old(Backed()), page.(iv := iv))
      ensures channel.honest && old(Roomy()) && page.iv < U32_MAX ==> ok
      ensures channel.honest && ok ==> channel.host.View().io == old(channel.host.View().io)
    {
      hide EntriesInv, GoodTags, HostInv, StoreInv;
      iv := page.iv;
      if page.iv == U32_MAX {
        return false, iv;
      }
      iv := page.iv + 1;
      var next := page.(iv := iv);
      ghost var b := Backed();
      CommitKeepsBacking(layout, initial, cipher, b, next);
      var proof;
      ok, proof := SendVersion(channel, next, cipher, layout, b);
      if !ok {
        return;
      }
      ok := RecordVersion(merkle, next, proof, insert, layout, cipher, b);
      store, mem := store[page.addr := Version(page.data, iv)], mem[page.addr := page.data];
    }

    /** Commit a zero page at `addr`, using slot n as scratch. */
    method CreateEmptyPage(k: Kind, n: nat, addr: u32, ghost b0: Backing, ghost from: u32) returns (ok: bool)
      requires Objects() && WellFormed(layout, initial) && Linked() && n < CacheOf(k).pages.Length
      requires CachesInv(layout, Cached().Without(k, n), Backed()) && Grown(b0, Backed(), from, addr)
      requires k != Code && Aligned(from) && Aligned(addr) && from <= addr <= U32_MAX - PAGE_SIZE
      requires layout.Of(k).Contains(addr) && addr !in b0.store
      modifies this`store, this`mem, merkle, channel`seen, channel.host, channel.host.merkletree, CacheOf(k).pages
      ensures Cached().Without(k, n) == old(Cached().Without(k, n))
      ensures ok ==> Linked() && CachesInv(layout, Cached().Without(k, n), Backed())
      ensures ok ==> Grown(b0, Backed(), from, addr + PAGE_SIZE)
      ensures channel.honest && old(Roomy()) ==> ok
      ensures channel.honest && ok ==> HostIo() == old(HostIo())
    {
      hide BackingInv, CachesInv, HostInv, WellFormed, Grown;
      var pages := CacheOf(k).pages;
      var page := Page(addr, ZeroPage(), 0);
      ghost var all := Cached();
      CreatedPage(layout, initial, cipher, all.Without(k, n), b0, Backed(), k, from, addr);
      var iv;
      ok, iv := CommitPage(page, true);
      pages[n] := page.(iv := iv);
      RemoveIgnoresSlot(all.Of(k), n, pages[n]);
      assert Cached() == all.With(k, all.Of(k)[n := pages[n]]);
    }

    /** create_empty_pages: zero pages at every page address from `from` up to `to`. */
    method CreateEmptyPages(k: Kind, n: nat, from: u32, to: u32) returns (ok: bool)
      requires Objects() && WellFormed(layout, initial) && Linked() && n < CacheOf(k).pages.Length
      requires CachesInv(layout, Cached().Without(k, n), Backed())
      requires k != Code && Aligned(from) && Aligned(to) && from <= to
      requires forall a: u32 :: from <= a < to ==> layout.Of(k).Contains(a) && a !in store
      modifies this`store, this`mem, merkle, channel`seen, channel.host, channel.host.merkletree, CacheOf(k).pages
      ensures Cached().Without(k, n) == old(Cached().Without(k, n))
      ensures ok ==> Linked() && CachesInv(layout, Cached().Without(k, n), Backed())
      ensures ok ==> Grown(old(Backed()), Backed(), from, to)
      ensures channel.honest && old(0 < |merkle.entries|) && old(|merkle.entries|) + (to - from) / PAGE_SIZE <= 128 ==> ok
      ensures channel.honest && ok ==> HostIo() == old(HostIo())
    {
      hide BackingInv, CachesInv, HostInv, WellFormed, Grown;
      ghost var b0 := Backed();
      NoneGrown(layout, initial, cipher, b0, from);
      var addr: u32 := from;
      ok := true;
      while addr < to
        invariant Aligned(addr) && from <= addr <= to
        invariant Cached().Without(k, n) == old(Cached().Without(k, n))
        invariant Linked() && CachesInv(layout, Cached().Without(k, n), Backed()) && Grown(b0, Backed(), from, addr)
        invariant channel.honest ==> HostIo() == old(HostIo())
        decreases (to as int) - (addr as int)
      {
        GrownEntries(b0, Backed(), from, addr);
        ok := CreateEmptyPage(k, n, addr, b0, from);
        if !ok {
          return;
        }
        addr := addr + PAGE_SIZE;
      }
    }

    /** Commit the page in a slot that is about to be given up. */
    method CommitSlot(k: Kind, n: nat) returns (ok: bool)
      requires Valid() && k != Code && n < CacheOf(k).pages.Length && CacheOf(k).pages[n].addr != 0
      modifies this`store, this`mem, merkle, channel`seen, channel.host, channel.host.merkletree, CacheOf(k).pages
      ensures Cached().Without(k, n) == old(Cached().Without(k, n))
      ensures ok ==> Linked() && CachesInv(layout, Cached().Without(k, n), Backed())
      ensures ok ==> mem == old(mem) && store.Keys == old(store.Keys) && |merkle.entries| == old(|merkle.entries|)
      ensures ok ==> Aged(old(store), store)
      ensures channel.honest && old(Roomy() && CountersLeft()) ==> ok
      ensures channel.honest && ok ==> HostIo() == old(HostIo())
    {
      hide BackingInv, CachesInv, HostInv, Frontier, WellFormed, Aged;
      var pages := CacheOf(k).pages;
      var page := pages[n];
      ghost var cs := Cached();
      assert page == cs.Of(k)[n];
      EvictedSlot(layout, initial, cipher, cs, Backed(), k, n);
      var iv;
      ok, iv := CommitPage(page, false);
      pages[n] := page.(iv := iv);
      RemoveIgnoresSlot(cs.Of(k), n, pages[n]);
      assert Cached() == cs.With(k, cs.Of(k)[n := pages[n]]);
    }

    /** The first half of create_page: pick a slot and commit the writeable page it holds, if any. */
    method EvictPage(k: Kind) returns (ok: bool, n: nat)
      requires Valid()
      modifies this`store, this`mem, merkle, channel`seen, channel.host, channel.host.merkletree, CacheOf(k).pages
      ensures n < CacheOf(k).pages.Length && (old(CacheOf(k).pages[0].addr) == 0 ==> n == 0)
      ensures Cached().Without(k, n) == old(Cached()).Without(k, n)
      ensures ok ==> Linked() && CachesInv(layout, Cached().Without(k, n), Backed())
      ensures ok ==> mem == old(mem) && store.Keys == old(store.Keys) && |merkle.entries| == old(|merkle.entries|)
      ensures ok ==> Aged(old(store), store)
      ensures k == Code || (channel.honest && old(Roomy() && CountersLeft())) ==> ok
      ensures channel.honest && ok ==> HostIo() == old(HostIo())
    {
      hide EntriesInv, GoodTags, HostInv, Clean, CacheInv, Aged;
      var cache := CacheOf(k);
      n := cache.Evict();
      ok := true;
      if cache.writeable && cache.pages[n].addr != 0 {
        ok := CommitSlot(k, n);
      } else {
        NotAged(store);
        assert Cached().Of(k)[n] == cache.pages[n];
        DropKeepsCaches(layout, Cached(), Backed(), k, n);
      }
    }

    /** Create the heap pages from bss_max up to an address beyond it. */
    method ExtendHeap(n: nat, addr: u32) returns (ok: bool)
      requires Objects() && WellFormed(layout, initial) && Linked() && n < data.pages.Length
      requires CachesInv(layout, Cached().Without(Data, n), Backed()) && Frontier(layout, bssMax, stackMin, Backed())
      requires Aligned(addr) && layout.data.Contains(addr) && addr >= bssMax
      modifies this`store, this`mem, this`bssMax, merkle, channel`seen, channel.host, channel.host.merkletree, data.pages
      ensures Cached().Without(Data, n) == old(Cached().Without(Data, n))
      ensures ok ==> Linked() && CachesInv(layout, Cached().Without(Data, n), Backed())
      ensures ok ==> Frontier(layout, bssMax, stackMin, Backed()) && SameMemory(old(mem), mem) && IsZeroPage(Backed(), addr)
      ensures ok ==> Kept(old(store), store) && bssMax == addr + PAGE_SIZE
      ensures channel.honest && old(0 < |merkle.entries| && |merkle.entries| + (addr + PAGE_SIZE - bssMax) / PAGE_SIZE <= 128) ==> ok
      ensures channel.honest && ok ==> HostIo() == old(HostIo())
    {
      hide BackingInv, CachesInv, HostInv, WellFormed, Frontier, SameMemory, Grown, IsZeroPage, Aligned, Kept;
      ghost var b := Backed();
      AccessCases(layout, initial, Data, bssMax, stackMin, b, addr);
      assert Aligned(addr + PAGE_SIZE) by {
        NextAligned(addr);
      }
      ok := CreateEmptyPages(Data, n, bssMax, addr + PAGE_SIZE);
      if ok {
        HeapAccess(layout, initial, bssMax, stackMin, b, Backed(), addr);
        bssMax := addr + PAGE_SIZE;
      }
    }

    /** Create the stack pages from stack_min down to an address below it. */
    method ExtendStack(n: nat, addr: u32) returns (ok: bool)
      requires Objects() && WellFormed(layout, initial) && Linked() && n < stack.pages.Length
      requires CachesInv(layout, Cached().Without(Stack, n), Backed()) && Frontier(layout, bssMax, stackMin, Backed())
      requires Aligned(addr) && layout.stack.Contains(addr) && addr < stackMin
      modifies this`store, this`mem, this`stackMin, merkle, channel`seen, channel.host, channel.host.merkletree, stack.pages
      ensures Cached().Without(Stack, n) == old(Cached().Without(Stack, n))
      ensures ok ==> Linked() && CachesInv(layout, Cached().Without(Stack, n), Backed())
      ensures ok ==> Frontier(layout, bssMax, stackMin, Backed()) && SameMemory(old(mem), mem) && IsZeroPage(Backed(), addr)
      ensures ok ==> Kept(old(store), store) && stackMin == addr
      ensures channel.honest && old(0 < |merkle.entries| && |merkle.entries| + (stackMin - addr) / PAGE_SIZE <= 128) ==> ok
      ensures channel.honest && ok ==> HostIo() == old(HostIo())
    {
      hide BackingInv, CachesInv, HostInv, WellFormed, Frontier, SameMemory, Grown, IsZeroPage, Aligned, Kept;
      ghost var b := Backed();
      AccessCases(layout, initial, Stack, bssMax, stackMin, b, addr);
      ok := CreateEmptyPages(Stack, n, addr, stackMin);
      if ok {
        StackAccess(layout, initial, bssMax, stackMin, b, Backed(), addr);
        stackMin := addr;
      }
    }

    /** The second half of create_page: fill slot n with the page at `addr`, creating zero pages on the way to a new one. */
    method FillSlot(k: Kind, n: nat, addr: u32) returns (ok: bool)
      requires Objects() && WellFormed(layout, initial) && Linked() && n < CacheOf(k).pages.Length
      requires CachesInv(layout, Cached().Without(k, n), Backed()) && Frontier(layout, bssMax, stackMin, Backed())
      requires Aligned(addr) && layout.Of(k).Contains(addr)
      modifies this, merkle, channel`seen, channel.host, channel.host.merkletree, CacheOf(k).pages
      ensures Cached().Without(k, n) == old(Cached().Without(k, n))
      ensures ok ==> Linked() && CachesInv(layout, Cached().Without(k, n), Backed())
      ensures ok ==> Frontier(layout, bssMax, stackMin, Backed()) && SameMemory(old(mem), mem) && Kept(old(store), store)
      ensures ok ==> addr in store && CacheOf(k).pages[n] == Page(addr, store[addr].data, store[addr].iv)
      ensures ok ==> bssMax == HeapAfter(k, old(bssMax), addr) && stackMin == StackAfter(k, old(stackMin), addr)
      ensures channel.honest && (k == Code || old(RoomFor(k, addr))) ==> ok
      ensures channel.honest && ok ==> HostIo() == old(HostIo())
    {
      hide BackingInv, Linked, CachesInv, HostInv, WellFormed, Frontier, SameMemory, Aligned, Kept;
      CodeSection(layout, initial, k, addr);
      AccessCases(layout, initial, k, bssMax, stackMin, Backed(), addr);
      SameMemoryReflexive(mem);
      NotAged(store);
      var zeroPage := false;
      ok := true;
      if k == Data {
        if addr >= bssMax {
          ok := ExtendHeap(n, addr);
          zeroPage := true;
        }
      } else if k == Stack {
        if addr < stackMin {
          ok := ExtendStack(n, addr);
          zeroPage := true;
        }
      }
      if !ok {
        return;
      }
      var pages := CacheOf(k).pages;
      ghost var all := Cached();
      var page := Page(addr, ZeroPage(), 1);
      if !zeroPage {
        ok, page := RequestPage(addr, !CacheOf(k).writeable);
      }
      pages[n] := page;
      RemoveIgnoresSlot(all.Of(k), n, page);
      assert Cached() == all.With(k, all.Of(k)[n := page]);
    }

    /** Put the page of a filled slot in order. */
    method Settle(k: Kind, n: nat, addr: u32) returns (slot: nat)
      requires Objects() && WellFormed(layout, initial) && Linked() && n < CacheOf(k).pages.Length
      requires CachesInv(layout, Cached().Without(k, n), Backed()) && Frontier(layout, bssMax, stackMin, Backed())
      requires layout.Of(k).Contains(addr) && Uncached(Cached().Without(k, n), addr)
      requires addr in store && CacheOf(k).pages[n] == Page(addr, store[addr].data, store[addr].iv)
      modifies CacheOf(k).pages
      ensures CachesInv(layout, Cached(), Backed())
      ensures slot < CacheOf(k).pages.Length && CacheOf(k).pages[slot] == old(CacheOf(k).pages[n])
      ensures CacheOf(k).pages[..] == InsertAt(RemoveAt(old(CacheOf(k).pages[..]), n), slot, old(CacheOf(k).pages[n]))
    {
      hide BackingInv, HostInv, WellFormed, Frontier, CacheInv, Clean, Sorted;
      CodeSection(layout, initial, k, addr);
      ghost var all := Cached();
      CachesAreSorted(layout, all.Without(k, n), Backed(), k);
      slot := CacheOf(k).Reorder(n);
      LoadKeepsCaches(layout, all.Without(k, n), Backed(), k, slot, CacheOf(k).pages[slot]);
      assert Cached() == all.Without(k, n).With(k, CacheOf(k).pages[..]);
    }

    /** Fill slot n, whose page was given up, with another page of the same cache and put it in order. */
    method ReplacePage(k: Kind, n: nat, addr: u32) returns (ok: bool, slot: nat)
      requires Objects() && WellFormed(layout, initial) && Linked() && n < CacheOf(k).pages.Length
      requires CachesInv(layout, Cached().Without(k, n), Backed()) && Frontier(layout, bssMax, stackMin, Backed())
      requires Aligned(addr) && layout.Of(k).Contains(addr) && Uncached(Cached().Without(k, n), addr)
      modifies this, merkle, channel`seen, channel.host, channel.host.merkletree, CacheOf(k).pages
      ensures ok ==> Linked() && CachesInv(layout, Cached(), Backed())
      ensures ok ==> Frontier(layout, bssMax, stackMin, Backed()) && SameMemory(old(mem), mem) && Kept(old(store), store)
      ensures ok ==> slot < CacheOf(k).pages.Length && CacheOf(k).pages[slot].addr == addr
      ensures ok ==> CacheOf(k).pages[..] == InsertAt(RemoveAt(old(CacheOf(k).pages[..]), n), slot, CacheOf(k).pages[slot])
      ensures ok ==> bssMax == HeapAfter(k, old(bssMax), addr) && stackMin == StackAfter(k, old(stackMin), addr)
      ensures channel.honest && (k == Code || old(RoomFor(k, addr))) ==> ok
      ensures channel.honest && ok ==> HostIo() == old(HostIo())
    {
      hide Linked, WellFormed, CachesInv, SameMemory, Aligned, Frontier, Uncached, Sorted, Kept, Aged;
      ghost var others := RemoveAt(CacheOf(k).pages[..], n);
      slot := n;
      ok := FillSlot(k, n, addr);
      if ok {
        assert RemoveAt(Cached().Of(k), n) == others;
        slot := Settle(k, n, addr);
      }
    }

    /** The slot is one of cache k and holds the present contents of the page of `addr`. */
    ghost predicate Holds(k: Kind, slot: nat, addr: u32)
      reads this, code.pages, stack.pages, data.pages
    {
      && slot < CacheOf(k).pages.Length
      && var page := CacheOf(k).pages[slot];
         page.addr == PageStart(addr) && page.addr != 0 && page.addr in mem && page.data == mem[page.addr]
    }

    /** find_page: the slot of a page, or -1. */
    method FindPage(k: Kind, addr: u32) returns (n: int)
      requires Valid() && Aligned(addr) && addr != 0
      ensures n < CacheOf(k).pages.Length
      ensures n >= 0 ==> Holds(k, n, addr)
      ensures n >= 0 && layout.Of(k).Contains(addr) ==> HeapAfter(k, bssMax, addr) == bssMax && StackAfter(k, stackMin, addr) == stackMin
      ensures n < 0 ==> !Has(Cached().Of(k), addr)
    {
      hide Linked, WellFormed, CachesInv, Frontier, Aligned;
      CachesAreSorted(layout, Cached(), Backed(), k);
      assert CacheOf(k).pages[..] == Cached().Of(k);
      n := CacheOf(k).BinarySearch(addr);
      if n >= 0 {
        CachedPageIsCurrent(layout, Cached(), Backed(), k, n);
        PageStartUnique(addr, addr);
        if layout.Of(k).Contains(addr) {
          ExistingReach(layout, initial, k, bssMax, stackMin, Backed(), addr);
        }
      }
    }

    /** create_page: bring a page that is not cached into its cache. */
    method CreatePage(k: Kind, addr: u32) returns (ok: bool, slot: nat)
      requires Valid() && Aligned(addr) && layout.Of(k).Contains(addr) && !Has(Cached().Of(k), addr)
      modifies this, merkle, channel`seen, channel.host, channel.host.merkletree, CacheOf(k).pages
      ensures ok ==> Valid() && Aged(old(store), store) && SameMemory(old(mem), mem)
      ensures ok ==> Holds(k, slot, addr)
      ensures ok ==> bssMax == HeapAfter(k, old(bssMax), addr) && stackMin == StackAfter(k, old(stackMin), addr)
      ensures old(Servable(k, addr)) ==> ok
      ensures channel.honest && ok ==> HostIo() == old(HostIo())
    {
      hide Linked, WellFormed, CachesInv, SameMemory, Aligned, Frontier, Uncached, Sorted, Kept, Aged;
      ghost var all, b := Cached(), Backed();
      CodeSection(layout, initial, k, addr);
      MissIsUncached(layout, initial, all, b, k, addr);
      CachesAreSorted(layout, all, b, k);
      var n;
      ok, n := EvictPage(k);
      slot := n;
      if !ok {
        return;
      }
      UncachedWithout(all, k, n, addr);
      FrontierFromKeys(layout, bssMax, stackMin, b, Backed());
      ghost var evicted := store;
      ok, slot := ReplacePage(k, n, addr);
      if ok {
        AgedThenKept(old(store), evicted, store);
        ReplacedSlotsStayUsed(all.Of(k), n, slot, CacheOf(k).pages[slot]);
        CachedPageIsCurrent(layout, Cached(), Backed(), k, slot);
        PageStartUnique(addr, addr);
      }
    }

    /** get_cache: the section of a page, unless code would be written. */
    method GetCache(addr: u32, prot: Prot) returns (k: Option<Kind>)
      ensures k == CacheFor(layout, addr, prot)
      ensures k.Some? ==> layout.Of(k.value).Contains(addr) && (k.value == Code ==> prot == ReadOnly)
      ensures k.None? <==> !InSection(layout, addr) || (layout.code.Contains(addr) && prot == ReadWrite)
      ensures WellFormed(layout, initial) ==> forall j: Kind :: k.Some? && layout.Of(j).Contains(addr) ==> j == k.value
    {
      if layout.code.Contains(addr) {
        if prot != ReadOnly {
          return None;
        }
        k := Some(Code);
      } else if layout.data.Contains(addr) {
        k := Some(Data);
      } else if layout.stack.Contains(addr) {
        k := Some(Stack);
      } else {
        k := None;
      }
    }

    /** The page of `addr` is cached, or an honest host can bring it in. */
    ghost predicate ServesAccess(addr: u32, prot: Prot)
      reads this, merkle, code.pages, stack.pages, data.pages
    {
      var (start, k) := (PageStart(addr), CacheFor(layout, PageStart(addr), prot));
      k.Some? && (Has(Cached().Of(k.value), start) || Servable(k.value, start))
    }

    /** The frontiers moved as far as the access required. */
    ghost predicate Reached(addr: u32, prot: Prot, oldBssMax: u32, oldStackMin: u32)
      reads this
    {
      var start := PageStart(addr);
      var k := CacheFor(layout, start, prot);
      k.Some? && bssMax == HeapAfter(k.value, oldBssMax, start) && stackMin == StackAfter(k.value, oldStackMin, start)
    }

    /** get_page: the slot of the page of `addr`, fetched if it is not cached.  The flat memory does not change. */
    method GetPage(addr: u32, prot: Prot) returns (ok: bool, k: Kind, slot: nat)
      requires Valid()
      modifies Repr()
      ensures ok ==> Valid() && Aged(old(store), store) && SameMemory(old(mem), mem) && Holds(k, slot, addr)
      ensures ok ==> CacheFor(layout, PageStart(addr), prot) == Some(k)
      ensures ok ==> Reached(addr, prot, old(bssMax), old(stackMin))
      ensures old(ServesAccess(addr, prot)) ==> ok
      ensures channel.honest && ok ==> HostIo() == old(HostIo())
    {
      hide Linked, WellFormed, CachesInv, SameMemory, Frontier, Aligned, Aged;
      var start := PageStart(addr);
      var cache := GetCache(start, prot);
      k, slot := Code, 0;
      if cache.None? {
        return false, k, slot;
      }
      k := cache.value;
      CodeSection(layout, initial, k, start);
      SameMemoryReflexive(mem);
      NotAged(store);
      PageStartUnique(start, start);
      var n := FindPage(k, start);
      if n >= 0 {
        ok, slot := true, n;
      } else {
        ok, slot := CreatePage(k, start);
      }
    }

    /**
     get_code_page: the slot last fetched is tried first; it still holds its page however the cache was
     reordered since.
     */
    method GetCodePage(addr: u32) returns (ok: bool, slot: nat)
      requires Valid() && Aligned(addr)
      modifies Repr()
      ensures ok ==> Valid() && Aged(old(store), store) && SameMemory(old(mem), mem)
      ensures ok ==> Holds(Code, slot, addr) && layout.code.Contains(addr)
      ensures ok ==> bssMax == old(bssMax) && stackMin == old(stackMin)
      ensures layout.code.Contains(addr) && old(channel.honest || Has(Cached().Of(Code), addr)) ==> ok
      ensures !layout.code.Contains(addr) ==> !ok
      ensures channel.honest && ok ==> HostIo() == old(HostIo())
    {
      hide Linked, WellFormed, CachesInv, SameMemory, Frontier, Aligned, Aged;
      SameMemoryReflexive(mem);
      NotAged(store);
      PageStartUnique(addr, addr);
      if code.current != -1 && code.pages[code.current].addr == addr {
        CachedPageIsCurrent(layout, Cached(), Backed(), Code, code.current);
        return true, code.current;
      }
      if !layout.code.Contains(addr) {
        return false, 0;
      }
      CodeSection(layout, initial, Code, addr);
      var n := FindPage(Code, addr);
      if n >= 0 {
        return true, n;
      }
      ok, slot := CreatePage(Code, addr);
      if ok {
        code.current := slot;
      }
    }

    /** Write bytes through a page pointer: the flat memory changes there and only there. */
    method StoreBytes(k: Kind, slot: nat, addr: u32, bytes: seq<u8>)
      requires Valid() && Holds(k, slot, addr) && k != Code && |bytes| <= BufferMaxSize(addr)
      modifies this`mem, CacheOf(k).pages
      ensures Valid() && store == old(store) && Overwritten(old(mem), mem, addr, bytes)
      ensures HostIo() == old(HostIo())
    {
      hide HostInv, WellFormed, CachesInv, Frontier, BackingInv, Overwritten;
      ghost var all, b := Cached(), Backed();
      var page := CacheOf(k).pages[slot];
      var data := Patch(page.data, addr - PageStart(addr), bytes);
      assert all.Of(k)[slot] == page;
      StoreKeepsInvariants(layout, initial, cipher, all, b, k, slot, data);
      FrontierFromKeys(layout, bssMax, stackMin, b, b.(mem := b.mem[page.addr := data]));
      HostIgnoresMemory(layout, cipher, b, b.mem[page.addr := data], channel.host.View());
      PatchOverwrites(mem, addr, bytes);
      CacheOf(k).pages[slot] := page.(data := data);
      mem := mem[page.addr := data];
      assert Cached() == all.With(k, all.Of(k)[slot := page.(data := data)]);
    }

    /** The bytes under a page pointer. */
    method LoadBytes(k: Kind, slot: nat, addr: u32, n: nat) returns (bytes: seq<u8>)
      requires Valid() && Holds(k, slot, addr) && n <= BufferMaxSize(addr)
      ensures addr + n <= U32_MAX + 1 && bytes == FlatBytes(mem, addr, n)
    {
      PageHoldsFlatBytes(mem, addr, n);
      var offset := addr - PageStart(addr);
      bytes := CacheOf(k).pages[slot].data[offset..offset + n];
    }

    /** mem_read, for the sizes the CPU uses: the little-endian value in the flat memory. */
    method MemRead(addr: u32, size: nat) returns (ok: bool, value: u32)
      requires Valid() && size in {1, 2, 4}
      modifies Repr()
      ensures ok ==> Valid() && Aged(old(store), store) && SameMemory(old(mem), mem) && FitsInPage(addr, size)
      ensures ok ==> addr + size <= U32_MAX + 1 && value == FromLittleEndian(FlatBytes(old(mem), addr, size))
      ensures ok ==> Reached(addr, ReadOnly, old(bssMax), old(stackMin))
      ensures FitsInPage(addr, size) && old(ServesAccess(addr, ReadOnly)) ==> ok
      ensures channel.honest && ok ==> HostIo() == old(HostIo())
    {
      hide Linked, WellFormed, CachesInv, SameMemory, Frontier, Aligned, Aged;
      value := 0;
      ok := FitInPage(addr, size);
      if !ok {
        return;
      }
      var k, slot;
      ok, k, slot := GetPage(addr, ReadOnly);
      if !ok {
        return;
      }
      var bytes := LoadBytes(k, slot, addr, size);
      SameBytes(old(mem), mem, addr, size);
      value := WordOf(bytes);
    }

    /** mem_write, for the sizes the CPU uses: the low bytes of the value go to the flat memory. */
    method MemWrite(addr: u32, size: nat, value: u32) returns (ok: bool)
      requires Valid() && size in {1, 2, 4}
      modifies Repr()
      ensures ok ==> Valid() && Aged(old(store), store) && FitsInPage(addr, size)
      ensures ok ==> Overwritten(old(mem), mem, addr, ToLittleEndian(value, size))
      ensures ok ==> Reached(addr, ReadWrite, old(bssMax), old(stackMin))
      ensures FitsInPage(addr, size) && old(ServesAccess(addr, ReadWrite)) ==> ok
      ensures channel.honest && ok ==> HostIo() == old(HostIo())
    {
      hide Linked, WellFormed, CachesInv, SameMemory, Frontier, Aligned, Overwritten, Aged;
      ok := FitInPage(addr, size);
      if !ok {
        return;
      }
      var k, slot;
      ok, k, slot := GetPage(addr, ReadWrite);
      if !ok {
        return;
      }
      if addr - PageStart(addr) > PAGE_SIZE - size {
        return false;
      }
      ghost var before := mem;
      StoreBytes(k, slot, addr, ToLittleEndian(value, size));
      OverwrittenFrom(old(mem), before, mem, addr, ToLittleEndian(value, size));
    }

    /** get_instruction: the word at the program counter. */
    method GetInstruction(addr: u32) returns (ok: bool, instruction: u32)
      requires Valid()
      modifies Repr()
      ensures ok ==> Valid() && Aged(old(store), store) && SameMemory(old(mem), mem)
      ensures ok ==> FitsInPage(addr, 4) && layout.code.Contains(PageStart(addr))
      ensures ok ==> addr + 4 <= U32_MAX + 1 && instruction == FromLittleEndian(FlatBytes(old(mem), addr, 4))
      ensures ok ==> bssMax == old(bssMax) && stackMin == old(stackMin)
      ensures FitsInPage(addr, 4) && layout.code.Contains(PageStart(addr)) && old(ServesAccess(addr, ReadOnly)) ==> ok
      ensures channel.honest && ok ==> HostIo() == old(HostIo())
    {
      hide Linked, WellFormed, CachesInv, SameMemory, Frontier, Aligned, Aged;
      instruction := 0;
      ok := FitInPage(addr, 4);
      if !ok {
        return;
      }
      var slot;
      ok, slot := GetCodePage(PageStart(addr));
      if !ok {
        return;
      }
      PageStartUnique(PageStart(addr), PageStart(addr));
      var bytes := LoadBytes(Code, slot, addr, 4);
      SameBytes(old(mem), mem, addr, 4);
      instruction := WordOf(bytes);
    }
  }

  /** Send the sealed next version of a page and its tag; what comes back is a proof. */
  method SendVersion(channel: Channel, page: Page, c: Cipher, ghost l: Layout, ghost b: Backing)
      returns (ok: bool, proof: seq<ProofStep>)
    requires channel.Valid() && channel.seen == b.seen && EntriesInv(l, b) && NextVersion(l, b, page)
    requires channel.honest ==> HostInv(l, c, b, channel.host.View())
    modifies channel`seen, channel.host, channel.host.merkletree
    ensures channel.Valid()
    ensures ok ==> channel.seen == b.seen + {TagOf(c, page)} && |proof| <= MAX_PROOF_STEPS
    ensures channel.honest && 0 < |b.entries| <= 128 ==>
      ok && Proves(proof, ProvedOnCommit(b.entries, page.addr), b.entries)
    ensures channel.honest && ok ==>
      HostInv(l, c, Committed(c, b, page), channel.host.View()) && channel.host.View().io == old(channel.host.View().io)
  {
    if channel.honest {
      HonestCommits(l, c, b, channel.host.View(), page);
    }
    proof := [];
    var sealed := c.encrypt(page.data, page.addr, page.iv);
    var reply := channel.IoExchange(CommitPage(sealed));
    if !reply.Ack? {
      return false, [];
    }
    reply := channel.IoExchange(CommitHmac(page.addr, page.iv, Hmac(KeyFor(page.iv), sealed, page.addr, page.iv)));
    ok := reply.ProofReply?;
    if ok {
      proof := reply.proof;
    }
  }

  /** Have the Merkle state follow a commit: append the entry of a new page, or replace the one of the version before. */
  method RecordVersion(merkle: MerkleContext, next: Page, proof: seq<ProofStep>, insert: bool,
                       ghost l: Layout, ghost c: Cipher, ghost b: Backing)
      returns (ok: bool)
    requires merkle.Valid() && merkle.entries == b.entries && EntriesInv(l, b) && |proof| <= MAX_PROOF_STEPS
    requires NextVersion(l, b, next) && (insert <==> next.addr !in b.store)
    modifies merkle
    ensures merkle.Valid()
    ensures ok ==> merkle.entries == Recorded(b.entries, Entry(next.addr, next.iv))
    ensures 0 < |b.entries| <= 128 && Proves(proof, ProvedOnCommit(b.entries, next.addr), b.entries) ==> ok
  {
    EntryIffExists(l, b, next.addr);
    var entry := Entry(next.addr, next.iv);
    if insert {
      ok := merkle.Insert(entry, proof);
    } else {
      ok := merkle.Update(Entry(next.addr, next.iv - 1), entry, proof);
    }
  }

  /** Retrieve the bytes of a page. */
  method FetchPage(channel: Channel, addr: u32, ghost served: bool, ghost l: Layout, ghost c: Cipher, ghost b: Backing)
      returns (ok: bool, bytes: PageData)
    requires channel.Valid() && channel.seen == b.seen
    requires served ==> channel.honest && Aligned(addr) && addr in b.store && HostInv(l, c, b, channel.host.View())
    modifies channel`seen, channel.host, channel.host.merkletree
    ensures channel.Valid() && channel.seen == old(channel.seen)
    ensures served ==> ok && bytes == HostCopy(l, c, addr, b.store[addr]).data
    ensures served ==> channel.host.View() == HostStep(old(channel.host.View()), Command.RequestPage(addr)).0
  {
    if served {
      HonestServes(l, c, b, channel.host.View(), addr);
    }
    bytes := ZeroPage();
    var reply := channel.IoExchange(Command.RequestPage(addr));
    ok := reply.PageReply? && |reply.rest| == PAGE_SIZE - 1;
    if ok {
      bytes := [reply.first] + reply.rest;
    }
  }

  /** Retrieve the counter and tag of the page, and compare the tag with the one computed. */
  method FetchTag(channel: Channel, addr: u32, bytes: PageData, ghost served: bool,
                  ghost l: Layout, ghost c: Cipher, ghost b: Backing, ghost h: HostState)
      returns (ok: bool, iv: u32)
    requires channel.Valid() && channel.seen == b.seen
    requires served ==> channel.honest && Aligned(addr) && addr in b.store && HostInv(l, c, b, h)
    requires served ==> channel.host.View() == HostStep(h, Command.RequestPage(addr)).0
    requires served ==> bytes == HostCopy(l, c, addr, b.store[addr]).data
    modifies channel`seen, channel.host, channel.host.merkletree
    ensures channel.Valid() && channel.seen == old(channel.seen)
    ensures ok ==> Hmac(KeyFor(iv), bytes, addr, iv) in channel.seen
    ensures served ==> ok && iv == b.store[addr].iv
    ensures served ==> channel.host.View() == h.(phase := if l.code.Contains(addr) then Idle else HmacSent(addr))
  {
    if served {
      HonestServes(l, c, b, h, addr);
    }
    iv := 0;
    var reply := channel.IoExchange(RequestHmac);
    if !reply.HmacReply? {
      return false, 0;
    }
    iv := reply.iv;
    ok := reply.mac == Hmac(KeyFor(iv), bytes, addr, iv);
  }

  /** Retrieve a proof that the page's counter is the one in the tree. */
  method CheckCounter(channel: Channel, merkle: MerkleContext, entry: Entry, ghost served: bool,
                      ghost l: Layout, ghost c: Cipher, ghost b: Backing, ghost h: HostState)
      returns (ok: bool)
    requires channel.Valid() && channel.seen == b.seen && merkle.Valid() && merkle.entries == b.entries
    requires served ==> channel.honest && entry.addr in b.store && HostInv(l, c, b, h) && EntriesInv(l, b)
    requires served ==> !l.code.Contains(entry.addr) && entry.iv == b.store[entry.addr].iv
    requires served ==> channel.host.View() == h.(phase := HmacSent(entry.addr))
    modifies channel`seen, channel.host, channel.host.merkletree
    ensures channel.Valid() && channel.seen == old(channel.seen)
    ensures ok ==> IndexOf(b.entries, entry.addr) >= 0 && b.entries[IndexOf(b.entries, entry.addr)] == entry
    ensures served && |b.entries| <= 128 ==> ok
    ensures served && ok ==> channel.host.View() == h
  {
    ghost var h' := channel.host.View();
    if served {
      assert HostStep(h', RequestProof) == ProveStep(h', entry.addr);
      if |b.entries| <= 128 {
        HonestProves(l, c, b, h', entry.addr);
      }
    }
    var reply := channel.IoExchange(RequestProof);
    if !reply.ProofReply? {
      return false;
    }
    ok := merkle.VerifyProof(entry, reply.proof);
  }
}
