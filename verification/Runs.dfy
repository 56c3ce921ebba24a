/**
 Whole runs: any finite sequence of guest loads, stores and instruction fetches
 returns what a flat byte memory returns, for every host and every eviction; and
 with an honest host, within the limits of the counters and of the proofs, it
 does not stop early.
 */
module Runs {
  import opened Machine
  import opened Pages
  import opened Protocol
  import opened PageCache
  import opened HostMerkleTree
  import opened DeviceMerkle
  import opened HostLink
  import opened HostStream
  import opened PagedState
  import opened Flat
  import opened Vm
  import opened Manifests

  datatype Access = Load(addr: u32, size: nat) | Store(addr: u32, size: nat, value: u32) | Fetch(addr: u32) {
    function Size(): nat {
      if Fetch? then 4 else size
    }
  }

  function FlatAfter(f: FlatMemory, a: Access): FlatMemory {
    if a.Store? then Write(f, a.addr, ToLittleEndian(a.value, a.size)) else f
  }

  function FlatResult(f: FlatMemory, a: Access): nat {
    if a.Store? then 0 else FromLittleEndian(Bytes(f, a.addr, a.Size()))
  }

  /** A load, or a fetch, returns what the last store to the place put there, cut to its size. */
  lemma StoredIsLoaded(f: FlatMemory, addr: u32, size: nat, value: u32)
    requires addr + size <= U32_MAX + 1
    ensures Pow(0x100, size) > 0
    ensures FlatResult(FlatAfter(f, Store(addr, size, value)), Load(addr, size)) == value % Pow(0x100, size)
  {
    BytesWritten(f, addr, ToLittleEndian(value, size));
    LittleEndianRoundTrip(value, size);
  }

  /** The flat memory after a run, and the values its accesses return. */
  function FlatRun(f: FlatMemory, run: seq<Access>): (r: (FlatMemory, seq<nat>))
    ensures |r.1| == |run|
  {
    if run == [] then (f, [])
    else
      var (g, results) := FlatRun(f, run[..|run| - 1]);
      var last := run[|run| - 1];
      (FlatAfter(g, last), results + [FlatResult(g, last)])
  }

  /** An access the CPU can make. */
  predicate Accessible(a: Access) {
    a.Size() in {1, 2, 4}
  }

  function ProtOf(a: Access): Prot {
    if a.Store? then ReadWrite else ReadOnly
  }

  /** Inside one page of a section that allows it. */
  predicate Legal(l: Layout, a: Access) {
    && FitsInPage(a.addr, a.Size())
    && CacheFor(l, PageStart(a.addr), ProtOf(a)).Some?
    && (a.Fetch? ==> l.code.Contains(PageStart(a.addr)))
  }

  /** Where a run of legal accesses leaves the end of the heap and the start of the stack. */
  function Reach(l: Layout, bssMax: u32, stackMin: u32, run: seq<Access>): (r: (int, int))
    ensures r.0 >= bssMax && r.1 <= stackMin
  {
    if run == [] then (bssMax, stackMin)
    else
      var (heap, stack) := Reach(l, bssMax, stackMin, run[..|run| - 1]);
      var last := run[|run| - 1];
      var start := PageStart(last.addr);
      var k := CacheFor(l, start, ProtOf(last));
      if k == Some(Data) && start >= heap then (start + PAGE_SIZE, stack)
      else if k == Some(Stack) && start < stack then (heap, start)
      else (heap, stack)
  }

  /** Where a run starts: the frontiers, and the versions committed so far. */
  datatype Start = Start(bssMax: u32, stackMin: u32, store: map<u32, Version>)

  ghost function StartOf(d: Device): Start
    reads d
  {
    Start(d.bssMax, d.stackMin, d.store)
  }

  /** Up to n accesses were made between the two: each advances a counter by one at most. */
  ghost predicate Advanced(store: map<u32, Version>, store': map<u32, Version>, n: nat) {
    forall a :: a in store' ==> store'[a].iv <= (if a in store then store[a].iv else 0) + n
  }

  /** The pages a run makes exist do not fit in the tree, or there is no page in it to start with. */
  predicate TreeFull(l: Layout, start: Start, run: seq<Access>) {
    var (heap, stack) := Reach(l, start.bssMax, start.stackMin, run);
    PageCount(l, start.bssMax, start.stackMin) <= 0 || PageCount(l, heap, stack) > 128
  }

  predicate TouchesCode(l: Layout, a: Access) {
    CacheFor(l, PageStart(a.addr), ProtOf(a)) == Some(Code)
  }

  /** The last access of a run is not legal, or it is not to code and the tree is full or a counter is at its end. */
  ghost predicate Obstructed(l: Layout, start: Start, run: seq<Access>, store: map<u32, Version>) {
    && run != []
    && var a := run[|run| - 1];
       !Legal(l, a)
       || (!TouchesCode(l, a) && (TreeFull(l, start, run) || exists p :: p in store && store[p].iv == U32_MAX))
  }

  /** The same, as far as it can be told from the start: some counter could be at its end by then. */
  ghost predicate Blocked(l: Layout, start: Start, run: seq<Access>) {
    && run != []
    && var a := run[|run| - 1];
       !Legal(l, a) || (!TouchesCode(l, a) && (TreeFull(l, start, run) || MayRunOut(start.store, |run| - 1)))
  }

  /** After n accesses some counter can have reached its last value. */
  ghost predicate MayRunOut(store: map<u32, Version>, n: nat) {
    n >= U32_MAX || exists p :: p in store && store[p].iv + n >= U32_MAX
  }

  /** A run none of whose accesses is blocked. */
  ghost predicate Served(l: Layout, start: Start, run: seq<Access>) {
    forall k :: 0 < k <= |run| ==> !Blocked(l, start, run[..k])
  }

  lemma RunOutIsForeseen(l: Layout, start: Start, run: seq<Access>, store: map<u32, Version>)
    requires Obstructed(l, start, run, store) && Advanced(start.store, store, |run| - 1)
    ensures Blocked(l, start, run)
  {
  }

  lemma AdvancedOnce(store: map<u32, Version>, store': map<u32, Version>, store'': map<u32, Version>, n: nat)
    requires Advanced(store, store', n) && Aged(store', store'')
    ensures Advanced(store, store'', n + 1)
  {
  }

  lemma {:induction false} ReachGrows(l: Layout, bssMax: u32, stackMin: u32, run: seq<Access>, i: nat)
    requires i <= |run|
    ensures
      var (heap, stack) := Reach(l, bssMax, stackMin, run[..i]);
      var (heap', stack') := Reach(l, bssMax, stackMin, run);
      heap <= heap' && stack' <= stack
    decreases |run| - i
  {
    if i < |run| {
      ReachGrows(l, bssMax, stackMin, run, i + 1);
      assert run[..i + 1][..i] == run[..i];
    } else {
      assert run[..i] == run;
    }
  }

  /** One access, whichever it is. */
  method Perform(d: Device, a: Access, ghost f: FlatMemory) returns (ok: bool, result: nat)
    requires d.Valid() && Accessible(a) && Agrees(d.mem, f)
    modifies d.Repr()
    ensures ok ==> d.Valid() && Agrees(d.mem, FlatAfter(f, a)) && result == FlatResult(f, a)
    ensures ok ==> Legal(d.layout, a) && Aged(old(d.store), d.store)
    ensures ok ==> d.Reached(a.addr, ProtOf(a), old(d.bssMax), old(d.stackMin))
    ensures Legal(d.layout, a) && old(d.ServesAccess(a.addr, ProtOf(a))) ==> ok
    ensures d.channel.honest && ok ==> d.HostIo() == old(d.HostIo())
  {
    hide Device.Valid, SameMemory, Overwritten, Agrees, Aged;
    match a {
      case Load(addr, size) =>
        ok, result := d.MemRead(addr, size);
        if ok {
          SameMemoryAgrees(old(d.mem), d.mem, f);
          BytesAgree(old(d.mem), f, addr, size);
        }
      case Store(addr, size, value) =>
        ok := d.MemWrite(addr, size, value);
        result := 0;
        if ok {
          OverwrittenAgrees(old(d.mem), d.mem, f, addr, ToLittleEndian(value, size));
        }
      case Fetch(addr) =>
        ok, result := d.GetInstruction(addr);
        if ok {
          SameMemoryAgrees(old(d.mem), d.mem, f);
          BytesAgree(old(d.mem), f, addr, 4);
        }
    }
  }

  lemma {:induction false} ReachAppends(l: Layout, bssMax: u32, stackMin: u32, run: seq<Access>, a: Access, k: Kind,
                                        heap: u32, stack: u32)
    requires (heap, stack) == Reach(l, bssMax, stackMin, run)
    requires CacheFor(l, PageStart(a.addr), ProtOf(a)) == Some(k)
    ensures
      var start := PageStart(a.addr);
      Reach(l, bssMax, stackMin, run + [a]) == (HeapAfter(k, heap, start), StackAfter(k, stack, start))
  {
    assert (run + [a])[..|run|] == run;
  }

  /** What happened since a start: the accesses made. */
  datatype Past = Past(start: Start, made: seq<Access>) {
    function Then(more: seq<Access>): Past {
      Past(start, made + more)
    }
  }

  /** The device holds the flat memory f, and is where the accesses made have left it. */
  ghost predicate Going(d: Device, past: Past, f: FlatMemory)
    reads d, d.Repr(), d.channel.host.merkletree
  {
    && d.Valid() && Agrees(d.mem, f)
    && (d.bssMax, d.stackMin) == Reach(d.layout, past.start.bssMax, past.start.stackMin, past.made)
    && Advanced(past.start.store, d.store, |past.made|)
  }

  lemma SetsOut(d: Device, f: FlatMemory)
    requires d.Valid() && Agrees(d.mem, f)
    ensures Going(d, Past(StartOf(d), []), f)
  {
    hide Device.Valid, Agrees;
  }

  lemma GoingAgrees(d: Device, past: Past, f: FlatMemory)
    requires Going(d, past, f)
    ensures d.Valid() && Agrees(d.mem, f)
  {
  }

  /** What else can stop a legal access when an honest host does not serve it. */
  lemma NotServed(d: Device, past: Past, f: FlatMemory, a: Access)
    requires Going(d, past, f) && d.channel.honest && Legal(d.layout, a) && !d.ServesAccess(a.addr, ProtOf(a))
    ensures Obstructed(d.layout, past.start, past.made + [a], d.store)
  {
    hide Device.Linked, CachesInv, Frontier, WellFormed, Reach, PageStart;
    var l, start, page := d.layout, past.start, PageStart(a.addr);
    var k := CacheFor(l, page, ProtOf(a)).value;
    var run := past.made + [a];
    if !TouchesCode(l, a) && d.CountersLeft() {
      FrontierBounds(l, d.bssMax, d.stackMin, d.Backed());
      NewPagesCount(l, d.initial, k, d.bssMax, d.stackMin, d.Backed(), page);
      ReachAppends(l, start.bssMax, start.stackMin, past.made, a, k, d.bssMax, d.stackMin);
      TreeGrows(l, start, past.made);
      assert TreeFull(l, start, run);
    }
  }

  lemma TreeGrows(l: Layout, start: Start, run: seq<Access>)
    ensures
      var (heap, stack) := Reach(l, start.bssMax, start.stackMin, run);
      PageCount(l, start.bssMax, start.stackMin) <= PageCount(l, heap, stack)
  {
  }

  lemma LegalCache(l: Layout, a: Access)
    requires Legal(l, a)
    ensures CacheFor(l, PageStart(a.addr), ProtOf(a)).Some?
  {
  }

  /** The state after one more access. */
  lemma GoesOn(d: Device, past: Past, a: Access, k: Kind, f: FlatMemory, before: Start)
    requires d.Valid() && Agrees(d.mem, f) && Aged(before.store, d.store)
    requires (before.bssMax, before.stackMin) == Reach(d.layout, past.start.bssMax, past.start.stackMin, past.made)
    requires Advanced(past.start.store, before.store, |past.made|)
    requires CacheFor(d.layout, PageStart(a.addr), ProtOf(a)) == Some(k)
    requires d.Reached(a.addr, ProtOf(a), before.bssMax, before.stackMin)
    ensures Going(d, past.Then([a]), f)
  {
    hide Device.Valid, Agrees, Reach, Aged, Advanced, PageStart, HeapAfter, StackAfter;
    AdvancedOnce(past.start.store, before.store, d.store, |past.made|);
    ReachAppends(d.layout, past.start.bssMax, past.start.stackMin, past.made, a, k, before.bssMax, before.stackMin);
  }

  /**
   The next access returns what the flat memory returns.  With the honest host it fails only where
   it is not legal, the tree is full, or some counter is at its last value.
   */
  method PerformNext(d: Device, a: Access, ghost past: Past, ghost f: FlatMemory) returns (ok: bool, result: nat)
    requires Going(d, past, f) && Accessible(a)
    modifies d.Repr()
    ensures ok ==> Going(d, past.Then([a]), FlatAfter(f, a)) && result == FlatResult(f, a)
    ensures d.channel.honest && !ok ==> old(Obstructed(d.layout, past.start, past.made + [a], d.store))
    ensures d.channel.honest && !ok ==> Blocked(d.layout, past.start, past.made + [a])
    ensures d.channel.honest && ok ==> d.HostIo() == old(d.HostIo())
  {
    hide Device.Valid, Agrees, Aged, Advanced, Reach, Legal, PageStart, HeapAfter, StackAfter;
    hide FlatAfter, FlatResult, Obstructed, Blocked;
    ghost var before := StartOf(d);
    if d.channel.honest {
      WhyNot(d, past, f, a);
    }
    ok, result := Perform(d, a, f);
    if ok {
      LegalCache(d.layout, a);
      GoesOn(d, past, a, CacheFor(d.layout, PageStart(a.addr), ProtOf(a)).value, FlatAfter(f, a), before);
    }
  }

  lemma WhyNot(d: Device, past: Past, f: FlatMemory, a: Access)
    requires Going(d, past, f) && d.channel.honest
    ensures (Legal(d.layout, a) && d.ServesAccess(a.addr, ProtOf(a))) || Obstructed(d.layout, past.start, past.made + [a], d.store)
    ensures Obstructed(d.layout, past.start, past.made + [a], d.store) ==> Blocked(d.layout, past.start, past.made + [a])
  {
    var run := past.made + [a];
    assert run[|run| - 1] == a;
    hide Device.Valid, Agrees, Reach, Legal, Device.ServesAccess, TouchesCode, TreeFull;
    if Legal(d.layout, a) && !d.ServesAccess(a.addr, ProtOf(a)) {
      NotServed(d, past, f, a);
    }
    if Obstructed(d.layout, past.start, run, d.store) {
      RunOutIsForeseen(d.layout, past.start, run, d.store);
    }
  }

  /** get_page for one access of a system call. */
  method NextPage(d: Device, a: Access, ghost past: Past, ghost f: FlatMemory) returns (ok: bool, k: Kind, slot: nat)
    requires Going(d, past, f) && !a.Fetch? && a.size == 1
    modifies d.Repr()
    ensures ok ==> Going(d, past.Then([a]), f)
    ensures ok ==> d.Holds(k, slot, a.addr) && CacheFor(d.layout, PageStart(a.addr), ProtOf(a)) == Some(k)
    ensures d.channel.honest && !ok ==> Blocked(d.layout, past.start, past.made + [a])
    ensures d.channel.honest && ok ==> d.HostIo() == old(d.HostIo())
  {
    hide Device.Valid, Agrees, SameMemory, Aged, Advanced, Reach, Legal, PageStart, HeapAfter, StackAfter;
    hide Obstructed, Blocked, Device.Holds;
    ghost var before, mem := StartOf(d), d.mem;
    if d.channel.honest {
      WhyNot(d, past, f, a);
    }
    ok, k, slot := d.GetPage(a.addr, ProtOf(a));
    if ok {
      SameMemoryAgrees(mem, d.mem, f);
      GoesOn(d, past, a, k, f, before);
    }
  }

  /**
   Any run of accesses: the results are those of the flat memory up to the first failure,
   whatever the host does.  With the honest host the run stops only at an access that is not
   legal, for which the tree is full, or, in the versions committed at that moment, before which
   some counter had reached its last value; so a run none of whose accesses is blocked is
   performed to the end.
   */
  method Run(d: Device, run: seq<Access>, ghost f: FlatMemory) returns (done: nat, results: seq<nat>, ghost last: map<u32, Version>)
    requires d.Valid() && Agrees(d.mem, f) && forall a :: a in run ==> Accessible(a)
    modifies d.Repr()
    ensures done <= |run| && results == FlatRun(f, run[..done]).1
    ensures done == |run| ==> d.Valid() && Agrees(d.mem, FlatRun(f, run).0) && last == d.store
    ensures Advanced(old(d.store), last, done)
    ensures d.channel.honest && done < |run| ==> Obstructed(d.layout, old(StartOf(d)), run[..done + 1], last)
    ensures d.channel.honest && old(Served(d.layout, StartOf(d), run)) ==> done == |run|
  {
    hide Device.Valid, Agrees, Reach, FlatAfter, FlatResult, Obstructed, Blocked, Advanced;
    ghost var start := StartOf(d);
    SetsOut(d, f);
    done, results := 0, [];
    assert run[..0] == [];
    while done < |run|
      invariant done <= |run| && Going(d, Past(start, run[..done]), FlatRun(f, run[..done]).0)
      invariant results == FlatRun(f, run[..done]).1
    {
      var a := run[done];
      assert a in run;
      last := d.store;
      assert run[..done] + [a] == run[..done + 1] && run[..done + 1][..done] == run[..done];
      var ok, result := PerformNext(d, a, Past(start, run[..done]), FlatRun(f, run[..done]).0);
      if !ok {
        return;
      }
      results := results + [result];
      done := done + 1;
    }
    last := d.store;
    assert run[..done] == run;
  }

  /** An application as the HSM and the signing device leave it: sections and pages, one data page at least. */
  datatype App = App(layout: Layout, code: seq<PageData>, data: seq<PageData>) {
    predicate Valid() {
      && 0 < |data| && layout.data.start + PAGE_SIZE * |data| == layout.bss
      && layout.code.start + PAGE_SIZE * |code| == layout.code.end
      && PageAligned(layout.code) && PageAligned(layout.stack) && PageAligned(layout.data)
      && Disjoint(layout.code, layout.stack) && Disjoint(layout.code, layout.data) && Disjoint(layout.stack, layout.data)
      && layout.bss <= layout.data.end
    }

    function Initial(): map<u32, PageData>
      requires Valid()
    {
      AppPages(layout.code.start, code, layout.data.start, data)
    }
  }

  /** The flat memory an application starts with: its pages, and zeros everywhere else. */
  ghost function InitialMemory(app: App): FlatMemory
    requires app.Valid()
  {
    (a: u32) => FlatByte(app.Initial(), a)
  }

  lemma {:induction false} AppPagesAre(codeStart: u32, code: seq<PageData>, dataStart: u32, data: seq<PageData>, a: u32)
    requires Aligned(codeStart) && Aligned(dataStart)
    requires codeStart + PAGE_SIZE * |code| <= U32_MAX && dataStart + PAGE_SIZE * |data| <= U32_MAX
    ensures a in AppPages(codeStart, code, dataStart, data) <==>
      Aligned(a) && (codeStart <= a < codeStart + PAGE_SIZE * |code| || dataStart <= a < dataStart + PAGE_SIZE * |data|)
    decreases |code| + |data|
  {
    if data != [] {
      AppPagesAre(codeStart, code, dataStart, data[..|data| - 1], a);
      LastPage(dataStart, |data|, a);
    } else if code != [] {
      AppPagesAre(codeStart, code[..|code| - 1], dataStart, [], a);
      LastPage(codeStart, |code|, a);
    }
  }

  /** The page addresses below n pages are those below n - 1 pages and the last one. */
  lemma LastPage(start: u32, n: nat, a: u32)
    requires Aligned(start) && n > 0 && start + PAGE_SIZE * n <= U32_MAX
    ensures Aligned(a) && start <= a < start + PAGE_SIZE * n <==>
      Aligned(a) && (start <= a < start + PAGE_SIZE * (n - 1) || a == start + PAGE_SIZE * (n - 1))
    ensures Aligned(start + PAGE_SIZE * (n - 1))
  {
  }

  lemma AppIsWellFormed(app: App)
    requires app.Valid()
    ensures WellFormed(app.layout, app.Initial())
  {
    var l := app.layout;
    PageAt(l.data.start, |app.data|);
    forall a: u32
      ensures a in app.Initial() <==> Aligned(a) && (l.code.Contains(a) || l.data.start <= a < l.bss)
    {
      AppPagesAre(l.code.start, app.code, l.data.start, app.data, a);
    }
  }

  /** The tags the signing handshake leaves with the host. */
  function SigningTags(app: App): set<Mac>
    requires app.Valid()
  {
    set a | a in app.Initial() :: Hmac(StaticKey, app.Initial()[a], a, 0)
  }

  /** The freshly loaded host is the one the freshly started device expects. */
  lemma LoadedHostAgrees(app: App, c: Cipher, host: DeviceStream, calls: seq<Call>)
    requires app.Valid()
    requires
      var l := app.layout;
      host.View() == HostState(InitialPages(l.code.start, app.code, StaticTags(l.code.start, app.code),
                                            l.data.start, app.data, StaticTags(l.data.start, app.data)),
                               InitialEntries(l.data.start, |app.data|), Idle, Io([], 0, [], 0, calls, false, []), true)
    ensures |app.data| == DataPageCount(app.layout)
    ensures HostInv(app.layout, c, BootBacking(app.layout, app.Initial(), SigningTags(app)), host.View())
    ensures forall a :: a in host.pages ==> host.pages[a].mac in SigningTags(app)
  {
    LoadedHostHoldsCopies(app.layout, c, app.code, app.data);
    var signed := Signed(app.Initial());
    forall a | a in host.pages
      ensures host.pages[a].mac in SigningTags(app)
    {
      assert host.pages[a] == HostCopy(app.layout, c, a, signed[a]);
      assert a in app.Initial();
    }
  }

  /** The tags of the two sections are those of the signed pages. */
  predicate TagsOf(app: App, codeMacs: seq<Mac>, dataMacs: seq<Mac>)
    requires app.Valid()
  {
    codeMacs == StaticTags(app.layout.code.start, app.code) && dataMacs == StaticTags(app.layout.data.start, app.data)
  }

  /** Load the host with the signed application and open the link to it. */
  method OpenLink(app: App, codeMacs: seq<Mac>, dataMacs: seq<Mac>, cipher: Cipher, honest: bool, calls: seq<Call>)
      returns (channel: Channel)
    requires app.Valid() && TagsOf(app, codeMacs, dataMacs)
    ensures fresh(channel) && fresh(channel.host) && fresh(channel.host.merkletree)
    ensures channel.Valid() && channel.honest == honest && channel.seen == SigningTags(app)
    ensures |app.data| == DataPageCount(app.layout)
    ensures HostInv(app.layout, cipher, BootBacking(app.layout, app.Initial(), channel.seen), channel.host.View())
    ensures channel.host.View().io == Io([], 0, [], 0, calls, false, [])
  {
    hide HostInv;
    var l := app.layout;
    var host := new DeviceStream(l.code.start, app.code, codeMacs, l.data.start, app.data, dataMacs, calls);
    LoadedHostAgrees(app, cipher, host, calls);
    channel := new Channel(honest, host, SigningTags(app));
  }

  /** Sizes of the three caches. */
  datatype Slots = Slots(code: nat, stack: nat, data: nat) {
    predicate Valid() {
      code > 0 && stack > 0 && data > 0
    }
  }

  /** A manifest of the application, with the Merkle state of its data pages. */
  ghost predicate Describes(m: Manifest, app: App) {
    app.Valid() && m.MemoryLayout() == app.layout && Tracks(m.root, m.size, m.last, BootEntries(app.layout))
  }

  /** The memory part of stream_init_app: the device's state is that of the manifest. */
  method StartDevice(m: Manifest, ghost app: App, cipher: Cipher, channel: Channel, slots: Slots) returns (device: Device)
    requires Describes(m, app) && cipher.Valid() && slots.Valid()
    requires channel.Valid() && channel.seen == SigningTags(app)
    requires channel.honest ==>
      HostInv(app.layout, cipher, BootBacking(app.layout, app.Initial(), channel.seen), channel.host.View())
    ensures device.Valid() && device.layout == app.layout && device.channel == channel
    ensures device.mem == app.Initial() && StartOf(device) == BootStart(app)
    ensures fresh(device.Own())
  {
    hide WellFormed, HostInv, SignedTags, Device.Valid, Channel.Valid, Tracks;
    AppIsWellFormed(app);
    BootAgrees(app);
    var merkle := new MerkleContext(m.root, m.size, m.last, BootEntries(app.layout));
    var code := new Cache(slots.code, false);
    var stack := new Cache(slots.stack, true);
    var data := new Cache(slots.data, true);
    device := new Device(m.MemoryLayout(), app.Initial(), cipher, channel, merkle, code, stack, data);
  }

  /** The frontiers and versions an application starts with. */
  function BootStart(app: App): Start
    requires app.Valid()
  {
    Start(app.layout.bss, app.layout.stack.end, Signed(app.Initial()))
  }

  /**
   Stream an application from its signed files: the accesses of the run return
   what the flat memory holding the application and zeros returns.
   */
  method StreamApplication(m: Manifest, app: App, codeMacs: seq<Mac>, dataMacs: seq<Mac>, cipher: Cipher,
                           honest: bool, calls: seq<Call>, slots: Slots, run: seq<Access>)
      returns (done: nat, results: seq<nat>, ghost last: map<u32, Version>)
    requires Describes(m, app) && TagsOf(app, codeMacs, dataMacs) && cipher.Valid() && slots.Valid()
    requires forall a :: a in run ==> Accessible(a)
    ensures done <= |run| && results == FlatRun(InitialMemory(app), run[..done]).1
    ensures Advanced(Signed(app.Initial()), last, done)
    ensures honest && done < |run| ==> Obstructed(app.layout, BootStart(app), run[..done + 1], last)
    ensures honest && Served(app.layout, BootStart(app), run) ==> done == |run|
  {
    hide HostInv, Served, Device.Valid, Channel.Valid, Agrees, Obstructed, Advanced, TagsOf, Tracks;
    BootAgrees(app);
    var channel := OpenLink(app, codeMacs, dataMacs, cipher, honest, calls);
    var device := StartDevice(m, app, cipher, channel, slots);
    done, results, last := Run(device, run, InitialMemory(app));
  }

  lemma BootAgrees(app: App)
    requires app.Valid()
    ensures Agrees(app.Initial(), InitialMemory(app))
    ensures SignedTags(app.Initial(), SigningTags(app))
    ensures DistinctAddrs(BootEntries(app.layout))
  {
  }
}
