/**
 From the signing handshake to a running application: the tags the host holds after it (host/app.py) are
 those the streaming host is loaded with (host/stream_device.py), and the device accepts them.
 */
module Deployment {
  import opened Machine
  import opened Numerals
  import opened Pages
  import opened Protocol
  import opened HostStream
  import opened PagedState
  import opened Flat
  import opened HostLink
  import opened Vm
  import opened Runs
  import opened Manifests
  import opened Signing
  import opened Calls
  import opened Rounds
  import opened Interpreter

  /** The 32 bytes of each page's tag are read as the tag of that page and no other message. */
  ghost predicate ReadsTags(c: Crypto, parse: Tag -> Mac, start: u32, pages: seq<PageData>)
    requires start + PAGE_SIZE * |pages| <= U32_MAX
  {
    forall i :: 0 <= i < |pages| ==> parse(SectionTags(c, start, pages)[i]) == StaticTags(start, pages)[i]
  }

  /** HMAC is ideal on the pages of the application. */
  ghost predicate IdealFor(c: Crypto, parse: Tag -> Mac, app: App)
    requires app.Valid()
  {
    ReadsTags(c, parse, app.layout.code.start, app.code) && ReadsTags(c, parse, app.layout.data.start, app.data)
  }

  // ---- Such cryptography exists ----

  /** One byte for each bit of an address. */
  function AddressTag(addr: u32): Tag {
    var bits := FixedDigits(addr, 2, 32);
    Tag(BitBytes(bits[..16]), BitBytes(bits[16..]))
  }

  function BitBytes(bits: seq<nat>): Block
    requires |bits| == 16
  {
    seq(16, i requires 0 <= i < 16 => if bits[i] == 0 then 0 else 1)
  }

  function BitsOf(b: Block): (bits: seq<nat>)
    ensures |bits| == 16 && InBase(bits, 2)
  {
    seq(16, i requires 0 <= i < 16 => if b[i] == 0 then 0 else 1)
  }

  function AddressIn(tag: Tag): nat {
    Value(BitsOf(tag.first) + BitsOf(tag.second), 2)
  }

  lemma BitsBack(bits: seq<nat>)
    requires |bits| == 16 && InBase(bits, 2)
    ensures BitsOf(BitBytes(bits)) == bits
  {
  }

  lemma AddressBack(addr: u32)
    ensures AddressIn(AddressTag(addr)) == addr
  {
    hide Value, FixedDigits, BitBytes, BitsOf, Pow;
    var bits := FixedDigits(addr, 2, 32);
    BitsBack(bits[..16]);
    BitsBack(bits[16..]);
    assert bits[..16] + bits[16..] == bits;
    Bits32();
    FixedDigitsValue(addr, 2, 32);
  }

  lemma Bits32()
    ensures Pow(2, 32) == 0x1_0000_0000
  {
    assert Pow(2, 8) == 0x100;
    PowAdd(2, 8, 8);
    PowAdd(2, 16, 16);
  }

  lemma {:induction false} AppPagesHold(codeStart: u32, code: seq<PageData>, dataStart: u32, data: seq<PageData>)
    requires codeStart + PAGE_SIZE * |code| <= U32_MAX && dataStart + PAGE_SIZE * |data| <= U32_MAX
    requires codeStart + PAGE_SIZE * |code| <= dataStart || dataStart + PAGE_SIZE * |data| <= codeStart
    ensures
      var pages := AppPages(codeStart, code, dataStart, data);
      && (forall i :: 0 <= i < |code| ==> codeStart + PAGE_SIZE * i in pages && pages[codeStart + PAGE_SIZE * i] == code[i])
      && (forall i :: 0 <= i < |data| ==> dataStart + PAGE_SIZE * i in pages && pages[dataStart + PAGE_SIZE * i] == data[i])
    decreases |code| + |data|
  {
    if data != [] {
      AppPagesHold(codeStart, code, dataStart, data[..|data| - 1]);
    } else if code != [] {
      AppPagesHold(codeStart, code[..|code| - 1], dataStart, []);
    }
  }

  /** The contents of a page, from the address its tag is made of. */
  function ReadTag(app: App, tag: Tag): Mac
    requires app.Valid()
  {
    var (addr, pages) := (AddressIn(tag), app.Initial());
    if addr in pages then Mac.Hmac(StaticKey, pages[addr], addr, 0) else OtherBytes(0)
  }

  /** For every application there is cryptography that the theorems below ask for. */
  lemma CryptoExists(app: App) returns (c: Crypto, parse: Tag -> Mac)
    requires app.Valid()
    ensures c.Valid() && IdealFor(c, parse, app)
  {
    c := Crypto(b => b, b => b, (page: PageData, addr: u32) => AddressTag(addr));
    parse := tag => ReadTag(app, tag);
    AppPagesHold(app.layout.code.start, app.code, app.layout.data.start, app.data);
    SectionIsRead(app, c, parse, app.layout.code.start, app.code);
    SectionIsRead(app, c, parse, app.layout.data.start, app.data);
  }

  lemma SectionIsRead(app: App, c: Crypto, parse: Tag -> Mac, start: u32, pages: seq<PageData>)
    requires app.Valid() && start + PAGE_SIZE * |pages| <= U32_MAX
    requires forall page: PageData, addr: u32 :: c.hmac(page, addr) == AddressTag(addr)
    requires forall tag: Tag :: parse(tag) == ReadTag(app, tag)
    requires forall i :: 0 <= i < |pages| ==>
      start + PAGE_SIZE * i in app.Initial() && app.Initial()[start + PAGE_SIZE * i] == pages[i]
    ensures ReadsTags(c, parse, start, pages)
  {
    hide AddressTag, AddressIn, AppPages;
    forall i | 0 <= i < |pages|
      ensures parse(SectionTags(c, start, pages)[i]) == StaticTags(start, pages)[i]
    {
      AddressBack(start + PAGE_SIZE * i);
    }
  }

  // ---- Signing, then streaming ----

  function ParsedTags(parse: Tag -> Mac, tags: seq<Tag>): (macs: seq<Mac>)
    ensures |macs| == |tags|
  {
    seq(|tags|, i requires 0 <= i < |tags| => parse(tags[i]))
  }

  /**
   device_sign_app on the files of an application: it succeeds exactly when both signatures are made
   and the manifest commits to the pages, and then the tags, as the host keeps them, are those the
   streaming host has to be loaded with.
   */
  method SignApplication(m: Manifest, app: App, c: Crypto, parse: Tag -> Mac, hsmSigned: bool, signed: bool)
      returns (ok: bool, codeMacs: seq<Mac>, dataMacs: seq<Mac>)
    requires Describes(m, app) && Aligned(m.bss) && c.Valid() && IdealFor(c, parse, app)
    ensures ok <==> hsmSigned && signed && Commits(m, app.code + app.data)
    ensures ok ==> TagsOf(app, codeMacs, dataMacs)
  {
    ManifestPages(m, app);
    var host := new HostSigner(app.code, app.data);
    ok := DeviceSignApp(host, c, m, hsmSigned, signed);
    codeMacs, dataMacs := [], [];
    if ok {
      codeMacs, dataMacs := ParsedTags(parse, host.codeMacs), ParsedTags(parse, host.dataMacs);
    }
  }

  lemma ManifestPages(m: Manifest, app: App)
    requires Describes(m, app) && Aligned(m.bss)
    ensures m.HasPages() && m.CodeCount() == |app.code| && m.DataCount() == |app.data| && |app.data| > 0
  {
    PageStartUnique(m.bss, m.bss);
  }

  /** Sign an application and stream it. */
  method SignThenStream(m: Manifest, app: App, c: Crypto, parse: Tag -> Mac, hsmSigned: bool, signed: bool,
                        cipher: Cipher, honest: bool, calls: seq<Call>, slots: Slots, run: seq<Access>)
      returns (ok: bool, done: nat, results: seq<nat>, ghost last: map<u32, Version>)
    requires Describes(m, app) && Aligned(m.bss) && c.Valid() && IdealFor(c, parse, app)
    requires cipher.Valid() && slots.Valid() && forall a :: a in run ==> Accessible(a)
    ensures ok <==> hsmSigned && signed && Commits(m, app.code + app.data)
    ensures ok ==> done <= |run| && results == FlatRun(InitialMemory(app), run[..done]).1
    ensures ok ==> Advanced(Signed(app.Initial()), last, done)
    ensures ok && honest && done < |run| ==> Obstructed(app.layout, BootStart(app), run[..done + 1], last)
  {
    hide Describes, IdealFor, Crypto.Valid, Cipher.Valid, Commits, TagsOf, Obstructed, Advanced, FlatRun;
    done, results, last := 0, [], map[];
    var codeMacs, dataMacs;
    ok, codeMacs, dataMacs := SignApplication(m, app, c, parse, hsmSigned, signed);
    if ok {
      done, results, last := StreamApplication(m, app, codeMacs, dataMacs, cipher, honest, calls, slots, run);
    }
  }

  /** The honest host before anything was asked of it. */
  function FreshIo(calls: seq<Call>): Io {
    Io([], 0, [], 0, calls, false, [])
  }

  /**
   Sign an application, start it and run it for at most `limit` rounds, system calls included.  It
   does what the flat machine holding its pages and zeros does, for every host and every eviction.
   With the honest host the calls of `exchange` return the messages the guest sent, and the run stops
   early only where the guest ends or a round is refused.
   */
  method SignThenRun(m: Manifest, app: App, c: Crypto, parse: Tag -> Mac, hsmSigned: bool, signed: bool,
                     cipher: Cipher, honest: bool, calls: seq<Call>, slots: Slots, limit: nat)
      returns (ok: bool, stop: Stop, rounds: nat, ghost now: System, ghost gots: seq<seq<u8>>)
    requires Describes(m, app) && Aligned(m.bss) && c.Valid() && IdealFor(c, parse, app)
    requires cipher.Valid() && slots.Valid()
    ensures ok <==> hsmSigned && signed && Commits(m, app.code + app.data)
    ensures ok ==> rounds == |gots| <= limit && RoundsOf(BootSystem(m, app), gots) == Some(now)
    ensures ok && stop == Running ==> rounds == limit
    ensures ok && stop == Ended ==> forall g :: Round(now, g).None?
    ensures ok && honest ==>
      var io := HostAfter(FreshIo(calls), BootSystem(m, app), gots);
      && io.Some? && io.value.returned == now.sent && |now.sent| <= |calls|
      && (stop == Failed ==>
            RoundRefused(app.layout, Past(BootStart(app), Trace(BootSystem(m, app), gots)), now, io.value))
  {
    hide Crypto.Valid, IdealFor, Commits, TagsOf, Round, RoundsOf, HostAfter, Trace, HostInv;
    stop, rounds, now, gots := Running, 0, BootSystem(m, app), [];
    var codeMacs, dataMacs;
    ok, codeMacs, dataMacs := SignApplication(m, app, c, parse, hsmSigned, signed);
    if !ok {
      return;
    }
    hide Describes, RoundRefused, Agrees;
    stop, rounds, now, gots := StartAndRun(m, app, codeMacs, dataMacs, cipher, honest, calls, slots, limit);
    if honest {
      ClientGetsMessages(FreshIo(calls), BootSystem(m, app), gots);
    }
  }

  /** What a run from the start of an application promises. */
  ghost predicate RanApp(m: Manifest, app: App, honest: bool, calls: seq<Call>, limit: nat,
                         stop: Stop, rounds: nat, now: System, gots: seq<seq<u8>>)
    requires app.Valid()
  {
    && rounds == |gots| <= limit && RoundsOf(BootSystem(m, app), gots) == Some(now)
    && (stop == Running ==> rounds == limit)
    && (stop == Ended ==> forall g :: Round(now, g).None?)
    && (honest ==>
          var io := HostAfter(FreshIo(calls), BootSystem(m, app), gots);
          && io.Some?
          && (stop == Failed ==>
                RoundRefused(app.layout, Past(BootStart(app), Trace(BootSystem(m, app), gots)), now, io.value)))
  }

  /** Run a device that was just started. */
  method RunStarted(cpu: RvCpu, d: Device, ghost m: Manifest, ghost app: App, ghost calls: seq<Call>, limit: nat)
      returns (stop: Stop, rounds: nat, ghost now: System, ghost gots: seq<seq<u8>>)
    requires app.Valid() && d.layout == app.layout && StartOf(d) == BootStart(app)
    requires cpu.Valid() && cpu.Apart(d) && cpu.State() == BootState(m)
    requires d.Valid() && Agrees(d.mem, InitialMemory(app)) && d.HostIo() == FreshIo(calls)
    modifies cpu`pc, cpu.regs, d.Repr()
    ensures RanApp(m, app, d.channel.honest, calls, limit, stop, rounds, now, gots)
  {
    hide Round, RoundsOf, HostAfter, Trace, RoundRefused, Agrees, Device.Valid, Settled, BootState, InitialMemory;
    FreshIsSettled(calls);
    stop, rounds, now, gots := cpu.RunApp(d, limit, InitialMemory(app));
  }

  /** The part of SignThenRun after signing. */
  method StartAndRun(m: Manifest, app: App, codeMacs: seq<Mac>, dataMacs: seq<Mac>, cipher: Cipher,
                     honest: bool, calls: seq<Call>, slots: Slots, limit: nat)
      returns (stop: Stop, rounds: nat, ghost now: System, ghost gots: seq<seq<u8>>)
    requires Describes(m, app) && TagsOf(app, codeMacs, dataMacs) && cipher.Valid() && slots.Valid()
    ensures RanApp(m, app, honest, calls, limit, stop, rounds, now, gots)
  {
    hide TagsOf, RanApp, Agrees, Cipher.Valid, Describes, BootState, InitialMemory, BootStart, Device.Valid;
    DescribesValid(m, app);
    var cpu, device := BootApp(m, app, codeMacs, dataMacs, cipher, honest, calls, slots);
    stop, rounds, now, gots := RunStarted(cpu, device, m, app, calls, limit);
  }

  /** A host loaded with a signed application, and a device that accepted its manifest. */
  method BootApp(m: Manifest, app: App, codeMacs: seq<Mac>, dataMacs: seq<Mac>, cipher: Cipher,
                 honest: bool, calls: seq<Call>, slots: Slots)
      returns (cpu: RvCpu, d: Device)
    requires Describes(m, app) && TagsOf(app, codeMacs, dataMacs) && cipher.Valid() && slots.Valid()
    ensures fresh(cpu) && fresh(cpu.regs) && fresh(d.Own())
    ensures fresh(d.channel) && fresh(d.channel.host) && fresh(d.channel.host.merkletree)
    ensures d.channel.honest == honest && d.layout == app.layout && StartOf(d) == BootStart(app)
    ensures cpu.Valid() && cpu.Apart(d) && cpu.State() == BootState(m)
    ensures d.Valid() && Agrees(d.mem, InitialMemory(app)) && d.HostIo() == FreshIo(calls)
  {
    StackEnds(m, app);
    hide TagsOf, HostInv, Agrees, Cipher.Valid, Describes, Aligned, BootState, InitialMemory, BootStart;
    hide Device.Valid, Device.Repr, Device.Own, RvCpu.Apart, Channel.Valid;
    var channel := OpenLink(app, codeMacs, dataMacs, cipher, honest, calls);
    var device;
    cpu, device := StreamInitApp(m, app, cipher, channel, true, slots);
    d := device.value;
  }

  lemma StackEnds(m: Manifest, app: App)
    requires Describes(m, app)
    ensures Aligned(m.stack.end)
  {
  }

  lemma FreshIsSettled(calls: seq<Call>)
    ensures Settled(FreshIo(calls))
  {
  }
}
