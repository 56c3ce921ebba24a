/** The honest host, host/stream_device.py: page store, Merkle tree and message buffers. */
module HostStream {
  import opened Machine
  import opened MerkleTerms
  import opened Pages
  import opened Protocol
  import opened HostMerkleTree

  /** Longest proof the host sends: 250 bytes of 33-byte steps. */
  const MAX_PROOF_STEPS := 7
  const SEND_CHUNK := 249
  const LAST_CHUNK: u32 := 0x8000_0000

  datatype HostPage = HostPage(data: PageData, mac: Mac, iv: u32, readOnly: bool)

  /** Where the host is inside handle_read_access or handle_write_access. */
  datatype Phase = Idle | PageSent(addr: u32) | HmacSent(addr: u32) | DataReceived(data: PageData)

  /** One call of `exchange` by the application's client. */
  datatype Call = Exchange(message: seq<u8>) | ExitApp

  /** Buffers of the message exchange: `calls` are still to come, `returned` are the results so far. */
  datatype Io = Io(sendBuffer: seq<u8>, sendCounter: nat, recvBuffer: seq<u8>, recvCounter: nat,
                   calls: seq<Call>, buffered: bool, returned: seq<seq<u8>>)

  datatype HostState = HostState(pages: map<u32, HostPage>, entries: seq<Entry>, phase: Phase, io: Io, alive: bool)

  function Dead(s: HostState): (HostState, Reply) {
    (s.(alive := false), NoReply)
  }

  function WritePage(s: HostState, addr: u32, data: PageData, mac: Mac, iv: u32): HostState {
    var m := IndexOf(s.entries, addr);
    if addr !in s.pages then
      if m != -1 then s.(pages := s.pages[addr := HostPage(data, mac, iv, false)], alive := false)
      else s.(pages := s.pages[addr := HostPage(data, mac, iv, false)], entries := s.entries + [Entry(addr, iv)])
    else if s.pages[addr].readOnly then s.(alive := false)
    else if m == -1 then s.(pages := s.pages[addr := HostPage(data, mac, iv, false)], alive := false)
    else s.(pages := s.pages[addr := HostPage(data, mac, iv, false)], entries := s.entries[m := Entry(addr, iv)])
  }

  /** Reply to CommitHmac: record the page, return the proof of what it replaces or of the last entry. */
  function CommitStep(s: HostState, addr: u32, iv: u32, mac: Mac): (HostState, Reply)
    requires s.phase.DataReceived?
  {
    var m := IndexOf(s.entries, addr);
    var proof := if m >= 0 then ProofOf(s.entries, m) else ProofOf(s.entries, |s.entries| - 1);
    if !Aligned(addr) || proof.None? || (m >= 0 && proof.value.0.iv + 1 != iv) then Dead(s)
    else
      var s' := WritePage(s, addr, s.phase.data, mac, iv);
      if !s'.alive || |proof.value.1| > MAX_PROOF_STEPS then Dead(s')
      else (s'.(phase := Idle), ProofReply(proof.value.1))
  }

  function SendStep(io: Io, bytes: seq<u8>, size: u8, counter: u32): Option<Io> {
    if io.sendCounter != counter % LAST_CHUNK || size > SEND_CHUNK || |bytes| != SEND_CHUNK || io.calls == [] then None
    else
      var buffer := io.sendBuffer + bytes[..size];
      if counter >= LAST_CHUNK then
        Some(io.(sendBuffer := [], sendCounter := 0, returned := io.returned + [buffer],
                 calls := io.calls[1..], buffered := false))
      else Some(io.(sendBuffer := buffer, sendCounter := io.sendCounter + 1))
  }

  /** The buffer a receive request reads from; a second message in one call is refused. */
  function RecvSource(io: Io): Option<seq<u8>> {
    if io.calls == [] then None
    else if io.calls[0].ExitApp? then None
    else if io.recvBuffer != [] then Some(io.recvBuffer)
    else if io.buffered then None
    else Some(io.calls[0].message)
  }

  function RecvStep(io: Io, counter: u32, maxsize: u16): Option<(Io, Reply)> {
    if io.calls != [] && io.calls[0].ExitApp? then
      Some((io.(calls := io.calls[1..]), BufferReply(2, 0, [])))
    else if RecvSource(io).None? || io.recvCounter != counter then None
    else
      var source := RecvSource(io).value;
      var cut := if maxsize <= |source| then maxsize else |source|;
      var chunk, rest := source[..cut], source[cut..];
      var last := rest == [];
      Some((io.(recvBuffer := rest, recvCounter := if last then 0 else io.recvCounter + 1, buffered := true),
            BufferReply(if last then 1 else 0, if chunk == [] then 0 else chunk[0], if chunk == [] then [] else chunk[1..])))
  }

  /** First message of handle_read_access. */
  function PageStep(s: HostState, addr: u32): (HostState, Reply) {
    if !Aligned(addr) || addr !in s.pages then Dead(s)
    else (s.(phase := PageSent(addr)), PageReply(s.pages[addr].data[0], s.pages[addr].data[1..]))
  }

  function HmacStep(s: HostState, addr: u32): (HostState, Reply) {
    if addr !in s.pages then Dead(s)
    else (s.(phase := if s.pages[addr].readOnly then Idle else HmacSent(addr)),
          HmacReply(s.pages[addr].iv, s.pages[addr].mac))
  }

  function ProveStep(s: HostState, addr: u32): (HostState, Reply) {
    var proof := ProofOf(s.entries, IndexOf(s.entries, addr));
    if addr !in s.pages || proof.None? || proof.value.0 != Entry(addr, s.pages[addr].iv)
       || |proof.value.1| > MAX_PROOF_STEPS then Dead(s)
    else (s.(phase := Idle), ProofReply(proof.value.1))
  }

  function BufferStep(s: HostState, cmd: Command): (HostState, Reply) {
    match cmd
    case SendBuffer(bytes, size, counter) =>
      var io := SendStep(s.io, bytes, size, counter);
      if io.None? then Dead(s) else (s.(io := io.value), Ack)
    case RecvBuffer(counter, maxsize) =>
      var r := RecvStep(s.io, counter, maxsize);
      if r.None? then Dead(s) else (s.(io := r.value.0), r.value.1)
    case _ => Dead(s)
  }

  /** One message of the device handled by an honest host. */
  function HostStep(s: HostState, cmd: Command): (HostState, Reply) {
    if !s.alive then (s, NoReply)
    else match (cmd, s.phase)
      case (RequestPage(addr), Idle) => PageStep(s, addr)
      case (RequestHmac, PageSent(addr)) => HmacStep(s, addr)
      case (RequestProof, HmacSent(addr)) => ProveStep(s, addr)
      case (CommitPage(data), Idle) => (s.(phase := DataReceived(data)), Ack)
      case (CommitHmac(addr, iv, mac), DataReceived(_)) => CommitStep(s, addr, iv, mac)
      case (SendBuffer(bytes, size, counter), Idle) => BufferStep(s, cmd)
      case (RecvBuffer(counter, maxsize), Idle) => BufferStep(s, cmd)
      case _ => Dead(s)
  }

  class DeviceStream {
    var pages: map<u32, HostPage>
    const merkletree: MerkleTree
    var phase: Phase
    var sendBuffer: seq<u8>
    var sendCounter: nat
    var recvBuffer: seq<u8>
    var recvCounter: nat
    var calls: seq<Call>
    var buffered: bool
    var returned: seq<seq<u8>>
    var alive: bool

    ghost function View(): HostState
      reads this, merkletree
    {
      HostState(pages, merkletree.entries, phase,
                Io(sendBuffer, sendCounter, recvBuffer, recvCounter, calls, buffered, returned), alive)
    }

    constructor (codeStart: u32, codePages: seq<PageData>, codeMacs: seq<Mac>,
                 dataStart: u32, dataPages: seq<PageData>, dataMacs: seq<Mac>, calls: seq<Call>)
      requires |codePages| == |codeMacs| && |dataPages| == |dataMacs|
      requires Aligned(codeStart) && codeStart + PAGE_SIZE * |codePages| <= U32_MAX
      requires Aligned(dataStart) && dataStart + PAGE_SIZE * |dataPages| <= U32_MAX
      requires codeStart + PAGE_SIZE * |codePages| <= dataStart || dataStart + PAGE_SIZE * |dataPages| <= codeStart
      ensures fresh(merkletree)
      ensures View() == HostState(InitialPages(codeStart, codePages, codeMacs, dataStart, dataPages, dataMacs),
                                  InitialEntries(dataStart, |dataPages|), Idle,
                                  Io([], 0, [], 0, calls, false, []), true)
    {
      pages := map[];
      merkletree := new MerkleTree();
      phase := Idle;
      sendBuffer, sendCounter, recvBuffer, recvCounter := [], 0, [], 0;
      this.calls, buffered, returned, alive := calls, false, [], true;
      new;
      LoadCode(codeStart, codePages, codeMacs, dataStart);
      LoadData(codeStart, codePages, codeMacs, dataStart, dataPages, dataMacs);
    }

    /** Code pages are stored read-only and outside the tree. */
    method LoadCode(start: u32, codePages: seq<PageData>, macs: seq<Mac>, ghost dataStart: u32)
      requires pages == map[] && |codePages| == |macs| && start + PAGE_SIZE * |codePages| <= U32_MAX
      modifies this`pages
      ensures pages == InitialPages(start, codePages, macs, dataStart, [], [])
    {
      var addr := start;
      var i := 0;
      while i < |codePages|
        invariant 0 <= i <= |codePages| && addr == start + PAGE_SIZE * i
        invariant pages == InitialPages(start, codePages[..i], macs[..i], dataStart, [], [])
      {
        pages := pages[addr := HostPage(codePages[i], macs[i], 0, true)];
        addr := addr + PAGE_SIZE;
        assert codePages[..i + 1][..i] == codePages[..i] && macs[..i + 1][..i] == macs[..i];
        i := i + 1;
      }
      assert codePages[..i] == codePages && macs[..i] == macs;
    }

    /** Data pages get an entry of counter 0 each, in address order. */
    method LoadData(ghost codeStart: u32, ghost codePages: seq<PageData>, ghost codeMacs: seq<Mac>,
                    start: u32, dataPages: seq<PageData>, macs: seq<Mac>)
      requires |codePages| == |codeMacs| && codeStart + PAGE_SIZE * |codePages| <= U32_MAX
      requires |dataPages| == |macs| && start + PAGE_SIZE * |dataPages| <= U32_MAX
      requires codeStart + PAGE_SIZE * |codePages| <= start || start + PAGE_SIZE * |dataPages| <= codeStart
      requires alive && merkletree.entries == []
      requires pages == InitialPages(codeStart, codePages, codeMacs, start, [], [])
      modifies this`pages, this`alive, merkletree
      ensures alive && merkletree.entries == InitialEntries(start, |dataPages|)
      ensures pages == InitialPages(codeStart, codePages, codeMacs, start, dataPages, macs)
    {
      var addr := start;
      var i := 0;
      while i < |dataPages|
        invariant 0 <= i <= |dataPages| && addr == start + PAGE_SIZE * i
        invariant alive && merkletree.entries == InitialEntries(start, i)
        invariant pages == InitialPages(codeStart, codePages, codeMacs, start, dataPages[..i], macs[..i])
      {
        InitialKeys(codeStart, codePages, codeMacs, start, dataPages[..i], macs[..i]);
        assert addr !in pages;
        StorePage(addr, dataPages[i], macs[i], 0);
        addr := addr + PAGE_SIZE;
        assert dataPages[..i + 1][..i] == dataPages[..i] && macs[..i + 1][..i] == macs[..i];
        i := i + 1;
      }
      assert dataPages[..i] == dataPages && macs[..i] == macs;
    }

    /** _write_page. */
    method StorePage(addr: u32, data: PageData, mac: Mac, iv: u32)
      requires alive
      modifies this`pages, this`alive, merkletree
      ensures View() == WritePage(old(View()), addr, data, mac, iv)
    {
      if addr !in pages {
        pages := pages[addr := HostPage(data, mac, iv, false)];
        alive := merkletree.Insert(Entry(addr, iv));
      } else {
        if pages[addr].readOnly {
          alive := false;
          return;
        }
        pages := pages[addr := HostPage(data, mac, iv, false)];
        alive := merkletree.Update(Entry(addr, iv));
      }
    }

    /** Third message of handle_read_access. */
    method HandleProof(addr: u32) returns (reply: Reply)
      requires alive && phase == HmacSent(addr)
      modifies this`phase, this`alive
      ensures (View(), reply) == HostStep(old(View()), RequestProof)
    {
      var proof := merkletree.GetProof(addr);
      if proof.None? || addr !in pages || proof.value.0 != Entry(addr, pages[addr].iv)
         || |proof.value.1| > MAX_PROOF_STEPS {
        alive := false;
        return NoReply;
      }
      phase := Idle;
      reply := ProofReply(proof.value.1);
    }

    /** Second message of handle_write_access. */
    method HandleCommit(addr: u32, iv: u32, mac: Mac) returns (reply: Reply)
      requires alive && phase.DataReceived?
      modifies this`pages, this`alive, this`phase, merkletree
      ensures (View(), reply) == CommitStep(old(View()), addr, iv, mac)
    {
      hide Mth, FoldProof, Path;
      var known := merkletree.HasAddr(addr);
      var proof;
      if known {
        proof := merkletree.GetProof(addr);
      } else {
        proof := merkletree.GetProofOfLastEntry();
      }
      if !Aligned(addr) || proof.None? || (known && proof.value.0.iv + 1 != iv) {
        alive := false;
        return NoReply;
      }
      StorePage(addr, phase.data, mac, iv);
      if !alive || |proof.value.1| > MAX_PROOF_STEPS {
        alive := false;
        return NoReply;
      }
      phase := Idle;
      reply := ProofReply(proof.value.1);
    }

    method HandleSendBuffer(bytes: seq<u8>, size: u8, counter: u32) returns (reply: Reply)
      requires alive && phase.Idle?
      modifies this`sendBuffer, this`sendCounter, this`returned, this`calls, this`buffered, this`alive
      ensures (View(), reply) == HostStep(old(View()), SendBuffer(bytes, size, counter))
    {
      if |bytes| != SEND_CHUNK || calls == [] || sendCounter != counter % LAST_CHUNK || size > SEND_CHUNK {
        alive := false;
        return NoReply;
      }
      sendCounter := sendCounter + 1;
      sendBuffer := sendBuffer + bytes[..size];
      if counter >= LAST_CHUNK {
        returned := returned + [sendBuffer];
        sendBuffer := [];
        sendCounter := 0;
        calls, buffered := calls[1..], false;
      }
      reply := Ack;
    }

    method HandleRecvBuffer(counter: u32, maxsize: u16) returns (reply: Reply)
      requires alive && phase.Idle?
      modifies this`recvBuffer, this`recvCounter, this`calls, this`buffered, this`alive
      ensures (View(), reply) == HostStep(old(View()), RecvBuffer(counter, maxsize))
    {
      if calls != [] && calls[0].ExitApp? {
        calls := calls[1..];
        return BufferReply(2, 0, []);
      }
      if calls == [] || (recvBuffer == [] && buffered) || recvCounter != counter {
        alive := false;
        return NoReply;
      }
      if recvBuffer == [] {
        recvBuffer := calls[0].message;
      }
      buffered := true;
      recvCounter := recvCounter + 1;
      var cut := if maxsize <= |recvBuffer| then maxsize else |recvBuffer|;
      var buf := recvBuffer[..cut];
      recvBuffer := recvBuffer[cut..];
      var last := 0;
      if recvBuffer == [] {
        recvCounter := 0;
        last := 1;
      }
      var p2 := 0;
      if buf != [] {
        p2, buf := buf[0], buf[1..];
      }
      reply := BufferReply(last, p2, buf);
    }

    /** One turn of the `exchange` loop, or of the handler it is in. */
    method Handle(cmd: Command) returns (reply: Reply)
      modifies this, merkletree
      ensures (View(), reply) == HostStep(old(View()), cmd)
    {
      if !alive {
        return NoReply;
      }
      match (cmd, phase)
      case (RequestPage(addr), Idle) =>
        if !Aligned(addr) || addr !in pages {
          alive, reply := false, NoReply;
        } else {
          phase := PageSent(addr);
          reply := PageReply(pages[addr].data[0], pages[addr].data[1..]);
        }
      case (RequestHmac, PageSent(addr)) =>
        if addr !in pages {
          alive, reply := false, NoReply;
        } else {
          phase := if pages[addr].readOnly then Idle else HmacSent(addr);
          reply := HmacReply(pages[addr].iv, pages[addr].mac);
        }
      case (RequestProof, HmacSent(addr)) => reply := HandleProof(addr);
      case (CommitPage(data), Idle) =>
        phase := DataReceived(data);
        reply := Ack;
      case (CommitHmac(addr, iv, mac), DataReceived(_)) => reply := HandleCommit(addr, iv, mac);
      case (SendBuffer(bytes, size, counter), Idle) => reply := HandleSendBuffer(bytes, size, counter);
      case (RecvBuffer(counter, maxsize), Idle) => reply := HandleRecvBuffer(counter, maxsize);
      case _ => alive, reply := false, NoReply;
    }
  }

  /** Entries of n data pages laid out from `start`, all with counter 0. */
  function InitialEntries(start: u32, n: nat): seq<Entry>
    requires start + PAGE_SIZE * n <= U32_MAX
  {
    seq(n, i requires 0 <= i < n => Entry(start + PAGE_SIZE * i, 0))
  }

  function InitialPages(codeStart: u32, codePages: seq<PageData>, codeMacs: seq<Mac>,
                        dataStart: u32, dataPages: seq<PageData>, dataMacs: seq<Mac>): map<u32, HostPage>
    requires |codePages| == |codeMacs| && |dataPages| == |dataMacs|
    requires codeStart + PAGE_SIZE * |codePages| <= U32_MAX && dataStart + PAGE_SIZE * |dataPages| <= U32_MAX
    decreases |codePages| + |dataPages|
  {
    var c, d := |codePages|, |dataPages|;
    if d > 0 then
      InitialPages(codeStart, codePages, codeMacs, dataStart, dataPages[..d - 1], dataMacs[..d - 1])
        [dataStart + PAGE_SIZE * (d - 1) := HostPage(dataPages[d - 1], dataMacs[d - 1], 0, false)]
    else if c > 0 then
      InitialPages(codeStart, codePages[..c - 1], codeMacs[..c - 1], dataStart, [], [])
        [codeStart + PAGE_SIZE * (c - 1) := HostPage(codePages[c - 1], codeMacs[c - 1], 0, true)]
    else map[]
  }

  lemma InitialKeys(codeStart: u32, codePages: seq<PageData>, codeMacs: seq<Mac>,
                    dataStart: u32, dataPages: seq<PageData>, dataMacs: seq<Mac>)
    requires |codePages| == |codeMacs| && |dataPages| == |dataMacs|
    requires codeStart + PAGE_SIZE * |codePages| <= U32_MAX && dataStart + PAGE_SIZE * |dataPages| <= U32_MAX
    ensures forall a :: a in InitialPages(codeStart, codePages, codeMacs, dataStart, dataPages, dataMacs) ==>
      codeStart <= a < codeStart + PAGE_SIZE * |codePages| || dataStart <= a < dataStart + PAGE_SIZE * |dataPages|
    decreases |codePages| + |dataPages|
  {
    var c, d := |codePages|, |dataPages|;
    if d > 0 {
      InitialKeys(codeStart, codePages, codeMacs, dataStart, dataPages[..d - 1], dataMacs[..d - 1]);
    } else if c > 0 {
      InitialKeys(codeStart, codePages[..c - 1], codeMacs[..c - 1], dataStart, [], []);
    }
  }
}
