/**
 Messages between the guest and the host's client, sys_xsend and sys_xrecv in
 vm/src/ecall.c: the same bytes arrive, whatever page requests and commits come
 in between.
 */
module Transfer {
  import opened Machine
  import opened Pages
  import opened Protocol
  import opened HostStream
  import opened PagedState
  import opened HostLink
  import opened Flat
  import opened Vm
  import opened Runs
  import opened Syscalls

  lemma HostIgnoresIo(l: Layout, c: Cipher, b: Backing, h: HostState, io: Io)
    ensures HostInv(l, c, b, h.(io := io)) == HostInv(l, c, b, h)
  {
  }

  /** One buffer command and its reply: only the host's message buffers change, if it accepts the command. */
  method ExchangeBuffer(d: Device, cmd: Command) returns (reply: Reply)
    requires d.Valid() && (cmd.SendBuffer? || cmd.RecvBuffer?)
    requires cmd.RecvBuffer? ==> cmd.maxsize <= PAGE_SIZE
    requires d.channel.honest ==> BufferStep(d.channel.host.View(), cmd).0.alive
    modifies d.channel`seen, d.channel.host, d.channel.host.merkletree
    ensures d.Valid() && Possible(reply, d.channel.seen)
    ensures d.channel.honest ==> (d.channel.host.View(), reply) == BufferStep(old(d.channel.host.View()), cmd)
  {
    hide CachesInv, Frontier, BackingInv, HostInv, WellFormed;
    ghost var h, seen := d.channel.host.View(), d.channel.seen;
    if d.channel.honest {
      HonestIsIdle(d.layout, d.cipher, d.Backed(), h);
      HostIgnoresIo(d.layout, d.cipher, d.Backed(), h, BufferStep(h, cmd).0.io);
    }
    reply := d.channel.IoExchange(cmd);
    assert d.channel.seen == seen;
  }

  lemma HonestIsIdle(l: Layout, c: Cipher, b: Backing, h: HostState)
    requires HostInv(l, c, b, h)
    ensures h.alive && h.phase.Idle?
  {
  }

  // ---- send ----

  /** A call of `exchange` is running and nothing of a message has been sent yet. */
  predicate ReadyToReceive(io: Io) {
    io.sendBuffer == [] && io.sendCounter == 0 && io.calls != []
  }

  /** Chunks in the pages from `addr` to `pos`: two a page, as a page is at most 249 + 7 bytes. */
  ghost predicate ChunkBound(counter: nat, addr: u32, pos: nat) {
    addr <= pos && counter <= 2 * (pos / PAGE_SIZE - addr / PAGE_SIZE) + (if pos % PAGE_SIZE >= SEND_CHUNK then 1 else 0)
  }

  lemma NextChunk(counter: nat, addr: u32, pos: u32, n: nat)
    requires ChunkBound(counter, addr, pos)
    requires n == (if BufferMaxSize(pos) < SEND_CHUNK then BufferMaxSize(pos) else SEND_CHUNK)
    ensures ChunkBound(counter + 1, addr, pos + n)
  {
  }

  lemma FewChunks(counter: nat, addr: u32, pos: nat)
    requires ChunkBound(counter, addr, pos) && pos <= U32_MAX
    ensures counter < LAST_CHUNK - 1
  {
  }

  /** The command for one chunk: 249 bytes, padded with zeros, with the last one marked in the counter. */
  function ChunkCommand(bytes: seq<u8>, counter: u32, last: bool): Command
    requires |bytes| <= SEND_CHUNK && counter < LAST_CHUNK
  {
    SendBuffer(bytes + seq<u8>(SEND_CHUNK - |bytes|, i => 0), |bytes|, if last then counter + LAST_CHUNK else counter)
  }

  /** The host appends a chunk to the message, and returns the message on the last one. */
  lemma HostTakesChunk(h: HostState, bytes: seq<u8>, counter: u32, last: bool)
    requires |bytes| <= SEND_CHUNK && counter < LAST_CHUNK
    requires h.io.sendCounter == counter && h.io.calls != []
    ensures
      var (h', r) := BufferStep(h, ChunkCommand(bytes, counter, last));
      var message := h.io.sendBuffer + bytes;
      && h'.alive == h.alive && r == Ack
      && h'.io == (if last then h.io.(sendBuffer := [], sendCounter := 0, returned := h.io.returned + [message],
                                       calls := h.io.calls[1..], buffered := false)
                   else h.io.(sendBuffer := message, sendCounter := counter + 1))
  {
    var padded := bytes + seq<u8>(SEND_CHUNK - |bytes|, i => 0);
    assert padded[..|bytes|] == bytes;
  }

  /** What the host has of a message after some of its bytes were sent in `counter` chunks. */
  function Sending(io: Io, message: seq<u8>, counter: nat): Io {
    io.(sendBuffer := message, sendCounter := counter)
  }

  /** `exchange` returned the message; the next call is running. */
  function Sent(io: Io, message: seq<u8>): Io
    requires io.calls != []
  {
    io.(sendBuffer := [], sendCounter := 0, returned := io.returned + [message], calls := io.calls[1..], buffered := false)
  }

  /** The page accesses of a message sent: one a chunk. */
  function SendTouches(addr: u32, size: nat): seq<Access>
    decreases size
  {
    if size == 0 then []
    else
      var n := SendSize(addr, size);
      [Touch(addr, false)] + SendTouches(Wrap32(addr + n), size - n)
  }

  /** The bytes of the next chunk. */
  function SendSize(addr: u32, size: nat): (n: nat)
    ensures n <= size && (size > 0 ==> n > 0)
  {
    if SEND_CHUNK < BufferMinSize(addr, size) then SEND_CHUNK else BufferMinSize(addr, size)
  }

  lemma SendTouchesUnfold(addr: u32, size: nat)
    requires size > 0
    ensures
      var n := SendSize(addr, size);
      SendTouches(addr, size) == [Touch(addr, false)] + SendTouches(Wrap32(addr + n), size - n)
  {
  }

  lemma NoSendTouches(addr: u32)
    ensures SendTouches(addr, 0) == []
  {
  }

  /** A message command leaves the memory as it is. */
  method ExchangeGoing(d: Device, cmd: Command, ghost past: Past, ghost f: FlatMemory) returns (reply: Reply)
    requires Going(d, past, f) && (cmd.SendBuffer? || cmd.RecvBuffer?)
    requires cmd.RecvBuffer? ==> cmd.maxsize <= PAGE_SIZE
    requires d.channel.honest ==> BufferStep(d.channel.host.View(), cmd).0.alive
    modifies d.channel`seen, d.channel.host, d.channel.host.merkletree
    ensures Going(d, past, f) && Possible(reply, d.channel.seen)
    ensures d.channel.honest ==> (d.channel.host.View(), reply) == BufferStep(old(d.channel.host.View()), cmd)
  {
    hide Device.Valid, Agrees, Reach, Advanced, BufferStep, Possible;
    reply := ExchangeBuffer(d, cmd);
  }

  /** One turn of the loop of sys_xsend. */
  method SendChunk(d: Device, p: u32, n: nat, counter: u32, last: bool,
                   ghost past: Past, ghost f: FlatMemory, ghost io: Io, ghost sent: seq<u8>)
      returns (ok: bool)
    requires Going(d, past, f) && n <= SEND_CHUNK && counter < LAST_CHUNK && io.calls != []
    requires d.channel.honest ==> d.HostIo() == Sending(io, sent, counter)
    modifies d.Repr()
    ensures ok ==> Going(d, past.Then([Touch(p, false)]), f) && n > 0 && p + n <= U32_MAX
    ensures d.channel.honest && 0 < n <= BufferMaxSize(p) && !ok ==>
      Blocked(d.layout, past.start, past.made + [Touch(p, false)])
    ensures ok && d.channel.honest ==>
      d.HostIo() == if last then Sent(io, sent + Bytes(f, p, n)) else Sending(io, sent + Bytes(f, p, n), counter + 1)
  {
    hide Agrees, Bytes, CachesInv, Frontier, BackingInv, WellFormed, HostInv, Reach, Advanced, Blocked, Past.Then;
    var buffer;
    ok, buffer := ReadBuffer(d, p, n, past, f);
    if !ok {
      return;
    }
    if d.channel.honest {
      HonestIsIdle(d.layout, d.cipher, d.Backed(), d.channel.host.View());
      HostTakesChunk(d.channel.host.View(), buffer, counter, last);
    }
    var reply := ExchangeGoing(d, ChunkCommand(buffer, counter, last), past.Then([Touch(p, false)]), f);
  }

  /**
   sys_xsend: the honest host's `exchange` returns exactly the bytes of the buffer; it does
   not fail if no access to the pages of the buffer is blocked.
   */
  method SysXsend(d: Device, addr: u32, size: u32, ghost past: Past, ghost f: FlatMemory, ghost io: Io) returns (ok: bool)
    requires Going(d, past, f) && (size > 0 ==> ReadyToReceive(io))
    requires d.channel.honest ==> d.HostIo() == io
    modifies d.Repr()
    ensures ok ==> Going(d, past.Then(SendTouches(addr, size)), f)
    ensures ok && d.channel.honest ==> d.HostIo() == if size == 0 then io else Sent(io, Bytes(f, addr, size))
    ensures d.channel.honest && Clear(d.layout, past, SendTouches(addr, size)) ==> ok
  {
    hide Going, Past.Then, Clear, Blocked, Bytes, Wrap32, Sent, Sending, ChunkBound, BufferMaxSize, SendTouches, Touch;
    ok := true;
    var p: u32, rest: nat, counter: nat := addr, size, 0;
    ghost var done := 0;
    ghost var all, made := SendTouches(addr, size), [];
    ThenNothing(past);
    if size > 0 {
      StartSending(f, addr, io);
    }
    while rest > 0
      invariant Going(d, past.Then(made), f) && done + rest == size && 0 <= rest
      invariant all == made + SendTouches(p, rest)
      invariant rest > 0 ==> p == addr + done <= U32_MAX && ChunkBound(counter, addr, p)
      invariant d.channel.honest && rest > 0 ==> d.HostIo() == Sending(io, Bytes(f, addr, done), counter)
      invariant d.channel.honest && rest == 0 ==> d.HostIo() == if size == 0 then io else Sent(io, Bytes(f, addr, size))
    {
      var n := BufferMinSize(p, rest);
      n := if SEND_CHUNK < n then SEND_CHUNK else n;
      FewChunks(counter, addr, p);
      BytesAppend(f, addr, done, n);
      SendTouchesUnfold(p, rest);
      ClearNext(d.layout, past, all, made, Touch(p, false), SendTouches(Wrap32(p + n), rest - n));
      ok := SendChunk(d, p, n, counter, rest - n == 0, past.Then(made), f, io, Bytes(f, addr, done));
      if !ok {
        return;
      }
      made := made + [Touch(p, false)];
      WrapSmall(p + n);
      if rest - n > 0 {
        NextChunk(counter, addr, p, n);
      }
      p := Wrap32(p + n);
      rest, counter := rest - n, counter + 1;
      done := done + n;
    }
    NoSendTouches(p);
    assert made == all;
  }

  lemma StartSending(f: FlatMemory, addr: u32, io: Io)
    requires ReadyToReceive(io)
    ensures Sending(io, Bytes(f, addr, 0), 0) == io
    ensures ChunkBound(0, addr, addr)
  {
  }

  // ---- receive ----

  /** A call of `exchange` with this message is running, and none of it has been asked for. */
  predicate Offers(io: Io, message: seq<u8>) {
    io.recvBuffer == [] && io.recvCounter == 0 && !io.buffered && io.calls != [] && io.calls[0] == Exchange(message)
  }

  /** The bytes a message is delivered as: a reply always counts one byte at least. */
  function Delivered(message: seq<u8>): seq<u8> {
    if message == [] then [0] else message
  }

  /** The host's buffers when `done` bytes of the message were delivered in `counter` chunks. */
  function Receiving(io: Io, message: seq<u8>, done: nat, counter: nat): Io
    requires done <= |message|
  {
    if done == 0 then io
    else io.(recvBuffer := message[done..], recvCounter := if done == |message| then 0 else counter, buffered := true)
  }

  /** All of the message was asked for. */
  function Received(io: Io): Io {
    io.(recvBuffer := [], recvCounter := 0, buffered := true)
  }

  /** The host's answer to a request for `n` bytes more. */
  lemma HostOffersChunk(h: HostState, io: Io, message: seq<u8>, done: nat, counter: u32, n: u16)
    requires Offers(io, message) && n > 0
    requires done < |message| || (done == 0 && message == [])
    requires h.io == Receiving(io, message, done, counter) && (done == 0 ==> counter == 0)
    ensures
      var (h', r) := BufferStep(h, RecvBuffer(counter, n));
      var m := if done + n < |message| then n else |message| - done;
      && h'.alive == h.alive && r.BufferReply?
      && (r.p1 == if done + m == |message| then 1 else 0)
      && (message != [] ==> [r.p2] + r.data == message[done..done + m])
      && (message == [] ==> [r.p2] + r.data == [0])
      && h'.io == (if done + m == |message| then Received(io) else Receiving(io, message, done + m, counter + 1))
  {
    var m := if done + n < |message| then n else |message| - done;
    var source := if done == 0 then message else message[done..];
    assert source == message[done..] && RecvSource(h.io) == Some(source);
    assert source[..m] == message[done..done + m] && source[m..] == message[done + m..];
    assert message != [] ==> [source[..m][0]] + source[..m][1..] == source[..m];
  }

  /** The checks on a reply to a request for n bytes. */
  predicate FitsRequest(reply: Reply, n: nat) {
    reply.BufferReply? && reply.p1 != 2 && |reply.data| + 1 <= n && (|reply.data| + 1 == n || reply.p1 == 1)
  }

  /** One turn of the loop of sys_xrecv: the bytes of an acceptable reply go to the buffer. */
  method RecvChunk(d: Device, p: u32, n: nat, counter: u32,
                   ghost past: Past, ghost f: FlatMemory, ghost io: Io, ghost message: seq<u8>, ghost done: nat)
      returns (ok: bool, stop: bool, bytes: seq<u8>)
    requires Going(d, past, f) && n <= PAGE_SIZE
    requires d.channel.honest ==> Offers(io, message) && (done < |message| || (done == 0 && message == []))
    requires d.channel.honest ==> d.HostIo() == Receiving(io, message, done, counter) && (done == 0 ==> counter == 0)
    modifies d.Repr()
    ensures ok ==> Going(d, past.Then([Touch(p, true)]), Write(f, p, bytes)) && 0 < |bytes| <= n && p + n <= U32_MAX
    ensures ok ==> stop || |bytes| == n
    ensures ok && d.channel.honest ==>
      var m := if done + n < |message| then n else |message| - done;
      && (stop <==> done + m == |message|)
      && bytes == (if message == [] then [0] else message[done..done + m])
      && d.HostIo() == (if done + m == |message| then Received(io) else Receiving(io, message, done + m, counter + 1))
    ensures d.channel.honest && 0 < n <= BufferMaxSize(p) && !ok ==>
      Blocked(d.layout, past.start, past.made + [Touch(p, true)])
  {
    hide Agrees, CachesInv, Frontier, BackingInv, WellFormed, HostInv, Overwritten, Receiving, Received, Offers, BufferStep;
    hide Reach, Advanced, Blocked, Past.Then;
    stop, bytes := false, [];
    var k, slot;
    ok, k, slot := GetBuffer(d, p, n, true, past, f);
    if !ok {
      return;
    }
    if d.channel.honest {
      HonestIsIdle(d.layout, d.cipher, d.Backed(), d.channel.host.View());
      HostOffersChunk(d.channel.host.View(), io, message, done, counter, n);
    }
    var reply := ExchangeGoing(d, RecvBuffer(counter, n), past.Then([Touch(p, true)]), f);
    if !FitsRequest(reply, n) {
      return false, false, [];
    }
    stop := reply.p1 == 1;
    bytes := [reply.p2] + reply.data;
    ghost var before := d.mem;
    d.StoreBytes(k, slot, p, bytes);
    OverwrittenAgrees(before, d.mem, f, p, bytes);
  }

  /**
   sys_xrecv: from any host, at most `size` bytes go to the buffer and nothing else
   changes.  What comes from the honest host is its message, an empty one as a single zero
   byte; if no access to the pages the message goes to is blocked, the call succeeds exactly
   when the message fits.
   */
  method SysXrecv(d: Device, addr: u32, size: u32, ghost past: Past, ghost f: FlatMemory, ghost io: Io, ghost message: seq<u8>)
      returns (ok: bool, received: nat, ghost got: seq<u8>)
    requires Going(d, past, f)
    requires d.channel.honest ==> d.HostIo() == io && (size > 0 ==> Offers(io, message))
    modifies d.Repr()
    ensures ok ==> Going(d, past.Then(Touches(addr, |got|, true)), Write(f, addr, got)) && received == |got| <= size
    ensures d.channel.honest && ok && size > 0 ==> got == Delivered(message) && d.HostIo() == Received(io)
    ensures size == 0 ==> ok && got == [] && (d.channel.honest ==> d.HostIo() == io)
    ensures
      var all := Touches(addr, Shorter(size, |Delivered(message)|), true);
      d.channel.honest && size > 0 && Clear(d.layout, past, all) ==> (ok <==> |Delivered(message)| <= size)
  {
    hide Going, Past.Then, Clear, Blocked, Write, Same, Wrap32, Receiving, Received, Offers;
    hide BufferMaxSize, Touches, Touch, Splits, RestOfMessage;
    ok, received, got := true, 0, [];
    var p, rest, counter := addr, size, 0;
    ghost var t := Shorter(size, |Delivered(message)|);
    ghost var made := [];
    ThenNothing(past);
    NoTouches(addr, true);
    WriteNothing(f, addr);
    GoingSame(d, past, f, Write(f, addr, got));
    StartReceiving(io, message);
    while rest > 0
      invariant 0 <= rest && received + rest == size && received == |got| && ok
      invariant Going(d, past.Then(made), Write(f, addr, got))
      invariant p == addr + received <= U32_MAX && 0 <= counter <= received && (received == 0 || Aligned(p))
      invariant made == Touches(addr, received, true)
      invariant d.channel.honest && rest == 0 ==> d.HostIo() == io && received == 0
      invariant d.channel.honest && rest > 0 ==>
        received <= |message| && got == message[..received] && d.HostIo() == Receiving(io, message, received, counter)
      invariant d.channel.honest && rest > 0 ==> received < |message| || (received == 0 && message == [])
      invariant received > 0 ==> rest > 0
    {
      var n := BufferMinSize(p, rest);
      ghost var g := Write(f, addr, got);
      if received < t {
        AllOfMessage(addr, received, p, t, n, made);
        ClearNext(d.layout, past, Touches(addr, t, true), made, Touch(p, true), RestOfMessage(p, t, received, n));
      }
      LastAccess(made, Touch(p, true));
      ClearNext(d.layout, past, made + [Touch(p, true)], made, Touch(p, true), []);
      var stop, bytes;
      ok, stop, bytes := RecvChunk(d, p, n, counter, past.Then(made), g, io, message, received);
      if !ok {
        return;
      }
      MoreTouches(addr, received, p, |bytes|);
      made := made + [Touch(p, true)];
      WriteAppend(f, addr, got, bytes);
      GoingSame(d, past.Then(made), Write(g, p, bytes), Write(f, addr, got + bytes));
      got := got + bytes;
      WrapSmall(p + |bytes|);
      if !stop && |bytes| < rest {
        ToPageEnd(p, rest);
      }
      p := Wrap32(p + |bytes|);
      rest, received, counter := rest - |bytes|, received + |bytes|, counter + 1;
      if stop {
        return;
      }
      if rest == 0 {
        return false, received, got;
      }
    }
  }

  function RestOfMessage(p: u32, t: nat, received: nat, n: nat): seq<Access>
    requires received < t
  {
    if received + n < t then Touches(Wrap32(p + n), t - received - n, true) else []
  }

  /** Part of a message was received up to the end of a page; then the page of `p` is next. */
  lemma AllOfMessage(addr: u32, received: nat, p: u32, t: nat, n: nat, made: seq<Access>)
    requires received < t && p == addr + received <= U32_MAX && (received == 0 || Aligned(p))
    requires made == Touches(addr, received, true)
    requires n <= BufferMaxSize(p) && (received + n < t ==> n == BufferMaxSize(p))
    ensures Splits(Touches(addr, t, true), made, Touch(p, true), RestOfMessage(p, t, received, n))
  {
    hide Touches, Touch, Wrap32, BufferMaxSize;
    TouchesAppend(addr, received, t - received, true);
    NextPart(Touches(addr, t, true), made, p, t, received, n, true);
  }

  /** Bytes in the page of `p` take one more access. */
  lemma MoreTouches(addr: u32, received: nat, p: u32, n: nat)
    requires p == addr + received <= U32_MAX && (received == 0 || Aligned(p)) && 0 < n <= BufferMaxSize(p)
    ensures Touches(addr, received + n, true) == Touches(addr, received, true) + [Touch(p, true)]
  {
    hide Touches, Touch, Wrap32, BufferMaxSize;
    TouchesAppend(addr, received, n, true);
    TouchesUnfold(p, n, true);
    NoTouches(Wrap32(p + n), true);
  }

  lemma ToPageEnd(p: u32, rest: nat)
    requires BufferMinSize(p, rest) < rest && p + BufferMaxSize(p) <= U32_MAX
    ensures BufferMinSize(p, rest) == BufferMaxSize(p) && Aligned(p + BufferMaxSize(p))
  {
  }

  lemma StartReceiving(io: Io, message: seq<u8>)
    ensures Receiving(io, message, 0, 0) == io
  {
  }

  function Shorter(x: nat, y: nat): nat {
    if x < y then x else y
  }
}
