/**
 The system calls of a guest, vm/src/ecall_dispatcher.c: what each does to the flat memory and to the
 messages, and the dispatcher on the paged memory.
 */
module Calls {
  import opened Machine
  import opened HostStream
  import opened PagedState
  import opened Flat
  import opened Vm
  import opened Runs
  import opened Syscalls
  import opened Transfer

  // Numbers of the calls of this model, app/sdk/api/ecall-nr.h.
  const XSEND: u32 := 2
  const XRECV: u32 := 3
  const MEMSET: u32 := 13
  const MEMCPY: u32 := 14
  const STRLEN: u32 := 15
  const STRNLEN: u32 := 16

  /** The number of a call and its arguments. */
  datatype GuestCall = GuestCall(nr: u32, a0: u32, a1: u32, a2: u32)

  /** The value left in a0, the flat memory, and the messages sent. */
  datatype Effect = Effect(result: u32, memory: FlatMemory, sent: seq<seq<u8>>)

  /** What a call does; `got` are the bytes a receive puts in memory.  Calls that end the run do nothing. */
  function EffectOf(c: GuestCall, f: FlatMemory, got: seq<u8>): Option<Effect> {
    if c.nr == XSEND then Some(Effect(c.a0, f, if c.a1 == 0 then [] else [Bytes(f, c.a0, c.a1)]))
    else if c.nr == XRECV then if |got| <= c.a1 then Some(Effect(|got|, Write(f, c.a0, got), [])) else None
    else if c.nr == MEMSET then Some(Effect(c.a0, Write(f, c.a0, Repeat<u8>(c.a1 % 0x100, c.a2)), []))
    else if c.nr == MEMCPY then Some(Effect(c.a0, ChunkCopy(f, c.a0, c.a1, c.a2), []))
    else if c.nr == STRLEN then if Terminated(f, c.a0) then Some(Effect(LengthOf(f, c.a0, U32_MAX), f, [])) else None
    else if c.nr == STRNLEN then Some(Effect(LengthOf(f, c.a0, c.a1), f, []))
    else None
  }

  /** The page accesses of a call that is carried out. */
  function CallAccesses(c: GuestCall, f: FlatMemory, got: seq<u8>): seq<Access> {
    if c.nr == XSEND then SendTouches(c.a0, c.a1)
    else if c.nr == XRECV then Touches(c.a0, |got|, true)
    else if c.nr == MEMSET then Touches(c.a0, c.a2, true)
    else if c.nr == MEMCPY then CopyTouches(c.a0, c.a1, c.a2)
    else if c.nr == STRLEN then Touches(c.a0, LengthOf(f, c.a0, U32_MAX) + 1, false)
    else if c.nr == STRNLEN then Touches(c.a0, Examined(c.a1, LengthOf(f, c.a0, c.a1)), false)
    else []
  }

  /** Between two calls of the guest the host is in the middle of no message. */
  predicate Settled(io: Io) {
    io.sendBuffer == [] && io.sendCounter == 0 && io.recvBuffer == [] && io.recvCounter == 0
  }

  /**
   What the honest host does on a call: it takes a message, which ends a call of `exchange`, or gives
   the message of that call, once.  Outside of `exchange`, and for a message that does not fit, there
   is no answer.
   */
  function HostAnswer(io: Io, c: GuestCall, f: FlatMemory): Option<(Io, seq<u8>)> {
    if c.a1 == 0 || (c.nr != XSEND && c.nr != XRECV) then Some((io, []))
    else if io.calls == [] then None
    else if c.nr == XSEND then Some((Sent(io, Bytes(f, c.a0, c.a1)), []))
    else if io.calls[0].ExitApp? || io.buffered || |Delivered(io.calls[0].message)| > c.a1 then None
    else Some((Received(io), Delivered(io.calls[0].message)))
  }

  lemma AnswerSettles(io: Io, c: GuestCall, f: FlatMemory)
    requires Settled(io) && HostAnswer(io, c, f).Some?
    ensures Settled(HostAnswer(io, c, f).value.0)
  {
    hide Bytes;
  }

  /** How a round of the guest went: on to the next, at an end, or with a failure. */
  datatype Stop = Running | Ended | Failed

  /** The honest host does not answer, the call cannot be carried out, or an access is blocked. */
  ghost predicate CallRefused(l: Layout, past: Past, c: GuestCall, f: FlatMemory, io: Io) {
    || HostAnswer(io, c, f).None?
    || EffectOf(c, f, HostAnswer(io, c, f).value.1).None?
    || !Clear(l, past, CallAccesses(c, f, HostAnswer(io, c, f).value.1))
  }

  /** What the dispatcher promises for one call. */
  ghost predicate Dispatched(d: Device, c: GuestCall, past: Past, f: FlatMemory, io: Io, stop: Stop, result: u32, got: seq<u8>)
    reads d, d.Repr(), d.channel.host.merkletree
  {
    && (stop == Running ==>
          && EffectOf(c, f, got).Some? && EffectOf(c, f, got).value.result == result
          && Going(d, past.Then(CallAccesses(c, f, got)), EffectOf(c, f, got).value.memory)
          && (d.channel.honest ==> HostAnswer(io, c, f) == Some((d.HostIo(), got))))
    && (stop == Ended ==> forall g :: EffectOf(c, f, g).None?)
    && (stop == Failed && d.channel.honest ==> CallRefused(d.layout, past, c, f, io))
  }

  /** A client with a call of `exchange` running, for a host that is not modelled. */
  function Anybody(): Io {
    Io([], 0, [], 0, [Exchange([])], false, [])
  }

  /** ECALL_XSEND.  An honest host outside of `exchange` does not read on. */
  method CallXsend(d: Device, c: GuestCall, ghost past: Past, ghost f: FlatMemory, ghost io: Io)
      returns (stop: Stop, result: u32, ghost got: seq<u8>)
    requires c.nr == XSEND && Going(d, past, f) && Settled(io) && (d.channel.honest ==> d.HostIo() == io)
    modifies d.Repr()
    ensures Dispatched(d, c, past, f, io, stop, result, got)
  {
    hide Going, Past.Then, Clear, Sent, SendTouches, Bytes;
    result, got := c.a0, [];
    if d.channel.honest && c.a1 > 0 && d.channel.host.calls == [] {
      return Failed, result, got;
    }
    var ok := SysXsend(d, c.a0, c.a1, past, f, if d.channel.honest then io else Anybody());
    stop := if ok then Running else Failed;
  }

  /** ECALL_XRECV.  An honest host gives the message of a call of `exchange` once. */
  method CallXrecv(d: Device, c: GuestCall, ghost past: Past, ghost f: FlatMemory, ghost io: Io)
      returns (stop: Stop, result: u32, ghost got: seq<u8>)
    requires c.nr == XRECV && Going(d, past, f) && Settled(io) && (d.channel.honest ==> d.HostIo() == io)
    modifies d.Repr()
    ensures Dispatched(d, c, past, f, io, stop, result, got)
  {
    hide Going, Past.Then, Clear, Received, Touches, Write;
    result, got := 0, [];
    if d.channel.honest && c.a1 > 0
       && (d.channel.host.calls == [] || d.channel.host.calls[0].ExitApp? || d.channel.host.buffered) {
      return Failed, result, got;
    }
    ghost var message := if d.channel.honest && c.a1 > 0 then io.calls[0].message else [];
    var ok, received;
    ok, received, got := SysXrecv(d, c.a0, c.a1, past, f, if d.channel.honest then io else Anybody(), message);
    stop := if ok then Running else Failed;
    if ok {
      result := received;
    }
  }

  /** ECALL_MEMSET. */
  method CallMemset(d: Device, c: GuestCall, ghost past: Past, ghost f: FlatMemory, ghost io: Io)
      returns (stop: Stop, result: u32, ghost got: seq<u8>)
    requires c.nr == MEMSET && Going(d, past, f) && (d.channel.honest ==> d.HostIo() == io)
    modifies d.Repr()
    ensures Dispatched(d, c, past, f, io, stop, result, got)
  {
    hide Going, Past.Then, Clear, Touches, Write, Repeat;
    var ok;
    ok, result := SysMemset(d, c.a0, c.a1, c.a2, past, f);
    stop, got := if ok then Running else Failed, [];
  }

  /** ECALL_MEMCPY. */
  method CallMemcpy(d: Device, c: GuestCall, ghost past: Past, ghost f: FlatMemory, ghost io: Io)
      returns (stop: Stop, result: u32, ghost got: seq<u8>)
    requires c.nr == MEMCPY && Going(d, past, f) && (d.channel.honest ==> d.HostIo() == io)
    modifies d.Repr()
    ensures Dispatched(d, c, past, f, io, stop, result, got)
  {
    hide Going, Past.Then, Clear, CopyTouches, ChunkCopy, CopiesWhole;
    var ok;
    ok, result := SysMemcpy(d, c.a0, c.a1, c.a2, past, f);
    stop, got := if ok then Running else Failed, [];
  }

  /** ECALL_STRLEN. */
  method CallStrlen(d: Device, c: GuestCall, ghost past: Past, ghost f: FlatMemory, ghost io: Io)
      returns (stop: Stop, result: u32, ghost got: seq<u8>)
    requires c.nr == STRLEN && Going(d, past, f) && (d.channel.honest ==> d.HostIo() == io)
    modifies d.Repr()
    ensures Dispatched(d, c, past, f, io, stop, result, got)
  {
    hide Going, Past.Then, Clear, Touches, LengthOf;
    var ok, size := SysStrlen(d, c.a0, past, f);
    stop, result, got := if ok then Running else Failed, if ok then size else 0, [];
  }

  /** ECALL_STRNLEN. */
  method CallStrnlen(d: Device, c: GuestCall, ghost past: Past, ghost f: FlatMemory, ghost io: Io)
      returns (stop: Stop, result: u32, ghost got: seq<u8>)
    requires c.nr == STRNLEN && Going(d, past, f) && (d.channel.honest ==> d.HostIo() == io)
    modifies d.Repr()
    ensures Dispatched(d, c, past, f, io, stop, result, got)
  {
    hide Going, Past.Then, Clear, Touches, LengthOf;
    var ok, size := SysStrnlen(d, c.a0, c.a1, past, f);
    stop, result, got := if ok then Running else Failed, if ok then size else 0, [];
  }

  /** ecall: every other call ends the run of this model. */
  method Dispatch(d: Device, c: GuestCall, ghost past: Past, ghost f: FlatMemory, ghost io: Io)
      returns (stop: Stop, result: u32, ghost got: seq<u8>)
    requires Going(d, past, f) && Settled(io) && (d.channel.honest ==> d.HostIo() == io)
    modifies d.Repr()
    ensures Dispatched(d, c, past, f, io, stop, result, got)
  {
    hide Dispatched, Going, Settled;
    if c.nr == XSEND {
      stop, result, got := CallXsend(d, c, past, f, io);
    } else if c.nr == XRECV {
      stop, result, got := CallXrecv(d, c, past, f, io);
    } else if c.nr == MEMSET {
      stop, result, got := CallMemset(d, c, past, f, io);
    } else if c.nr == MEMCPY {
      stop, result, got := CallMemcpy(d, c, past, f, io);
    } else if c.nr == STRLEN {
      stop, result, got := CallStrlen(d, c, past, f, io);
    } else if c.nr == STRNLEN {
      stop, result, got := CallStrnlen(d, c, past, f, io);
    } else {
      stop, result, got := Ended, 0, [];
      OtherCall(d, c, past, f, io);
    }
  }

  lemma OtherCall(d: Device, c: GuestCall, past: Past, f: FlatMemory, io: Io)
    requires c.nr !in {XSEND, XRECV, MEMSET, MEMCPY, STRLEN, STRNLEN}
    ensures Dispatched(d, c, past, f, io, Ended, 0, [])
  {
  }
}
