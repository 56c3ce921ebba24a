/**
 The guest as a flat machine: the rounds of stream_run_app (vm/src/stream.c) on a flat memory, system
 calls included, and the honest host beside it.
 */
module Rounds {
  import opened Machine
  import opened HostStream
  import opened Flat
  import opened Runs
  import opened Syscalls
  import opened Cpu
  import opened Calls

  /** A guest and the messages it has sent. */
  datatype System = System(guest: Guest, sent: seq<seq<u8>>)

  /** The instruction of the next round. */
  function Current(m: Guest): Insn {
    Fields(Word(m.memory, m.cpu.pc))
  }

  function CallOf(regs: Registers): GuestCall {
    GuestCall(regs[T0], regs[A0], regs[A1], regs[A2])
  }

  /** The registers after a system call: its result is in a0. */
  function AfterCall(s: CpuState, result: u32): CpuState {
    CpuState(Wrap32(s.pc + 4), s.regs[A0 := result][0 := 0])
  }

  function AfterEffect(s: System, e: Effect): System {
    System(Guest(AfterCall(s.guest.cpu, e.result), e.memory), s.sent + e.sent)
  }

  /** One round; `got` are the bytes of a message received in it. */
  function Round(s: System, got: seq<u8>): Option<System> {
    if Current(s.guest).op == ECALL then
      var e := EffectOf(CallOf(s.guest.cpu.regs), s.guest.memory, got);
      if e.None? then None else Some(AfterEffect(s, e.value))
    else
      var m := Step(s.guest);
      if m.None? then None else Some(System(m.value, s.sent))
  }

  /** As many rounds as there are entries in `gots`. */
  function RoundsOf(s: System, gots: seq<seq<u8>>): Option<System> {
    if gots == [] then Some(s)
    else
      var before := RoundsOf(s, gots[..|gots| - 1]);
      if before.None? then None else Round(before.value, gots[|gots| - 1])
  }

  /** The accesses of a round: the fetch, and those of the instruction or the call. */
  function Accesses(s: System, got: seq<u8>): seq<Access> {
    var (i, regs) := (Current(s.guest), s.guest.cpu.regs);
    [Fetch(s.guest.cpu.pc)]
    + if i.op == ECALL then CallAccesses(CallOf(regs), s.guest.memory, got)
      else if AccessOf(i, regs).None? then []
      else [AccessOf(i, regs).value]
  }

  /** The accesses of all the rounds. */
  function Trace(s: System, gots: seq<seq<u8>>): seq<Access> {
    if gots == [] then []
    else
      var init := gots[..|gots| - 1];
      var before := RoundsOf(s, init);
      Trace(s, init) + if before.None? then [] else Accesses(before.value, gots[|gots| - 1])
  }

  /** What the honest host does in a round: it answers a call about messages. */
  function HostRound(io: Io, s: System): Option<(Io, seq<u8>)> {
    if Current(s.guest).op == ECALL then HostAnswer(io, CallOf(s.guest.cpu.regs), s.guest.memory) else Some((io, []))
  }

  /** The honest host after some rounds, if what was received in them is what it sent. */
  function HostAfter(io: Io, s: System, gots: seq<seq<u8>>): Option<Io> {
    if gots == [] then Some(io)
    else
      var init := gots[..|gots| - 1];
      var (io', s') := (HostAfter(io, s, init), RoundsOf(s, init));
      if io'.None? || s'.None? then None
      else
        var (r, got) := (HostRound(io'.value, s'.value), gots[|gots| - 1]);
        if r.None? || r.value.1 != got || Round(s'.value, got).None? then None else Some(r.value.0)
  }

  lemma OneRoundMore(s: System, gots: seq<seq<u8>>, now: System, got: seq<u8>)
    requires RoundsOf(s, gots) == Some(now)
    ensures RoundsOf(s, gots + [got]) == Round(now, got)
    ensures Trace(s, gots + [got]) == Trace(s, gots) + Accesses(now, got)
  {
    hide Round, Accesses;
    assert (gots + [got])[..|gots|] == gots;
  }

  lemma HostGoesOn(io: Io, s: System, gots: seq<seq<u8>>, now: System, io': Io, io'': Io, got: seq<u8>)
    requires RoundsOf(s, gots) == Some(now) && HostAfter(io, s, gots) == Some(io')
    requires HostRound(io', now) == Some((io'', got)) && Round(now, got).Some?
    ensures HostAfter(io, s, gots + [got]) == Some(io'')
  {
    hide Round, HostRound;
    assert (gots + [got])[..|gots|] == gots;
  }

  lemma RoundSettles(io: Io, s: System)
    requires Settled(io) && HostRound(io, s).Some?
    ensures Settled(HostRound(io, s).value.0)
  {
    hide HostAnswer, Settled;
    if Current(s.guest).op == ECALL {
      AnswerSettles(io, CallOf(s.guest.cpu.regs), s.guest.memory);
    }
  }

  /**
   Over any rounds with the honest host, its client's calls of `exchange` returned exactly the
   messages the guest sent, in order, one a call.
   */
  lemma {:induction false} ClientGetsMessages(io: Io, s: System, gots: seq<seq<u8>>)
    requires HostAfter(io, s, gots).Some? && s.sent == []
    ensures RoundsOf(s, gots).Some?
    ensures
      var (io', sent) := (HostAfter(io, s, gots).value, RoundsOf(s, gots).value.sent);
      io'.returned == io.returned + sent && |sent| <= |io.calls| && io'.calls == io.calls[|sent|..]
    decreases |gots|
  {
    if gots != [] {
      var (init, got) := (gots[..|gots| - 1], gots[|gots| - 1]);
      ClientGetsMessages(io, s, init);
      var (now, io') := (RoundsOf(s, init).value, HostAfter(io, s, init).value);
      hide Step, HostAnswer, EffectOf, Current;
      if Current(now.guest).op == ECALL {
        HostTakesSent(io', CallOf(now.guest.cpu.regs), now.guest.memory, got);
      }
    }
  }

  lemma HostTakesSent(io: Io, c: GuestCall, f: FlatMemory, got: seq<u8>)
    requires HostAnswer(io, c, f).Some? && EffectOf(c, f, got).Some?
    ensures
      var (io', sent) := (HostAnswer(io, c, f).value.0, EffectOf(c, f, got).value.sent);
      io'.returned == io.returned + sent && |sent| <= |io.calls| && io'.calls == io.calls[|sent|..]
  {
    hide Bytes, Write, LengthOf;
  }
}
