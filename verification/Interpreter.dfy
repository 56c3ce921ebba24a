/** rv_cpu_execute (vm/src/cpu.c), stream_init_app and stream_run_app (vm/src/stream.c) on the paged memory. */
module Interpreter {
  import opened Machine
  import opened Protocol
  import opened HostStream
  import opened PagedState
  import opened Flat
  import opened Pages
  import opened HostLink
  import opened Vm
  import opened Manifests
  import opened Runs
  import opened Syscalls
  import opened Cpu
  import opened Calls
  import opened Rounds

  /**
   Why a round can fail with the honest host: it does not answer, the call cannot be carried out, or
   an access is blocked.
   */
  ghost predicate RoundRefused(l: Layout, past: Past, s: System, io: Io) {
    || HostRound(io, s).None?
    || (Current(s.guest).op == ECALL && Round(s, HostRound(io, s).value.1).None?)
    || !Clear(l, past, Accesses(s, HostRound(io, s).value.1))
  }

  class RvCpu {
    var pc: u32
    const regs: array<u32>

    ghost predicate Valid()
      reads this
    {
      regs.Length == 32
    }

    ghost function State(): CpuState
      requires Valid()
      reads this, regs
    {
      CpuState(pc, regs[..])
    }

    /** The CPU and the device share nothing. */
    ghost predicate Apart(d: Device)
      reads this
    {
      this !in d.Repr() && regs !in d.Repr()
    }

    /** rv_cpu_reset. */
    constructor ()
      ensures Valid() && fresh(regs) && State() == CpuState(0, seq(32, i => 0))
    {
      pc, regs := 0, new u32[32](_ => 0);
      new;
      assert regs[..] == seq(32, i => 0);
    }

    /** The end of every instruction: register 0 stays zero and the program counter moves. */
    method Finish(pcSet: u32, pcInc: u32)
      requires Valid()
      modifies this`pc, regs
      ensures Valid() && State() == CpuState(Wrap32(pcSet + pcInc), old(regs[..])[0 := 0])
    {
      regs[0] := 0;
      pc := Wrap32(pcSet + pcInc);
    }

    /** The upper-immediate cases of rv_cpu_execute. */
    method ExecuteUpper(i: Insn)
      requires Valid() && i.op in {LUI, AUIPC}
      modifies this`pc, regs
      ensures Valid() && State() == Next(i, old(State()), 0)
    {
      hide Next, Wrap32;
      NextUpper(i, State());
      regs[i.rd] := if i.op == LUI then i.imm else Wrap32(pc + i.imm);
      Finish(pc, 4);
    }

    /** The jumps. */
    method ExecuteJump(i: Insn)
      requires Valid() && i.op in {JAL, JALR}
      modifies this`pc, regs
      ensures Valid() && State() == Next(i, old(State()), 0)
    {
      hide Next, Wrap32, Even;
      var pcInc: u32, pcSet: u32 := i.imm, pc;
      NextJump(i, State());
      if i.op == JALR {
        // rd and rs1 may be the same register.
        pcSet, pcInc := Even(Wrap32(regs[i.rs1] + i.imm)), 0;
      }
      regs[i.rd] := Wrap32(pc + 4);
      WrapSmall(pcSet);
      Finish(pcSet, pcInc);
    }

    /** The branch cases. */
    method ExecuteBranch(i: Insn)
      requires Valid() && i.op in {BEQ, BNE, BLT, BGE, BLTU, BGEU}
      modifies this`pc, regs
      ensures Valid() && State() == Next(i, old(State()), 0)
    {
      hide Next, Wrap32, Taken;
      BranchesOnly(i.op, regs[i.rs1], regs[i.rs2]);
      NextBranch(i, State());
      var pcInc := if Taken(i.op, regs[i.rs1], regs[i.rs2]).value then i.imm else 4;
      Finish(pc, pcInc);
    }

    /** The arithmetic cases. */
    method ExecuteArithmetic(i: Insn)
      requires Valid() && !Ends(i.op) && AccessOf(i, regs[..]).None?
      requires i.op !in {LUI, AUIPC, JAL, JALR, BEQ, BNE, BLT, BGE, BLTU, BGEU}
      modifies this`pc, regs
      ensures Valid() && State() == Next(i, old(State()), 0)
    {
      hide Next, Alu, Wrap32, Taken, Ends, AccessOf;
      NextArithmetic(i, State());
      if i.op == REMU && regs[i.rs2] == 0 {
        regs[i.rs1] := regs[i.rs2];
        regs[i.rd] := regs[i.rs1];
      } else if i.op == REMU {
        regs[i.rd] := Wrap32(regs[i.rs1] % regs[i.rs2]);
      } else {
        var value := Alu(i.op, regs[i.rs1], SecondOperand(i, regs[..]));
        if value.Some? {
          regs[i.rd] := value.value;
        }
      }
      Finish(pc, 4);
    }

    /** The cases of rv_cpu_execute that touch no memory. */
    method ExecuteRegisters(i: Insn)
      requires Valid() && !Ends(i.op) && AccessOf(i, regs[..]).None?
      modifies this`pc, regs
      ensures Valid() && State() == Next(i, old(State()), 0)
    {
      hide Next, Ends;
      match i.op {
        case LUI | AUIPC => ExecuteUpper(i);
        case JAL | JALR => ExecuteJump(i);
        case BEQ | BNE | BLT | BGE | BLTU | BGEU => ExecuteBranch(i);
        case _ => ExecuteArithmetic(i);
      }
    }

    /** A load gets its register once the value is there. */
    method FinishLoad(i: Insn, value: nat)
      requires Valid() && i.op in {LB, LH, LW, LBU, LHU}
      modifies this`pc, regs
      ensures Valid() && State() == Next(i, old(State()), value)
    {
      regs[i.rd] := Extended(i.op, value);
      Finish(pc, 4);
    }

    /**
     One round of stream_run_app: fetch and execute.  It is one round of the flat machine,
     whatever the host replies; with the honest host it fails only where it is refused.
     */
    method ExecuteNext(d: Device, ghost s: System, ghost past: Past, ghost io: Io)
        returns (stop: Stop, ghost next: System, ghost got: seq<u8>)
      requires Valid() && Apart(d) && State() == s.guest.cpu && Going(d, past, s.guest.memory)
      requires Settled(io) && (d.channel.honest ==> d.HostIo() == io)
      modifies this`pc, regs, d.Repr()
      ensures Valid() && Apart(d) && Went(d, s, past, io, stop, next, got)
    {
      hide Going, Next, Current, Word, FlatResult, FlatAfter, Ends, AccessOf, Step, Settled, Past.Then, Blocked;
      hide EffectOf, CallAccesses, HostAnswer, Clear;
      next, got := s, [];
      FetchKeeps(s.guest.memory, pc);
      var ok, inst := PerformNext(d, Fetch(pc), past, s.guest.memory);
      if !ok {
        if d.channel.honest {
          FetchBlocked(d.layout, past, s, io);
        }
        return Failed, s, [];
      }
      var i := Fields(inst);
      FetchedIsCurrent(s.guest);
      if i.op == ECALL {
        stop, next, got := ExecuteCall(d, s, past, io);
      } else {
        stop, next := ExecuteInsn(d, i, s, past, io);
      }
    }

    /** rv_cpu_execute on a fetched instruction other than ECALL. */
    method ExecuteInsn(d: Device, i: Insn, ghost s: System, ghost past: Past, ghost io: Io)
        returns (stop: Stop, ghost next: System)
      requires Valid() && Apart(d) && State() == s.guest.cpu && i == Current(s.guest) && i.op != ECALL
      requires Going(d, past.Then([Fetch(pc)]), s.guest.memory) && (d.channel.honest ==> d.HostIo() == io)
      modifies this`pc, regs, d.Repr()
      ensures Valid() && Apart(d) && Went(d, s, past, io, stop, next, [])
    {
      hide Going, Next, Current, Round, Accesses, FlatResult, FlatAfter, Ends, AccessOf, Past.Then, Blocked, Clear;
      next := s;
      var a := AccessOf(i, regs[..]);
      if Ends(i.op) {
        EndingRound(s);
        return Ended, s;
      }
      stop := Running;
      if a.None? {
        RegisterRound(s);
        ExecuteRegisters(i);
        next := System(Guest(State(), s.guest.memory), s.sent);
      } else {
        AccessSizes(i, regs[..]);
        AccessRound(s);
        ThenBoth(d.layout, past, Fetch(pc), a.value);
        var ok, value := PerformNext(d, a.value, past.Then([Fetch(pc)]), s.guest.memory);
        if !ok {
          return Failed, s;
        }
        FinishAccess(i, value);
        next := System(Guest(State(), FlatAfter(s.guest.memory, a.value)), s.sent);
      }
    }

    /** The ECALL case of rv_cpu_execute. */
    method ExecuteCall(d: Device, ghost s: System, ghost past: Past, ghost io: Io)
        returns (stop: Stop, ghost next: System, ghost got: seq<u8>)
      requires Valid() && Apart(d) && State() == s.guest.cpu && Current(s.guest).op == ECALL
      requires Going(d, past.Then([Fetch(pc)]), s.guest.memory)
      requires Settled(io) && (d.channel.honest ==> d.HostIo() == io)
      modifies this`pc, regs, d.Repr()
      ensures Valid() && Apart(d) && Went(d, s, past, io, stop, next, got)
    {
      hide Going, Current, Settled, EffectOf, CallAccesses, HostAnswer, Clear, Past.Then;
      next := s;
      var c := GuestCall(regs[T0], regs[A0], regs[A1], regs[A2]);
      var result;
      stop, result, got := Dispatch(d, c, past.Then([Fetch(pc)]), s.guest.memory, io);
      ThenAll(d.layout, past, Fetch(pc), CallAccesses(c, s.guest.memory, got));
      if stop == Running {
        regs[A0] := result;
        Finish(pc, 4);
        next := AfterEffect(s, EffectOf(c, s.guest.memory, got).value);
      } else if stop == Failed && d.channel.honest && HostAnswer(io, c, s.guest.memory).Some? {
        ThenAll(d.layout, past, Fetch(pc), CallAccesses(c, s.guest.memory, HostAnswer(io, c, s.guest.memory).value.1));
      }
    }

    /** What a round promises. */
    ghost predicate Went(d: Device, s: System, past: Past, io: Io, stop: Stop, next: System, got: seq<u8>)
      requires Valid()
      reads this, regs, d, d.Repr(), d.channel.host.merkletree
    {
      && (stop == Running ==>
            && Round(s, got) == Some(next) && State() == next.guest.cpu
            && Going(d, past.Then(Accesses(s, got)), next.guest.memory)
            && (d.channel.honest ==> HostRound(io, s) == Some((d.HostIo(), got))))
      && (stop == Ended ==> forall g :: Round(s, g).None?)
      && (stop == Failed && d.channel.honest ==> RoundRefused(d.layout, past, s, io))
    }

    /** After a load or a store. */
    method FinishAccess(i: Insn, value: nat)
      requires Valid() && i.op in {LB, LH, LW, LBU, LHU, SB, SH, SW}
      modifies this`pc, regs
      ensures Valid() && State() == Next(i, old(State()), value)
    {
      hide Next;
      if i.op in {LB, LH, LW, LBU, LHU} {
        FinishLoad(i, value);
      } else {
        StoreMovesOn(i, State(), value);
        Finish(pc, 4);
      }
    }

    /**
     stream_run_app, for at most `limit` rounds.  The guest does on the paged memory what it does on
     the flat one, system calls included, for every host and every eviction.  With the honest host
     the messages are those of its client, and the run stops early only where the guest ends or a
     round is refused.
     */
    method RunApp(d: Device, limit: nat, ghost memory: FlatMemory)
        returns (stop: Stop, rounds: nat, ghost now: System, ghost gots: seq<seq<u8>>)
      requires Valid() && Apart(d) && d.Valid() && Agrees(d.mem, memory) && (d.channel.honest ==> Settled(d.HostIo()))
      modifies this`pc, regs, d.Repr()
      ensures Valid() && Apart(d) && rounds == |gots| <= limit
      ensures RoundsOf(old(System(Guest(State(), memory), [])), gots) == Some(now)
      ensures d.channel.honest ==> HostAfter(old(d.HostIo()), old(System(Guest(State(), memory), [])), gots).Some?
      ensures stop == Running ==> rounds == limit && State() == now.guest.cpu && d.Valid() && Agrees(d.mem, now.guest.memory)
      ensures stop == Running && d.channel.honest ==>
        HostAfter(old(d.HostIo()), old(System(Guest(State(), memory), [])), gots) == Some(d.HostIo())
      ensures stop == Ended ==> forall g :: Round(now, g).None?
      ensures stop == Failed && d.channel.honest ==>
        var first := old(System(Guest(State(), memory), []));
        RoundRefused(d.layout, Past(old(StartOf(d)), Trace(first, gots)), now, HostAfter(old(d.HostIo()), first, gots).value)
    {
      hide Going, Round, Accesses, HostRound, Settled, RoundRefused;
      ghost var first := System(Guest(State(), memory), []);
      ghost var (start, io) := (StartOf(d), if d.channel.honest then d.HostIo() else Anybody());
      AnybodySettled();
      SetsOut(d, memory);
      ghost var io0 := io;
      stop, rounds, now, gots := Running, 0, first, [];
      while rounds < limit
        invariant Valid() && Apart(d) && rounds == |gots| <= limit && RoundsOf(first, gots) == Some(now)
        invariant State() == now.guest.cpu && Going(d, Past(start, Trace(first, gots)), now.guest.memory)
        invariant Settled(io) && (d.channel.honest ==> d.HostIo() == io && HostAfter(io0, first, gots) == Some(io))
      {
        ghost var next, got;
        stop, next, got := ExecuteNext(d, now, Past(start, Trace(first, gots)), io);
        if stop != Running {
          return;
        }
        OneRoundMore(first, gots, now, got);
        if d.channel.honest {
          RoundSettles(io, now);
          HostGoesOn(io0, first, gots, now, io, d.HostIo(), got);
          io := d.HostIo();
        }
        now, gots, rounds := next, gots + [got], rounds + 1;
      }
      stop := Running;
      GoingAgrees(d, Past(start, Trace(first, gots)), now.guest.memory);
    }
  }

  const SP: Reg := 2

  /** The CPU at the entry of an application; the stack pointer is a multiple of 16 below the end of the stack. */
  function BootState(m: Manifest): CpuState {
    CpuState(m.pc, seq(32, i => 0)[SP := Wrap32(m.stack.end - 4) / 16 * 16])
  }

  /** The guest an application starts as. */
  ghost function BootSystem(m: Manifest, app: App): System
    requires app.Valid()
  {
    System(Guest(BootState(m), InitialMemory(app)), [])
  }

  /**
   stream_init_app.  `signed` is the outcome of checking the device's signature of the manifest; a
   manifest it signed describes the application the tags were made for, if its stack ends with a page.
   */
  method StreamInitApp(m: Manifest, ghost app: App, cipher: Cipher, channel: Channel, signed: bool, slots: Slots)
      returns (cpu: RvCpu, device: Option<Device>)
    requires channel.Valid() && cipher.Valid() && slots.Valid()
    requires signed && Aligned(m.stack.end) ==> Describes(m, app) && channel.seen == SigningTags(app)
    requires signed && Aligned(m.stack.end) && channel.honest ==>
      HostInv(app.layout, cipher, BootBacking(app.layout, app.Initial(), channel.seen), channel.host.View())
    ensures fresh(cpu) && fresh(cpu.regs) && cpu.Valid()
    ensures device.Some? ==> fresh(device.value.Own())
    ensures device.Some? <==> signed && Aligned(m.stack.end)
    ensures device.Some? ==>
      var d := device.value;
      && d.Valid() && d.channel == channel && d.layout == app.layout && StartOf(d) == BootStart(app)
      && cpu.Apart(d) && Agrees(d.mem, InitialMemory(app)) && cpu.State() == BootState(m)
  {
    hide Device.Valid, HostInv, Agrees, Channel.Valid, Describes;
    cpu := new RvCpu();
    device := None;
    if !signed {
      return;
    }
    var sp := m.stack.end;
    if PageStart(sp) != sp {
      return;
    }
    DescribesValid(m, app);
    cpu.pc := m.pc;
    cpu.regs[SP] := Wrap32(sp - 4) / 16 * 16;
    var d := StartDevice(m, app, cipher, channel, slots);
    device := Some(d);
    BootAgrees(app);
  }

  lemma DescribesValid(m: Manifest, app: App)
    requires Describes(m, app)
    ensures app.Valid() && m.MemoryLayout() == app.layout
  {
  }

  lemma AnybodySettled()
    ensures Settled(Anybody())
  {
  }

  /** The word fetched is that of the instruction the flat machine is at. */
  lemma FetchedIsCurrent(m: Guest)
    ensures Fields(Word(m.memory, m.cpu.pc)) == Current(m)
  {
    hide Fields, Word;
  }

  lemma EndingRound(s: System)
    requires Current(s.guest).op != ECALL && Ends(Current(s.guest).op)
    ensures forall got :: Round(s, got).None?
  {
    hide Next, Fields, Word;
  }

  /** A round that makes no access but the fetch. */
  lemma RegisterRound(s: System)
    requires
      var i := Current(s.guest);
      i.op != ECALL && !Ends(i.op) && AccessOf(i, s.guest.cpu.regs).None?
    ensures Round(s, []) == Some(System(Guest(Next(Current(s.guest), s.guest.cpu, 0), s.guest.memory), s.sent))
    ensures Accesses(s, []) == [Fetch(s.guest.cpu.pc)]
  {
    hide Next, Fields, Word, AccessOf, Ends;
  }

  /** A round with a load or a store. */
  lemma AccessRound(s: System)
    requires
      var i := Current(s.guest);
      i.op != ECALL && !Ends(i.op) && AccessOf(i, s.guest.cpu.regs).Some?
    ensures
      var (i, m) := (Current(s.guest), s.guest);
      var a := AccessOf(i, m.cpu.regs).value;
      && Round(s, []) == Some(System(Guest(Next(i, m.cpu, FlatResult(m.memory, a)), FlatAfter(m.memory, a)), s.sent))
      && Accesses(s, []) == [Fetch(m.cpu.pc)] + [a]
  {
    hide Next, Fields, Word, AccessOf, Ends, FlatResult, FlatAfter;
  }

  lemma ThenAll(l: Layout, past: Past, a: Access, more: seq<Access>)
    ensures past.Then([a]).Then(more) == past.Then([a] + more)
    ensures Clear(l, past, [a] + more) ==> Clear(l, past.Then([a]), more)
  {
    hide Blocked;
    assert (past.made + [a]) + more == past.made + ([a] + more);
    forall k | 0 < k <= |more|
      ensures (past.made + [a]) + more[..k] == past.made + ([a] + more)[..k + 1]
    {
    }
  }

  lemma ThenBoth(l: Layout, past: Past, a: Access, b: Access)
    ensures past.Then([a]).Then([b]) == past.Then([a] + [b])
    ensures Clear(l, past, [a] + [b]) ==> !Blocked(l, past.Then([a]).start, past.Then([a]).made + [b])
  {
    hide Blocked;
    assert (past.made + [a]) + [b] == past.made + ([a] + [b])[..2];
  }

  lemma FetchBlocked(l: Layout, past: Past, s: System, io: Io)
    requires Blocked(l, past.start, past.made + [Fetch(s.guest.cpu.pc)])
    ensures RoundRefused(l, past, s, io)
  {
    hide Blocked, CallAccesses, AccessOf, HostRound, Round, Current;
    if HostRound(io, s).Some? {
      assert Accesses(s, HostRound(io, s).value.1)[..1] == [Fetch(s.guest.cpu.pc)];
    }
  }

  lemma NextUpper(i: Insn, s: CpuState)
    requires i.op in {LUI, AUIPC}
    ensures
      Next(i, s, 0)
      == CpuState(Wrap32(s.pc + 4), s.regs[i.rd := if i.op == LUI then i.imm else Wrap32(s.pc + i.imm)][0 := 0])
  {
  }

  lemma NextJump(i: Insn, s: CpuState)
    requires i.op in {JAL, JALR}
    ensures
      Next(i, s, 0)
      == CpuState(if i.op == JAL then Wrap32(s.pc + i.imm) else Even(Wrap32(s.regs[i.rs1] + i.imm)),
                  s.regs[i.rd := Wrap32(s.pc + 4)][0 := 0])
  {
  }

  lemma NextBranch(i: Insn, s: CpuState)
    requires i.op in {BEQ, BNE, BLT, BGE, BLTU, BGEU}
    ensures
      Next(i, s, 0)
      == CpuState(Wrap32(s.pc + if Taken(i.op, s.regs[i.rs1], s.regs[i.rs2]) == Some(true) then i.imm else 4), s.regs[0 := 0])
  {
    hide Taken;
    BranchesOnly(i.op, s.regs[i.rs1], s.regs[i.rs2]);
  }

  lemma NextArithmetic(i: Insn, s: CpuState)
    requires !Ends(i.op) && AccessOf(i, s.regs).None?
    requires i.op !in {LUI, AUIPC, JAL, JALR, BEQ, BNE, BLT, BGE, BLTU, BGEU}
    ensures
      var (x, y) := (s.regs[i.rs1], s.regs[i.rs2]);
      var value := Alu(i.op, x, SecondOperand(i, s.regs));
      var regs :=
        if i.op == REMU then (if y == 0 then s.regs[i.rs1 := 0][i.rd := 0] else s.regs[i.rd := Wrap32(x % y)])
        else if value.Some? then s.regs[i.rd := value.value] else s.regs;
      Next(i, s, 0) == CpuState(Wrap32(s.pc + 4), regs[0 := 0])
  {
    hide Alu, Taken;
    NoAccess(i, s.regs);
    BranchesOnly(i.op, s.regs[i.rs1], s.regs[i.rs2]);
  }

  lemma NoAccess(i: Insn, regs: Registers)
    requires AccessOf(i, regs).None?
    ensures i.op !in {LB, LH, LW, LBU, LHU, SB, SH, SW}
  {
  }

  lemma AccessSizes(i: Insn, regs: Registers)
    requires AccessOf(i, regs).Some?
    ensures Accessible(AccessOf(i, regs).value)
    ensures AccessOf(i, regs).value.Load? <==> i.op in {LB, LH, LW, LBU, LHU}
    ensures AccessOf(i, regs).value.Store? <==> i.op in {SB, SH, SW}
    ensures !AccessOf(i, regs).value.Fetch?
  {
  }

  lemma BranchesOnly(op: Op, x: u32, y: u32)
    ensures Taken(op, x, y).Some? <==> op in {BEQ, BNE, BLT, BGE, BLTU, BGEU}
    ensures op in {BEQ, BNE, BLT, BGE, BLTU, BGEU, SB, SH, SW} ==> Alu(op, x, y).None?
  {
  }

  /** A fetch returns the instruction word and changes nothing. */
  lemma FetchKeeps(f: FlatMemory, pc: u32)
    ensures FlatResult(f, Fetch(pc)) == Word(f, pc) && FlatAfter(f, Fetch(pc)) == f
  {
  }

  lemma StoreMovesOn(i: Insn, s: CpuState, value: nat)
    requires i.op in {SB, SH, SW}
    ensures Next(i, s, value) == CpuState(Wrap32(s.pc + 4), s.regs[0 := 0])
  {
  }
}
