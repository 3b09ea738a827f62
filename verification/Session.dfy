/** The exit-handling loop of a VMM process, working on the vCPU and guest memory in place. */
module Session {
  import opened Common
  import opened Word64
  import opened Image
  import opened VirtualMachine
  import opened Migration

  class Vmm<!H(!new), !O(!new)> {
    const env: Env<H, O>
    const vm: Vm
    var hidden: H
    var host: O
    var calls: seq<Call>

    ghost function Now(): World<H, O>
      reads this, vm, vm.memory
    {
      World(vm.Contents(), hidden, host, calls)
    }

    constructor (e: Env<H, O>, v: Vm, h: H, o: O, c: seq<Call>)
      ensures env == e && vm == v && hidden == h && host == o && calls == c
    {
      env, vm, hidden, host, calls := e, v, h, o, c;
    }

    /** KVM_RUN: the guest changes registers and memory until its next exit. */
    method KvmRun() returns (exit: Exit)
      requires KeepsSize(env)
      modifies this`hidden, vm, vm.memory
      ensures (Now(), exit) == RunGuest(env, old(Now()))
    {
      var (state, h, e) := env.guest(VmState(vm.regs, vm.sregs, vm.fpu, vm.memory[..]), hidden);
      vm.regs, vm.sregs, vm.fpu := state.regs, state.sregs, state.fpu;
      forall k | 0 <= k < vm.memory.Length {
        vm.memory[k] := state.mem[k];
      }
      assert vm.memory[..] == state.mem;
      hidden, exit := h, e;
    }

    /** The system call handler: 0 asks the VMM to dump the VM and exit. It always moves past the HLT instruction. */
    method SyscallHandler() returns (result: int)
      modifies this`host, this`calls, vm
      ensures (Now(), result) == Handle(env, old(Now()))
      ensures result == 0 <==> old(vm.regs)[0] == 60 || old(vm.regs)[0] == 999
      ensures vm.regs[16] == (old(vm.regs)[16] as nat + 1) % 0x1_0000_0000_0000_0000
      ensures var r := old(vm.regs);
              if 1 <= r[0] <= 3 then
                && env.answer(old(host), r[0], r[5], r[4], r[3], old(vm.memory[..])) == (host, vm.regs[0])
                && calls == old(calls) + [Call(r[0], r[5], r[4], r[3], old(vm.memory[..]), vm.regs[0])]
              else host == old(host) && calls == old(calls)
    {
      HandlerEffect(env, Now());
      var regs := vm.regs;
      var arg1, arg2, arg3 := regs[RDI], regs[RSI], regs[RDX];
      var nr := regs[RAX];
      if nr == NR_WRITE || nr == NR_OPEN || nr == NR_CLOSE {
        var (o, answer) := env.answer(host, nr, arg1, arg2, arg3, vm.memory[..]);
        host := o;
        calls := calls + [Call(nr, arg1, arg2, arg3, vm.memory[..], answer)];
        regs := regs[RAX := answer];
      } else if nr == NR_EXIT || nr == NR_SAVE {
        vm.regs := regs[RAX := 0][RIP := NextRip(regs[RIP])];
        return 0;
      }
      vm.regs := regs[RIP := NextRip(regs[RIP])];
      assert regs[RAX := regs[RAX]] == regs;
      result := 1;
    }

    /** One turn of the loop. An image is written exactly for a HLT with rax 60 or 999, and then it is that of the VM.
        */
    method OneTurn(size: Word, timestamp: Word, pad: Padding) returns (status: Status, image: seq<byte>)
      requires KeepsSize(env) && size <= vm.memory.Length
      modifies this`hidden, this`host, this`calls, vm, vm.memory
      ensures (Now(), status) == Turn(env, old(Now()))
      ensures var (guest, h, exit) := env.guest(old(Now()).vm, old(hidden));
              && hidden == h && (status == Saved <==> exit == Hlt && guest.regs[0] == 999)
              && (status == Exited <==> exit == Hlt && guest.regs[0] == 60)
              && (status == Finished <==> exit == SerialOut) && (status == Aborted <==> exit == OtherExit)
      ensures image == if status == Saved || status == Exited then Dump(Now().vm, size, timestamp, pad) else []
    {
      hide RunGuest, Handle, KeepsSize, Dump;
      ExitEffect(env, Now());
      var exit := KvmRun();
      ghost var w1 := Now();
      image := [];
      match exit
      case SerialOut => status := Finished;
      case OtherExit => status := Aborted;
      case Hlt =>
        var nr := vm.regs[RAX];
        var result := SyscallHandler();
        if result != 0 {
          status := Running;
        } else {
          var fp, rc := vm.DumpVmState(size, timestamp, pad);
          image := fp.data;
          status := if nr == NR_EXIT then Exited else Saved;
        }
    }

    /** The loop of launch_vm and restore.c, observed for at most n exits. */
    method RunLoop(n: nat, size: Word, timestamp: Word, pad: Padding)
      returns (status: Status, left: nat, image: seq<byte>)
      requires KeepsSize(env) && size <= vm.memory.Length
      modifies this`hidden, this`host, this`calls, vm, vm.memory
      ensures (Now(), status, left) == Process(env, old(Now()), n)
      ensures image == if status == Saved || status == Exited then Dump(Now().vm, size, timestamp, pad) else []
    {
      hide Turn, KeepsSize, Dump;
      ghost var goal := Process(env, Now(), n);
      status, left, image := Running, n, [];
      while left > 0
        invariant Process(env, Now(), left) == goal && status == Running && left <= n && image == []
        decreases left
      {
        left := left - 1;
        status, image := OneTurn(size, timestamp, pad);
        if status != Running {
          return;
        }
      }
    }

    /** launch_vm: in the order of struct kvm_regs all registers are zero but r14, the stack, r15, the application's
        entry point, rip, that of the boot code, and rflags, 2. */
    method LaunchVm(bootRip: Word, appRip: Word, sp: Word, n: nat, size: Word, timestamp: Word, pad: Padding)
      returns (status: Status, left: nat, image: seq<byte>)
      requires KeepsSize(env) && size <= vm.memory.Length
      modifies this`hidden, this`host, this`calls, vm, vm.memory
      ensures var regs: Regs := [0, 0, 0, 0, 0, 0, 0, 0, 0, 0, 0, 0, 0, 0, sp, appRip, bootRip, 2];
              (Now(), status, left) == Process(env, old(Now()).(vm := old(Now()).vm.(regs := regs)), n)
      ensures image == if status == Saved || status == Exited then Dump(Now().vm, size, timestamp, pad) else []
    {
      hide Process, KeepsSize, Dump;
      vm.regs := seq(18, _ => 0)[RIP := bootRip][RFLAGS := 0x2][R15 := appRip][R14 := sp];
      assert vm.regs == [0, 0, 0, 0, 0, 0, 0, 0, 0, 0, 0, 0, 0, 0, sp, appRip, bootRip, 2];
      status, left, image := RunLoop(n, size, timestamp, pad);
    }

    /** restore.c: put the image into a blank VM and run it. A refused or incomplete image ends the process before the
        guest runs: the VM is left as far as it was read, and nothing else has happened. */
    method RestoreMain(image: seq<byte>, n: nat, size: Word, timestamp: Word, pad: Padding)
      returns (resumed: bool, status: Status, left: nat, next: seq<byte>)
      requires KeepsSize(env) && size == vm.memory.Length
      modifies this`hidden, this`host, this`calls, vm, vm.memory
      ensures var start := Resume(image, size, Fresh(old(Now()).vm, old(hidden), old(host), timestamp, pad),
              old(calls));
              && resumed == start.Some?
              && (resumed ==> (Now(), status, left) == Process(env, start.value, n))
      ensures !resumed ==> Now() == old(Now()).(vm := Restore(image, old(Now()).vm, size).0) && next == []
      ensures resumed && (status == Saved || status == Exited) ==> next == Dump(Now().vm, size, timestamp, pad)
    {
      hide Process, KeepsSize, Restore, Dump;
      var fp := new File(image);
      var rc := vm.RestoreVmState(fp, size);
      if rc < 0 {
        return false, Aborted, n, [];
      }
      resumed := true;
      status, left, next := RunLoop(n, size, timestamp, pad);
    }
  }

  // ---------- From one process to the next ----------

  /** One process of a guest that is saved and resumed: where it started, where it stopped, and the image it wrote. */
  datatype Generation<H, O> =
    Generation(start: World<H, O>, stop: World<H, O>, status: Status, left: nat, image: seq<byte>)

  /** What LaunchVm and RestoreMain promise of a process that is observed for n exits. */
  ghost predicate Ran<H(!new), O(!new)>(
    env: Env<H, O>, g: Generation<H, O>, n: nat, size: Word, next: World<H, O> -> Fresh<H, O>)
  {
    && (g.stop, g.status, g.left) == Process(env, g.start, n)
    && (g.status == Saved ==>
          size <= |g.stop.vm.mem| && g.image == Dump(g.stop.vm, size, next(g.stop).timestamp, next(g.stop).pad))
  }

  /** The next process started with a blank VM and took over the image. */
  ghost predicate TookOver<H(!new), O(!new)>(
    g: Generation<H, O>, g': Generation<H, O>, size: Word, next: World<H, O> -> Fresh<H, O>)
  {
    && g.status == Saved && size <= |next(g.stop).blank.mem|
    && Resume(g.image, size, next(g.stop), g.stop.calls) == Some(g'.start)
  }

  /** A process, the process that takes over its image, and so on until one ends without a SAVE; n exits in all. */
  ghost predicate Generations<H(!new), O(!new)>(
    env: Env<H, O>, gs: seq<Generation<H, O>>, n: nat, size: Word, next: World<H, O> -> Fresh<H, O>)
    decreases |gs|
  {
    && gs != [] && Ran(env, gs[0], n, size, next)
    && if |gs| == 1 then gs[0].status != Saved
       else TookOver(gs[0], gs[1], size, next) && Generations(env, gs[1..], gs[0].left, size, next)
  }

  /** Processes chained by their contracts end where Migrated says. */
  lemma {:induction false} GenerationsAreMigrated<H(!new), O(!new)>(
    env: Env<H, O>, gs: seq<Generation<H, O>>, n: nat, size: Word, next: World<H, O> -> Fresh<H, O>)
    requires Generations(env, gs, n, size, next)
    ensures Migrated(env, gs[0].start, n, size, next) == (gs[|gs| - 1].stop, gs[|gs| - 1].status)
    decreases |gs|
  {
    hide Process, Resume, Dump;
    if |gs| > 1 {
      GenerationsAreMigrated(env, gs[1..], gs[0].left, size, next);
    }
  }

  /** So however often the guest is saved, the last process stops where one process would have that never saves. */
  lemma {:induction false} GenerationsAreTransparent<H(!new), O(!new)>(
    env: Env<H, O>, gs: seq<Generation<H, O>>, n: nat, size: Word, next: World<H, O> -> Fresh<H, O>)
    requires Generations(env, gs, n, size, next)
    requires KeepsSize(env) && Sized(gs[0].start, size) && BlankFits(next, size) && CarriesOver(next, size)
    ensures Uninterrupted(env, gs[0].start, n) == (gs[|gs| - 1].stop, gs[|gs| - 1].status)
  {
    hide Ran, TookOver, KeepsSize, Migrated, Uninterrupted;
    GenerationsAreMigrated(env, gs, n, size, next);
    Transparency(env, gs[0].start, n, size, next);
  }
}
