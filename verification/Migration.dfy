/** Whole runs of a guest over saves and restores, compared with one uninterrupted run. */
module Migration {
  import opened Common
  import opened Word64
  import opened Image
  import opened Layout
  import opened PageTable
  import opened Translation
  import opened Invariants
  import opened Refinement

  // ---------- The surroundings of a VM ----------

  /** Why KVM_RUN returned: a halt, one byte written to the serial port, or anything else. */
  datatype Exit = Hlt | SerialOut | OtherExit

  /** A host system call made for the guest: number, arguments, the guest memory it reads, and its result. */
  datatype Call = Call(nr: Word, a1: Word, a2: Word, a3: Word, mem: seq<byte>, result: Word)

  /** A running VMM: the VM, the processor state outside the image (MSRs such as STAR and LSTAR), the state of the host
      (open descriptors among it), and the calls made so far. */
  datatype World<H, O> = World(vm: VmState, hidden: H, host: O, calls: seq<Call>)

  /** The guest runs to its next exit; the host answers a system call. Both are arbitrary. */
  datatype Env<!H, !O> = Env(guest: (VmState, H) -> (VmState, H, Exit),
                             answer: (O, Word, Word, Word, Word, seq<byte>) -> (O, Word))

  /** What a process that resumes a saved VM starts from, and what the saving process puts into header and padding. */
  datatype Fresh<H, O> = Fresh(blank: VmState, hidden: H, host: O, timestamp: Word, pad: Padding)

  datatype Status = Running | Saved | Exited | Finished | Aborted

  ghost predicate Sized<H, O>(w: World<H, O>, size: nat) {
    |w.vm.mem| == size
  }

  /** The guest cannot change the amount of its memory. */
  ghost predicate KeepsSize<H(!new), O(!new)>(env: Env<H, O>) {
    forall vm, h :: |env.guest(vm, h).0.mem| == |vm.mem|
  }

  // ---------- One exit ----------

  const NR_WRITE: Word := 1
  const NR_OPEN: Word := 2
  const NR_CLOSE: Word := 3
  const NR_EXIT: Word := 60
  const NR_SAVE: Word := 999

  /** rip + 1 modulo 2^64: past the HLT instruction. */
  function NextRip(rip: Word): Word {
    if rip == TWO_64 - 1 then 0 else rip + 1
  }

  function SetRegs(vm: VmState, rax: Word): VmState {
    vm.(regs := vm.regs[RAX := rax][RIP := NextRip(vm.regs[RIP])])
  }

  /** syscall_handler: 1 to go on, 0 to stop. */
  function Handle<H, O>(env: Env<H, O>, w: World<H, O>): (World<H, O>, int) {
    var r := w.vm.regs;
    var nr := r[RAX];
    if nr == NR_WRITE || nr == NR_OPEN || nr == NR_CLOSE then
      var (host, result) := env.answer(w.host, nr, r[RDI], r[RSI], r[RDX], w.vm.mem);
      (World(SetRegs(w.vm, result), w.hidden, host,
             w.calls + [Call(nr, r[RDI], r[RSI], r[RDX], w.vm.mem, result)]), 1)
    else if nr == NR_EXIT || nr == NR_SAVE then (w.(vm := SetRegs(w.vm, 0)), 0)
    else (w.(vm := SetRegs(w.vm, nr)), 1)
  }

  /** In the positions of struct kvm_regs (0 is rax, 3 rdx, 4 rsi, 5 rdi, 16 rip): the handler stops exactly on 60 and
      999, always moves past the HLT instruction, performs exactly the calls 1 to 3, with rdi, rsi and rdx as arguments
      and the result in rax, and changes no register but rax and rip. */
  lemma {:induction false} HandlerEffect<H, O>(env: Env<H, O>, w: World<H, O>)
    ensures var (after, result) := Handle(env, w);
            var r, r', nr := w.vm.regs, after.vm.regs, w.vm.regs[0];
            && (result == 0 <==> nr == 60 || nr == 999) && (result == 0 ==> r'[0] == 0)
            && r'[16] == (r[16] as nat + 1) % 0x1_0000_0000_0000_0000
            && (forall i :: 0 <= i < 18 && i != 0 && i != 16 ==> r'[i] == r[i])
            && after.vm.(regs := r) == w.vm && after.hidden == w.hidden
            && (if 1 <= nr <= 3 then
                  && env.answer(w.host, nr, r[5], r[4], r[3], w.vm.mem) == (after.host, r'[0])
                  && after.calls == w.calls + [Call(nr, r[5], r[4], r[3], w.vm.mem, r'[0])]
                else after.calls == w.calls && after.host == w.host && (result != 0 ==> r'[0] == nr))
  {
    var nr := w.vm.regs[RAX];
    assert nr == NR_WRITE || nr == NR_OPEN || nr == NR_CLOSE <==> 1 <= nr <= 3;
  }

  function RunGuest<H, O>(env: Env<H, O>, w: World<H, O>): (World<H, O>, Exit) {
    var (vm, hidden, exit) := env.guest(w.vm, w.hidden);
    (w.(vm := vm, hidden := hidden), exit)
  }

  /** One turn of the loop of launch_vm and restore.c: run the guest, handle the exit. A stopped process has dumped its
      VM; Exited tells the guest's exit call from its SAVE call. */
  function Turn<H, O>(env: Env<H, O>, w: World<H, O>): (World<H, O>, Status) {
    var (w1, exit) := RunGuest(env, w);
    match exit
    case SerialOut => (w1, Finished)
    case OtherExit => (w1, Aborted)
    case Hlt =>
      var (w2, result) := Handle(env, w1);
      if result != 0 then (w2, Running)
      else (w2, if w1.vm.regs[RAX] == NR_EXIT then Exited else Saved)
  }

  /** From the guest's exit and its rax alone: a HLT with 60 is Exited, with 999 Saved, any other HLT is handled and the
      process goes on; the serial port ends the process and every other exit aborts it, with nothing done by the host.
      */
  lemma {:induction false} ExitEffect<H, O>(env: Env<H, O>, w: World<H, O>)
    ensures var (vm, hidden, exit) := env.guest(w.vm, w.hidden);
            var (after, status) := Turn(env, w);
            && status == (match exit
                          case SerialOut => Finished
                          case OtherExit => Aborted
                          case Hlt => if vm.regs[0] == 60 then Exited else if vm.regs[0] == 999 then Saved else Running)
            && after.hidden == hidden
            && (exit != Hlt ==> after == w.(vm := vm, hidden := hidden))
            && (exit == Hlt ==> after == Handle(env, w.(vm := vm, hidden := hidden)).0)
  {
  }

  // ---------- Runs ----------

  /** A process that runs for at most n exits. */
  function Process<H, O>(env: Env<H, O>, w: World<H, O>, n: nat): (World<H, O>, Status, nat)
    ensures Process(env, w, n).2 <= n && (Process(env, w, n).1 != Running ==> Process(env, w, n).2 < n)
    decreases n
  {
    if n == 0 then (w, Running, 0)
    else
      var (w1, status) := Turn(env, w);
      if status == Running then Process(env, w1, n - 1) else (w1, status, n - 1)
  }

  /** restore.c: a blank VM takes over the image; None if the image is refused. */
  function Resume<H, O>(image: seq<byte>, size: Word, from: Fresh<H, O>, calls: seq<Call>): Option<World<H, O>>
    requires size <= |from.blank.mem|
  {
    var (vm, rc) := Restore(image, from.blank, size);
    if rc == 0 then Some(World(vm, from.hidden, from.host, calls)) else None
  }

  /** The guest over any number of processes: each SAVE ends one, and the next one resumes from its image. */
  function Migrated<H, O>(env: Env<H, O>, w: World<H, O>, n: nat, size: Word, next: World<H, O> -> Fresh<H, O>)
    : (World<H, O>, Status)
    decreases n
  {
    var (w1, status, left) := Process(env, w, n);
    if status != Saved then (w1, status)
    else if size > |w1.vm.mem| || size > |next(w1).blank.mem| then (w1, Aborted)
    else
      var image := Dump(w1.vm, size, next(w1).timestamp, next(w1).pad);
      match Resume(image, size, next(w1), w1.calls)
      case None => (w1, Aborted)
      case Some(w2) => Migrated(env, w2, left, size, next)
  }

  /** One uninterrupted run, in which SAVE returns 0 and goes on. */
  function Uninterrupted<H, O>(env: Env<H, O>, w: World<H, O>, n: nat): (World<H, O>, Status)
    decreases n
  {
    if n == 0 then (w, Running)
    else
      var (w1, status) := Turn(env, w);
      if status == Running || status == Saved then Uninterrupted(env, w1, n - 1) else (w1, status)
  }

  // ---------- Runs as sequences of turns ----------

  /** Each world is the one before after one turn; the turns but the last one went on. */
  ghost predicate Turns<H(!new), O(!new)>(env: Env<H, O>, ws: seq<World<H, O>>, last: Status) {
    && |ws| >= 1
    && (forall i :: 0 <= i < |ws| - 1 ==> Turn(env, ws[i]).0 == ws[i + 1])
    && (forall i :: 0 <= i < |ws| - 2 ==> Turn(env, ws[i]).1 == Running)
    && last == if |ws| == 1 then Running else Turn(env, ws[|ws| - 2]).1
  }

  /** A process makes as many turns as there are exits to be observed, or stops after the first one that does not go on.
      */
  lemma {:induction false} ProcessTurns<H(!new), O(!new)>(env: Env<H, O>, w: World<H, O>, n: nat)
    returns (ws: seq<World<H, O>>)
    ensures var (after, status, left) := Process(env, w, n);
            && Turns(env, ws, status) && ws[0] == w && ws[|ws| - 1] == after
            && |ws| - 1 == n - left && (left > 0 ==> status != Running)
    decreases n
  {
    hide Turn;
    if n == 0 {
      ws := [w];
    } else if Turn(env, w).1 == Running {
      var rest := ProcessTurns(env, Turn(env, w).0, n - 1);
      ws := [w] + rest;
    } else {
      ws := [w, Turn(env, w).0];
    }
  }

  /** The uninterrupted run: turn after turn, past every SAVE, until n turns are made or one ends otherwise. */
  lemma {:induction false} UninterruptedTurns<H(!new), O(!new)>(env: Env<H, O>, w: World<H, O>, n: nat)
    returns (ws: seq<World<H, O>>)
    ensures 1 <= |ws| <= n + 1 && ws[0] == w && ws[|ws| - 1] == Uninterrupted(env, w, n).0
    ensures forall i :: 0 <= i < |ws| - 1 ==> Turn(env, ws[i]).0 == ws[i + 1]
    ensures forall i :: 0 <= i < |ws| - 2 ==> Turn(env, ws[i]).1 in {Running, Saved}
    ensures |ws| == n + 1 || Uninterrupted(env, w, n).1 !in {Running, Saved}
    ensures n > 0 ==>
              |ws| >= 2 && (Turn(env, ws[|ws| - 2]).1 in {Running, Saved} ==> Uninterrupted(env, w, n).1 == Running)
              && (Turn(env, ws[|ws| - 2]).1 !in {Running, Saved} ==>
                    Uninterrupted(env, w, n).1 == Turn(env, ws[|ws| - 2]).1)
    decreases n
  {
    hide Turn;
    if n == 0 {
      ws := [w];
    } else if Turn(env, w).1 in {Running, Saved} {
      var rest := UninterruptedTurns(env, Turn(env, w).0, n - 1);
      ws := [w] + rest;
      if n == 1 {
        assert ws == [w, Turn(env, w).0];
      }
    } else {
      ws := [w, Turn(env, w).0];
    }
  }

  // ---------- What the host does ----------

  /** Performing the calls one after the other from one state of the host gives the recorded results and the other
      state. */
  ghost predicate Performs<H(!new), O(!new)>(env: Env<H, O>, host: O, calls: seq<Call>, final: O)
    decreases |calls|
  {
    if calls == [] then final == host
    else
      var c := calls[0];
      var (next, result) := env.answer(host, c.nr, c.a1, c.a2, c.a3, c.mem);
      1 <= c.nr <= 3 && result == c.result && Performs(env, next, calls[1..], final)
  }

  lemma {:induction false} PerformsBoth<H(!new), O(!new)>(
    env: Env<H, O>, host: O, first: seq<Call>, middle: O, second: seq<Call>, final: O)
    requires Performs(env, host, first, middle) && Performs(env, middle, second, final)
    ensures Performs(env, host, first + second, final)
    decreases |first|
  {
    if first == [] {
      assert first + second == second;
    } else {
      var c := first[0];
      assert (first + second)[0] == c && (first + second)[1..] == first[1..] + second;
      PerformsBoth(env, env.answer(host, c.nr, c.a1, c.a2, c.a3, c.mem).0, first[1..], middle, second, final);
    }
  }

  /** The calls that were added from one world to a later one. */
  ghost predicate Performed<H(!new), O(!new)>(env: Env<H, O>, w: World<H, O>, after: World<H, O>) {
    && |w.calls| <= |after.calls| && after.calls[..|w.calls|] == w.calls
    && Performs(env, w.host, after.calls[|w.calls|..], after.host)
  }

  lemma {:induction false} PerformedBoth<H(!new),
         O(!new)>(env: Env<H, O>, w: World<H, O>, w1: World<H, O>, w2: World<H, O>)
    requires Performed(env, w, w1) && Performed(env, w1, w2)
    ensures Performed(env, w, w2)
  {
    hide Performs;
    var first, second := w1.calls[|w.calls|..], w2.calls[|w1.calls|..];
    PerformsBoth(env, w.host, first, w1.host, second, w2.host);
    assert w2.calls[|w.calls|..] == first + second;
    assert w2.calls[..|w.calls|] == w2.calls[..|w1.calls|][..|w.calls|];
  }

  lemma {:induction false} OneCallPerformed<H(!new), O(!new)>(env: Env<H, O>, host: O, c: Call, final: O)
    requires 1 <= c.nr <= 3 && env.answer(host, c.nr, c.a1, c.a2, c.a3, c.mem) == (final, c.result)
    ensures Performs(env, host, [c], final)
  {
    assert [c][1..] == [];
  }

  lemma {:induction false} TurnPerforms<H(!new), O(!new)>(env: Env<H, O>, w: World<H, O>)
    ensures Performed(env, w, Turn(env, w).0)
  {
    hide Turn, Handle;
    ExitEffect(env, w);
    var (vm, hidden, exit) := env.guest(w.vm, w.hidden);
    var w1 := w.(vm := vm, hidden := hidden);
    HandlerEffect(env, w1);
    var after := Turn(env, w).0;
    if exit == Hlt && 1 <= vm.regs[0] <= 3 {
      var c := after.calls[|w.calls|];
      assert after.calls[|w.calls|..] == [c];
      OneCallPerformed(env, w.host, c, after.host);
    } else {
      assert after.calls[|w.calls|..] == [];
    }
  }

  /** Over runs of any length, with any number of saves: replaying the recorded calls from the first state of the host
      yields every recorded result and the last state of the host. */
  lemma {:induction false} RunPerforms<H(!new), O(!new)>(env: Env<H, O>, w: World<H, O>, n: nat)
    ensures Performed(env, w, Uninterrupted(env, w, n).0)
    ensures Performed(env, w, Process(env, w, n).0)
    decreases n
  {
    hide Turn, Performed;
    if n == 0 {
      NothingPerformed(env, w);
    } else {
      var w1 := Turn(env, w).0;
      TurnPerforms(env, w);
      RunPerforms(env, w1, n - 1);
      PerformedBoth(env, w, w1, Uninterrupted(env, w1, n - 1).0);
      PerformedBoth(env, w, w1, Process(env, w1, n - 1).0);
    }
  }

  lemma {:induction false} NothingPerformed<H(!new), O(!new)>(env: Env<H, O>, w: World<H, O>)
    ensures Performed(env, w, w)
  {
    assert w.calls[|w.calls|..] == [];
  }

  // ---------- Transparency ----------

  /** The parts that are not in the image carry over from a world left by a SAVE to the process that resumes it. */
  ghost predicate CarriesOver<H(!new), O(!new)>(next: World<H, O> -> Fresh<H, O>, size: nat) {
    forall w :: Sized(w, size) && w.vm.regs[RAX] == 0 ==> next(w).hidden == w.hidden && next(w).host == w.host
  }

  ghost predicate BlankFits<H(!new), O(!new)>(next: World<H, O> -> Fresh<H, O>, size: nat) {
    forall w :: |next(w).blank.mem| == size
  }

  lemma {:induction false} TurnKeepsSize<H(!new), O(!new)>(env: Env<H, O>, w: World<H, O>, size: nat)
    requires KeepsSize(env) && Sized(w, size)
    ensures Sized(Turn(env, w).0, size)
    ensures Turn(env, w).1 == Saved ==> Turn(env, w).0.vm.regs[RAX] == 0
  {
  }

  /** A process up to its end, seen from the uninterrupted run. */
  lemma {:induction false} ProcessInRun<H(!new), O(!new)>(env: Env<H, O>, w: World<H, O>, n: nat, size: nat)
    requires KeepsSize(env) && Sized(w, size)
    ensures var (w1, status, left) := Process(env, w, n);
            && Sized(w1, size) && (status == Saved ==> w1.vm.regs[RAX] == 0)
            && Uninterrupted(env, w, n) == if status == Saved then Uninterrupted(env, w1, left) else (w1, status)
    decreases n
  {
    hide Turn, KeepsSize;
    if n > 0 {
      TurnKeepsSize(env, w, size);
      if Turn(env, w).1 == Running {
        ProcessInRun(env, Turn(env, w).0, n - 1, size);
      }
    }
  }

  /** Save, exit, restore and resume, any number of times, is the same as going on: the final VM state, the host, the
      sequence of host calls and the way the run ends agree for runs of every length. */
  lemma {:induction false} Transparency<H(!new), O(!new)>(
    env: Env<H, O>, w: World<H, O>, n: nat, size: Word, next: World<H, O> -> Fresh<H, O>)
    requires KeepsSize(env) && Sized(w, size) && BlankFits(next, size) && CarriesOver(next, size)
    ensures Migrated(env, w, n, size, next) == Uninterrupted(env, w, n)
    decreases n
  {
    hide Dump, Restore, Turn, KeepsSize, Process;
    ProcessInRun(env, w, n, size);
    var (w1, status, left) := Process(env, w, n);
    if status == Saved {
      var f := next(w1);
      RoundTrip(w1.vm, f.blank, size, f.timestamp, f.pad);
      assert w1.vm.mem[..size] + f.blank.mem[size..] == w1.vm.mem;
      assert Resume(Dump(w1.vm, size, f.timestamp, f.pad), size, f, w1.calls) == Some(w1);
      Transparency(env, w1, left, size, next);
    }
  }

  /** The calls made over all processes are the ones of one host, if its state carries over. */
  lemma {:induction false} MigrationPerforms<H(!new), O(!new)>(
    env: Env<H, O>, w: World<H, O>, n: nat, size: Word, next: World<H, O> -> Fresh<H, O>)
    requires KeepsSize(env) && Sized(w, size) && BlankFits(next, size) && CarriesOver(next, size)
    ensures Performed(env, w, Migrated(env, w, n, size, next).0)
  {
    hide Migrated, Uninterrupted, Performed, KeepsSize;
    Transparency(env, w, n, size, next);
    RunPerforms(env, w, n);
  }

  /** If all tables lie in the dumped part of memory, every address translates after the restore as it did before. */
  lemma {:induction false} TranslationSurvives(
    vm: VmState, blank: VmState, size: Word, timestamp: Word, pad: Padding, v: Word)
    requires size <= |vm.mem| && size <= |blank.mem|
    requires Tree(vm.mem) && forall t: nat :: TablePage(vm.mem, t) ==> (t + 1) * PAGE <= size
    ensures GvaToGpa(Restore(Dump(vm, size, timestamp, pad), blank, size).0.mem, v) == GvaToGpa(vm.mem, v)
    ensures GvaToGpa(vm.mem, v).Ok?
  {
    hide Dump, Restore, Target, GvaToGpa, Leaf;
    RoundTrip(vm, blank, size, timestamp, pad);
    var m, m' := vm.mem, vm.mem[..size] + blank.mem[size..];
    forall t: nat | TablePage(m, t)
      ensures SamePage(m, m', t)
    {
      assert m'[..size] == m[..size];
      SliceOfSlice(m, 0, size, t * PAGE, (t + 1) * PAGE);
      SliceOfSlice(m', 0, size, t * PAGE, (t + 1) * PAGE);
      assert m[..size] == m[0..size] && m'[..size] == m'[0..size];
    }
    forall p | Depth(p) <= 4
      ensures Target(m', p) == Target(m, p)
    {
      SameTablesSameTargets(m, m', p);
    }
    SameTargetsSameSpace(m, m');
    SameTree(m, m');
    SameSpaceSameTranslation(m, m', v);
    WalkIsTranslate(m, v);
  }

  lemma {:induction false} SameTree(m: seq<byte>, m': seq<byte>)
    requires Tree(m) && SameTables(m, m') && forall p :: Depth(p) <= 4 ==> Target(m', p) == Target(m, p)
    ensures Tree(m')
  {
    hide Target;
    forall p | IsTable(p) && Target(m', p).Some?
      ensures InMemory(m', Target(m', p).value)
    {
      assert TablePage(m, Target(m, p).value);
    }
  }

  // ---------- What is not in the image matters ----------

  /** A guest that is about to SAVE in state w, and then acts on the processor state that is not in the image. */
  ghost function Probe<H(!new), O(!new)>(w: World<H, O>): Env<H, O> {
    Env((vm: VmState, h: H) =>
          if vm != w.vm then
            (vm.(regs := w.vm.regs[RAX := NR_SAVE][RIP := Before(w.vm.regs[RIP])], sregs := w.vm.sregs,
                   fpu := w.vm.fpu), h, Hlt)
          else if h == w.hidden then (vm.(regs := vm.regs[RAX := NR_CLOSE]), h, Hlt)
          else (vm, h, OtherExit),
        (o: O, nr: Word, a1: Word, a2: Word, a3: Word, mem: seq<byte>) =>
          (o, if o == w.host then 0 else 1))
  }

  function Before(rip: Word): Word {
    if rip == 0 then TWO_64 - 1 else rip - 1
  }

  /** Wherever the hidden state or the host does not carry over, some guest tells the two runs apart after two exits. */
  lemma {:induction false} UnsavedStateMatters<H(!new), O(!new)>(
    w: World<H, O>, size: Word, next: World<H, O> -> Fresh<H, O>)
    returns (env: Env<H, O>, start: World<H, O>)
    requires Sized(w, size) && w.vm.regs[RAX] == 0 && BlankFits(next, size)
    requires next(w).hidden != w.hidden || next(w).host != w.host
    ensures KeepsSize(env) && Sized(start, size)
    ensures Migrated(env, start, 2, size, next) != Uninterrupted(env, start, 2)
  {
    env := Probe(w);
    start := w.(vm := w.vm.(regs := w.vm.regs[RAX := 1]));
    ProbeSaves(w, start);
    ProbeAfterwards(w, w);
    var f := next(w);
    var resumed := World(w.vm, f.hidden, f.host, w.calls);
    ProbeAfterwards(w, resumed);
    AfterOneSave(env, start, w, size, next);
  }

  lemma {:induction false} ProbeSaves<H(!new), O(!new)>(w: World<H, O>, start: World<H, O>)
    requires w.vm.regs[RAX] == 0 && start == w.(vm := w.vm.(regs := w.vm.regs[RAX := 1]))
    ensures KeepsSize(Probe(w)) && Turn(Probe(w), start) == (w, Saved)
  {
    var r: Regs := w.vm.regs[RAX := NR_SAVE][RIP := Before(w.vm.regs[RIP])];
    assert start.vm != w.vm by { assert start.vm.regs[RAX] == 1; }
    assert (r[RAX := 0])[RIP := NextRip(r[RIP])] == w.vm.regs;
  }

  lemma {:induction false} ProbeAfterwards<H(!new), O(!new)>(w: World<H, O>, now: World<H, O>)
    requires now.vm == w.vm && now.calls == w.calls
    ensures var (after, status) := Turn(Probe(w), now);
            && status == (if now.hidden == w.hidden then Running else Aborted)
            && (now.hidden == w.hidden ==>
                  |after.calls| == |w.calls| + 1 &&
                  after.calls[|w.calls|].result == if now.host == w.host then 0 else 1)
  {
  }

  /** A run that saves at its first exit, taken one exit further. */
  lemma {:induction false} AfterOneSave<H(!new), O(!new)>(
    env: Env<H, O>, start: World<H, O>, w: World<H, O>, size: Word, next: World<H, O> -> Fresh<H, O>)
    requires Turn(env, start) == (w, Saved) && Sized(w, size) && BlankFits(next, size)
    requires Turn(env, w).1 != Saved && Turn(env, World(w.vm, next(w).hidden, next(w).host, w.calls)).1 != Saved
    ensures Uninterrupted(env, start, 2) == Turn(env, w)
    ensures Migrated(env, start, 2, size, next) == Turn(env, World(w.vm, next(w).hidden, next(w).host, w.calls))
  {
    hide Dump, Restore, Turn;
    var f := next(w);
    RoundTrip(w.vm, f.blank, size, f.timestamp, f.pad);
    assert w.vm.mem[..size] + f.blank.mem[size..] == w.vm.mem;
    var w2 := World(w.vm, f.hidden, f.host, w.calls);
    assert Resume(Dump(w.vm, size, f.timestamp, f.pad), size, f, w.calls) == Some(w2);
    assert Process(env, start, 2) == (w, Saved, 1);
    var (x, status) := Turn(env, w2);
    assert Process(env, x, 0) == (x, Running, 0);
    assert Process(env, w2, 1) == (x, status, 0);
    assert Migrated(env, w2, 1, size, next) == (x, status);
    var (y, st) := Turn(env, w);
    assert Uninterrupted(env, y, 0) == (y, Running);
    assert Uninterrupted(env, w, 1) == (y, st);
  }

  ghost predicate Transparent<H(!new), O(!new)>(next: World<H, O> -> Fresh<H, O>, size: Word) {
    forall env: Env<H, O>, w: World<H, O>, n: nat :: KeepsSize(env) && Sized(w, size) ==>
      Migrated(env, w, n, size, next) == Uninterrupted(env, w, n)
  }

  /** Migration is transparent for every guest, every host and every length exactly when the state outside the image
      carries over at every SAVE. */
  lemma {:induction false} TransparentExactly<H(!new), O(!new)>(next: World<H, O> -> Fresh<H, O>, size: Word)
    requires BlankFits(next, size)
    ensures Transparent(next, size) <==> CarriesOver(next, size)
  {
    hide Migrated, Uninterrupted, KeepsSize;
    if CarriesOver(next, size) {
      forall env: Env<H, O>, w: World<H, O>, n: nat | KeepsSize(env) && Sized(w, size)
        ensures Migrated(env, w, n, size, next) == Uninterrupted(env, w, n)
      {
        Transparency(env, w, n, size, next);
      }
    } else {
      var w :| Sized(w, size) && w.vm.regs[RAX] == 0 && !(next(w).hidden == w.hidden && next(w).host == w.host);
      var env, start := UnsavedStateMatters(w, size, next);
      assert !Transparent(next, size);
    }
  }
}
