/** The main function of save.c in place: stack, boot code, application, and the guest's run. */
module Save {
  import opened Common
  import opened Word64
  import opened MemoryMap
  import opened Requests
  import opened Stack
  import opened Elf
  import Loading
  import LE = LittleEndian
  import opened MemoryManager
  import opened LoadFile
  import opened SaveMachine
  import opened Image
  import opened VirtualMachine
  import opened Migration
  import opened Session

  /** A C int stored in a uint64_t. */
  function AsWord(x: int): Word
    requires -0x8000_0000 <= x < 0x8000_0000
  {
    if x < 0 then x + 0x1_0000_0000_0000_0000 else x
  }

  function Entry(file: seq<byte>): Word
    requires |file| >= 64
  {
    EntryPointIsEntry(file);
    AsWord(EntryPoint(file))
  }

  /** In the order of struct kvm_regs: r14 is the stack, r15 the application's entry point, rip the boot code's. */
  function StartRegs(boot: seq<byte>, app: seq<byte>): Regs
    requires |boot| >= 64 && |app| >= 64
  {
    [0, 0, 0, 0, 0, 0, 0, 0, 0, 0, 0, 0, 0, 0, 0xE000, Entry(app), Entry(boot), 2]
  }

  /** The register that a file's entry point ends up in holds e_entry exactly if that is a sign-extended 32-bit number.
      */
  lemma {:induction false} EntryRegister(file: seq<byte>)
    requires |file| >= 64
    ensures var e := LE.WordAt(file, 24);
            Entry(file) == e <==> e < 0x8000_0000 || 0xFFFF_FFFF_8000_0000 <= e < 0x1_0000_0000_0000_0000
  {
    hide LE.WordAt, WordField;
    HeaderPositions(file);
    var e, low := WordField(file, 0x18), WordField(file, 0x18) % 0x1_0000_0000;
    assert EntryPoint(file) == if low < 0x8000_0000 then low else low - 0x1_0000_0000;
    assert e == e / 0x1_0000_0000 * 0x1_0000_0000 + low && e / 0x1_0000_0000 <= 0xFFFF_FFFF;
  }

  /** The first half: the machine with its stack, then the two files; the results are their entry points. */
  method BuildMachine(boot: seq<byte>, app: seq<byte>, ghost r: Loading.LoadState, ghost r': Loading.LoadState)
    returns (machine: Manager, bootEntry: int, appEntry: int)
    requires ValidFile(boot) && ValidFile(app) && AfterStack().Ok?
    requires Loading.LoadFile(AfterStack().value, NEW_PAGES, boot) == Ok(r)
    requires Loading.LoadFile(r.st, r.pages, app) == Ok(r')
    ensures machine.Valid() && machine.Contents() == r'.st && machine.memory.Length == 0xF000
    ensures fresh(machine) && fresh(machine.memory)
    ensures bootEntry == EntryPoint(boot) && appEntry == EntryPoint(app)
    ensures -0x8000_0000 <= bootEntry < 0x8000_0000 && -0x8000_0000 <= appEntry < 0x8000_0000
  {
    hide MapAll, StackRequests, Loading.LoadFile, Blank, Sections, ValidFile, NEW_PAGES, EntryPoint;
    machine := new Manager(VM_MEMORY_SIZE, NB_PAGE);
    BlankSizes();
    var loader := new Loader(machine, 0x1000);
    assert loader.pageDico[..] == NEW_PAGES by { UnseenPages(loader.pageDico[..]); }
    machine.CreateStack(STACK_ADDRESS, STACK_SIZE);
    assert Ok(machine.Contents()) == AfterStack();
    bootEntry := loader.LoadFile(boot);
    appEntry := loader.LoadFile(app);
  }

  lemma {:induction false} UnseenPages(pages: seq<int>)
    requires pages == seq(0x1000, _ => 0)
    ensures pages == NEW_PAGES
  {
  }

  /** save.c: from a machine whose rip is the boot code's entry point, r15 the application's, r14 the stack, rflags 2,
      and all other registers 0, with the memory that stack and files leave, the process runs for up to n exits. */
  method SaveMain<H(!new), O(!new)>(
    env: Env<H, O>, boot: seq<byte>, app: seq<byte>, sregs: Sregs, fpu: Fpu, hidden: H, host: O,
    n: nat, timestamp: Word, pad: Padding, ghost r: Loading.LoadState, ghost r': Loading.LoadState)
    returns (vmm: Vmm<H, O>, status: Status, left: nat, image: seq<byte>)
    requires |boot| >= 64 && |app| >= 64
    requires KeepsSize(env) && ValidFile(boot) && ValidFile(app) && AfterStack().Ok?
    requires Loading.LoadFile(AfterStack().value, NEW_PAGES, boot) == Ok(r)
    requires Loading.LoadFile(r.st, r.pages, app) == Ok(r')
    ensures var start := World(VmState(StartRegs(boot, app), sregs, fpu, r'.st.mem), hidden, host, []);
            (vmm.Now(), status, left) == Process(env, start, n)
    ensures vmm.vm.memory.Length == 0xF000
    ensures image == if status == Saved || status == Exited then Dump(vmm.Now().vm, 0xF000, timestamp, pad) else []
  {
    hide Loading.LoadFile, Process, KeepsSize, Dump, Sections, ValidFile, NEW_PAGES, EntryPoint, AfterStack;
    var machine, bootEntry, appEntry := BuildMachine(boot, app, r, r');
    var vm := new Vm(seq(18, _ => 0), sregs, fpu, machine.memory);
    vmm := new Vmm(env, vm, hidden, host, []);
    status, left, image := vmm.LaunchVm(AsWord(bootEntry), AsWord(appEntry), STACK_ADDRESS, n, 0xF000, timestamp, pad);
  }
}
