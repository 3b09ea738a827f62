/** Any mix of create_stack and load_file calls in one process. */
module Clients {
  import opened Common
  import opened Layout
  import opened Word64
  import opened Allocator
  import opened MemoryMap
  import opened PageTable
  import opened Translation
  import opened Refinement
  import opened Requests
  import opened Stack
  import opened Invariants
  import opened Elf
  import opened Reservation
  import opened Overflow
  import opened LoadFile

  datatype Client = CreateStack(addr: Word, size: Word) | LoadElf(file: seq<byte>)

  /** The machine and the loader's dictionary, which lives as long as the process. */
  datatype Vmm = Vmm(st: State, pages: seq<int>)

  predicate WellPosed(c: Client) {
    match c
    case CreateStack(_, size) => size % PAGE == 0
    case LoadElf(file) => ValidFile(file)
  }

  function Serve(p: Vmm, c: Client): Outcome<Vmm>
    requires WellPosed(c)
  {
    match c
    case CreateStack(addr, size) =>
      var st :- MapAll(p.st, StackRequests(addr, size));
      Ok(p.(st := st))
    case LoadElf(file) =>
      var ls :- Loading.LoadFile(p.st, p.pages, file);
      Ok(Vmm(ls.st, ls.pages))
  }

  /** For some number of pages the call has room for its tables, its frames are admissible, and that room does not
      contain a page that an earlier file ran over. */
  ghost predicate Admissible(p: Vmm, over: set<nat>, c: Client) {
    WellPosed(c) &&
    match c
    case CreateStack(addr, size) => size <= addr && exists k :: StackAdmissible(p.st, over, addr, size, k)
    case LoadElf(file) => exists k :: FileAdmissible(p.st, over, p.pages, file, k)
  }

  ghost predicate StackAdmissible(st: State, over: set<nat>, addr: Word, size: Word, k: nat)
    requires size % PAGE == 0
  {
    Budget(st, StackRequests(addr, size), k) && forall p :: p in Free(st.dico)[..k] ==> p !in over
  }

  /** The pages that files have been loaded over. */
  function OverAfter(over: set<nat>, c: Client): set<nat>
    requires WellPosed(c)
  {
    match c
    case CreateStack(_, _) => over
    case LoadElf(file) => over + TouchedPages(Sections(file))
  }

  function OverAll(over: set<nat>, cs: seq<Client>): set<nat>
    requires forall c :: c in cs ==> WellPosed(c)
    decreases |cs|
  {
    if cs == [] then over else OverAll(OverAfter(over, cs[0]), cs[1..])
  }

  function ServeAll(p: Vmm, cs: seq<Client>): Outcome<Vmm>
    requires forall c :: c in cs ==> WellPosed(c)
    decreases |cs|
  {
    if cs == [] then Ok(p)
    else
      var p1 :- Serve(p, cs[0]);
      ServeAll(p1, cs[1..])
  }

  ghost predicate AllAdmissible(p: Vmm, over: set<nat>, cs: seq<Client>)
    decreases |cs|
  {
    cs != [] ==>
      && Admissible(p, over, cs[0])
      && (Serve(p, cs[0]).Ok? ==> AllAdmissible(Serve(p, cs[0]).value, OverAfter(over, cs[0]), cs[1..]))
  }

  ghost predicate GoodState(st: State, over: set<nat>) {
    Sound(st, over) && Identity(st.mem) && Pruned(st.mem)
  }

  lemma {:induction false} MapAllKeepsPruned(s: State, reqs: seq<Request>, k: nat)
    requires WellFormed(s) && Pruned(s.mem) && Budget(s, reqs, k)
    ensures MapAll(s, reqs).Ok? && Pruned(MapAll(s, reqs).value.mem)
    decreases |reqs|
  {
    hide WellFormed, Pruned, Map, Budget, Ready, Space, NewFrame, FreeList;
    if reqs != [] {
      BudgetReady(s, reqs, k, reqs[0]);
      MapKeepsPruned(s, reqs[0].virt, reqs[0].phys);
      MapRefinesInsert(s, reqs[0].virt, reqs[0].phys);
      var left := BudgetStep(s, reqs, k);
      MapAllKeepsPruned(Map(s, reqs[0].virt, reqs[0].phys).value, reqs[1..], left);
    }
  }

  lemma {:induction false} StackKeeps(st: State, over: set<nat>, addr: Word, size: Word, k: nat)
    requires GoodState(st, over) && size % PAGE == 0 && size <= addr && StackAdmissible(st, over, addr, size, k)
    ensures MapAll(st, StackRequests(addr, size)).Ok?
    ensures GoodState(MapAll(st, StackRequests(addr, size)).value, over)
  {
    hide WellFormed, Pruned, MapAll, StackRequests, Budget, Space, Sound, OutOfReach, Marking;
    var reqs, t := StackRequests(addr, size), WithReserved(st, over);
    BudgetReserved(st, over, reqs, k);
    MapAllKeepsSound(st, over, reqs, k);
    SoundWellFormed(st, over);
    StackIsExact(t, addr, size, k);
    MapAllKeepsPruned(t, reqs, k);
  }

  lemma {:induction false} ServeKeeps(p: Vmm, over: set<nat>, c: Client)
    requires GoodState(p.st, over) && Admissible(p, over, c)
    ensures Serve(p, c).Ok? && GoodState(Serve(p, c).value.st, OverAfter(over, c))
  {
    hide WellFormed, Identity, Pruned, MapAll, StackRequests, Budget, FileAdmissible, Loading.LoadFile, Space, Sound,
         Loading.KeepsTargets, StackAdmissible, TouchedPages;
    match c
    case CreateStack(addr, size) =>
      var k :| StackAdmissible(p.st, over, addr, size, k);
      StackKeeps(p.st, over, addr, size, k);
    case LoadElf(file) =>
      var k :| FileAdmissible(p.st, over, p.pages, file, k);
      LoadFileCorrect(p.st, over, p.pages, file, k);
  }

  /** Along every admissible mix of stacks and files the tables stay identity-mapped, free of useless tables, and
      well-formed up to the pages that files were loaded over, so the system call handler's shortcut is the translation
      for every mapped address other than 0. */
  lemma {:induction false} MixKeeps(p: Vmm, over: set<nat>, cs: seq<Client>, gva: Word)
    requires GoodState(p.st, over) && AllAdmissible(p, over, cs) && forall c :: c in cs ==> WellPosed(c)
    ensures ServeAll(p, cs).Ok? && GoodState(ServeAll(p, cs).value.st, OverAll(over, cs))
    ensures var m := ServeAll(p, cs).value.st.mem;
            GvaToHva(m, gva) == Ok(Some(gva)) <==> Vpn(gva) in Space(m) && 0 < gva < 0x1_0000_0000_0000
    decreases |cs|
  {
    hide Sound, Tree, Identity, Pruned, Serve, Admissible, GvaToHva, Space, Vpn, WellPosed, OverAfter;
    if cs == [] {
      SoundTree(p.st, over);
      HandlerPointerIsTranslation(p.st.mem, gva);
    } else {
      ServeKeeps(p, over, cs[0]);
      MixKeeps(Serve(p, cs[0]).value, OverAfter(over, cs[0]), cs[1..], gva);
    }
  }
}
