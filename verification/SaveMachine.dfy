/** save.c: a blank machine, its stack, then the boot code and the application, all in the first 2 MiB. */
module SaveMachine {
  import opened Common
  import opened Layout
  import opened Word64
  import opened Allocator
  import opened PageTable
  import opened MemoryMap
  import opened Insertion
  import opened Translation
  import opened Requests
  import opened Stack
  import opened Invariants
  import opened Accounting
  import opened Elf
  import opened LoaderCorrectness
  import opened LoaderNeeds
  import opened Cursor
  import opened Reservation
  import opened Overflow
  import opened LoadFile
  import opened Clients

  const VM_MEMORY_SIZE: nat := 0xF000
  const NB_PAGE: nat := 0x1_0000
  const STACK_ADDRESS: Word := 0xE000
  const STACK_SIZE: Word := 0x3000

  /** page_dico at the start of the process. */
  const NEW_PAGES: seq<int> := seq(0x1000, _ => 0)

  // ---------- Machines whose mapped pages lie below 2 MiB ----------

  /** All mapped pages are below 2 MiB, and the tables sit on pages 1 to 4; files were loaded over the given pages. */
  ghost predicate LowMachine(s: State, over: set<nat>) {
    && GoodState(s, over)
    && (exists n :: n in Space(s.mem)) && (forall n :: n in Space(s.mem) ==> n < 512)
    && (forall t :: TablePage(s.mem, t) ==> t <= 4)
    && |s.mem| == VM_MEMORY_SIZE && |s.dico| == NB_PAGE
  }

  const LOW_TABLE := Sub(Sub(Sub(Root, 0), 0), 0)

  lemma {:induction false} LowLeaf(v: Word)
    requires v < 0x20_0000
    ensures Leaf(v).parent == LOW_TABLE && Vpn(v) == v / PAGE < 512
  {
    hide PgdIndex, PudIndex, PmdIndex, PteIndex;
    assert v / 0x80_0000_0000 == 0 && v / 0x4000_0000 == 0 && v / 0x20_0000 == 0;
  }

  lemma {:induction false} LowTablesOf(v: Word)
    requires v < 0x20_0000
    ensures TablesOf(v) == {LOW_TABLE, LOW_TABLE.parent, LOW_TABLE.parent.parent}
  {
    hide Leaf;
    LowLeaf(v);
  }

  /** In a low machine the tables of every low address are there. */
  lemma {:induction false} LowTablesPresent(s: State, over: set<nat>, reqs: seq<Request>)
    requires LowMachine(s, over) && forall r :: r in reqs ==> r.virt < 0x20_0000
    ensures MissingTables(s.mem, reqs) == {}
  {
    hide GoodState, Leaf, Target, TablePage;
    var n :| n in Space(s.mem);
    var v := PageStart(n);
    SpaceLookup(s.mem, v);
    assert v < 0x20_0000 by { assert n < 512; }
    LowTablesOf(v);
    forall r, p | r in reqs && p in TablesOf(r.virt)
      ensures Target(s.mem, p).Some?
    {
      LowTablesOf(r.virt);
      assert p in TablesOf(v) && p in Above(Leaf(v));
      AboveIsPrefix(Leaf(v), p);
      PrefixPresent(s.mem, p, Leaf(v));
    }
  }

  // ---------- The stack ----------

  lemma {:induction false} BlankFree()
    ensures |Free(Blank(VM_MEMORY_SIZE, NB_PAGE).dico)| >= 3
    ensures Free(Blank(VM_MEMORY_SIZE, NB_PAGE).dico)[..3] == [2, 3, 4]
  {
    var d := Blank(VM_MEMORY_SIZE, NB_PAGE).dico;
    assert FreeList(d, 4) == [4] + FreeList(d, 5);
    assert FreeList(d, 3) == [3] + FreeList(d, 4);
    assert FreeList(d, 2) == [2] + FreeList(d, 3);
  }

  /** The part of guest memory that the tables leave has room for a stack of nine pages below the first one. */
  lemma {:induction false} StackFits(size: Word)
    requires size % PAGE == 0 && size <= 0x9000
    ensures Budget(Blank(VM_MEMORY_SIZE, NB_PAGE), StackRequests(STACK_ADDRESS, size), 3)
  {
    hide Target, Leaf, FreeList, TablesOf, StackRequests, Blank, FrameSafe, Picks;
    var s, reqs := Blank(VM_MEMORY_SIZE, NB_PAGE), StackRequests(STACK_ADDRESS, size);
    BlankFree();
    BlankSizes();
    BlankIsWellFormed(VM_MEMORY_SIZE, NB_PAGE);
    StackIsExplicit(STACK_ADDRESS, size);
    ExplicitPicks(reqs);
    var tables := {LOW_TABLE, LOW_TABLE.parent, LOW_TABLE.parent.parent};
    forall r | r in reqs
      ensures TablesOf(r.virt) == tables && FrameSafe(s, r, 3)
    {
      StackRequestFits(size, r);
    }
    assert MissingTables(s.mem, reqs) <= tables;
    SubsetSize(MissingTables(s.mem, reqs), tables);
    assert Free(s.dico)[2] == Free(s.dico)[..3][2];
  }

  lemma {:induction false} StackFrames(size: Word, r: Request)
    requires size % PAGE == 0 && size <= 0x9000 && r in StackRequests(STACK_ADDRESS, size)
    ensures r.virt < 0x20_0000 && r.virt != 0 && r.phys == r.virt && 0xE - size / PAGE <= RequestFrame(r) <= 0xE
  {
    hide StackRequests;
    StackShape(STACK_ADDRESS, size);
    var reqs := StackRequests(STACK_ADDRESS, size);
    var j :| 0 <= j < |reqs| && reqs[j] == r;
    assert r == Request(STACK_ADDRESS - j * PAGE, STACK_ADDRESS - j * PAGE) && j <= 9;
  }

  lemma {:induction false} BlankSizes()
    ensures |Blank(VM_MEMORY_SIZE, NB_PAGE).mem| == VM_MEMORY_SIZE && |Blank(VM_MEMORY_SIZE, NB_PAGE).dico| == NB_PAGE
  {
  }

  lemma {:induction false} StackRequestFits(size: Word, r: Request)
    requires size % PAGE == 0 && size <= 0x9000 && r in StackRequests(STACK_ADDRESS, size)
    ensures TablesOf(r.virt) == {LOW_TABLE, LOW_TABLE.parent, LOW_TABLE.parent.parent}
    ensures FrameSafe(Blank(VM_MEMORY_SIZE, NB_PAGE), r, 3)
  {
    hide StackRequests, TablesOf, FreeList, TablePage, Blank;
    BlankFree();
    BlankSizes();
    StackFrames(size, r);
    LowTablesOf(r.virt);
    if TablePage(Blank(VM_MEMORY_SIZE, NB_PAGE).mem, RequestFrame(r)) {
      BlankTables(RequestFrame(r));
    }
  }

  /** A new machine after create_stack(0xE000, size). */
  function NewStack(size: Word): Outcome<State>
    requires size % PAGE == 0
  {
    MapAll(Blank(VM_MEMORY_SIZE, NB_PAGE), StackRequests(STACK_ADDRESS, size))
  }

  function AfterStack(): Outcome<State> {
    NewStack(STACK_SIZE)
  }

  /** It maps exactly the stack, each page to itself, with the tables on the first pages. */
  lemma {:induction false} StackIsLow(size: Word)
    requires size % PAGE == 0 && size <= 0x9000
    ensures NewStack(size).Ok? && WellFormed(NewStack(size).value) && LowMachine(NewStack(size).value, {})
    ensures forall n: nat :: n in Space(NewStack(size).value.mem) <==> 0xE - size / PAGE <= n <= 0xE
  {
    hide MapAll, Blank, StackRequests, WellFormed, Identity, Pruned, Space, Budget, Extends, TablePage, FreeList;
    var s0, reqs := Blank(VM_MEMORY_SIZE, NB_PAGE), StackRequests(STACK_ADDRESS, size);
    StackFits(size);
    BlankSizes();
    BlankFree();
    BlankIsWellFormed(VM_MEMORY_SIZE, NB_PAGE);
    BlankSpace();
    StackIsExact(s0, STACK_ADDRESS, size, 3);
    MapAllRefinesInsertAll(s0, reqs, 3);
    MapAllKeepsPruned(s0, reqs, 3);
    var s1 := NewStack(size).value;
    WellFormedIsSound(s1, {});
    assert 0xE in Space(s1.mem);
    assert Identity(s1.mem) by { IdentityOf(s1.mem); }
    assert |s1.mem| == VM_MEMORY_SIZE by { ExtendsLength(s0.mem, s1.mem); }
    forall t | TablePage(s1.mem, t)
      ensures t <= 4
    {
      if TablePage(s0.mem, t) {
        BlankTables(t);
      }
    }
  }

  /** create_stack(0xE000, 0x3000) on a new machine maps pages 0xB to 0xE to themselves and nothing else. */
  lemma {:induction false} StackOfSave()
    ensures AfterStack().Ok? && WellFormed(AfterStack().value) && LowMachine(AfterStack().value, {})
    ensures forall n: nat :: n in Space(AfterStack().value.mem) <==> 0xB <= n <= 0xE
  {
    hide NewStack, WellFormed, LowMachine, Space;
    StackIsLow(STACK_SIZE);
  }

  lemma {:induction false} IdentityOf(m: seq<byte>)
    requires forall n: nat :: n in Space(m) ==> Space(m)[n] == n
    ensures Identity(m)
  {
  }

  lemma {:induction false} BlankSpace()
    ensures Space(Blank(VM_MEMORY_SIZE, NB_PAGE).mem) == map[] && Pruned(Blank(VM_MEMORY_SIZE, NB_PAGE).mem)
  {
    hide Target, Leaf, Blank;
    BlankIsWellFormed(VM_MEMORY_SIZE, NB_PAGE);
    forall n: nat | n < 0x10_0000_0000
      ensures Target(Blank(VM_MEMORY_SIZE, NB_PAGE).mem, Leaf(PageStart(n))) == None
    {
      assert Depth(Leaf(PageStart(n))) == 4;
    }
  }

  lemma {:induction false} BlankTables(t: nat)
    requires TablePage(Blank(VM_MEMORY_SIZE, NB_PAGE).mem, t)
    ensures t == 1
  {
    hide Blank;
    BlankIsWellFormed(VM_MEMORY_SIZE, NB_PAGE);
  }

  // ---------- A file for the low machine ----------

  /** A file whose loaded sections lie from 0x5000 on in memory, on pages new to the loader, page by page. */
  ghost predicate LowFile(s: State, pages: seq<int>, file: seq<byte>) {
    && ValidFile(file) && Contiguous(Sections(file))
    && forall i :: 0 <= i < |Sections(file)| && !Skipped(Sections(file)[i]) ==>
         && Loading.SectionFits(Loading.LoadState(s, pages, 0), Sections(file)[i])
         && Sections(file)[i].addr >= 0x5000 && pages[Sections(file)[i].addr / PAGE] == 0
  }

  /** A low machine has all the tables that such a file needs, and no section touches one. */
  lemma {:induction false} LowFileIsAdmissible(s: State, over: set<nat>, pages: seq<int>, file: seq<byte>)
    requires LowMachine(s, over) && LowFile(s, pages, file)
    ensures FileAdmissible(s, over, pages, file, 0)
  {
    hide WellFormed, Identity, Pruned, Space, Sections, LoadRequests, MissingTables, FreeList, Contiguous, TablePage,
         ValidFile, PagesOf;
    var shs := Sections(file);
    var reqs := LoadRequests(shs);
    forall r | r in reqs
      ensures r.virt < 0x20_0000 && FrameSafe(s, r, 0)
    {
      RequestsOfFile(shs, r);
      var i :| 0 <= i < |shs| && !Skipped(shs[i]) && r == Request(shs[i].addr, shs[i].addr);
      assert 5 <= RequestFrame(r) < NB_PAGE;
    }
    LowTablesPresent(s, over, reqs);
    LoadIsExplicit(shs);
    ExplicitPicks(reqs);
    forall p | p in TouchedPages(shs)
      ensures !TablePage(s.mem, p)
    {
      var i :| 0 <= i < |shs| && p in PagesOf(shs[i]);
      assert !Skipped(shs[i]) && p >= shs[i].addr / PAGE >= 5;
    }
  }

  /** Loading it leaves a low machine: by the table count no table was added. */
  lemma {:induction false} LowFileKeepsLow(s: State, over: set<nat>, pages: seq<int>, file: seq<byte>)
    requires LowMachine(s, over) && LowFile(s, pages, file)
    ensures Loading.LoadFile(s, pages, file).Ok?
    ensures LowMachine(Loading.LoadFile(s, pages, file).value.st, over + TouchedPages(Sections(file)))
  {
    hide WellFormed, Identity, Pruned, Space, Sections, Loading.LoadFile, TablePage, ByteLoaded, LoadRequests, Skipped,
         Contiguous, Loading.KeepsTargets, Sound, TouchedPages, Marking;
    LowFileIsAdmissible(s, over, pages, file);
    LoadFileCorrect(s, over, pages, file, 0);
    var s' := Loading.LoadFile(s, pages, file).value.st;
    LowPages(Loading.LoadState(s, pages, 0), Space(s.mem), Sections(file));
    var n :| n in Space(s.mem);
    WithPagesKeys(Space(s.mem), Sections(file));
    var t, t' := WithReserved(s, over), WithReserved(s', over + TouchedPages(Sections(file)));
    SoundWellFormed(s, over);
    SoundWellFormed(s', over + TouchedPages(Sections(file)));
    OneRegion(t);
    OneRegion(t');
    forall x | TablePage(s'.mem, x)
      ensures x <= 4
    {
      SameTableSet(t, t', x);
    }
  }

  lemma {:induction false} LowPages(ls: Loading.LoadState, space: map<nat, nat>, shs: seq<Section>)
    requires |ls.st.mem| == VM_MEMORY_SIZE && forall n :: n in space ==> n < 512
    requires forall i :: 0 <= i < |shs| && !Skipped(shs[i]) ==> Loading.SectionFits(ls, shs[i])
    ensures forall n :: n in WithPages(space, shs) ==> n < 512
    decreases |shs|
  {
    hide Skipped;
    if shs != [] {
      assert forall i :: 0 <= i < |shs| - 1 ==> shs[1..][i] == shs[i + 1];
      var page := shs[0].addr / PAGE;
      LowPages(ls, if Skipped(shs[0]) then space else space[page := page], shs[1..]);
    }
  }

  /** With mapped pages below 2 MiB only, there is one table per level. */
  lemma {:induction false} OneRegion(s: State)
    requires WellFormed(s) && Pruned(s.mem)
    requires (exists n :: n in Space(s.mem)) && forall n :: n in Space(s.mem) ==> n < 512
    ensures |TablePages(s)| == 3
  {
    hide WellFormed, Pruned, Space, TablePages;
    TableAccounting(s);
    var n :| n in Space(s.mem);
    assert (set x | x in Space(s.mem) :: x / 0x800_0000) == {0} by { assert n / 0x800_0000 == 0; }
    assert (set x | x in Space(s.mem) :: x / 0x4_0000) == {0} by { assert n / 0x4_0000 == 0; }
    assert (set x | x in Space(s.mem) :: x / 0x200) == {0} by { assert n / 0x200 == 0; }
  }

  /** Tables are never removed, so with the same number of tables they are the same. */
  lemma {:induction false} SameTableSet(s: State, s': State, t: nat)
    requires WellFormed(s) && WellFormed(s') && Loading.KeepsTargets(s.mem, s'.mem) && |s.dico| == |s'.dico|
    requires |TablePages(s)| == |TablePages(s')| && TablePage(s'.mem, t)
    ensures TablePage(s.mem, t)
  {
    hide WellFormed, TablePages, TablePage;
    forall x | x in TablePages(s)
      ensures x in TablePages(s')
    {
      TablePagesMeaning(s, x);
      TablePagesMeaning(s', x);
      TableStays(s.mem, s'.mem, x);
    }
    SubsetSize(TablePages(s), TablePages(s'));
    assert TablePages(s') - TablePages(s) == {};
    TablePagesMeaning(s, t);
    TablePagesMeaning(s', t);
    if t == CR3 / PAGE {
      assert TablePage(s.mem, t) by { RootIsTable(s.mem); }
    } else {
      assert t in TablePages(s');
      assert t in TablePages(s);
    }
  }

  lemma {:induction false} TableStays(m: seq<byte>, m': seq<byte>, x: nat)
    requires Loading.KeepsTargets(m, m') && TablePage(m, x)
    ensures TablePage(m', x)
  {
    var p :| IsTable(p) && Target(m, p) == Some(x);
    assert Target(m', p) == Some(x);
  }

  lemma {:induction false} RootIsTable(m: seq<byte>)
    ensures TablePage(m, CR3 / PAGE)
  {
    assert Target(m, Root) == Some(CR3 / PAGE) && IsTable(Root);
  }

  // ---------- The whole of save.c ----------

  lemma {:induction false} CoverOfFileByte(file: seq<byte>, shs: seq<Section>, a: nat) returns (i: nat)
    requires FileByte(file, shs, a).Some?
    ensures i < |shs| && Covers(shs[i], a)
    decreases |shs|
  {
    hide Covers;
    if FileByte(file, shs[1..], a).Some? {
      var j := CoverOfFileByte(file, shs[1..], a);
      i := j + 1;
    } else {
      i := 0;
    }
  }

  /** A byte loaded from one file stays when another file is loaded that does not cover it. */
  lemma {:induction false} EarlierFileSurvives(
    s: State, over: set<nat>, pages: seq<int>, file: seq<byte>,
    m0: seq<byte>, earlier: seq<byte>, shs: seq<Section>, a: nat)
    requires LowMachine(s, over) && LowFile(s, pages, file) && TouchedPages(shs) <= over
    requires a < |s.mem| == |m0| && ByteLoaded(earlier, shs, m0, s.mem, a)
    requires FileByte(earlier, shs, a).Some? && FileByte(file, Sections(file), a) == None
    ensures Loading.LoadFile(s, pages, file).Ok?
    ensures var m := Loading.LoadFile(s, pages, file).value.st.mem;
            |m| == |s.mem| && Some(m[a]) == FileByte(earlier, shs, a)
  {
    hide WellFormed, Pruned, Space, Sections, Loading.LoadFile, TablePage, LowFile, FileAdmissible,
         Loading.KeepsTargets, SectionByte, Loading.EntryByte, Identity, Sound, PagesOf;
    assert ValidFile(file) by { LowIsValid(s, pages, file); }
    LowFileIsAdmissible(s, over, pages, file);
    LoadFileCorrect(s, over, pages, file, 0);
    var s' := Loading.LoadFile(s, pages, file).value.st;
    assert ByteLoaded(file, Sections(file), s.mem, s'.mem, a);
    var i := CoverOfFileByte(earlier, shs, a);
    CoveredIsTouched(shs[i], a);
    assert a / PAGE in PagesOf(shs[i]);
    var all := over + TouchedPages(Sections(file));
    ReservedIsData(s', all, a / PAGE);
    DataHasNoEntry(s.mem, WithReserved(s', all), a);
  }

  lemma {:induction false} CoveredIsTouched(sh: Section, a: nat)
    requires Covers(sh, a)
    ensures Loading.Touches(sh, a / PAGE)
  {
    hide Skipped;
    assert sh.addr / PAGE <= a / PAGE && a / PAGE * PAGE <= a;
  }

  lemma {:induction false} LowIsValid(s: State, pages: seq<int>, file: seq<byte>)
    requires LowFile(s, pages, file)
    ensures ValidFile(file)
  {
  }

  /** The stack, the boot code and the application load without leaving guest memory; mapped are the stack and the start
      pages of the sections, each to itself; and memory holds the application's bytes, and the boot code's bytes where
      the application has none. */
  lemma {:induction false} SaveMachineIsSetUp(boot: seq<byte>, app: seq<byte>, r: Loading.LoadState)
    requires AfterStack().Ok? && LowFile(AfterStack().value, NEW_PAGES, boot)
    requires Loading.LoadFile(AfterStack().value, NEW_PAGES, boot) == Ok(r) && LowFile(r.st, r.pages, app)
    ensures Loading.LoadFile(r.st, r.pages, app).Ok?
    ensures var s' := Loading.LoadFile(r.st, r.pages, app).value.st;
            && LowMachine(s', TouchedPages(Sections(boot)) + TouchedPages(Sections(app)))
            && Space(s'.mem) == WithPages(WithPages(Space(AfterStack().value.mem), Sections(boot)), Sections(app))
            && forall a :: 0 <= a < VM_MEMORY_SIZE ==>
                 var fromApp, fromBoot := FileByte(app, Sections(app), a), FileByte(boot, Sections(boot), a);
                 && (fromApp.Some? ==> s'.mem[a] == fromApp.value)
                 && (fromApp == None && fromBoot.Some? ==> s'.mem[a] == fromBoot.value)
  {
    hide WellFormed, Identity, Pruned, Space, Sections, Loading.LoadFile, AfterStack, FileAdmissible, TablePage, Sound,
         Loading.KeepsTargets, Loading.EntryByte, Skipped, Contiguous, FileByte, WithPages, ValidFile, TouchedPages;
    StackOfSave();
    var s1, pages, over := AfterStack().value, NEW_PAGES, TouchedPages(Sections(boot));
    assert {} + over == over;
    LowFileIsAdmissible(s1, {}, pages, boot);
    LoadFileCorrect(s1, {}, pages, boot, 0);
    LowFileKeepsLow(s1, {}, pages, boot);
    LowFileIsAdmissible(r.st, over, r.pages, app);
    LoadFileCorrect(r.st, over, r.pages, app, 0);
    LowFileKeepsLow(r.st, over, r.pages, app);
    var s' := Loading.LoadFile(r.st, r.pages, app).value.st;
    forall a | 0 <= a < VM_MEMORY_SIZE && FileByte(app, Sections(app), a).Some?
      ensures s'.mem[a] == FileByte(app, Sections(app), a).value
    {
      assert ByteLoaded(app, Sections(app), r.st.mem, s'.mem, a);
    }
    forall a | 0 <= a < VM_MEMORY_SIZE && FileByte(app, Sections(app), a) == None &&
           FileByte(boot, Sections(boot), a).Some?
      ensures s'.mem[a] == FileByte(boot, Sections(boot), a).value
    {
      assert ByteLoaded(boot, Sections(boot), s1.mem, r.st.mem, a);
      EarlierFileSurvives(r.st, over, r.pages, app, s1.mem, boot, Sections(boot), a);
    }
  }
}
