/** load_file as a whole, in place and on the file's bytes. */
module LoadFile {
  import opened Common
  import opened Layout
  import opened Word64
  import opened PageTable
  import opened MemoryMap
  import opened Translation
  import opened Requests
  import opened Invariants
  import opened Elf
  import Loading
  import LE = LittleEndian
  import opened LoaderCorrectness
  import opened LoaderNeeds
  import opened Cursor
  import opened Reservation
  import opened Overflow
  import opened Allocator
  import opened MemoryManager

  /** What load_file needs: a valid file whose loaded sections fit, start on pages that no earlier load has seen, and
      follow each other page by page; room for the k new tables; and no page that a section touches, nor a page of the
      given set, is a table or part of that room. */
  ghost predicate FileAdmissible(st: State, reserved: set<nat>, pages: seq<int>, file: seq<byte>, k: nat) {
    && ValidFile(file)
    && (forall i :: 0 <= i < |Sections(file)| && !Skipped(Sections(file)[i]) ==>
          Loading.SectionFits(Loading.LoadState(st, pages, 0), Sections(file)[i]) &&
          pages[Sections(file)[i].addr / PAGE] == 0)
    && Contiguous(Sections(file))
    && Budget(st, LoadRequests(Sections(file)), k)
    && forall p :: p in reserved + TouchedPages(Sections(file)) ==> !TablePage(st.mem, p) && p !in Free(st.dico)[..k]
  }

  lemma {:induction false} StartsAreTouched(shs: seq<Section>)
    ensures StartPages(shs) <= TouchedPages(shs)
  {
    hide Skipped;
    forall i | 0 <= i < |shs| && !Skipped(shs[i])
      ensures shs[i].addr / PAGE in TouchedPages(shs)
    {
      assert shs[i].addr / PAGE in PagesOf(shs[i]);
    }
  }

  /** With all touched pages reserved beforehand every section is ready when its turn comes. */
  lemma {:induction false} AdmissibleIsReady(st: State, reserved: set<nat>, pages: seq<int>, file: seq<byte>, k: nat)
    requires Sound(st, reserved) && Identity(st.mem) && FileAdmissible(st, reserved, pages, file, k)
    ensures var ls, shs := Loading.LoadState(st, pages, 0), Sections(file);
            var all := reserved + TouchedPages(shs);
            && Sound(st, all) && OutOfReach(st.dico, all, k) && StartPages(shs) <= all
            && FileReady(Ahead(ls, all), shs, k) && Loading.AllReady(Ahead(ls, all), file, shs)
  {
    hide WellFormed, Identity, Budget, Contiguous, Space, Sections, ValidFile, Sound, OutOfReach, TablePage, Marking,
         Loading.Touches, PagesOf, StartPages, TouchedPages, FreeList, Loading.AllReady, FileReady, Skipped;
    var ls, shs := Loading.LoadState(st, pages, 0), Sections(file);
    var all := reserved + TouchedPages(shs);
    SoundMore(st, reserved, all);
    StartsAreTouched(shs);
    BudgetReserved(st, all, LoadRequests(shs), k);
    SoundWellFormed(st, all);
    ReadyAhead(st, all, pages, file, k);
    ConditionsSuffice(Ahead(ls, all), file, shs, k);
  }

  lemma {:induction false} ReadyAhead(st: State, all: set<nat>, pages: seq<int>, file: seq<byte>, k: nat)
    requires ValidFile(file) && Sound(st, all) && TouchedPages(Sections(file)) <= all && Contiguous(Sections(file))
    requires forall i :: 0 <= i < |Sections(file)| && !Skipped(Sections(file)[i]) ==>
               Loading.SectionFits(Loading.LoadState(st, pages, 0), Sections(file)[i]) &&
               pages[Sections(file)[i].addr / PAGE] == 0
    requires Budget(WithReserved(st, all), LoadRequests(Sections(file)), k)
    ensures FileReady(Ahead(Loading.LoadState(st, pages, 0), all), Sections(file), k)
  {
    hide Identity, Budget, Contiguous, Space, Sections, ValidFile, Sound, TablePage, Marking, Loading.Touches, Skipped,
         Grouped, CursorRight, DataPage, Elf.ReadsFile;
    var ls, shs := Ahead(Loading.LoadState(st, pages, 0), all), Sections(file);
    CursorRightExactly(pages, 0, shs);
    UnseenCursor(pages, shs);
    forall i | 0 <= i < |shs| && !Skipped(shs[i])
      ensures Loading.SectionFits(ls, shs[i]) && Loading.OverflowSafe(ls.st, shs[i]) && SeenIsMapped(ls, shs[i])
    {
      forall page: nat | Loading.Touches(shs[i], page)
        ensures DataPage(ls.st, page)
      {
        assert page in PagesOf(shs[i]);
        assert page in TouchedPages(shs);
        ReservedIsData(st, all, page);
      }
    }
  }

  /** load_file never leaves guest memory, keeps the tables identity-mapped and well-formed up to the pages that
      sections touch, maps exactly the start pages of the loaded sections, and changes no byte but the sections' bytes
      and new table entries. A section may run over any number of pages. */
  lemma {:induction false} LoadFileCorrect(st: State, reserved: set<nat>, pages: seq<int>, file: seq<byte>, k: nat)
    requires Sound(st, reserved) && Identity(st.mem) && FileAdmissible(st, reserved, pages, file, k)
    ensures Loading.LoadFile(st, pages, file).Ok?
    ensures var s' := Loading.LoadFile(st, pages, file).value.st;
            && Sound(s', reserved + TouchedPages(Sections(file))) && Identity(s'.mem)
            && Space(s'.mem) == WithPages(Space(st.mem), Sections(file))
            && |s'.mem| == |st.mem| && |s'.dico| == |st.dico| && Loading.KeepsTargets(st.mem, s'.mem)
            && (Pruned(st.mem) ==> Pruned(s'.mem)) && |Loading.LoadFile(st, pages, file).value.pages| == |pages|
            && forall a :: 0 <= a < |st.mem| ==> ByteLoaded(file, Sections(file), st.mem, s'.mem, a)
  {
    hide WellFormed, Identity, Space, Sections, FileAdmissible, Loading.LoadAll, ByteLoaded, Loading.KeepsTargets,
         Pruned, Sound, OutOfReach, FileReady, Loading.AllReady, Marking, TouchedPages, StartPages,
         Loading.SectionPages, KeepsData;
    assert ValidFile(file) by { Valid(st, reserved, pages, file, k); }
    AdmissibleIsReady(st, reserved, pages, file, k);
    var ls, shs := Loading.LoadState(st, pages, 0), Sections(file);
    var all := reserved + TouchedPages(shs);
    LoadAllCommutes(ls, all, file, shs, k);
    SoundWellFormed(st, all);
    LoadAllCorrect(Ahead(ls, all), file, shs);
  }

  lemma {:induction false} Valid(st: State, reserved: set<nat>, pages: seq<int>, file: seq<byte>, k: nat)
    requires FileAdmissible(st, reserved, pages, file, k)
    ensures ValidFile(file)
  {
  }

  // ---------- What running over a page leaves behind ----------

  /** The pages that sections run into without any section starting there, and that nobody reserved. */
  ghost predicate Unreserved(st: State, shs: seq<Section>, page: nat) {
    && page in TouchedPages(shs) && page !in StartPages(shs)
    && 2 <= page < |st.dico| && st.dico[page] == 0 && InMemory(st.mem, page)
  }

  /** The file has nothing but zeros for a page. */
  ghost predicate ZeroForPage(file: seq<byte>, shs: seq<Section>, page: nat) {
    forall a: nat :: page * PAGE <= a < (page + 1) * PAGE ==>
           FileByte(file, shs, a) == None || FileByte(file, shs, a) == Some(0)
  }

  ghost predicate ZeroOverflow(st: State, file: seq<byte>, shs: seq<Section>) {
    forall page :: Unreserved(st, shs, page) ==> ZeroForPage(file, shs, page)
  }

  /** Marks after loading, on the pages that sections touch: what was marked before, and the start pages. */
  lemma {:induction false} TouchedMarks(
    st: State, reserved: set<nat>, pages: seq<int>, file: seq<byte>, k: nat, page: nat)
    requires Sound(st, reserved) && Identity(st.mem) && FileAdmissible(st, reserved, pages, file, k)
    requires page in reserved + TouchedPages(Sections(file)) && 2 <= page < |st.dico|
    ensures Loading.LoadFile(st, pages, file).Ok?
    ensures var d := Loading.LoadFile(st, pages, file).value.st.dico;
            |d| == |st.dico| && (d[page] == 0 <==> st.dico[page] == 0 && page !in StartPages(Sections(file)))
  {
    hide WellFormed, Identity, Sections, FileAdmissible, Loading.LoadAll, Sound, OutOfReach, FileReady,
         Loading.AllReady, Marking, TouchedPages, StartPages, Space, Loading.KeepsTargets, ByteLoaded, Pruned;
    assert ValidFile(file) by { Valid(st, reserved, pages, file, k); }
    AdmissibleIsReady(st, reserved, pages, file, k);
    var ls, shs := Loading.LoadState(st, pages, 0), Sections(file);
    var all := reserved + TouchedPages(shs);
    LoadAllCommutes(ls, all, file, shs, k);
    LoadFileCorrect(st, reserved, pages, file, k);
    var s' := Loading.LoadFile(st, pages, file).value.st;
    if page in StartPages(shs) {
      WithPagesKeys(Space(st.mem), shs);
      MappedIsMarked(s', all, page);
    }
  }

  lemma {:induction false} MappedIsMarked(s: State, pages: set<nat>, page: nat)
    requires Sound(s, pages) && Identity(s.mem) && page in Space(s.mem) && 2 <= page < |s.dico|
    ensures s.dico[page] != 0
  {
    hide WellFormed, Target, TablePage;
    var v := PageStart(page);
    SpaceLookup(s.mem, v);
    assert MarkedFrame(s.dico, Target(s.mem, Leaf(v)).value) by { assert Depth(Leaf(v)) == 4; }
  }

  /** Loading into a well-formed machine leaves a well-formed one exactly if the file has only zeros for the pages that
      sections run into and that nobody reserved. Otherwise the allocator may later take such a page as a table. */
  lemma {:induction false} WellFormedExactly(st: State, pages: seq<int>, file: seq<byte>, k: nat)
    requires WellFormed(st) && Identity(st.mem) && FileAdmissible(st, {}, pages, file, k)
    ensures Loading.LoadFile(st, pages, file).Ok?
    ensures WellFormed(Loading.LoadFile(st, pages, file).value.st) <==> ZeroOverflow(st, file, Sections(file))
  {
    hide WellFormed, Identity, FileAdmissible, Loading.LoadFile, Sections, TouchedPages, StartPages, Sound, Space,
         ByteLoaded, ZeroPage, ZeroForPage, Loading.KeepsTargets, Pruned, FileByte, InMemory;
    assert ValidFile(file) by { Valid(st, {}, pages, file, k); }
    WellFormedIsSound(st, {});
    LoadFileCorrect(st, {}, pages, file, k);
    var s', shs := Loading.LoadFile(st, pages, file).value.st, Sections(file);
    assert {} + TouchedPages(shs) == TouchedPages(shs);
    SoundExactly(s', TouchedPages(shs));
    forall page: nat | page in TouchedPages(shs) && 2 <= page < |s'.dico|
      ensures s'.dico[page] == 0 && InMemory(s'.mem, page) <==> Unreserved(st, shs, page)
    {
      TouchedMarks(st, {}, pages, file, k, page);
      assert InMemory(s'.mem, page) <==> InMemory(st.mem, page) by { SameMemory(st.mem, s'.mem, page); }
    }
    forall page: nat | Unreserved(st, shs, page)
      ensures ZeroPage(s'.mem, page) <==> ZeroForPage(file, shs, page)
    {
      OverflowContents(st, s', file, shs, page);
    }
  }

  lemma {:induction false} SameMemory(m: seq<byte>, m': seq<byte>, page: nat)
    requires |m| == |m'|
    ensures InMemory(m, page) <==> InMemory(m', page)
  {
  }

  lemma {:induction false} OverflowContents(st: State, s': State, file: seq<byte>, shs: seq<Section>, page: nat)
    requires WellFormed(st) && Sound(s', TouchedPages(shs)) && |st.mem| == |s'.mem| && Unreserved(st, shs, page)
    requires forall a :: 0 <= a < |st.mem| ==> ByteLoaded(file, shs, st.mem, s'.mem, a)
    ensures ZeroPage(s'.mem, page) <==> ZeroForPage(file, shs, page)
  {
    hide Target, TouchedPages, StartPages, FileByte, Loading.EntryByte, Sound;
    assert ZeroPage(st.mem, page);
    forall a: nat | page * PAGE <= a < (page + 1) * PAGE
      ensures s'.mem[a] == 0 <==> FileByte(file, shs, a) == None || FileByte(file, shs, a) == Some(0)
    {
      assert a / PAGE == page;
      assert ByteLoaded(file, shs, st.mem, s'.mem, a);
      ReservedIsData(s', TouchedPages(shs), page);
      DataHasNoEntry(st.mem, WithReserved(s', TouchedPages(shs)), a);
    }
  }

  // ---------- What the guest sees ----------

  /** After load_file the byte at sh_addr + x is byte sh_offset + x of the file, or zero past the end of the file and
      for sections without data. The guest reaches it at its own address exactly if its page was mapped before or some
      loaded section starts on it. */
  lemma {:induction false} GuestSeesFile(
    st: State, reserved: set<nat>, pages: seq<int>, file: seq<byte>, k: nat, i: nat, x: nat)
    requires Sound(st, reserved) && Identity(st.mem) && FileAdmissible(st, reserved, pages, file, k)
    requires Disjoint(Sections(file))
    requires i < |Sections(file)| && !Skipped(Sections(file)[i]) && x < Sections(file)[i].size
    ensures Loading.LoadFile(st, pages, file).Ok?
    ensures var m, sh := Loading.LoadFile(st, pages, file).value.st.mem, Sections(file)[i];
            && sh.addr + x < |m| && sh.addr + x < 0x1_0000_0000_0000
            && m[sh.addr + x] == (if ReadsFile(sh) && sh.offset + x < |file| then file[sh.offset + x] else 0)
            && (GvaToGpa(m, sh.addr + x) == Ok(sh.addr + x) <==>
                  (sh.addr + x) / PAGE in Space(st.mem) || (sh.addr + x) / PAGE in StartPages(Sections(file)))
  {
    hide WellFormed, Identity, Sections, Loading.LoadAll, Disjoint, GvaToGpa, Skipped, Contiguous, Budget, Sound,
         OutOfReach, FileReady, Loading.AllReady, Marking, TouchedPages, StartPages, Space, TablePage, FreeList,
         FileByte;
    var ls, sh := Loading.LoadState(st, pages, 0), Sections(file)[i];
    assert Loading.SectionFits(ls, sh);
    AdmissibleIsReady(st, reserved, pages, file, k);
    var all := reserved + TouchedPages(Sections(file));
    LoadAllCommutes(ls, all, file, Sections(file), k);
    SoundWellFormed(st, all);
    GuestSeesSection(Ahead(ls, all), file, Sections(file), i, x);
  }

  /** For every address, loaded or not: mapping covers the start pages only. */
  lemma {:induction false} ReachableBytes(
    st: State, reserved: set<nat>, pages: seq<int>, file: seq<byte>, k: nat, gva: Word)
    requires Sound(st, reserved) && Identity(st.mem) && FileAdmissible(st, reserved, pages, file, k)
    requires 0 < gva < 0x1_0000_0000_0000
    ensures Loading.LoadFile(st, pages, file).Ok?
    ensures GvaToGpa(Loading.LoadFile(st, pages, file).value.st.mem, gva) == Ok(gva) <==>
            gva / PAGE in Space(st.mem) || gva / PAGE in StartPages(Sections(file))
  {
    hide WellFormed, Tree, Identity, FileAdmissible, Loading.LoadFile, Sections, TouchedPages, Sound, Space, ByteLoaded,
         Loading.KeepsTargets, Pruned, StartPages, GvaToGpa;
    assert ValidFile(file) by { Valid(st, reserved, pages, file, k); }
    LoadFileCorrect(st, reserved, pages, file, k);
    var s' := Loading.LoadFile(st, pages, file).value.st;
    WithPagesKeys(Space(st.mem), Sections(file));
    SoundTree(s', reserved + TouchedPages(Sections(file)));
    ReachExactly(s'.mem, gva);
  }

  lemma {:induction false} SoundTree(s: State, pages: set<nat>)
    requires Sound(s, pages)
    ensures Tree(s.mem)
  {
    hide Tree;
  }

  /** In identity-mapped memory the system call handler's shortcut, guest memory indexed by the guest address,
      is the host address that gva_to_hva computes: exactly for mapped addresses other than 0 below 2^48. */
  lemma {:induction false} HandlerPointerIsTranslation(m: seq<byte>, gva: Word)
    requires Tree(m) && Identity(m)
    ensures GvaToHva(m, gva) == Ok(Some(gva)) <==> Vpn(gva) in Space(m) && 0 < gva < 0x1_0000_0000_0000
  {
    hide Target, Leaf, GvaToGpa, Space;
    WalkIsTranslate(m, gva);
    SpaceLookup(m, gva);
    if Vpn(gva) in Space(m) {
      assert Space(m)[Vpn(gva)] == Vpn(gva);
      LowBits(gva);
    }
  }

  /** For every mapped page of any tree, identity-mapped or not, gva_to_hva is the frame and the offset, unless that is
      address 0; for all other pages it is the null pointer. */
  lemma {:induction false} HostAddressOfFrame(m: seq<byte>, gva: Word)
    requires Tree(m)
    ensures GvaToHva(m, gva) ==
            Ok(if Vpn(gva) in Space(m) && Space(m)[Vpn(gva)] * 0x1000 + gva % 0x1000 != 0
               then Some(Space(m)[Vpn(gva)] * 0x1000 + gva % 0x1000) else None)
  {
    hide Target, Leaf, GvaToGpa, Space;
    WalkIsTranslate(m, gva);
    SpaceLookup(m, gva);
  }

  lemma {:induction false} LowBits(v: Word)
    ensures Vpn(v) * PAGE + v % PAGE == v <==> v < 0x1_0000_0000_0000
    ensures v < 0x1_0000_0000_0000 ==> Vpn(v) == v / PAGE
  {
    var x := v / PAGE;
    assert v == x * PAGE + v % PAGE;
    assert x < 0x10_0000_0000 <==> v < 0x1_0000_0000_0000;
  }

  // ---------- The loader in place ----------

  class Loader {
    const machine: Manager
    const pageDico: array<int>

    ghost predicate Valid() {
      && machine.Valid() && pageDico.Length <= Loading.MAX_PAGES
      && pageDico as object != machine.memory && pageDico != machine.pageAllocatorDico
    }

    ghost function Contents(newPage: nat): Loading.LoadState
      requires Valid()
      reads pageDico, machine.memory, machine.pageAllocatorDico
    {
      Loading.LoadState(machine.Contents(), pageDico[..], newPage)
    }

    constructor (m: Manager, nbPages: nat)
      requires m.Valid() && nbPages <= Loading.MAX_PAGES
      ensures Valid() && machine == m && fresh(pageDico) && pageDico[..] == seq(nbPages, _ => 0)
    {
      var dico := new int[nbPages](_ => 0);
      machine, pageDico := m, dico;
      new;
      assert pageDico[..] == seq(nbPages, _ => 0);
    }

    /** The body of the loop for the first section of a page. */
    method MapSection(addr: Word) returns (newPage: nat)
      requires Valid() && addr / PAGE < pageDico.Length
      requires Loading.MapSection(Contents(0), addr).Ok?
      modifies pageDico, machine.memory, machine.pageAllocatorDico
      ensures Loading.MapSection(old(Contents(0)), addr) == Ok(Contents(newPage))
    {
      hide Map;
      pageDico[addr / PAGE] := 1;
      newPage := PointerToPage(addr);
      machine.InvalidatePage(newPage / PAGE);
      machine.MemoryMap(addr, addr);
      newPage := PointerToPage(addr);
      machine.InvalidatePage(newPage / PAGE);
      machine.MemoryMap(addr, newPage);
    }

    /** A zeroed buffer, filled from the file unless the section has no data. */
    method ReadSection(file: seq<byte>, sh: Section) returns (section: array<byte>)
      requires LoadedBytes(file, sh).Ok?
      ensures fresh(section) && LoadedBytes(file, sh) == Ok(section[..])
    {
      var size, offset := Size(sh), FileOffset(sh);
      section := new byte[size](_ => 0);
      if ReadsFile(sh) {
        forall k | 0 <= k < size && offset + k < |file| {
          section[k] := file[offset + k];
        }
      }
      assert section[..] == SectionBytes(file, sh);
    }

    /** The buffer is copied to the page of the cursor. */
    method CopySection(file: seq<byte>, sh: Section, newPage: nat)
      requires Valid() && Loading.CopySection(Contents(newPage), file, sh).Ok?
      modifies machine.memory
      ensures Loading.CopySection(old(Contents(newPage)), file, sh) == Ok(Contents(newPage))
    {
      hide SectionBytes, ReadsFile, Put, Or;
      var section := ReadSection(file, sh);
      machine.CopyIn(Or(newPage, PageOffset(sh.addr)), section);
    }

    method LoadFile(file: seq<byte>) returns (entry: int)
      requires Valid() && ValidFile(file)
      requires Loading.LoadFile(machine.Contents(), pageDico[..], file).Ok?
      modifies pageDico, machine.memory, machine.pageAllocatorDico
      ensures var r := Loading.LoadFile(old(machine.Contents()), old(pageDico[..]), file).value;
              machine.Contents() == r.st && pageDico[..] == r.pages
      ensures entry == EntryPoint(file) && -0x8000_0000 <= entry < 0x8000_0000
      ensures entry % 0x1_0000_0000 == LE.WordAt(file, 24) % 0x1_0000_0000
    {
      hide Loading.MapSection, Loading.CopySection, Sections, Loading.LoadAll, Skipped;
      EntryPointIsEntry(file);
      ghost var goal := Loading.LoadFile(machine.Contents(), pageDico[..], file);
      var shdrs := Sections(file);
      var newPage := 0;
      var i := 0;
      assert shdrs[0..] == shdrs;
      while i < |shdrs|
        invariant 0 <= i <= |shdrs|
        invariant goal.Ok? && Loading.LoadAll(Contents(newPage), file, shdrs[i..]) == goal
      {
        var sh := shdrs[i];
        LoopStep(Contents(newPage), file, shdrs, i);
        if !Skipped(sh) {
          if pageDico[sh.addr / PAGE] == 0 {
            CursorUnused(Contents(newPage), Contents(0), sh.addr);
            newPage := MapSection(sh.addr);
          }
          CopySection(file, sh, newPage);
        }
        i := i + 1;
      }
      assert shdrs[i..] == [];
      LoopEnd(Contents(newPage), file);
      assert goal == Ok(Contents(newPage));
      entry := EntryPoint(file);
    }
  }

  lemma {:induction false} LoopStep(ls: Loading.LoadState, file: seq<byte>, shs: seq<Section>, i: nat)
    requires i < |shs| && Loading.LoadAll(ls, file, shs[i..]).Ok?
    ensures Loading.LoadSection(ls, file, shs[i]).Ok?
    ensures Loading.LoadAll(ls, file, shs[i..]) ==
            Loading.LoadAll(Loading.LoadSection(ls, file, shs[i]).value, file, shs[i + 1..])
  {
    hide Loading.LoadSection;
    assert shs[i..][0] == shs[i] && shs[i..][1..] == shs[i + 1..];
  }

  lemma {:induction false} LoopEnd(ls: Loading.LoadState, file: seq<byte>)
    ensures Loading.LoadAll(ls, file, []) == Ok(ls)
  {
  }

  /** The first section of a page sets the cursor whatever it was. */
  lemma {:induction false} CursorUnused(ls: Loading.LoadState, other: Loading.LoadState, addr: Word)
    requires ls.st == other.st && ls.pages == other.pages && addr / PAGE < |ls.pages|
    ensures Loading.MapSection(ls, addr) == Loading.MapSection(other, addr)
  {
  }
}
