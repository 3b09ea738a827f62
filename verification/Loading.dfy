/** load_file as a function of machine state, page dictionary and file, and what it loads. */
module Loading {
  import opened Common
  import opened Layout
  import opened Word64
  import opened Allocator
  import opened PageTable
  import opened MemoryMap
  import opened Insertion
  import opened Translation
  import opened Refinement
  import opened Requests
  import opened Invariants
  import opened Elf

  /** The machine, the loader's own dictionary of start pages, and the cursor. */
  datatype LoadState = LoadState(st: State, pages: seq<int>, newPage: nat)

  /** page_dico has at most 0x1000 entries, so that section addresses fit a C int. */
  const MAX_PAGES: nat := 0x1000

  // ---------- The operations ----------

  /** The first section of a page reserves the page and maps it to itself, twice. */
  function MapSection(ls: LoadState, addr: Word): Outcome<LoadState>
    requires addr / PAGE < |ls.pages|
  {
    var base := PointerToPage(addr);
    var s1 :- Invalidate(ls.st, base / PAGE);
    var s2 :- Map(s1, addr, addr);
    var s3 :- Invalidate(s2, base / PAGE);
    var s4 :- Map(s3, addr, base);
    Ok(LoadState(s4, ls.pages[addr / PAGE := 1], base))
  }

  /** The address that a section is copied to: its offset within the page of the cursor. */
  function Destination(newPage: nat, sh: Section): nat {
    Or(newPage, PageOffset(sh.addr))
  }

  /** Copies the section to the page of the cursor. */
  function CopySection(ls: LoadState, file: seq<byte>, sh: Section): Outcome<LoadState> {
    var dest := Destination(ls.newPage, sh);
    var bytes :- LoadedBytes(file, sh);
    if dest + Size(sh) > |ls.st.mem| then Fault
    else Ok(ls.(st := ls.st.(mem := Put(ls.st.mem, dest, bytes))))
  }

  function LoadSection(ls: LoadState, file: seq<byte>, sh: Section): Outcome<LoadState> {
    if Skipped(sh) then Ok(ls)
    else if sh.addr / PAGE >= |ls.pages| then Fault
    else
      var ls1 :- if ls.pages[sh.addr / PAGE] == 0 then MapSection(ls, sh.addr) else Ok(ls);
      CopySection(ls1, file, sh)
  }

  function LoadAll(ls: LoadState, file: seq<byte>, shs: seq<Section>): Outcome<LoadState>
    decreases |shs|
  {
    if shs == [] then Ok(ls)
    else
      var ls1 :- LoadSection(ls, file, shs[0]);
      LoadAll(ls1, file, shs[1..])
  }

  /** load_file: the cursor starts at 0. */
  function LoadFile(st: State, pages: seq<int>, file: seq<byte>): Outcome<LoadState>
    requires ValidFile(file)
  {
    LoadAll(LoadState(st, pages, 0), file, Sections(file))
  }

  // ---------- What the loader needs ----------

  /** The state after the section's page was reserved. */
  function ReservedState(st: State, addr: Word): State {
    if addr / PAGE < |st.dico| then st.(dico := Mark(st.dico, addr / PAGE)) else st
  }

  /** The section's address has an entry in the loader's dictionary, the section lies in guest memory, and its numbers
      fit the 32-bit variables; it may run over several pages. */
  predicate SectionFits(ls: LoadState, sh: Section) {
    && sh.addr / PAGE < |ls.pages| <= MAX_PAGES
    && sh.addr + sh.size <= |ls.st.mem| && sh.size < 0x1_0000_0000
    && (ReadsFile(sh) && sh.size != 0 ==> sh.offset < 0x8000_0000 && sh.size < 0x8000_0000)
  }

  /** The pages that a loaded section touches: its start page, and every further page that it runs into. */
  predicate Touches(sh: Section, page: nat) {
    !Skipped(sh) && (page == sh.addr / PAGE || (sh.addr / PAGE < page && page * PAGE < sh.addr + Size(sh)))
  }

  /** The pages after the first one hold neither a table nor a page that the allocator could hand out. */
  ghost predicate OverflowSafe(s: State, sh: Section) {
    forall page :: Touches(sh, page) && page != sh.addr / PAGE ==> DataPage(s, page)
  }

  /** A page seen for the first time can be reserved and mapped; a page seen before is mapped and under the cursor. */
  ghost predicate SectionReady(ls: LoadState, sh: Section) {
    !Skipped(sh) ==>
      && SectionFits(ls, sh) && OverflowSafe(ls.st, sh)
      && if ls.pages[sh.addr / PAGE] == 0 then
           sh.addr / PAGE < |ls.st.dico| && !TablePage(ls.st.mem, sh.addr / PAGE)
           && Ready(ReservedState(ls.st, sh.addr), sh.addr, sh.addr)
         else
           ls.newPage == sh.addr / PAGE * PAGE && Vpn(sh.addr) in Space(ls.st.mem)
  }

  ghost predicate AllReady(ls: LoadState, file: seq<byte>, shs: seq<Section>)
    decreases |shs|
  {
    shs != [] ==>
      && SectionReady(ls, shs[0])
      && (LoadSection(ls, file, shs[0]).Ok? ==> AllReady(LoadSection(ls, file, shs[0]).value, file, shs[1..]))
  }

  // ---------- Mapping a section's page ----------

  /** The second reservation and the second mapping change nothing. */
  lemma {:induction false} MapSectionEffect(ls: LoadState, addr: Word)
    requires WellFormed(ls.st) && addr / PAGE < |ls.pages| <= MAX_PAGES && addr / PAGE < |ls.st.dico|
    requires Ready(ReservedState(ls.st, addr), addr, addr)
    ensures Map(ReservedState(ls.st, addr), addr, addr).Ok?
    ensures MapSection(ls, addr) ==
            Ok(LoadState(Map(ReservedState(ls.st, addr), addr, addr).value, ls.pages[addr / PAGE := 1],
                         addr / PAGE * PAGE))
  {
    hide WellFormed, Map, Ready, Space, Vpn, NewFrame, Target, Leaf;
    var page := addr / PAGE;
    assert PointerToPage(addr) == page * PAGE && page % 0x1_0000_0000 == page;
    var s1 := ReservedState(ls.st, addr);
    assert Invalidate(ls.st, page) == Ok(s1);
    InvalidateKeeps(ls.st, page);
    MapRefinesInsert(s1, addr, addr);
    var s2 := Map(s1, addr, addr).value;
    MarkStays(s1, addr, page);
    assert Mark(s2.dico, page) == s2.dico;
    assert Invalidate(s2, page) == Ok(s2);
    SpaceLookup(s2.mem, addr);
    MapIsIdempotent(s2, addr, page * PAGE);
  }

  lemma {:induction false} MarkStays(s: State, addr: Word, page: nat)
    requires WellFormed(s) && Ready(s, addr, addr) && page < |s.dico| && s.dico[page] == 1
    ensures Map(s, addr, addr).Ok?
    ensures |Map(s, addr, addr).value.dico| == |s.dico| && Map(s, addr, addr).value.dico[page] == 1
  {
    hide WellFormed, Map, Leaf, Target, NewTables, Extends, LeafFrame, Reserved, MissingLevels;
    if Target(s.mem, Leaf(addr)).Some? {
      MapIsIdempotent(s, addr, addr);
    } else {
      assert MissingLevels(s.mem, addr) <= |Free(s.dico)|;
      MapInserts(s, addr, addr);
    }
  }

  // ---------- One section ----------

  ghost predicate KeepsTargets(m: seq<byte>, m': seq<byte>) {
    |m| == |m'| && forall p :: Depth(p) <= 4 && Target(m, p).Some? ==> Target(m', p) == Target(m, p)
  }

  /** Byte a lies in a table entry that is absent in m and present in m'. */
  ghost predicate EntryByte(m: seq<byte>, m': seq<byte>, a: nat) {
    exists p :: NewEntryByte(m, m', p, a)
  }

  lemma {:induction false} EntryByteLift(a: seq<byte>, b: seq<byte>, c: seq<byte>, x: nat)
    requires KeepsTargets(a, b) && KeepsTargets(b, c)
    requires EntryByte(a, b, x) || EntryByte(b, c, x)
    ensures EntryByte(a, c, x)
  {
    hide Target;
    if EntryByte(a, b, x) {
      var p :| NewEntryByte(a, b, p, x);
      assert NewEntryByte(a, c, p, x);
    } else {
      var p :| NewEntryByte(b, c, p, x);
      assert NewEntryByte(a, c, p, x);
    }
  }

  /** All pages of the section are data pages. */
  ghost predicate SectionPages(s: State, sh: Section) {
    forall page :: Touches(sh, page) ==> DataPage(s, page)
  }

  lemma {:induction false} MappedIsData(s: State, v: Word)
    requires WellFormed(s) && Identity(s.mem) && Vpn(v) in Space(s.mem)
    ensures DataPage(s, Vpn(v))
  {
    hide Leaf, Vpn, Target, Space;
    SpaceLookup(s.mem, v);
    assert GoodFrame(s, Vpn(v)) by {
      hide TablePage, ZeroPage, Used;
      assert Depth(Leaf(v)) == 4;
    }
  }

  lemma {:induction false} SmallVpn(v: Word)
    requires v / PAGE < 0x10_0000_0000
    ensures Vpn(v) == v / PAGE
  {
  }

  /** The first section of a page: the page is mapped to itself and holds data, and so do the pages that follow. */
  lemma {:induction false} FirstOfPage(ls: LoadState, sh: Section)
    requires WellFormed(ls.st) && Identity(ls.st.mem) && !Skipped(sh) && SectionReady(ls, sh)
    requires ls.pages[sh.addr / PAGE] == 0
    ensures MapSection(ls, sh.addr).Ok?
    ensures var ls1 := MapSection(ls, sh.addr).value; var page := sh.addr / PAGE;
            && WellFormed(ls1.st) && Identity(ls1.st.mem) && SectionPages(ls1.st, sh)
            && Space(ls1.st.mem) == Space(ls.st.mem)[page := page]
            && ls1.newPage == page * PAGE && ls1.pages == ls.pages[page := 1]
            && Extends(ls.st.mem, ls1.st.mem) && |ls1.st.dico| == |ls.st.dico|
            && KeepsData(ls.st, ls1.st) && (Pruned(ls.st.mem) ==> Pruned(ls1.st.mem))
  {
    hide WellFormed, Map, MapSection, Ready, Space, Vpn, DataPage, Skipped, Extends, MissingLevels, FreeList, Pruned;
    var s1, page := ReservedState(ls.st, sh.addr), sh.addr / PAGE;
    assert page % 0x1_0000_0000 == page && Invalidate(ls.st, page) == Ok(s1);
    InvalidateKeeps(ls.st, page);
    InvalidateKeepsData(ls.st, page);
    MapSectionEffect(ls, sh.addr);
    SmallVpn(sh.addr);
    MapRefinesInsert(s1, sh.addr, sh.addr);
    MapExtends(s1, sh.addr, sh.addr);
    MapKeepsIdentity(s1, sh.addr, sh.addr);
    MapKeepsData(s1, sh.addr, sh.addr);
    var s2 := Map(s1, sh.addr, sh.addr).value;
    MappedIsData(s2, sh.addr);
    KeepsDataTransitive(ls.st, s1, s2);
    if Pruned(s1.mem) {
      MapKeepsPruned(s1, sh.addr, sh.addr);
    }
  }

  lemma {:induction false} TouchedRange(s: State, sh: Section)
    requires !Skipped(sh) && SectionPages(s, sh) && sh.addr + Size(sh) <= |s.mem|
    ensures DataRange(s, sh.addr, Size(sh))
  {
    hide DataPage, Skipped;
    forall x | sh.addr <= x < sh.addr + Size(sh)
      ensures DataPage(s, x / PAGE)
    {
      assert sh.addr / PAGE <= x / PAGE && x / PAGE * PAGE <= x;
      assert Touches(sh, x / PAGE);
    }
  }

  /** Copying with the cursor on the section's own page. */
  lemma {:induction false} CopyEffect(ls: LoadState, file: seq<byte>, sh: Section)
    requires WellFormed(ls.st) && SectionFits(ls, sh) && !Skipped(sh) && SectionPages(ls.st, sh)
    requires ls.newPage == sh.addr / PAGE * PAGE
    ensures CopySection(ls, file, sh) == Ok(ls.(st := ls.st.(mem := Put(ls.st.mem, sh.addr, SectionBytes(file, sh)))))
    ensures var s' := CopySection(ls, file, sh).value.st;
            && WellFormed(s') && Space(s'.mem) == Space(ls.st.mem) && KeepsTargets(ls.st.mem, s'.mem)
            && (forall p :: Depth(p) <= 4 ==> Target(s'.mem, p) == Target(ls.st.mem, p))
            && KeepsData(ls.st, s') && (Pruned(ls.st.mem) ==> Pruned(s'.mem))
  {
    hide WellFormed, Space, Target, ReadsFile, SectionBytes, Pruned, Or, Skipped, SectionPages, DataRange;
    BaseOrOffset(ls.newPage, sh.addr);
    assert Destination(ls.newPage, sh) == sh.addr;
    TouchedRange(ls.st, sh);
    WriteKeeps(ls.st, sh.addr, SectionBytes(file, sh));
    SameTargetsSameSpace(ls.st.mem, Put(ls.st.mem, sh.addr, SectionBytes(file, sh)));
  }

  /** Loading one section. */
  lemma {:induction false} SectionStep(ls: LoadState, file: seq<byte>, sh: Section)
    requires WellFormed(ls.st) && Identity(ls.st.mem) && !Skipped(sh) && SectionReady(ls, sh)
    ensures LoadSection(ls, file, sh).Ok?
    ensures var ls' := LoadSection(ls, file, sh).value; var page := sh.addr / PAGE;
            && WellFormed(ls'.st) && Identity(ls'.st.mem) && SectionPages(ls'.st, sh)
            && Space(ls'.st.mem) == Space(ls.st.mem)[page := page]
            && KeepsTargets(ls.st.mem, ls'.st.mem) && |ls'.st.dico| == |ls.st.dico| && KeepsData(ls.st, ls'.st)
            && ls'.newPage == page * PAGE
            && ls'.pages == ls.pages[page := if ls.pages[page] == 0 then 1 else ls.pages[page]]
            && (Pruned(ls.st.mem) ==> Pruned(ls'.st.mem))
    ensures forall a :: 0 <= a < |ls.st.mem| ==>
              var b := LoadSection(ls, file, sh).value.st.mem[a];
              if sh.addr <= a < sh.addr + Size(sh) then b == SectionByte(file, sh, a - sh.addr)
              else b == ls.st.mem[a] || EntryByte(ls.st.mem, LoadSection(ls, file, sh).value.st.mem, a)
  {
    hide WellFormed, Space, Ready, MapSection, CopySection, DataPage, Target, Vpn, Skipped, SectionByte, NewEntryByte,
         Pruned;
    var page, m := sh.addr / PAGE, ls.st.mem;
    if ls.pages[page] == 0 {
      FirstOfPage(ls, sh);
    } else {
      SmallVpn(sh.addr);
      MappedIsData(ls.st, sh.addr);
    }
    var ls1 := if ls.pages[page] == 0 then MapSection(ls, sh.addr).value else ls;
    CopyEffect(ls1, file, sh);
    var ls' := CopySection(ls1, file, sh).value;
    assert LoadSection(ls, file, sh) == Ok(ls');
    forall a | 0 <= a < |m| && !(sh.addr <= a < sh.addr + Size(sh)) && ls'.st.mem[a] != m[a]
      ensures EntryByte(m, ls'.st.mem, a)
    {
      assert ls1.st.mem[a] != m[a];
      assert EntryByte(m, ls1.st.mem, a);
      EntryByteLift(m, ls1.st.mem, ls'.st.mem, a);
    }
  }
}
