/** Sections that run into pages which the loader does not reserve: loading does the same as if they were reserved. */
module Overflow {
  import opened Common
  import opened Layout
  import opened Word64
  import opened Allocator
  import opened PageTable
  import opened MemoryMap
  import opened Translation
  import opened Refinement
  import opened Requests
  import opened Invariants
  import opened Reservation
  import opened Elf
  import opened Loading
  import opened LoaderCorrectness
  import opened LoaderNeeds

  function Ahead(ls: LoadState, pages: set<nat>): LoadState {
    ls.(st := WithReserved(ls.st, pages))
  }

  function PagesOf(sh: Section): (pages: set<nat>)
    ensures forall p: nat :: p in pages <==> Touches(sh, p)
  {
    set p: nat | p <= (sh.addr + Size(sh)) / PAGE && Touches(sh, p)
  }

  /** All pages that the loaded sections touch. */
  function TouchedPages(shs: seq<Section>): set<nat> {
    set i, p | 0 <= i < |shs| && p in PagesOf(shs[i]) :: p
  }

  // ---------- One section ----------

  /** Marking a page of the set is not seen by the reserved state. */
  lemma {:induction false} MarkInside(s: State, pages: set<nat>, page: nat)
    requires Sound(s, pages) && page in pages && page < |s.dico|
    ensures var s1 := s.(dico := Mark(s.dico, page));
            && WithReserved(s1, pages) == WithReserved(s, pages) && Sound(s1, pages) && MarksGrow(s.dico, s1.dico)
            && WithReserved(s, pages).dico == Mark(WithReserved(s, pages).dico, page)
            && OnlyMarks(s.dico, s1.dico, pages, page)
  {
    hide WellFormed, Target, TablePage;
    var s1 := s.(dico := Mark(s.dico, page));
    assert Marking(s1.dico, pages) == Marking(s.dico, pages);
  }

  lemma {:induction false} MapSectionCommutes(ls: LoadState, pages: set<nat>, addr: Word)
    requires Sound(ls.st, pages) && addr / PAGE in pages && addr != 0
    requires addr / PAGE < |ls.pages| <= MAX_PAGES && addr / PAGE < |ls.st.dico|
    requires Ready(WithReserved(ls.st, pages), addr, addr)
    requires OutOfReach(ls.st.dico, pages, MissingLevels(ls.st.mem, addr))
    ensures MapSection(ls, addr).Ok? && Sound(MapSection(ls, addr).value.st, pages)
    ensures MapSection(Ahead(ls, pages), addr) == Ok(Ahead(MapSection(ls, addr).value, pages))
    ensures MarksGrow(ls.st.dico, MapSection(ls, addr).value.st.dico)
    ensures OnlyMarks(ls.st.dico, MapSection(ls, addr).value.st.dico, pages, addr / PAGE)
  {
    hide Sound, Map, Ready, OutOfReach, Marking, Target, MissingLevels, Space, Vpn, Leaf, NewFrame, WellFormed,
         MarksGrow;
    var page, t := addr / PAGE, WithReserved(ls.st, pages);
    assert PointerToPage(addr) == page * PAGE && page % 0x1_0000_0000 == page;
    MarkInside(ls.st, pages, page);
    var s1 := ls.st.(dico := Mark(ls.st.dico, page));
    assert Invalidate(ls.st, page) == Ok(s1);
    OutOfReachSame(ls.st.dico, s1.dico, pages, MissingLevels(ls.st.mem, addr));
    MapKeepsSound(s1, pages, addr, addr);
    assert WellFormed(t) by { SoundWellFormed(ls.st, pages); }
    MapCommutes(s1, pages, addr, addr);
    assert NewFrame(t, addr, addr) == page by { GivenStart(t, addr); }
    var s2 := Map(s1, addr, addr).value;
    MarkInside(s2, pages, page);
    var s3 := s2.(dico := Mark(s2.dico, page));
    assert Invalidate(s2, page) == Ok(s3);
    MarksCompose(ls.st.dico, s1.dico, s2.dico, s3.dico, pages, page);
    MapRefinesInsert(t, addr, addr);
    SpaceLookup(s3.mem, addr);
    MapIsIdempotent(s3, addr, page * PAGE);
    assert ReservedState(t, addr) == t;
    MapSectionEffect(Ahead(ls, pages), addr);
    assert MapSection(ls, addr) == Ok(LoadState(s3, ls.pages[page := 1], page * PAGE));
  }

  lemma {:induction false} GivenStart(s: State, addr: Word)
    requires addr != 0
    ensures NewFrame(s, addr, addr) == addr / PAGE
  {
  }

  lemma {:induction false} MarksCompose(d: Dico, d1: Dico, d2: Dico, e: Dico, pages: set<nat>, f: nat)
    requires MarksGrow(d, d1) && MarksGrow(d1, d2) && MarksGrow(d2, e)
    requires OnlyMarks(d, d1, pages, f) && OnlyMarks(d1, d2, pages, f) && OnlyMarks(d2, e, pages, f)
    ensures MarksGrow(d, e) && OnlyMarks(d, e, pages, f)
  {
  }

  lemma {:induction false} SoundWellFormed(s: State, pages: set<nat>)
    requires Sound(s, pages)
    ensures WellFormed(WithReserved(s, pages))
  {
  }

  lemma {:induction false} OutOfReachSame(d: Dico, e: Dico, pages: set<nat>, k: nat)
    requires OutOfReach(d, pages, k) && MarksGrow(d, e) && Marking(e, pages) == Marking(d, pages)
    ensures OutOfReach(e, pages, k)
  {
    hide FreeList;
  }

  lemma {:induction false} CopyCommutes(ls: LoadState, pages: set<nat>, file: seq<byte>, sh: Section)
    requires Sound(ls.st, pages) && SectionFits(ls, sh) && !Skipped(sh)
    requires SectionPages(WithReserved(ls.st, pages), sh) && ls.newPage == sh.addr / PAGE * PAGE
    ensures CopySection(ls, file, sh).Ok? && Sound(CopySection(ls, file, sh).value.st, pages)
    ensures CopySection(Ahead(ls, pages), file, sh) == Ok(Ahead(CopySection(ls, file, sh).value, pages))
    ensures CopySection(ls, file, sh).value.st.dico == ls.st.dico
  {
    hide WellFormed, Space, Target, SectionPages, SectionBytes, Skipped, KeepsData, Marking, ReadsFile, Destination;
    CopyEffect(Ahead(ls, pages), file, sh);
    var s' := CopySection(ls, file, sh).value.st;
    assert WithReserved(s', pages) == CopySection(Ahead(ls, pages), file, sh).value.st;
    forall p | Depth(p) == 4 && Target(s'.mem, p).Some?
      ensures MarkedFrame(s'.dico, Target(s'.mem, p).value)
    {
      assert MarkedFrame(ls.st.dico, Target(ls.st.mem, p).value);
    }
    forall p | p in pages
      ensures !TablePage(s'.mem, p)
    {
      assert !TablePage(ls.st.mem, p);
    }
  }

  /** Loading a section with and without the reservation. */
  lemma {:induction false} SectionCommutes(ls: LoadState, pages: set<nat>, file: seq<byte>, shs: seq<Section>, k: nat)
    requires Sound(ls.st, pages) && Identity(ls.st.mem) && FileReady(Ahead(ls, pages), shs, k)
    requires shs != [] && !Skipped(shs[0]) && shs[0].addr / PAGE in pages && OutOfReach(ls.st.dico, pages, k)
    ensures LoadSection(ls, file, shs[0]).Ok? && Sound(LoadSection(ls, file, shs[0]).value.st, pages)
    ensures LoadSection(Ahead(ls, pages), file, shs[0]) == Ok(Ahead(LoadSection(ls, file, shs[0]).value, pages))
    ensures MarksGrow(ls.st.dico, LoadSection(ls, file, shs[0]).value.st.dico)
    ensures OnlyMarks(ls.st.dico, LoadSection(ls, file, shs[0]).value.st.dico, pages, shs[0].addr / PAGE)
  {
    hide Sound, MapSection, CopySection, Ready, OutOfReach, Marking, Target, MissingLevels, Space, Vpn, WellFormed,
         Identity, KeepsData, Pruned, Skipped, FileReady, DataPage, Extends, ReadsFile;
    var sh, t := shs[0], Ahead(ls, pages);
    var page := sh.addr / PAGE;
    SoundWellFormed(ls.st, pages);
    FirstIsReady(t, shs, k);
    LoadedAddress(sh);
    if ls.pages[page] == 0 {
      MarkInside(ls.st, pages, page);
      assert ReservedState(t.st, sh.addr) == t.st;
      NeedsOfFirst(t, shs, k);
      OutOfReachLess(ls.st.dico, pages, k, MissingLevels(ls.st.mem, sh.addr));
      MapSectionCommutes(ls, pages, sh.addr);
      FirstOfPage(t, sh);
      ExtendsLength(t.st.mem, MapSection(t, sh.addr).value.st.mem);
      CopyCommutes(MapSection(ls, sh.addr).value, pages, file, sh);
    } else {
      SmallVpn(sh.addr);
      MappedIsData(t.st, sh.addr);
      CopyCommutes(ls, pages, file, sh);
    }
  }

  lemma {:induction false} NeedsOfFirst(ls: LoadState, shs: seq<Section>, k: nat)
    requires FileReady(ls, shs, k) && shs != [] && !Skipped(shs[0])
    ensures MissingLevels(ls.st.mem, shs[0].addr) <= k
  {
    hide Skipped, Budget, Space;
    BudgetReady(ls.st, LoadRequests(shs), k, Request(shs[0].addr, shs[0].addr));
  }

  // ---------- The section loop ----------

  /** Of the given pages only start pages get marked. */
  ghost predicate OnlyStartsMarked(d: Dico, e: Dico, pages: set<nat>, shs: seq<Section>) {
    |d| == |e| && forall x :: x in pages && x < |d| && x !in StartPages(shs) && d[x] == 0 ==> e[x] == 0
  }

  lemma {:induction false} NothingMarked(d: Dico, pages: set<nat>)
    ensures MarksGrow(d, d) && OnlyStartsMarked(d, d, pages, [])
  {
  }

  lemma {:induction false} FirstStart(d: Dico, d1: Dico, e: Dico, pages: set<nat>, shs: seq<Section>)
    requires shs != [] && MarksGrow(d, d1) && MarksGrow(d1, e) && OnlyStartsMarked(d1, e, pages, shs[1..])
    requires if Skipped(shs[0]) then d1 == d else OnlyMarks(d, d1, pages, shs[0].addr / PAGE)
    ensures MarksGrow(d, e) && OnlyStartsMarked(d, e, pages, shs)
  {
    hide Skipped;
    forall x | x in StartPages(shs[1..])
      ensures x in StartPages(shs)
    {
      var i :| 0 <= i < |shs[1..]| && !Skipped(shs[1..][i]) && x == shs[1..][i].addr / PAGE;
      assert shs[1..][i] == shs[i + 1] && !Skipped(shs[i + 1]);
    }
  }

  /** The section loop writes the same memory whether or not the pages that sections touch were reserved beforehand, if
      the allocator does not reach them; what it leaves is well-formed up to these pages. */
  lemma {:induction false} LoadAllCommutes(ls: LoadState, pages: set<nat>, file: seq<byte>, shs: seq<Section>, k: nat)
    requires Sound(ls.st, pages) && Identity(ls.st.mem) && FileReady(Ahead(ls, pages), shs, k)
    requires StartPages(shs) <= pages && OutOfReach(ls.st.dico, pages, k)
    ensures LoadAll(ls, file, shs).Ok? && Sound(LoadAll(ls, file, shs).value.st, pages)
    ensures LoadAll(Ahead(ls, pages), file, shs) == Ok(Ahead(LoadAll(ls, file, shs).value, pages))
    ensures MarksGrow(ls.st.dico, LoadAll(ls, file, shs).value.st.dico)
    ensures OnlyStartsMarked(ls.st.dico, LoadAll(ls, file, shs).value.st.dico, pages, shs)
    decreases |shs|
  {
    hide Sound, FileReady, LoadSection, OutOfReach, Marking, MarksGrow, WithinFree, Identity, WellFormed, SectionPages,
         Space, KeepsTargets, KeepsData, Pruned, SectionByte, EntryByte, Skipped, SectionReady, OnlyStartsMarked,
         OnlyMarks;
    if shs == [] {
      NothingMarked(ls.st.dico, pages);
    } else {
      var t := Ahead(ls, pages);
      forall i | 0 <= i < |shs| - 1 && !Skipped(shs[1..][i])
        ensures shs[1..][i].addr / PAGE in pages
      {
        assert shs[1..][i] == shs[i + 1] && shs[i + 1].addr / PAGE in StartPages(shs);
      }
      if Skipped(shs[0]) {
        SkippedSection(ls, file, shs[0]);
        SkipReady(t, file, shs, k);
        LoadAllCommutes(ls, pages, file, shs[1..], k);
        NothingMarked(ls.st.dico, pages);
        FirstStart(ls.st.dico, ls.st.dico, LoadAll(ls, file, shs).value.st.dico, pages, shs);
      } else {
        assert shs[0].addr / PAGE in StartPages(shs);
        SoundWellFormed(ls.st, pages);
        FirstIsReady(t, shs, k);
        var left := RestIsReady(t, file, shs, k);
        SectionStep(t, file, shs[0]);
        SectionCommutes(ls, pages, file, shs, k);
        var ls1 := LoadSection(ls, file, shs[0]).value;
        OutOfReachLater(ls.st.dico, ls1.st.dico, pages, k, left);
        LoadAllCommutes(ls1, pages, file, shs[1..], left);
        FirstStart(ls.st.dico, ls1.st.dico, LoadAll(ls, file, shs).value.st.dico, pages, shs);
      }
    }
  }
}
