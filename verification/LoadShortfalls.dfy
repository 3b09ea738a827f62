/** Files that load_file does not load as one would expect, on the machine of save.c. */
module LoadShortfalls {
  import opened Common
  import opened Layout
  import opened Word64
  import opened Allocator
  import opened PageTable
  import opened MemoryMap
  import opened Insertion
  import opened Translation
  import opened Refinement
  import opened Requests
  import opened Invariants
  import opened Reservation
  import opened Elf
  import opened ElfWriter
  import opened LoaderCorrectness
  import opened LoaderNeeds
  import opened Cursor
  import opened Overflow
  import opened LoadFile
  import opened Clients
  import opened SaveMachine
  import opened Footprint
  import opened Shortfalls
  import AppImage
  import LE = LittleEndian

  // ---------- SHT_INIT_ARRAY loses its contents ----------

  /** The application image with nothing but ones for its data. */
  function OnesImage(): seq<byte> {
    MakeFile(0x9000, AppImage.SECTIONS, seq(0x8000, _ => 1))
  }

  lemma {:induction false} OnesImageIsValid()
    ensures ValidFile(OnesImage()) && Sections(OnesImage()) == AppImage.SECTIONS
    ensures |OnesImage()| > 0x2118 && OnesImage()[0x2118] == 1
  {
    hide AppImage.SECTIONS, MakeFile, ValidFile, Sections;
    AppImage.SectionsAreEncodable();
    var data := seq(0x8000, _ => 1);
    WriteThenParse(0x9000, AppImage.SECTIONS, data);
    var file := OnesImage();
    assert file[DataAt(AppImage.SECTIONS)..][0x2118 - DataAt(AppImage.SECTIONS)] ==
           data[0x2118 - DataAt(AppImage.SECTIONS)];
  }

  /** The .init_array of app_img lies at 0xA118 and at offset 0x2118 of the file. Whatever the file holds there, after
      load_file the guest reads zeros. */
  lemma {:induction false} InitArrayIsLost()
    ensures var file := OnesImage(); var sh := AppImage.SECTIONS[35];
            && ValidFile(file) && Sections(file) == AppImage.SECTIONS && sh == Section(14, 0x3, 0xA118, 0x2118, 0x8)
            && AfterStack().Ok? && Loading.LoadFile(AfterStack().value, NEW_PAGES, file).Ok?
            && var m := Loading.LoadFile(AfterStack().value, NEW_PAGES, file).value.st.mem;
               && GvaToGpa(m, 0xA118) == Ok(0xA118) && |m| > 0xA118 && |file| > 0x2118
               && m[0xA118] == 0 && file[0x2118] == 1
  {
    hide AppImage.SECTIONS, AfterStack, NEW_PAGES, OnesImage, ValidFile, Sections, Space, WellFormed, GvaToGpa,
         Loading.LoadFile;
    OnesImageIsValid();
    AppImage.InitArray();
    AppImage.ImageLoads(OnesImage(), 35, 0);
  }

  // ---------- A page that a section ran over becomes a table ----------

  const OVERFLOW := Section(1, 2, 0x5F00, 0x80, 0x200)

  /** A file with one section that starts on page 5 and runs 0x100 bytes into page 6. */
  function OverflowFile(): seq<byte> {
    MakeFile(0x5F00, [OVERFLOW], seq(0x200, _ => 1))
  }

  lemma {:induction false} OverflowFileIsValid()
    ensures ValidFile(OverflowFile()) && Sections(OverflowFile()) == [OVERFLOW]
    ensures !Skipped(OVERFLOW) && ReadsFile(OVERFLOW)
    ensures |OverflowFile()| == 0x280 && forall a :: 0x80 <= a < 0x280 ==> OverflowFile()[a] == 1
  {
    hide MakeFile, ValidFile, Sections;
    var data := seq(0x200, _ => 1);
    WriteThenParse(0x5F00, [OVERFLOW], data);
    assert DataAt([OVERFLOW]) == 0x80;
    forall a | 0x80 <= a < 0x280
      ensures OverflowFile()[a] == 1
    {
      assert OverflowFile()[0x80..][a - 0x80] == data[a - 0x80];
    }
    assert And(2, SHF_ALLOC) == 2 && And(1, SHT_NOBITS) == 0;
  }

  lemma {:induction false} OverflowPages()
    ensures !Skipped(OVERFLOW) && TouchedPages([OVERFLOW]) == {5, 6} && StartPages([OVERFLOW]) == {5}
  {
    assert And(2, SHF_ALLOC) == 2;
    assert PagesOf(OVERFLOW) == {5, 6};
    assert [OVERFLOW][0] == OVERFLOW;
  }

  lemma {:induction false} OverflowIsAdmissible()
    ensures AfterStack().Ok? && WellFormed(AfterStack().value) && LowMachine(AfterStack().value, {})
    ensures LowFile(AfterStack().value, NEW_PAGES, OverflowFile())
    ensures FileAdmissible(AfterStack().value, {}, NEW_PAGES, OverflowFile(), 0)
  {
    hide AfterStack, Sections, ValidFile, OverflowFile, WellFormed, GoodState, Space, FileAdmissible;
    OverflowFileIsValid();
    StackOfSave();
    LowFileIsAdmissible(AfterStack().value, {}, NEW_PAGES, OverflowFile());
  }

  /** What is left after loading it onto the machine of save.c. */
  lemma {:induction false} AfterOverflow() returns (s: State)
    ensures AfterStack().Ok? && ValidFile(OverflowFile())
    ensures Loading.LoadFile(AfterStack().value, NEW_PAGES, OverflowFile()).Ok?
    ensures s == Loading.LoadFile(AfterStack().value, NEW_PAGES, OverflowFile()).value.st
    ensures LowMachine(s, {5, 6}) && Sound(s, {5, 6}) && 6 !in Space(s.mem)
    ensures |s.mem| == VM_MEMORY_SIZE && |s.dico| == NB_PAGE
    ensures s.dico[6] == 0 && s.dico[5] != 0 && s.dico[4] != 0 && s.dico[3] != 0 && s.dico[2] != 0
    ensures forall a :: 0x6000 <= a < 0x6100 ==> s.mem[a] == 1
  {
    hide AfterStack, Sections, ValidFile, OverflowFile, WellFormed, FileAdmissible, Sound, Space, LowFile,
         Loading.LoadFile, TouchedPages, StartPages, Pruned, Identity, Loading.KeepsTargets, ByteLoaded, OVERFLOW,
         NEW_PAGES, TablePage;
    OverflowFileIsValid();
    OverflowPages();
    OverflowIsAdmissible();
    var st, file := AfterStack().value, OverflowFile();
    WellFormedIsSound(st, {});
    LoadFileCorrect(st, {}, NEW_PAGES, file, 0);
    LowFileKeepsLow(st, {}, NEW_PAGES, file);
    s := Loading.LoadFile(st, NEW_PAGES, file).value.st;
    assert {} + TouchedPages([OVERFLOW]) == {5, 6};
    StackOfSave();
    WithPagesKeys(Space(st.mem), [OVERFLOW]);
    UnmarkedAfterStack(5);
    UnmarkedAfterStack(6);
    TouchedMarks(st, {}, NEW_PAGES, file, 0, 5);
    TouchedMarks(st, {}, NEW_PAGES, file, 0, 6);
    forall t | 2 <= t <= 4
      ensures s.dico[t] != 0
    {
      LowTables(st, t);
      TableStays(st.mem, s.mem, t);
      TableIsMarked(s, {5, 6}, t);
    }
    forall a | 0x6000 <= a < 0x6100
      ensures s.mem[a] == 1
    {
      OverflowByte(a - 0x5F00);
    }
  }

  lemma {:induction false} OverflowByte(x: nat)
    requires x < 0x200
    ensures AfterStack().Ok? && ValidFile(OverflowFile())
    ensures Loading.LoadFile(AfterStack().value, NEW_PAGES, OverflowFile()).Ok?
    ensures var m := Loading.LoadFile(AfterStack().value, NEW_PAGES, OverflowFile()).value.st.mem;
            0x5F00 + x < |m| && m[0x5F00 + x] == 1
  {
    hide AfterStack, Sections, ValidFile, OverflowFile, WellFormed, FileAdmissible, Sound, Space, LowFile,
         Loading.LoadFile, StartPages, Pruned, Identity, NEW_PAGES, Skipped, ReadsFile, GvaToGpa;
    OverflowFileIsValid();
    OverflowIsAdmissible();
    WellFormedIsSound(AfterStack().value, {});
    GuestSeesFile(AfterStack().value, {}, NEW_PAGES, OverflowFile(), 0, 0, x);
  }

  lemma {:induction false} OnesAreAnEntry(m: seq<byte>)
    requires InMemory(m, 6) && forall a :: 0x6000 <= a < 0x6100 ==> m[a] == 1
    ensures Entry(m, 6, 0) == 0x0101_0101_0101_0101 && !NotPresent(Entry(m, 6, 0))
  {
    var b := m[0x6000..0x6008];
    assert b == [1, 1, 1, 1, 1, 1, 1, 1];
    assert LE.Decode([1, 1, 1, 1]) == 0x0101_0101 by { assert LE.Decode([1, 1]) == 0x0101; }
    assert b[1..][1..][1..][1..] == [1, 1, 1, 1];
    assert LE.Decode(b) == 1 + 256 * LE.Decode(b[1..]);
    assert LE.Decode(b[1..]) == 1 + 256 * LE.Decode(b[1..][1..]);
    assert LE.Decode(b[1..][1..]) == 1 + 256 * LE.Decode(b[1..][1..][1..]);
    assert LE.Decode(b[1..][1..][1..]) == 1 + 256 * LE.Decode([1, 1, 1, 1]);
  }

  lemma {:induction false} FirstFree(d: seq<int>)
    requires |d| > 6 && d[2] != 0 && d[3] != 0 && d[4] != 0 && d[5] != 0 && d[6] == 0
    ensures Free(d) != [] && Free(d)[0] == 6
  {
    hide FreeList;
    NextFree(d, 6);
  }

  /** A low machine that takes page 6, full of ones, as its next table. */
  lemma {:induction false} TakesPageSix(s: State, over: set<nat>)
    requires LowMachine(s, over) && Free(s.dico) != [] && Free(s.dico)[0] == 6
    requires forall a :: 0x6000 <= a < 0x6100 ==> s.mem[a] == 1
    ensures Map(s, 0x40_0000, 0x7000).Ok?
    ensures GvaToGpa(Map(s, 0x40_0000, 0x7000).value.mem, 0x40_0000) == Ok(0x0101_0101_0101_0000)
  {
    hide Space, Leaf, GvaToGpa, TablePage, Target, FreeList, Entry, Map, GoodState;
    NoHigherTable(s, over);
    MiddleTable(s, over);
    HigherLeaf(0);
    OnesAreAnEntry(s.mem);
    DirtyTable(s, 0x40_0000, 0x7000, 6);
  }

  /** After loading the file the byte at 0x6000 is in memory, but the guest cannot reach it; and as page 6 is not
      reserved, memory_map(0x400000, 0x7000) takes it as a table, finds the section's bytes there and leaves 0x400000
      translated to an address far outside of guest memory. */
  lemma {:induction false} OverflowGoesWrong() returns (s: State)
    ensures AfterStack().Ok? && ValidFile(OverflowFile())
    ensures Loading.LoadFile(AfterStack().value, NEW_PAGES, OverflowFile()).Ok?
    ensures s == Loading.LoadFile(AfterStack().value, NEW_PAGES, OverflowFile()).value.st
    ensures |s.mem| > 0x6000 && s.mem[0x6000] == 1 && GvaToGpa(s.mem, 0x6000) == Ok(0)
    ensures !WellFormed(s) && Map(s, 0x40_0000, 0x7000).Ok?
    ensures GvaToGpa(Map(s, 0x40_0000, 0x7000).value.mem, 0x40_0000) == Ok(0x0101_0101_0101_0000)
  {
    hide AfterStack, ValidFile, OverflowFile, WellFormed, Sound, Space, Loading.LoadFile, Pruned, Identity, NEW_PAGES,
         GvaToGpa, FreeList, Map, Tree, LowMachine, Vpn;
    s := AfterOverflow();
    SoundTree(s, {5, 6});
    assert Vpn(0x6000) == 6 by { Loading.SmallVpn(0x6000); }
    Unmapped(s.mem, 0x6000);
    NotWellFormed(s);
    FirstFree(s.dico);
    TakesPageSix(s, {5, 6});
  }

  lemma {:induction false} NotWellFormed(s: State)
    requires |s.mem| == VM_MEMORY_SIZE && |s.dico| == NB_PAGE && s.dico[6] == 0 && s.mem[0x6000] != 0
    ensures !WellFormed(s)
  {
    hide Tree, Used, GoodFrame;
    assert !ZeroPage(s.mem, 6);
  }

  // ---------- A file that comes back to a page ----------

  const FIRST := Section(1, 2, 0x9000, 0x100, 4)
  const SECOND := Section(1, 2, 0xA000, 0x104, 4)
  const THIRD := Section(1, 2, 0x9100, 0x108, 4)

  function UnsortedFile(): seq<byte> {
    MakeFile(0x9000, [FIRST, SECOND, THIRD], [1, 2, 3, 4, 5, 6, 7, 8, 9, 10, 11, 12])
  }

  lemma {:induction false} UnsortedFileIsValid()
    ensures ValidFile(UnsortedFile()) && Sections(UnsortedFile()) == [FIRST, SECOND, THIRD]
    ensures |UnsortedFile()| == 0x10C && UnsortedFile()[0x108] == 9
  {
    hide MakeFile, ValidFile, Sections;
    var data: seq<byte> := [1, 2, 3, 4, 5, 6, 7, 8, 9, 10, 11, 12];
    WriteThenParse(0x9000, [FIRST, SECOND, THIRD], data);
    assert DataAt([FIRST, SECOND, THIRD]) == 0x100;
    assert UnsortedFile()[0x100..][8] == data[8];
  }

  lemma {:induction false} UnsortedSections()
    ensures !Skipped(FIRST) && !Skipped(SECOND) && !Skipped(THIRD) && ReadsFile(THIRD)
    ensures !Contiguous([FIRST, SECOND, THIRD])
  {
    assert And(2, SHF_ALLOC) == 2 && And(1, SHT_NOBITS) == 0;
    var shs := [FIRST, SECOND, THIRD];
    assert StartsIn(shs, 0, 9) && StartsIn(shs, 2, 9) && !StartsIn(shs, 1, 9) && !Skipped(shs[1]);
  }

  /** The first two sections load as they should. */
  lemma {:induction false} FirstTwo(s: State, file: seq<byte>)
    requires WellFormed(s) && LowMachine(s, {})
    ensures FileReady(Loading.LoadState(s, NEW_PAGES, 0), [FIRST, SECOND], 0)
  {
    hide WellFormed, Identity, Pruned, Space, MissingTables, TablePage, FreeList, Skipped, Sound, ReadsFile, DataPage;
    UnsortedSections();
    var shs := [FIRST, SECOND];
    assert shs[1..] == [SECOND] && [SECOND][1..] == [];
    var reqs := LoadRequests(shs);
    assert LoadRequests([SECOND]) == [Request(0xA000, 0xA000)];
    assert reqs == [Request(0x9000, 0x9000), Request(0xA000, 0xA000)];
    LowTablesPresent(s, {}, reqs);
    LoadIsExplicit(shs);
    ExplicitPicks(reqs);
    assert CursorRight(NEW_PAGES[9 := 1], 0x9000, [SECOND]);
  }

  lemma {:induction false} LoadInTwo(ls: Loading.LoadState, file: seq<byte>, a: seq<Section>, b: seq<Section>)
    requires Loading.LoadAll(ls, file, a).Ok?
    ensures Loading.LoadAll(ls, file, a + b) == Loading.LoadAll(Loading.LoadAll(ls, file, a).value, file, b)
    decreases |a|
  {
    hide Loading.LoadSection;
    if a == [] {
      assert a + b == b;
    } else {
      assert (a + b)[0] == a[0] && (a + b)[1..] == a[1..] + b;
      LoadInTwo(Loading.LoadSection(ls, file, a[0]).value, file, a[1..], b);
    }
  }

  lemma {:induction false} LoadOne(ls: Loading.LoadState, file: seq<byte>, sh: Section)
    ensures Loading.LoadAll(ls, file, [sh]) == Loading.LoadSection(ls, file, sh)
  {
    hide Loading.LoadSection;
    assert [sh][1..] == [];
  }

  lemma {:induction false} LoadTwo(ls: Loading.LoadState, file: seq<byte>, a: Section, b: Section)
    requires Loading.LoadAll(ls, file, [a, b]).Ok?
    ensures Loading.LoadSection(ls, file, a).Ok?
    ensures Loading.LoadAll(ls, file, [a, b]) == Loading.LoadSection(Loading.LoadSection(ls, file, a).value, file, b)
  {
    hide Loading.LoadSection;
    assert [a, b][1..] == [b];
    if Loading.LoadSection(ls, file, a).Ok? {
      LoadOne(Loading.LoadSection(ls, file, a).value, file, b);
    }
  }

  /** Where the cursor stands after the first two sections. */
  lemma {:induction false} CursorAfterTwo(ls: Loading.LoadState, file: seq<byte>)
    requires ls.pages == NEW_PAGES && ls.newPage == 0 && Loading.LoadAll(ls, file, [FIRST, SECOND]).Ok?
    ensures var ls2 := Loading.LoadAll(ls, file, [FIRST, SECOND]).value;
            ls2.newPage == 0xA000 && |ls2.pages| == 0x1000 && ls2.pages[9] != 0
  {
    hide Loading.LoadSection, Loading.LoadAll, Skipped, Loading.Destination;
    UnsortedSections();
    LoadTwo(ls, file, FIRST, SECOND);
    SectionCursor(ls, file, FIRST);
    SectionCursor(Loading.LoadSection(ls, file, FIRST).value, file, SECOND);
  }

  /** A section on a page already seen is copied to the page of the cursor, whichever that is. */
  lemma {:induction false} CopyAstray(ls: Loading.LoadState, file: seq<byte>, sh: Section)
    requires !Skipped(sh) && sh.addr / PAGE < |ls.pages| && ls.pages[sh.addr / PAGE] != 0 && ls.newPage % PAGE == 0
    requires sh.offset < 0x8000_0000 && sh.size < 0x8000_0000
    requires ls.newPage + sh.addr % PAGE + sh.size <= |ls.st.mem|
    ensures Size(sh) == sh.size && Loading.LoadSection(ls, file, sh).Ok?
    ensures Loading.LoadSection(ls, file, sh).value.st.mem ==
            Put(ls.st.mem, ls.newPage + sh.addr % PAGE, SectionBytes(file, sh))
  {
    hide SectionBytes, ReadsFile, Skipped, Put, Loading.Destination;
    DestinationSum(ls.newPage, sh);
  }

  /** A file whose section starts on a page that an earlier load has seen: the cursor starts at 0, so the section is
      copied to its offset within page 0, and nothing else happens. */
  lemma {:induction false} SeenPageGoesToZero(st: State, pages: seq<int>, file: seq<byte>, sh: Section)
    requires ValidFile(file) && Sections(file) == [sh] && !Skipped(sh)
    requires sh.addr / PAGE < |pages| && pages[sh.addr / PAGE] != 0
    requires sh.offset < 0x8000_0000 && sh.size < 0x8000_0000 && sh.addr % 0x1000 + sh.size <= |st.mem|
    ensures Size(sh) == sh.size && Loading.LoadFile(st, pages, file).Ok?
    ensures Loading.LoadFile(st, pages, file).value.st.mem == Put(st.mem, sh.addr % 0x1000, SectionBytes(file, sh))
  {
    hide Sections, Skipped, ValidFile, SectionBytes, Loading.LoadSection, Loading.LoadAll;
    LoadOne(Loading.LoadState(st, pages, 0), file, sh);
    CopyAstray(Loading.LoadState(st, pages, 0), file, sh);
  }

  lemma {:induction false} ThirdBytes(file: seq<byte>)
    requires |file| == 0x10C && file[0x108] == 9
    ensures |SectionBytes(file, THIRD)| == 4 && SectionBytes(file, THIRD)[0] == 9
  {
    hide ReadsFile;
    UnsortedSections();
  }

  /** The third section starts on page 9 again, but the cursor still stands on page 0xA. */
  lemma {:induction false} ThirdGoesAstray(ls: Loading.LoadState, file: seq<byte>)
    requires ls.newPage == 0xA000 && |ls.pages| == 0x1000 && ls.pages[9] != 0 && |ls.st.mem| == VM_MEMORY_SIZE
    requires |file| == 0x10C && file[0x108] == 9
    ensures Loading.LoadAll(ls, file, [THIRD]).Ok?
    ensures var m := Loading.LoadAll(ls, file, [THIRD]).value.st.mem;
            |m| == VM_MEMORY_SIZE && m[0xA100] == 9 && m[0x9100] == ls.st.mem[0x9100]
  {
    hide Skipped, ReadsFile, SectionBytes, Loading.LoadSection, Loading.LoadAll;
    UnsortedSections();
    ThirdBytes(file);
    LoadOne(ls, file, THIRD);
    CopyAstray(ls, file, THIRD);
  }

  /** After the first two sections byte 0x9100 is still zero. */
  lemma {:induction false} AfterTwo(s: State, file: seq<byte>)
    requires WellFormed(s) && LowMachine(s, {})
    ensures Loading.LoadAll(Loading.LoadState(s, NEW_PAGES, 0), file, [FIRST, SECOND]).Ok?
    ensures var m := Loading.LoadAll(Loading.LoadState(s, NEW_PAGES, 0), file, [FIRST, SECOND]).value.st.mem;
            |m| == VM_MEMORY_SIZE && m[0x9100] == s.mem[0x9100]
  {
    hide WellFormed, Identity, Pruned, Space, Skipped, Sound, ReadsFile, DataPage, Loading.LoadAll, FileReady,
         SectionByte, Loading.AllReady, Loading.KeepsTargets, KeepsData, Loading.EntryByte, NEW_PAGES;
    var ls, shs := Loading.LoadState(s, NEW_PAGES, 0), [FIRST, SECOND];
    FirstTwo(s, file);
    ConditionsSuffice(ls, file, shs, 0);
    LoadAllCorrect(ls, file, shs);
    var s' := Loading.LoadAll(ls, file, shs).value.st;
    UnsortedSections();
    assert Loading.SectionPages(s', shs[0]) && Loading.Touches(FIRST, 9);
    DataHasNoEntry(s.mem, s', 0x9100);
    NotCovered(file, shs, 0x9100);
    assert ByteLoaded(file, shs, s.mem, s'.mem, 0x9100);
  }

  /** Coming back to a page goes wrong: the third section of this file is copied to 0xA100, and nothing arrives at its
      address 0x9100. */
  lemma {:induction false} UnsortedGoesAstray()
    ensures var file := UnsortedFile();
            && ValidFile(file) && Sections(file) == [FIRST, SECOND, THIRD] && |file| > 0x108 && file[0x108] == 9
            && AfterStack().Ok? && Loading.LoadFile(AfterStack().value, NEW_PAGES, file).Ok?
            && !CopiesRight(Loading.LoadState(AfterStack().value, NEW_PAGES, 0), file, Sections(file))
            && var m := Loading.LoadFile(AfterStack().value, NEW_PAGES, file).value.st.mem;
               |m| > 0xA100 && m[0xA100] == 9 && m[0x9100] == 0
  {
    hide AfterStack, UnsortedFile, ValidFile, Sections, WellFormed, LowMachine, NEW_PAGES, Loading.LoadAll, CopiesRight,
         Contiguous, Skipped;
    UnsortedFileIsValid();
    UnsortedSections();
    StackOfSave();
    StackMemoryIsZero(0x9100);
    var s, file := AfterStack().value, UnsortedFile();
    var ls := Loading.LoadState(s, NEW_PAGES, 0);
    AfterTwo(s, file);
    CursorAfterTwo(ls, file);
    ThirdGoesAstray(Loading.LoadAll(ls, file, [FIRST, SECOND]).value, file);
    LoadInTwo(ls, file, [FIRST, SECOND], [THIRD]);
    assert [FIRST, SECOND] + [THIRD] == [FIRST, SECOND, THIRD];
    NewPagesAreUnseen(Sections(file));
    CopiesOfFile(s, NEW_PAGES, file);
  }

  lemma {:induction false} NewPagesAreUnseen(shs: seq<Section>)
    requires shs == [FIRST, SECOND, THIRD]
    ensures InDictionary(NEW_PAGES, shs)
    ensures forall i :: 0 <= i < |shs| && !Skipped(shs[i]) ==> NEW_PAGES[shs[i].addr / PAGE] == 0
  {
    hide Skipped;
  }

  // ---------- A section on the tables ----------

  const ZEROS := Section(8, 2, 0x2000, 0, 0x3000)

  /** A file with zero-initialised data on pages 2 to 4 and nothing else. */
  function ZerosFile(): seq<byte> {
    MakeFile(0x2000, [ZEROS], [])
  }

  lemma {:induction false} ZerosFileIsValid()
    ensures ValidFile(ZerosFile()) && Sections(ZerosFile()) == [ZEROS] && !Skipped(ZEROS) && !ReadsFile(ZEROS)
  {
    hide MakeFile, ValidFile, Sections;
    WriteThenParse(0x2000, [ZEROS], []);
    assert And(2, SHF_ALLOC) == 2 && And(8, SHT_NOBITS) == 8;
  }

  /** With all tables there, memory_map comes down to its last level. */
  lemma {:induction false} LastTable(s: State, v: Word, p: Word)
    requires Target(s.mem, Leaf(v).parent).Some?
    ensures Map(s, v, p) == FillLeaf(s, SlotAddress(Target(s.mem, Leaf(v).parent).value, PteIndex(v)), v, p)
  {
    hide MapFrom, Target, PgdIndex, PudIndex, PmdIndex, PteIndex, FillLeaf;
    var q2 := Leaf(v).parent.parent;
    PrefixPresent(s.mem, q2, Leaf(v).parent);
    LastTwoLevels(s, v, p);
    PresentThen(s, q2, PmdIndex(v), [PteIndex(v)], v, p);
    LastLevel(s, SlotAddress(Target(s.mem, Leaf(v).parent).value, PteIndex(v)), v, p);
    assert [PteIndex(v)][1..] == [];
  }

  /** The page of a table is mapped to itself all the same. */
  lemma {:induction false} MapTablePage(s: State, page: nat)
    requires WellFormed(s) && LowMachine(s, {}) && 2 <= page <= 4 && page !in Space(s.mem)
    ensures Map(s, page * PAGE, page * PAGE).Ok?
    ensures Target(Map(s, page * PAGE, page * PAGE).value.mem, Leaf(page * PAGE)).Some?
    ensures |Map(s, page * PAGE, page * PAGE).value.dico| == NB_PAGE
    ensures |Map(s, page * PAGE, page * PAGE).value.mem| == VM_MEMORY_SIZE
  {
    hide WellFormed, Space, Target, FillLeaf, Map, Leaf, TablePage, GoodState;
    var v: Word := page * PAGE;
    LowTables(s, page);
    LowTableThere(s, {});
    LeafOfLow(v);
    assert Vpn(v) == page by { LowLeaf(v); }
    SpaceLookup(s.mem, v);
    LastTable(s, v, v);
    TableAsFrame(s, LOW_TABLE, PteIndex(v), v, v);
    MapMarks(s, v, v);
    MapKeepsLength(s, v, v);
  }

  lemma {:induction false} MapKeepsLength(s: State, v: Word, p: Word)
    requires Map(s, v, p).Ok?
    ensures |Map(s, v, p).value.mem| == |s.mem|
  {
    hide MapFrom;
    MapFromKeepsPresent(s, CR3 + 8 * PgdIndex(v), [PudIndex(v), PmdIndex(v), PteIndex(v)], v, p, Root);
  }

  lemma {:induction false} LowTableThere(s: State, over: set<nat>)
    requires LowMachine(s, over)
    ensures Target(s.mem, LOW_TABLE).Some?
  {
    hide GoodState, Space, Target, TablePage, TablesOf;
    var r := Request(0x5000, 0x5000);
    LowTablesPresent(s, over, [r]);
    LowTablesOf(0x5000);
    assert LOW_TABLE in TablesOf(r.virt) && r in [r];
    assert LOW_TABLE !in MissingTables(s.mem, [r]);
  }

  /** A walk that meets an empty table ends there. */
  lemma {:induction false} WalkIntoZeros(m: seq<byte>, v: Word, t: nat)
    requires Target(m, Sub(Root, PgdIndex(v))) == Some(t) && ZeroPage(m, t)
    ensures GvaToGpa(m, v) == Ok(0)
  {
    hide Load, NotPresent, PgdIndex, PudIndex, PmdIndex, PteIndex;
    FollowEntry(m, Root, PgdIndex(v), PudIndex(v));
    ZeroEntry(m, t, PudIndex(v));
    var rest: seq<Index> := [PudIndex(v), PmdIndex(v), PteIndex(v)];
    SlotInside(m, t, PudIndex(v));
    assert WalkFrom(m, SlotAddress(t, PudIndex(v)), rest[1..], v) == Ok(0);
    assert WalkFrom(m, SlotAddress(1, PgdIndex(v)), rest, v) == Ok(0);
  }

  /** Zeros over pages 2 to 4, seen from the root table, which stays. */
  lemma {:induction false} ZerosOverTables(m: seq<byte>, t: nat, v: Word)
    requires |m| == VM_MEMORY_SIZE && Target(m, Sub(Root, 0)) == Some(t) && 2 <= t <= 4 && v < 0x80_0000_0000
    ensures GvaToGpa(Put(m, 0x2000, Zeros(0x3000)), v) == Ok(0)
  {
    hide Load, NotPresent, PgdIndex, GvaToGpa, Zeros;
    var m' := Put(m, 0x2000, Zeros(0x3000));
    PutElsewhere(m, 0x2000, Zeros(0x3000), SlotAddress(1, 0), SlotAddress(1, 0) + 8);
    SameWordSameLoad(m, m', SlotAddress(1, 0));
    assert Target(m', Sub(Root, 0)) == Some(t);
    ZerosThere(m, t);
    assert PgdIndex(v) == 0;
    WalkIntoZeros(m', v, t);
  }

  lemma {:induction false} ZerosThere(m: seq<byte>, t: nat)
    requires |m| == VM_MEMORY_SIZE && 2 <= t <= 4
    ensures ZeroPage(Put(m, 0x2000, Zeros(0x3000)), t)
  {
  }

  /** Its page gets mapped to itself. */
  lemma {:induction false} MapZeros(ls: Loading.LoadState) returns (ls1: Loading.LoadState)
    requires WellFormed(ls.st) && LowMachine(ls.st, {}) && 2 !in Space(ls.st.mem) && |ls.pages| == 0x1000
    ensures Loading.MapSection(ls, 0x2000) == Ok(ls1) && ls1.newPage == 0x2000 && |ls1.st.mem| == VM_MEMORY_SIZE
    ensures Target(ls.st.mem, Sub(Root, 0)).Some?
    ensures Target(ls1.st.mem, Sub(Root, 0)) == Target(ls.st.mem, Sub(Root, 0))
  {
    hide WellFormed, Space, Target, Map, Leaf, TablePage, GoodState;
    var s1, v: Word := ls.st.(dico := Mark(ls.st.dico, 2)), 0x2000;
    assert Invalidate(ls.st, 2) == Ok(s1);
    InvalidateKeeps(ls.st, 2);
    WellFormedIsSound(s1, {});
    assert LowMachine(s1, {}) by { MarkedLow(ls.st, s1); }
    MapTablePage(s1, 2);
    var s2 := Map(s1, v, v).value;
    var s3 := s2.(dico := Mark(s2.dico, 2));
    assert Invalidate(s2, 2) == Ok(s3);
    MapIsIdempotent(s3, v, v);
    ls1 := Loading.LoadState(s3, ls.pages[2 := 1], 0x2000);
    assert PointerToPage(v) == 0x2000 && Loading.MapSection(ls, v) == Ok(ls1);
    LowTableThere(ls.st, {});
    PrefixPresent(ls.st.mem, Sub(Root, 0), LOW_TABLE);
    MapKeepsPresent(s1, v, v, Sub(Root, 0));
  }

  /** Then zeros are copied over the tables. */
  lemma {:induction false} CopyZeros(ls: Loading.LoadState, file: seq<byte>)
    requires ls.newPage == 0x2000 && |ls.st.mem| == VM_MEMORY_SIZE
    ensures Loading.CopySection(ls, file, ZEROS).Ok?
    ensures Loading.CopySection(ls, file, ZEROS).value.st.mem == Put(ls.st.mem, 0x2000, Zeros(0x3000))
  {
    hide LoadedBytes, Loading.Destination, Zeros, Put;
    ZeroBytes(file);
    DestinationSum(0x2000, ZEROS);
  }

  /** What the section loop does with this section. */
  lemma {:induction false} LoadZeros(ls: Loading.LoadState, file: seq<byte>) returns (m: seq<byte>)
    requires WellFormed(ls.st) && LowMachine(ls.st, {}) && 2 !in Space(ls.st.mem) && ls.pages == NEW_PAGES
    ensures |m| == VM_MEMORY_SIZE && Target(ls.st.mem, Sub(Root, 0)).Some?
    ensures Target(m, Sub(Root, 0)) == Target(ls.st.mem, Sub(Root, 0))
    ensures Loading.LoadSection(ls, file, ZEROS).Ok?
    ensures Loading.LoadSection(ls, file, ZEROS).value.st.mem == Put(m, 0x2000, Zeros(0x3000))
  {
    hide WellFormed, Space, Target, LowMachine, Skipped, Zeros, Put, Loading.MapSection, Loading.CopySection;
    ZerosFileIsValid();
    var ls1 := MapZeros(ls);
    CopyZeros(ls1, file);
    m := ls1.st.mem;
  }

  lemma {:induction false} ZeroBytes(file: seq<byte>)
    ensures LoadedBytes(file, ZEROS) == Ok(Zeros(0x3000))
  {
    hide ReadsFile, SectionBytes, Zeros;
    ZerosFileIsValid();
    UnreadBytes(file, ZEROS);
  }

  lemma {:induction false} UnreadBytes(file: seq<byte>, sh: Section)
    requires !ReadsFile(sh) && sh.size < 0x1_0000_0000
    ensures SectionBytes(file, sh) == Zeros(sh.size)
  {
    hide ReadsFile;
  }

  lemma {:induction false} MarkedLow(s: State, s1: State)
    requires LowMachine(s, {}) && s1.mem == s.mem && |s1.dico| == |s.dico| && Sound(s1, {})
    ensures LowMachine(s1, {})
  {
    hide Sound, Space, Pruned, Identity, TablePage;
  }

  /** Zero-initialised data on pages 2 to 4 erases the tables: where the guest reached its stack before, no address
      below 512 GiB translates any more. */
  lemma {:induction false} TablesOverwritten(v: Word)
    requires v < 0x80_0000_0000
    ensures AfterStack().Ok? && GvaToGpa(AfterStack().value.mem, 0xB000) == Ok(0xB000)
    ensures ValidFile(ZerosFile()) && Loading.LoadFile(AfterStack().value, NEW_PAGES, ZerosFile()).Ok?
    ensures GvaToGpa(Loading.LoadFile(AfterStack().value, NEW_PAGES, ZerosFile()).value.st.mem, v) == Ok(0)
  {
    hide AfterStack, ZerosFile, ValidFile, Sections, WellFormed, Space, Target, GvaToGpa, NEW_PAGES, TablePage,
         Tree, Zeros, Put, Loading.LoadSection, Pruned, Sound;
    ZerosFileIsValid();
    StackOfSave();
    var s, file := AfterStack().value, ZerosFile();
    TreeOfState(s);
    MappedToItself(s.mem, 0xB000, 0xB);
    var ls := Loading.LoadState(s, NEW_PAGES, 0);
    var m := LoadZeros(ls, file);
    LoadOne(ls, file, ZEROS);
    FirstTable(s);
    ZerosOverTables(m, Target(s.mem, Sub(Root, 0)).value, v);
  }

  lemma {:induction false} FirstTable(s: State)
    requires WellFormed(s) && LowMachine(s, {}) && Target(s.mem, Sub(Root, 0)).Some?
    ensures 2 <= Target(s.mem, Sub(Root, 0)).value <= 4
  {
    hide Target, Space, Sound, Pruned, Identity, GoodFrame, ZeroPage;
    assert Depth(Sub(Root, 0)) == 1;
    TableOfPath(s.mem, Sub(Root, 0));
    assert Used(s.dico, Target(s.mem, Sub(Root, 0)).value);
  }

  // ---------- An offset that does not fit a C int ----------

  const FAR := Section(1, 2, 0x5000, 0x8000_0000, 1)

  /** A section header from beyond the first 2 GiB of the file: one zero is asked for, and nothing sensible is read. */
  lemma {:induction false} FarOffset(st: State, pages: seq<int>)
    ensures var file := MakeFile(0x5000, [FAR], []);
            && ValidFile(file) && Sections(file) == [FAR] && SpecifiedBytes(file, FAR) == [0]
            && Loading.LoadFile(st, pages, file) == Fault
  {
    hide MakeFile, ValidFile, Sections, Loading.MapSection;
    var file := MakeFile(0x5000, [FAR], []);
    WriteThenParse(0x5000, [FAR], []);
    assert And(2, SHF_ALLOC) == 2 && And(1, SHT_NOBITS) == 0;
    assert LoadedBytes(file, FAR) == Fault;
    LoadOne(Loading.LoadState(st, pages, 0), file, FAR);
  }
}
