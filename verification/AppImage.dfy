/** The application image that the repository ships, as its section headers: it loads onto the machine of save.c. */
module AppImage {
  import opened Common
  import opened Layout
  import opened Word64
  import opened Allocator
  import opened PageTable
  import opened MemoryMap
  import opened Translation
  import opened Requests
  import opened Invariants
  import opened Elf
  import LE = LittleEndian
  import opened ElfWriter
  import opened LoaderCorrectness
  import opened Cursor
  import opened Reservation
  import opened Overflow
  import opened LoadFile
  import opened SaveMachine

  // Type, flags, address, file offset and size of the sections of app_img. The last section of EARLY_CODE is at 0x96FA;
  // .text.static_init_tls at 0x9DB7 runs into page 0xA, on which .fini at 0xA02D starts.

  const EARLY_CODE: seq<Section> := [
    Section(1, 0x6, 0x9000, 0x1000, 0x1a5), Section(1, 0x6, 0x91a5, 0x11a5, 0x5b),
    Section(1, 0x6, 0x9200, 0x1200, 0x3), Section(1, 0x6, 0x9203, 0x1203, 0x3), Section(1, 0x6, 0x9206, 0x1206, 0x2b),
    Section(1, 0x6, 0x9231, 0x1231, 0x60), Section(1, 0x6, 0x9291, 0x1291, 0x10),
    Section(1, 0x6, 0x92a1, 0x12a1, 0x26), Section(1, 0x6, 0x92c7, 0x12c7, 0xf),
    Section(1, 0x6, 0x92d6, 0x12d6, 0x30a), Section(1, 0x6, 0x95e0, 0x15e0, 0x40),
    Section(1, 0x6, 0x9620, 0x1620, 0x84), Section(1, 0x6, 0x96a4, 0x16a4, 0x56), Section(1, 0x6, 0x96fa, 0x16fa, 0x47)
  ]

  const LATE_CODE: seq<Section> := [
    Section(1, 0x6, 0x9741, 0x1741, 0x19), Section(1, 0x6, 0x975a, 0x175a, 0x188),
    Section(1, 0x6, 0x98e2, 0x18e2, 0x25), Section(1, 0x6, 0x9907, 0x1907, 0xa6),
    Section(1, 0x6, 0x99ad, 0x19ad, 0x88), Section(1, 0x6, 0x9a35, 0x1a35, 0x56),
    Section(1, 0x6, 0x9a8b, 0x1a8b, 0x5a), Section(1, 0x6, 0x9ae5, 0x1ae5, 0x70),
    Section(1, 0x6, 0x9b55, 0x1b55, 0x54), Section(1, 0x6, 0x9ba9, 0x1ba9, 0x46),
    Section(1, 0x6, 0x9bef, 0x1bef, 0xd4), Section(1, 0x6, 0x9cc3, 0x1cc3, 0xf4),
    Section(1, 0x6, 0x9db7, 0x1db7, 0x276), Section(1, 0x6, 0xa02d, 0x202d, 0x35)
  ]

  const DATA: seq<Section> := [
    Section(1, 0x2, 0xa062, 0x2062, 0x36), Section(1, 0x2, 0xa098, 0x2098, 0x3c),
    Section(1, 0x3, 0xa0d8, 0x20d8, 0x8), Section(1, 0x3, 0xa0e0, 0x20e0, 0x18),
    Section(1, 0x3, 0xa0f8, 0x20f8, 0x18), Section(15, 0x3, 0xa110, 0x2110, 0x8),
    Section(14, 0x3, 0xa118, 0x2118, 0x8), Section(1, 0x3, 0xa120, 0x2120, 0x4), Section(1, 0x3, 0xa124, 0x2124, 0x4),
    Section(8, 0x3, 0xa128, 0x2128, 0x1), Section(8, 0x3, 0xa130, 0x2128, 0x8), Section(8, 0x3, 0xa140, 0x2128, 0x68),
    Section(8, 0x3, 0xa1a8, 0x2128, 0x8), Section(8, 0x3, 0xa1b0, 0x2128, 0x8), Section(8, 0x3, 0xa1b8, 0x2128, 0x8),
    Section(8, 0x3, 0xa1c0, 0x2128, 0x8), Section(8, 0x3, 0xa1c8, 0x2128, 0x4),
    Section(8, 0x3, 0xa1e0, 0x2128, 0x150), Section(8, 0x3, 0xa340, 0x2128, 0x30)
  ]

  const UNLOADED: seq<Section> := [
    Section(1, 0x0, 0x0, 0x2128, 0x1da0), Section(1, 0x0, 0x0, 0x3ec8, 0xd0d), Section(1, 0x0, 0x0, 0x4be0, 0x4b0),
    Section(1, 0x0, 0x0, 0x5090, 0x20e), Section(1, 0x0, 0x0, 0x529e, 0xdcf), Section(1, 0x30, 0x0, 0x606d, 0xa28),
    Section(1, 0x30, 0x0, 0x6a95, 0x2e4), Section(1, 0x30, 0x0, 0x6d79, 0x2d), Section(1, 0x0, 0x0, 0x6da8, 0x638),
    Section(2, 0x0, 0x0, 0x73e0, 0x8e8), Section(3, 0x0, 0x0, 0x7cc8, 0x3c3), Section(3, 0x0, 0x0, 0x808b, 0x353)
  ]

  const NULL := Section(0, 0, 0, 0, 0)

  /** All 60 sections. */
  const SECTIONS: seq<Section> := [NULL] + LOADED + UNLOADED

  // ---------- Its first bytes ----------

  /** The ELF header of app_img up to e_version, from e_entry on, and from e_shoff up to e_shnum. */
  const IDENT: seq<byte> := [
    0x7F, 0x45, 0x4C, 0x46, 0x02, 0x01, 0x01, 0, 0, 0, 0, 0,
    0, 0, 0, 0, 0x02, 0, 0x3E, 0, 0x01, 0, 0, 0
  ]
  const ENTRY: seq<byte> := [0, 0x90, 0, 0, 0, 0, 0, 0, 0x40, 0, 0, 0, 0, 0, 0, 0]
  const TABLE: seq<byte> := [
    0xE0, 0x83, 0, 0, 0, 0, 0, 0, 0, 0, 0, 0,
    0x40, 0, 0x38, 0, 0x02, 0, 0x40, 0, 0x3C, 0
  ]
  const HEADER: seq<byte> := IDENT + ENTRY + TABLE

  /** The section header of .init, section 1, up to and including sh_size. */
  const FIRST_SECTION: seq<byte> := [
    0x1B, 0, 0, 0, 0x01, 0, 0, 0, 0x06, 0, 0, 0, 0, 0, 0, 0, 0, 0x90, 0, 0, 0, 0, 0, 0, 0, 0x10, 0, 0, 0, 0, 0, 0,
    0xA5, 0x01, 0, 0, 0, 0, 0, 0
  ]

  /** What the loader reads from the header of app_img. */
  lemma {:induction false} HeaderOfImage(file: seq<byte>)
    requires |file| >= 64 && file[..62] == HEADER
    ensures SectionTable(file) == 0x83E0 && SectionCount(file) == 60 && EntryPoint(file) == 0x9000
  {
    hide SectionTable, SectionCount, EntryPoint, WordField, HEADER;
    HeaderPositions(file);
    EntryPointIsEntry(file);
    HeaderNumbers();
    forall k | 0 <= k < 62
      ensures file[k] == HEADER[k]
    {
      assert file[..62][k] == file[k];
    }
  }

  lemma {:induction false} EntryBytes()
    ensures |ENTRY| == 16 && LE.WordAt(ENTRY, 0) == 0x9000
  {
  }

  lemma {:induction false} TableBytes()
    ensures |TABLE| == 22 && LE.WordAt(TABLE, 0) == 0x83E0 && LE.ShortAt(TABLE, 20) == 60
  {
  }

  lemma {:induction false} HeaderNumbers()
    ensures |HEADER| == 62
    ensures LE.WordAt(HEADER, 24) == 0x9000 && LE.WordAt(HEADER, 40) == 0x83E0 && LE.ShortAt(HEADER, 60) == 60
  {
    hide ENTRY, TABLE;
    EntryBytes();
    TableBytes();
    assert |IDENT| == 24;
    assert forall k :: 0 <= k < 16 ==> HEADER[24 + k] == ENTRY[k];
    assert forall k :: 0 <= k < 22 ==> HEADER[40 + k] == TABLE[k];
  }

  /** What it reads from the header of the first section. */
  lemma {:induction false} FirstSectionOfImage(file: seq<byte>, at: nat)
    requires at + 64 <= |file| && file[at..at + 40] == FIRST_SECTION
    ensures ParseSection(file, at) == EARLY_CODE[0]
  {
    hide ParseSection, FIRST_SECTION;
    SectionPositions(file, at);
    FirstSectionNumbers();
    forall k | 0 <= k < 40
      ensures file[at + k] == FIRST_SECTION[k]
    {
      assert file[at..at + 40][k] == file[at + k];
    }
  }

  lemma {:induction false} FirstSectionNumbers()
    ensures |FIRST_SECTION| == 40
    ensures LE.IntAt(FIRST_SECTION, 4) == 1 && LE.WordAt(FIRST_SECTION, 8) == 6
    ensures LE.WordAt(FIRST_SECTION, 16) == 0x9000 && LE.WordAt(FIRST_SECTION, 24) == 0x1000
    ensures LE.WordAt(FIRST_SECTION, 32) == 0x1A5
  {
  }

  // ---------- The layout of the image ----------

  /** Sections that follow each other between two addresses. */
  predicate InOrder(shs: seq<Section>, low: nat, high: nat) {
    && |shs| > 0 && low <= shs[0].addr && shs[|shs| - 1].addr + shs[|shs| - 1].size <= high
    && forall i :: 0 <= i < |shs| - 1 ==> shs[i].addr + shs[i].size <= shs[i + 1].addr
  }

  lemma {:induction false} EarlyCodeInOrder()
    ensures InOrder(EARLY_CODE, 0x9000, 0x9741) && forall sh :: sh in EARLY_CODE ==> sh.offset <= 0x2128 && sh.kind < 16
  {
  }

  lemma {:induction false} LateCodeInOrder()
    ensures InOrder(LATE_CODE, 0x9741, 0xA062) && forall sh :: sh in LATE_CODE ==> sh.offset <= 0x2128 && sh.kind < 16
  {
  }

  lemma {:induction false} DataInOrder()
    ensures InOrder(DATA, 0xA062, 0xA370) && forall sh :: sh in DATA ==> sh.offset <= 0x2128 && sh.kind < 16
  {
  }

  lemma {:induction false} UnloadedAddresses()
    ensures forall sh :: sh in UNLOADED ==> sh.addr == 0 && sh.kind < 16
  {
  }

  lemma {:induction false} OrderOfTwo(a: seq<Section>, b: seq<Section>, low: nat, middle: nat, high: nat)
    requires InOrder(a, low, middle) && InOrder(b, middle, high)
    ensures InOrder(a + b, low, high)
  {
    var all := a + b;
    forall i | 0 <= i < |all| - 1
      ensures all[i].addr + all[i].size <= all[i + 1].addr
    {
      if i >= |a| {
        assert all[i] == b[i - |a|] && all[i + 1] == b[i + 1 - |a|];
      }
    }
  }

  lemma {:induction false} OrderOfPair(shs: seq<Section>, low: nat, high: nat, i: nat, j: nat)
    requires InOrder(shs, low, high) && i < j < |shs|
    ensures shs[i].addr + shs[i].size <= shs[j].addr
    decreases j
  {
    if j > i + 1 {
      OrderOfPair(shs, low, high, i, j - 1);
    }
  }

  lemma {:induction false} OrderBounds(shs: seq<Section>, low: nat, high: nat, i: nat)
    requires InOrder(shs, low, high) && i < |shs|
    ensures low <= shs[i].addr && shs[i].addr + shs[i].size <= high
  {
    if i > 0 {
      OrderOfPair(shs, low, high, 0, i);
    }
    if i < |shs| - 1 {
      OrderOfPair(shs, low, high, i, |shs| - 1);
    }
  }

  /** The sections that take memory. */
  const LOADED: seq<Section> := EARLY_CODE + LATE_CODE + DATA

  lemma {:induction false} LoadedInOrder()
    ensures InOrder(LOADED, 0x9000, 0xA370) && forall sh :: sh in LOADED ==> sh.offset <= 0x2128 && sh.kind < 16
  {
    hide EARLY_CODE, LATE_CODE, DATA, InOrder;
    EarlyCodeInOrder();
    LateCodeInOrder();
    DataInOrder();
    OrderOfTwo(EARLY_CODE, LATE_CODE, 0x9000, 0x9741, 0xA062);
    OrderOfTwo(EARLY_CODE + LATE_CODE, DATA, 0x9000, 0xA062, 0xA370);
  }

  /** A section that is not skipped is one of them. */
  lemma {:induction false} LoadedIndex(i: nat)
    requires i < |SECTIONS| && !Skipped(SECTIONS[i])
    ensures 1 <= i <= |LOADED| && SECTIONS[i] == LOADED[i - 1]
  {
    hide LOADED, UNLOADED;
    UnloadedAddresses();
    forall k | |LOADED| < k < |SECTIONS|
      ensures SECTIONS[k] in UNLOADED
    {
      assert SECTIONS[k] == UNLOADED[k - 1 - |LOADED|];
    }
  }

  lemma {:induction false} SectionBounds(i: nat)
    requires i < |SECTIONS| && !Skipped(SECTIONS[i])
    ensures 0x9000 <= SECTIONS[i].addr && SECTIONS[i].addr + SECTIONS[i].size <= 0xA370 && SECTIONS[i].offset <= 0x2128
  {
    hide SECTIONS, LOADED, InOrder, Skipped;
    LoadedIndex(i);
    LoadedInOrder();
    OrderBounds(LOADED, 0x9000, 0xA370, i - 1);
  }

  lemma {:induction false} SectionsApart()
    ensures Sorted(SECTIONS) && Contiguous(SECTIONS) && Disjoint(SECTIONS)
  {
    hide SECTIONS, LOADED, InOrder, Skipped, Contiguous;
    forall i, j | 0 <= i < j < |SECTIONS| && !Skipped(SECTIONS[i]) && !Skipped(SECTIONS[j])
      ensures SECTIONS[i].addr + SECTIONS[i].size <= SECTIONS[j].addr
    {
      LoadedIndex(i);
      LoadedIndex(j);
      LoadedInOrder();
      OrderOfPair(LOADED, 0x9000, 0xA370, i - 1, j - 1);
    }
    SortedIsContiguous(SECTIONS);
    forall i, j, a: nat | 0 <= i < j < |SECTIONS| && Covers(SECTIONS[i], a)
      ensures !Covers(SECTIONS[j], a)
    {
      SectionBounds(i);
    }
  }

  lemma {:induction false} TouchedByImage(i: nat, p: nat)
    requires i < |SECTIONS| && p in PagesOf(SECTIONS[i])
    ensures p in {9, 0xA}
  {
    hide SECTIONS, Skipped;
    SectionBounds(i);
  }

  lemma {:induction false} TwoStarts()
    ensures |SECTIONS| == 60 && SECTIONS[1] == EARLY_CODE[0] && SECTIONS[28] == LATE_CODE[13]
    ensures !Skipped(SECTIONS[1]) && !Skipped(SECTIONS[28])
  {
    assert And(6, SHF_ALLOC) == 2;
  }

  /** It touches pages 9 and 0xA, and sections start on both. */
  lemma {:induction false} PagesOfImage()
    ensures TouchedPages(SECTIONS) == {9, 0xA} == StartPages(SECTIONS)
  {
    hide SECTIONS, Skipped, PagesOf;
    forall i, p | 0 <= i < |SECTIONS| && p in PagesOf(SECTIONS[i])
      ensures p in {9, 0xA}
    {
      TouchedByImage(i, p);
    }
    TwoStarts();
    assert SECTIONS[1].addr / PAGE == 9 && SECTIONS[28].addr / PAGE == 0xA;
    StartsAreTouched(SECTIONS);
  }

  /** The loader has not seen the pages of the image yet. */
  predicate Unseen(pages: seq<int>) {
    |pages| == 0x1000 && pages[9] == 0 && pages[0xA] == 0
  }

  lemma {:induction false} ImageFits(st: State, pages: seq<int>, i: nat)
    requires |st.mem| == VM_MEMORY_SIZE && Unseen(pages) && i < |SECTIONS| && !Skipped(SECTIONS[i])
    ensures SECTIONS[i].addr / PAGE < |pages|
    ensures Loading.SectionFits(Loading.LoadState(st, pages, 0), SECTIONS[i])
    ensures SECTIONS[i].addr >= 0x5000 && pages[SECTIONS[i].addr / PAGE] == 0
  {
    hide SECTIONS, Skipped, ReadsFile;
    SectionBounds(i);
    assert SECTIONS[i].addr / PAGE == 9 || SECTIONS[i].addr / PAGE == 0xA;
  }

  lemma {:induction false} SectionsAreEncodable()
    ensures |SECTIONS| == 60 && forall sh :: sh in SECTIONS ==> Encodable(sh)
  {
    hide LOADED, UNLOADED, InOrder;
    LoadedInOrder();
    UnloadedAddresses();
    SectionCounts();
  }

  lemma {:induction false} SectionCounts()
    ensures |LOADED| == 47 && |UNLOADED| == 12
  {
  }

  /** .init_array. */
  lemma {:induction false} InitArray()
    ensures |SECTIONS| == 60 && SECTIONS[35] == Section(14, 0x3, 0xA118, 0x2118, 0x8)
    ensures !Skipped(SECTIONS[35]) && !ReadsFile(SECTIONS[35])
  {
    assert SECTIONS[35] == DATA[6];
    assert And(3, SHF_ALLOC) == 2 && And(14, SHT_NOBITS) == 8;
  }

  lemma {:induction false} ImageIsLow(st: State, pages: seq<int>, file: seq<byte>)
    requires |st.mem| == VM_MEMORY_SIZE && Unseen(pages) && ValidFile(file) && Sections(file) == SECTIONS
    ensures LowFile(st, pages, file)
  {
    hide SECTIONS, Skipped, Contiguous, Sections, ValidFile, Disjoint, Sorted, Loading.SectionFits;
    SectionsApart();
    forall i | 0 <= i < |SECTIONS| && !Skipped(SECTIONS[i])
      ensures SECTIONS[i].addr / PAGE < |pages|
      ensures Loading.SectionFits(Loading.LoadState(st, pages, 0), SECTIONS[i])
      ensures SECTIONS[i].addr >= 0x5000 && pages[SECTIONS[i].addr / PAGE] == 0
    {
      ImageFits(st, pages, i);
    }
  }

  lemma {:induction false} NothingLeftOver(st: State, file: seq<byte>)
    ensures ZeroOverflow(st, file, SECTIONS)
  {
    hide SECTIONS, TouchedPages, StartPages;
    PagesOfImage();
  }

  // ---------- Loading the image ----------

  /** The guest reads byte x of a section at its own address, and it is the file's. */
  ghost predicate InPlace(m: seq<byte>, file: seq<byte>, sh: Section, x: nat) {
    && sh.addr + x < |m| && sh.addr + x < TWO_64 && GvaToGpa(m, sh.addr + x) == Ok(sh.addr + x)
    && m[sh.addr + x] == if ReadsFile(sh) && sh.offset + x < |file| then file[sh.offset + x] else 0
  }

  /** Whatever was reserved before plays no role for the admissibility of a file. */
  lemma {:induction false} AdmissibleAlone(st: State, over: set<nat>, pages: seq<int>, file: seq<byte>)
    requires FileAdmissible(st, over, pages, file, 0)
    ensures FileAdmissible(st, {}, pages, file, 0)
  {
    hide Contiguous, Budget, Sections, ValidFile, TablePage, TouchedPages, Skipped, Loading.SectionFits, FreeList;
  }

  /** The machine after the image was loaded onto a low machine. */
  lemma {:induction false} ImageMachine(s: State, over: set<nat>, pages: seq<int>, file: seq<byte>)
    requires LowMachine(s, over) && Unseen(pages) && ValidFile(file) && Sections(file) == SECTIONS
    ensures FileAdmissible(s, over, pages, file, 0) && Loading.LoadFile(s, pages, file).Ok?
    ensures var s' := Loading.LoadFile(s, pages, file).value.st;
            && LowMachine(s', over + {9, 0xA}) && Space(s'.mem).Keys == Space(s.mem).Keys + {9, 0xA}
            && (WellFormed(s) ==> WellFormed(s'))
  {
    hide SECTIONS, Sections, ValidFile, WellFormed, Identity, Pruned, FileAdmissible, Space, Sound, Unseen, LowFile,
         Loading.LoadFile, ByteLoaded, Loading.KeepsTargets, WithPages, StartPages, TouchedPages, ZeroOverflow,
         TablePage;
    ImageIsLow(s, pages, file);
    LowFileIsAdmissible(s, over, pages, file);
    LowFileKeepsLow(s, over, pages, file);
    LoadFileCorrect(s, over, pages, file, 0);
    WithPagesKeys(Space(s.mem), SECTIONS);
    PagesOfImage();
    if WellFormed(s) {
      AdmissibleAlone(s, over, pages, file);
      NothingLeftOver(s, file);
      WellFormedExactly(s, pages, file, 0);
    }
  }

  /** On a low machine that has not seen its pages, any file with these section headers loads: pages 9 and 0xA get
      mapped, and the guest reads every byte of every section at its own address. */
  lemma {:induction false} ImageOnLowMachine(s: State, over: set<nat>, pages: seq<int>, file: seq<byte>, i: nat, x: nat)
    requires LowMachine(s, over) && Unseen(pages) && ValidFile(file) && Sections(file) == SECTIONS
    requires i < |SECTIONS| && !Skipped(SECTIONS[i]) && x < SECTIONS[i].size
    ensures Loading.LoadFile(s, pages, file).Ok?
    ensures InPlace(Loading.LoadFile(s, pages, file).value.st.mem, file, SECTIONS[i], x)
  {
    hide SECTIONS, Sections, ValidFile, WellFormed, Identity, Pruned, FileAdmissible, Space, TablePage, Unseen,
         Sound, Loading.LoadFile, StartPages, Skipped, ReadsFile, GvaToGpa, Disjoint, Contiguous, Sorted;
    ImageMachine(s, over, pages, file);
    PagesOfImage();
    SectionsApart();
    SectionBounds(i);
    GuestSeesFile(s, over, pages, file, 0, i, x);
    assert 9 <= (SECTIONS[i].addr + x) / PAGE <= 0xA;
  }

  /** The same right after the stack of save.c. */
  lemma {:induction false} ImageLoads(file: seq<byte>, i: nat, x: nat)
    requires ValidFile(file) && Sections(file) == SECTIONS
    requires i < |SECTIONS| && !Skipped(SECTIONS[i]) && x < SECTIONS[i].size
    ensures AfterStack().Ok? && Loading.LoadFile(AfterStack().value, NEW_PAGES, file).Ok?
    ensures InPlace(Loading.LoadFile(AfterStack().value, NEW_PAGES, file).value.st.mem, file, SECTIONS[i], x)
  {
    hide SECTIONS, Sections, ValidFile, AfterStack, LowMachine, Space, WellFormed, Loading.LoadFile, Skipped, ReadsFile,
         GvaToGpa;
    StackOfSave();
    ImageOnLowMachine(AfterStack().value, {}, NEW_PAGES, file, i, x);
  }

  // ---------- save.c with this image ----------

  /** Loading marks no page of the loader's dictionary but start pages. */
  lemma {:induction false} SeenAfter(ls: Loading.LoadState, file: seq<byte>, shs: seq<Section>, page: nat)
    requires Loading.LoadAll(ls, file, shs).Ok? && ls.newPage % PAGE == 0
    requires page < |ls.pages| && page !in StartPages(shs)
    ensures |Loading.LoadAll(ls, file, shs).value.pages| == |ls.pages|
    ensures Loading.LoadAll(ls, file, shs).value.pages[page] == ls.pages[page]
    decreases |shs|
  {
    hide Loading.LoadSection, Skipped, Loading.Destination;
    if shs != [] {
      assert !Skipped(shs[0]) ==> shs[0].addr / PAGE in StartPages(shs);
      forall p | p in StartPages(shs[1..])
        ensures p in StartPages(shs)
      {
        var i :| 0 <= i < |shs[1..]| && !Skipped(shs[1..][i]) && p == shs[1..][i].addr / PAGE;
        assert shs[1..][i] == shs[i + 1] && !Skipped(shs[i + 1]);
      }
      if Skipped(shs[0]) {
        SectionSkipped(ls, file, shs[0]);
      } else {
        SectionCursor(ls, file, shs[0]);
      }
      SeenAfter(Loading.LoadSection(ls, file, shs[0]).value, file, shs[1..], page);
    }
  }

  /** The machine after the stack and a boot file without sections that start on pages 9 or 0xA. */
  lemma {:induction false} AfterBoot(boot: seq<byte>) returns (r: Loading.LoadState)
    requires ValidFile(boot) && AfterStack().Ok? && LowFile(AfterStack().value, NEW_PAGES, boot)
    requires 9 !in StartPages(Sections(boot)) && 0xA !in StartPages(Sections(boot))
    ensures Loading.LoadFile(AfterStack().value, NEW_PAGES, boot) == Ok(r)
    ensures LowMachine(r.st, TouchedPages(Sections(boot))) && Unseen(r.pages)
    ensures Space(r.st.mem).Keys == {0xB, 0xC, 0xD, 0xE} + StartPages(Sections(boot))
    ensures ZeroOverflow(AfterStack().value, boot, Sections(boot)) ==> WellFormed(r.st)
  {
    hide AfterStack, NEW_PAGES, Sections, ValidFile, WellFormed, FileAdmissible, Space, TablePage, Sound, Identity,
         Pruned, StartPages, TouchedPages, ZeroOverflow, LowFile, ByteLoaded, Loading.KeepsTargets, WithPages,
         Loading.LoadAll;
    StackOfSave();
    var s := AfterStack().value;
    LowFileIsAdmissible(s, {}, NEW_PAGES, boot);
    LoadFileCorrect(s, {}, NEW_PAGES, boot, 0);
    LowFileKeepsLow(s, {}, NEW_PAGES, boot);
    assert {} + TouchedPages(Sections(boot)) == TouchedPages(Sections(boot));
    r := Loading.LoadFile(s, NEW_PAGES, boot).value;
    WithPagesKeys(Space(s.mem), Sections(boot));
    assert Space(s.mem).Keys == {0xB, 0xC, 0xD, 0xE};
    WellFormedExactly(s, NEW_PAGES, boot, 0);
    NewAreUnseen();
    SeenAfter(Loading.LoadState(s, NEW_PAGES, 0), boot, Sections(boot), 9);
    SeenAfter(Loading.LoadState(s, NEW_PAGES, 0), boot, Sections(boot), 0xA);
  }

  lemma {:induction false} NewAreUnseen()
    ensures Unseen(NEW_PAGES)
  {
  }

  /** The whole of save.c: after the stack and any boot file that starts no section on pages 9 and 0xA, the image loads;
      mapped are the stack, the boot file's start pages and pages 9 and 0xA; the guest reads every byte of every section
      of the image at its own address; and the machine is well-formed if the boot file leaves no page dirty. */
  lemma {:induction false} SaveWithImage(boot: seq<byte>, file: seq<byte>, i: nat, x: nat)
    returns (r: Loading.LoadState, s': State)
    requires ValidFile(boot) && ValidFile(file) && Sections(file) == SECTIONS
    requires AfterStack().Ok? && LowFile(AfterStack().value, NEW_PAGES, boot)
    requires 9 !in StartPages(Sections(boot)) && 0xA !in StartPages(Sections(boot))
    requires i < |SECTIONS| && !Skipped(SECTIONS[i]) && x < SECTIONS[i].size
    ensures Loading.LoadFile(AfterStack().value, NEW_PAGES, boot) == Ok(r)
    ensures Loading.LoadFile(r.st, r.pages, file).Ok? && s' == Loading.LoadFile(r.st, r.pages, file).value.st
    ensures Space(s'.mem).Keys == {9, 0xA, 0xB, 0xC, 0xD, 0xE} + StartPages(Sections(boot))
    ensures LowMachine(s', TouchedPages(Sections(boot)) + {9, 0xA})
    ensures ZeroOverflow(AfterStack().value, boot, Sections(boot)) ==> WellFormed(s')
    ensures InPlace(s'.mem, file, SECTIONS[i], x)
  {
    hide SECTIONS, NEW_PAGES, Sections, ValidFile, AfterStack, LowMachine, LowFile, Space, WellFormed, FileAdmissible,
         Loading.LoadFile, Skipped, ReadsFile, GvaToGpa, StartPages, TouchedPages, ZeroOverflow, Unseen;
    r := AfterBoot(boot);
    ImageMachine(r.st, TouchedPages(Sections(boot)), r.pages, file);
    ImageOnLowMachine(r.st, TouchedPages(Sections(boot)), r.pages, file, i, x);
    s' := Loading.LoadFile(r.st, r.pages, file).value.st;
  }
}
