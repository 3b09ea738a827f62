/** States that the program reaches and calls on which it does not do what one would expect. */
module Shortfalls {
  import opened Common
  import opened Layout
  import opened Word64
  import opened Allocator
  import opened PageTable
  import opened MemoryMap
  import opened Insertion
  import opened Translation
  import opened Refinement
  import opened Requests
  import opened Stack
  import opened Invariants
  import opened Accounting
  import opened Reservation
  import opened LoaderCorrectness
  import opened LoadFile
  import opened Clients
  import opened SaveMachine

  // ---------- The machine of save.c after its stack ----------

  /** Pages beyond the tables that are not of the stack are unmarked. */
  lemma {:induction false} StackMarks(size: Word, x: nat)
    requires size % PAGE == 0 && size <= 0x9000 && 5 <= x < NB_PAGE && !(0xE - size / PAGE <= x <= 0xE)
    ensures NewStack(size).Ok? && |NewStack(size).value.dico| == NB_PAGE && NewStack(size).value.dico[x] == 0
  {
    hide MapAll, StackRequests, WellFormed, Space, Budget, FreeList, OutOfReach, Marking, Target;
    var s, reqs := Blank(VM_MEMORY_SIZE, NB_PAGE), StackRequests(STACK_ADDRESS, size);
    StackIsLow(size);
    StackFits(size);
    BlankIsWellFormed(VM_MEMORY_SIZE, NB_PAGE);
    BlankFree();
    if TablePage(s.mem, x) {
      BlankTables(x);
    }
    WellFormedIsSound(s, {x});
    BudgetReserved(s, {x}, reqs, 3);
    MapAllKeepsSound(s, {x}, reqs, 3);
    StackIsExplicit(STACK_ADDRESS, size);
    forall r | r in reqs
      ensures RequestFrame(r) != x
    {
      StackFrames(size, r);
    }
  }

  lemma {:induction false} UnmarkedAfterStack(x: nat)
    requires 5 <= x <= 0xA
    ensures AfterStack().Ok? && |AfterStack().value.dico| == NB_PAGE && AfterStack().value.dico[x] == 0
  {
    hide NewStack;
    StackMarks(STACK_SIZE, x);
  }

  /** Memory from page 5 on is still zero. */
  lemma {:induction false} StackMemoryIsZero(a: nat)
    requires 0x5000 <= a < VM_MEMORY_SIZE
    ensures AfterStack().Ok? && a < |AfterStack().value.mem| && AfterStack().value.mem[a] == 0
  {
    hide MapAll, StackRequests, WellFormed, Space, Budget, FreeList, Target, GoodState, NewEntryByte;
    var s, reqs := Blank(VM_MEMORY_SIZE, NB_PAGE), StackRequests(STACK_ADDRESS, STACK_SIZE);
    StackOfSave();
    StackFits(STACK_SIZE);
    BlankIsWellFormed(VM_MEMORY_SIZE, NB_PAGE);
    MapAllRefinesInsertAll(s, reqs, 3);
    var m := AfterStack().value.mem;
    if m[a] != s.mem[a] {
      var p :| NewEntryByte(s.mem, m, p, a);
      EntryByteIsInTable(s.mem, m, a);
    }
  }

  /** The tables of a low machine are pages 1 to 4. */
  lemma {:induction false} LowTables(s: State, t: nat)
    requires WellFormed(s) && LowMachine(s, {})
    ensures TablePage(s.mem, t) <==> 1 <= t <= 4
  {
    hide Space, Sound, WellFormed, TablePages, TablePage;
    OneRegion(s);
    var others := {2, 3, 4};
    forall x | x in TablePages(s)
      ensures x in others
    {
      TablePagesMeaning(s, x);
      TableIsNotZero(s, x);
    }
    SubsetSize(TablePages(s), others);
    assert others - TablePages(s) == {};
    TablePagesMeaning(s, t);
    RootIsTable(s.mem);
    if TablePage(s.mem, t) {
      TableIsNotZero(s, t);
    }
    if 2 <= t <= 4 {
      assert t in others;
    }
  }

  lemma {:induction false} TableIsNotZero(s: State, t: nat)
    requires WellFormed(s) && TablePage(s.mem, t)
    ensures t != 0
  {
    hide WellFormed, TablePage;
    PageZeroIsNoTable(s);
  }

  // ---------- memory_map takes the caller's frame as a table ----------

  /** One grown level, with everything it changes. */
  lemma {:induction false} GrowAt(s: State, at: Path, i: Index, rest: seq<Index>, v: Word, p: Word, x: nat)
    returns (s1: State)
    requires WellFormed(s) && rest != [] && Depth(at) + |rest| == 3
    requires Target(s.mem, at).Some? && Target(s.mem, Sub(at, i)) == None
    requires Free(s.dico) != [] && Free(s.dico)[0] == x && InMemory(s.mem, x)
    ensures WellFormed(s1) && |s1.mem| == |s.mem| && |s1.dico| == |s.dico| && Free(s1.dico) == Free(s.dico)[1..]
    ensures forall q :: Depth(q) <= 4 ==> Target(s1.mem, q) == if q == Sub(at, i) then Some(x) else Target(s.mem, q)
    ensures MapFrom(s, SlotAddress(Target(s.mem, at).value, i), rest, v, p)
         == MapFrom(s1, SlotAddress(x, rest[0]), rest[1..], v, p)
  {
    hide WellFormed, MapFrom, Extend, Missing, Target, FreeList;
    s1 := GrowOnly(s, at, i, rest, v, p);
    assert Depth(Sub(at, i)) <= 4;
  }

  /** From an empty root table the first three free pages become the tables of a low address. */
  lemma {:induction false} ThreeTables(s: State, v: Word, p: Word) returns (s3: State)
    requires WellFormed(s) && (forall q :: Target(s.mem, q).Some? <==> q == Root) && v < 0x20_0000
    requires |s.mem| == VM_MEMORY_SIZE && |Free(s.dico)| >= 3 && Free(s.dico)[..3] == [2, 3, 4]
    ensures WellFormed(s3) && |s3.dico| == |s.dico| && |s3.mem| == |s.mem| && TablePage(s3.mem, 2)
    ensures Target(s3.mem, LOW_TABLE) == Some(4) && Target(s3.mem, Sub(LOW_TABLE, PteIndex(v))) == None
    ensures Map(s, v, p) == FillLeaf(s3, SlotAddress(4, PteIndex(v)), v, p)
  {
    hide WellFormed, MapFrom, Target, FreeList, FillLeaf, PteIndex, PmdIndex, PudIndex, PgdIndex;
    var q1 := Sub(Root, 0);
    var q2 := Sub(q1, 0);
    var i: Index := PteIndex(v);
    assert v / 0x80_0000_0000 == 0 && v / 0x4000_0000 == 0 && v / 0x20_0000 == 0;
    var rest: seq<Index> := [0, 0, i];
    assert Free(s.dico)[0] == 2 && Free(s.dico)[1] == 3 && Free(s.dico)[2] == 4 by {
      assert forall k :: 0 <= k < 3 ==> Free(s.dico)[k] == Free(s.dico)[..3][k];
    }
    assert Target(s.mem, Root) == Some(1) by { RootTarget(s.mem); }
    var s1 := GrowAt(s, Root, 0, rest, v, p, 2);
    var s2 := GrowAt(s1, q1, 0, rest[1..], v, p, 3);
    s3 := GrowAt(s2, q2, 0, rest[1..][1..], v, p, 4);
    assert Depth(Sub(LOW_TABLE, i)) == 4 && Depth(q1) == 1;
    assert IsTable(q1) && Target(s3.mem, q1) == Some(2);
    LastLevel(s3, SlotAddress(4, i), v, p);
    assert rest[1..][1..][1..] == [];
  }

  lemma {:induction false} RootTarget(m: seq<byte>)
    ensures Target(m, Root) == Some(1)
  {
  }

  lemma {:induction false} LastLevel(s: State, slot: nat, v: Word, p: Word)
    ensures MapFrom(s, slot, [], v, p) == FillLeaf(s, slot, v, p)
  {
  }

  /** A frame that is a table already is mapped all the same. */
  lemma {:induction false} TableAsFrame(s: State, at: Path, i: Index, v: Word, p: Word)
    requires WellFormed(s) && Depth(at) == 3 && Target(s.mem, at).Some? && Target(s.mem, Sub(at, i)) == None
    requires v != 0 && p != 0 && p / PAGE < |s.dico| && TablePage(s.mem, p / PAGE)
    ensures var r := FillLeaf(s, SlotAddress(Target(s.mem, at).value, i), v, p);
            && r.Ok? && !WellFormed(r.value) && TablePage(r.value.mem, p / PAGE)
            && Target(r.value.mem, Sub(at, i)) == Some(p / PAGE)
  {
    hide FillLeaf, GoodFrame, Used, ZeroPage, MakeEntry;
    var t, f := Target(s.mem, at).value, p / PAGE;
    LeafAbsent(s, t, i, v, p);
    LeafWithFrame(s, t, i, v, p);
    var r := FillLeaf(s, SlotAddress(t, i), v, p);
    StoreEntry(s.mem, at, i, MakeEntry(p));
    TablesStay(s.mem, r.value.mem, at, i, f);
    BadFrame(r.value, at, i, f);
  }

  /** On a new machine memory_map(0x5000, 0x2000) takes page 2 as its first table and then maps guest page 5 to it: the
      guest can write its own page table. */
  lemma {:induction false} FrameBecomesTable()
    ensures var s := Blank(VM_MEMORY_SIZE, NB_PAGE);
            && WellFormed(s) && !Ready(s, 0x5000, 0x2000) && Map(s, 0x5000, 0x2000).Ok?
            && var s' := Map(s, 0x5000, 0x2000).value;
               !WellFormed(s') && TablePage(s'.mem, 2) && Target(s'.mem, Leaf(0x5000)) == Some(2)
  {
    hide Blank, Target, MapFrom, FreeList, WellFormed, Map, Ready, FillLeaf, TablePage, Leaf;
    var s, v, p: Word := Blank(VM_MEMORY_SIZE, NB_PAGE), 0x5000, 0x2000;
    BlankIsWellFormed(VM_MEMORY_SIZE, NB_PAGE);
    BlankFree();
    BlankSizes();
    var s3 := ThreeTables(s, v, p);
    LeafOfLow(v);
    TableAsFrame(s3, LOW_TABLE, PteIndex(v), v, p);
    ReadyIsExact(s, v, p);
  }

  lemma {:induction false} LeafOfLow(v: Word)
    requires v < 0x20_0000
    ensures Leaf(v) == Sub(LOW_TABLE, PteIndex(v)) && Depth(LOW_TABLE) == 3
  {
    LowLeaf(v);
  }

  // ---------- The next free page is not an empty table ----------

  lemma {:induction false} WalkOfPresent(m: seq<byte>, at: Path, i: Index, rest: seq<Index>, v: Word)
    requires Target(m, at).Some? && Target(m, Extend(Sub(at, i), rest)).Some?
    ensures WalkFrom(m, SlotAddress(Target(m, at).value, i), rest, v)
         == Ok(Target(m, Extend(Sub(at, i), rest)).value * PAGE + v % PAGE)
    decreases |rest|
  {
    hide Load, NotPresent, Target, Combine, NextSlot, SlotAddress;
    var q := Sub(at, i);
    ExtendIsBelow(q, rest);
    PrefixPresent(m, q, Extend(q, rest));
    FollowEntry(m, at, i, if rest == [] then 0 else rest[0]);
    SlotInside(m, Target(m, at).value, i);
    if rest == [] {
      LeafEntry(m, at, i);
    } else {
      WalkOfPresent(m, q, rest[0], rest[1..], v);
    }
  }

  lemma {:induction false} SlotInside(m: seq<byte>, table: nat, i: Index)
    requires InMemory(m, table)
    ensures SlotAddress(table, i) + 8 <= |m|
  {
  }

  lemma {:induction false} LeafEntry(m: seq<byte>, at: Path, i: Index)
    requires Target(m, Sub(at, i)).Some?
    ensures Target(m, at).Some? && InMemory(m, Target(m, at).value)
    ensures Target(m, Sub(at, i)).value == Entry(m, Target(m, at).value, i) / PAGE
  {
  }

  /** The next free page becomes the table at an absent entry; what it holds in its entry j is then the mapping. */
  lemma {:induction false} GrowOntoDirtyPage(s: State, at: Path, i: Index, j: Index, v: Word, p: Word, x: nat)
    requires Target(s.mem, at).Some? && InMemory(s.mem, Target(s.mem, at).value) && Target(s.mem, Sub(at, i)) == None
    requires Free(s.dico) != [] && Free(s.dico)[0] == x && InMemory(s.mem, x) && x != Target(s.mem, at).value
    requires !NotPresent(Entry(s.mem, x, j))
    ensures var r := MapFrom(s, SlotAddress(Target(s.mem, at).value, i), [j], v, p);
            && r.Ok? && Target(r.value.mem, Sub(Sub(at, i), j)) == Some(Entry(s.mem, x, j) / PAGE)
  {
    hide Load, Store, MakeEntry, NotPresent, FreeList;
    var t := Target(s.mem, at).value;
    var slot := SlotAddress(t, i);
    GrowAbsent(s, t, i);
    var s1 := Grow(s, slot).value;
    StoreKeepsPresent(s.mem, slot, MakeEntry(x * PAGE), at);
    EntryStore(s.mem, t, i, MakeEntry(x * PAGE), t, i);
    EntryStore(s.mem, t, i, MakeEntry(x * PAGE), x, j);
    LastEntry(s1.mem, at, i, MakeEntry(x * PAGE));
    LastEntry(s1.mem, Sub(at, i), j, Entry(s.mem, x, j));
    FollowEntry(s1.mem, at, i, j);
    LastLevel(s1, SlotAddress(x, j), v, p);
    assert [j][1..] == [];
  }

  /** The two upper tables of v are followed. */
  lemma {:induction false} LastTwoLevels(s: State, v: Word, p: Word)
    requires Target(s.mem, Leaf(v).parent.parent).Some?
    ensures Map(s, v, p) ==
            MapFrom(s, SlotAddress(Target(s.mem, Leaf(v).parent.parent).value, PmdIndex(v)), [PteIndex(v)], v, p)
  {
    hide MapFrom, Target, PgdIndex, PudIndex, PmdIndex, PteIndex;
    var q1 := Sub(Root, PgdIndex(v));
    var q2 := Sub(q1, PudIndex(v));
    var rest: seq<Index> := [PudIndex(v), PmdIndex(v), PteIndex(v)];
    RootTarget(s.mem);
    PrefixPresent(s.mem, q1, q2);
    PresentThen(s, Root, PgdIndex(v), rest, v, p);
    PresentThen(s, q1, PudIndex(v), rest[1..], v, p);
    assert rest[1..][1..] == [PteIndex(v)];
  }

  /** If the last table of v is absent and the next free page x is not zero where v's entry would be, memory_map(v, p)
      makes v translate to what the page holds, whatever p is. */
  lemma {:induction false} DirtyTable(s: State, v: Word, p: Word, x: nat)
    requires var at := Leaf(v).parent.parent;
             && Target(s.mem, at).Some? && InMemory(s.mem, Target(s.mem, at).value) && x != Target(s.mem, at).value
    requires Target(s.mem, Leaf(v).parent) == None && Free(s.dico) != [] && Free(s.dico)[0] == x && InMemory(s.mem, x)
    requires !NotPresent(Entry(s.mem, x, PteIndex(v)))
    ensures Map(s, v, p).Ok?
    ensures GvaToGpa(Map(s, v, p).value.mem, v) == Ok(Entry(s.mem, x, PteIndex(v)) / PAGE * PAGE + v % PAGE)
  {
    hide Load, NotPresent, FreeList, MapFrom, Target, PgdIndex, PudIndex, PmdIndex, PteIndex, WalkFrom;
    var q1 := Sub(Root, PgdIndex(v));
    var q2 := Sub(q1, PudIndex(v));
    var rest: seq<Index> := [PudIndex(v), PmdIndex(v), PteIndex(v)];
    LeafIsExtension(v);
    LastTwoLevels(s, v, p);
    GrowOntoDirtyPage(s, q2, PmdIndex(v), PteIndex(v), v, p, x);
    var m := Map(s, v, p).value.mem;
    RootTarget(m);
    WalkOfPresent(m, Root, PgdIndex(v), rest, v);
  }

  /** The table for the addresses from 4 MiB to 6 MiB. */
  const HIGH_TABLE := Sub(LOW_TABLE.parent, 2)

  lemma {:induction false} HigherLeaf(j: Index)
    ensures Leaf(0x40_0000 + j * PAGE) == Sub(HIGH_TABLE, j) && Vpn(0x40_0000 + j * PAGE) >= 512
    ensures PteIndex(0x40_0000 + j * PAGE) == j
  {
    hide PgdIndex, PudIndex, PmdIndex, PteIndex;
    var v: Word := 0x40_0000 + j * PAGE;
    assert v / 0x80_0000_0000 == 0 && v / 0x4000_0000 == 0 && v / 0x20_0000 == 2 && v / 0x1000 == 1024 + j;
  }

  /** A low machine does not have it. */
  lemma {:induction false} NoHigherTable(s: State, over: set<nat>)
    requires LowMachine(s, over)
    ensures Target(s.mem, HIGH_TABLE) == None
  {
    hide Space, Target, Sound, Identity, TablePage, Leaf, IsPrefix, Vpn;
    assert Depth(LOW_TABLE) == 3 && Depth(HIGH_TABLE) == 3;
    if Target(s.mem, HIGH_TABLE).Some? {
      assert HasLeaf(s.mem, HIGH_TABLE);
      var l :| Depth(l) == 4 && IsPrefix(HIGH_TABLE, l) && Target(s.mem, l).Some?;
      PrefixOfLeaf(HIGH_TABLE, l);
      HigherLeaf(l.idx);
      SpaceLookup(s.mem, 0x40_0000 + l.idx * PAGE);
    }
  }

  /** It has the one above. */
  lemma {:induction false} MiddleTable(s: State, over: set<nat>)
    requires LowMachine(s, over)
    ensures Target(s.mem, LOW_TABLE.parent).Some? && Target(s.mem, LOW_TABLE.parent).value <= 4
    ensures InMemory(s.mem, Target(s.mem, LOW_TABLE.parent).value)
  {
    hide Space, Target, Sound, Identity, Pruned, TablePage, Tree, TablesOf, InMemory;
    var r := Request(0x5000, 0x5000);
    LowTablesPresent(s, over, [r]);
    LowTablesOf(0x5000);
    assert LOW_TABLE.parent in TablesOf(r.virt) && r in [r];
    assert LOW_TABLE.parent !in MissingTables(s.mem, [r]);
    assert Depth(LOW_TABLE.parent) == 2;
    SoundTree(s, over);
    TableOfPath(s.mem, LOW_TABLE.parent);
  }

  lemma {:induction false} TableOfPath(m: seq<byte>, p: Path)
    requires Tree(m) && IsTable(p) && Target(m, p).Some?
    ensures InMemory(m, Target(m, p).value) && TablePage(m, Target(m, p).value)
  {
    hide Target;
  }

  lemma {:induction false} PrefixOfLeaf(q: Path, l: Path)
    requires Depth(q) == 3 && Depth(l) == 4 && IsPrefix(q, l)
    ensures l.parent == q
  {
    PrefixDepth(q, l.parent);
  }

  lemma {:induction false} PrefixDepth(q: Path, l: Path)
    requires IsPrefix(q, l)
    ensures Depth(q) <= Depth(l) && (Depth(q) == Depth(l) ==> q == l)
  {
    if q != l {
      PrefixDepth(q, l.parent);
    }
  }

  // ---------- The allocator knows more pages than there are ----------

  lemma {:induction false} NextFree(d: seq<int>, x: nat)
    requires 2 <= x < |d| && d[x] == 0 && forall y :: 2 <= y < x ==> d[y] != 0
    ensures Free(d) != [] && Free(d)[0] == x
  {
    FreeListElements(d, 2);
    assert x in Free(d);
    assert Free(d)[0] in Free(d);
  }

  lemma {:induction false} GrowOutsideMemory(s: State, at: Path, i: Index, j: Index, v: Word, p: Word, x: nat)
    requires Target(s.mem, at).Some? && InMemory(s.mem, Target(s.mem, at).value) && Target(s.mem, Sub(at, i)) == None
    requires Free(s.dico) != [] && Free(s.dico)[0] == x && x * PAGE >= |s.mem|
    ensures MapFrom(s, SlotAddress(Target(s.mem, at).value, i), [j], v, p) == Fault
  {
    hide Load, Store, MakeEntry, NotPresent, FreeList;
    var t := Target(s.mem, at).value;
    var slot := SlotAddress(t, i);
    GrowAbsent(s, t, i);
    var s1 := Grow(s, slot).value;
    LoadStore(s.mem, slot, MakeEntry(x * PAGE), slot);
    LastLevel(s1, NextSlot(Load(s1.mem, slot), j), v, p);
    assert [j][1..] == [];
  }

  /** If the last table of v is absent and the next free page lies outside of guest memory, so does the next access. */
  lemma {:induction false} TableOutsideMemory(s: State, v: Word, p: Word, x: nat)
    requires var at := Leaf(v).parent.parent; Target(s.mem, at).Some? && InMemory(s.mem, Target(s.mem, at).value)
    requires Target(s.mem, Leaf(v).parent) == None && Free(s.dico) != [] && Free(s.dico)[0] == x
    requires x * PAGE >= |s.mem|
    ensures Map(s, v, p) == Fault
  {
    hide FreeList, MapFrom, Target, PgdIndex, PudIndex, PmdIndex, PteIndex;
    LastTwoLevels(s, v, p);
    GrowOutsideMemory(s, Leaf(v).parent.parent, PmdIndex(v), PteIndex(v), v, p, x);
  }

  lemma {:induction false} TableIsMarked(s: State, pages: set<nat>, t: nat)
    requires Sound(s, pages) && TablePage(s.mem, t) && t != CR3 / PAGE && t !in pages
    ensures t < |s.dico| && s.dico[t] != 0
  {
    hide ZeroPage, GoodFrame;
    var p :| IsTable(p) && Target(s.mem, p) == Some(t);
    assert p != Root && Used(WithReserved(s, pages).dico, t);
  }

  /** After create_stack(0xE000, 0x9000) all pages from 2 to 14 are marked. */
  lemma {:induction false} AllPagesMarked(x: nat)
    requires 2 <= x <= 0xE
    ensures NewStack(0x9000).Ok? && |NewStack(0x9000).value.dico| == NB_PAGE && NewStack(0x9000).value.dico[x] != 0
  {
    hide NewStack, Space, Pruned, TablePage, Sound, WellFormed;
    StackIsLow(0x9000);
    var s := NewStack(0x9000).value;
    if x <= 4 {
      LowTables(s, x);
      TableIsMarked(s, {}, x);
    } else {
      MappedIsMarked(s, {}, x);
    }
  }

  /** create_stack(0xE000, 0x9000) uses up the 15 pages of guest memory. A later memory_map of a higher address puts its
      table on page 15 and leaves guest memory. */
  lemma {:induction false} AllocatorOutrunsMemory(p: Word)
    ensures NewStack(0x9000).Ok? && WellFormed(NewStack(0x9000).value)
    ensures !Ready(NewStack(0x9000).value, 0x40_0000, p) && Map(NewStack(0x9000).value, 0x40_0000, p) == Fault
  {
    hide NewStack, Space, Free, WellFormed, Ready, Map, GoodState, TablePage, Target, Leaf;
    StackIsLow(0x9000);
    var s := NewStack(0x9000).value;
    StackMarks(0x9000, 0xF);
    forall x | 2 <= x <= 0xE
      ensures s.dico[x] != 0
    {
      AllPagesMarked(x);
    }
    NextFree(s.dico, 0xF);
    NoHigherTable(s, {});
    MiddleTable(s, {});
    HigherLeaf(0);
    TableOutsideMemory(s, 0x40_0000, p, 0xF);
    ReadyIsExact(s, 0x40_0000, p);
  }

  // ---------- The handler's pointer ----------

  /** After the stack of save.c: bits above the 48th are ignored by gva_to_hva, and it refuses pages that are not
      mapped, whereas the system call handler uses the address as it is. */
  lemma {:induction false} HandlerPointerDiffers()
    ensures AfterStack().Ok?
    ensures GvaToHva(AfterStack().value.mem, 0xB000) == Ok(Some(0xB000))
    ensures GvaToHva(AfterStack().value.mem, 0x1_0000_0000_B000) == Ok(Some(0xB000))
    ensures GvaToHva(AfterStack().value.mem, 0x5000) == Ok(None)
  {
    hide AfterStack, WellFormed, Tree, GvaToGpa, Sound, Pruned, Space;
    StackOfSave();
    var s := AfterStack().value;
    TreeOfState(s);
    Unmapped(s.mem, 0x5000);
    MappedToItself(s.mem, 0xB000, 0xB);
    MappedToItself(s.mem, 0x1_0000_0000_B000, 0xB);
  }

  lemma {:induction false} Unmapped(m: seq<byte>, v: Word)
    requires Tree(m) && Vpn(v) !in Space(m)
    ensures GvaToGpa(m, v) == Ok(0)
  {
    hide *;
    WalkIsTranslate(m, v);
    SpaceLookup(m, v);
  }

  lemma {:induction false} MappedToItself(m: seq<byte>, v: Word, n: nat)
    requires Tree(m) && Identity(m) && Vpn(v) == n && n in Space(m)
    ensures GvaToGpa(m, v) == Ok(n * PAGE + v % PAGE)
  {
    hide Tree, GvaToGpa, Space, Vpn;
    MappedTranslation(m, v);
    IdentityAt(m, n);
  }

  lemma {:induction false} IdentityAt(m: seq<byte>, n: nat)
    requires Identity(m) && n in Space(m)
    ensures Space(m)[n] == n
  {
  }
}
