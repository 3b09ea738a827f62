/** What every admissible run of mapping, reserving and data writing keeps. */
module Invariants {
  import opened Common
  import opened Layout
  import opened Word64
  import opened Allocator
  import opened PageTable
  import opened MemoryMap
  import opened Insertion
  import opened Translation
  import opened Refinement
  import opened Requests

  // ---------- Memories with the same tables ----------

  ghost predicate SamePage(m: seq<byte>, m': seq<byte>, page: nat) {
    InMemory(m, page) && InMemory(m', page)
    && m[page * PAGE..(page + 1) * PAGE] == m'[page * PAGE..(page + 1) * PAGE]
  }

  ghost predicate SameTables(m: seq<byte>, m': seq<byte>) {
    forall t :: TablePage(m, t) ==> SamePage(m, m', t)
  }

  lemma {:induction false} SliceOfSlice<T>(m: seq<T>, lo: nat, hi: nat, i: nat, j: nat)
    requires lo <= hi <= |m| && i <= j <= hi - lo
    ensures m[lo..hi][i..j] == m[lo + i..lo + j]
  {
    forall k | 0 <= k < j - i
      ensures m[lo..hi][i..j][k] == m[lo + i..lo + j][k]
    {
      assert m[lo..hi][i + k] == m[lo + i + k];
    }
  }

  lemma {:induction false} SamePageEntry(m: seq<byte>, m': seq<byte>, page: nat, i: Index)
    requires SamePage(m, m', page)
    ensures Entry(m, page, i) == Entry(m', page, i)
  {
    var a, b := m[page * PAGE..(page + 1) * PAGE], m'[page * PAGE..(page + 1) * PAGE];
    var x := SlotAddress(page, i);
    SliceOfSlice(m, page * PAGE, (page + 1) * PAGE, 8 * i, 8 * i + 8);
    SliceOfSlice(m', page * PAGE, (page + 1) * PAGE, 8 * i, 8 * i + 8);
    assert a[8 * i..8 * i + 8] == b[8 * i..8 * i + 8];
    assert x == page * PAGE + 8 * i;
  }

  /** The tree only depends on the bytes of its table pages. */
  lemma {:induction false} SameTablesSameTargets(m: seq<byte>, m': seq<byte>, p: Path)
    requires SameTables(m, m') && Depth(p) <= 4
    ensures Target(m', p) == Target(m, p)
  {
    match p
    case Root =>
    case Sub(q, i) =>
      SameTablesSameTargets(m, m', q);
      if Target(m, q).Some? {
        assert TablePage(m, Target(m, q).value);
        SamePageEntry(m, m', Target(m, q).value, i);
      }
  }

  // ---------- Single operations ----------

  /** A page that data may be written to: no table, and reserved if the allocator could hand it out. */
  ghost predicate DataPage(s: State, page: nat) {
    !TablePage(s.mem, page) && !(2 <= page < |s.dico| && s.dico[page] == 0)
  }

  ghost predicate DataRange(s: State, a: nat, len: nat) {
    a + len <= |s.mem| && forall x :: a <= x < a + len ==> DataPage(s, x / PAGE)
  }

  lemma {:induction false} WriteTouchesNoTable(s: State, a: nat, bytes: seq<byte>)
    requires WellFormed(s) && DataRange(s, a, |bytes|)
    ensures SameTables(s.mem, Put(s.mem, a, bytes))
  {
    hide Target, GoodFrame, Used, ZeroPage;
    var m := Put(s.mem, a, bytes);
    forall t: nat | TablePage(s.mem, t)
      ensures SamePage(s.mem, m, t)
    {
      forall x | t * PAGE <= x < (t + 1) * PAGE && x < |m|
        ensures m[x] == s.mem[x]
      {
        assert x / PAGE == t;
        assert !(a <= x < a + |bytes|) by {
          assert !DataPage(s, x / PAGE);
        }
      }
      assert InMemory(s.mem, t);
    }
  }

  /** Writing data to data pages changes no translation and keeps the state well-formed. */
  lemma {:induction false} WriteKeeps(s: State, a: nat, bytes: seq<byte>)
    requires WellFormed(s) && DataRange(s, a, |bytes|)
    ensures WellFormed(s.(mem := Put(s.mem, a, bytes)))
    ensures forall p :: Depth(p) <= 4 ==> Target(Put(s.mem, a, bytes), p) == Target(s.mem, p)
  {
    var m := Put(s.mem, a, bytes);
    WriteTouchesNoTable(s, a, bytes);
    forall p | Depth(p) <= 4
      ensures Target(m, p) == Target(s.mem, p)
    {
      SameTablesSameTargets(s.mem, m, p);
    }
    forall page | 2 <= page < |s.dico| && s.dico[page] == 0 && InMemory(m, page)
      ensures ZeroPage(m, page)
    {
      assert ZeroPage(s.mem, page);
      forall x | page * PAGE <= x < (page + 1) * PAGE
        ensures m[x] == 0
      {
        assert x / PAGE == page && !DataPage(s, page);
      }
    }
    SameTargetsKeep(s, s.(mem := m));
  }

  /** Well-formedness depends on the targets, on the marks and on the zero pages. */
  lemma {:induction false} SameTargetsKeep(s: State, s': State)
    requires WellFormed(s) && |s'.mem| == |s.mem| && |s'.dico| == |s.dico|
    requires forall p :: Depth(p) <= 4 ==> Target(s'.mem, p) == Target(s.mem, p)
    requires forall x :: 0 <= x < |s.dico| && s.dico[x] != 0 ==> s'.dico[x] != 0
    requires forall page :: 2 <= page < |s'.dico| && s'.dico[page] == 0 && InMemory(s'.mem, page) ==>
             ZeroPage(s'.mem, page)
    ensures WellFormed(s')
  {
    hide ZeroPage;
    forall p | Depth(p) == 4 && Target(s'.mem, p).Some?
      ensures GoodFrame(s', Target(s'.mem, p).value)
    {
      assert GoodFrame(s, Target(s.mem, p).value);
    }
  }

  /** Reserving any page of the dictionary keeps the state well-formed. */
  lemma {:induction false} InvalidateKeeps(s: State, page: nat)
    requires WellFormed(s) && Invalidate(s, page).Ok?
    ensures WellFormed(Invalidate(s, page).value) && Invalidate(s, page).value.mem == s.mem
  {
    hide Target, TablePage;
    SameTargetsKeep(s, Invalidate(s, page).value);
  }

  /** A new machine is well-formed: only the root table is there, and it is empty. */
  lemma {:induction false} BlankIsWellFormed(size: nat, nbPage: nat)
    requires 0x2000 <= size && nbPage <= 0x8_0000
    ensures WellFormed(Blank(size, nbPage))
    ensures forall p :: Target(Blank(size, nbPage).mem, p).Some? <==> p == Root
  {
    var m := Blank(size, nbPage).mem;
    forall p
      ensures Target(m, p).Some? <==> p == Root
    {
      NothingMapped(m, p);
    }
  }

  lemma {:induction false} NothingMapped(m: seq<byte>, p: Path)
    requires forall a :: 0 <= a < |m| ==> m[a] == 0
    ensures Target(m, p).Some? <==> p == Root
  {
    if p.Sub? {
      NothingMapped(m, p.parent);
      if p.parent == Root && InMemory(m, CR3 / PAGE) {
        ZeroEntry(m, CR3 / PAGE, p.idx);
      }
    }
  }

  // ---------- Two more invariants ----------

  /** Every mapped page is mapped to itself. */
  ghost predicate Identity(m: seq<byte>) {
    forall n :: n in Space(m) ==> Space(m)[n] == n
  }

  /** Every table leads to some mapped page. */
  ghost predicate Pruned(m: seq<byte>) {
    forall p :: 1 <= Depth(p) <= 3 && Target(m, p).Some? ==> HasLeaf(m, p)
  }

  ghost predicate HasLeaf(m: seq<byte>, p: Path) {
    exists leaf :: Depth(leaf) == 4 && IsPrefix(p, leaf) && Target(m, leaf).Some?
  }

  lemma {:induction false} InsertKeepsPruned(s: State, r: Outcome<State>, leaf: Path, n: nat, virt: Word, phys: Word)
    requires Depth(leaf) == 4 && n <= |Free(s.dico)| && Inserted(s, r, leaf, n, virt, phys) && Pruned(s.mem)
    ensures r.Ok? && Pruned(r.value.mem)
  {
    hide WellFormed, Marked, LeafFrame, Target, FreeList, NewEntryByte, IsPrefix;
    var m := r.value.mem;
    forall p | 1 <= Depth(p) <= 3 && Target(m, p).Some?
      ensures HasLeaf(m, p)
    {
      if Target(s.mem, p).Some? {
        assert HasLeaf(s.mem, p);
        var l :| Depth(l) == 4 && IsPrefix(p, l) && Target(s.mem, l).Some?;
        assert Target(m, l).Some?;
      } else {
        assert IsPrefix(p, leaf);
      }
    }
  }

  lemma {:induction false} MapKeepsPruned(s: State, virt: Word, phys: Word)
    requires WellFormed(s) && Ready(s, virt, phys) && Pruned(s.mem)
    ensures Map(s, virt, phys).Ok? && Pruned(Map(s, virt, phys).value.mem)
  {
    hide WellFormed, Map, Leaf, Pruned, Inserted, MissingLevels;
    if Target(s.mem, Leaf(virt)).Some? {
      MapIsIdempotent(s, virt, phys);
    } else {
      assert MissingLevels(s.mem, virt) <= |Free(s.dico)|;
      MapInserts(s, virt, phys);
      InsertKeepsPruned(s, Map(s, virt, phys), Leaf(virt), MissingLevels(s.mem, virt), virt, phys);
    }
  }

  /** Mapping a page to itself keeps the identity, also with the unaligned address of the page as its frame. */
  lemma {:induction false} MapKeepsIdentity(s: State, virt: Word, phys: Word)
    requires WellFormed(s) && Ready(s, virt, phys) && Identity(s.mem)
    requires Vpn(virt) !in Space(s.mem) ==> NewFrame(s, virt, phys) == Vpn(virt)
    ensures Map(s, virt, phys).Ok? && Identity(Map(s, virt, phys).value.mem)
  {
    hide WellFormed, Ready, Map, Vpn, Space, NewFrame;
    MapRefinesInsert(s, virt, phys);
  }

  lemma {:induction false} SameTargetsSameSpace(m: seq<byte>, m': seq<byte>)
    requires forall p :: Depth(p) <= 4 ==> Target(m', p) == Target(m, p)
    ensures Space(m') == Space(m) && (Pruned(m) ==> Pruned(m'))
  {
    hide Target, IsPrefix;
    if Pruned(m) {
      forall p | 1 <= Depth(p) <= 3 && Target(m', p).Some?
        ensures HasLeaf(m', p)
      {
        assert HasLeaf(m, p);
        var l :| Depth(l) == 4 && IsPrefix(p, l) && Target(m, l).Some?;
        assert Target(m', l).Some?;
      }
    }
    forall n: nat | n < 0x10_0000_0000
      ensures Target(m', Leaf(PageStart(n))) == Target(m, Leaf(PageStart(n)))
    {
    }
  }

  // ---------- Runs ----------

  datatype Op = MapPage(virt: Word, phys: Word) | Reserve(page: nat) | Write(addr: nat, bytes: seq<byte>)

  function Step(s: State, op: Op): Outcome<State> {
    match op
    case MapPage(virt, phys) => Map(s, virt, phys)
    case Reserve(page) => Invalidate(s, page)
    case Write(addr, bytes) =>
      if addr + |bytes| <= |s.mem| then Ok(s.(mem := Put(s.mem, addr, bytes))) else Fault
  }

  function Run(s: State, ops: seq<Op>): Outcome<State>
    decreases |ops|
  {
    if ops == [] then Ok(s)
    else
      var s1 :- Step(s, ops[0]);
      Run(s1, ops[1..])
  }

  ghost predicate OpReady(s: State, op: Op) {
    match op
    case MapPage(virt, phys) => Ready(s, virt, phys)
    case Reserve(page) => page % 0x1_0000_0000 < |s.dico|
    case Write(addr, bytes) => DataRange(s, addr, |bytes|)
  }

  /** Every operation is ready in the state that the ones before it lead to. */
  ghost predicate RunReady(s: State, ops: seq<Op>)
    decreases |ops|
  {
    ops != [] ==> OpReady(s, ops[0]) && (Step(s, ops[0]).Ok? ==> RunReady(Step(s, ops[0]).value, ops[1..]))
  }

  /** One ready operation: it stays inside guest memory, keeps the invariants, and loses no translation. */
  lemma {:induction false} StepKeeps(s: State, op: Op)
    requires WellFormed(s) && Pruned(s.mem) && OpReady(s, op)
    ensures Step(s, op).Ok? && WellFormed(Step(s, op).value) && Pruned(Step(s, op).value.mem)
    ensures forall n :: n in Space(s.mem) ==>
              n in Space(Step(s, op).value.mem) && Space(Step(s, op).value.mem)[n] == Space(s.mem)[n]
  {
    hide WellFormed, Pruned, Space, Ready, Map, DataRange, Target, Vpn, NewFrame;
    match op
    case MapPage(virt, phys) =>
      MapRefinesInsert(s, virt, phys);
      MapKeepsPruned(s, virt, phys);
    case Reserve(page) =>
      InvalidateKeeps(s, page);
    case Write(addr, bytes) =>
      assert addr + |bytes| <= |s.mem| by { RangeFits(s, addr, |bytes|); }
      WriteKeeps(s, addr, bytes);
      SameTargetsSameSpace(s.mem, Put(s.mem, addr, bytes));
  }

  lemma {:induction false} RangeFits(s: State, a: nat, len: nat)
    requires DataRange(s, a, len)
    ensures a + len <= |s.mem|
  {
  }

  /** The invariants hold along every ready run, and translations are stable for the whole run. */
  lemma {:induction false} RunKeeps(s: State, ops: seq<Op>)
    requires WellFormed(s) && Pruned(s.mem) && RunReady(s, ops)
    ensures Run(s, ops).Ok? && WellFormed(Run(s, ops).value) && Pruned(Run(s, ops).value.mem)
    ensures forall n :: n in Space(s.mem) ==>
              n in Space(Run(s, ops).value.mem) && Space(Run(s, ops).value.mem)[n] == Space(s.mem)[n]
    decreases |ops|
  {
    hide WellFormed, Pruned, Space, OpReady, Step;
    if ops != [] {
      StepKeeps(s, ops[0]);
      RunKeeps(Step(s, ops[0]).value, ops[1..]);
    }
  }

  /** Every state reached from a new machine by a ready run is well-formed and has no useless table. */
  lemma {:induction false} ReachableStates(size: nat, nbPage: nat, ops: seq<Op>)
    requires 0x2000 <= size && nbPage <= 0x8_0000 && RunReady(Blank(size, nbPage), ops)
    ensures var r := Run(Blank(size, nbPage), ops); r.Ok? && WellFormed(r.value) && Pruned(r.value.mem)
  {
    hide RunReady, Run, WellFormed, Target;
    BlankIsWellFormed(size, nbPage);
    RunKeeps(Blank(size, nbPage), ops);
  }

  // ---------- Reservation before growth ----------

  /** A page that is reserved and holds no table. */
  ghost predicate Kept(s: State, page: nat) {
    page < |s.dico| && s.dico[page] != 0 && !TablePage(s.mem, page)
  }

  lemma {:induction false} MapKeepsReserved(s: State, virt: Word, phys: Word, page: nat)
    requires WellFormed(s) && Ready(s, virt, phys) && Kept(s, page)
    ensures Map(s, virt, phys).Ok? && Kept(Map(s, virt, phys).value, page)
  {
    hide WellFormed, Map, Leaf, Target, TablePage, NewTables, Extends, LeafFrame, MissingLevels, NewFrame, Space, Vpn;
    MapRefinesInsert(s, virt, phys);
    if Target(s.mem, Leaf(virt)).Some? {
      MapIsIdempotent(s, virt, phys);
    } else {
      var n := MissingLevels(s.mem, virt);
      assert n <= |Free(s.dico)|;
      MapInserts(s, virt, phys);
      FreeListElements(s.dico, 2);
      if TablePage(Map(s, virt, phys).value.mem, page) {
        NewTablesInBudget(s, Request(virt, phys), n, page);
      }
    }
  }

  ghost predicate KeepsData(s: State, s': State) {
    forall page :: DataPage(s, page) ==> DataPage(s', page)
  }

  lemma {:induction false} KeepsDataTransitive(s: State, s1: State, s2: State)
    requires KeepsData(s, s1) && KeepsData(s1, s2)
    ensures KeepsData(s, s2)
  {
    hide DataPage;
  }

  lemma {:induction false} InvalidateKeepsData(s: State, page: nat)
    requires Invalidate(s, page).Ok?
    ensures KeepsData(s, Invalidate(s, page).value)
  {
    hide TablePage;
  }

  /** A data page stays one: the call takes its tables from unmarked pages. */
  lemma {:induction false} MapKeepsData(s: State, virt: Word, phys: Word)
    requires WellFormed(s) && Ready(s, virt, phys)
    ensures Map(s, virt, phys).Ok? && KeepsData(s, Map(s, virt, phys).value)
  {
    hide WellFormed, Map, Leaf, Target, TablePage, NewTables, Extends, LeafFrame, MissingLevels, NewFrame, Space, Vpn;
    MapRefinesInsert(s, virt, phys);
    if Target(s.mem, Leaf(virt)).Some? {
      MapIsIdempotent(s, virt, phys);
    } else {
      var n, s' := MissingLevels(s.mem, virt), Map(s, virt, phys).value;
      assert n <= |Free(s.dico)|;
      MapInserts(s, virt, phys);
      FreeListElements(s.dico, 2);
      forall page: nat | DataPage(s, page)
        ensures DataPage(s', page)
      {
        if TablePage(s'.mem, page) {
          NewTablesInBudget(s, Request(virt, phys), n, page);
          var listed := page in Free(s.dico);
        }
      }
    }
  }

  lemma {:induction false} StepKeepsReserved(s: State, op: Op, page: nat)
    requires WellFormed(s) && Pruned(s.mem) && OpReady(s, op) && Kept(s, page)
    ensures Step(s, op).Ok? && Kept(Step(s, op).value, page)
  {
    hide WellFormed, Pruned, Ready, Map, Target, Space;
    match op
    case MapPage(virt, phys) =>
      MapKeepsReserved(s, virt, phys, page);
    case Reserve(p) =>
      InvalidateKeeps(s, p);
    case Write(addr, bytes) =>
      WriteKeeps(s, addr, bytes);
  }

  /** A page reserved before growth never becomes a table in any later admissible run, so data copied to it is safe. */
  lemma {:induction false} ReservedNeverTable(s: State, ops: seq<Op>, page: nat)
    requires WellFormed(s) && Pruned(s.mem) && RunReady(s, ops) && Kept(s, page)
    ensures Run(s, ops).Ok? && Kept(Run(s, ops).value, page)
    decreases |ops|
  {
    hide WellFormed, Pruned, Space, OpReady, Step, Kept;
    if ops != [] {
      StepKeeps(s, ops[0]);
      StepKeepsReserved(s, ops[0], page);
      ReservedNeverTable(Step(s, ops[0]).value, ops[1..], page);
    }
  }
}
