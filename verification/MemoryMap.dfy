/** memory_map and gva_to_gpa: insertion into and lookup in the page tables. */
module MemoryMap {
  import opened Common
  import opened Layout
  import opened Word64
  import opened Allocator
  import opened PageTable

  /** Guest memory together with the page dictionary. */
  datatype State = State(mem: seq<byte>, dico: Dico)

  /** A new machine: zero-filled memory, no page marked. */
  function Blank(size: nat, nbPage: nat): State
    requires nbPage <= 0x8_0000
  {
    State(seq(size, _ => 0), seq(nbPage, _ => 0))
  }

  // ---------- The operations ----------

  /** `page_allocator_dico[page] = 1`, where page was converted to a C int. */
  function Invalidate(s: State, page: nat): Outcome<State> {
    var index := page % 0x1_0000_0000;
    if index < |s.dico| then Ok(s.(dico := Mark(s.dico, index))) else Fault
  }

  /** One interior level: an absent entry gets a fresh table page. */
  function Grow(s: State, slot: nat): Outcome<State> {
    if slot + 8 > |s.mem| then Fault
    else if NotPresent(Load(s.mem, slot)) then
      var (dico, page) := Allocate(s.dico);
      Ok(State(Store(s.mem, slot, MakeEntry(page)), dico))
    else Ok(s)
  }

  /** The last level: an absent entry gets the frame of the address, or a fresh page if none is given. */
  function FillLeaf(s: State, slot: nat, virt: Word, phys: Word): Outcome<State> {
    if slot + 8 > |s.mem| then Fault
    else if !NotPresent(Load(s.mem, slot)) then Ok(s)
    else if virt == 0 then Ok(s.(mem := Store(s.mem, slot, MakeEntry(0))))
    else if phys == 0 then
      var (dico, page) := Allocate(s.dico);
      Ok(State(Store(s.mem, slot, MakeEntry(page)), dico))
    else
      var s' :- Invalidate(s, phys / PAGE);
      Ok(s'.(mem := Store(s.mem, slot, MakeEntry(phys))))
  }

  /** The address of entry i of the table that an entry points to. */
  function NextSlot(entry: Word, i: Index): nat {
    PointerToPage(entry) + 8 * i
  }

  /** The table walk of memory_map from one entry on; rest holds the indices of the lower levels. */
  function MapFrom(s: State, slot: nat, rest: seq<Index>, virt: Word, phys: Word): Outcome<State>
    decreases |rest|
  {
    if rest == [] then FillLeaf(s, slot, virt, phys)
    else
      var s' :- Grow(s, slot);
      MapFrom(s', NextSlot(Load(s'.mem, slot), rest[0]), rest[1..], virt, phys)
  }

  function Map(s: State, virt: Word, phys: Word): Outcome<State> {
    MapFrom(s, CR3 + 8 * PgdIndex(virt), [PudIndex(virt), PmdIndex(virt), PteIndex(virt)], virt, phys)
  }

  // ---------- Well-formed states ----------

  ghost predicate WellFormed(s: State) {
    && Tree(s.mem)
    && (forall p :: 1 <= Depth(p) <= 3 && Target(s.mem, p).Some? ==> Used(s.dico, Target(s.mem, p).value))
    && (forall p :: Depth(p) == 4 && Target(s.mem, p).Some? ==> GoodFrame(s, Target(s.mem, p).value))
    && (forall page :: 2 <= page < |s.dico| && s.dico[page] == 0 && InMemory(s.mem, page) ==> ZeroPage(s.mem, page))
  }

  ghost predicate Used(dico: seq<int>, page: nat) {
    2 <= page < |dico| && dico[page] != 0
  }

  /** What a mapped frame must be: reserved, unless it is page 0, and not a table. */
  ghost predicate GoodFrame(s: State, page: nat) {
    (page == 0 || (page < |s.dico| && s.dico[page] != 0)) && !TablePage(s.mem, page)
  }

  /** How memory may grow: no translation is lost or changed, and bytes change only in entries that became present. */
  ghost predicate Extends(m: seq<byte>, m': seq<byte>) {
    && |m| == |m'|
    && (forall p :: Depth(p) <= 4 && Target(m, p).Some? ==> Target(m', p) == Target(m, p))
    && (forall a :: 0 <= a < |m| && m[a] != m'[a] ==> exists p :: NewEntryByte(m, m', p, a))
  }

  ghost predicate NewEntryByte(m: seq<byte>, m': seq<byte>, p: Path, a: nat) {
    && p.Sub? && IsTable(p.parent) && Target(m, p) == None && Target(m', p).Some? && Target(m', p.parent).Some?
    && SlotAddress(Target(m', p.parent).value, p.idx) <= a < SlotAddress(Target(m', p.parent).value, p.idx) + 8
  }

  lemma {:induction false} ExtendsTransitive(a: seq<byte>, b: seq<byte>, c: seq<byte>)
    requires Extends(a, b) && Extends(b, c)
    ensures Extends(a, c)
  {
    forall x | 0 <= x < |a| && a[x] != c[x]
      ensures exists p :: NewEntryByte(a, c, p, x)
    {
      if a[x] != b[x] {
        var p :| NewEntryByte(a, b, p, x);
        assert NewEntryByte(a, c, p, x);
      } else {
        var p :| NewEntryByte(b, c, p, x);
        assert NewEntryByte(a, c, p, x);
      }
    }
  }

  lemma {:induction false} ExtendsLength(m: seq<byte>, m': seq<byte>)
    requires Extends(m, m')
    ensures |m| == |m'|
  {
  }

  // ---------- One new entry ----------

  /** The tree before and after one absent entry was filled with frame f. */
  ghost predicate OneEntry(m: seq<byte>, m': seq<byte>, at: Path, i: Index, f: nat) {
    && IsTable(at) && Target(m, at).Some? && Target(m, Sub(at, i)) == None && |m| == |m'|
    && (forall p :: Depth(p) <= 4 ==> Target(m', p) == if p == Sub(at, i) then Some(f) else Target(m, p))
    && (forall a :: 0 <= a < |m| && m[a] != m'[a] ==>
          SlotAddress(Target(m, at).value, i) <= a < SlotAddress(Target(m, at).value, i) + 8)
  }

  lemma {:induction false} StoreEntry(m: seq<byte>, at: Path, i: Index, w: Word)
    requires Tree(m) && IsTable(at) && Target(m, at).Some?
    requires Target(m, Sub(at, i)) == None && !NotPresent(w)
    requires Depth(at) < 3 ==> ZeroPage(m, w / PAGE) && !TablePage(m, w / PAGE)
    ensures OneEntry(m, Store(m, SlotAddress(Target(m, at).value, i), w), at, i, w / PAGE)
  {
    forall p | Depth(p) <= 4 {
      PointUpdate(m, at, i, w, p);
    }
  }

  lemma {:induction false} OneEntryExtends(m: seq<byte>, m': seq<byte>, at: Path, i: Index, f: nat)
    requires OneEntry(m, m', at, i, f)
    ensures Extends(m, m')
  {
    forall a | 0 <= a < |m| && m[a] != m'[a]
      ensures NewEntryByte(m, m', Sub(at, i), a)
    {
      assert at != Sub(at, i);
    }
  }

  /** The new frame f suits the level of the entry: a fresh page for a table, a good frame for a leaf. */
  ghost predicate SuitableFrame(s: State, dico: Dico, at: Path, f: nat) {
    && |dico| == |s.dico| && (forall x :: 0 <= x < |dico| && s.dico[x] != 0 ==> dico[x] != 0)
    && if Depth(at) < 3 then Used(dico, f) && s.dico[f] == 0 && InMemory(s.mem, f)
       else GoodFrame(s.(dico := dico), f)
  }

  lemma {:induction false} OneEntryTree(s: State, s': State, at: Path, i: Index, f: nat)
    requires WellFormed(s) && OneEntry(s.mem, s'.mem, at, i, f) && SuitableFrame(s, s'.dico, at, f)
    ensures Tree(s'.mem)
    ensures forall p :: 1 <= Depth(p) <= 3 && Target(s'.mem, p).Some? ==> Used(s'.dico, Target(s'.mem, p).value)
  {
    if Depth(at) < 3 {
      FreshIsNoTable(s, f);
    }
    assert Depth(Sub(at, i)) == Depth(at) + 1;
  }

  lemma {:induction false} OneEntryFrames(s: State, s': State, at: Path, i: Index, f: nat, p: Path)
    requires WellFormed(s) && OneEntry(s.mem, s'.mem, at, i, f) && SuitableFrame(s, s'.dico, at, f)
    requires Depth(p) == 4 && Target(s'.mem, p).Some?
    ensures GoodFrame(s', Target(s'.mem, p).value)
  {
    var g := Target(s'.mem, p).value;
    if p == Sub(at, i) {
      assert Depth(at) == 3;
    } else {
      assert GoodFrame(s, g);
      if Depth(at) < 3 {
        FreshIsNoTable(s, f);
      }
    }
    forall q | IsTable(q)
      ensures Target(s'.mem, q) != Some(g)
    {
    }
  }

  lemma {:induction false} OneEntryZeros(s: State, s': State, at: Path, i: Index, f: nat, page: nat)
    requires WellFormed(s) && OneEntry(s.mem, s'.mem, at, i, f) && SuitableFrame(s, s'.dico, at, f)
    requires 2 <= page < |s'.dico| && s'.dico[page] == 0 && InMemory(s'.mem, page)
    ensures ZeroPage(s'.mem, page)
  {
    assert ZeroPage(s.mem, page);
    var t := Target(s.mem, at).value;
    assert t != page by {
      assert at == Root || 1 <= Depth(at) <= 3;
    }
    forall a | page * PAGE <= a < (page + 1) * PAGE
      ensures s'.mem[a] == 0
    {
      assert !(SlotAddress(t, i) <= a < SlotAddress(t, i) + 8);
    }
  }

  /** Filling an absent entry with a suitable frame keeps the state well-formed. */
  lemma {:induction false} OneEntryKeeps(s: State, s': State, at: Path, i: Index, f: nat)
    requires WellFormed(s) && OneEntry(s.mem, s'.mem, at, i, f) && SuitableFrame(s, s'.dico, at, f)
    ensures WellFormed(s')
  {
    OneEntryTree(s, s', at, i, f);
    forall p | Depth(p) == 4 && Target(s'.mem, p).Some? {
      OneEntryFrames(s, s', at, i, f, p);
    }
    forall page | 2 <= page < |s'.dico| && s'.dico[page] == 0 && InMemory(s'.mem, page) {
      OneEntryZeros(s, s', at, i, f, page);
    }
  }

  lemma {:induction false} FreshIsNoTable(s: State, f: nat)
    requires WellFormed(s) && 2 <= f < |s.dico| && s.dico[f] == 0
    ensures !TablePage(s.mem, f)
    ensures forall p :: Depth(p) <= 4 ==> Target(s.mem, p) != Some(f)
  {
    forall p | Depth(p) <= 4
      ensures Target(s.mem, p) != Some(f)
    {
      assert p == Root || 1 <= Depth(p) <= 3 || Depth(p) == 4;
    }
  }
}
