/** Pages reserved beforehand: as long as the allocator does not reach them, a run does the same without the
    reservation. */
module Reservation {
  import opened Common
  import opened Layout
  import opened Word64
  import opened Allocator
  import opened PageTable
  import opened MemoryMap
  import opened Insertion
  import opened Refinement
  import opened Requests
  import opened Invariants

  function Marking(d: Dico, pages: set<nat>): (e: Dico)
    ensures |e| == |d| && forall x :: 0 <= x < |d| ==> e[x] == if x in pages then 1 else d[x]
  {
    seq(|d|, x requires 0 <= x < |d| => if x in pages then 1 else d[x])
  }

  function WithReserved(s: State, pages: set<nat>): State {
    s.(dico := Marking(s.dico, pages))
  }

  function Lifted(r: Outcome<State>, pages: set<nat>): Outcome<State> {
    match r
    case Fault => Fault
    case Ok(s) => Ok(WithReserved(s, pages))
  }

  /** All unmarked pages of the set lie above the first k free pages outside of it. */
  ghost predicate OutOfReach(d: Dico, pages: set<nat>, k: nat) {
    && k <= |Free(Marking(d, pages))|
    && forall x: nat, y: nat :: x in pages && 2 <= x < |d| && d[x] == 0 && y in Free(Marking(d, pages))[..k] ==> y < x
  }

  // ---------- Marks ----------

  ghost predicate MarksGrow(d: Dico, e: Dico) {
    |d| == |e| && forall x :: 0 <= x < |d| && d[x] != 0 ==> e[x] != 0
  }

  lemma {:induction false} AllocateMarks(d: Dico)
    ensures MarksGrow(d, Allocate(d).0)
  {
    if Free(d) != [] {
      PopFree(d);
    }
  }

  /** Inside the set nothing but page f gets marked. */
  ghost predicate OnlyMarks(d: Dico, e: Dico, pages: set<nat>, f: nat) {
    |d| == |e| && forall x :: x in pages && x < |d| && x != f && d[x] == 0 ==> e[x] == 0
  }

  lemma {:induction false} OnlyMarksTransitive(d: Dico, d1: Dico, e: Dico, pages: set<nat>, f: nat)
    requires OnlyMarks(d, d1, pages, f) && OnlyMarks(d1, e, pages, f)
    ensures OnlyMarks(d, e, pages, f)
  {
  }

  /** No call, ready or not, removes a mark. */
  lemma {:induction false} MapFromMarks(s: State, slot: nat, rest: seq<Index>, virt: Word, phys: Word)
    requires MapFrom(s, slot, rest, virt, phys).Ok?
    ensures MarksGrow(s.dico, MapFrom(s, slot, rest, virt, phys).value.dico)
    decreases |rest|
  {
    hide Allocate, Load, Store, NotPresent, MakeEntry;
    AllocateMarks(s.dico);
    if rest != [] {
      var s1 := Grow(s, slot).value;
      MapFromMarks(s1, NextSlot(Load(s1.mem, slot), rest[0]), rest[1..], virt, phys);
    }
  }

  lemma {:induction false} MapMarks(s: State, virt: Word, phys: Word)
    requires Map(s, virt, phys).Ok?
    ensures MarksGrow(s.dico, Map(s, virt, phys).value.dico)
  {
    MapFromMarks(s, CR3 + 8 * PgdIndex(virt), [PudIndex(virt), PmdIndex(virt), PteIndex(virt)], virt, phys);
  }

  // ---------- Out of the allocator's reach ----------

  /** It suffices that the first k free pages are not in the set. */
  lemma {:induction false} FreeOutside(d: Dico, pages: set<nat>, k: nat)
    requires k <= |Free(d)| && forall x :: x in Free(d)[..k] ==> x !in pages
    ensures OutOfReach(d, pages, k) && Free(Marking(d, pages))[..k] == Free(d)[..k]
  {
    FreeListElements(d, 2);
    assert Free(d)[0..k] == Free(d)[..k];
    forall x | x in Free(d)[0..k] && x < |d|
      ensures Marking(d, pages)[x] == 0
    {
      assert x in Free(d);
    }
    FreeAfter(d, Marking(d, pages), 2, 0, k);
    forall x: nat, y: nat | x in pages && 2 <= x < |d| && d[x] == 0 && y in Free(d)[..k]
      ensures y < x
    {
      assert x in Free(d) && x !in Free(d)[..k];
    }
  }

  lemma {:induction false} OutOfReachLater(d: Dico, e: Dico, pages: set<nat>, k: nat, left: nat)
    requires OutOfReach(d, pages, k) && MarksGrow(d, e) && WithinFree(Marking(d, pages), k, Marking(e, pages), left)
    ensures OutOfReach(e, pages, left)
  {
    hide FreeList;
  }

  lemma {:induction false} OutOfReachLess(d: Dico, pages: set<nat>, k: nat, n: nat)
    requires OutOfReach(d, pages, k) && n <= k
    ensures OutOfReach(d, pages, n)
  {
    hide FreeList;
    var free := Free(Marking(d, pages));
    forall y | y in free[..n]
      ensures y in free[..k]
    {
      assert free[..n] == free[..k][..n];
    }
  }

  /** The next page handed out is the same, and the set stays out of reach. */
  lemma {:induction false} AllocateCommutes(d: Dico, pages: set<nat>, n: nat)
    requires OutOfReach(d, pages, n) && n > 0
    ensures Free(d) != [] && Free(d)[0] !in pages && Free(d)[0] < |d|
    ensures Allocate(Marking(d, pages)) == (Marking(Allocate(d).0, pages), Allocate(d).1)
    ensures Allocate(d).0 == Mark(d, Free(d)[0]) && OutOfReach(Allocate(d).0, pages, n - 1)
  {
    hide FreeList;
    var marked := Marking(d, pages);
    var head := Free(marked)[0];
    FreeListElements(d, 2);
    FreeListElements(marked, 2);
    assert head in Free(marked)[..n] && head in Free(marked);
    assert head in Free(d);
    var first := Free(d)[0];
    assert first in Free(d) && first <= head;
    assert first !in pages;
    assert first in Free(marked);
    assert first == head;
    PopFree(d);
    PopFree(marked);
    assert Marking(Mark(d, head), pages) == Mark(marked, head);
    assert Free(marked)[1..][..n - 1] == Free(marked)[..n][1..];
    OutOfReachLater(d, Mark(d, head), pages, n, n - 1);
  }

  /** A budget is not touched by reserving pages that are not among its k free ones. */
  lemma {:induction false} BudgetReserved(s: State, pages: set<nat>, reqs: seq<Request>, k: nat)
    requires Budget(s, reqs, k) && forall x :: x in Free(s.dico)[..k] ==> x !in pages
    ensures Budget(WithReserved(s, pages), reqs, k) && OutOfReach(s.dico, pages, k)
    ensures WithinFree(s.dico, k, Marking(s.dico, pages), k)
  {
    hide Target, Leaf, TablesOf, TablePage, InMemory, OutOfReach, FreeList, MissingTables, Marking, Picks;
    FreeOutside(s.dico, pages, k);
    var t := WithReserved(s, pages);
    assert k > 0 ==> Free(t.dico)[k - 1] == Free(t.dico)[..k][k - 1] && Free(s.dico)[k - 1] == Free(s.dico)[..k][k - 1];
    assert MissingTables(t.mem, reqs) == MissingTables(s.mem, reqs);
    forall r | r in reqs
      ensures FrameSafe(t, r, k)
    {
      assert FrameSafe(s, r, k);
    }
  }

  // ---------- memory_map with and without the reservation ----------

  /** What the leaf level does with its frame is the same; a frame that is not page 0 ends up marked. */
  lemma {:induction false} FillLeafCommutes(s: State, pages: set<nat>, slot: nat, virt: Word, phys: Word)
    requires slot + 8 <= |s.mem| && NotPresent(Load(s.mem, slot))
    requires OutOfReach(s.dico, pages, Picks(Request(virt, phys)))
    requires virt != 0 && phys != 0 ==> phys / PAGE < |s.dico|
    ensures FillLeaf(WithReserved(s, pages), slot, virt, phys) == Lifted(FillLeaf(s, slot, virt, phys), pages)
    ensures var f := LeafFrame(WithReserved(s, pages), 0, virt, phys);
            FillLeaf(s, slot, virt, phys).Ok? &&
            OnlyMarks(s.dico, FillLeaf(s, slot, virt, phys).value.dico, pages, f) &&
            (f != 0 ==> f < |s.dico| && FillLeaf(s, slot, virt, phys).value.dico[f] != 0)
  {
    hide MakeEntry, Store, Load, NotPresent, FreeList;
    if virt != 0 && phys == 0 {
      AllocateCommutes(s.dico, pages, 1);
      PopFree(Marking(s.dico, pages));
    } else if virt != 0 {
      assert Marking(Mark(s.dico, phys / PAGE), pages) == Mark(Marking(s.dico, pages), phys / PAGE);
    }
  }

  /** A level grown from the reserved state is the grown level, reserved. */
  lemma {:induction false} GrowCommutes(s: State, pages: set<nat>, slot: nat, n: nat)
    requires slot + 8 <= |s.mem| && NotPresent(Load(s.mem, slot)) && OutOfReach(s.dico, pages, n) && n > 0
    ensures Grow(s, slot).Ok? && OutOfReach(Grow(s, slot).value.dico, pages, n - 1)
    ensures Grow(WithReserved(s, pages), slot) == Lifted(Grow(s, slot), pages)
    ensures forall f :: OnlyMarks(s.dico, Grow(s, slot).value.dico, pages, f)
  {
    hide MakeEntry, Store, Load, NotPresent, OutOfReach;
    AllocateCommutes(s.dico, pages, n);
  }

  lemma {:induction false} AbsentSlot(s: State, at: Path, i: Index)
    requires WellFormed(s) && IsTable(at) && Target(s.mem, at).Some? && Target(s.mem, Sub(at, i)) == None
    ensures var slot := SlotAddress(Target(s.mem, at).value, i); slot + 8 <= |s.mem| && NotPresent(Load(s.mem, slot))
  {
    assert InMemory(s.mem, Target(s.mem, at).value);
  }

  lemma {:induction false} GivenFrame(s: State, virt: Word, phys: Word)
    requires AdmissibleFrame(s, 0, virt, phys)
    ensures virt != 0 && phys != 0 ==> phys / PAGE < |s.dico|
  {
  }

  lemma {:induction false} GrownTable(s: State, s1: State, at: Path, i: Index)
    requires Grown(s, s1, at, i)
    ensures WellFormed(s1) && Target(s1.mem, at) == Target(s.mem, at)
    ensures |s1.mem| == |s.mem| && |s1.dico| == |s.dico|
  {
    hide WellFormed;
    assert Sub(at, i) != at;
  }

  lemma {:induction false} MapFromCommutes(
    s: State, pages: set<nat>, at: Path, i: Index, rest: seq<Index>, virt: Word, phys: Word, n: nat)
    requires WellFormed(WithReserved(s, pages)) && Depth(at) + |rest| == 3 && Target(s.mem, at).Some?
    requires Target(s.mem, Extend(Sub(at, i), rest)) == None && n == Missing(s.mem, Sub(at, i), rest)
    requires EnoughPages(WithReserved(s, pages), n) && AdmissibleFrame(WithReserved(s, pages), n, virt, phys)
    requires OutOfReach(s.dico, pages, n + Picks(Request(virt, phys)))
    ensures var slot, f := SlotAddress(Target(s.mem, at).value, i), LeafFrame(WithReserved(s, pages), n, virt, phys);
            && MapFrom(WithReserved(s, pages), slot, rest, virt, phys) ==
               Lifted(MapFrom(s, slot, rest, virt, phys), pages)
            && MapFrom(s, slot, rest, virt, phys).Ok?
            && OnlyMarks(s.dico, MapFrom(s, slot, rest, virt, phys).value.dico, pages, f)
            && (f != 0 ==> f < |s.dico| && MapFrom(s, slot, rest, virt, phys).value.dico[f] != 0)
    decreases |rest|
  {
    hide WellFormed, AdmissibleFrame, Grown, Target, OutOfReach, LeafFrame, FillLeaf, NotPresent, Picks, EnoughPages,
         Load, OnlyMarks, Grow, FreeList;
    var q, t, slot := Sub(at, i), WithReserved(s, pages), SlotAddress(Target(s.mem, at).value, i);
    if rest == [] {
      AbsentSlot(t, at, i);
      GivenFrame(t, virt, phys);
      FillLeafCommutes(s, pages, slot, virt, phys);
    } else if Target(s.mem, q).Some? {
      PresentThen(s, at, i, rest, virt, phys);
      PresentThen(t, at, i, rest, virt, phys);
      MapFromCommutes(s, pages, q, rest[0], rest[1..], virt, phys, n);
    } else {
      AllMissing(s.mem, q, rest);
      ExtendIsBelow(q, rest);
      assert EnoughPages(t, 1) by { FreeWithinBudget(t, 1, n); }
      var t1 := GrowOnly(t, at, i, rest, virt, phys);
      GrownBudget(t, t1, at, i, n, virt, phys);
      AbsentSlot(t, at, i);
      GrowCommutes(s, pages, slot, n + Picks(Request(virt, phys)));
      var s1 := Grow(s, slot).value;
      GrownTable(t, t1, at, i);
      assert t1 == WithReserved(s1, pages);
      FollowEntry(t1.mem, at, i, rest[0]);
      MapFromCommutes(s1, pages, q, rest[0], rest[1..], virt, phys, n - 1);
      var r := MapFrom(s, slot, rest, virt, phys);
      OnlyMarksTransitive(s.dico, s1.dico, r.value.dico, pages, LeafFrame(t, n, virt, phys));
    }
  }

  /** A ready call with and without the reservation. */
  lemma {:induction false} MapCommutes(s: State, pages: set<nat>, virt: Word, phys: Word)
    requires WellFormed(WithReserved(s, pages)) && Ready(WithReserved(s, pages), virt, phys)
    requires OutOfReach(s.dico, pages, MissingLevels(s.mem, virt) + Picks(Request(virt, phys)))
    ensures Map(WithReserved(s, pages), virt, phys) == Lifted(Map(s, virt, phys), pages)
    ensures Map(s, virt, phys).Ok? && MarksGrow(s.dico, Map(s, virt, phys).value.dico)
    ensures Target(s.mem, Leaf(virt)) == None ==>
              var f, d := NewFrame(WithReserved(s, pages), virt, phys), Map(s, virt, phys).value.dico;
              f != 0 ==> f < |d| && d[f] != 0
    ensures OnlyMarks(s.dico, Map(s, virt, phys).value.dico, pages, NewFrame(WithReserved(s, pages), virt, phys))
  {
    hide WellFormed, Leaf, MapFrom, OutOfReach, Picks, LeafFrame, EnoughPages, AdmissibleFrame, MarksGrow, Marking;
    var t, rest := WithReserved(s, pages), [PudIndex(virt), PmdIndex(virt), PteIndex(virt)];
    if Target(s.mem, Leaf(virt)).Some? {
      MapIsIdempotent(s, virt, phys);
      MapIsIdempotent(t, virt, phys);
    } else {
      LeafIsExtension(virt);
      MapFromCommutes(s, pages, Root, PgdIndex(virt), rest, virt, phys, MissingLevels(s.mem, virt));
    }
    MapMarks(s, virt, phys);
  }

  // ---------- States that are well-formed up to a set of pages ----------

  ghost predicate FramesMarked(s: State) {
    forall p :: Depth(p) == 4 && Target(s.mem, p).Some? ==> MarkedFrame(s.dico, Target(s.mem, p).value)
  }

  ghost predicate MarkedFrame(d: Dico, f: nat) {
    f == 0 || (f < |d| && d[f] != 0)
  }

  /** The state is well-formed except that unmarked pages of the set, which are no tables, may hold data. */
  ghost predicate Sound(s: State, pages: set<nat>) {
    && WellFormed(WithReserved(s, pages)) && FramesMarked(s)
    && forall p :: p in pages ==> !TablePage(s.mem, p)
  }

  /** Exactly how far such a state is from a well-formed one. */
  lemma {:induction false} SoundExactly(s: State, pages: set<nat>)
    requires Sound(s, pages)
    ensures WellFormed(s) <==>
            forall page :: page in pages && 2 <= page < |s.dico| && s.dico[page] == 0 && InMemory(s.mem, page) ==>
              ZeroPage(s.mem, page)
  {
    hide Target, ZeroPage;
    var t := WithReserved(s, pages);
    forall p | 1 <= Depth(p) <= 3 && Target(s.mem, p).Some?
      ensures Used(s.dico, Target(s.mem, p).value)
    {
      assert Used(t.dico, Target(s.mem, p).value) && TablePage(s.mem, Target(s.mem, p).value);
    }
    forall p | Depth(p) == 4 && Target(s.mem, p).Some?
      ensures GoodFrame(s, Target(s.mem, p).value)
    {
      assert GoodFrame(t, Target(s.mem, p).value);
    }
  }

  lemma {:induction false} WellFormedIsSound(s: State, pages: set<nat>)
    requires WellFormed(s) && forall p :: p in pages ==> !TablePage(s.mem, p)
    ensures Sound(s, pages)
  {
    hide Target, ZeroPage, TablePage;
    SameTargetsKeep(s, WithReserved(s, pages));
    forall p | Depth(p) == 4 && Target(s.mem, p).Some?
      ensures MarkedFrame(s.dico, Target(s.mem, p).value)
    {
      assert GoodFrame(s, Target(s.mem, p).value);
    }
  }

  /** Reserving more pages. */
  lemma {:induction false} SoundMore(s: State, pages: set<nat>, more: set<nat>)
    requires Sound(s, pages) && pages <= more && forall p :: p in more ==> !TablePage(s.mem, p)
    ensures Sound(s, more)
  {
    hide Target, ZeroPage, TablePage;
    SameTargetsKeep(WithReserved(s, pages), WithReserved(s, more));
  }

  lemma {:induction false} ReservedIsData(s: State, pages: set<nat>, page: nat)
    requires Sound(s, pages) && page in pages
    ensures DataPage(WithReserved(s, pages), page)
  {
    hide WellFormed, TablePage, FramesMarked;
  }

  /** A ready call, seen from the state without the reservation. */
  lemma {:induction false} MapKeepsSound(s: State, pages: set<nat>, virt: Word, phys: Word)
    requires Sound(s, pages) && Ready(WithReserved(s, pages), virt, phys)
    requires OutOfReach(s.dico, pages, MissingLevels(s.mem, virt) + Picks(Request(virt, phys)))
    ensures Map(s, virt, phys).Ok? && Sound(Map(s, virt, phys).value, pages)
    ensures Map(WithReserved(s, pages), virt, phys) == Ok(WithReserved(Map(s, virt, phys).value, pages))
  {
    hide WellFormed, Map, Ready, OutOfReach, Marking, Target, TablePage, FramesMarked, NewFrame, MissingLevels, Leaf;
    var t := WithReserved(s, pages);
    MapCommutes(s, pages, virt, phys);
    MapRefinesInsert(t, virt, phys);
    MapKeepsData(t, virt, phys);
    var s' := Map(s, virt, phys).value;
    forall p | p in pages
      ensures !TablePage(s'.mem, p)
    {
      ReservedIsData(s, pages, p);
      assert DataPage(WithReserved(s', pages), p);
    }
    if Target(s.mem, Leaf(virt)).Some? {
      MapIsIdempotent(s, virt, phys);
    } else {
      FramesStayMarked(s, s', pages, virt, phys);
    }
  }

  lemma {:induction false} FramesStayMarked(s: State, s': State, pages: set<nat>, virt: Word, phys: Word)
    requires WellFormed(WithReserved(s, pages)) && Ready(WithReserved(s, pages), virt, phys) && FramesMarked(s)
    requires Map(WithReserved(s, pages), virt, phys) == Ok(WithReserved(s', pages)) && MarksGrow(s.dico, s'.dico)
    requires Target(s.mem, Leaf(virt)) == None && MarkedFrame(s'.dico, NewFrame(WithReserved(s, pages), virt, phys))
    ensures FramesMarked(s')
  {
    hide WellFormed, Map, Marking, Leaf, LeafFrame, Target, MissingLevels, Inserted;
    var t := WithReserved(s, pages);
    assert MissingLevels(t.mem, virt) <= |Free(t.dico)|;
    MapInserts(t, virt, phys);
    InsertedOneLeaf(t, Map(t, virt, phys), Leaf(virt), MissingLevels(s.mem, virt), virt, phys);
    forall p | Depth(p) == 4 && Target(s'.mem, p).Some?
      ensures MarkedFrame(s'.dico, Target(s'.mem, p).value)
    {
      assert p != Leaf(virt) ==> MarkedFrame(s.dico, Target(s.mem, p).value);
    }
  }

  /** Of the given pages only frames of the requests get marked. */
  ghost predicate OnlyFramesMarked(d: Dico, e: Dico, pages: set<nat>, reqs: seq<Request>) {
    |d| == |e| && forall x :: x in pages && x < |d| && d[x] == 0 && e[x] != 0 ==>
           exists r :: r in reqs && RequestFrame(r) == x
  }

  lemma {:induction false} FirstFrame(d: Dico, d1: Dico, e: Dico, pages: set<nat>, reqs: seq<Request>)
    requires reqs != [] && OnlyMarks(d, d1, pages, RequestFrame(reqs[0])) && OnlyFramesMarked(d1, e, pages, reqs[1..])
    ensures OnlyFramesMarked(d, e, pages, reqs)
  {
    forall x | x in pages && x < |d| && d[x] == 0 && e[x] != 0
      ensures exists r :: r in reqs && RequestFrame(r) == x
    {
      if d1[x] == 0 {
        var r :| r in reqs[1..] && RequestFrame(r) == x;
        assert r in reqs;
      } else {
        assert reqs[0] in reqs;
      }
    }
  }

  /** A run within budget, seen from the state without the reservation. */
  lemma {:induction false} MapAllKeepsSound(s: State, pages: set<nat>, reqs: seq<Request>, k: nat)
    requires Sound(s, pages) && Budget(WithReserved(s, pages), reqs, k) && OutOfReach(s.dico, pages, k)
    ensures MapAll(s, reqs).Ok? && Sound(MapAll(s, reqs).value, pages)
    ensures MapAll(WithReserved(s, pages), reqs) == Ok(WithReserved(MapAll(s, reqs).value, pages))
    ensures Explicit(reqs) ==> OnlyFramesMarked(s.dico, MapAll(s, reqs).value.dico, pages, reqs)
    decreases |reqs|
  {
    hide WellFormed, Map, Ready, Budget, OutOfReach, Marking, TablePage, FramesMarked, MissingLevels, Picks, WithinFree,
         NewFrame, OnlyMarks, RequestFrame, MarksGrow;
    if reqs != [] {
      var t, r0 := WithReserved(s, pages), reqs[0];
      BudgetReady(t, reqs, k, r0);
      OutOfReachLess(s.dico, pages, k, MissingLevels(s.mem, r0.virt) + Picks(r0));
      MapKeepsSound(s, pages, r0.virt, r0.phys);
      var left := BudgetStep(t, reqs, k);
      var s1 := Map(s, r0.virt, r0.phys).value;
      MapCommutes(s, pages, r0.virt, r0.phys);
      OutOfReachLater(s.dico, s1.dico, pages, k, left);
      MapAllKeepsSound(s1, pages, reqs[1..], left);
      if Explicit(reqs) {
        FirstFrame(s.dico, s1.dico, MapAll(s, reqs).value.dico, pages, reqs);
      }
    }
  }
}
