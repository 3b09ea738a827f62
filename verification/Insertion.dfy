/** memory_map inserts one translation and changes no other. */
module Insertion {
  import opened Common
  import opened Layout
  import opened Word64
  import opened Allocator
  import opened PageTable
  import opened MemoryMap

  // ---------- What one call needs ----------

  function Extend(p: Path, rest: seq<Index>): Path
    decreases |rest|
  {
    if rest == [] then p else Extend(Sub(p, rest[0]), rest[1..])
  }

  /** How many of the tables at p, p + rest[0], ... are absent; the leaf at the end does not count. */
  function Missing(m: seq<byte>, p: Path, rest: seq<Index>): nat
    decreases |rest|
  {
    if rest == [] then 0
    else (if Target(m, p) == None then 1 else 0) + Missing(m, Sub(p, rest[0]), rest[1..])
  }

  /** The first n free pages exist and lie in guest memory. */
  ghost predicate EnoughPages(s: State, n: nat) {
    n <= |Free(s.dico)| && (n > 0 ==> InMemory(s.mem, Free(s.dico)[n - 1]))
  }

  /** The frame given by the caller is in the dictionary, is no table, and is not taken as a table by the same call. */
  ghost predicate AdmissibleFrame(s: State, n: nat, virt: Word, phys: Word) {
    virt != 0 && phys != 0 ==>
      var f := phys / PAGE;
      f < |s.dico| && !TablePage(s.mem, f) && (n <= |Free(s.dico)| ==> f !in Free(s.dico)[..n])
  }

  /** The frame that the new leaf entry holds when n tables are allocated first. */
  function LeafFrame(s: State, n: nat, virt: Word, phys: Word): nat {
    if virt == 0 then 0
    else if phys != 0 then phys / PAGE
    else if n < |Free(s.dico)| then Free(s.dico)[n]
    else 0
  }

  /** The pages that the call marks. */
  ghost function Reserved(s: State, n: nat, virt: Word, phys: Word): set<nat>
    requires n <= |Free(s.dico)|
  {
    (set x | x in Free(s.dico)[..n]) +
    if virt == 0 || (phys == 0 && n == |Free(s.dico)|) then {} else {LeafFrame(s, n, virt, phys)}
  }

  /** The new positions of the tree: the leaf, and tables above it that sit on the first n free pages. */
  ghost predicate NewTables(s: State, m: seq<byte>, leaf: Path, n: nat)
    requires n <= |Free(s.dico)|
  {
    && (forall p :: Depth(p) <= 4 && p != leaf && Target(s.mem, p) == None && Target(m, p).Some? ==>
          IsTable(p) && IsPrefix(p, leaf) && Target(m, p).value in Free(s.dico)[..n])
    && (forall x :: x in Free(s.dico)[..n] ==> TablePage(m, x))
  }

  ghost predicate Marked(s: State, dico: Dico, n: nat, virt: Word, phys: Word)
    requires n <= |Free(s.dico)|
  {
    && |dico| == |s.dico|
    && forall x :: 0 <= x < |dico| ==> dico[x] == if x in Reserved(s, n, virt, phys) then 1 else s.dico[x]
  }

  /** The complete effect of inserting an absent leaf: r is the state afterwards. */
  ghost predicate Inserted(s: State, r: Outcome<State>, leaf: Path, n: nat, virt: Word, phys: Word)
    requires n <= |Free(s.dico)|
  {
    && r.Ok? && WellFormed(r.value) && Extends(s.mem, r.value.mem)
    && Target(r.value.mem, leaf) == Some(LeafFrame(s, n, virt, phys))
    && NewTables(s, r.value.mem, leaf, n)
    && Marked(s, r.value.dico, n, virt, phys)
  }

  /** The effect of one grown level. */
  ghost predicate Grown(s: State, s1: State, at: Path, i: Index) {
    && Free(s.dico) != [] && Depth(at) < 3
    && var head := Free(s.dico)[0];
       && WellFormed(s1) && OneEntry(s.mem, s1.mem, at, i, head)
       && head < |s.dico| && s1.dico == Mark(s.dico, head) && Free(s1.dico) == Free(s.dico)[1..]
  }

  // ---------- Paths ----------

  lemma {:induction false} ExtendIsBelow(p: Path, rest: seq<Index>)
    ensures IsPrefix(p, Extend(p, rest)) && Depth(Extend(p, rest)) == Depth(p) + |rest|
    decreases |rest|
  {
    if rest != [] {
      ExtendIsBelow(Sub(p, rest[0]), rest[1..]);
      PrefixTransitive(p, Sub(p, rest[0]), Extend(p, rest));
    }
  }

  lemma {:induction false} LeafIsExtension(v: Word)
    ensures Extend(Sub(Root, PgdIndex(v)), [PudIndex(v), PmdIndex(v), PteIndex(v)]) == Leaf(v)
  {
    var p2 := Sub(Sub(Root, PgdIndex(v)), PudIndex(v));
    assert [PudIndex(v), PmdIndex(v), PteIndex(v)][1..] == [PmdIndex(v), PteIndex(v)];
    assert [PmdIndex(v), PteIndex(v)][1..] == [PteIndex(v)];
    assert [PteIndex(v)][1..] == [];
    assert Extend(Leaf(v), []) == Leaf(v);
    assert Extend(Sub(p2, PmdIndex(v)), [PteIndex(v)]) == Leaf(v);
    assert Extend(p2, [PmdIndex(v), PteIndex(v)]) == Leaf(v);
  }

  lemma {:induction false} PrefixTransitive(p: Path, q: Path, r: Path)
    requires IsPrefix(p, q) && IsPrefix(q, r)
    ensures IsPrefix(p, r)
  {
    if q != r {
      PrefixTransitive(p, q, r.parent);
    }
  }

  lemma {:induction false} PrefixPresent(m: seq<byte>, p: Path, q: Path)
    requires IsPrefix(p, q) && Target(m, q).Some?
    ensures Target(m, p).Some?
  {
    if p != q {
      PrefixPresent(m, p, q.parent);
    }
  }

  lemma {:induction false} AllMissing(m: seq<byte>, p: Path, rest: seq<Index>)
    requires Target(m, p) == None
    ensures Missing(m, p, rest) == |rest| && Target(m, Extend(p, rest)) == None
    decreases |rest|
  {
    if rest != [] {
      AllMissing(m, Sub(p, rest[0]), rest[1..]);
    }
  }

  // ---------- Insertion ----------

  /** What Grow computes for an absent entry. */
  lemma {:induction false} GrowAbsent(s: State, table: nat, i: Index)
    requires InMemory(s.mem, table) && NotPresent(Entry(s.mem, table, i)) && Free(s.dico) != []
    ensures var slot, head := SlotAddress(table, i), Free(s.dico)[0];
            && 2 <= head < |s.dico| && s.dico[head] == 0
            && MakeEntry(head * PAGE) / PAGE == head && !NotPresent(MakeEntry(head * PAGE))
            && Grow(s, slot) == Ok(State(Store(s.mem, slot, MakeEntry(head * PAGE)), Mark(s.dico, head)))
            && Free(Mark(s.dico, head)) == Free(s.dico)[1..]
  {
    PopFree(s.dico);
  }

  /** Growing an absent entry takes the first free page as an empty table. */
  lemma {:induction false} GrowStep(s: State, at: Path, i: Index)
    requires WellFormed(s) && Depth(at) < 3 && Target(s.mem, at).Some? && Target(s.mem, Sub(at, i)) == None
    requires EnoughPages(s, 1)
    ensures var r := Grow(s, SlotAddress(Target(s.mem, at).value, i)); r.Ok? && Grown(s, r.value, at, i)
  {
    var t, head := Target(s.mem, at).value, Free(s.dico)[0];
    GrowAbsent(s, t, i);
    var w := MakeEntry(head * PAGE);
    var r := State(Store(s.mem, SlotAddress(t, i), w), Mark(s.dico, head));
    assert ZeroPage(s.mem, head) && !TablePage(s.mem, head) by {
      FreshIsNoTable(s, head);
    }
    StoreEntry(s.mem, at, i, w);
    OneEntryKeeps(s, r, at, i, head);
  }

  /** The entry that a table path ends in leads to that table. */
  lemma {:induction false} FollowEntry(m: seq<byte>, at: Path, i: Index, j: Index)
    requires Target(m, Sub(at, i)).Some?
    ensures Target(m, at).Some? && InMemory(m, Target(m, at).value)
    ensures var slot := SlotAddress(Target(m, at).value, i);
            && !NotPresent(Load(m, slot))
            && NextSlot(Load(m, slot), j) == SlotAddress(Target(m, Sub(at, i)).value, j)
  {
  }

  /** The address that FillLeaf writes into an absent entry, and the dictionary it leaves. */
  function LeafPage(s: State, virt: Word, phys: Word): (Word, Dico)
    requires virt != 0 && phys != 0 ==> phys / PAGE < |s.dico|
  {
    if virt == 0 then (0, s.dico)
    else if phys != 0 then (phys, Mark(s.dico, phys / PAGE))
    else var (dico, page) := Allocate(s.dico); (page, dico)
  }

  lemma {:induction false} LeafAbsent(s: State, table: nat, i: Index, virt: Word, phys: Word)
    requires InMemory(s.mem, table) && NotPresent(Entry(s.mem, table, i))
    requires virt != 0 && phys != 0 ==> phys / PAGE < |s.dico|
    ensures var slot, (page, dico) := SlotAddress(table, i), LeafPage(s, virt, phys);
            FillLeaf(s, slot, virt, phys) == Ok(State(Store(s.mem, slot, MakeEntry(page)), dico))
  {
    if virt != 0 && phys != 0 {
      var page := phys / PAGE;
      assert page % 0x1_0000_0000 == page;
      assert Invalidate(s, page) == Ok(s.(dico := Mark(s.dico, page)));
    }
  }

  lemma {:induction false} LeafPageEffect(s: State, virt: Word, phys: Word)
    requires virt != 0 && phys != 0 ==> phys / PAGE < |s.dico|
    ensures var (page, dico) := LeafPage(s, virt, phys);
            var f := LeafFrame(s, 0, virt, phys);
            && page / PAGE == f && MakeEntry(page) / PAGE == f && !NotPresent(MakeEntry(page))
            && |dico| == |s.dico| && (f == 0 || (f < |s.dico| && dico[f] == 1))
            && (virt != 0 && phys == 0 && f != 0 ==> 2 <= f && s.dico[f] == 0)
            && forall x :: 0 <= x < |dico| ==> dico[x] == if x in Reserved(s, 0, virt, phys) then 1 else s.dico[x]
  {
    if Free(s.dico) != [] {
      PopFree(s.dico);
    }
    assert Reserved(s, 0, virt, phys) ==
           if virt == 0 || (phys == 0 && Free(s.dico) == []) then {} else {LeafFrame(s, 0, virt, phys)};
  }

  /** The frame that FillLeaf uses for an absent entry is good. */
  lemma {:induction false} LeafFrameIsGood(s: State, virt: Word, phys: Word)
    requires WellFormed(s) && AdmissibleFrame(s, 0, virt, phys)
    ensures virt != 0 && phys != 0 ==> phys / PAGE < |s.dico|
    ensures GoodFrame(s.(dico := LeafPage(s, virt, phys).1), LeafFrame(s, 0, virt, phys))
  {
    hide Free, MakeEntry;
    var f := LeafFrame(s, 0, virt, phys);
    LeafPageEffect(s, virt, phys);
    if f == 0 {
      PageZeroIsNoTable(s);
    } else if phys == 0 {
      FreshIsNoTable(s, f);
    }
  }

  lemma {:induction false} OneLeafInserted(s: State, r: State, at: Path, i: Index, virt: Word, phys: Word)
    requires Depth(at) == 3 && OneEntry(s.mem, r.mem, at, i, LeafFrame(s, 0, virt, phys))
    requires WellFormed(r) && Marked(s, r.dico, 0, virt, phys)
    ensures Inserted(s, Ok(r), Sub(at, i), 0, virt, phys)
  {
    hide WellFormed, Marked, Target, LeafFrame, Free;
    OneEntryExtends(s.mem, r.mem, at, i, LeafFrame(s, 0, virt, phys));
    assert Depth(Sub(at, i)) == 4;
  }

  lemma {:induction false} LeafStep(s: State, at: Path, i: Index, virt: Word, phys: Word)
    requires WellFormed(s) && Depth(at) == 3 && Target(s.mem, at).Some? && Target(s.mem, Sub(at, i)) == None
    requires AdmissibleFrame(s, 0, virt, phys)
    ensures Inserted(s, FillLeaf(s, SlotAddress(Target(s.mem, at).value, i), virt, phys), Sub(at, i), 0, virt, phys)
  {
    hide FillLeaf, Free, MakeEntry, LeafPage, LeafFrame, Inserted, GoodFrame, Used, ZeroPage, AdmissibleFrame;
    var t, f := Target(s.mem, at).value, LeafFrame(s, 0, virt, phys);
    LeafFrameIsGood(s, virt, phys);
    var (page, dico) := LeafPage(s, virt, phys);
    assert IsTable(at);
    LeafAbsent(s, t, i, virt, phys);
    LeafPageEffect(s, virt, phys);
    var r := State(Store(s.mem, SlotAddress(t, i), MakeEntry(page)), dico);
    StoreEntry(s.mem, at, i, MakeEntry(page));
    OneEntryKeeps(s, r, at, i, f);
    OneLeafInserted(s, r, at, i, virt, phys);
  }

  lemma {:induction false} PageZeroIsNoTable(s: State)
    requires WellFormed(s)
    ensures !TablePage(s.mem, 0)
  {
    forall p | IsTable(p)
      ensures Target(s.mem, p) != Some(0)
    {
      assert p == Root || 1 <= Depth(p);
    }
  }

  /** What the caller's frame and the free pages must be, carried over one grown level. */
  lemma {:induction false} GrownBudget(s: State, s1: State, at: Path, i: Index, n: nat, virt: Word, phys: Word)
    requires n > 0 && EnoughPages(s, n) && AdmissibleFrame(s, n, virt, phys)
    requires Grown(s, s1, at, i)
    ensures EnoughPages(s1, n - 1) && AdmissibleFrame(s1, n - 1, virt, phys)
    ensures LeafFrame(s1, n - 1, virt, phys) == LeafFrame(s, n, virt, phys)
    ensures Reserved(s, n, virt, phys) == {Free(s.dico)[0]} + Reserved(s1, n - 1, virt, phys)
  {
    var free := Free(s.dico);
    assert free[..n] == [free[0]] + free[1..][..n - 1];
    if virt != 0 && phys != 0 {
      var f := phys / PAGE;
      assert f != free[0] && !TablePage(s.mem, f);
      forall q | IsTable(q)
        ensures Target(s1.mem, q) != Some(f)
      {
      }
    }
  }

  lemma {:induction false} ComposeTables(s: State, s1: State, m: seq<byte>, at: Path, i: Index, leaf: Path, n: nat)
    requires Grown(s, s1, at, i) && 0 < n <= |Free(s.dico)|
    requires IsPrefix(Sub(at, i), leaf) && Extends(s1.mem, m) && NewTables(s1, m, leaf, n - 1)
    ensures NewTables(s, m, leaf, n)
  {
    var free, head := Free(s.dico), Free(s.dico)[0];
    assert free[..n] == [head] + free[1..][..n - 1];
    forall p | Depth(p) <= 4 && p != leaf && Target(s.mem, p) == None && Target(m, p).Some?
      ensures IsTable(p) && IsPrefix(p, leaf) && Target(m, p).value in free[..n]
    {
      assert p == Sub(at, i) ==> Target(s1.mem, p) == Some(head);
    }
    assert TablePage(m, head) by {
      assert Depth(Sub(at, i)) <= 3 && Target(s1.mem, Sub(at, i)) == Some(head);
    }
  }

  lemma {:induction false} ComposeMarks(
    s: State, s1: State, dico: Dico, at: Path, i: Index, n: nat, virt: Word, phys: Word)
    requires Grown(s, s1, at, i) && n > 0 && EnoughPages(s, n) && AdmissibleFrame(s, n, virt, phys)
    requires n - 1 <= |Free(s1.dico)| && Marked(s1, dico, n - 1, virt, phys)
    ensures Marked(s, dico, n, virt, phys)
  {
    GrownBudget(s, s1, at, i, n, virt, phys);
  }

  /** The effect of the levels below a freshly grown one, seen from before the growth. */
  lemma {:induction false} ComposeInsertion(
    s: State, s1: State, r: Outcome<State>, at: Path, i: Index, leaf: Path, n: nat, virt: Word, phys: Word)
    requires Grown(s, s1, at, i) && n > 0 && EnoughPages(s, n) && AdmissibleFrame(s, n, virt, phys)
    requires IsPrefix(Sub(at, i), leaf)
    requires n - 1 <= |Free(s1.dico)| && Inserted(s1, r, leaf, n - 1, virt, phys)
    ensures Inserted(s, r, leaf, n, virt, phys)
  {
    GrownBudget(s, s1, at, i, n, virt, phys);
    OneEntryExtends(s.mem, s1.mem, at, i, Free(s.dico)[0]);
    ExtendsTransitive(s.mem, s1.mem, r.value.mem);
    ComposeTables(s, s1, r.value.mem, at, i, leaf, n);
    ComposeMarks(s, s1, r.value.dico, at, i, n, virt, phys);
  }

  /** Growing one level and going on below it. */
  lemma {:induction false} GrowOnly(s: State, at: Path, i: Index, rest: seq<Index>, virt: Word, phys: Word)
    returns (s1: State)
    requires WellFormed(s) && rest != [] && Depth(at) + |rest| == 3 && EnoughPages(s, 1)
    requires Target(s.mem, at).Some? && Target(s.mem, Sub(at, i)) == None
    ensures Grown(s, s1, at, i) && Target(s1.mem, Sub(at, i)).Some?
    ensures Grow(s, SlotAddress(Target(s.mem, at).value, i)) == Ok(s1)
    ensures Target(s1.mem, Extend(Sub(at, i), rest)) == None
    ensures Missing(s1.mem, Sub(Sub(at, i), rest[0]), rest[1..]) == |rest| - 1
    ensures MapFrom(s, SlotAddress(Target(s.mem, at).value, i), rest, virt, phys)
         == MapFrom(s1, SlotAddress(Target(s1.mem, Sub(at, i)).value, rest[0]), rest[1..], virt, phys)
  {
    var q := Sub(at, i);
    GrowStep(s, at, i);
    s1 := Grow(s, SlotAddress(Target(s.mem, at).value, i)).value;
    FollowEntry(s1.mem, at, i, rest[0]);
    assert Target(s1.mem, Sub(q, rest[0])) == None;
    AllMissing(s1.mem, Sub(q, rest[0]), rest[1..]);
  }

  /** A present entry is followed. */
  lemma {:induction false} PresentThen(s: State, at: Path, i: Index, rest: seq<Index>, virt: Word, phys: Word)
    requires rest != [] && Target(s.mem, Sub(at, i)).Some?
    ensures Target(s.mem, at).Some?
    ensures Missing(s.mem, Sub(at, i), rest) == Missing(s.mem, Sub(Sub(at, i), rest[0]), rest[1..])
    ensures MapFrom(s, SlotAddress(Target(s.mem, at).value, i), rest, virt, phys)
         == MapFrom(s, SlotAddress(Target(s.mem, Sub(at, i)).value, rest[0]), rest[1..], virt, phys)
  {
    FollowEntry(s.mem, at, i, rest[0]);
  }

  /** From any table on: if the leaf is absent and the call's needs are met, exactly that leaf is inserted. */
  lemma {:induction false} MapFromInserts(s: State, at: Path, i: Index, rest: seq<Index>, virt: Word, phys: Word)
    requires WellFormed(s) && Depth(at) + |rest| == 3 && Target(s.mem, at).Some?
    requires Target(s.mem, Extend(Sub(at, i), rest)) == None
    requires EnoughPages(s, Missing(s.mem, Sub(at, i), rest))
    requires AdmissibleFrame(s, Missing(s.mem, Sub(at, i), rest), virt, phys)
    ensures Inserted(s, MapFrom(s, SlotAddress(Target(s.mem, at).value, i), rest, virt, phys),
                     Extend(Sub(at, i), rest), Missing(s.mem, Sub(at, i), rest), virt, phys)
    decreases |rest|
  {
    hide WellFormed, Inserted, AdmissibleFrame, Grown, Target;
    var q := Sub(at, i);
    if rest == [] {
      LeafStep(s, at, i, virt, phys);
    } else if Target(s.mem, q).Some? {
      PresentThen(s, at, i, rest, virt, phys);
      MapFromInserts(s, q, rest[0], rest[1..], virt, phys);
    } else {
      AllMissing(s.mem, q, rest);
      ExtendIsBelow(q, rest);
      assert EnoughPages(s, 1) by { FreeListElements(s.dico, 2); }
      var s1 := GrowOnly(s, at, i, rest, virt, phys);
      GrownBudget(s, s1, at, i, |rest|, virt, phys);
      MapFromInserts(s1, q, rest[0], rest[1..], virt, phys);
      ComposeInsertion(s, s1, MapFrom(s, SlotAddress(Target(s.mem, at).value, i), rest, virt, phys),
                       at, i, Extend(q, rest), |rest|, virt, phys);
    }
  }

  /** A mapping that is already there is left alone. */
  lemma {:induction false} MapFromPresent(s: State, at: Path, i: Index, rest: seq<Index>, virt: Word, phys: Word)
    requires Target(s.mem, at).Some? && Target(s.mem, Extend(Sub(at, i), rest)).Some?
    ensures MapFrom(s, SlotAddress(Target(s.mem, at).value, i), rest, virt, phys) == Ok(s)
    decreases |rest|
  {
    var q := Sub(at, i);
    ExtendIsBelow(q, rest);
    PrefixPresent(s.mem, q, Extend(q, rest));
    FollowEntry(s.mem, at, i, 0);
    if rest != [] {
      PresentThen(s, at, i, rest, virt, phys);
      MapFromPresent(s, q, rest[0], rest[1..], virt, phys);
    }
  }
}
