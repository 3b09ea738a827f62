/** The words that memory_map and gva_to_gpa touch: aligned, inside guest memory and inside table pages. */
module Footprint {
  import opened Common
  import opened Layout
  import opened Word64
  import opened Allocator
  import opened PageTable
  import opened MemoryMap
  import opened Insertion
  import opened Translation
  import opened Refinement

  ghost predicate SafeWord(m: seq<byte>, a: nat) {
    a % 8 == 0 && a + 8 <= |m| && TablePage(m, a / PAGE)
  }

  lemma {:induction false} SlotIsSafe(m: seq<byte>, at: Path, i: Index)
    requires Tree(m) && IsTable(at) && Target(m, at).Some?
    ensures SafeWord(m, SlotAddress(Target(m, at).value, i))
  {
    hide Target;
    var t := Target(m, at).value;
    assert InMemory(m, t) && TablePage(m, t);
    assert SlotAddress(t, i) / PAGE == t;
  }

  // ---------- gva_to_gpa ----------

  /** The addresses that a walk loads, in order. */
  function LoadsFrom(m: seq<byte>, slot: nat, rest: seq<Index>): seq<nat>
    decreases |rest|
  {
    if slot + 8 > |m| || rest == [] || NotPresent(Load(m, slot)) then [slot]
    else [slot] + LoadsFrom(m, NextSlot(Load(m, slot), rest[0]), rest[1..])
  }

  function Loads(m: seq<byte>, v: Word): seq<nat> {
    LoadsFrom(m, CR3 + 8 * PgdIndex(v), [PudIndex(v), PmdIndex(v), PteIndex(v)])
  }

  lemma {:induction false} LoadsFromAreSafe(m: seq<byte>, at: Path, i: Index, rest: seq<Index>)
    requires Tree(m) && Depth(at) + |rest| == 3 && Target(m, at).Some?
    ensures forall a :: a in LoadsFrom(m, SlotAddress(Target(m, at).value, i), rest) ==> SafeWord(m, a)
    decreases |rest|
  {
    hide SafeWord;
    SlotIsSafe(m, at, i);
    assert InMemory(m, Target(m, at).value);
    if rest != [] && Target(m, Sub(at, i)).Some? {
      FollowEntry(m, at, i, rest[0]);
      LoadsFromAreSafe(m, Sub(at, i), rest[0], rest[1..]);
    }
  }

  /** For every 64-bit address, every load of gva_to_gpa is aligned, inside guest memory and inside a table page. */
  lemma {:induction false} TranslationLoadsAreSafe(m: seq<byte>, v: Word)
    requires Tree(m)
    ensures forall a :: a in Loads(m, v) ==> SafeWord(m, a)
  {
    hide SafeWord, Tree, LoadsFrom;
    assert Target(m, Root) == Some(1) && Depth(Root) == 0;
    LoadsFromAreSafe(m, Root, PgdIndex(v), [PudIndex(v), PmdIndex(v), PteIndex(v)]);
  }

  /** Two memories hold the same word at a, if it is inside memory. */
  predicate SameWord(m: seq<byte>, m': seq<byte>, a: nat) {
    |m| == |m'| && (a + 8 <= |m| ==> m[a..a + 8] == m'[a..a + 8])
  }

  lemma {:induction false} WalkReadsLoads(m: seq<byte>, m': seq<byte>, slot: nat, rest: seq<Index>, v: Word)
    requires forall a :: a in LoadsFrom(m, slot, rest) ==> SameWord(m, m', a)
    ensures WalkFrom(m', slot, rest, v) == WalkFrom(m, slot, rest, v) &&
            LoadsFrom(m', slot, rest) == LoadsFrom(m, slot, rest)
    decreases |rest|
  {
    assert LoadsFrom(m, slot, rest)[0] == slot;
    assert SameWord(m, m', slot);
    if slot + 8 <= |m| && rest != [] && !NotPresent(Load(m, slot)) {
      WalkReadsLoads(m, m', NextSlot(Load(m, slot), rest[0]), rest[1..], v);
    }
  }

  /** The translation depends on these words and on nothing else in memory. */
  lemma {:induction false} TranslationReadsLoads(m: seq<byte>, m': seq<byte>, v: Word)
    requires forall a :: a in Loads(m, v) ==> SameWord(m, m', a)
    ensures GvaToGpa(m', v) == GvaToGpa(m, v) && Loads(m', v) == Loads(m, v)
  {
    hide WalkFrom, LoadsFrom, SameWord;
    WalkReadsLoads(m, m', CR3 + 8 * PgdIndex(v), [PudIndex(v), PmdIndex(v), PteIndex(v)], v);
  }

  // ---------- memory_map ----------

  /** The addresses of the entries that memory_map reads, and writes if they are absent. */
  function SlotsFrom(s: State, slot: nat, rest: seq<Index>): seq<nat>
    decreases |rest|
  {
    if rest == [] then [slot]
    else
      match Grow(s, slot)
      case Fault => [slot]
      case Ok(s1) => [slot] + SlotsFrom(s1, NextSlot(Load(s1.mem, slot), rest[0]), rest[1..])
  }

  function Slots(s: State, v: Word): seq<nat> {
    SlotsFrom(s, CR3 + 8 * PgdIndex(v), [PudIndex(v), PmdIndex(v), PteIndex(v)])
  }

  ghost predicate InSlots(slots: seq<nat>, x: nat) {
    exists a :: a in slots && a <= x < a + 8
  }

  lemma {:induction false} LevelWrites(s: State, slot: nat, virt: Word, phys: Word, x: nat)
    requires x < |s.mem| && !(slot <= x < slot + 8)
    ensures Grow(s, slot).Ok? ==>
              slot + 8 <= |s.mem| && |Grow(s, slot).value.mem| == |s.mem| && Grow(s, slot).value.mem[x] == s.mem[x]
    ensures FillLeaf(s, slot, virt, phys).Ok? ==>
              |FillLeaf(s, slot, virt, phys).value.mem| == |s.mem| &&
                     FillLeaf(s, slot, virt, phys).value.mem[x] == s.mem[x]
  {
    hide Load, MakeEntry, NotPresent, Allocate;
  }

  /** In any state, ready or not, no byte outside of these entries changes. */
  lemma {:induction false} MapFromWrites(s: State, slot: nat, rest: seq<Index>, virt: Word, phys: Word, x: nat)
    requires MapFrom(s, slot, rest, virt, phys).Ok? && x < |s.mem| && !InSlots(SlotsFrom(s, slot, rest), x)
    ensures var m := MapFrom(s, slot, rest, virt, phys).value.mem; |m| == |s.mem| && m[x] == s.mem[x]
    decreases |rest|
  {
    hide Load, Grow, FillLeaf;
    assert slot in SlotsFrom(s, slot, rest);
    LevelWrites(s, slot, virt, phys, x);
    if rest != [] {
      var s1 := Grow(s, slot).value;
      var below := SlotsFrom(s1, NextSlot(Load(s1.mem, slot), rest[0]), rest[1..]);
      assert SlotsFrom(s, slot, rest) == [slot] + below;
      assert forall a :: a in below ==> a in SlotsFrom(s, slot, rest);
      MapFromWrites(s1, NextSlot(Load(s1.mem, slot), rest[0]), rest[1..], virt, phys, x);
    }
  }

  lemma {:induction false} FollowSlots(s: State, s1: State, at: Path, i: Index, rest: seq<Index>)
    requires rest != [] && Target(s.mem, at).Some? && Grow(s, SlotAddress(Target(s.mem, at).value, i)) == Ok(s1)
    requires Target(s1.mem, Sub(at, i)).Some? && Target(s1.mem, at) == Target(s.mem, at)
    ensures SlotsFrom(s, SlotAddress(Target(s.mem, at).value, i), rest)
         == [SlotAddress(Target(s.mem, at).value, i)]
            + SlotsFrom(s1, SlotAddress(Target(s1.mem, Sub(at, i)).value, rest[0]), rest[1..])
  {
    hide Grow;
    FollowEntry(s1.mem, at, i, rest[0]);
  }

  /** Below any table whose target stays until the end: the entries touched are safe in the memory m at the end. */
  lemma {:induction false} SlotsFromAreSafe(s: State, at: Path, i: Index, rest: seq<Index>, virt: Word, phys: Word)
    requires WellFormed(s) && Depth(at) + |rest| == 3 && Target(s.mem, at).Some?
    requires var n := Missing(s.mem, Sub(at, i), rest);
             Target(s.mem, Extend(Sub(at, i), rest)).Some? || (EnoughPages(s, n) && AdmissibleFrame(s, n, virt, phys))
    ensures var r := MapFrom(s, SlotAddress(Target(s.mem, at).value, i), rest, virt, phys);
            && r.Ok? && WellFormed(r.value) && Extends(s.mem, r.value.mem)
            && forall a :: a in SlotsFrom(s, SlotAddress(Target(s.mem, at).value, i), rest) ==> SafeWord(r.value.mem, a)
    decreases |rest|
  {
    hide WellFormed, AdmissibleFrame, Grown, Target, SafeWord, Extends, MapFrom, FreeList, Grow, Load, Inserted,
         SlotsFrom, Tree;
    var q, slot := Sub(at, i), SlotAddress(Target(s.mem, at).value, i);
    if rest == [] {
      LastSlot(s, at, i, virt, phys);
    } else if Target(s.mem, q).Some? {
      PresentThen(s, at, i, rest, virt, phys);
      PresentGrow(s, at, i);
      FollowSlots(s, s, at, i, rest);
      SlotsFromAreSafe(s, q, rest[0], rest[1..], virt, phys);
      SlotStaysSafe(s, MapFrom(s, slot, rest, virt, phys).value, at, i);
    } else {
      AllMissing(s.mem, q, rest);
      ExtendIsBelow(q, rest);
      assert EnoughPages(s, 1) by { FreeListElements(s.dico, 2); }
      var s1 := GrowOnly(s, at, i, rest, virt, phys);
      GrownBudget(s, s1, at, i, |rest|, virt, phys);
      GrownExtends(s, s1, at, i);
      FollowSlots(s, s1, at, i, rest);
      SlotsFromAreSafe(s1, q, rest[0], rest[1..], virt, phys);
      ExtendsTransitive(s.mem, s1.mem, MapFrom(s, slot, rest, virt, phys).value.mem);
      SlotStaysSafe(s, MapFrom(s, slot, rest, virt, phys).value, at, i);
    }
  }

  lemma {:induction false} SlotStaysSafe(s: State, s': State, at: Path, i: Index)
    requires WellFormed(s') && Depth(at) <= 3 && Target(s.mem, at).Some? && Extends(s.mem, s'.mem)
    ensures SafeWord(s'.mem, SlotAddress(Target(s.mem, at).value, i))
  {
    hide Target, NewEntryByte, SafeWord, Used, GoodFrame, ZeroPage;
    SlotIsSafe(s'.mem, at, i);
  }

  lemma {:induction false} PresentGrow(s: State, at: Path, i: Index)
    requires Target(s.mem, Sub(at, i)).Some?
    ensures Target(s.mem, at).Some? && Grow(s, SlotAddress(Target(s.mem, at).value, i)) == Ok(s)
  {
    FollowEntry(s.mem, at, i, 0);
  }

  lemma {:induction false} GrownExtends(s: State, s1: State, at: Path, i: Index)
    requires Grown(s, s1, at, i)
    ensures WellFormed(s1) && Extends(s.mem, s1.mem) && Target(s1.mem, at) == Target(s.mem, at)
  {
    hide WellFormed;
    OneEntryExtends(s.mem, s1.mem, at, i, Free(s.dico)[0]);
    assert Sub(at, i) != at;
  }

  lemma {:induction false} LastSlot(s: State, at: Path, i: Index, virt: Word, phys: Word)
    requires WellFormed(s) && Depth(at) == 3 && Target(s.mem, at).Some?
    requires Target(s.mem, Sub(at, i)).Some? || AdmissibleFrame(s, 0, virt, phys)
    ensures var slot := SlotAddress(Target(s.mem, at).value, i);
            var r := MapFrom(s, slot, [], virt, phys);
            && r.Ok? && WellFormed(r.value) && Extends(s.mem, r.value.mem)
            && forall a :: a in SlotsFrom(s, slot, []) ==> SafeWord(r.value.mem, a)
  {
    hide WellFormed, AdmissibleFrame, Target, SafeWord, NewEntryByte, FillLeaf, FreeList, NewTables, Marked, LeafFrame;
    if Target(s.mem, Sub(at, i)).Some? {
      MapFromPresent(s, at, i, [], virt, phys);
    } else {
      LeafStep(s, at, i, virt, phys);
    }
    SlotStaysSafe(s, MapFrom(s, SlotAddress(Target(s.mem, at).value, i), [], virt, phys).value, at, i);
  }

  /** Every entry that a ready memory_map reads or writes is aligned, inside guest memory and inside a page that is a
      table when the call returns; no other byte of memory changes. */
  lemma {:induction false} MapTouchesTablesOnly(s: State, virt: Word, phys: Word)
    requires WellFormed(s) && Ready(s, virt, phys)
    ensures Map(s, virt, phys).Ok? && |Map(s, virt, phys).value.mem| == |s.mem|
    ensures forall a :: a in Slots(s, virt) ==> SafeWord(Map(s, virt, phys).value.mem, a)
    ensures forall x :: 0 <= x < |s.mem| && Map(s, virt, phys).value.mem[x] != s.mem[x] ==> InSlots(Slots(s, virt), x)
  {
    hide WellFormed, MapFrom, SlotsFrom, Leaf, SafeWord, NewEntryByte, InSlots, EnoughPages, AdmissibleFrame;
    var rest := [PudIndex(virt), PmdIndex(virt), PteIndex(virt)];
    LeafIsExtension(virt);
    assert Target(s.mem, Root) == Some(1) && Depth(Root) == 0;
    SlotsFromAreSafe(s, Root, PgdIndex(virt), rest, virt, phys);
    forall x | 0 <= x < |s.mem| && Map(s, virt, phys).value.mem[x] != s.mem[x]
      ensures InSlots(Slots(s, virt), x)
    {
      if !InSlots(Slots(s, virt), x) {
        MapFromWrites(s, CR3 + 8 * PgdIndex(virt), rest, virt, phys, x);
      }
    }
  }

  // ---------- What memory_map depends on ----------

  /** Where two memories agree they still agree after both were treated alike. */
  ghost predicate AgreeAfter(m: seq<byte>, m': seq<byte>, r: seq<byte>, r': seq<byte>) {
    && |m| == |m'| == |r| == |r'|
    && forall x :: 0 <= x < |m| && m[x] == m'[x] ==> r[x] == r'[x]
  }

  /** Two states with the same dictionary whose memories hold the same word at slot. */
  ghost predicate SameAt(s: State, s': State, slot: nat) {
    s.dico == s'.dico && SameWord(s.mem, s'.mem, slot)
  }

  lemma {:induction false} SameWordSameLoad(m: seq<byte>, m': seq<byte>, a: nat)
    requires SameWord(m, m', a) && a + 8 <= |m|
    ensures Load(m, a) == Load(m', a)
  {
  }

  lemma {:induction false} SameGrow(s: State, s': State, slot: nat)
    requires SameAt(s, s', slot)
    ensures Grow(s, slot).Ok? <==> Grow(s', slot).Ok?
    ensures Grow(s, slot).Ok? ==>
              var r, r' := Grow(s, slot).value, Grow(s', slot).value;
              && r.dico == r'.dico && AgreeAfter(s.mem, s'.mem, r.mem, r'.mem) && slot + 8 <= |r.mem|
              && Load(r.mem, slot) == Load(r'.mem, slot)
  {
    hide Load, Allocate, MakeEntry, NotPresent;
    if slot + 8 <= |s.mem| {
      SameWordSameLoad(s.mem, s'.mem, slot);
      LoadStore(s.mem, slot, MakeEntry(Allocate(s.dico).1), slot);
      LoadStore(s'.mem, slot, MakeEntry(Allocate(s.dico).1), slot);
    }
  }

  lemma {:induction false} SameFillLeaf(s: State, s': State, slot: nat, virt: Word, phys: Word)
    requires SameAt(s, s', slot)
    ensures FillLeaf(s, slot, virt, phys).Ok? <==> FillLeaf(s', slot, virt, phys).Ok?
    ensures FillLeaf(s, slot, virt, phys).Ok? ==>
              var r, r' := FillLeaf(s, slot, virt, phys).value, FillLeaf(s', slot, virt, phys).value;
              slot + 8 <= |s.mem| && r.dico == r'.dico && AgreeAfter(s.mem, s'.mem, r.mem, r'.mem)
  {
    hide Load, Allocate, MakeEntry, NotPresent;
    if slot + 8 <= |s.mem| {
      SameWordSameLoad(s.mem, s'.mem, slot);
    }
  }

  lemma {:induction false} SameWordLater(m: seq<byte>, m': seq<byte>, r: seq<byte>, r': seq<byte>, a: nat)
    requires SameWord(m, m', a) && AgreeAfter(m, m', r, r')
    ensures SameWord(r, r', a)
  {
    if a + 8 <= |m| {
      forall x | a <= x < a + 8
        ensures r[x] == r'[x]
      {
        assert m[a..a + 8][x - a] == m'[a..a + 8][x - a];
      }
      assert r[a..a + 8] == r'[a..a + 8];
    }
  }

  /** Two states that hold the same words at the entries touched take the same course. */
  lemma {:induction false} MapFromReads(s: State, s': State, slot: nat, rest: seq<Index>, virt: Word, phys: Word)
    requires s.dico == s'.dico && forall a :: a in SlotsFrom(s, slot, rest) ==> SameWord(s.mem, s'.mem, a)
    ensures SlotsFrom(s', slot, rest) == SlotsFrom(s, slot, rest)
    ensures MapFrom(s, slot, rest, virt, phys).Ok? <==> MapFrom(s', slot, rest, virt, phys).Ok?
    ensures MapFrom(s, slot, rest, virt, phys).Ok? ==>
              var r, r' := MapFrom(s, slot, rest, virt, phys).value, MapFrom(s', slot, rest, virt, phys).value;
              && r.dico == r'.dico && AgreeAfter(s.mem, s'.mem, r.mem, r'.mem)
              && forall a :: a in SlotsFrom(s, slot, rest) ==> a + 8 <= |s.mem|
    decreases |rest|
  {
    hide Load, Grow, FillLeaf, SameWord;
    assert slot in SlotsFrom(s, slot, rest);
    assert SameAt(s, s', slot);
    if rest == [] {
      SameFillLeaf(s, s', slot, virt, phys);
    } else {
      SameGrow(s, s', slot);
      if Grow(s, slot).Ok? {
        var s1, s1' := Grow(s, slot).value, Grow(s', slot).value;
        var next := NextSlot(Load(s1.mem, slot), rest[0]);
        forall a | a in SlotsFrom(s1, next, rest[1..])
          ensures SameWord(s1.mem, s1'.mem, a)
        {
          assert a in SlotsFrom(s, slot, rest);
          SameWordLater(s.mem, s'.mem, s1.mem, s1'.mem, a);
        }
        MapFromReads(s1, s1', next, rest[1..], virt, phys);
      }
    }
  }

  lemma {:induction false} InSlotsAgree(m: seq<byte>, m': seq<byte>, slots: seq<nat>, x: nat)
    requires InSlots(slots, x) && forall a :: a in slots ==> SameWord(m, m', a) && a + 8 <= |m|
    ensures x < |m| == |m'| && m[x] == m'[x]
  {
    var a :| a in slots && a <= x < a + 8;
    assert SameWord(m, m', a);
    assert m[a..a + 8][x - a] == m'[a..a + 8][x - a];
  }

  /** memory_map depends on the dictionary and on the words at its entries only: with the same words there it takes the
      same course, leaves the same dictionary and the same bytes in the entries, and leaves all other bytes alone. */
  lemma {:induction false} MapReadsSlots(s: State, s': State, virt: Word, phys: Word)
    requires s.dico == s'.dico && forall a :: a in Slots(s, virt) ==> SameWord(s.mem, s'.mem, a)
    ensures Slots(s', virt) == Slots(s, virt)
    ensures Map(s, virt, phys).Ok? <==> Map(s', virt, phys).Ok?
    ensures Map(s, virt, phys).Ok? ==>
              var r, r' := Map(s, virt, phys).value, Map(s', virt, phys).value;
              && r'.dico == r.dico && |r'.mem| == |r.mem| == |s'.mem|
              && forall x :: 0 <= x < |r.mem| ==>
                 r'.mem[x] == if InSlots(Slots(s, virt), x) then r.mem[x] else s'.mem[x]
  {
    hide MapFrom, SlotsFrom, SameWord, InSlots;
    var slot, rest := CR3 + 8 * PgdIndex(virt), [PudIndex(virt), PmdIndex(virt), PteIndex(virt)];
    MapFromReads(s, s', slot, rest, virt, phys);
    if Map(s, virt, phys).Ok? {
      var r, r' := Map(s, virt, phys).value, Map(s', virt, phys).value;
      forall x | 0 <= x < |r.mem|
        ensures r'.mem[x] == if InSlots(Slots(s, virt), x) then r.mem[x] else s'.mem[x]
      {
        if InSlots(Slots(s, virt), x) {
          InSlotsAgree(s.mem, s'.mem, Slots(s, virt), x);
        } else {
          MapFromWrites(s', slot, rest, virt, phys, x);
        }
      }
    }
  }
}
