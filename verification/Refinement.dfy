/** memory_map refines insert-if-absent on a finite map, and exactly when it does. */
module Refinement {
  import opened Common
  import opened Layout
  import opened Word64
  import opened Allocator
  import opened PageTable
  import opened MemoryMap
  import opened Insertion
  import opened Translation

  /** How many table levels above the leaf of v are absent. */
  function MissingLevels(m: seq<byte>, v: Word): nat {
    Missing(m, Sub(Root, PgdIndex(v)), [PudIndex(v), PmdIndex(v), PteIndex(v)])
  }

  /** What a caller of memory_map must see to: nothing if the page is mapped already. */
  ghost predicate Ready(s: State, virt: Word, phys: Word) {
    Target(s.mem, Leaf(virt)).Some? ||
    (EnoughPages(s, MissingLevels(s.mem, virt)) && AdmissibleFrame(s, MissingLevels(s.mem, virt), virt, phys))
  }

  /** The frame that a new mapping of virt gets. */
  function NewFrame(s: State, virt: Word, phys: Word): nat {
    LeafFrame(s, MissingLevels(s.mem, virt), virt, phys)
  }

  // ---------- Mappings are never lost, whatever the state ----------

  lemma {:induction false} StoreKeepsPresent(m: seq<byte>, slot: nat, w: Word, p: Path)
    requires slot + 8 <= |m| && slot % 8 == 0 && NotPresent(Load(m, slot)) && Target(m, p).Some?
    ensures Target(Store(m, slot, w), p) == Target(m, p)
  {
    if p != Root {
      StoreKeepsPresent(m, slot, w, p.parent);
      LoadStore(m, slot, w, SlotAddress(Target(m, p.parent).value, p.idx));
    }
  }

  lemma {:induction false} GrowKeepsPresent(s: State, slot: nat, p: Path)
    requires slot % 8 == 0 && Target(s.mem, p).Some? && Grow(s, slot).Ok?
    ensures Target(Grow(s, slot).value.mem, p) == Target(s.mem, p)
    ensures |Grow(s, slot).value.mem| == |s.mem|
  {
    if NotPresent(Load(s.mem, slot)) {
      StoreKeepsPresent(s.mem, slot, MakeEntry(Allocate(s.dico).1), p);
    }
  }

  lemma {:induction false} FillLeafKeepsPresent(s: State, slot: nat, virt: Word, phys: Word, p: Path)
    requires slot % 8 == 0 && Target(s.mem, p).Some? && FillLeaf(s, slot, virt, phys).Ok?
    ensures Target(FillLeaf(s, slot, virt, phys).value.mem, p) == Target(s.mem, p)
    ensures |FillLeaf(s, slot, virt, phys).value.mem| == |s.mem|
  {
    if NotPresent(Load(s.mem, slot)) {
      var page := if virt == 0 then 0 else if phys == 0 then Allocate(s.dico).1 else phys;
      StoreKeepsPresent(s.mem, slot, MakeEntry(page), p);
    }
  }

  /** No call, admissible or not, removes or redirects an entry that is present. */
  lemma {:induction false} MapFromKeepsPresent(s: State, slot: nat, rest: seq<Index>, virt: Word, phys: Word, p: Path)
    requires slot % 8 == 0 && Target(s.mem, p).Some? && MapFrom(s, slot, rest, virt, phys).Ok?
    ensures var m := MapFrom(s, slot, rest, virt, phys).value.mem; |m| == |s.mem| && Target(m, p) == Target(s.mem, p)
    decreases |rest|
  {
    hide FillLeaf, Target, Load;
    if rest == [] {
      FillLeafKeepsPresent(s, slot, virt, phys, p);
    } else {
      GrowKeepsPresent(s, slot, p);
      var s1 := Grow(s, slot).value;
      MapFromKeepsPresent(s1, NextSlot(Load(s1.mem, slot), rest[0]), rest[1..], virt, phys, p);
    }
  }

  lemma {:induction false} MapKeepsPresent(s: State, virt: Word, phys: Word, p: Path)
    requires Target(s.mem, p).Some? && Map(s, virt, phys).Ok?
    ensures Target(Map(s, virt, phys).value.mem, p) == Target(s.mem, p)
  {
    MapFromKeepsPresent(s, CR3 + 8 * PgdIndex(virt), [PudIndex(virt), PmdIndex(virt), PteIndex(virt)], virt, phys, p);
  }

  // ---------- The refinement ----------

  /** The map between leaf paths and frames before and after inserting one absent leaf. */
  ghost predicate OneLeaf(m: seq<byte>, m': seq<byte>, leaf: Path, f: nat) {
    && Target(m, leaf) == None
    && forall p :: Depth(p) == 4 ==> Target(m', p) == if p == leaf then Some(f) else Target(m, p)
  }

  lemma {:induction false} InsertedOneLeaf(s: State, r: Outcome<State>, leaf: Path, n: nat, virt: Word, phys: Word)
    requires n <= |Free(s.dico)| && Inserted(s, r, leaf, n, virt, phys)
    requires Depth(leaf) == 4 && Target(s.mem, leaf) == None
    ensures OneLeaf(s.mem, r.value.mem, leaf, LeafFrame(s, n, virt, phys))
  {
    hide WellFormed, LeafFrame, Target, Marked;
  }

  lemma {:induction false} SpaceInsert(m: seq<byte>, m': seq<byte>, v: Word, f: nat)
    requires OneLeaf(m, m', Leaf(v), f)
    ensures Vpn(v) !in Space(m) && Space(m') == Space(m)[Vpn(v) := f]
  {
    hide Leaf, Target;
    SpaceLookup(m, v);
    forall n: nat | n < 0x10_0000_0000
      ensures Target(m', Leaf(PageStart(n))) == if n == Vpn(v) then Some(f) else Target(m, Leaf(PageStart(n)))
    {
      SameLeaf(PageStart(n), v);
    }
  }

  /** A ready call inserts an absent leaf and changes nothing if the leaf is present. */
  lemma {:induction false} MapInserts(s: State, virt: Word, phys: Word)
    requires WellFormed(s) && Target(s.mem, Leaf(virt)) == None && Ready(s, virt, phys)
    ensures Inserted(s, Map(s, virt, phys), Leaf(virt), MissingLevels(s.mem, virt), virt, phys)
  {
    hide WellFormed, Leaf, Inserted;
    LeafIsExtension(virt);
    MapFromInserts(s, Root, PgdIndex(virt), [PudIndex(virt), PmdIndex(virt), PteIndex(virt)], virt, phys);
  }

  /** A page already mapped is left alone: neither memory nor the dictionary changes, in any state. */
  lemma {:induction false} MapIsIdempotent(s: State, virt: Word, phys: Word)
    requires Target(s.mem, Leaf(virt)).Some?
    ensures Map(s, virt, phys) == Ok(s)
  {
    hide Leaf, MapFrom, Extend;
    LeafIsExtension(virt);
    MapFromPresent(s, Root, PgdIndex(virt), [PudIndex(virt), PmdIndex(virt), PteIndex(virt)], virt, phys);
  }

  /** The address space after the call is the old one with virt's page inserted if it was absent. */
  lemma {:induction false} MapRefinesInsert(s: State, virt: Word, phys: Word)
    requires WellFormed(s) && Ready(s, virt, phys)
    ensures Map(s, virt, phys).Ok? && WellFormed(Map(s, virt, phys).value)
    ensures Space(Map(s, virt, phys).value.mem) ==
            if Vpn(virt) in Space(s.mem) then Space(s.mem)
            else Space(s.mem)[Vpn(virt) := NewFrame(s, virt, phys)]
  {
    hide WellFormed, Map, Space, Leaf, OneLeaf, LeafFrame, Target;
    if Target(s.mem, Leaf(virt)).Some? {
      MapIsIdempotent(s, virt, phys);
      SpaceLookup(s.mem, virt);
    } else {
      MapInserts(s, virt, phys);
      InsertedOneLeaf(s, Map(s, virt, phys), Leaf(virt), MissingLevels(s.mem, virt), virt, phys);
      SpaceInsert(s.mem, Map(s, virt, phys).value.mem, virt, NewFrame(s, virt, phys));
    }
  }

  lemma {:induction false} SameSpaceSameTranslation(m: seq<byte>, m': seq<byte>, w: Word)
    requires Tree(m) && Tree(m')
    requires Vpn(w) in Space(m) <==> Vpn(w) in Space(m')
    requires Vpn(w) in Space(m) ==> Space(m)[Vpn(w)] == Space(m')[Vpn(w)]
    ensures GvaToGpa(m, w) == GvaToGpa(m', w)
  {
    hide *;
    WalkIsTranslate(m, w);
    WalkIsTranslate(m', w);
    SpaceLookup(m, w);
    SpaceLookup(m', w);
  }

  lemma {:induction false} MappedTranslation(m: seq<byte>, w: Word)
    requires Tree(m) && Vpn(w) in Space(m)
    ensures GvaToGpa(m, w) == Ok(Space(m)[Vpn(w)] * PAGE + w % PAGE)
  {
    hide *;
    WalkIsTranslate(m, w);
    SpaceLookup(m, w);
  }

  /** Seen through gva_to_gpa: the page of virt becomes readable, every other address translates as before. */
  lemma {:induction false} MapThenTranslate(s: State, virt: Word, phys: Word, w: Word)
    requires WellFormed(s) && Ready(s, virt, phys)
    ensures Map(s, virt, phys).Ok? && GvaToGpa(s.mem, w).Ok?
    ensures GvaToGpa(Map(s, virt, phys).value.mem, w) ==
            if Vpn(w) == Vpn(virt) && Vpn(virt) !in Space(s.mem) then Ok(NewFrame(s, virt, phys) * PAGE + w % PAGE)
            else GvaToGpa(s.mem, w)
  {
    hide Map, GvaToGpa, Space, Vpn, Ready, NewFrame;
    MapRefinesInsert(s, virt, phys);
    var m := Map(s, virt, phys).value.mem;
    assert Tree(s.mem) && Tree(m);
    WalkIsTranslate(s.mem, w);
    if Vpn(w) == Vpn(virt) && Vpn(virt) !in Space(s.mem) {
      MappedTranslation(m, w);
    } else {
      SameSpaceSameTranslation(s.mem, m, w);
    }
  }

  // ---------- Exactly when it refines ----------

  /** What FillLeaf does with a frame that the caller gives. */
  lemma {:induction false} LeafWithFrame(s: State, table: nat, i: Index, virt: Word, phys: Word)
    requires InMemory(s.mem, table) && NotPresent(Entry(s.mem, table, i)) && virt != 0 && phys != 0
    ensures var r := FillLeaf(s, SlotAddress(table, i), virt, phys);
            r.Ok? ==>
              s.dico != [] && |r.value.dico| == |s.dico| &&
              r.value.mem == Store(s.mem, SlotAddress(table, i), MakeEntry(phys))
    ensures MakeEntry(phys) / PAGE == phys / PAGE && !NotPresent(MakeEntry(phys))
  {
    hide MakeEntry, NotPresent, Load, Store;
  }

  lemma {:induction false} BadFrame(s: State, at: Path, i: Index, f: nat)
    requires 1 <= Depth(at) <= 3 && Target(s.mem, Sub(at, i)) == Some(f) && Depth(at) == 3
    requires s.dico != [] && (f >= |s.dico| || TablePage(s.mem, f))
    ensures !WellFormed(s)
  {
    assert Depth(Sub(at, i)) == 4;
    assert !GoodFrame(s, f);
  }

  lemma {:induction false} LeafNeedsAdmissible(s: State, at: Path, i: Index, virt: Word, phys: Word)
    requires WellFormed(s) && Depth(at) == 3 && Target(s.mem, at).Some? && Target(s.mem, Sub(at, i)) == None
    requires !AdmissibleFrame(s, 0, virt, phys)
    ensures var r := FillLeaf(s, SlotAddress(Target(s.mem, at).value, i), virt, phys); r.Ok? ==> !WellFormed(r.value)
  {
    hide FillLeaf, GoodFrame, Used, ZeroPage, MakeEntry;
    var t, f := Target(s.mem, at).value, phys / PAGE;
    LeafWithFrame(s, t, i, virt, phys);
    var r := FillLeaf(s, SlotAddress(t, i), virt, phys);
    if r.Ok? {
      StoreEntry(s.mem, at, i, MakeEntry(phys));
      TablesStay(s.mem, r.value.mem, at, i, f);
      BadFrame(r.value, at, i, f);
    }
  }

  lemma {:induction false} TablesStay(m: seq<byte>, m': seq<byte>, at: Path, i: Index, f: nat)
    requires OneEntry(m, m', at, i, f)
    ensures Target(m', Sub(at, i)) == Some(f)
    ensures TablePage(m, f) ==> TablePage(m', f)
  {
    assert Depth(Sub(at, i)) <= 4;
    if q :| IsTable(q) && Target(m, q) == Some(f) {
      assert Target(m', q) == Some(f);
    }
  }

  /** Without a usable page the entry points at page 0 or outside guest memory. */
  lemma {:induction false} GrowWithoutPage(s: State, at: Path, i: Index)
    requires Target(s.mem, at).Some? && InMemory(s.mem, Target(s.mem, at).value)
    requires Target(s.mem, Sub(at, i)) == None && !EnoughPages(s, 1)
    ensures var r := Grow(s, SlotAddress(Target(s.mem, at).value, i));
            && r.Ok? && |r.value.mem| == |s.mem| && Target(r.value.mem, Sub(at, i)).Some?
            && var page := Target(r.value.mem, Sub(at, i)).value; page == 0 || !InMemory(s.mem, page)
  {
    hide EnoughPages, MakeEntry, Allocate, Load, Store;
    var slot, page := SlotAddress(Target(s.mem, at).value, i), Allocate(s.dico).1;
    PageGranted(s);
    StoreKeepsPresent(s.mem, slot, MakeEntry(page), at);
    LoadStore(s.mem, slot, MakeEntry(page), slot);
    LastEntry(Store(s.mem, slot, MakeEntry(page)), at, i, MakeEntry(page));
  }

  lemma {:induction false} PageGranted(s: State)
    requires !EnoughPages(s, 1)
    ensures var page := Allocate(s.dico).1;
            && (page / PAGE == 0 || !InMemory(s.mem, page / PAGE))
            && !NotPresent(MakeEntry(page)) && MakeEntry(page) / PAGE == page / PAGE
  {
    hide FreeList;
    if Free(s.dico) != [] {
      PopFree(s.dico);
    }
  }

  lemma {:induction false} LastEntry(m: seq<byte>, at: Path, i: Index, w: Word)
    requires Target(m, at).Some? && InMemory(m, Target(m, at).value)
    requires Load(m, SlotAddress(Target(m, at).value, i)) == w && !NotPresent(w)
    ensures Target(m, Sub(at, i)) == Some(w / PAGE)
  {
  }

  lemma {:induction false} BadTable(s: State, p: Path)
    requires 1 <= Depth(p) <= 3 && Target(s.mem, p).Some?
    requires Target(s.mem, p).value == 0 || !InMemory(s.mem, Target(s.mem, p).value)
    ensures !WellFormed(s)
  {
    assert IsTable(p);
  }

  /** A table level that gets no usable page: either no page is left, or the page lies outside guest memory. */
  lemma {:induction false} GrowthFails(s: State, at: Path, i: Index, rest: seq<Index>, virt: Word, phys: Word)
    requires WellFormed(s) && rest != [] && Depth(at) + |rest| == 3
    requires Target(s.mem, at).Some? && Target(s.mem, Sub(at, i)) == None
    requires !EnoughPages(s, 1)
    ensures var r := MapFrom(s, SlotAddress(Target(s.mem, at).value, i), rest, virt, phys);
            r.Ok? ==> !WellFormed(r.value)
  {
    hide Grow, Target, EnoughPages, Used, ZeroPage, GoodFrame;
    var q, slot := Sub(at, i), SlotAddress(Target(s.mem, at).value, i);
    assert InMemory(s.mem, Target(s.mem, at).value) by { assert IsTable(at); }
    GrowWithoutPage(s, at, i);
    var s1 := Grow(s, slot).value;
    var r := MapFrom(s1, NextSlot(Load(s1.mem, slot), rest[0]), rest[1..], virt, phys);
    if r.Ok? {
      MapFromKeepsPresent(s1, NextSlot(Load(s1.mem, slot), rest[0]), rest[1..], virt, phys, q);
      BadTable(r.value, q);
    }
  }

  /** Needs that are unmet before a growth are unmet after it. */
  lemma {:induction false} GrownNeeds(s: State, s1: State, at: Path, i: Index, n: nat, virt: Word, phys: Word)
    requires Grown(s, s1, at, i) && EnoughPages(s, 1) && n > 0
    requires EnoughPages(s1, n - 1) && AdmissibleFrame(s1, n - 1, virt, phys)
    ensures EnoughPages(s, n) && AdmissibleFrame(s, n, virt, phys)
  {
    var free, head := Free(s.dico), Free(s.dico)[0];
    assert free[..n] == [head] + free[1..][..n - 1];
    if virt != 0 && phys != 0 {
      var f := phys / PAGE;
      assert TablePage(s1.mem, head) by { assert Target(s1.mem, Sub(at, i)) == Some(head); }
      forall q | IsTable(q)
        ensures Target(s.mem, q) != Some(f)
      {
        assert Target(s1.mem, q) != Some(f);
      }
    }
  }

  lemma {:induction false} MapFromNeeds(s: State, at: Path, i: Index, rest: seq<Index>, virt: Word, phys: Word)
    requires WellFormed(s) && Depth(at) + |rest| == 3 && Target(s.mem, at).Some?
    requires Target(s.mem, Extend(Sub(at, i), rest)) == None
    requires !(EnoughPages(s, Missing(s.mem, Sub(at, i), rest)) &&
               AdmissibleFrame(s, Missing(s.mem, Sub(at, i), rest), virt, phys))
    ensures var r := MapFrom(s, SlotAddress(Target(s.mem, at).value, i), rest, virt, phys);
            r.Ok? ==> !WellFormed(r.value)
    decreases |rest|
  {
    hide WellFormed, AdmissibleFrame, Grown, Target;
    var q := Sub(at, i);
    if rest == [] {
      LeafNeedsAdmissible(s, at, i, virt, phys);
    } else if Target(s.mem, q).Some? {
      PresentThen(s, at, i, rest, virt, phys);
      MapFromNeeds(s, q, rest[0], rest[1..], virt, phys);
    } else if !EnoughPages(s, 1) {
      GrowthFails(s, at, i, rest, virt, phys);
    } else {
      var s1 := GrowOnly(s, at, i, rest, virt, phys);
      AllMissing(s.mem, q, rest);
      if EnoughPages(s1, |rest| - 1) && AdmissibleFrame(s1, |rest| - 1, virt, phys) {
        GrownNeeds(s, s1, at, i, |rest|, virt, phys);
      }
      MapFromNeeds(s1, q, rest[0], rest[1..], virt, phys);
    }
  }

  lemma {:induction false} NotReadyFails(s: State, virt: Word, phys: Word)
    requires WellFormed(s) && !Ready(s, virt, phys)
    ensures Map(s, virt, phys).Ok? ==> !WellFormed(Map(s, virt, phys).value)
  {
    hide WellFormed, MapFrom, Missing, EnoughPages, AdmissibleFrame, Extend, Leaf;
    LeafIsExtension(virt);
    assert Target(s.mem, Root) == Some(1) && Depth(Root) == 0;
    MapFromNeeds(s, Root, PgdIndex(virt), [PudIndex(virt), PmdIndex(virt), PteIndex(virt)], virt, phys);
  }

  /** memory_map runs without leaving guest memory and keeps the state well-formed exactly when the call is ready. */
  lemma {:induction false} ReadyIsExact(s: State, virt: Word, phys: Word)
    requires WellFormed(s)
    ensures Map(s, virt, phys).Ok? && WellFormed(Map(s, virt, phys).value) <==> Ready(s, virt, phys)
  {
    hide *;
    if Ready(s, virt, phys) {
      MapRefinesInsert(s, virt, phys);
    } else {
      NotReadyFails(s, virt, phys);
    }
  }
}
