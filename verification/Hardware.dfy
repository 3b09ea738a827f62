/** The page walk of an x86-64 processor on the bytes of memory, and what memory_map and gva_to_gpa are in its terms. */
module Hardware {
  import opened Common
  import opened Word64
  import opened Layout
  import opened Allocator
  import opened PageTable
  import opened MemoryMap
  import opened Translation
  import opened Refinement
  import opened Footprint
  import LE = LittleEndian

  /** One level: the entry of a table at a byte address, which is present if its lowest bit is set. */
  function Level(m: seq<byte>, table: nat, i: nat): Outcome<nat> {
    if table + 8 * i + 8 > |m| then Fault else Ok(LE.WordAt(m, table + 8 * i))
  }

  /** Four-level paging from the root at 0x1000: bits 47 to 39, 38 to 30, 29 to 21 and 20 to 12 of the address select
      the entries, an entry without bit 0 ends the walk with 0, and the last one gives the frame of the low 12 bits. */
  function HardwareWalk(m: seq<byte>, v: Word): Outcome<nat> {
    var e4 :- Level(m, 0x1000, v / 0x80_0000_0000 % 512);
    if e4 % 2 == 0 then Ok(0)
    else
      var e3 :- Level(m, e4 / 0x1000 * 0x1000, v / 0x4000_0000 % 512);
      if e3 % 2 == 0 then Ok(0)
      else
        var e2 :- Level(m, e3 / 0x1000 * 0x1000, v / 0x20_0000 % 512);
        if e2 % 2 == 0 then Ok(0)
        else
          var e1 :- Level(m, e2 / 0x1000 * 0x1000, v / 0x1000 % 512);
          if e1 % 2 == 0 then Ok(0) else Ok(e1 / 0x1000 * 0x1000 + v % 0x1000)
  }

  lemma {:induction false} LevelIsLoad(m: seq<byte>, table: nat, i: nat)
    ensures Level(m, table, i) == if table + 8 * i + 8 > |m| then Fault else Ok(Load(m, table + 8 * i))
  {
    hide Load, LE.WordAt;
    if table + 8 * i + 8 <= |m| {
      LoadsWord(m, table + 8 * i);
    }
  }

  lemma {:induction false} WalkLevel(m: seq<byte>, table: nat, i: Index, j: Index, rest: seq<Index>, v: Word)
    ensures WalkFrom(m, table + 8 * i, [j] + rest, v) ==
            match Level(m, table, i)
            case Fault => Fault
            case Ok(e) => if e % 2 == 0 then Ok(0) else WalkFrom(m, e / 0x1000 * 0x1000 + 8 * j, rest, v)
  {
    hide Load, Level;
    LevelIsLoad(m, table, i);
    assert ([j] + rest)[1..] == rest;
  }

  lemma {:induction false} WalkEnd(m: seq<byte>, table: nat, i: Index, v: Word)
    ensures WalkFrom(m, table + 8 * i, [], v) ==
            match Level(m, table, i)
            case Fault => Fault
            case Ok(e) => Ok(if e % 2 == 0 then 0 else e / 0x1000 * 0x1000 + v % 0x1000)
  {
    hide Load, Level;
    LevelIsLoad(m, table, i);
  }

  /** gva_to_gpa is the processor's walk, for every memory and every 64-bit address. */
  lemma {:induction false} WalkIsHardware(m: seq<byte>, v: Word)
    ensures GvaToGpa(m, v) == HardwareWalk(m, v)
  {
    hide WalkFrom, Level, PgdIndex, PudIndex, PmdIndex, PteIndex;
    var i, j, k, l := PgdIndex(v), PudIndex(v), PmdIndex(v), PteIndex(v);
    assert [j, k, l] == [j] + [k, l] && [k, l] == [k] + [l] && [l] == [l] + [];
    WalkLevel(m, 0x1000, i, j, [k, l], v);
    if Level(m, 0x1000, i).Ok? {
      var t3 := Level(m, 0x1000, i).value / 0x1000 * 0x1000;
      WalkLevel(m, t3, j, k, [l], v);
      if Level(m, t3, j).Ok? {
        var t2 := Level(m, t3, j).value / 0x1000 * 0x1000;
        WalkLevel(m, t2, k, l, [], v);
        if Level(m, t2, k).Ok? {
          WalkEnd(m, Level(m, t2, k).value / 0x1000 * 0x1000, l, v);
        }
      }
    }
  }

  /** What the processor finds after memory_map: the page of virt is mapped to the frame of phys, to the next free page
      if phys is 0, or to page 0 if virt is 0, unless it was mapped before; all other addresses translate as before. */
  lemma {:induction false} MapThenHardware(s: State, virt: Word, phys: Word, w: Word)
    requires WellFormed(s) && Ready(s, virt, phys)
    ensures Map(s, virt, phys).Ok? && HardwareWalk(s.mem, w).Ok?
    ensures var before, after := HardwareWalk(s.mem, w), HardwareWalk(Map(s, virt, phys).value.mem, w);
            if w / 0x1000 % 0x10_0000_0000 != virt / 0x1000 % 0x10_0000_0000 || Mapped(s.mem, virt) then after == before
            else if virt == 0 then after == Ok(w % 0x1000)
            else if phys != 0 then after == Ok(phys / 0x1000 * 0x1000 + w % 0x1000)
            else
              var n := MissingLevels(s.mem, virt);
              after == Ok((if n < |Free(s.dico)| then Free(s.dico)[n] else 0) * 0x1000 + w % 0x1000)
  {
    hide Map, GvaToGpa, HardwareWalk, Space, Ready, MissingLevels, FreeList, Leaf, WellFormed, Target;
    MapThenTranslate(s, virt, phys, w);
    WalkIsHardware(s.mem, w);
    WalkIsHardware(Map(s, virt, phys).value.mem, w);
    SpaceLookup(s.mem, virt);
  }

  ghost predicate Mapped(m: seq<byte>, v: Word) {
    Target(m, Leaf(v)).Some?
  }

  // ---------- New entries ----------

  /** A word that memory_map writes for a page of its own, for page 0, or for the frame that the caller gives: the bits
      for present, writable and user, and no others below bit 12 but those of an unaligned frame. */
  predicate NewEntry(e: Word, virt: Word, phys: Word) {
    e % 0x1000 == 7 || (virt != 0 && phys != 0 && e == phys - phys % 8 + 7)
  }

  lemma {:induction false} PageEntry(page: Word, virt: Word, phys: Word)
    requires page % 0x1000 == 0 || (virt != 0 && page == phys)
    ensures NewEntry(MakeEntry(page), virt, phys) && !NotPresent(MakeEntry(page))
  {
    hide MakeEntry, NotPresent;
    DivModUnique(MakeEntry(page), 8, page / 8, 7);
    if page % 0x1000 == 0 {
      DivModUnique(page, 8, page / 0x1000 * 0x200, 0);
      DivModUnique(MakeEntry(page), 0x1000, page / 0x1000, 7);
    }
  }

  lemma {:induction false} AllocatedPage(d: Dico)
    ensures Allocate(d).1 % 0x1000 == 0
  {
  }

  /** The memories differ in the word at slot only, which is w afterwards. */
  ghost predicate OneWord(m: seq<byte>, m': seq<byte>, slot: nat, w: Word) {
    && |m'| == |m| && slot + 8 <= |m| && Load(m', slot) == w
    && forall a: nat :: a % 8 == slot % 8 && a + 8 <= |m| && a != slot ==> Load(m', a) == Load(m, a)
  }

  lemma {:induction false} StoreIsOneWord(m: seq<byte>, slot: nat, w: Word)
    requires slot + 8 <= |m|
    ensures OneWord(m, Store(m, slot, w), slot, w)
  {
    hide Load, Store;
    LoadStore(m, slot, w, slot);
    forall a: nat | a % 8 == slot % 8 && a + 8 <= |m| && a != slot
      ensures Load(Store(m, slot, w), a) == Load(m, a)
    {
      LoadStore(m, slot, w, a);
    }
  }

  /** One level leaves a present entry alone and writes a new one if it is absent. */
  ghost predicate LevelWrote(m: seq<byte>, m': seq<byte>, slot: nat, virt: Word, phys: Word)
    requires slot + 8 <= |m|
  {
    if NotPresent(Load(m, slot)) then exists w :: OneWord(m, m', slot, w) && NewEntry(w, virt, phys) && !NotPresent(w)
    else m' == m
  }

  lemma {:induction false} GrowWrites(s: State, slot: nat, virt: Word, phys: Word)
    requires Grow(s, slot).Ok?
    ensures slot + 8 <= |s.mem| && LevelWrote(s.mem, Grow(s, slot).value.mem, slot, virt, phys)
  {
    hide Load, Store, Allocate, NotPresent, MakeEntry, OneWord, NewEntry;
    AllocatedPage(s.dico);
    PageEntry(Allocate(s.dico).1, virt, phys);
    if slot + 8 <= |s.mem| {
      StoreIsOneWord(s.mem, slot, MakeEntry(Allocate(s.dico).1));
    }
  }

  lemma {:induction false} FillWrites(s: State, slot: nat, virt: Word, phys: Word)
    requires FillLeaf(s, slot, virt, phys).Ok?
    ensures slot + 8 <= |s.mem| && LevelWrote(s.mem, FillLeaf(s, slot, virt, phys).value.mem, slot, virt, phys)
  {
    hide Load, Store, Allocate, NotPresent, MakeEntry, OneWord, NewEntry;
    AllocatedPage(s.dico);
    var page: Word := if virt == 0 then 0 else if phys == 0 then Allocate(s.dico).1 else phys;
    PageEntry(page, virt, phys);
    if slot + 8 <= |s.mem| {
      StoreIsOneWord(s.mem, slot, MakeEntry(page));
    }
  }

  lemma {:induction false} WordAfterLevel(m: seq<byte>, m': seq<byte>, slot: nat, virt: Word, phys: Word, a: nat)
    requires slot % 8 == 0 == a % 8 && slot + 8 <= |m| && a + 8 <= |m| && LevelWrote(m, m', slot, virt, phys)
    ensures |m'| == |m|
    ensures if a == slot && NotPresent(Load(m, a)) then NewEntry(Load(m', a), virt, phys) && !NotPresent(Load(m', a))
            else Load(m', a) == Load(m, a)
  {
    hide Load, NotPresent, NewEntry;
  }

  /** An aligned word after memory_map: unchanged if it was present or is not one of the entries, else a new entry. */
  lemma {:induction false} EntriesAfter(s: State, slot: nat, rest: seq<Index>, virt: Word, phys: Word, a: nat)
    requires slot % 8 == 0 && MapFrom(s, slot, rest, virt, phys).Ok? && a % 8 == 0 && a + 8 <= |s.mem|
    ensures var m := MapFrom(s, slot, rest, virt, phys).value.mem;
            && |m| == |s.mem|
            && if !NotPresent(Load(s.mem, a)) || a !in SlotsFrom(s, slot, rest) then Load(m, a) == Load(s.mem, a)
               else NewEntry(Load(m, a), virt, phys) && !NotPresent(Load(m, a))
    decreases |rest|
  {
    hide Load, Grow, FillLeaf, LevelWrote, NewEntry, NotPresent, NextSlot;
    if rest == [] {
      FillWrites(s, slot, virt, phys);
      WordAfterLevel(s.mem, FillLeaf(s, slot, virt, phys).value.mem, slot, virt, phys, a);
    } else {
      GrowWrites(s, slot, virt, phys);
      var s1 := Grow(s, slot).value;
      WordAfterLevel(s.mem, s1.mem, slot, virt, phys, a);
      WordAfterLevel(s.mem, s1.mem, slot, virt, phys, slot);
      NextAligned(Load(s1.mem, slot), rest[0]);
      EntriesAfter(s1, NextSlot(Load(s1.mem, slot), rest[0]), rest[1..], virt, phys, a);
    }
  }

  lemma {:induction false} NextAligned(e: Word, i: Index)
    ensures NextSlot(e, i) % 8 == 0
  {
    hide PointerToPage;
    DivModUnique(NextSlot(e, i), 8, e / 0x1000 * 0x200 + i, 0);
  }

  lemma {:induction false} GrowInside(s: State, slot: nat)
    requires Grow(s, slot).Ok?
    ensures slot + 8 <= |Grow(s, slot).value.mem|
  {
    hide Load, Allocate, MakeEntry, NotPresent;
  }

  lemma {:induction false} SlotsAligned(s: State, slot: nat, rest: seq<Index>)
    requires slot % 8 == 0
    ensures forall a :: a in SlotsFrom(s, slot, rest) ==> a % 8 == 0
    decreases |rest|
  {
    hide Load, Grow, NextSlot;
    if rest != [] && Grow(s, slot).Ok? {
      var s1 := Grow(s, slot).value;
      GrowInside(s, slot);
      NextAligned(Load(s1.mem, slot), rest[0]);
      SlotsAligned(s1, NextSlot(Load(s1.mem, slot), rest[0]), rest[1..]);
    }
  }

  /** In any state: every entry that memory_map fills has its flags in its first byte, whose low three bits it sets; an
      entry that was present keeps all its bytes. */
  lemma {:induction false} FlagsInFirstByte(s: State, virt: Word, phys: Word, a: nat)
    requires Map(s, virt, phys).Ok? && a in Slots(s, virt)
    ensures var m := Map(s, virt, phys).value.mem;
            && a + 8 <= |m| == |s.mem|
            && if s.mem[a] % 2 == 1 then m[a..a + 8] == s.mem[a..a + 8]
               else m[a] % 8 == 7 && NewEntry(LE.WordAt(m, a), virt, phys)
  {
    hide MapFrom, SlotsFrom, Load, LE.WordAt, NewEntry, AgreeAfter;
    var m, rest := Map(s, virt, phys).value.mem, [PudIndex(virt), PmdIndex(virt), PteIndex(virt)];
    SlotsAligned(s, CR3 + 8 * PgdIndex(virt), rest);
    MapFromReads(s, s, CR3 + 8 * PgdIndex(virt), rest, virt, phys);
    EntriesAfter(s, CR3 + 8 * PgdIndex(virt), rest, virt, phys, a);
    FirstByte(s.mem, a);
    FirstByte(m, a);
    if s.mem[a] % 2 == 1 {
      SameLoadSameBytes(s.mem, m, a);
    } else {
      NewEntryFlags(m, a, virt, phys);
    }
  }

  lemma {:induction false} FirstByte(m: seq<byte>, a: nat)
    requires a + 8 <= |m|
    ensures Load(m, a) == LE.WordAt(m, a) && (NotPresent(Load(m, a)) <==> m[a] % 2 == 0)
  {
    hide LE.WordAt, Load;
    LoadsWord(m, a);
  }

  lemma {:induction false} NewEntryFlags(m: seq<byte>, a: nat, virt: Word, phys: Word)
    requires a + 8 <= |m| && NewEntry(Load(m, a), virt, phys)
    ensures m[a] % 8 == 7
  {
    hide LE.WordAt, Load, NewEntry;
    LoadsWord(m, a);
    NewEntryLow(Load(m, a), virt, phys);
    LowThree(Load(m, a));
  }

  lemma {:induction false} NewEntryLow(w: Word, virt: Word, phys: Word)
    requires NewEntry(w, virt, phys)
    ensures w % 8 == 7
  {
    if w % 0x1000 == 7 {
      DivModUnique(w, 8, w / 0x1000 * 0x200, 7);
    } else {
      DivModUnique(w, 8, phys / 8, 7);
    }
  }

  lemma {:induction false} LowThree(w: nat)
    ensures w % 256 % 8 == w % 8
  {
    DivModUnique(w, 8, w / 256 * 32 + w % 256 / 8, w % 256 % 8);
  }

  lemma {:induction false} SameLoadSameBytes(m: seq<byte>, m': seq<byte>, a: nat)
    requires a + 8 <= |m| == |m'| && Load(m, a) == Load(m', a)
    ensures m[a..a + 8] == m'[a..a + 8]
  {
    hide LE.Encode, LE.Decode;
    LE.EncodeDecode(m[a..a + 8]);
    LE.EncodeDecode(m'[a..a + 8]);
  }
}
