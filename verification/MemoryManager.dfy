/** The page allocator, the table builder and the table walker as they work on guest memory in place. */
module MemoryManager {
  import opened Common
  import opened Layout
  import opened Word64
  import opened Allocator
  import opened PageTable
  import opened MemoryMap
  import opened Translation
  import opened Refinement
  import opened Requests
  import opened Stack
  import opened Footprint
  import opened Hardware

  class Manager {
    const memory: array<byte>
    const pageAllocatorDico: array<int>

    ghost predicate Valid() {
      memory as object != pageAllocatorDico && pageAllocatorDico.Length <= 0x8_0000
    }

    ghost function Contents(): State
      requires Valid()
      reads memory, pageAllocatorDico
    {
      State(memory[..], pageAllocatorDico[..])
    }

    /** Fresh guest memory is zero-filled and no page is marked. */
    constructor (size: nat, nbPage: nat)
      requires nbPage <= 0x8_0000
      ensures Valid() && fresh(memory) && fresh(pageAllocatorDico)
      ensures Contents() == Blank(size, nbPage)
    {
      var mem: array<byte> := new byte[size](_ => 0);
      var dico := new int[nbPage](_ => 0);
      memory, pageAllocatorDico := mem, dico;
      new;
      assert memory[..] == seq(size, _ => 0);
      assert pageAllocatorDico[..] == seq(nbPage, _ => 0);
    }

    method InvalidatePage(page: nat)
      requires Valid() && Invalidate(Contents(), page).Ok?
      modifies pageAllocatorDico
      ensures Contents() == Invalidate(old(Contents()), page).value
      ensures pageAllocatorDico[..] == old(pageAllocatorDico[..])[page % 0x1_0000_0000 := 1]
    {
      pageAllocatorDico[page % 0x1_0000_0000] := 1;
    }

    /** The lowest unmarked page from 2 on is marked and returned; 0 means that none is left. */
    method AllocatePage() returns (ret: nat)
      requires Valid()
      modifies pageAllocatorDico
      ensures (pageAllocatorDico[..], ret) == Allocate(old(pageAllocatorDico[..]))
      ensures ret < 0x8_0000 * PAGE
    {
      ret := 0;
      ghost var before: Dico := pageAllocatorDico[..];
      var i := 2;
      while i < pageAllocatorDico.Length
        invariant 2 <= i && (i > pageAllocatorDico.Length ==> i == 2)
        invariant pageAllocatorDico[..] == before && ret == 0
        invariant Free(before) == FreeList(before, i)
      {
        if pageAllocatorDico[i] == 0 {
          ret := i * 0x1000;
          pageAllocatorDico[i] := 1;
          assert Free(before)[0] == i;
          assert pageAllocatorDico[..] == Mark(before, i);
          return;
        }
        i := i + 1;
      }
    }

    method ReadWord(a: nat) returns (w: Word)
      requires a + 8 <= memory.Length
      ensures w == Load(memory[..], a)
    {
      assert memory[..][a..a + 8] == memory[a..a + 8];
      LE.FieldWidths();
      LE.EncodeDecode(memory[a..a + 8]);
      w := LE.Decode(memory[a..a + 8]);
    }

    method WriteWord(a: nat, w: Word)
      requires a + 8 <= memory.Length
      modifies memory
      ensures memory[..] == Store(old(memory[..]), a, w)
    {
      var bytes := LE.Encode(w, 8);
      forall k | 0 <= k < 8 {
        memory[a + k] := bytes[k];
      }
      assert memory[..] == Put(old(memory[..]), a, bytes);
    }

    method CopyIn(a: nat, source: array<byte>)
      requires a + source.Length <= memory.Length && source != memory
      modifies memory
      ensures memory[..] == Put(old(memory[..]), a, source[..])
    {
      forall k | 0 <= k < source.Length {
        memory[a + k] := source[k];
      }
    }

    /** One of the three identical blocks of memory_map that make sure an interior entry is present. */
    method EnsureTable(slot: nat)
      requires Valid() && slot + 8 <= memory.Length
      modifies memory, pageAllocatorDico
      ensures Grow(old(Contents()), slot) == Ok(Contents())
    {
      var entry := ReadWord(slot);
      if NotPresent(entry) {
        var page := AllocatePage();
        WriteWord(slot, MakeEntry(page));
      }
    }

    method MemoryMap(virtAddr: Word, physAddr: Word)
      requires Valid() && Map(Contents(), virtAddr, physAddr).Ok?
      modifies memory, pageAllocatorDico
      ensures Map(old(Contents()), virtAddr, physAddr) == Ok(Contents())
      ensures old(WellFormed(Contents()) && Ready(Contents(), virtAddr, physAddr)) ==>
                WellFormed(Contents()) &&
                Space(memory[..]) ==
                  if Vpn(virtAddr) in old(Space(memory[..])) then old(Space(memory[..]))
                  else old(Space(memory[..]))[Vpn(virtAddr) := old(NewFrame(Contents(), virtAddr, physAddr))]
      // The flags of a new entry are in its first byte; an entry that was present keeps its bytes.
      ensures forall a :: a in old(Slots(Contents(), virtAddr)) ==>
                && a + 8 <= memory.Length
                && if old(memory[..])[a] % 2 == 1 then memory[a..a + 8] == old(memory[..])[a..a + 8]
                   else memory[a] % 8 == 7
    {
      hide WellFormed, Ready, Space, Vpn, NewFrame, FillLeaf, Load, NextSlot, Slots, NewEntry;
      forall a | a in Slots(Contents(), virtAddr) {
        FlagsInFirstByte(Contents(), virtAddr, physAddr, a);
      }
      if WellFormed(Contents()) && Ready(Contents(), virtAddr, physAddr) {
        MapRefinesInsert(Contents(), virtAddr, physAddr);
      }
      ghost var goal := Map(Contents(), virtAddr, physAddr);
      ghost var rest: seq<Index> := [PudIndex(virtAddr), PmdIndex(virtAddr), PteIndex(virtAddr)];
      var pgd := CR3 + 8 * PgdIndex(virtAddr);
      EnsureTable(pgd);
      var entry := ReadWord(pgd);
      var pud := NextSlot(entry, PudIndex(virtAddr));
      assert goal == MapFrom(Contents(), pud, rest[1..], virtAddr, physAddr);
      EnsureTable(pud);
      entry := ReadWord(pud);
      var pmd := NextSlot(entry, PmdIndex(virtAddr));
      assert goal == MapFrom(Contents(), pmd, rest[1..][1..], virtAddr, physAddr);
      EnsureTable(pmd);
      entry := ReadWord(pmd);
      var pte := NextSlot(entry, PteIndex(virtAddr));
      assert goal == MapFrom(Contents(), pte, rest[1..][1..][1..], virtAddr, physAddr);
      assert goal == FillLeaf(Contents(), pte, virtAddr, physAddr);
      MapLeaf(pte, virtAddr, physAddr);
    }

    /** The last block of memory_map. */
    method MapLeaf(slot: nat, virtAddr: Word, physAddr: Word)
      requires Valid() && FillLeaf(Contents(), slot, virtAddr, physAddr).Ok?
      modifies memory, pageAllocatorDico
      ensures FillLeaf(old(Contents()), slot, virtAddr, physAddr) == Ok(Contents())
    {
      var entry := ReadWord(slot);
      if NotPresent(entry) {
        var phys: Word := physAddr;
        if virtAddr == 0 {
          phys := 0;
        } else if physAddr == 0 {
          phys := AllocatePage();
        } else {
          InvalidatePage(physAddr / PAGE);
        }
        WriteWord(slot, MakeEntry(phys));
      }
    }

    method TranslateGva(virtAddr: Word) returns (gpa: Word)
      requires GvaToGpa(memory[..], virtAddr).Ok?
      ensures Ok(gpa) == GvaToGpa(memory[..], virtAddr)
      ensures Tree(memory[..]) ==> gpa == Translate(memory[..], virtAddr)
      ensures Ok(gpa) == HardwareWalk(memory[..], virtAddr)
    {
      hide HardwareWalk, Translate, Tree, Load, Combine, NextSlot;
      WalkIsHardware(memory[..], virtAddr);
      if Tree(memory[..]) {
        WalkIsTranslate(memory[..], virtAddr);
      }
      ghost var m := memory[..];
      ghost var rest: seq<Index> := [PudIndex(virtAddr), PmdIndex(virtAddr), PteIndex(virtAddr)];
      ghost var goal := WalkFrom(m, CR3 + 8 * PgdIndex(virtAddr), rest, virtAddr);
      var entry := ReadWord(CR3 + 8 * PgdIndex(virtAddr));
      if NotPresent(entry) { return 0; }
      var slot := NextSlot(entry, PudIndex(virtAddr));
      assert goal == WalkFrom(m, slot, rest[1..], virtAddr);
      entry := ReadWord(slot);
      if NotPresent(entry) { return 0; }
      slot := NextSlot(entry, PmdIndex(virtAddr));
      assert goal == WalkFrom(m, slot, rest[1..][1..], virtAddr);
      entry := ReadWord(slot);
      if NotPresent(entry) { return 0; }
      slot := NextSlot(entry, PteIndex(virtAddr));
      assert goal == WalkFrom(m, slot, rest[1..][1..][1..], virtAddr);
      entry := ReadWord(slot);
      if NotPresent(entry) { return 0; }
      gpa := Combine(entry, virtAddr);
    }

    /** gva_to_hva: the host address as an index into guest memory, the null pointer for address 0. */
    method HostAddress(gva: Word) returns (hva: Option<nat>)
      requires GvaToGpa(memory[..], gva).Ok?
      ensures Ok(hva) == GvaToHva(memory[..], gva)
      ensures HardwareWalk(memory[..], gva) == Ok(if hva == None then 0 else hva.value) && hva != Some(0)
    {
      var gpa := TranslateGva(gva);
      if gpa == 0 { return None; }
      hva := Some(gpa);
    }

    /** The loop over the stack pages; all arithmetic is modulo 2^64. */
    method CreateStack(addr: Word, stackSize: Word)
      requires Valid() && stackSize % PAGE == 0
      requires MapAll(Contents(), StackRequests(addr, stackSize)).Ok?
      modifies memory, pageAllocatorDico
      ensures MapAll(old(Contents()), StackRequests(addr, stackSize)) == Ok(Contents())
    {
      hide Map, MapAll, Below, StackRequests;
      ghost var goal := MapAll(Contents(), StackRequests(addr, stackSize));
      StackStart(Contents(), addr, stackSize);
      MemoryMap(addr, addr);
      var i: Word := Minus(addr, PAGE);
      var size: Word := stackSize;
      while size != 0
        invariant size % PAGE == 0
        invariant goal.Ok? && MapAll(Contents(), Below(i, size)) == goal
        decreases size
      {
        StackStep(Contents(), i, size);
        MemoryMap(i, i);
        size := Minus(size, PAGE);
        i := Minus(i, PAGE);
      }
      StackEnd(Contents(), i);
    }
  }
}
