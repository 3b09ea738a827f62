/** memory.h: table indices, the root table, flag bits, and the field accesses of memory.c. */
module Layout {
  import opened Word64

  const CR3: nat := 0x1000
  const PAGE: nat := 0x1000
  const PRESENT: nat := 0x1
  const RW: nat := 0x2
  const USER: nat := 0x4

  type Index = i: nat | i < 512

  function PgdIndex(v: Word): (r: Index)
    ensures r == v / 0x80_0000_0000 % 512
  {
    IndexField(v, 39);
    And(Shr(v, 12 + 3 * 9), 0x1FF)
  }

  function PudIndex(v: Word): (r: Index)
    ensures r == v / 0x4000_0000 % 512
  {
    IndexField(v, 30);
    And(Shr(v, 12 + 2 * 9), 0x1FF)
  }

  function PmdIndex(v: Word): (r: Index)
    ensures r == v / 0x20_0000 % 512
  {
    IndexField(v, 21);
    And(Shr(v, 12 + 1 * 9), 0x1FF)
  }

  function PteIndex(v: Word): (r: Index)
    ensures r == v / 0x1000 % 512
  {
    IndexField(v, 12);
    And(Shr(v, 12 + 0 * 9), 0x1FF)
  }

  lemma {:induction false} IndexField(v: Word, k: nat)
    ensures And(Shr(v, k), 0x1FF) == v / Pow2(k) % 512
    ensures Pow2(12) == 0x1000 && Pow2(21) == 0x20_0000
    ensures Pow2(30) == 0x4000_0000 && Pow2(39) == 0x80_0000_0000
  {
    PageConstants();
    LevelConstants();
    ShrIsDivision(v, k);
    AndLowMask(Shr(v, k), 9);
  }

  /** The byte within a page. */
  function PageOffset(v: Word): (r: nat)
    ensures r == v % 0x1000
  {
    PageConstants();
    AndLowMask(v, 12);
    And(v, 0xFFF)
  }

  /** The page base held in an entry: all flag bits below bit 12 are cleared, the high bits stay. */
  function PointerToPage(entry: Word): (r: Word)
    ensures r == entry / 0x1000 * 0x1000
  {
    MaskConstants();
    AndLowMask(entry, 12);
    AndComplement(entry, 0xFFF, 64);
    And(entry, Not(0xFFF))
  }

  predicate NotPresent(entry: Word)
    ensures NotPresent(entry) <==> entry % 2 == 0
  {
    PageConstants();
    AndLowMask(entry, 1);
    And(entry, PRESENT) == 0
  }

  /** The entry written for a page. Low bits of an unaligned address stay in the entry. */
  function MakeEntry(page: Word): (r: Word)
    ensures r == page - page % 8 + 7
  {
    FlagBits(page);
    Or(Or(Or(page, PRESENT), USER), RW)
  }

  /** The physical address built from a leaf entry and a virtual address. */
  function Combine(entry: Word, v: Word): (r: Word)
    ensures r == entry / 0x1000 * 0x1000 + v % 0x1000
  {
    PageConstants();
    assert PointerToPage(entry) % 0x1000 == 0;
    OrDisjoint(PointerToPage(entry), PageOffset(v), 12);
    Or(PointerToPage(entry), PageOffset(v))
  }

  /** OR of a page base with an offset is their sum. */
  lemma {:induction false} BaseOrOffset(base: nat, v: Word)
    requires base % PAGE == 0
    ensures Or(base, PageOffset(v)) == base + v % 0x1000
  {
    PageConstants();
    OrDisjoint(base, PageOffset(v), 12);
  }
}
