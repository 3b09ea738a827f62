/** gva_to_gpa and gva_to_hva, and the finite map from virtual page numbers to frames that the tables stand for. */
module Translation {
  import opened Common
  import opened Layout
  import opened Word64
  import opened PageTable
  import opened MemoryMap
  import opened Insertion

  /** The walk from one entry on; 0 stands for "not present". */
  function WalkFrom(m: seq<byte>, slot: nat, rest: seq<Index>, v: Word): Outcome<Word>
    decreases |rest|
  {
    if slot + 8 > |m| then Fault
    else
      var entry := Load(m, slot);
      if NotPresent(entry) then Ok(0)
      else if rest == [] then Ok(Combine(entry, v))
      else WalkFrom(m, NextSlot(entry, rest[0]), rest[1..], v)
  }

  function GvaToGpa(m: seq<byte>, v: Word): Outcome<Word> {
    WalkFrom(m, CR3 + 8 * PgdIndex(v), [PudIndex(v), PmdIndex(v), PteIndex(v)], v)
  }

  /** The host address as an index into guest memory; None stands for the null pointer. */
  function GvaToHva(m: seq<byte>, v: Word): Outcome<Option<nat>> {
    var gpa :- GvaToGpa(m, v);
    Ok(if gpa == 0 then None else Some(gpa))
  }

  // ---------- What the walk means ----------

  function Translate(m: seq<byte>, v: Word): nat {
    match Target(m, Leaf(v))
    case None => 0
    case Some(f) => f * PAGE + v % PAGE
  }

  /** Virtual page numbers have 36 bits. */
  function Vpn(v: Word): (n: nat)
    ensures n < 0x10_0000_0000
  {
    v / PAGE % 0x10_0000_0000
  }

  function PageStart(vpn: nat): (v: Word)
    requires vpn < 0x10_0000_0000
    ensures Vpn(v) == vpn
  {
    vpn * PAGE
  }

  /** The address space that a memory describes. */
  ghost function Space(m: seq<byte>): map<nat, nat> {
    map n: nat | n < 0x10_0000_0000 && Target(m, Leaf(PageStart(n))).Some? :: Target(m, Leaf(PageStart(n))).value
  }

  lemma {:induction false} WalkFromIsTranslate(m: seq<byte>, at: Path, i: Index, rest: seq<Index>, v: Word)
    requires Tree(m) && Depth(at) + |rest| == 3 && Target(m, at).Some?
    ensures WalkFrom(m, SlotAddress(Target(m, at).value, i), rest, v)
         == Ok(match Target(m, Extend(Sub(at, i), rest)) case None => 0 case Some(f) => f * PAGE + v % PAGE)
    decreases |rest|
  {
    hide NotPresent, Load, Combine, PointerToPage;
    var q := Sub(at, i);
    assert InMemory(m, Target(m, at).value);
    if Target(m, q) == None {
      AllMissing(m, q, rest);
    } else if rest != [] {
      FollowEntry(m, at, i, rest[0]);
      WalkFromIsTranslate(m, q, rest[0], rest[1..], v);
    }
  }

  /** In a tree every load of the walk is inside guest memory, and the walk computes the translation. */
  lemma {:induction false} WalkIsTranslate(m: seq<byte>, v: Word)
    requires Tree(m)
    ensures GvaToGpa(m, v) == Ok(Translate(m, v))
  {
    LeafIsExtension(v);
    WalkFromIsTranslate(m, Root, PgdIndex(v), [PudIndex(v), PmdIndex(v), PteIndex(v)], v);
  }

  lemma {:induction false} ModuloDigit(x: nat, k: nat)
    requires k > 0
    ensures x % (512 * k) == 512 * (x / 512 % k) + x % 512
  {
    var q, r := x / 512 / k, x / 512 % k;
    assert x / 512 == q * k + r;
    assert q * (512 * k) == 512 * (q * k);
    DivModUnique(x, 512 * k, q, 512 * r + x % 512);
  }

  /** Each level shifts by nine bits more than the one below. */
  lemma {:induction false} LevelShifts(v: Word)
    ensures v / 0x20_0000 == v / 0x1000 / 512
    ensures v / 0x4000_0000 == v / 0x1000 / 512 / 512
    ensures v / 0x80_0000_0000 == v / 0x1000 / 512 / 512 / 512
  {
    var x := v / 0x1000;
    var r, s, t, u := v % 0x1000, x % 512, x / 512 % 512, x / 512 / 512 % 512;
    DivModUnique(v, 0x20_0000, x / 512, 0x1000 * s + r);
    DivModUnique(v, 0x4000_0000, x / 512 / 512, 0x20_0000 * t + 0x1000 * s + r);
    DivModUnique(v, 0x80_0000_0000, x / 512 / 512 / 512, 0x4000_0000 * u + 0x20_0000 * t + 0x1000 * s + r);
  }

  /** The four indices are the base-512 digits of the page number. */
  lemma {:induction false} VpnDigits(v: Word)
    ensures Vpn(v) == PteIndex(v) + 512 * (PmdIndex(v) + 512 * (PudIndex(v) + 512 * PgdIndex(v)))
  {
    var x := v / 0x1000;
    LevelShifts(v);
    ModuloDigit(x, 0x800_0000);
    ModuloDigit(x / 512, 0x4_0000);
    ModuloDigit(x / 512 / 512, 512);
  }

  lemma {:induction false} SameDigits(a: nat, b: nat, i: Index, j: Index)
    ensures i + 512 * a == j + 512 * b <==> i == j && a == b
  {
  }

  /** Two addresses share a leaf exactly when they share a virtual page number. */
  lemma {:induction false} SameLeaf(v: Word, w: Word)
    ensures Leaf(v) == Leaf(w) <==> Vpn(v) == Vpn(w)
  {
    VpnDigits(v);
    VpnDigits(w);
    var v2, w2 := PudIndex(v) + 512 * PgdIndex(v), PudIndex(w) + 512 * PgdIndex(w);
    SameDigits(PgdIndex(v), PgdIndex(w), PudIndex(v), PudIndex(w));
    SameDigits(v2, w2, PmdIndex(v), PmdIndex(w));
    SameDigits(PmdIndex(v) + 512 * v2, PmdIndex(w) + 512 * w2, PteIndex(v), PteIndex(w));
  }

  /** Looking up an address is looking up its page number. */
  lemma {:induction false} SpaceLookup(m: seq<byte>, v: Word)
    ensures Vpn(v) in Space(m) <==> Target(m, Leaf(v)).Some?
    ensures Vpn(v) in Space(m) ==> Space(m)[Vpn(v)] == Target(m, Leaf(v)).value
    ensures Translate(m, v) == if Vpn(v) in Space(m) then Space(m)[Vpn(v)] * PAGE + v % PAGE else 0
  {
    hide Leaf;
    SameLeaf(v, PageStart(Vpn(v)));
  }
}
