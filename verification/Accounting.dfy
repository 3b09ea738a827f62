/** How many tables there are: one for each 512 GiB, 1 GiB and 2 MiB region that holds a mapped page. */
module Accounting {
  import opened Common
  import opened Layout
  import opened Word64
  import opened PageTable
  import opened MemoryMap
  import opened Insertion
  import opened Translation
  import opened Invariants

  // ---------- Paths as numbers ----------

  /** The indices along a path read as base-512 digits. */
  function Number(p: Path): nat {
    match p
    case Root => 0
    case Sub(q, i) => i + 512 * Number(q)
  }

  lemma {:induction false} NumberInjective(p: Path, q: Path)
    requires Depth(p) == Depth(q) && Number(p) == Number(q)
    ensures p == q
  {
    if p.Sub? {
      SameDigits(Number(p.parent), Number(q.parent), p.idx, q.idx);
      NumberInjective(p.parent, q.parent);
    }
  }

  function Shift(n: nat, levels: nat): nat {
    if levels == 0 then n else Shift(n / 512, levels - 1)
  }

  /** Going up the tree drops the last digits. */
  lemma {:induction false} PrefixNumber(p: Path, q: Path)
    requires IsPrefix(p, q)
    ensures Depth(p) <= Depth(q) && Number(p) == Shift(Number(q), Depth(q) - Depth(p))
  {
    if p != q {
      PrefixNumber(p, q.parent);
      assert Number(q) / 512 == Number(q.parent);
    }
  }

  lemma {:induction false} AncestorAt(q: Path, depth: nat) returns (p: Path)
    requires depth <= Depth(q)
    ensures Depth(p) == depth && IsPrefix(p, q)
  {
    if Depth(q) == depth {
      p := q;
    } else {
      p := AncestorAt(q.parent, depth);
    }
  }

  lemma {:induction false} LeafNumber(v: Word)
    ensures Number(Leaf(v)) == Vpn(v)
  {
    VpnDigits(v);
    var p2 := Sub(Sub(Root, PgdIndex(v)), PudIndex(v));
    assert Number(p2) == PudIndex(v) + 512 * PgdIndex(v);
    assert Number(Sub(p2, PmdIndex(v))) == PmdIndex(v) + 512 * Number(p2);
  }

  /** Every path of depth 4 is the leaf of a page. */
  lemma {:induction false} LeafOfPath(p: Path)
    requires Depth(p) == 4
    ensures Number(p) < 0x10_0000_0000 && Leaf(PageStart(Number(p))) == p
  {
    var p3 := p.parent;
    assert Depth(p3) == 3;
    var p2 := p3.parent;
    assert Depth(p2) == 2;
    var p1 := p2.parent;
    assert Depth(p1) == 1;
    assert p1.parent == Root && Number(p1) < 512;
    assert Number(p2) < 0x4_0000 && Number(p3) < 0x800_0000;
    LeafNumber(PageStart(Number(p)));
    NumberInjective(Leaf(PageStart(Number(p))), p);
  }

  // ---------- Counting ----------

  /** The pages that hold a table of the given level. */
  ghost function TablesAt(s: State, level: nat): set<nat> {
    set t | 0 <= t < |s.dico| && HoldsTable(s.mem, level, t)
  }

  ghost predicate HoldsTable(m: seq<byte>, level: nat, t: nat) {
    exists p :: Depth(p) == level && Target(m, p) == Some(t)
  }

  /** The regions covered by one table of the given level that hold a mapped page. */
  ghost function Regions(m: seq<byte>, level: nat): set<nat>
    requires level <= 4
  {
    set n | n in Space(m) :: Shift(n, 4 - level)
  }

  ghost predicate TableOf(m: seq<byte>, level: nat, region: nat, t: nat) {
    exists p :: Depth(p) == level && Number(p) == region && Target(m, p) == Some(t)
  }

  lemma {:induction false} SameCount(a: set<nat>, b: set<nat>, r: (nat, nat) -> bool)
    requires forall x :: x in a ==> exists y :: y in b && r(x, y)
    requires forall y :: y in b ==> exists x :: x in a && r(x, y)
    requires forall x, y, z :: r(x, y) && r(x, z) ==> y == z
    requires forall x, y, z :: r(x, z) && r(y, z) ==> x == y
    ensures |a| == |b|
    decreases a
  {
    if a != {} {
      var x :| x in a;
      var y :| y in b && r(x, y);
      forall z | z in a - {x}
        ensures exists w :: w in b - {y} && r(z, w)
      {
        var w :| w in b && r(z, w);
      }
      SameCount(a - {x}, b - {y}, r);
    } else {
      assert b == {};
    }
  }

  lemma {:induction false} RegionHasTable(s: State, level: nat, region: nat) returns (t: nat)
    requires WellFormed(s) && 1 <= level <= 3 && region in Regions(s.mem, level)
    ensures t in TablesAt(s, level) && TableOf(s.mem, level, region, t)
  {
    hide Leaf, GoodFrame, ZeroPage, Tree, Target, Vpn, PageStart;
    var n :| n in Space(s.mem) && Shift(n, 4 - level) == region;
    var leaf := Leaf(PageStart(n));
    LeafNumber(PageStart(n));
    var p := AncestorAt(leaf, level);
    PrefixNumber(p, leaf);
    PrefixPresent(s.mem, p, leaf);
    t := Target(s.mem, p).value;
    assert HoldsTable(s.mem, level, t);
  }

  lemma {:induction false} TableHasRegion(s: State, level: nat, t: nat) returns (region: nat)
    requires WellFormed(s) && Pruned(s.mem) && 1 <= level <= 3 && t in TablesAt(s, level)
    ensures region in Regions(s.mem, level) && TableOf(s.mem, level, region, t)
  {
    hide WellFormed, Leaf, Target, Vpn, PageStart, IsPrefix;
    var p :| Depth(p) == level && Target(s.mem, p) == Some(t);
    assert HasLeaf(s.mem, p);
    var leaf :| Depth(leaf) == 4 && IsPrefix(p, leaf) && Target(s.mem, leaf).Some?;
    LeafOfPath(leaf);
    PrefixNumber(p, leaf);
    region := Number(p);
    assert Number(leaf) in Space(s.mem);
  }

  /** At each level there are as many tables as regions in use. */
  lemma {:induction false} LevelCount(s: State, level: nat)
    requires WellFormed(s) && Pruned(s.mem) && 1 <= level <= 3
    ensures |TablesAt(s, level)| == |Regions(s.mem, level)|
  {
    hide Pruned, Regions, TablesAt, Used, GoodFrame, ZeroPage, Target;
    var m := s.mem;
    var r := (region: nat, t: nat) => TableOf(m, level, region, t);
    forall x | x in Regions(m, level)
      ensures exists t :: t in TablesAt(s, level) && r(x, t)
    {
      var t := RegionHasTable(s, level, x);
      assert r(x, t);
    }
    forall t | t in TablesAt(s, level)
      ensures exists x :: x in Regions(m, level) && r(x, t)
    {
      var x := TableHasRegion(s, level, t);
      assert r(x, t);
    }
    forall x, y, z | r(x, y) && r(x, z)
      ensures y == z
    {
      OneTableForRegion(m, level, x, y, z);
    }
    forall x, y, z | r(x, z) && r(y, z)
      ensures x == y
    {
      OneRegionForTable(m, level, x, y, z);
    }
    SameCount(Regions(m, level), TablesAt(s, level), r);
  }

  lemma {:induction false} OneTableForRegion(m: seq<byte>, level: nat, x: nat, y: nat, z: nat)
    requires TableOf(m, level, x, y) && TableOf(m, level, x, z)
    ensures y == z
  {
    var p :| Depth(p) == level && Number(p) == x && Target(m, p) == Some(y);
    var q :| Depth(q) == level && Number(q) == x && Target(m, q) == Some(z);
    NumberInjective(p, q);
  }

  lemma {:induction false} OneRegionForTable(m: seq<byte>, level: nat, x: nat, y: nat, z: nat)
    requires Tree(m) && level <= 3 && TableOf(m, level, x, z) && TableOf(m, level, y, z)
    ensures x == y
  {
    hide Target;
    var p :| Depth(p) == level && Number(p) == x && Target(m, p) == Some(z);
    var q :| Depth(q) == level && Number(q) == y && Target(m, q) == Some(z);
    assert p == q;
  }

  /** The pages that hold a table other than the root. */
  ghost function TablePages(s: State): set<nat> {
    TablesAt(s, 1) + TablesAt(s, 2) + TablesAt(s, 3)
  }

  lemma {:induction false} TablePagesMeaning(s: State, t: nat)
    requires WellFormed(s)
    ensures t in TablePages(s) <==> TablePage(s.mem, t) && t != CR3 / PAGE
  {
    hide GoodFrame, ZeroPage;
    if TablePage(s.mem, t) && t != CR3 / PAGE {
      var p :| IsTable(p) && Target(s.mem, p) == Some(t);
      assert p != Root && Used(s.dico, t);
      assert HoldsTable(s.mem, Depth(p), t);
    }
    if t in TablePages(s) {
      assert HoldsTable(s.mem, 1, t) || HoldsTable(s.mem, 2, t) || HoldsTable(s.mem, 3, t);
      var p :| 1 <= Depth(p) <= 3 && Target(s.mem, p) == Some(t);
      assert p != Root && Target(s.mem, Root) == Some(CR3 / PAGE);
    }
  }

  lemma {:induction false} LevelsAreDisjoint(s: State, i: nat, j: nat)
    requires WellFormed(s) && i < j <= 3
    ensures TablesAt(s, i) !! TablesAt(s, j)
  {
    hide Target, Used, GoodFrame, ZeroPage;
    forall p, q | Depth(p) == i && Depth(q) == j && Target(s.mem, p).Some?
      ensures Target(s.mem, p) != Target(s.mem, q)
    {
    }
  }

  /** In every state with no useless table, the number of tables is the number of 512 GiB, 1 GiB and 2 MiB
      regions that contain a mapped page. */
  lemma {:induction false} TableAccounting(s: State)
    requires WellFormed(s) && Pruned(s.mem)
    ensures |TablePages(s)| ==
              |set n | n in Space(s.mem) :: n / 0x800_0000| +
              |set n | n in Space(s.mem) :: n / 0x4_0000| +
              |set n | n in Space(s.mem) :: n / 0x200|
  {
    hide WellFormed, Pruned, Space, TablesAt;
    LevelCount(s, 1);
    LevelCount(s, 2);
    LevelCount(s, 3);
    LevelsAreDisjoint(s, 1, 2);
    LevelsAreDisjoint(s, 1, 3);
    LevelsAreDisjoint(s, 2, 3);
    assert |TablePages(s)| == |TablesAt(s, 1)| + |TablesAt(s, 2)| + |TablesAt(s, 3)|;
    RegionWidths(s.mem);
  }

  lemma {:induction false} RegionWidths(m: seq<byte>)
    ensures Regions(m, 1) == set n | n in Space(m) :: n / 0x800_0000
    ensures Regions(m, 2) == set n | n in Space(m) :: n / 0x4_0000
    ensures Regions(m, 3) == set n | n in Space(m) :: n / 0x200
  {
    hide Space;
    forall n: nat
      ensures Shift(n, 3) == n / 0x800_0000 && Shift(n, 2) == n / 0x4_0000 && Shift(n, 1) == n / 0x200
    {
      assert Shift(n / 512 / 512, 1) == n / 512 / 512 / 512;
      assert Shift(n / 512, 1) == n / 512 / 512;
    }
  }
}
