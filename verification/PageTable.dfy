/** The radix tree that the page tables form inside guest memory. */
module PageTable {
  import opened Common
  import opened Layout
  import opened Word64
  import LE = LittleEndian

  // ---------- Words in memory ----------

  /** A 64-bit load; the address must lie in guest memory. */
  function Load(m: seq<byte>, a: nat): (r: Word)
    requires a + 8 <= |m|
  {
    LE.FieldWidths();
    LE.EncodeDecode(m[a..a + 8]);
    LE.Decode(m[a..a + 8])
  }

  function Store(m: seq<byte>, a: nat, w: Word): (r: seq<byte>)
    requires a + 8 <= |m|
    ensures |r| == |m|
  {
    Put(m, a, LE.Encode(w, 8))
  }

  /** Aligned words do not overlap: a store changes one of them. */
  lemma {:induction false} LoadStore(m: seq<byte>, a: nat, w: Word, b: nat)
    requires a + 8 <= |m| && b + 8 <= |m| && a % 8 == b % 8
    ensures Load(Store(m, a, w), b) == if a == b then w else Load(m, b)
  {
    if a == b {
      LE.FieldWidths();
      LE.DecodeEncode(w, 8);
      PutHere(m, a, LE.Encode(w, 8));
    } else {
      PutElsewhere(m, a, LE.Encode(w, 8), b, b + 8);
    }
  }

  /** A load takes the byte at its address as the lowest one. */
  lemma {:induction false} LoadsWord(m: seq<byte>, a: nat)
    requires a + 8 <= |m|
    ensures Load(m, a) == LE.WordAt(m, a) && Load(m, a) % 256 == m[a]
  {
    hide LE.Decode, LE.WordAt;
    LE.DecodesWord(m, a);
    LE.LowByte(m, a);
  }

  /** A store puts digit k of the word at distance k, lowest first, and leaves all other bytes alone. */
  lemma {:induction false} StoresWord(m: seq<byte>, a: nat, w: Word, x: nat)
    requires a + 8 <= |m| && x < |m|
    ensures Store(m, a, w)[x] == if a <= x < a + 8 then w / LE.Pow256(x - a) % 256 else m[x]
    ensures LE.WordAt(Store(m, a, w), a) == w
  {
    hide LE.Encode, LE.Decode;
    if a <= x < a + 8 {
      LE.EncodeDigit(w, 8, x - a);
    }
    LoadStore(m, a, w, a);
    LoadsWord(Store(m, a, w), a);
  }

  // ---------- Tables, entries and paths ----------

  predicate InMemory(m: seq<byte>, page: nat) {
    (page + 1) * PAGE <= |m|
  }

  function SlotAddress(table: nat, i: Index): nat {
    table * PAGE + 8 * i
  }

  function Entry(m: seq<byte>, table: nat, i: Index): Word
    requires InMemory(m, table)
  {
    Load(m, SlotAddress(table, i))
  }

  /** A position in the tree: the root table, or entry idx of the table at parent. */
  datatype Path = Root | Sub(parent: Path, idx: Index)

  function Depth(p: Path): nat {
    match p
    case Root => 0
    case Sub(q, _) => 1 + Depth(q)
  }

  ghost predicate IsTable(p: Path) {
    Depth(p) <= 3
  }

  predicate IsPrefix(p: Path, q: Path) {
    p == q || (q.Sub? && IsPrefix(p, q.parent))
  }

  /** The page that the entries along p lead to: a table for depth up to 3, a mapped frame for depth 4. */
  function Target(m: seq<byte>, p: Path): Option<nat> {
    match p
    case Root => Some(CR3 / PAGE)
    case Sub(q, i) =>
      match Target(m, q)
      case None => None
      case Some(table) =>
        if !InMemory(m, table) || NotPresent(Entry(m, table, i)) then None
        else Some(Entry(m, table, i) / PAGE)
  }

  /** The leaf path of a 64-bit address; bits 48 to 63 play no role. */
  function Leaf(v: Word): (p: Path)
    ensures Depth(p) == 4
  {
    assert Depth(Sub(Sub(Root, PgdIndex(v)), PudIndex(v))) == 2;
    Sub(Sub(Sub(Sub(Root, PgdIndex(v)), PudIndex(v)), PmdIndex(v)), PteIndex(v))
  }

  // ---------- The tree invariant ----------

  ghost predicate ZeroPage(m: seq<byte>, page: nat) {
    InMemory(m, page) && forall a :: page * PAGE <= a < (page + 1) * PAGE ==> m[a] == 0
  }

  /** Tables lie in memory, and no table is reached along two paths. */
  ghost predicate Tree(m: seq<byte>) {
    && (forall p :: IsTable(p) && Target(m, p).Some? ==> InMemory(m, Target(m, p).value))
    && (forall p, q :: IsTable(p) && IsTable(q) && Target(m, p).Some? && Target(m, p) == Target(m, q) ==> p == q)
  }

  ghost predicate TablePage(m: seq<byte>, page: nat) {
    exists p :: IsTable(p) && Target(m, p) == Some(page)
  }

  lemma {:induction false} ZeroEntry(m: seq<byte>, page: nat, i: Index)
    requires ZeroPage(m, page)
    ensures NotPresent(Entry(m, page, i))
  {
    var a := SlotAddress(page, i);
    LE.DecodeZeros(m[a..a + 8]);
  }

  lemma {:induction false} EntryStore(m: seq<byte>, t: nat, i: Index, w: Word, t': nat, j: Index)
    requires InMemory(m, t) && InMemory(m, t')
    ensures Entry(Store(m, SlotAddress(t, i), w), t', j) == if t == t' && i == j then w else Entry(m, t', j)
  {
    hide Load, Store;
    LoadStore(m, SlotAddress(t, i), w, SlotAddress(t', j));
  }

  /** Filling one absent entry changes one position of the tree and no other. */
  lemma {:induction false} PointUpdate(m: seq<byte>, at: Path, i: Index, w: Word, p: Path)
    requires Tree(m) && IsTable(at) && Target(m, at).Some? && Depth(p) <= 4
    requires Target(m, Sub(at, i)) == None && !NotPresent(w)
    requires Depth(at) < 3 ==> ZeroPage(m, w / PAGE) && !TablePage(m, w / PAGE)
    ensures Target(Store(m, SlotAddress(Target(m, at).value, i), w), p)
         == if p == Sub(at, i) then Some(w / PAGE) else Target(m, p)
  {
    match p
    case Root =>
    case Sub(q, j) =>
      PointUpdate(m, at, i, w, q);
      var t := Target(m, at).value;
      if q == Sub(at, i) {
        EntryStore(m, t, i, w, w / PAGE, j);
        ZeroEntry(m, w / PAGE, j);
      } else if Target(m, q).Some? {
        EntryStore(m, t, i, w, Target(m, q).value, j);
      }
  }
}
