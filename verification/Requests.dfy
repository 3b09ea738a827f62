/** Runs of memory_map calls: the pages they need together, and what they do to the address space. */
module Requests {
  import opened Common
  import opened Layout
  import opened Word64
  import opened Allocator
  import opened PageTable
  import opened MemoryMap
  import opened Insertion
  import opened Translation
  import opened Refinement

  datatype Request = Request(virt: Word, phys: Word)

  function MapAll(s: State, reqs: seq<Request>): Outcome<State>
    decreases |reqs|
  {
    if reqs == [] then Ok(s)
    else
      var s1 :- Map(s, reqs[0].virt, reqs[0].phys);
      MapAll(s1, reqs[1..])
  }

  // ---------- A budget for a whole run ----------

  /** The three tables above a leaf. */
  function Above(leaf: Path): set<Path>
    requires Depth(leaf) == 4
  {
    var p3 := leaf.parent;
    assert Depth(p3) == 3;
    assert Depth(p3.parent) == 2;
    {p3, p3.parent, p3.parent.parent}
  }

  function TablesOf(v: Word): set<Path> {
    Above(Leaf(v))
  }

  ghost function MissingTables(m: seq<byte>, reqs: seq<Request>): set<Path> {
    set r, p | r in reqs && p in TablesOf(r.virt) && Target(m, p) == None :: p
  }

  function RequestFrame(r: Request): nat {
    if r.virt == 0 then 0 else r.phys / PAGE
  }

  /** A request without a frame takes one page more, besides its tables. */
  function Picks(r: Request): nat {
    if r.virt != 0 && r.phys == 0 then 1 else 0
  }

  function PickCount(reqs: seq<Request>): nat
    decreases |reqs|
  {
    if reqs == [] then 0 else Picks(reqs[0]) + PickCount(reqs[1..])
  }

  ghost predicate Explicit(reqs: seq<Request>) {
    forall r :: r in reqs ==> Picks(r) == 0
  }

  /** A frame that the caller gives is in the dictionary, is no table, and is not one of the first k free pages. */
  ghost predicate FrameSafe(s: State, r: Request, k: nat) {
    r.virt != 0 && r.phys != 0 ==>
      && RequestFrame(r) < |s.dico| && !TablePage(s.mem, RequestFrame(r))
      && (k <= |Free(s.dico)| ==> RequestFrame(r) !in Free(s.dico)[..k])
  }

  /** The run needs at most k pages for tables and for requests without a frame, k are free in guest memory, and no
      frame that a request gives is among them. */
  ghost predicate Budget(s: State, reqs: seq<Request>, k: nat) {
    && |MissingTables(s.mem, reqs)| + PickCount(reqs) <= k && EnoughPages(s, k)
    && forall r :: r in reqs ==> FrameSafe(s, r, k)
  }

  lemma {:induction false} AboveIsPrefix(leaf: Path, p: Path)
    requires Depth(leaf) == 4
    ensures p in Above(leaf) <==> 1 <= Depth(p) <= 3 && IsPrefix(p, leaf)
  {
    var p3 := leaf.parent;
    assert Depth(p3) == 3;
    var p2 := p3.parent;
    assert Depth(p2) == 2;
    var p1 := p2.parent;
    assert Depth(p1) == 1 && Depth(p1.parent) == 0;
    assert IsPrefix(p, leaf) <==> p == leaf || IsPrefix(p, p3);
    assert IsPrefix(p, p3) <==> p == p3 || IsPrefix(p, p2);
    assert IsPrefix(p, p2) <==> p == p2 || IsPrefix(p, p1);
    assert IsPrefix(p, p1) <==> p == p1 || p == Root;
  }

  /** One call needs as many pages as it has tables missing. */
  lemma {:induction false} MissingCount(m: seq<byte>, r: Request)
    ensures MissingLevels(m, r.virt) == |MissingTables(m, [r])|
  {
    var v := r.virt;
    var p1 := Sub(Root, PgdIndex(v));
    var p2 := Sub(p1, PudIndex(v));
    var p3 := Sub(p2, PmdIndex(v));
    assert TablesOf(v) == {p1, p2, p3};
    assert Depth(p1) == 1 && Depth(p2) == 2 && Depth(p3) == 3;
    var rest: seq<Index> := [PudIndex(v), PmdIndex(v), PteIndex(v)];
    assert rest[1..][1..] == [PteIndex(v)];
    assert Missing(m, p3, [PteIndex(v)]) == if Target(m, p3) == None then 1 else 0;
    assert Missing(m, p2, rest[1..]) == (if Target(m, p2) == None then 1 else 0) + Missing(m, p3, rest[1..][1..]);
    if Target(m, p1) == None {
      assert MissingTables(m, [r]) == {p1, p2, p3};
    } else if Target(m, p2) == None {
      assert MissingTables(m, [r]) == {p2, p3};
    } else if Target(m, p3) == None {
      assert MissingTables(m, [r]) == {p3};
    } else {
      assert MissingTables(m, [r]) == {};
    }
  }

  lemma {:induction false} SubsetSize<T>(a: set<T>, b: set<T>)
    requires a <= b
    ensures |a| <= |b| && |b - a| == |b| - |a|
  {
    assert b == a + (b - a);
  }

  lemma {:induction false} MissingOfSome(m: seq<byte>, some: seq<Request>, all: seq<Request>)
    requires forall r :: r in some ==> r in all
    ensures MissingTables(m, some) <= MissingTables(m, all)
  {
  }

  lemma {:induction false} FreeWithinBudget(s: State, n: nat, k: nat)
    requires n <= k && EnoughPages(s, k)
    ensures EnoughPages(s, n)
  {
    FreeListElements(s.dico, 2);
  }

  lemma {:induction false} PickCountOf(reqs: seq<Request>, r: Request)
    requires r in reqs
    ensures Picks(r) <= PickCount(reqs)
    decreases |reqs|
  {
    hide Picks;
    if r != reqs[0] {
      PickCountOf(reqs[1..], r);
    }
  }

  lemma {:induction false} ExplicitPicks(reqs: seq<Request>)
    requires Explicit(reqs)
    ensures PickCount(reqs) == 0
    decreases |reqs|
  {
    hide Picks;
    if reqs != [] {
      ExplicitPicks(reqs[1..]);
    }
  }

  /** Every call of a run within budget is ready. */
  lemma {:induction false} BudgetReady(s: State, reqs: seq<Request>, k: nat, r: Request)
    requires Budget(s, reqs, k) && r in reqs
    ensures MissingLevels(s.mem, r.virt) + Picks(r) <= k
    ensures Ready(s, r.virt, r.phys)
    ensures Picks(r) == 0 ==> NewFrame(s, r.virt, r.phys) == RequestFrame(r)
    ensures Picks(r) == 1 ==> NewFrame(s, r.virt, r.phys) in Free(s.dico)[..k]
  {
    hide Leaf, Target, TablePage, Missing, FreeList, TablesOf, InMemory, MissingTables;
    PickCountOf(reqs, r);
    MissingCount(s.mem, r);
    MissingOfSome(s.mem, [r], reqs);
    SubsetSize(MissingTables(s.mem, [r]), MissingTables(s.mem, reqs));
    FreeWithinBudget(s, MissingLevels(s.mem, r.virt), k);
  }

  // ---------- One call of a run ----------

  /** The first left free pages of the later dictionary e are among the first k of d. */
  ghost predicate WithinFree(d: Dico, k: nat, e: Dico, left: nat) {
    left <= |Free(e)| && k <= |Free(d)| && forall x :: x in Free(e)[..left] ==> x in Free(d)[..k]
  }

  /** The tables that the run still misses after its first call. */
  lemma {:induction false} MissingAfter(s: State, r: Outcome<State>, reqs: seq<Request>, n: nat)
    requires reqs != [] && Target(s.mem, Leaf(reqs[0].virt)) == None && n <= |Free(s.dico)|
    requires Inserted(s, r, Leaf(reqs[0].virt), n, reqs[0].virt, reqs[0].phys)
    ensures MissingTables(r.value.mem, reqs[1..]) <= MissingTables(s.mem, reqs) - MissingTables(s.mem, [reqs[0]])
  {
    hide WellFormed, Marked, NewTables, LeafFrame, Leaf, Above;
    var m := r.value.mem;
    forall p | p in MissingTables(m, reqs[1..])
      ensures p in MissingTables(s.mem, reqs) && p !in MissingTables(s.mem, [reqs[0]])
    {
      var q :| q in reqs[1..] && p in TablesOf(q.virt);
      AboveIsPrefix(Leaf(q.virt), p);
      AboveIsPrefix(Leaf(reqs[0].virt), p);
      assert q in reqs && Depth(p) <= 4;
      assert Target(s.mem, p) == None;
      if p in TablesOf(reqs[0].virt) {
        PrefixPresent(m, p, Leaf(reqs[0].virt));
        assert false;
      }
    }
  }

  /** The free pages that remain in the budget. */
  lemma {:induction false} FreeAfterCall(s: State, dico: Dico, n: nat, k: nat, r: Request)
    requires n + Picks(r) <= k && EnoughPages(s, k) && FrameSafe(s, r, k) && Marked(s, dico, n, r.virt, r.phys)
    ensures k - n - Picks(r) <= |Free(dico)| && Free(dico)[..k - n - Picks(r)] == Free(s.dico)[n + Picks(r)..k]
  {
    hide InMemory, TablePage;
    FreeListElements(s.dico, 2);
    var free, taken := Free(s.dico), n + Picks(r);
    assert Picks(r) == 1 ==> free[..taken] == free[..n] + [free[n]] && LeafFrame(s, n, r.virt, r.phys) == free[n];
    forall x | x in free[taken..k]
      ensures x < |dico| && dico[x] == 0
    {
      assert x in free && x !in free[..taken];
      assert x in free[..k] by { assert free[taken..k] == free[..k][taken..]; }
    }
    FreeAfter(s.dico, dico, 2, taken, k);
  }

  lemma {:induction false} FrameSafeAfter(
    s: State, r: Outcome<State>, leaf: Path, n: nat, taken: nat, k: nat, first: Request, other: Request)
    requires n <= taken <= k && EnoughPages(s, k) && FrameSafe(s, other, k)
    requires Inserted(s, r, leaf, n, first.virt, first.phys) && Depth(leaf) == 4
    requires k - taken <= |Free(r.value.dico)| && Free(r.value.dico)[..k - taken] == Free(s.dico)[taken..k]
    ensures FrameSafe(r.value, other, k - taken)
  {
    hide WellFormed, LeafFrame, FreeList, InMemory, IsPrefix;
    var free, f := Free(s.dico), RequestFrame(other);
    if other.virt != 0 && other.phys != 0 {
      assert free[..n] <= free[..k] && free[taken..k] == free[..k][taken..];
      forall q | IsTable(q)
        ensures Target(r.value.mem, q) != Some(f)
      {
        assert q != leaf;
        assert Target(s.mem, q) != Some(f);
      }
    }
  }

  /** After one call the rest of the run is within the rest of the budget. */
  lemma {:induction false} BudgetStep(s: State, reqs: seq<Request>, k: nat) returns (left: nat)
    requires WellFormed(s) && Budget(s, reqs, k) && reqs != []
    ensures Map(s, reqs[0].virt, reqs[0].phys).Ok?
    ensures Budget(Map(s, reqs[0].virt, reqs[0].phys).value, reqs[1..], left)
    ensures WithinFree(s.dico, k, Map(s, reqs[0].virt, reqs[0].phys).value.dico, left)
  {
    hide WellFormed, Map, Leaf, TablesOf, Target, InMemory, FreeList, NewFrame, Inserted, FrameSafe, MissingTables;
    var r0 := reqs[0];
    BudgetReady(s, reqs, k, r0);
    if Target(s.mem, Leaf(r0.virt)).Some? {
      MapIsIdempotent(s, r0.virt, r0.phys);
      MissingOfSome(s.mem, reqs[1..], reqs);
      SubsetSize(MissingTables(s.mem, reqs[1..]), MissingTables(s.mem, reqs));
      assert PickCount(reqs[1..]) <= PickCount(reqs);
      left := k;
    } else {
      MapInserts(s, r0.virt, r0.phys);
      var n, r := MissingLevels(s.mem, r0.virt), Map(s, r0.virt, r0.phys);
      left := k - n - Picks(r0);
      BudgetAfterInsert(s, r, reqs, n, k);
      assert Free(s.dico)[n + Picks(r0)..k] == Free(s.dico)[..k][n + Picks(r0)..];
    }
  }

  lemma {:induction false} EnoughLeft(s: State, s': State, n: nat, k: nat)
    requires n <= k && EnoughPages(s, k) && |s'.mem| == |s.mem|
    requires k - n <= |Free(s'.dico)| && Free(s'.dico)[..k - n] == Free(s.dico)[n..k]
    ensures EnoughPages(s', k - n)
  {
    hide FreeList;
    if k > n {
      assert Free(s'.dico)[k - n - 1] == Free(s'.dico)[..k - n][k - n - 1];
      assert Free(s.dico)[n..k][k - n - 1] == Free(s.dico)[k - 1];
    }
  }

  lemma {:induction false} BudgetAfterInsert(s: State, r: Outcome<State>, reqs: seq<Request>, n: nat, k: nat)
    requires Budget(s, reqs, k) && reqs != [] && Target(s.mem, Leaf(reqs[0].virt)) == None
    requires n == MissingLevels(s.mem, reqs[0].virt) && n + Picks(reqs[0]) <= k
    requires Inserted(s, r, Leaf(reqs[0].virt), n, reqs[0].virt, reqs[0].phys)
    ensures var taken := n + Picks(reqs[0]);
            && r.Ok? && Budget(r.value, reqs[1..], k - taken)
            && k - taken <= |Free(r.value.dico)| && Free(r.value.dico)[..k - taken] == Free(s.dico)[taken..k]
  {
    hide WellFormed, Leaf, TablesOf, Target, FreeList, NewTables, FrameSafe, LeafFrame, MissingTables, MissingLevels,
         NewEntryByte, Marked, InMemory, Picks;
    var r0 := reqs[0];
    var taken := n + Picks(r0);
    MissingAfter(s, r, reqs, n);
    MissingCount(s.mem, r0);
    var all, one := MissingTables(s.mem, reqs), MissingTables(s.mem, [r0]);
    MissingOfSome(s.mem, [r0], reqs);
    SubsetSize(one, all);
    SubsetSize(MissingTables(r.value.mem, reqs[1..]), all - one);
    FreeAfterCall(s, r.value.dico, n, k, r0);
    EnoughLeft(s, r.value, taken, k);
    forall q | q in reqs[1..]
      ensures FrameSafe(r.value, q, k - taken)
    {
      assert q in reqs && r0 in reqs;
      FrameSafeAfter(s, r, Leaf(r0.virt), n, taken, k, r0, q);
    }
  }

  // ---------- Whole runs ----------

  function InsertAll(space: map<nat, nat>, reqs: seq<Request>): map<nat, nat>
    decreases |reqs|
  {
    if reqs == [] then space
    else
      var n := Vpn(reqs[0].virt);
      InsertAll(if n in space then space else space[n := RequestFrame(reqs[0])], reqs[1..])
  }

  /** The request with the frame that it gets: a request without one gets a page of the allocator. */
  function ResolvedOne(s: State, r: Request): Request {
    if Picks(r) == 0 || NewFrame(s, r.virt, r.phys) >= 0x8_0000 then r
    else Request(r.virt, NewFrame(s, r.virt, r.phys) * PAGE)
  }

  function Resolved(s: State, reqs: seq<Request>): (all: seq<Request>)
    ensures |all| == |reqs|
    decreases |reqs|
  {
    if reqs == [] then []
    else
      match Map(s, reqs[0].virt, reqs[0].phys)
      case Fault => reqs
      case Ok(s1) => [ResolvedOne(s, reqs[0])] + Resolved(s1, reqs[1..])
  }

  lemma {:induction false} ResolvedExplicit(s: State, reqs: seq<Request>)
    requires Explicit(reqs)
    ensures Resolved(s, reqs) == reqs
    decreases |reqs|
  {
    hide Map, NewFrame, Picks;
    if reqs != [] && Map(s, reqs[0].virt, reqs[0].phys).Ok? {
      ResolvedExplicit(Map(s, reqs[0].virt, reqs[0].phys).value, reqs[1..]);
    }
  }

  lemma {:induction false} MapExtends(s: State, virt: Word, phys: Word)
    requires WellFormed(s) && Ready(s, virt, phys)
    ensures Map(s, virt, phys).Ok? && Extends(s.mem, Map(s, virt, phys).value.mem)
    ensures |Map(s, virt, phys).value.dico| == |s.dico|
  {
    hide WellFormed, Map, Leaf, Target, NewEntryByte, NewTables, LeafFrame, Ready, FreeList;
    if Target(s.mem, Leaf(virt)).Some? {
      MapIsIdempotent(s, virt, phys);
    } else {
      MapInserts(s, virt, phys);
    }
  }

  /** The tables that a call adds sit on free pages of its budget. */
  lemma {:induction false} NewTablesInBudget(s: State, r: Request, k: nat, t: nat)
    requires WellFormed(s) && Ready(s, r.virt, r.phys) && MissingLevels(s.mem, r.virt) <= k <= |Free(s.dico)|
    requires Map(s, r.virt, r.phys).Ok? && TablePage(Map(s, r.virt, r.phys).value.mem, t)
    ensures TablePage(s.mem, t) || t in Free(s.dico)[..k]
  {
    hide WellFormed, Map, Leaf, Target, Marked, Extends, LeafFrame, MissingLevels, FreeList, IsPrefix;
    if Target(s.mem, Leaf(r.virt)).Some? {
      MapIsIdempotent(s, r.virt, r.phys);
    } else {
      var n, m := MissingLevels(s.mem, r.virt), Map(s, r.virt, r.phys).value.mem;
      MapInserts(s, r.virt, r.phys);
      var p :| IsTable(p) && Target(m, p) == Some(t);
      assert p != Leaf(r.virt);
      if Target(s.mem, p) == None {
        assert t in Free(s.dico)[..n];
        assert Free(s.dico)[..n] == Free(s.dico)[..k][..n];
      } else {
        assert Target(s.mem, p) == Some(t) by { SameOnPresent(s.mem, m, p); }
        assert TablePage(s.mem, t);
      }
    }
  }

  lemma {:induction false} SameOnPresent(m: seq<byte>, m': seq<byte>, p: Path)
    requires Extends(m, m') && Depth(p) <= 4 && Target(m, p).Some?
    ensures Target(m', p) == Target(m, p)
  {
  }

  /** A run within budget never leaves guest memory, keeps the state well-formed, and inserts its requests in turn. */
  lemma {:induction false} MapAllRefinesInsertAll(s: State, reqs: seq<Request>, k: nat)
    requires WellFormed(s) && Budget(s, reqs, k)
    ensures MapAll(s, reqs).Ok? && WellFormed(MapAll(s, reqs).value)
    ensures Space(MapAll(s, reqs).value.mem) == InsertAll(Space(s.mem), Resolved(s, reqs))
    ensures Extends(s.mem, MapAll(s, reqs).value.mem) && |MapAll(s, reqs).value.dico| == |s.dico|
    ensures k <= |Free(s.dico)| && forall t :: TablePage(MapAll(s, reqs).value.mem, t) ==>
              TablePage(s.mem, t) || t in Free(s.dico)[..k]
    ensures forall i :: 0 <= i < |reqs| && Picks(reqs[i]) == 1 ==>
            RequestFrame(Resolved(s, reqs)[i]) in Free(s.dico)[..k]
    decreases |reqs|
  {
    hide WellFormed, Map, Space, Vpn, Extends, NewFrame, RequestFrame, Ready, TablePage, MissingTables, FrameSafe,
         FreeList, InMemory;
    if reqs == [] {
      ExtendsReflexive(s.mem);
    } else {
      var r0 := reqs[0];
      BudgetReady(s, reqs, k, r0);
      ResolvedFrame(s, r0, k);
      MapRefinesInsert(s, r0.virt, r0.phys);
      MapExtends(s, r0.virt, r0.phys);
      var left := BudgetStep(s, reqs, k);
      var s1 := Map(s, r0.virt, r0.phys).value;
      MapAllRefinesInsertAll(s1, reqs[1..], left);
      ExtendsTransitive(s.mem, s1.mem, MapAll(s, reqs).value.mem);
      forall t: nat | TablePage(MapAll(s, reqs).value.mem, t)
        ensures TablePage(s.mem, t) || t in Free(s.dico)[..k]
      {
        if TablePage(s1.mem, t) {
          NewTablesInBudget(s, r0, k, t);
        }
      }
    }
  }

  lemma {:induction false} ResolvedFrame(s: State, r: Request, k: nat)
    requires Picks(r) == 0 ==> NewFrame(s, r.virt, r.phys) == RequestFrame(r)
    requires k <= |Free(s.dico)| && (Picks(r) == 1 ==> NewFrame(s, r.virt, r.phys) in Free(s.dico)[..k])
    ensures ResolvedOne(s, r).virt == r.virt && RequestFrame(ResolvedOne(s, r)) == NewFrame(s, r.virt, r.phys)
  {
    hide NewFrame, FreeList;
    FreeListElements(s.dico, 2);
    if Picks(r) == 1 {
      assert NewFrame(s, r.virt, r.phys) in Free(s.dico);
    }
  }

  lemma {:induction false} ExtendsReflexive(m: seq<byte>)
    ensures Extends(m, m)
  {
  }

  // ---------- The order of a run does not matter ----------

  ghost predicate DistinctPages(reqs: seq<Request>) {
    forall i, j :: 0 <= i < j < |reqs| ==> Vpn(reqs[i].virt) != Vpn(reqs[j].virt)
  }

  /** The page numbers that a run asks for. */
  ghost function Pages(reqs: seq<Request>): set<nat> {
    set r | r in reqs :: Vpn(r.virt)
  }

  /** Requests for distinct pages end up in the address space unless the page was mapped before. */
  lemma {:induction false} InsertAllContents(space: map<nat, nat>, reqs: seq<Request>)
    requires DistinctPages(reqs)
    ensures InsertAll(space, reqs).Keys == space.Keys + Pages(reqs)
    ensures forall n :: n in space ==> InsertAll(space, reqs)[n] == space[n]
    ensures forall r :: r in reqs && Vpn(r.virt) !in space ==> InsertAll(space, reqs)[Vpn(r.virt)] == RequestFrame(r)
    decreases |reqs|
  {
    hide Vpn, RequestFrame;
    if reqs != [] {
      var r0, rest := reqs[0], reqs[1..];
      var n := Vpn(r0.virt);
      var next := if n in space then space else space[n := RequestFrame(r0)];
      InsertAllContents(next, rest);
      assert reqs == [r0] + rest;
      assert next.Keys == space.Keys + {n};
      forall r | r in reqs && Vpn(r.virt) !in space
        ensures InsertAll(space, reqs)[Vpn(r.virt)] == RequestFrame(r)
      {
        if r in rest {
          var j :| 0 <= j < |rest| && rest[j] == r;
          assert reqs[j + 1] == r && Vpn(r.virt) != n;
        }
      }
    }
  }

  lemma {:induction false} SameMembers<T>(a: seq<T>, b: seq<T>)
    requires multiset(a) == multiset(b)
    ensures forall x :: x in a <==> x in b
  {
    assert forall x :: x in a <==> x in multiset(a);
    assert forall x :: x in b <==> x in multiset(b);
  }

  lemma {:induction false} BudgetOfMembers(s: State, reqs: seq<Request>, other: seq<Request>, k: nat)
    requires Budget(s, reqs, k) && Explicit(reqs) && forall r :: r in reqs <==> r in other
    ensures Budget(s, other, k) && Explicit(other)
  {
    hide FrameSafe, EnoughPages, Picks;
    ExplicitPicks(other);
    MissingOfSome(s.mem, reqs, other);
    MissingOfSome(s.mem, other, reqs);
    assert MissingTables(s.mem, reqs) == MissingTables(s.mem, other);
  }

  /** Whatever order calls with frames come in, the resulting translations are the same, though the tables may sit
      elsewhere. */
  lemma {:induction false} OrderIndependence(s: State, reqs: seq<Request>, other: seq<Request>, k: nat, v: Word)
    requires WellFormed(s) && Budget(s, reqs, k) && Explicit(reqs)
    requires DistinctPages(reqs) && multiset(reqs) == multiset(other)
    ensures MapAll(s, reqs).Ok? && MapAll(s, other).Ok?
    ensures Space(MapAll(s, reqs).value.mem) == Space(MapAll(s, other).value.mem)
    ensures GvaToGpa(MapAll(s, reqs).value.mem, v) == GvaToGpa(MapAll(s, other).value.mem, v)
  {
    hide Space, Vpn, MapAll, GvaToGpa, Budget, DistinctPages, Used, GoodFrame, ZeroPage;
    SameMembers(reqs, other);
    BudgetOfMembers(s, reqs, other, k);
    ResolvedExplicit(s, reqs);
    ResolvedExplicit(s, other);
    MapAllRefinesInsertAll(s, reqs, k);
    MapAllRefinesInsertAll(s, other, k);
    PermutedDistinct(reqs, other);
    SameInsertions(Space(s.mem), reqs, other);
    var m, m' := MapAll(s, reqs).value.mem, MapAll(s, other).value.mem;
    SameSpaceSameTranslation(m, m', v);
  }

  lemma {:induction false} SameInsertions(space: map<nat, nat>, reqs: seq<Request>, other: seq<Request>)
    requires DistinctPages(reqs) && DistinctPages(other) && forall r :: r in reqs <==> r in other
    ensures InsertAll(space, reqs) == InsertAll(space, other)
  {
    hide Vpn, RequestFrame, DistinctPages;
    InsertAllContents(space, reqs);
    InsertAllContents(space, other);
    var a, b := InsertAll(space, reqs), InsertAll(space, other);
    assert a.Keys == b.Keys;
    forall n | n in a
      ensures a[n] == b[n]
    {
      if n !in space {
        var r :| r in reqs && Vpn(r.virt) == n;
      }
    }
  }

  lemma {:induction false} PermutedDistinct(reqs: seq<Request>, other: seq<Request>)
    requires DistinctPages(reqs) && multiset(reqs) == multiset(other)
    ensures DistinctPages(other)
    decreases |reqs|
  {
    hide Vpn;
    forall i, j | 0 <= i < j < |other|
      ensures Vpn(other[i].virt) != Vpn(other[j].virt)
    {
      assert other[i] in multiset(reqs) && other[j] in multiset(reqs);
      if Vpn(other[i].virt) == Vpn(other[j].virt) {
        assert other[i] == other[j] by {
          assert other[i] in reqs && other[j] in reqs;
        }
        TwiceInSeq(other, i, j);
        OnceInDistinct(reqs, other[i]);
        assert false;
      }
    }
  }

  lemma {:induction false} TwiceInSeq<T>(s: seq<T>, i: nat, j: nat)
    requires i < j < |s| && s[i] == s[j]
    ensures multiset(s)[s[i]] >= 2
  {
    assert s == s[..j] + [s[j]] + s[j + 1..];
    assert s[i] in s[..j];
    assert multiset(s) == multiset(s[..j]) + multiset{s[j]} + multiset(s[j + 1..]);
  }

  lemma {:induction false} OnceInDistinct(reqs: seq<Request>, r: Request)
    requires DistinctPages(reqs)
    ensures multiset(reqs)[r] <= 1
    decreases |reqs|
  {
    hide Vpn;
    if reqs != [] {
      assert reqs == [reqs[0]] + reqs[1..];
      OnceInDistinct(reqs[1..], r);
      if reqs[0] == r {
        assert r !in reqs[1..];
      }
    }
  }
}
