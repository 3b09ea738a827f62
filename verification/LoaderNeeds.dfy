/** Conditions on a file and on the machine under which load_file is ready at every section. */
module LoaderNeeds {
  import opened Common
  import opened Layout
  import opened Allocator
  import opened PageTable
  import opened MemoryMap
  import opened Insertion
  import opened Translation
  import opened Refinement
  import opened Requests
  import opened Invariants
  import opened Reservation
  import opened Elf
  import opened Loading
  import opened Cursor

  /** The mappings that a file asks for. */
  function LoadRequests(shs: seq<Section>): seq<Request>
    decreases |shs|
  {
    if shs == [] then []
    else if Skipped(shs[0]) then LoadRequests(shs[1..])
    else [Request(shs[0].addr, shs[0].addr)] + LoadRequests(shs[1..])
  }

  // ---------- The budget of a load ----------

  /** What a caller of the section loop can check beforehand: room for k tables that no section starts on, no table or
      free page among the pages that sections run into, and a right cursor over pages that are unseen or mapped. */
  ghost predicate FileReady(ls: LoadState, shs: seq<Section>, k: nat) {
    && Budget(ls.st, LoadRequests(shs), k)
    && (forall i :: 0 <= i < |shs| && !Skipped(shs[i]) ==>
          SectionFits(ls, shs[i]) && OverflowSafe(ls.st, shs[i]) && SeenIsMapped(ls, shs[i]))
    && CursorRight(ls.pages, ls.newPage, shs)
  }

  ghost predicate SeenIsMapped(ls: LoadState, sh: Section)
    requires sh.addr / PAGE < |ls.pages|
  {
    ls.pages[sh.addr / PAGE] != 0 ==> sh.addr / PAGE in Space(ls.st.mem)
  }

  lemma {:induction false} RequestsOfFile(shs: seq<Section>, r: Request)
    requires r in LoadRequests(shs)
    ensures exists i :: 0 <= i < |shs| && !Skipped(shs[i]) && r == Request(shs[i].addr, shs[i].addr)
    decreases |shs|
  {
    hide Skipped;
    if shs != [] && r in LoadRequests(shs[1..]) {
      RequestsOfFile(shs[1..], r);
      var i :| 0 <= i < |shs[1..]| && !Skipped(shs[1..][i]) && r == Request(shs[1..][i].addr, shs[1..][i].addr);
      assert shs[i + 1] == shs[1..][i];
    } else {
      assert r == Request(shs[0].addr, shs[0].addr) && !Skipped(shs[0]);
    }
  }

  /** The budget depends on the targets and the dictionary only. */
  lemma {:induction false} BudgetSameTargets(s: State, s': State, reqs: seq<Request>, k: nat)
    requires Budget(s, reqs, k) && s'.dico == s.dico && |s'.mem| == |s.mem|
    requires forall p :: Depth(p) <= 4 ==> Target(s'.mem, p) == Target(s.mem, p)
    ensures Budget(s', reqs, k)
  {
    hide Target, Leaf, FreeList;
    forall r, p | r in reqs && p in TablesOf(r.virt)
      ensures Depth(p) <= 4
    {
      AboveIsPrefix(Leaf(r.virt), p);
    }
    assert MissingTables(s'.mem, reqs) == MissingTables(s.mem, reqs);
    forall r | r in reqs
      ensures FrameSafe(s', r, k)
    {
      assert FrameSafe(s, r, k);
    }
  }

  lemma {:induction false} BudgetOfSome(s: State, some: seq<Request>, all: seq<Request>, k: nat)
    requires Budget(s, all, k) && Explicit(all) && forall r :: r in some ==> r in all
    ensures Budget(s, some, k)
  {
    hide FrameSafe, EnoughPages, MissingTables, Picks;
    ExplicitPicks(some);
    MissingOfSome(s.mem, some, all);
    SubsetSize(MissingTables(s.mem, some), MissingTables(s.mem, all));
  }

  // ---------- From the conditions to readiness ----------

  /** The first section of a list that meets the conditions is ready. */
  lemma {:induction false} FirstIsReady(ls: LoadState, shs: seq<Section>, k: nat)
    requires FileReady(ls, shs, k) && shs != [] && !Skipped(shs[0])
    ensures SectionReady(ls, shs[0])
    ensures ls.pages[shs[0].addr / PAGE] == 0 ==>
              && shs[0].addr / PAGE < |ls.st.dico|
              && Budget(ReservedState(ls.st, shs[0].addr), LoadRequests(shs), k)
              && WithinFree(ls.st.dico, k, ReservedState(ls.st, shs[0].addr).dico, k)
  {
    hide Target, Leaf, MissingTables, EnoughPages, Space, Vpn, Ready, FreeList, TablePage, OutOfReach;
    var sh := shs[0];
    var page, r := sh.addr / PAGE, Request(sh.addr, sh.addr);
    assert r in LoadRequests(shs);
    if ls.pages[page] == 0 {
      assert FrameSafe(ls.st, r, k) && sh.addr != 0 && RequestFrame(r) == page;
      assert k <= |Free(ls.st.dico)| by { BudgetFits(ls.st, LoadRequests(shs), k); }
      BudgetReserved(ls.st, {page}, LoadRequests(shs), k);
      assert Marking(ls.st.dico, {page}) == Mark(ls.st.dico, page);
      BudgetReady(ReservedState(ls.st, sh.addr), LoadRequests(shs), k, r);
    } else {
      SmallVpn(sh.addr);
    }
  }

  lemma {:induction false} BudgetFits(s: State, reqs: seq<Request>, k: nat)
    requires Budget(s, reqs, k)
    ensures k <= |Free(s.dico)|
  {
  }

  lemma {:induction false} LoadIsExplicit(shs: seq<Section>)
    ensures Explicit(LoadRequests(shs))
    decreases |shs|
  {
    if shs != [] {
      LoadIsExplicit(shs[1..]);
    }
  }

  /** What loading the first section leaves of the budget. */
  lemma {:induction false} BudgetAfterSection(ls: LoadState, file: seq<byte>, shs: seq<Section>, k: nat)
    returns (left: nat)
    requires WellFormed(ls.st) && Identity(ls.st.mem) && FileReady(ls, shs, k) && shs != [] && !Skipped(shs[0])
    requires SectionReady(ls, shs[0]) && LoadSection(ls, file, shs[0]).Ok?
    ensures Budget(LoadSection(ls, file, shs[0]).value.st, LoadRequests(shs[1..]), left)
    ensures WithinFree(ls.st.dico, k, LoadSection(ls, file, shs[0]).value.st.dico, left)
  {
    hide WellFormed, Identity, Map, Budget, Space, MapSection, CopySection, Target, Vpn, Skipped, CursorRight,
         SeenIsMapped, Ready, DataPage, FreeList, KeepsData, Pruned, Extends, ReadsFile;
    var sh, reqs := shs[0], LoadRequests(shs);
    assert reqs[1..] == LoadRequests(shs[1..]);
    BudgetFits(ls.st, reqs, k);
    if ls.pages[sh.addr / PAGE] == 0 {
      FirstIsReady(ls, shs, k);
      var s1 := ReservedState(ls.st, sh.addr);
      MapSectionEffect(ls, sh.addr);
      assert Invalidate(ls.st, sh.addr / PAGE) == Ok(s1);
      InvalidateKeeps(ls.st, sh.addr / PAGE);
      left := BudgetStep(s1, reqs, k);
      FirstOfPage(ls, sh);
      ExtendsLength(ls.st.mem, MapSection(ls, sh.addr).value.st.mem);
      BudgetAfterCopy(MapSection(ls, sh.addr).value, file, sh, reqs[1..], left);
    } else {
      SmallVpn(sh.addr);
      MappedIsData(ls.st, sh.addr);
      LoadIsExplicit(shs);
      BudgetOfSome(ls.st, reqs[1..], reqs, k);
      left := k;
      BudgetAfterCopy(ls, file, sh, reqs[1..], left);
    }
  }

  lemma {:induction false} BudgetAfterCopy(ls: LoadState, file: seq<byte>, sh: Section, reqs: seq<Request>, k: nat)
    requires WellFormed(ls.st) && SectionFits(ls, sh) && !Skipped(sh) && SectionPages(ls.st, sh)
    requires ls.newPage == sh.addr / PAGE * PAGE && Budget(ls.st, reqs, k)
    ensures CopySection(ls, file, sh).Ok? && Budget(CopySection(ls, file, sh).value.st, reqs, k)
    ensures CopySection(ls, file, sh).value.st.dico == ls.st.dico
  {
    hide WellFormed, Budget, Space, Target, SectionPages, SectionBytes, Skipped, KeepsData;
    CopyEffect(ls, file, sh);
    BudgetSameTargets(ls.st, CopySection(ls, file, sh).value.st, reqs, k);
  }

  /** The conditions carry over to the rest of the sections. */
  lemma {:induction false} RestIsReady(ls: LoadState, file: seq<byte>, shs: seq<Section>, k: nat) returns (left: nat)
    requires WellFormed(ls.st) && Identity(ls.st.mem) && FileReady(ls, shs, k) && shs != [] && !Skipped(shs[0])
    requires SectionReady(ls, shs[0])
    ensures LoadSection(ls, file, shs[0]).Ok? && FileReady(LoadSection(ls, file, shs[0]).value, shs[1..], left)
    ensures WithinFree(ls.st.dico, k, LoadSection(ls, file, shs[0]).value.st.dico, left)
  {
    hide WithinFree, SectionPages, Target, FileReady, LoadSection, Budget, Space, WellFormed, Identity, DataPage,
         OverflowSafe, Ready, Pruned, EntryByte, SectionByte, Skipped, KeepsData;
    SectionStep(ls, file, shs[0]);
    left := BudgetAfterSection(ls, file, shs, k);
    RestConditions(ls, LoadSection(ls, file, shs[0]).value, shs, k, left);
  }

  lemma {:induction false} RestConditions(ls: LoadState, ls': LoadState, shs: seq<Section>, k: nat, left: nat)
    requires FileReady(ls, shs, k) && shs != [] && !Skipped(shs[0])
    requires |ls'.st.mem| == |ls.st.mem| && Budget(ls'.st, LoadRequests(shs[1..]), left) && KeepsData(ls.st, ls'.st)
    requires var page := shs[0].addr / PAGE;
             && page < |ls.pages| && (ls.pages[page] != 0 ==> ls.newPage == page * PAGE)
             && Space(ls'.st.mem) == Space(ls.st.mem)[page := page] && ls'.newPage == page * PAGE
             && ls'.pages == ls.pages[page := if ls.pages[page] == 0 then 1 else ls.pages[page]]
    ensures FileReady(ls', shs[1..], left)
  {
    hide Budget, Space, Skipped, DataPage, Touches;
    var page := shs[0].addr / PAGE;
    assert ls.pages[page] != 0 ==> ls'.pages == ls.pages;
    forall i | 0 <= i < |shs[1..]| && !Skipped(shs[1..][i])
      ensures SectionFits(ls', shs[1..][i]) && OverflowSafe(ls'.st, shs[1..][i]) && SeenIsMapped(ls', shs[1..][i])
    {
      assert shs[1..][i] == shs[i + 1];
      assert SectionFits(ls, shs[i + 1]) && OverflowSafe(ls.st, shs[i + 1]) && SeenIsMapped(ls, shs[i + 1]);
    }
  }

  /** The conditions suffice: every section is ready when its turn comes. */
  lemma {:induction false} ConditionsSuffice(ls: LoadState, file: seq<byte>, shs: seq<Section>, k: nat)
    requires WellFormed(ls.st) && Identity(ls.st.mem) && FileReady(ls, shs, k)
    ensures AllReady(ls, file, shs)
    decreases |shs|
  {
    hide WellFormed, Identity, FileReady, LoadSection, Space, Skipped, SectionFits, Ready, Target, WithinFree,
         SectionPages, KeepsTargets, KeepsData, OverflowSafe;
    if shs != [] {
      if Skipped(shs[0]) {
        SkipReady(ls, file, shs, k);
        ConditionsSuffice(ls, file, shs[1..], k);
      } else {
        FirstIsReady(ls, shs, k);
        var left := RestIsReady(ls, file, shs, k);
        SectionStep(ls, file, shs[0]);
        ConditionsSuffice(LoadSection(ls, file, shs[0]).value, file, shs[1..], left);
      }
    }
  }

  lemma {:induction false} SkipReady(ls: LoadState, file: seq<byte>, shs: seq<Section>, k: nat)
    requires FileReady(ls, shs, k) && shs != [] && Skipped(shs[0])
    ensures LoadSection(ls, file, shs[0]) == Ok(ls) && FileReady(ls, shs[1..], k)
  {
    hide Budget, Space, OverflowSafe;
    forall i | 0 <= i < |shs[1..]| && !Skipped(shs[1..][i])
      ensures SectionFits(ls, shs[1..][i]) && OverflowSafe(ls.st, shs[1..][i]) && SeenIsMapped(ls, shs[1..][i])
    {
      assert shs[1..][i] == shs[i + 1];
    }
  }
}
