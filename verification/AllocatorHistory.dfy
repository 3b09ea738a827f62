/** What the results of allocate_page look like over any run of allocations and reservations. */
module AllocatorHistory {
  import opened Layout
  import opened Allocator

  datatype Event = Allocation | Reservation(page: nat)

  /** The dictionary after a run; reservations outside the dictionary are not part of a run. */
  function After(dico: Dico, run: seq<Event>): (r: Dico)
    requires InBounds(dico, run)
    ensures |r| == |dico|
  {
    if run == [] then dico
    else
      var before := After(dico, run[..|run| - 1]);
      match run[|run| - 1]
      case Allocation => Allocate(before).0
      case Reservation(page) => Mark(before, page)
  }

  predicate InBounds(dico: Dico, run: seq<Event>) {
    forall e :: e in run && e.Reservation? ==> e.page < |dico|
  }

  /** The address returned by the last event of a run, which is an allocation. */
  function LastResult(dico: Dico, run: seq<Event>): nat
    requires InBounds(dico, run) && run != [] && run[|run| - 1] == Allocation
  {
    Allocate(After(dico, run[..|run| - 1])).1
  }

  /** Marks are never removed, and after a result x every page from 2 up to x's is marked: first fit. */
  lemma {:induction false} MarksStay(dico: Dico, run: seq<Event>, n: nat)
    requires InBounds(dico, run) && n <= |run|
    ensures forall x :: 0 <= x < |dico| && After(dico, run[..n])[x] != 0 ==> After(dico, run)[x] != 0
    decreases |run| - n
  {
    if n == |run| {
      assert run[..n] == run;
    } else {
      MarksStay(dico, run, n + 1);
      var next := run[..n + 1];
      assert next[..n] == run[..n] && next[n] == run[n];
      if run[n] == Allocation && Free(After(dico, run[..n])) != [] {
        PopFree(After(dico, run[..n]));
      }
    }
  }

  lemma {:induction false} AllocationFills(dico: Dico)
    ensures var (d, r) := Allocate(dico);
            && (r == 0 ==> forall x :: 2 <= x < |dico| ==> d[x] != 0)
            && (r != 0 ==> 2 <= r / PAGE < |dico| && r % PAGE == 0 && dico[r / PAGE] == 0 &&
                           forall x :: 2 <= x <= r / PAGE ==> d[x] != 0)
  {
    FreeListElements(dico, 2);
    if Free(dico) != [] {
      PopFree(dico);
      var head := Free(dico)[0];
      forall x | 2 <= x <= head
        ensures Mark(dico, head)[x] != 0
      {
        var listed := x in Free(dico);
      }
    }
  }

  /** The n-th event and the last one are allocations: the later result is larger, or 0; after a 0 only 0 follows.
      A nonzero result is a page address in the dictionary that was neither marked at the start nor reserved before. */
  lemma {:induction false} ResultsIncrease(dico: Dico, run: seq<Event>, n: nat)
    requires InBounds(dico, run) && n < |run| - 1 && run[|run| - 1] == Allocation
    ensures var r := LastResult(dico, run);
            && (r != 0 ==> r % PAGE == 0 && 2 * PAGE <= r < |dico| * PAGE && dico[r / PAGE] == 0)
            && (run[n].Reservation? && r != 0 ==> r / PAGE != run[n].page)
            && (run[n] == Allocation ==>
                  var earlier := LastResult(dico, run[..n + 1]);
                  if earlier == 0 then r == 0 else r == 0 || earlier < r)
  {
    var all := run[..|run| - 1];
    var d := After(dico, all);
    AllocationFills(d);
    MarksStay(dico, all, 0);
    assert all[..0] == [];
    MarksStay(dico, all, n + 1);
    assert all[..n + 1] == run[..n + 1] && run[..n + 1][..n] == run[..n] && run[..n + 1][n] == run[n];
    if run[n] == Allocation {
      AllocationFills(After(dico, run[..n]));
    }
  }
}
