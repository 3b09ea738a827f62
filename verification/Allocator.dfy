/** allocate_page and invalidate_page as functions of the page dictionary, and the list of free pages. */
module Allocator {
  import opened Layout

  /** The dictionary has at most 2^19 entries, so that i * 0x1000 fits a C int. */
  type Dico = d: seq<int> | |d| <= 0x8_0000

  /** The unmarked pages from index i on, lowest first. */
  function FreeList(dico: seq<int>, i: nat): seq<nat>
    decreases |dico| - i
  {
    if i >= |dico| then []
    else if dico[i] == 0 then [i] + FreeList(dico, i + 1)
    else FreeList(dico, i + 1)
  }

  /** The allocator never hands out pages 0 and 1. */
  function Free(dico: seq<int>): seq<nat> {
    FreeList(dico, 2)
  }

  function Mark(dico: Dico, page: nat): Dico
    requires page < |dico|
  {
    dico[page := 1]
  }

  /** First fit; the address 0 means that no page is left. */
  function Allocate(dico: Dico): (r: (Dico, nat))
    ensures |r.0| == |dico| && r.1 < 0x8_0000 * PAGE
  {
    var free := Free(dico);
    FreeListElements(dico, 2);
    assert free != [] ==> free[0] in free;
    if free == [] then (dico, 0) else (Mark(dico, free[0]), free[0] * PAGE)
  }

  lemma {:induction false} FreeListElements(dico: seq<int>, i: nat)
    ensures forall x :: x in FreeList(dico, i) <==> i <= x < |dico| && dico[x] == 0
    ensures forall j, k :: 0 <= j < k < |FreeList(dico, i)| ==> FreeList(dico, i)[j] < FreeList(dico, i)[k]
    decreases |dico| - i
  {
    if i < |dico| {
      var list, tail := FreeList(dico, i), FreeList(dico, i + 1);
      FreeListElements(dico, i + 1);
      forall j, k | 0 <= j < k < |list|
        ensures list[j] < list[k]
      {
        if dico[i] == 0 {
          assert list[k] == tail[k - 1] && tail[k - 1] in tail;
        }
      }
    }
  }

  /** If the first n free pages get marked and the next ones up to position k do not,
      those next ones are the first free pages afterwards. */
  lemma {:induction false} FreeAfter(d: seq<int>, e: seq<int>, i: nat, n: nat, k: nat)
    requires |d| == |e| && n <= k <= |FreeList(d, i)|
    requires forall x :: x in FreeList(d, i)[..n] && x < |e| ==> e[x] != 0
    requires forall x :: x in FreeList(d, i)[n..k] && x < |e| ==> e[x] == 0
    requires forall x :: i <= x < |d| && d[x] != 0 ==> e[x] != 0
    ensures k - n <= |FreeList(e, i)| && FreeList(e, i)[..k - n] == FreeList(d, i)[n..k]
    ensures k == |FreeList(d, i)| ==> FreeList(e, i) == FreeList(d, i)[n..k]
    decreases |d| - i
  {
    if i < |d| {
      var list, tail := FreeList(d, i), FreeList(d, i + 1);
      if d[i] != 0 {
        FreeAfter(d, e, i + 1, n, k);
      } else if n > 0 {
        assert list[..n] == [i] + tail[..n - 1];
        assert list[n..k] == tail[n - 1..k - 1];
        assert i in list[..n];
        FreeAfter(d, e, i + 1, n - 1, k - 1);
      } else if k > 0 {
        assert list[0..k] == [i] + tail[0..k - 1];
        assert i in list[0..k];
        FreeAfter(d, e, i + 1, 0, k - 1);
        assert FreeList(e, i) == [i] + FreeList(e, i + 1);
      }
    }
  }

  /** The allocator pops the list of free pages. */
  lemma {:induction false} PopFree(dico: Dico)
    requires Free(dico) != []
    ensures var head := Free(dico)[0];
            && 2 <= head < |dico| && dico[head] == 0
            && Allocate(dico) == (Mark(dico, head), head * PAGE)
            && Free(Mark(dico, head)) == Free(dico)[1..]
  {
    FreeListElements(dico, 2);
    assert Free(dico)[0] in Free(dico);
    FreeAfter(dico, Mark(dico, Free(dico)[0]), 2, 1, |Free(dico)|);
  }
}
