/** create_stack: which pages it maps, and when its loop ends. */
module Stack {
  import opened Common
  import opened Layout
  import opened Word64
  import opened Allocator
  import opened PageTable
  import opened MemoryMap
  import opened Translation
  import opened Requests

  /** Subtraction of unsigned 64-bit words. */
  function Minus(a: Word, b: Word): (r: Word)
    ensures r == if a >= b then a - b else a + TWO_64 - b
  {
    if a >= b then a - b else a + TWO_64 - b
  }

  /** The calls that the loop makes while size counts down to zero. */
  function Below(i: Word, size: Word): seq<Request>
    requires size % PAGE == 0
    decreases size
  {
    if size == 0 then [] else [Request(i, i)] + Below(Minus(i, PAGE), Minus(size, PAGE))
  }

  function StackRequests(addr: Word, size: Word): seq<Request>
    requires size % PAGE == 0
  {
    [Request(addr, addr)] + Below(Minus(addr, PAGE), size)
  }

  // ---------- One iteration of the loop ----------

  lemma {:induction false} StackStart(s: State, addr: Word, size: Word)
    requires size % PAGE == 0 && MapAll(s, StackRequests(addr, size)).Ok?
    ensures Map(s, addr, addr).Ok?
    ensures MapAll(s, StackRequests(addr, size)) == MapAll(Map(s, addr, addr).value, Below(Minus(addr, PAGE), size))
  {
    hide Map, MapAll;
    FirstOfRun(s, Request(addr, addr), Below(Minus(addr, PAGE), size));
  }

  lemma {:induction false} FirstOfRun(s: State, r: Request, rest: seq<Request>)
    requires MapAll(s, [r] + rest).Ok?
    ensures Map(s, r.virt, r.phys).Ok? && MapAll(s, [r] + rest) == MapAll(Map(s, r.virt, r.phys).value, rest)
  {
    hide Map;
    assert ([r] + rest)[1..] == rest;
  }

  lemma {:induction false} StackStep(s: State, i: Word, size: Word)
    requires size % PAGE == 0 && size != 0 && MapAll(s, Below(i, size)).Ok?
    ensures Minus(size, PAGE) < size && Minus(size, PAGE) % PAGE == 0
    ensures Map(s, i, i).Ok?
    ensures MapAll(s, Below(i, size)) == MapAll(Map(s, i, i).value, Below(Minus(i, PAGE), Minus(size, PAGE)))
  {
    hide Map, MapAll;
    FirstOfRun(s, Request(i, i), Below(Minus(i, PAGE), Minus(size, PAGE)));
  }

  lemma {:induction false} StackEnd(s: State, i: Word)
    ensures MapAll(s, Below(i, 0)) == Ok(s)
  {
  }

  // ---------- Termination of the loop ----------

  /** The loop variable size after n iterations. */
  function SizeAfter(size: Word, n: nat): Word {
    if n == 0 then size else Minus(SizeAfter(size, n - 1), PAGE)
  }

  lemma {:induction false} ResidueStays(size: Word, n: nat)
    ensures SizeAfter(size, n) % PAGE == size % PAGE
  {
    if n > 0 {
      ResidueStays(size, n - 1);
      var x := SizeAfter(size, n - 1);
      if x < PAGE {
        assert (x + TWO_64 - PAGE) % PAGE == x % PAGE;
      }
    }
  }

  lemma {:induction false} SizeCountsDown(size: Word, n: nat)
    requires n * PAGE <= size
    ensures SizeAfter(size, n) == size - n * PAGE
  {
    if n > 0 {
      SizeCountsDown(size, n - 1);
    }
  }

  /** The loop of create_stack ends exactly for page-multiple sizes, and then after size / 0x1000 iterations. */
  lemma {:induction false} LoopEndsExactly(size: Word)
    ensures (exists n: nat :: SizeAfter(size, n) == 0) <==> size % PAGE == 0
    ensures size % PAGE == 0 ==>
              SizeAfter(size, size / PAGE) == 0 && forall n: nat :: n < size / PAGE ==> SizeAfter(size, n) != 0
  {
    if n: nat :| SizeAfter(size, n) == 0 {
      ResidueStays(size, n);
    }
    if size % PAGE == 0 {
      SizeCountsDown(size, size / PAGE);
      forall n: nat | n < size / PAGE
        ensures SizeAfter(size, n) != 0
      {
        SizeCountsDown(size, n);
      }
    }
  }

  // ---------- What create_stack maps ----------

  lemma {:induction false} BelowShape(addr: Word, size: Word)
    requires size % PAGE == 0 && size <= addr
    ensures |Below(Minus(addr, PAGE), size)| == size / PAGE
    ensures forall j: nat :: j < size / PAGE ==>
              addr - (j + 1) * PAGE >= 0 &&
              Below(Minus(addr, PAGE), size)[j] == Request(addr - (j + 1) * PAGE, addr - (j + 1) * PAGE)
    decreases size
  {
    if size != 0 {
      assert size >= PAGE;
      var reqs, rest := Below(Minus(addr, PAGE), size), Below(Minus(addr - PAGE, PAGE), size - PAGE);
      assert reqs == [Request(addr - PAGE, addr - PAGE)] + rest;
      BelowShape(addr - PAGE, size - PAGE);
      assert size / PAGE == (size - PAGE) / PAGE + 1;
      forall j: nat | j < size / PAGE
        ensures addr - (j + 1) * PAGE >= 0
        ensures reqs[j] == Request(addr - (j + 1) * PAGE, addr - (j + 1) * PAGE)
      {
        if j > 0 {
          assert reqs[j] == rest[j - 1];
        }
      }
    }
  }

  /** create_stack asks for the pages of addr, addr - 0x1000, ..., addr - size, each mapped to itself. */
  lemma {:induction false} StackShape(addr: Word, size: Word)
    requires size % PAGE == 0 && size <= addr
    ensures |StackRequests(addr, size)| == size / PAGE + 1
    ensures forall j: nat :: j <= size / PAGE ==>
              addr - j * PAGE >= 0 && StackRequests(addr, size)[j] == Request(addr - j * PAGE, addr - j * PAGE)
  {
    BelowShape(addr, size);
    forall j: nat | j <= size / PAGE
      ensures addr - j * PAGE >= 0
      ensures StackRequests(addr, size)[j] == Request(addr - j * PAGE, addr - j * PAGE)
    {
      if j > 0 {
        assert StackRequests(addr, size)[j] == Below(Minus(addr, PAGE), size)[j - 1];
      }
    }
  }

  /** x modulo 2^64. */
  function Wrap(x: int): (w: Word)
    ensures w == x % 0x1_0000_0000_0000_0000
  {
    x % 0x1_0000_0000_0000_0000
  }

  lemma {:induction false} MinusWraps(i: Word, d: nat)
    ensures Wrap(Minus(i, PAGE) - d) == Wrap(i - PAGE - d)
  {
  }

  lemma {:induction false} BelowWraps(i: Word, size: Word)
    requires size % PAGE == 0
    ensures |Below(i, size)| == size / PAGE
    ensures forall j: nat :: j < size / PAGE ==> Below(i, size)[j] == Request(Wrap(i - j * PAGE), Wrap(i - j * PAGE))
    decreases size
  {
    hide Minus, Wrap;
    if size != 0 {
      assert size >= PAGE && Minus(size, PAGE) == size - PAGE;
      var rest := Below(Minus(i, PAGE), size - PAGE);
      assert Below(i, size) == [Request(i, i)] + rest;
      BelowWraps(Minus(i, PAGE), size - PAGE);
      assert size / PAGE == (size - PAGE) / PAGE + 1;
      forall j: nat | j < size / PAGE
        ensures Below(i, size)[j] == Request(Wrap(i - j * PAGE), Wrap(i - j * PAGE))
      {
        if j > 0 {
          MinusWraps(i, (j - 1) * PAGE);
          assert Below(i, size)[j] == rest[j - 1];
          assert Minus(i, PAGE) - (j - 1) * PAGE == Minus(i, PAGE) - ((j - 1) * PAGE);
          assert i - PAGE - (j - 1) * PAGE == i - j * PAGE;
        }
      }
    }
  }

  /** For every address and every size that ends the loop, also where the addresses wrap around below 0. */
  lemma {:induction false} StackWraps(addr: Word, size: Word, j: nat)
    requires size % PAGE == 0 && j <= size / PAGE
    ensures |StackRequests(addr, size)| == size / PAGE + 1
    ensures StackRequests(addr, size)[j].virt == StackRequests(addr, size)[j].phys
    ensures StackRequests(addr, size)[j].virt == (addr - j * 0x1000) % 0x1_0000_0000_0000_0000
  {
    BelowWraps(Minus(addr, PAGE), size);
    if j > 0 {
      MinusWraps(addr, (j - 1) * PAGE);
      assert StackRequests(addr, size)[j] == Below(Minus(addr, PAGE), size)[j - 1];
    }
  }

  /** A frame that fits the dictionary is the page number of its address. */
  lemma {:induction false} SmallPage(s: State, v: Word, k: nat)
    requires FrameSafe(s, Request(v, v), k)
    ensures Vpn(v) == v / PAGE == RequestFrame(Request(v, v))
  {
    hide TablePage, Free;
    assert v / PAGE < 0x8_0000;
  }

  lemma {:induction false} StackPages(s: State, addr: Word, size: Word, k: nat)
    requires size % PAGE == 0 && size <= addr && Budget(s, StackRequests(addr, size), k)
    ensures DistinctPages(StackRequests(addr, size))
    ensures forall n: nat :: n in Pages(StackRequests(addr, size)) <==> addr / PAGE - size / PAGE <= n <= addr / PAGE
    ensures forall r :: r in StackRequests(addr, size) ==> RequestFrame(r) == Vpn(r.virt)
  {
    hide Vpn, FrameSafe, RequestFrame, StackRequests;
    var reqs := StackRequests(addr, size);
    StackShape(addr, size);
    forall j: nat | j <= size / PAGE
      ensures Vpn(reqs[j].virt) == addr / PAGE - j == RequestFrame(reqs[j])
    {
      assert reqs[j] in reqs;
      SmallPage(s, addr - j * PAGE, k);
      assert (addr - j * PAGE) / PAGE == addr / PAGE - j;
    }
    forall n: nat
      ensures n in Pages(reqs) <==> addr / PAGE - size / PAGE <= n <= addr / PAGE
    {
      if addr / PAGE - size / PAGE <= n <= addr / PAGE {
        assert reqs[addr / PAGE - n] in reqs;
      }
    }
  }

  lemma {:induction false} StackIsExplicit(addr: Word, size: Word)
    requires size % PAGE == 0 && size <= addr
    ensures Explicit(StackRequests(addr, size))
  {
    hide StackRequests;
    StackShape(addr, size);
  }

  /** create_stack maps exactly the pages from addr - size to addr, each to itself, and leaves all others alone. */
  lemma {:induction false} StackIsExact(s: State, addr: Word, size: Word, k: nat)
    requires WellFormed(s) && size % PAGE == 0 && size <= addr && Budget(s, StackRequests(addr, size), k)
    ensures MapAll(s, StackRequests(addr, size)).Ok? && WellFormed(MapAll(s, StackRequests(addr, size)).value)
    ensures var before, after := Space(s.mem), Space(MapAll(s, StackRequests(addr, size)).value.mem);
            && (forall n: nat :: n in after <==> n in before || addr / PAGE - size / PAGE <= n <= addr / PAGE)
            && (forall n: nat :: n in after ==> after[n] == if n in before then before[n] else n)
  {
    hide WellFormed, MapAll, Space, Vpn, RequestFrame, StackRequests, Budget, DistinctPages, Extends;
    var reqs := StackRequests(addr, size);
    StackIsExplicit(addr, size);
    ResolvedExplicit(s, reqs);
    MapAllRefinesInsertAll(s, reqs, k);
    StackPages(s, addr, size, k);
    InsertAllContents(Space(s.mem), reqs);
    var before, after := Space(s.mem), Space(MapAll(s, reqs).value.mem);
    forall n: nat | n in after && n !in before
      ensures after[n] == n
    {
      var r :| r in reqs && Vpn(r.virt) == n;
    }
  }
}
