/** After load_file the guest sees each section at its address, and nothing else has changed. */
module LoaderCorrectness {
  import opened Common
  import opened Layout
  import opened Word64
  import opened PageTable
  import opened MemoryMap
  import opened Translation
  import opened Invariants
  import opened Elf
  import opened Loading

  // ---------- What a file says about memory ----------

  predicate Covers(sh: Section, a: nat) {
    !Skipped(sh) && sh.addr <= a < sh.addr + Size(sh)
  }

  /** The byte that the file gives to address a: the last section that covers a decides. */
  function FileByte(file: seq<byte>, shs: seq<Section>, a: nat): Option<byte>
    decreases |shs|
  {
    if shs == [] then None
    else
      var later := FileByte(file, shs[1..], a);
      if later.Some? then later
      else if Covers(shs[0], a) then Some(SectionByte(file, shs[0], a - shs[0].addr))
      else None
  }

  /** The start pages of the sections, each mapped to itself. */
  function WithPages(space: map<nat, nat>, shs: seq<Section>): map<nat, nat>
    decreases |shs|
  {
    if shs == [] then space
    else
      var page := shs[0].addr / PAGE;
      WithPages(if Skipped(shs[0]) then space else space[page := page], shs[1..])
  }

  // ---------- The main result about a run of the section loop ----------

  /** What loading did to one byte: the file's byte if there is one, else no change outside new table entries. */
  ghost predicate ByteLoaded(file: seq<byte>, shs: seq<Section>, m: seq<byte>, m': seq<byte>, a: nat)
    requires a < |m| == |m'|
  {
    match FileByte(file, shs, a)
    case Some(b) => m'[a] == b
    case None => m'[a] == m[a] || EntryByte(m, m', a)
  }

  lemma {:induction false} EntryByteIsInTable(m: seq<byte>, m': seq<byte>, a: nat)
    requires EntryByte(m, m', a)
    ensures TablePage(m', a / PAGE)
  {
    var p :| NewEntryByte(m, m', p, a);
    assert a / PAGE == Target(m', p.parent).value;
  }

  /** A data page is not touched by new table entries. */
  lemma {:induction false} DataHasNoEntry(m: seq<byte>, s': State, a: nat)
    requires DataPage(s', a / PAGE)
    ensures !EntryByte(m, s'.mem, a)
  {
    hide EntryByte, TablePage;
    if EntryByte(m, s'.mem, a) {
      EntryByteIsInTable(m, s'.mem, a);
    }
  }

  lemma {:induction false} ByteOfFirst(
    ls: LoadState, ls1: LoadState, ls2: LoadState, file: seq<byte>, shs: seq<Section>, a: nat)
    requires shs != [] && !Skipped(shs[0])
    requires KeepsTargets(ls.st.mem, ls1.st.mem) && KeepsTargets(ls1.st.mem, ls2.st.mem) && a < |ls.st.mem|
    requires SectionPages(ls2.st, shs[0])
    requires var sh, b := shs[0], ls1.st.mem[a];
             if sh.addr <= a < sh.addr + Size(sh) then b == SectionByte(file, sh, a - sh.addr)
             else b == ls.st.mem[a] || EntryByte(ls.st.mem, ls1.st.mem, a)
    requires ByteLoaded(file, shs[1..], ls1.st.mem, ls2.st.mem, a)
    ensures ByteLoaded(file, shs, ls.st.mem, ls2.st.mem, a)
  {
    hide Target, SectionPages, DataPage, NewEntryByte, SectionByte, Skipped, KeepsTargets;
    SameLength(ls.st.mem, ls1.st.mem);
    SameLength(ls1.st.mem, ls2.st.mem);
    if FileByte(file, shs[1..], a) == None {
      if Covers(shs[0], a) {
        CoveredIsData(ls2.st, shs[0], a);
        DataHasNoEntry(ls1.st.mem, ls2.st, a);
      } else if ls2.st.mem[a] != ls.st.mem[a] {
        EntryByteLift(ls.st.mem, ls1.st.mem, ls2.st.mem, a);
      }
    }
  }

  lemma {:induction false} CoveredIsData(s: State, sh: Section, a: nat)
    requires SectionPages(s, sh) && Covers(sh, a)
    ensures DataPage(s, a / PAGE)
  {
    hide DataPage, Skipped;
    assert sh.addr / PAGE <= a / PAGE && a / PAGE * PAGE <= a;
    assert Touches(sh, a / PAGE);
  }

  lemma {:induction false} SameLength(m: seq<byte>, m': seq<byte>)
    requires KeepsTargets(m, m')
    ensures |m| == |m'|
  {
  }

  lemma {:induction false} KeepsTransitive(a: seq<byte>, b: seq<byte>, c: seq<byte>)
    requires KeepsTargets(a, b) && KeepsTargets(b, c)
    ensures KeepsTargets(a, c)
  {
  }

  /** Loading a list of sections: it stays inside guest memory, keeps the invariants, maps exactly the start pages,
      and writes exactly the bytes of the file. */
  lemma {:induction false} LoadAllCorrect(ls: LoadState, file: seq<byte>, shs: seq<Section>)
    requires WellFormed(ls.st) && Identity(ls.st.mem) && AllReady(ls, file, shs)
    ensures LoadAll(ls, file, shs).Ok?
    ensures var ls' := LoadAll(ls, file, shs).value;
            && WellFormed(ls'.st) && Identity(ls'.st.mem)
            && Space(ls'.st.mem) == WithPages(Space(ls.st.mem), shs)
            && KeepsTargets(ls.st.mem, ls'.st.mem) && |ls'.st.mem| == |ls.st.mem|
            && (Pruned(ls.st.mem) ==> Pruned(ls'.st.mem)) && |ls'.st.dico| == |ls.st.dico| && |ls'.pages| == |ls.pages|
            && KeepsData(ls.st, ls'.st) && (forall i :: 0 <= i < |shs| ==> SectionPages(ls'.st, shs[i]))
            && forall a :: 0 <= a < |ls.st.mem| ==> ByteLoaded(file, shs, ls.st.mem, ls'.st.mem, a)
    decreases |shs|
  {
    hide WellFormed, Identity, Space, Target, SectionPages, SectionReady, LoadSection, Skipped, SectionByte,
         NewEntryByte, ByteLoaded, KeepsTargets, KeepsData, Pruned;
    if shs == [] {
      KeepsReflexive(ls.st);
      forall a | 0 <= a < |ls.st.mem|
        ensures ByteLoaded(file, shs, ls.st.mem, ls.st.mem, a)
      {
        NothingLoaded(file, ls.st.mem, a);
      }
    } else if Skipped(shs[0]) {
      SkippedSection(ls, file, shs[0]);
      LoadAllCorrect(ls, file, shs[1..]);
      AllSectionPages(LoadAll(ls, file, shs).value.st, shs);
      forall a | 0 <= a < |ls.st.mem|
        ensures ByteLoaded(file, shs, ls.st.mem, LoadAll(ls, file, shs).value.st.mem, a)
      {
        SkippedByte(file, shs, ls.st.mem, LoadAll(ls, file, shs).value.st.mem, a);
      }
    } else {
      FitsFromReady(ls, shs[0]);
      SectionStep(ls, file, shs[0]);
      var ls1 := LoadSection(ls, file, shs[0]).value;
      LoadAllCorrect(ls1, file, shs[1..]);
      var ls2 := LoadAll(ls1, file, shs[1..]).value;
      KeepsTransitive(ls.st.mem, ls1.st.mem, ls2.st.mem);
      SameLength(ls.st.mem, ls1.st.mem);
      assert KeepsData(ls.st, ls2.st) by { KeepsDataTransitive(ls.st, ls1.st, ls2.st); }
      SectionPagesStay(ls1.st, ls2.st, shs[0]);
      AllSectionPages(ls2.st, shs);
      forall a | 0 <= a < |ls.st.mem|
        ensures ByteLoaded(file, shs, ls.st.mem, ls2.st.mem, a)
      {
        ByteOfFirst(ls, ls1, ls2, file, shs, a);
      }
    }
  }

  lemma {:induction false} KeepsReflexive(s: State)
    ensures KeepsTargets(s.mem, s.mem) && KeepsData(s, s)
  {
  }

  lemma {:induction false} SectionPagesStay(s: State, s': State, sh: Section)
    requires SectionPages(s, sh) && KeepsData(s, s')
    ensures SectionPages(s', sh)
  {
    hide DataPage, Touches;
  }

  lemma {:induction false} AllSectionPages(s: State, shs: seq<Section>)
    requires shs != [] && SectionPages(s, shs[0]) && forall i :: 0 <= i < |shs| - 1 ==> SectionPages(s, shs[1..][i])
    ensures forall i :: 0 <= i < |shs| ==> SectionPages(s, shs[i])
  {
    hide SectionPages;
    forall i | 0 <= i < |shs|
      ensures SectionPages(s, shs[i])
    {
      if i > 0 {
        assert shs[i] == shs[1..][i - 1];
      }
    }
  }

  lemma {:induction false} NothingLoaded(file: seq<byte>, m: seq<byte>, a: nat)
    requires a < |m|
    ensures ByteLoaded(file, [], m, m, a)
  {
  }

  lemma {:induction false} SkippedSection(ls: LoadState, file: seq<byte>, sh: Section)
    requires Skipped(sh)
    ensures LoadSection(ls, file, sh) == Ok(ls) && forall s :: SectionPages(s, sh)
  {
  }

  lemma {:induction false} LoadedAddress(sh: Section)
    requires !Skipped(sh)
    ensures sh.addr != 0
  {
  }

  lemma {:induction false} SkippedByte(file: seq<byte>, shs: seq<Section>, m: seq<byte>, m': seq<byte>, a: nat)
    requires shs != [] && Skipped(shs[0]) && a < |m| == |m'| && ByteLoaded(file, shs[1..], m, m', a)
    ensures ByteLoaded(file, shs, m, m', a)
  {
    hide Skipped, EntryByte;
  }

  lemma {:induction false} FitsFromReady(ls: LoadState, sh: Section)
    requires SectionReady(ls, sh) && !Skipped(sh)
    ensures SectionFits(ls, sh)
  {
  }

  // ---------- The pages of a file ----------

  function StartPages(shs: seq<Section>): set<nat> {
    set i | 0 <= i < |shs| && !Skipped(shs[i]) :: shs[i].addr / PAGE
  }

  /** Mapped afterwards are the pages mapped before and the start pages. */
  lemma {:induction false} WithPagesKeys(space: map<nat, nat>, shs: seq<Section>)
    ensures WithPages(space, shs).Keys == space.Keys + StartPages(shs)
    decreases |shs|
  {
    hide Skipped;
    if shs != [] {
      var page := shs[0].addr / PAGE;
      WithPagesKeys(if Skipped(shs[0]) then space else space[page := page], shs[1..]);
      assert forall i :: 0 <= i < |shs| - 1 ==> shs[1..][i] == shs[i + 1];
      forall p
        ensures p in StartPages(shs) <==> p in StartPages(shs[1..]) || (!Skipped(shs[0]) && p == page)
      {
        if p in StartPages(shs[1..]) {
          var i :| 0 <= i < |shs[1..]| && !Skipped(shs[1..][i]) && p == shs[1..][i].addr / PAGE;
          assert !Skipped(shs[i + 1]) && p == shs[i + 1].addr / PAGE;
        }
        if p in StartPages(shs) {
          var i :| 0 <= i < |shs| && !Skipped(shs[i]) && p == shs[i].addr / PAGE;
          assert i > 0 ==> !Skipped(shs[1..][i - 1]) && p == shs[1..][i - 1].addr / PAGE;
        }
      }
    }
  }

  // ---------- What the guest sees ----------

  lemma {:induction false} AllFit(ls: LoadState, file: seq<byte>, shs: seq<Section>, i: nat)
    requires WellFormed(ls.st) && Identity(ls.st.mem) && AllReady(ls, file, shs)
    requires i < |shs| && !Skipped(shs[i])
    ensures SectionFits(ls, shs[i])
    decreases |shs|
  {
    hide WellFormed, Identity, Space, Target, SectionPages, SectionReady, LoadSection, Skipped, KeepsTargets,
         SectionByte, EntryByte, KeepsData;
    if i == 0 {
      FitsFromReady(ls, shs[0]);
    } else if Skipped(shs[0]) {
      SkippedSection(ls, file, shs[0]);
      AllFit(ls, file, shs[1..], i - 1);
    } else {
      SectionStep(ls, file, shs[0]);
      var ls1 := LoadSection(ls, file, shs[0]).value;
      FitsFromReady(ls, shs[0]);
      SameLength(ls.st.mem, ls1.st.mem);
      AllFit(ls1, file, shs[1..], i - 1);
    }
  }

  lemma {:induction false} CoveredByFile(file: seq<byte>, shs: seq<Section>, i: nat, a: nat)
    requires i < |shs| && Covers(shs[i], a)
    ensures FileByte(file, shs, a).Some?
    decreases |shs|
  {
    if i > 0 {
      CoveredByFile(file, shs[1..], i - 1, a);
    }
  }

  /** Sections that meet no other section. */
  ghost predicate Disjoint(shs: seq<Section>) {
    forall i, j, a: nat :: 0 <= i < j < |shs| ==> !(Covers(shs[i], a) && Covers(shs[j], a))
  }

  lemma {:induction false} FileByteOfDisjoint(file: seq<byte>, shs: seq<Section>, i: nat, a: nat)
    requires Disjoint(shs) && i < |shs| && Covers(shs[i], a)
    ensures FileByte(file, shs, a) == Some(SectionByte(file, shs[i], a - shs[i].addr))
    decreases |shs|
  {
    hide Covers, SectionByte;
    if i == 0 {
      forall j | 0 <= j < |shs[1..]|
        ensures !Covers(shs[1..][j], a)
      {
        assert shs[1..][j] == shs[j + 1];
      }
      NotCovered(file, shs[1..], a);
    } else {
      assert Disjoint(shs[1..]) by {
        forall x, y, b: nat | 0 <= x < y < |shs[1..]|
          ensures !(Covers(shs[1..][x], b) && Covers(shs[1..][y], b))
        {
          assert shs[1..][x] == shs[x + 1] && shs[1..][y] == shs[y + 1];
        }
      }
      FileByteOfDisjoint(file, shs[1..], i - 1, a);
    }
  }

  lemma {:induction false} NotCovered(file: seq<byte>, shs: seq<Section>, a: nat)
    requires forall j :: 0 <= j < |shs| ==> !Covers(shs[j], a)
    ensures FileByte(file, shs, a) == None
    decreases |shs|
  {
    hide Covers;
    if shs != [] {
      NotCovered(file, shs[1..], a);
    }
  }

  /** In an identity-mapped machine an address other than 0 below 2^48 is reachable exactly if its page is mapped. */
  lemma {:induction false} ReachExactly(m: seq<byte>, gva: Word)
    requires Tree(m) && Identity(m) && 0 < gva < 0x1_0000_0000_0000
    ensures GvaToGpa(m, gva) == Ok(gva) <==> gva / PAGE in Space(m)
  {
    hide Target, Leaf, GvaToGpa;
    SmallVpn(gva);
    WalkIsTranslate(m, gva);
    SpaceLookup(m, gva);
  }

  lemma {:induction false} TreeOfState(s: State)
    requires WellFormed(s)
    ensures Tree(s.mem)
  {
    hide Tree;
  }

  /** Every byte of a loaded section is the file's, and the guest reads it at its own address through gva_to_gpa exactly
      if its page was mapped before or is the start page of a loaded section. */
  lemma {:induction false} GuestSeesSection(ls: LoadState, file: seq<byte>, shs: seq<Section>, i: nat, k: nat)
    requires WellFormed(ls.st) && Identity(ls.st.mem) && AllReady(ls, file, shs)
    requires i < |shs| && !Skipped(shs[i]) && k < Size(shs[i]) && shs[i].addr + k < 0x1_0000_0000_0000
    ensures LoadAll(ls, file, shs).Ok?
    ensures var m, gva := LoadAll(ls, file, shs).value.st.mem, shs[i].addr + k;
            && gva < |m| && FileByte(file, shs, gva) == Some(m[gva])
            && (Disjoint(shs) ==> m[gva] == SectionByte(file, shs[i], k))
            && (GvaToGpa(m, gva) == Ok(gva) <==> gva / PAGE in Space(ls.st.mem) || gva / PAGE in StartPages(shs))
  {
    hide WellFormed, Tree, GvaToGpa, Skipped, SectionByte, AllReady, LoadAll, FileByte, Disjoint, EntryByte, Vpn, Space,
         KeepsTargets, KeepsData, SectionPages, StartPages;
    LoadAllCorrect(ls, file, shs);
    AllFit(ls, file, shs, i);
    var s', gva := LoadAll(ls, file, shs).value.st, shs[i].addr + k;
    WithPagesKeys(Space(ls.st.mem), shs);
    LoadedAddress(shs[i]);
    CoveredByFile(file, shs, i, gva);
    assert ByteLoaded(file, shs, ls.st.mem, s'.mem, gva);
    if Disjoint(shs) {
      FileByteOfDisjoint(file, shs, i, gva);
    }
    TreeOfState(s');
    ReachExactly(s'.mem, gva);
  }
}
