/** Where the section loop copies to: its cursor is right exactly when the sections of a page follow each other. */
module Cursor {
  import opened Common
  import opened Layout
  import opened Word64
  import opened MemoryMap
  import opened Elf
  import opened Loading

  // ---------- Copies and the cursor ----------

  /** Every section is copied to its own address. */
  predicate CopiesRight(ls: LoadState, file: seq<byte>, shs: seq<Section>)
    decreases |shs|
  {
    if shs == [] then true
    else
      match LoadSection(ls, file, shs[0])
      case Fault => false
      case Ok(ls1) =>
        && (Skipped(shs[0]) || Destination(ls1.newPage, shs[0]) == shs[0].addr)
        && CopiesRight(ls1, file, shs[1..])
  }

  // ---------- The cursor ----------

  /** Running only the cursor: at every copy it stands on the page of the section. */
  predicate CursorRight(pages: seq<int>, newPage: nat, shs: seq<Section>)
    decreases |shs|
  {
    if shs == [] then true
    else if Skipped(shs[0]) then CursorRight(pages, newPage, shs[1..])
    else
      var page := shs[0].addr / PAGE;
      page < |pages| &&
      if pages[page] == 0 then CursorRight(pages[page := 1], page * PAGE, shs[1..])
      else newPage == page * PAGE && CursorRight(pages, newPage, shs[1..])
  }

  /** The section at i is loaded and starts in the given page. */
  predicate StartsIn(shs: seq<Section>, i: nat, page: nat)
    requires i < |shs|
  {
    !Skipped(shs[i]) && shs[i].addr / PAGE == page
  }

  /** Between two sections of one page there is no section of another page. */
  ghost predicate Contiguous(shs: seq<Section>) {
    forall i: nat, l: nat, j: nat, page: nat ::
      i < l < j < |shs| && StartsIn(shs, i, page) && StartsIn(shs, j, page) ==>
      Skipped(shs[l]) || StartsIn(shs, l, page)
  }

  /** Before a section of a page already seen there are only sections of the cursor's page, itself included. */
  ghost predicate SeenUnderCursor(pages: seq<int>, current: nat, shs: seq<Section>)
    requires InDictionary(pages, shs)
  {
    forall j: nat, l: nat :: j < |shs| && !Skipped(shs[j]) && pages[shs[j].addr / PAGE] != 0 && l <= j ==>
      Skipped(shs[l]) || StartsIn(shs, l, current)
  }

  predicate InDictionary(pages: seq<int>, shs: seq<Section>) {
    forall i :: 0 <= i < |shs| && !Skipped(shs[i]) ==> shs[i].addr / PAGE < |pages|
  }

  /** Sections in nondecreasing address order. */
  ghost predicate Sorted(shs: seq<Section>) {
    forall i, j :: 0 <= i < j < |shs| && !Skipped(shs[i]) && !Skipped(shs[j]) ==> shs[i].addr <= shs[j].addr
  }

  lemma {:induction false} SortedIsContiguous(shs: seq<Section>)
    requires Sorted(shs)
    ensures Contiguous(shs)
  {
    forall i: nat, l: nat, j: nat, page: nat | i < l < j < |shs| && StartsIn(shs, i, page) && StartsIn(shs, j, page) &&
           !Skipped(shs[l])
      ensures StartsIn(shs, l, page)
    {
      assert shs[i].addr / PAGE <= shs[l].addr / PAGE <= shs[j].addr / PAGE;
    }
  }

  ghost predicate Grouped(pages: seq<int>, current: nat, shs: seq<Section>)
    requires InDictionary(pages, shs)
  {
    SeenUnderCursor(pages, current, shs) && Contiguous(shs)
  }

  lemma {:induction false} RestInDictionary(pages: seq<int>, shs: seq<Section>)
    requires shs != [] && InDictionary(pages, shs)
    ensures InDictionary(pages, shs[1..])
    ensures forall i :: 0 <= i < |shs| - 1 ==> shs[1..][i] == shs[i + 1]
  {
  }

  lemma {:induction false} GroupedRest(pages: seq<int>, current: nat, shs: seq<Section>)
    requires shs != [] && InDictionary(pages, shs) && InDictionary(pages, shs[1..]) && Grouped(pages, current, shs)
    ensures Grouped(pages, current, shs[1..])
  {
    hide Skipped;
    var rest := shs[1..];
    forall j: nat, l: nat | j < |rest| && !Skipped(rest[j]) && pages[rest[j].addr / PAGE] != 0 && l <= j
      ensures Skipped(rest[l]) || StartsIn(rest, l, current)
    {
      assert Skipped(shs[l + 1]) || StartsIn(shs, l + 1, current);
    }
    forall i: nat, l: nat, j: nat, page: nat | i < l < j < |rest| && StartsIn(rest, i, page) && StartsIn(rest, j, page)
      ensures Skipped(rest[l]) || StartsIn(rest, l, page)
    {
      assert StartsIn(shs, i + 1, page) && StartsIn(shs, j + 1, page);
      assert Skipped(shs[l + 1]) || StartsIn(shs, l + 1, page);
    }
  }

  /** Putting a section in front of a contiguous list: its page may only continue at the very start of the list. */
  lemma {:induction false} ContiguousCons(shs: seq<Section>)
    requires shs != [] && Contiguous(shs[1..])
    requires forall j: nat, l: nat ::
               j < |shs| - 1 && !Skipped(shs[0]) && StartsIn(shs[1..], j, shs[0].addr / PAGE) && l <= j ==>
               Skipped(shs[1..][l]) || StartsIn(shs[1..], l, shs[0].addr / PAGE)
    ensures Contiguous(shs)
  {
    hide Skipped;
    var rest := shs[1..];
    forall i: nat, l: nat, j: nat, page: nat | i < l < j < |shs| && StartsIn(shs, i, page) && StartsIn(shs, j, page)
      ensures Skipped(shs[l]) || StartsIn(shs, l, page)
    {
      assert StartsIn(rest, j - 1, page);
      if i > 0 {
        assert StartsIn(rest, i - 1, page);
      }
      assert Skipped(rest[l - 1]) || StartsIn(rest, l - 1, page);
    }
  }

  lemma {:induction false} SkipFirst(pages: seq<int>, current: nat, shs: seq<Section>)
    requires shs != [] && InDictionary(pages, shs) && InDictionary(pages, shs[1..]) && Skipped(shs[0])
    ensures Grouped(pages, current, shs) <==> Grouped(pages, current, shs[1..])
  {
    hide Skipped;
    if Grouped(pages, current, shs) {
      GroupedRest(pages, current, shs);
    }
    if Grouped(pages, current, shs[1..]) {
      ContiguousCons(shs);
      forall j: nat, l: nat | j < |shs| && !Skipped(shs[j]) && pages[shs[j].addr / PAGE] != 0 && l <= j
        ensures Skipped(shs[l]) || StartsIn(shs, l, current)
      {
        if l > 0 {
          assert Skipped(shs[1..][l - 1]) || StartsIn(shs[1..], l - 1, current);
        }
      }
    }
  }

  lemma {:induction false} SeenPageFirst(pages: seq<int>, current: nat, shs: seq<Section>)
    requires shs != [] && InDictionary(pages, shs) && InDictionary(pages, shs[1..])
    requires !Skipped(shs[0]) && pages[shs[0].addr / PAGE] != 0
    ensures Grouped(pages, current, shs) <==> current == shs[0].addr / PAGE && Grouped(pages, current, shs[1..])
  {
    hide Skipped;
    if Grouped(pages, current, shs) {
      GroupedRest(pages, current, shs);
      assert Skipped(shs[0]) || StartsIn(shs, 0, current);
    }
    if current == shs[0].addr / PAGE && Grouped(pages, current, shs[1..]) {
      ContiguousCons(shs);
      forall j: nat, l: nat | j < |shs| && !Skipped(shs[j]) && pages[shs[j].addr / PAGE] != 0 && l <= j
        ensures Skipped(shs[l]) || StartsIn(shs, l, current)
      {
        if l > 0 {
          assert Skipped(shs[1..][l - 1]) || StartsIn(shs[1..], l - 1, current);
        }
      }
    }
  }

  lemma {:induction false} NewPageFirst(pages: seq<int>, current: nat, shs: seq<Section>)
    requires shs != [] && InDictionary(pages, shs) && InDictionary(pages, shs[1..])
    requires !Skipped(shs[0]) && pages[shs[0].addr / PAGE] == 0
    ensures var page := shs[0].addr / PAGE;
            Grouped(pages, current, shs) <==> Grouped(pages[page := 1], page, shs[1..])
  {
    hide Skipped;
    var page, rest := shs[0].addr / PAGE, shs[1..];
    if Grouped(pages, current, shs) {
      GroupedRest(pages, current, shs);
      forall j: nat, l: nat | j < |rest| && !Skipped(rest[j]) && pages[page := 1][rest[j].addr / PAGE] != 0 && l <= j
        ensures Skipped(rest[l]) || StartsIn(rest, l, page)
      {
        var first, own := StartsIn(shs, 0, current), StartsIn(shs, j + 1, current);
        assert pages[shs[j + 1].addr / PAGE] == 0;
        assert StartsIn(shs, 0, page) && StartsIn(shs, j + 1, page);
        assert Skipped(shs[l + 1]) || StartsIn(shs, l + 1, page);
      }
    }
    if Grouped(pages[page := 1], page, rest) {
      ContiguousCons(shs);
      forall j: nat | j < |shs| && !Skipped(shs[j])
        ensures pages[shs[j].addr / PAGE] == 0
      {
        var own := j > 0 && StartsIn(rest, j - 1, page);
      }
    }
  }

  /** Sections of pages already seen must come first and lie under the cursor; then no page comes back. */
  lemma {:induction false} CursorRightExactly(pages: seq<int>, current: nat, shs: seq<Section>)
    requires InDictionary(pages, shs)
    ensures CursorRight(pages, current * PAGE, shs) <==> Grouped(pages, current, shs)
    decreases |shs|
  {
    hide Skipped, Grouped;
    if shs == [] {
      assert Grouped(pages, current, shs) by { NothingGrouped(pages, current); }
    } else {
      RestInDictionary(pages, shs);
      var page := shs[0].addr / PAGE;
      if Skipped(shs[0]) {
        CursorRightExactly(pages, current, shs[1..]);
        SkipFirst(pages, current, shs);
      } else if pages[page] == 0 {
        CursorRightExactly(pages[page := 1], page, shs[1..]);
        NewPageFirst(pages, current, shs);
      } else {
        CursorRightExactly(pages, current, shs[1..]);
        SeenPageFirst(pages, current, shs);
      }
    }
  }

  lemma {:induction false} NothingGrouped(pages: seq<int>, current: nat)
    ensures Grouped(pages, current, [])
  {
  }

  // ---------- What the cursor says about the copies ----------

  lemma {:induction false} MapSectionCursor(ls: LoadState, addr: Word)
    requires addr / PAGE < |ls.pages| && MapSection(ls, addr).Ok?
    ensures MapSection(ls, addr).value.newPage == addr / PAGE * PAGE
    ensures MapSection(ls, addr).value.pages == ls.pages[addr / PAGE := 1]
  {
    hide Map, Invalidate;
  }

  /** A section is copied to its own offset within the page of the cursor. */
  lemma {:induction false} DestinationSum(newPage: nat, sh: Section)
    requires newPage % PAGE == 0
    ensures Destination(newPage, sh) == newPage + sh.addr % PAGE
    ensures Destination(newPage, sh) == sh.addr <==> newPage == sh.addr / PAGE * PAGE
  {
    hide Or, PageOffset;
    BaseOrOffset(newPage, sh.addr);
  }

  lemma {:induction false} CopyKeepsCursor(ls: LoadState, file: seq<byte>, sh: Section)
    requires CopySection(ls, file, sh).Ok?
    ensures CopySection(ls, file, sh).value.newPage == ls.newPage && CopySection(ls, file, sh).value.pages == ls.pages
  {
    hide LoadedBytes, Destination, Put;
  }

  /** One section: where the cursor stands when it is copied. */
  lemma {:induction false} SectionCursor(ls: LoadState, file: seq<byte>, sh: Section)
    requires !Skipped(sh) && LoadSection(ls, file, sh).Ok? && ls.newPage % PAGE == 0
    ensures sh.addr / PAGE < |ls.pages|
    ensures var ls1 := LoadSection(ls, file, sh).value; var page := sh.addr / PAGE;
            && ls1.newPage == (if ls.pages[page] == 0 then page * PAGE else ls.newPage)
            && ls1.pages == (if ls.pages[page] == 0 then ls.pages[page := 1] else ls.pages)
            && ls1.newPage % PAGE == 0
            && (Destination(ls1.newPage, sh) == sh.addr <==> ls1.newPage == page * PAGE)
  {
    hide MapSection, CopySection, Skipped, Destination;
    var ls0 := ls;
    if ls.pages[sh.addr / PAGE] == 0 {
      MapSectionCursor(ls, sh.addr);
      ls0 := MapSection(ls, sh.addr).value;
    }
    CopyKeepsCursor(ls0, file, sh);
    DestinationSum(LoadSection(ls, file, sh).value.newPage, sh);
  }

  lemma {:induction false} SectionSkipped(ls: LoadState, file: seq<byte>, sh: Section)
    requires Skipped(sh)
    ensures LoadSection(ls, file, sh) == Ok(ls)
  {
  }

  lemma {:induction false} CopiesFollowCursor(ls: LoadState, file: seq<byte>, shs: seq<Section>)
    requires LoadAll(ls, file, shs).Ok? && ls.newPage % PAGE == 0
    ensures CopiesRight(ls, file, shs) <==> CursorRight(ls.pages, ls.newPage, shs)
    ensures InDictionary(ls.pages, shs)
    decreases |shs|
  {
    hide LoadSection, Skipped, Destination;
    if shs != [] {
      if Skipped(shs[0]) {
        SectionSkipped(ls, file, shs[0]);
      } else {
        SectionCursor(ls, file, shs[0]);
      }
      var ls1 := LoadSection(ls, file, shs[0]).value;
      CopiesFollowCursor(ls1, file, shs[1..]);
      forall i | 0 <= i < |shs| && !Skipped(shs[i])
        ensures shs[i].addr / PAGE < |ls.pages|
      {
        if i > 0 {
          assert shs[i] == shs[1..][i - 1];
        }
      }
    }
  }

  /** Whenever the section loop runs through, every section is copied to its own address exactly when sections of pages
      already seen come first, under the cursor, and no page comes back. */
  lemma {:induction false} CopiesRightExactly(ls: LoadState, file: seq<byte>, shs: seq<Section>)
    requires LoadAll(ls, file, shs).Ok? && ls.newPage % PAGE == 0
    ensures InDictionary(ls.pages, shs)
    ensures CopiesRight(ls, file, shs) <==> Grouped(ls.pages, ls.newPage / PAGE, shs)
  {
    hide LoadAll, CopiesRight, CursorRight, Grouped, InDictionary;
    CopiesFollowCursor(ls, file, shs);
    CursorRightExactly(ls.pages, ls.newPage / PAGE, shs);
  }

  lemma {:induction false} UnseenCursor(pages: seq<int>, shs: seq<Section>)
    requires InDictionary(pages, shs)
    requires forall i :: 0 <= i < |shs| && !Skipped(shs[i]) ==> pages[shs[i].addr / PAGE] == 0
    ensures Grouped(pages, 0, shs) <==> Contiguous(shs)
  {
    hide Skipped, Contiguous;
  }

  /** load_file starts with the cursor at 0. If no section's page was seen by an earlier load, every section is copied
      to its own address exactly when the sections of each page follow each other; sorted sections do. */
  lemma {:induction false} CopiesOfFile(st: State, pages: seq<int>, file: seq<byte>)
    requires ValidFile(file) && LoadFile(st, pages, file).Ok? && InDictionary(pages, Sections(file))
    requires forall i :: 0 <= i < |Sections(file)| && !Skipped(Sections(file)[i]) ==>
               pages[Sections(file)[i].addr / PAGE] == 0
    ensures CopiesRight(LoadState(st, pages, 0), file, Sections(file)) <==> Contiguous(Sections(file))
    ensures Sorted(Sections(file)) ==> CopiesRight(LoadState(st, pages, 0), file, Sections(file))
  {
    hide LoadAll, CopiesRight, Grouped, Contiguous, Sorted, Sections, ValidFile, Skipped;
    var ls, shs := LoadState(st, pages, 0), Sections(file);
    CopiesRightExactly(ls, file, shs);
    UnseenCursor(pages, shs);
    if Sorted(shs) {
      SortedIsContiguous(shs);
    }
  }
}
