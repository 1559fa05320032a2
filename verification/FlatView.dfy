/**
 The dispatch tables as one value, their meaning as a map from byte addresses
 to regions, and what each change of the tables does to that meaning.
*/
module FlatView {
  import opened Arithmetic
  import opened Geometry
  import opened Sections
  import opened PhysMap

  datatype Tables = Tables(root: Entry, nodes: seq<Node>, sections: seq<Section>, subpages: seq<Subpage>)

  // The section number that the table stores for a page.
  function Leaf(t: Tables, page: nat): nat {
    Walk(t.nodes, t.root, P_L2_LEVELS, page)
  }

  /** Every page is well described, and the pages that carry a section are
      exactly the pages of its range. Compression relies on the second part. */
  ghost predicate PagesOk(t: Tables) {
    && DummiesOk(t.sections) && |t.sections| <= PAGE_SIZE
    && (forall page: nat | page < Span(P_L2_LEVELS) :: PageOk(t.sections, t.subpages, Leaf(t, page), page))
    && (forall i: nat, j: nat | i < Span(P_L2_LEVELS) && j < Span(P_L2_LEVELS) :: SameSection(t, i, j))
  }

  ghost predicate SameSection(t: Tables, i: nat, j: nat) {
    DUMMY_SECTIONS <= Leaf(t, i) < |t.sections| && Covers(t.sections[Leaf(t, i)], j) ==> Leaf(t, j) == Leaf(t, i)
  }

  // A lookup of addr stays inside the tables.
  ghost predicate ReadableAt(t: Tables, addr: nat) {
    && Leaf(t, PageOf(addr)) < |t.sections|
    && var mr := t.sections[Checked(t.sections, Leaf(t, PageOf(addr)), addr)].mr;
       mr.SubpageRegion? ==> mr.id < |t.subpages| && |t.subpages[mr.id].subSection| == PAGE_SIZE &&
                             t.subpages[mr.id].subSection[InPage(addr)] < |t.sections|
  }

  ghost predicate Readable(t: Tables) {
    && |t.sections| <= PHYS_MAP_NODE_NIL
    && forall addr: nat | addr < ADDR_LIMIT :: ReadableAt(t, addr)
  }

  // Region and offset that an access to addr is sent to.
  function Resolve(t: Tables, addr: nat): (Region, int)
    requires ReadableAt(t, addr)
  {
    Translate(t.sections[SectionFor(t.sections, t.subpages, Leaf(t, PageOf(addr)), addr)], addr)
  }

  /** The specification: the memory API's flat list of sections. */
  function FlatLookup(added: seq<Section>, addr: nat): (Region, int) {
    if added == [] then (IoUnassigned, addr)
    else if Contains(added[|added| - 1], addr) then Translate(added[|added| - 1], addr)
    else FlatLookup(added[..|added| - 1], addr)
  }

  lemma PageInTable(addr: nat)
    requires addr < ADDR_LIMIT
    ensures PageOf(addr) < ADDR_PAGES <= Span(P_L2_LEVELS)
  {
    TableSpansAddressSpace();
    DivBounds(addr, PAGE_SIZE);
    if ADDR_PAGES <= PageOf(addr) {
      MulMonotone(ADDR_PAGES, PageOf(addr), PAGE_SIZE);
    }
  }

  lemma SectionsFit(t: Tables)
    requires PagesOk(t)
    ensures |t.sections| < PHYS_MAP_NODE_NIL
  {
    NodesFit(0);
  }

  // On a well described page the range check passes and the lookup is safe.
  lemma ResolvePage(t: Tables, addr: nat)
    requires PagesOk(t) && addr < ADDR_LIMIT
    ensures ReadableAt(t, addr)
    ensures Checked(t.sections, Leaf(t, PageOf(addr)), addr) == Leaf(t, PageOf(addr))
    ensures PageOk(t.sections, t.subpages, Leaf(t, PageOf(addr)), PageOf(addr))
  {
    hide PageOf, InPage, PageAddr, Walk, Span;
    PageInTable(addr);
    var leaf := Leaf(t, PageOf(addr));
    assert PageOk(t.sections, t.subpages, leaf, PageOf(addr));
    PageChecked(t.sections, t.subpages, leaf, addr);
  }

  lemma PagesOkReadable(t: Tables)
    requires PagesOk(t)
    ensures Readable(t)
  {
    SectionsFit(t);
    forall addr: nat | addr < ADDR_LIMIT
      ensures ReadableAt(t, addr)
    {
      ResolvePage(t, addr);
    }
  }

  ghost predicate Unmapped(t: Tables, s: Section)
    requires PagesOk(t)
  {
    forall addr: nat | Contains(s, addr) && addr < ADDR_LIMIT ::
        ReadableAt(t, addr) && Resolve(t, addr).0 == IoUnassigned
  }

  lemma EmptyTables(t: Tables)
    requires t.root == NIL_ENTRY && t.nodes == [] && DummiesOk(t.sections) && |t.sections| == DUMMY_SECTIONS
    ensures PagesOk(t) && Readable(t)
    ensures forall addr: nat | addr < ADDR_LIMIT :: Resolve(t, addr) == FlatLookup([], addr)
  {
    NodeHasTwoSlots();
    Pow2Monotone(2, TARGET_PAGE_BITS);
    PagesOkReadable(t);
  }

  // ---- a section of whole pages ----

  // t' sends the bytes of s to s, and all others where t sent them.
  ghost predicate Adds(t: Tables, t': Tables, s: Section) {
    && Readable(t) && Readable(t')
    && forall addr: nat | addr < ADDR_LIMIT ::
         Resolve(t', addr) == if Contains(s, addr) then Translate(s, addr) else Resolve(t, addr)
  }

  // The pages of an unmapped section carry nothing yet.
  lemma UnmappedPage(t: Tables, s: Section, page: nat)
    requires PagesOk(t) && PageAligned(s) && Unmapped(t, s) && Covers(s, page)
    ensures page < Span(P_L2_LEVELS) && Leaf(t, page) == PHYS_SECTION_UNASSIGNED
  {
    hide PageOf, InPage, PageAddr, Walk, Span;
    var addr := PageAddr(page);
    AddrSplit(addr, page);
    PageInTable(addr);
    ResolvePage(t, addr);
    var leaf := Leaf(t, page);
    assert PageOk(t.sections, t.subpages, leaf, page);
    if leaf != PHYS_SECTION_UNASSIGNED && t.sections[leaf].mr.SubpageRegion? {
      var sub := t.subpages[t.sections[leaf].mr.id].subSection;
      var b: nat :| b < PAGE_SIZE && sub[b] != PHYS_SECTION_UNASSIGNED;
      AddrInPage(page, b);
      ResolvePage(t, addr + b);
    }
  }

  lemma AddrInPage(page: nat, b: nat)
    requires b < PAGE_SIZE
    ensures PageOf(PageAddr(page) + b) == page && InPage(PageAddr(page) + b) == b
  {
    DivModUnique(PageAddr(page) + b, PAGE_SIZE, page, b);
  }

  lemma AddPages(t: Tables, t': Tables, s: Section)
    requires PagesOk(t) && PageAligned(s) && s.mr.Guest? && Unmapped(t, s)
    requires |t.sections| < PAGE_SIZE && t'.sections == t.sections + [s] && t'.subpages == t.subpages
    requires forall page: nat | page < Span(P_L2_LEVELS) ::
               Leaf(t', page) == if Covers(s, page) then |t.sections| else Leaf(t, page)
    ensures PagesOk(t') && Adds(t, t', s)
  {
    hide PageOf, InPage, PageAddr, Walk, Span;
    forall page: nat | page < Span(P_L2_LEVELS)
      ensures PageOk(t'.sections, t'.subpages, Leaf(t', page), page)
    {
      assert PageOk(t.sections, t.subpages, Leaf(t, page), page);
    }
    forall i: nat, j: nat | i < Span(P_L2_LEVELS) && j < Span(P_L2_LEVELS)
      ensures SameSection(t', i, j)
    {
      assert PageOk(t.sections, t.subpages, Leaf(t, i), i);
      assert PageOk(t.sections, t.subpages, Leaf(t, j), j);
      assert SameSection(t, i, j);
      if Covers(s, j) {
        UnmappedPage(t, s, j);
      }
    }
    PagesOkReadable(t);
    PagesOkReadable(t');
    forall addr: nat | addr < ADDR_LIMIT
      ensures Resolve(t', addr) == if Contains(s, addr) then Translate(s, addr) else Resolve(t, addr)
    {
      PageInTable(addr);
      AlignedCovers(s, addr);
      ResolvePage(t, addr);
      ResolvePage(t', addr);
      assert PageOk(t.sections, t.subpages, Leaf(t, PageOf(addr)), PageOf(addr));
    }
  }

  // ---- a section inside one page ----

  // What subpage_init leaves.
  function EmptySubpage(page: nat): (r: Subpage)
    ensures r.base == PageAddr(page) && |r.subSection| == PAGE_SIZE
    ensures forall b | 0 <= b < PAGE_SIZE :: r.subSection[b] == PHYS_SECTION_UNASSIGNED
  {
    Subpage(PageAddr(page), seq(PAGE_SIZE, _ => PHYS_SECTION_UNASSIGNED))
  }

  // What subpage_register leaves: bytes [lo, hi) of the page belong to section n.
  function WithBytes(sub: Subpage, lo: nat, hi: nat, n: nat): (r: Subpage)
    requires |sub.subSection| == PAGE_SIZE
    ensures r.base == sub.base && |r.subSection| == PAGE_SIZE
    ensures forall b | 0 <= b < PAGE_SIZE :: r.subSection[b] == if lo <= b < hi then n else sub.subSection[b]
  {
    Subpage(sub.base, seq(PAGE_SIZE, b requires 0 <= b < PAGE_SIZE => if lo <= b < hi then n else sub.subSection[b]))
  }

  ghost predicate InOnePage(s: Section, page: nat) {
    s.size > 0 && PageAddr(page) <= s.start && s.start + s.size <= PageAddr(page) + PAGE_SIZE &&
        s.start + s.size <= ADDR_LIMIT
  }

  lemma ContainsInPage(s: Section, page: nat, addr: nat)
    requires InOnePage(s, page)
    ensures Contains(s, addr) <==>
              PageOf(addr) == page && s.start - PageAddr(page) <= InPage(addr) < s.start - PageAddr(page) + s.size
  {
    hide PageOf, InPage, PageAddr;
    AddrSplit(addr, page);
  }

  // The section numbers that register_subpage takes: a page that is not split yet needs one for itself.
  function SubpageSlots(t: Tables, page: nat): nat {
    if Leaf(t, page) == PHYS_SECTION_UNASSIGNED then 2 else 1
  }

  // Those of whole pages and of what is left after them, from a page boundary on.
  function RestSlots(t: Tables, from: nat, rest: nat): nat {
    (if rest >= PAGE_SIZE then 1 else 0) + (if InPage(rest) != 0 then SubpageSlots(t, PageOf(from + rest)) else 0)
  }

  /** The section numbers that mem_add takes. */
  function SlotsNeeded(t: Tables, s: Section): nat {
    var left := PAGE_SIZE - InPage(s.start);
    if InPage(s.start) == 0 then RestSlots(t, s.start, s.size)
    else if s.size <= left then SubpageSlots(t, PageOf(s.start))
    else SubpageSlots(t, PageOf(s.start)) + RestSlots(t, s.start + left, s.size - left)
  }

  // Pages from this address on keep their entries.
  ghost predicate KeepsBeyond(t: Tables, t': Tables, from: nat) {
    forall page: nat | page < Span(P_L2_LEVELS) && from <= PageAddr(page) :: Leaf(t', page) == Leaf(t, page)
  }

  lemma KeepsOn(t: Tables, t': Tables, t'': Tables, from: nat, to: nat)
    requires KeepsBeyond(t, t', from) && KeepsBeyond(t', t'', to) && from <= to
    ensures KeepsBeyond(t, t'', to)
  {
    hide Leaf, PageAddr, Span, P_L2_LEVELS;
  }

  lemma KeepsSelf(t: Tables, from: nat)
    ensures KeepsBeyond(t, t, from)
  {
  }

  // A change to one page is seen on no page behind it.
  lemma PageBeyond(t: Tables, t': Tables, s: Section, page: nat)
    requires InOnePage(s, page)
    requires forall other: nat | other < Span(P_L2_LEVELS) && other != page :: Leaf(t', other) == Leaf(t, other)
    ensures KeepsBeyond(t, t', s.start + s.size)
  {
    hide Leaf, Span, P_L2_LEVELS, PageAddr;
  }

  lemma PagesBeyond(t: Tables, t': Tables, s: Section)
    requires PageAligned(s)
    requires forall other: nat | other < Span(P_L2_LEVELS) &&
             !(PageOf(s.start) <= other < PageOf(s.start) + PageOf(s.size)) ::
               Leaf(t', other) == Leaf(t, other)
    ensures KeepsBeyond(t, t', s.start + s.size)
  {
    hide Leaf, Span, P_L2_LEVELS, PageAddr, PageOf, InPage;
    AddrSplit(s.start, PageOf(s.start));
    AddrSplit(s.size, PageOf(s.size));
    PageAddrSum(PageOf(s.start), PageOf(s.size));
    forall page: nat | s.start + s.size <= PageAddr(page)
      ensures PageOf(s.start) + PageOf(s.size) <= page
    {
      if page < PageOf(s.start) + PageOf(s.size) {
        PageAddrMonotone(page, PageOf(s.start) + PageOf(s.size));
      }
    }
  }

  lemma StartsInTable(s: Section)
    requires s.size > 0 && s.start + s.size <= ADDR_LIMIT
    ensures PageOf(s.start) < Span(P_L2_LEVELS)
  {
    hide PageOf, Span, P_L2_LEVELS;
    PageInTable(s.start);
  }

  lemma FewSections(t: Tables)
    requires PagesOk(t)
    ensures |t.sections| <= PAGE_SIZE
  {
  }

  // The last piece, shorter than a page.
  lemma TailSlots(t: Tables, now: Tables, from: nat, rest: nat)
    requires InPage(from) == 0 && 0 < rest < PAGE_SIZE && KeepsBeyond(t, now, from) && PageOf(from) < Span(P_L2_LEVELS)
    ensures RestSlots(t, from, rest) == SubpageSlots(now, PageOf(from))
    ensures RestSlots(t, from + rest, 0) == 0
  {
    hide Leaf, PageOf, InPage, PageAddr, Span, P_L2_LEVELS;
    AddrSplit(from, PageOf(from));
    AddrSplit(from + rest, PageOf(from));
    AddrSplit(rest, 0);
    AddrSplit(0, 0);
    assert PageAddr(0) == 0 by { PageAddrSum(0, 0); }
  }

  // The whole pages, and then the last piece.
  lemma PagesSlots(t: Tables, from: nat, rest: nat)
    requires rest >= PAGE_SIZE
    ensures InPage(rest) < PAGE_SIZE <= rest
    ensures RestSlots(t, from, rest) == 1 + RestSlots(t, from + (rest - InPage(rest)), InPage(rest))
  {
    hide Leaf, PageOf, InPage, PageAddr;
    AddrSplit(rest, PageOf(rest));
    AddrSplit(InPage(rest), 0);
    assert PageAddr(0) == 0 by { PageAddrSum(0, 0); }
  }

  lemma SlotsBounds(t: Tables, s: Section)
    ensures 0 < SlotsNeeded(t, s) <= 5 || s.size == 0
    ensures RestSlots(t, s.start + s.size, 0) == 0
  {
    hide Leaf, PageOf, InPage, PageAddr;
    AddrSplit(0, 0);
    AddrSplit(s.size, 0);
    assert PageAddr(0) == 0 by { PageAddrSum(0, 0); }
  }

  // An unmapped section inside a page finds the page unused or split already.
  lemma UnmappedByte(t: Tables, s: Section, page: nat)
    requires PagesOk(t) && InOnePage(s, page) && Unmapped(t, s)
    ensures PageOf(s.start) == page < ADDR_PAGES <= Span(P_L2_LEVELS)
    ensures PageOf(PageAddr(page)) == page && InPage(s.start) == s.start - PageAddr(page)
    ensures Leaf(t, page) < |t.sections| && Checked(t.sections, Leaf(t, page), PageAddr(page)) == Leaf(t, page)
    ensures PageOk(t.sections, t.subpages, Leaf(t, page), page)
    ensures Leaf(t, page) == PHYS_SECTION_UNASSIGNED || t.sections[Leaf(t, page)].mr.SubpageRegion?
    ensures Leaf(t, page) == PHYS_SECTION_UNASSIGNED ==> t.sections[Leaf(t, page)].mr == IoUnassigned
  {
    hide PageOf, InPage, PageAddr, Walk, Span;
    ContainsInPage(s, page, s.start);
    AddrSplit(s.start, page);
    PageInTable(s.start);
    ResolvePage(t, s.start);
    ResolvePage(t, PageAddr(page));
  }

  // t' keeps the meaning of the pages other than `page`, up to new section and sub-page numbers.
  ghost predicate Elsewhere(t: Tables, t': Tables, page: nat) {
    && t.sections <= t'.sections && |t.subpages| <= |t'.subpages|
    && (forall i: nat | i < Span(P_L2_LEVELS) && i != page :: Leaf(t', i) == Leaf(t, i))
    && (forall id | 0 <= id < |t.subpages| && t.subpages[id].base != PageAddr(page) ::
         t'.subpages[id] == t.subpages[id])
  }

  lemma ElsewhereOk(t: Tables, t': Tables, page: nat, i: nat)
    requires PagesOk(t) && Elsewhere(t, t', page) && i != page && i < Span(P_L2_LEVELS)
    ensures PageOk(t'.sections, t'.subpages, Leaf(t', i), i)
    ensures Leaf(t, i) < |t.sections| && t'.sections[Leaf(t, i)] == t.sections[Leaf(t, i)]
    ensures var mr := t.sections[Leaf(t, i)].mr;
            mr.SubpageRegion? ==> mr.id < |t.subpages| && t'.subpages[mr.id] == t.subpages[mr.id]
  {
    hide PageOf, InPage, PageAddr, Walk, Span;
    var leaf := Leaf(t, i);
    assert PageOk(t.sections, t.subpages, leaf, i);
    PageAddrMonotone(i, page);
    PageAddrMonotone(page, i);
    if leaf != PHYS_SECTION_UNASSIGNED && t.sections[leaf].mr.SubpageRegion? {
      var id := t.sections[leaf].mr.id;
      assert t'.subpages[id] == t.subpages[id];
      var b: nat :| b < PAGE_SIZE && t.subpages[id].subSection[b] != PHYS_SECTION_UNASSIGNED;
      assert t'.subpages[id].subSection[b] != PHYS_SECTION_UNASSIGNED;
    }
  }

  /** The page `page` is split in t', its bytes [start, start + size) belong to s
      and the others to what they belonged to before. */
  ghost predicate SplitPage(t: Tables, t': Tables, s: Section, page: nat)
    requires PagesOk(t) && page < Span(P_L2_LEVELS) && InOnePage(s, page)
  {
    var lo := s.start - PageAddr(page);
    var leaf, leaf' := Leaf(t, page), Leaf(t', page);
    && DUMMY_SECTIONS <= leaf' < |t'.sections| && t'.sections[leaf'].start == PageAddr(page) &&
       t'.sections[leaf'].size == PAGE_SIZE
    && t'.sections[leaf'].mr.SubpageRegion? && t'.sections[leaf'].mr.id < |t'.subpages|
    && |t'.sections| > |t.sections| && t'.sections[|t'.sections| - 1] == s
    && var sub := t'.subpages[t'.sections[leaf'].mr.id];
       if leaf == PHYS_SECTION_UNASSIGNED then
         sub == WithBytes(EmptySubpage(page), lo, lo + s.size, |t'.sections| - 1)
       else
         && leaf' == leaf && PageOk(t.sections, t.subpages, leaf, page) && t.sections[leaf].mr.SubpageRegion?
         && sub == WithBytes(t.subpages[t.sections[leaf].mr.id], lo, lo + s.size, |t'.sections| - 1)
  }

  lemma SplitPageOk(t: Tables, t': Tables, s: Section, page: nat)
    requires PagesOk(t) && page < Span(P_L2_LEVELS) && InOnePage(s, page) && s.mr.Guest? && page < ADDR_PAGES
    requires Elsewhere(t, t', page) && SplitPage(t, t', s, page)
    ensures PageOk(t'.sections, t'.subpages, Leaf(t', page), page)
  {
    hide PageOf, InPage, PageAddr, Walk, Span;
    var leaf' := Leaf(t', page);
    var sub := t'.subpages[t'.sections[leaf'].mr.id];
    AddrSplit(PageAddr(page), page);
    PageEndsInside(page);
    var b := s.start - PageAddr(page);
    assert 0 <= b < PAGE_SIZE;
    if Leaf(t, page) == PHYS_SECTION_UNASSIGNED {
      assert sub.subSection[b] == |t'.sections| - 1;
      assert SubpageOk(t'.sections, sub, page);
    } else {
      assert sub.subSection[b] == |t'.sections| - 1;
      assert SubpageOk(t'.sections, sub, page);
    }
  }

  lemma PageEndsInside(page: nat)
    requires page < ADDR_PAGES
    ensures PageAddr(page) + PAGE_SIZE <= ADDR_LIMIT && InPage(PAGE_SIZE) == 0
  {
    TableSpansAddressSpace();
    PageAddrMonotone(page, ADDR_PAGES);
    DivModUnique(PAGE_SIZE, PAGE_SIZE, 1, 0);
  }

  lemma AddBytes(t: Tables, t': Tables, s: Section, page: nat)
    requires PagesOk(t) && page < Span(P_L2_LEVELS) && InOnePage(s, page) && s.mr.Guest? && page < ADDR_PAGES
    requires Elsewhere(t, t', page) && SplitPage(t, t', s, page) && |t'.sections| <= PAGE_SIZE
    ensures PagesOk(t') && Adds(t, t', s)
  {
    hide PageOf, InPage, PageAddr, Walk, Span, ADDR_LIMIT, PAGE_SIZE;
    forall i: nat | i < Span(P_L2_LEVELS)
      ensures PageOk(t'.sections, t'.subpages, Leaf(t', i), i)
    {
      if i == page { SplitPageOk(t, t', s, page); } else { ElsewhereOk(t, t', page, i); }
    }
    forall i: nat, j: nat | i < Span(P_L2_LEVELS) && j < Span(P_L2_LEVELS)
      ensures SameSection(t', i, j)
    {
      SplitSameSection(t, t', s, page, i, j);
    }
    PagesOkReadable(t);
    PagesOkReadable(t');
    forall addr: nat | addr < ADDR_LIMIT
      ensures Resolve(t', addr) == if Contains(s, addr) then Translate(s, addr) else Resolve(t, addr)
    {
      SplitResolve(t, t', s, page, addr);
    }
  }

  lemma SplitSameSection(t: Tables, t': Tables, s: Section, page: nat, i: nat, j: nat)
    requires PagesOk(t) && page < Span(P_L2_LEVELS) && InOnePage(s, page)
    requires Elsewhere(t, t', page) && SplitPage(t, t', s, page)
    requires i < Span(P_L2_LEVELS) && j < Span(P_L2_LEVELS)
    ensures SameSection(t', i, j)
  {
    hide PageOf, InPage, PageAddr, Walk, Span;
    assert SameSection(t, i, j);
    PageAddrMonotone(page, j);
    PageAddrMonotone(j, page);
    if i != page {
      ElsewhereOk(t, t', page, i);
    }
    assert PageOk(t.sections, t.subpages, Leaf(t, i), i);
    assert SameSection(t, i, page);
  }

  lemma SplitResolve(t: Tables, t': Tables, s: Section, page: nat, addr: nat)
    requires PagesOk(t) && PagesOk(t') && page < Span(P_L2_LEVELS) && InOnePage(s, page)
    requires Elsewhere(t, t', page) && SplitPage(t, t', s, page) && addr < ADDR_LIMIT
    ensures ReadableAt(t, addr) && ReadableAt(t', addr)
    ensures Resolve(t', addr) == if Contains(s, addr) then Translate(s, addr) else Resolve(t, addr)
  {
    hide PageOf, InPage, PageAddr, Walk, Span;
    ContainsInPage(s, page, addr);
    if PageOf(addr) == page {
      SplitResolveHere(t, t', s, page, addr);
    } else {
      PageInTable(addr);
      ResolvePage(t, addr);
      ResolvePage(t', addr);
      ElsewhereOk(t, t', page, PageOf(addr));
    }
  }

  lemma SplitResolveHere(t: Tables, t': Tables, s: Section, page: nat, addr: nat)
    requires PagesOk(t) && PagesOk(t') && page < Span(P_L2_LEVELS) && InOnePage(s, page)
    requires Elsewhere(t, t', page) && SplitPage(t, t', s, page) && addr < ADDR_LIMIT && PageOf(addr) == page
    ensures ReadableAt(t, addr) && ReadableAt(t', addr)
    ensures Resolve(t', addr) == if Contains(s, addr) then Translate(s, addr) else Resolve(t, addr)
  {
    hide PageOf, InPage, PageAddr, Walk, Span;
    ContainsInPage(s, page, addr);
    ResolvePage(t, addr);
    ResolvePage(t', addr);
    var leaf, leaf' := Leaf(t, page), Leaf(t', page);
    var n := t'.subpages[t'.sections[leaf'].mr.id].subSection[InPage(addr)];
    if leaf == PHYS_SECTION_UNASSIGNED {
      assert n == if Contains(s, addr) then |t'.sections| - 1 else PHYS_SECTION_UNASSIGNED;
    } else {
      assert n == if Contains(s, addr) then |t'.sections| - 1
                  else t.subpages[t.sections[leaf].mr.id].subSection[InPage(addr)];
    }
  }

  // A page that carried nothing is split for s.
  lemma AddBytesFresh(t: Tables, t': Tables, s: Section, page: nat)
    requires PagesOk(t) && InOnePage(s, page) && s.mr.Guest? && page < ADDR_PAGES <= Span(P_L2_LEVELS)
    requires Leaf(t, page) == PHYS_SECTION_UNASSIGNED && |t.sections| + 2 <= PAGE_SIZE
    requires t'.sections == t.sections + [Section(SubpageRegion(|t.subpages|), PageAddr(page), 0, PAGE_SIZE)] + [s]
    requires t'.subpages == t.subpages + [WithBytes(EmptySubpage(page),
               s.start - PageAddr(page), s.start - PageAddr(page) + s.size, |t.sections| + 1)]
    requires forall i: nat | i < Span(P_L2_LEVELS) :: Leaf(t', i) == if i == page then |t.sections| else Leaf(t, i)
    ensures PagesOk(t') && Adds(t, t', s)
  {
    assert |t.sections| >= DUMMY_SECTIONS;
    hide PageOf, InPage, PageAddr, Walk, Span, Adds, PagesOk, PageOk, WithBytes, EmptySubpage, P_L2_LEVELS;
    assert Elsewhere(t, t', page);
    assert SplitPage(t, t', s, page);
    AddBytes(t, t', s, page);
  }

  // A page that is split already takes s as well.
  lemma AddBytesAgain(t: Tables, t': Tables, s: Section, page: nat)
    requires PagesOk(t) && InOnePage(s, page) && s.mr.Guest? && page < ADDR_PAGES <= Span(P_L2_LEVELS)
    requires PageOk(t.sections, t.subpages, Leaf(t, page), page) && |t.sections| + 1 <= PAGE_SIZE
    requires Leaf(t, page) != PHYS_SECTION_UNASSIGNED && t.sections[Leaf(t, page)].mr.SubpageRegion?
    requires t'.sections == t.sections + [s]
    requires var id := t.sections[Leaf(t, page)].mr.id;
             t'.subpages == t.subpages[id := WithBytes(t.subpages[id],
               s.start - PageAddr(page), s.start - PageAddr(page) + s.size, |t.sections|)]
    requires forall i: nat | i < Span(P_L2_LEVELS) :: Leaf(t', i) == Leaf(t, i)
    ensures PagesOk(t') && Adds(t, t', s)
  {
    hide PageOf, InPage, PageAddr, Walk, Span, Adds;
    var leaf := Leaf(t, page);
    assert t'.sections[leaf] == t.sections[leaf];
    AddrSplit(PageAddr(page), page);
    SplitSectionStart(t.sections[leaf], page);
    AddBytes(t, t', s, page);
  }

  lemma SplitSectionStart(s: Section, page: nat)
    requires s.size == PAGE_SIZE && Covers(s, page)
    ensures s.start == PageAddr(page)
  {
  }

  // ---- putting pieces together ----

  // The first `size` bytes of s.
  function Prefix(s: Section, size: nat): Section {
    s.(size := size)
  }

  // The part of s that follows its first `skip` bytes.
  function Suffix(s: Section, skip: nat, size: nat): Section {
    Section(s.mr, s.start + skip, s.offset + skip, size)
  }

  lemma AddsNothing(t: Tables, s: Section)
    requires Readable(t)
    ensures Adds(t, t, Prefix(s, 0))
  {
  }

  lemma AddsCompose(t0: Tables, t1: Tables, t2: Tables, s: Section, size: nat, more: nat)
    requires Adds(t0, t1, Prefix(s, size)) && Adds(t1, t2, Suffix(s, size, more))
    ensures Adds(t0, t2, Prefix(s, size + more))
  {
  }

  lemma SuffixUnmapped(t0: Tables, t1: Tables, s: Section, size: nat, more: nat)
    requires PagesOk(t0) && PagesOk(t1) && Unmapped(t0, s) && Adds(t0, t1, Prefix(s, size)) && size + more <= s.size
    ensures Unmapped(t1, Suffix(s, size, more))
  {
  }

  // Cutting an aligned start of at least a page at the last page boundary.
  lemma WholePages(s: Section)
    requires InPage(s.start) == 0 && s.size >= PAGE_SIZE && s.start + s.size <= ADDR_LIMIT
    ensures PageAligned(s.(size := s.size - InPage(s.size)))
    ensures InPage(s.start + (s.size - InPage(s.size))) == 0
  {
    hide PageOf, InPage, PageAddr;
    AddrSplit(s.start, PageOf(s.start));
    AddrSplit(s.size, PageOf(s.size));
    AddrSplit(0, PageOf(s.size));
    PageAddrSum(PageOf(s.start), PageOf(s.size));
    AddrSplit(0, PageOf(s.start) + PageOf(s.size));
  }

  // An aligned piece shorter than a page, and a piece that ends no later than its page.
  lemma ShortPiece(s: Section)
    requires 0 < s.size && InPage(s.start) + s.size <= PAGE_SIZE && s.start + s.size <= ADDR_LIMIT
    ensures InOnePage(s, PageOf(s.start))
    ensures InPage(s.start) + s.size == PAGE_SIZE ==> InPage(s.start + s.size) == 0
  {
    hide PageOf, InPage, PageAddr;
    AddrSplit(s.start, PageOf(s.start));
    AddrSplit(0, PageOf(s.start) + 1);
  }

  // ---- path compression ----

  /** phys_page_compact_all changes no lookup: a page that compression redirects
      was unassigned, and the range check sends it back to unassigned. */
  lemma CompactionKeepsLookups(t: Tables, t': Tables, homes: seq<Home>, addr: nat)
    requires TableOk(t.nodes, homes) && SlotOk(homes, t.root, P_L2_LEVELS, 0) && PagesOk(t)
    requires CompactedFrom(t.nodes, homes, t'.nodes)
    requires t'.root == t.root || t'.root == CompactEntry(t.nodes, t.root, P_L2_LEVELS)
    requires t'.sections == t.sections && t'.subpages == t.subpages
    requires addr < ADDR_LIMIT
    ensures ReadableAt(t, addr) && Leaf(t', PageOf(addr)) < |t.sections|
    ensures Checked(t.sections, Leaf(t', PageOf(addr)), addr) == Checked(t.sections, Leaf(t, PageOf(addr)), addr)
    ensures ReadableAt(t', addr) && Resolve(t', addr) == Resolve(t, addr)
  {
    hide PageOf, InPage, PageAddr, Walk, Span, CompactEntry, Part;
    var page := PageOf(addr);
    PageInTable(addr);
    ResolvePage(t, addr);
    WholeRange(page, P_L2_LEVELS);
    var j := WalkCompacted(t.nodes, homes, t'.nodes, t.root, t'.root, P_L2_LEVELS, 0, page);
    WholeRange(j, P_L2_LEVELS);
    assert PageOk(t.sections, t.subpages, Leaf(t, j), j);
    if Leaf(t', page) != Leaf(t, page) {
      StrayLeafFailsCheck(t, j, addr);
    }
  }

  // Outside its own pages, a section does not pass the range check.
  lemma StrayLeafFailsCheck(t: Tables, j: nat, addr: nat)
    requires PagesOk(t) && addr < ADDR_LIMIT && j < Span(P_L2_LEVELS)
    requires Leaf(t, PageOf(addr)) == PHYS_SECTION_UNASSIGNED
    ensures Leaf(t, j) < |t.sections| && Checked(t.sections, Leaf(t, j), addr) == PHYS_SECTION_UNASSIGNED
  {
    hide PageOf, InPage, PageAddr, Walk, Span;
    PageInTable(addr);
    var leaf := Leaf(t, j);
    assert PageOk(t.sections, t.subpages, leaf, j);
    if leaf != PHYS_SECTION_UNASSIGNED {
      assert SameSection(t, j, PageOf(addr));
      AlignedCovers(t.sections[leaf], addr);
    }
  }
}
