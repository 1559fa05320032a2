/**
 Memory sections of exec.c: what a page of the dispatch table stands for once
 its section number is known.
*/
module Sections {
  import opened Geometry

  const PHYS_SECTION_UNASSIGNED: nat := 0
  const PHYS_SECTION_NOTDIRTY: nat := 1
  const PHYS_SECTION_ROM: nat := 2
  const PHYS_SECTION_WATCH: nat := 3
  const DUMMY_SECTIONS: nat := 4

  datatype Region = IoUnassigned | IoNotdirty | IoRom | IoWatch | SubpageRegion(id: nat) | Guest(name: nat)

  // `start` is offset_within_address_space, `offset` is offset_within_region.
  datatype Section = Section(mr: Region, start: nat, offset: nat, size: nat)

  // subpage_t: one section number for every byte of the page at `base`.
  datatype Subpage = Subpage(base: nat, subSection: seq<nat>)

  predicate Contains(s: Section, addr: nat) {
    s.start <= addr < s.start + s.size
  }

  // The region and the offset in it at which an access to addr lands.
  function Translate(s: Section, addr: nat): (Region, int) {
    (s.mr, addr - s.start + s.offset)
  }

  // The range check that ends phys_page_find; a size of 2^64 skips it.
  function Checked(sections: seq<Section>, leaf: nat, addr: nat): nat
    requires leaf < |sections|
  {
    if sections[leaf].size >= ADDR_LIMIT || Contains(sections[leaf], addr) then leaf else PHYS_SECTION_UNASSIGNED
  }

  // address_space_lookup_region with resolve_subpage, for a page with this leaf.
  function SectionFor(sections: seq<Section>, subpages: seq<Subpage>, leaf: nat, addr: nat): nat
    requires leaf < |sections|
    requires var s := sections[Checked(sections, leaf, addr)].mr;
             s.SubpageRegion? ==> s.id < |subpages| && |subpages[s.id].subSection| == PAGE_SIZE
  {
    var n := Checked(sections, leaf, addr);
    match sections[n].mr
    case SubpageRegion(id) => subpages[id].subSection[InPage(addr)]
    case _ => n
  }

  ghost predicate Covers(s: Section, page: nat) {
    s.start <= PageAddr(page) && PageAddr(page) + PAGE_SIZE <= s.start + s.size
  }

  predicate PageAligned(s: Section) {
    InPage(s.start) == 0 && InPage(s.size) == 0 && s.size > 0 && s.start + s.size <= ADDR_LIMIT
  }

  ghost predicate GuestSection(sections: seq<Section>, n: nat) {
    DUMMY_SECTIONS <= n < |sections| && sections[n].mr.Guest?
  }

  ghost predicate SubpageOk(sections: seq<Section>, sub: Subpage, page: nat) {
    && sub.base == PageAddr(page) && |sub.subSection| == PAGE_SIZE
    && (forall b | 0 <= b < PAGE_SIZE ::
        sub.subSection[b] == PHYS_SECTION_UNASSIGNED || GuestSection(sections, sub.subSection[b]))
    && exists b :: 0 <= b < PAGE_SIZE && sub.subSection[b] != PHYS_SECTION_UNASSIGNED
  }

  // What the table may store for a page.
  ghost predicate PageOk(sections: seq<Section>, subpages: seq<Subpage>, leaf: nat, page: nat) {
    leaf == PHYS_SECTION_UNASSIGNED ||
    (&& DUMMY_SECTIONS <= leaf < |sections|
     && PageAligned(sections[leaf]) && Covers(sections[leaf], page)
     && (match sections[leaf].mr
         case Guest(_) => true
         case SubpageRegion(id) =>
           id < |subpages| && sections[leaf].size == PAGE_SIZE && SubpageOk(sections, subpages[id], page)
         case _ => false))
  }

  ghost predicate DummiesOk(sections: seq<Section>) {
    && |sections| >= DUMMY_SECTIONS
    && sections[PHYS_SECTION_UNASSIGNED] == Section(IoUnassigned, 0, 0, ADDR_LIMIT)
    && sections[PHYS_SECTION_NOTDIRTY] == Section(IoNotdirty, 0, 0, ADDR_LIMIT)
    && sections[PHYS_SECTION_ROM] == Section(IoRom, 0, 0, ADDR_LIMIT)
    && sections[PHYS_SECTION_WATCH] == Section(IoWatch, 0, 0, ADDR_LIMIT)
  }

  // On a page that is as it should be, the range check passes.
  lemma PageChecked(sections: seq<Section>, subpages: seq<Subpage>, leaf: nat, addr: nat)
    requires DummiesOk(sections) && PageOk(sections, subpages, leaf, PageOf(addr))
    ensures Checked(sections, leaf, addr) == leaf
  {
    AddrSplit(addr, PageOf(addr));
  }

  // An aligned section that contains one byte of a page covers the page.
  lemma AlignedCovers(s: Section, addr: nat)
    requires PageAligned(s)
    ensures Contains(s, addr) <==> Covers(s, PageOf(addr))
  {
    hide PageOf, PageAddr, InPage;
    var first, count := PageOf(s.start), PageOf(s.size);
    var end := s.start + s.size;
    AddrSplit(s.start, first);
    AddrSplit(s.size, count);
    PageAddrSum(first, count);
    AddrSplit(addr, PageOf(addr));
    PageAddrMonotone(PageOf(addr), first);
    PageAddrMonotone(first, PageOf(addr));
    PageAddrMonotone(PageOf(addr), first + count);
  }

  lemma AlignedRange(s: Section)
    requires PageAligned(s)
    ensures PageOf(s.size) > 0 && PageOf(s.start) + PageOf(s.size) <= ADDR_PAGES
    ensures forall page: nat :: Covers(s, page) <==> PageOf(s.start) <= page < PageOf(s.start) + PageOf(s.size)
  {
    hide PageOf, PageAddr, InPage;
    var first, count := PageOf(s.start), PageOf(s.size);
    AddrSplit(s.start, first);
    AddrSplit(s.size, count);
    PageAddrSum(first, count);
    PageAddrMonotone(count, 0);
    TableEnd();
    PageAddrMonotone(first + count, ADDR_PAGES);
    forall page: nat
      ensures Covers(s, page) <==> first <= page < first + count
    {
      PageAddrMonotone(first, page);
      PageAddrMonotone(page, first + count);
    }
  }

  lemma TableEnd()
    ensures PageAddr(ADDR_PAGES) == ADDR_LIMIT && PageAddr(0) == 0
  {
    TableSpansAddressSpace();
  }
}
