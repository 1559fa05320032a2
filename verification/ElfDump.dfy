/** The ELF form of a guest memory dump (dump.c, memory_mapping.c): the list of guest
    memory blocks, the filter, the order in which memory is written, and the file ranges
    that the program headers claim. */
module ElfDump {
  import opened Arithmetic
  import opened ElfFormat
  import opened Geometry
  import opened Options

  /** GuestPhysBlock: guest memory [start, end) that the host keeps at `host`. */
  datatype Block = Block(start: nat, end: nat, host: nat)

  datatype Mapping = Mapping(phys: nat, virt: nat, length: nat)

  /** What a program header says of a mapping; no offset stands for -1. */
  datatype Load = Load(phys: nat, virt: nat, offset: Option<nat>, filesz: nat, memsz: nat)
  {
    // As it is handed to write_elf64_load or write_elf32_load.
    function Header(): Phdr {
      Phdr(PT_LOAD, if offset.Some? then offset.value else Limit(true) - 1, virt, phys, filesz, memsz)
    }

    // As it is meant to be read: -1 has the width of the class.
    function Meant(class64: bool): Phdr {
      Phdr(PT_LOAD, if offset.Some? then offset.value else Limit(class64) - 1, virt, phys, filesz, memsz)
    }
  }

  /** A header is stored as it is meant if and only if its values fit, -1 apart. */
  lemma MeantExact(class64: bool, load: Load)
    ensures Narrow(class64, load.Header()) == load.Meant(class64) <==>
            && (load.offset.Some? ==> load.offset.value < Limit(class64))
            && load.virt < Limit(class64) && load.phys < Limit(class64)
            && load.filesz < Limit(class64) && load.memsz < Limit(class64)
  {
  }

  // Host memory does not change while the guest is stopped.
  type Host = nat -> byte

  function Bytes(host: Host, at: nat, n: nat): (r: Data)
    ensures |r| == n && forall i | 0 <= i < n :: r[i] == host(at + i)
  {
    seq(n, i requires 0 <= i => host(at + i))
  }

  lemma BytesJoin(host: Host, at: nat, m: nat, n: nat)
    ensures Bytes(host, at, m) + Bytes(host, at + m, n) == Bytes(host, at, m + n)
  {
  }

  // ---- the block list ----

  /** The blocks are in ascending order and do not overlap. */
  ghost predicate Sorted(blocks: seq<Block>) {
    && (forall i | 0 <= i < |blocks| :: blocks[i].start <= blocks[i].end)
    && (forall i, j | 0 <= i < j < |blocks| :: blocks[i].end <= blocks[j].start)
  }

  predicate Has(b: Block, addr: nat) {
    b.start <= addr < b.end
  }

  // The host keeps the byte at `addr` at `at`.
  ghost predicate Backed(blocks: seq<Block>, addr: nat, at: nat) {
    exists i :: 0 <= i < |blocks| && Has(blocks[i], addr) && at == blocks[i].host + (addr - blocks[i].start)
  }

  ghost predicate InRam(blocks: seq<Block>, addr: nat) {
    exists i :: 0 <= i < |blocks| && Has(blocks[i], addr)
  }

  lemma BackedOnce(blocks: seq<Block>, addr: nat, at: nat, at': nat)
    requires Sorted(blocks) && Backed(blocks, addr, at) && Backed(blocks, addr, at')
    ensures at == at'
  {
  }

  // The block list with one more section: a section that continues the last block joins it.
  function Join(blocks: seq<Block>, section: Block): seq<Block> {
    if blocks == [] then [section]
    else
      var last := blocks[|blocks| - 1];
      if last.end == section.start && last.host + (last.end - last.start) == section.host then
        blocks[|blocks| - 1 := last.(end := section.end)]
      else
        blocks + [section]
  }

  function BlocksOf(sections: seq<Block>): seq<Block> {
    if sections == [] then [] else Join(BlocksOf(sections[..|sections| - 1]), sections[|sections| - 1])
  }

  lemma NoSections(sections: seq<Block>)
    ensures BlocksOf(sections[..0]) == []
  {
  }

  lemma BlocksNext(sections: seq<Block>, i: nat)
    requires i < |sections|
    ensures BlocksOf(sections[..i + 1]) == Join(BlocksOf(sections[..i]), sections[i])
  {
    assert sections[..i + 1][..i] == sections[..i];
  }

  // No block ends behind the last section.
  lemma {:induction false} EndsBelow(sections: seq<Block>, limit: nat)
    requires forall i | 0 <= i < |sections| :: sections[i].end <= limit
    ensures forall i | 0 <= i < |BlocksOf(sections)| :: BlocksOf(sections)[i].end <= limit
  {
    if sections != [] {
      EndsBelow(sections[..|sections| - 1], limit);
    }
  }

  // Sections with gaps between them stay as they are.
  lemma {:induction false} BlocksApart(sections: seq<Block>)
    requires forall i, j | 0 <= i < j < |sections| :: sections[i].end < sections[j].start
    ensures BlocksOf(sections) == sections
  {
    if sections != [] {
      var n := |sections| - 1;
      BlocksApart(sections[..n]);
      assert sections == sections[..n] + [sections[n]];
    }
  }

  /** guest_phys_blocks_region_add, for a RAM section given as a block of its own. The
      memory API adds sections in ascending order. */
  method RegionAdd(blocks: seq<Block>, section: Block) returns (r: seq<Block>)
    requires Sorted(blocks) && section.start <= section.end
    requires blocks != [] ==> blocks[|blocks| - 1].end <= section.start
    ensures Sorted(r) && r != [] && r[|r| - 1].end == section.end && |r| <= |blocks| + 1 && r == Join(blocks, section)
    ensures forall addr: nat, at: nat :: Backed(r, addr, at) <==>
              Backed(blocks, addr, at) || (Has(section, addr) && at == section.host + (addr - section.start))
  {
    if blocks != [] {
      var last := blocks[|blocks| - 1];
      if last.end == section.start && last.host + (last.end - last.start) == section.host {
        r := blocks[|blocks| - 1 := last.(end := section.end)];
        forall addr: nat, at: nat
          ensures Backed(r, addr, at) <==>
                    Backed(blocks, addr, at) || (Has(section, addr) && at == section.host + (addr - section.start))
        {
          Joined(blocks, section, r, addr, at);
        }
        return;
      }
    }
    r := blocks + [section];
    forall addr: nat, at: nat
      ensures Backed(r, addr, at) <==>
                Backed(blocks, addr, at) || (Has(section, addr) && at == section.host + (addr - section.start))
    {
      Added(blocks, section, addr, at);
    }
  }

  lemma Added(blocks: seq<Block>, section: Block, addr: nat, at: nat)
    ensures Backed(blocks + [section], addr, at) <==>
              Backed(blocks, addr, at) || (Has(section, addr) && at == section.host + (addr - section.start))
  {
    var r := blocks + [section];
    assert forall i | 0 <= i < |blocks| :: r[i] == blocks[i];
    assert r[|blocks|] == section;
  }

  lemma Joined(blocks: seq<Block>, section: Block, r: seq<Block>, addr: nat, at: nat)
    requires blocks != [] && section.start <= section.end
    requires var last := blocks[|blocks| - 1];
             last.start <= last.end == section.start && last.host + (last.end - last.start) == section.host &&
                 r == blocks[|blocks| - 1 := last.(end := section.end)]
    ensures Backed(r, addr, at) <==>
              Backed(blocks, addr, at) || (Has(section, addr) && at == section.host + (addr - section.start))
  {
    var n := |blocks| - 1;
    assert forall i | 0 <= i < n :: r[i] == blocks[i];
    assert r[n].start == blocks[n].start && r[n].host == blocks[n].host;
  }

  // ---- the filter ----

  datatype Filter = NoFilter | Filter(begin: nat, length: nat)
  {
    function Limit(): nat
      requires Filter?
    {
      begin + length
    }

    predicate Out(b: Block) {
      Filter? && (b.start >= Limit() || b.end <= begin)
    }

    function Lo(b: Block): nat {
      if Filter? && begin > b.start then begin else b.start
    }

    function Hi(b: Block): nat {
      if Filter? && Limit() < b.end then Limit() else b.end
    }

    predicate Keeps(addr: nat) {
      Filter? ==> begin <= addr < Limit()
    }
  }

  lemma Inside(f: Filter, b: Block)
    requires b.start <= b.end && !f.Out(b)
    ensures b.start <= f.Lo(b) <= f.Hi(b) <= b.end
    ensures forall addr: nat :: f.Lo(b) <= addr < f.Hi(b) <==> Has(b, addr) && f.Keeps(addr)
  {
  }

  // The mapping of what the filter keeps of a block.
  function Cut(f: Filter, b: Block): Mapping {
    Mapping(f.Lo(b), 0, if f.Lo(b) <= f.Hi(b) then f.Hi(b) - f.Lo(b) else 0)
  }

  /** The mappings of a dump without paging: one for each block that the filter does not leave out. */
  function MappingsOf(f: Filter, blocks: seq<Block>): (list: seq<Mapping>)
    ensures |list| <= |blocks|
  {
    if blocks == [] then []
    else
      var n := |blocks| - 1;
      MappingsOf(f, blocks[..n]) + if f.Out(blocks[n]) then [] else [Cut(f, blocks[n])]
  }

  // Where the mapping of a block is, and which block a mapping is of.
  lemma {:induction false} MappingOfBlock(f: Filter, blocks: seq<Block>, i: nat) returns (k: nat)
    requires i < |blocks| && !f.Out(blocks[i])
    ensures k < |MappingsOf(f, blocks)| && MappingsOf(f, blocks)[k] == Cut(f, blocks[i])
  {
    var n := |blocks| - 1;
    if i == n {
      k := |MappingsOf(f, blocks)| - 1;
    } else {
      k := MappingOfBlock(f, blocks[..n], i);
    }
  }

  lemma {:induction false} BlockOfMapping(f: Filter, blocks: seq<Block>, k: nat) returns (i: nat)
    requires k < |MappingsOf(f, blocks)|
    ensures i < |blocks| && !f.Out(blocks[i]) && MappingsOf(f, blocks)[k] == Cut(f, blocks[i])
  {
    var n := |blocks| - 1;
    if k < |MappingsOf(f, blocks[..n])| {
      i := BlockOfMapping(f, blocks[..n], k);
    } else {
      i := n;
    }
  }

  // What memory_mapping_filter makes of a mapping that it keeps.
  function CutMapping(m: Mapping, begin: nat, length: nat): Mapping
    requires m.phys < begin + length && begin < m.phys + m.length
  {
    var cut := if m.phys < begin then begin - m.phys else 0;
    var phys, rest := m.phys + cut, m.length - cut;
    Mapping(phys, if m.virt != 0 then m.virt + cut else 0,
            if phys + rest > begin + length then begin + length - phys else rest)
  }

  function Filtered(list: seq<Mapping>, begin: nat, length: nat): seq<Mapping> {
    if list == [] then []
    else
      var n := |list| - 1;
      Filtered(list[..n], begin, length)
      + if list[n].phys >= begin + length || list[n].phys + list[n].length <= begin then []
        else [CutMapping(list[n], begin, length)]
  }

  lemma NothingFiltered(list: seq<Mapping>, begin: nat, length: nat)
    ensures Filtered(list[..0], begin, length) == []
  {
  }

  lemma FilteredNext(list: seq<Mapping>, begin: nat, length: nat, i: nat)
    requires i < |list|
    ensures Filtered(list[..i + 1], begin, length) ==
            Filtered(list[..i], begin, length)
            + if list[i].phys >= begin + length || list[i].phys + list[i].length <= begin then []
              else [CutMapping(list[i], begin, length)]
  {
    assert list[..i + 1][..i] == list[..i];
  }

  lemma CutValue(m: Mapping, begin: nat, length: nat)
    requires m.phys < begin + length && begin < m.phys + m.length
    ensures var c := CutMapping(m, begin, length);
            && c.phys == (if m.phys < begin then begin else m.phys)
            && c.virt == (if m.virt != 0 then m.virt + (c.phys - m.phys) else 0)
            && c.phys + c.length == if m.phys + m.length > begin + length then begin + length else m.phys + m.length
  {
  }

  // Filtering the mappings of all blocks gives those of a dump.
  lemma {:induction false} FilteredMappings(f: Filter, blocks: seq<Block>, list: seq<Mapping>)
    requires f.Filter? && |list| == |blocks| && forall i | 0 <= i < |blocks| :: blocks[i].start <= blocks[i].end
    requires forall i | 0 <= i < |blocks| :: list[i] == Mapping(blocks[i].start, 0, blocks[i].end - blocks[i].start)
    ensures Filtered(list, f.begin, f.length) == MappingsOf(f, blocks)
  {
    if blocks != [] {
      var n := |blocks| - 1;
      FilteredMappings(f, blocks[..n], list[..n]);
    }
  }

  lemma {:induction false} AllMappings(blocks: seq<Block>, list: seq<Mapping>)
    requires |list| == |blocks| && forall i | 0 <= i < |blocks| :: blocks[i].start <= blocks[i].end
    requires forall i | 0 <= i < |blocks| :: list[i] == Mapping(blocks[i].start, 0, blocks[i].end - blocks[i].start)
    ensures list == MappingsOf(NoFilter, blocks)
  {
    if blocks != [] {
      var n := |blocks| - 1;
      AllMappings(blocks[..n], list[..n]);
      assert list == list[..n] + [list[n]];
    }
  }

  /** memory_mapping_filter: every mapping is cut to the filter, and those outside go. */
  method MappingFilter(list: seq<Mapping>, begin: nat, length: nat) returns (r: seq<Mapping>)
    ensures forall m | m in r :: begin <= m.phys && m.phys + m.length <= begin + length
    ensures forall addr: nat :: InMappings(r, addr) <==> InMappings(list, addr) && begin <= addr < begin + length
    ensures |r| <= |list| && (forall m | m in r :: PartOfSome(m, list)) && r == Filtered(list, begin, length)
  {
    hide Filtered, CutMapping;
    r := [];
    assert Filtered(list[..0], begin, length) == [] by { NothingFiltered(list, begin, length); }
    for i := 0 to |list|
      invariant (forall m | m in r :: PartOfSome(m, list)) && r == Filtered(list[..i], begin, length)
      invariant |r| <= i && forall m | m in r :: begin <= m.phys && m.phys + m.length <= begin + length
      invariant forall addr: nat :: InMappings(r, addr) <==>
                  InMappings(list[..i], addr) && begin <= addr < begin + length
    {
      var cur := list[i];
      MappedNext(list[..i], list[i]);
      assert list[..i + 1] == list[..i] + [list[i]];
      FilteredNext(list, begin, length, i);
      if cur.phys >= begin + length || cur.phys + cur.length <= begin {
        continue;
      }
      if cur.phys < begin {
        var cut := begin - cur.phys;
        cur := Mapping(begin, if cur.virt != 0 then cur.virt + cut else 0, cur.length - cut);
      }
      if cur.phys + cur.length > begin + length {
        cur := cur.(length := begin + length - cur.phys);
      }
      assert cur == CutMapping(list[i], begin, length) by { CutValue(list[i], begin, length); }
      MappedNext(r, cur);
      assert list[i].phys <= cur.phys && cur.phys + cur.length <= list[i].phys + list[i].length;
      r := r + [cur];
    }
    assert list[..|list|] == list;
  }

  ghost predicate PartOfSome(m: Mapping, list: seq<Mapping>) {
    exists k :: 0 <= k < |list| && list[k].phys <= m.phys && m.phys + m.length <= list[k].phys + list[k].length
  }

  ghost predicate InMappings(list: seq<Mapping>, addr: nat) {
    exists m :: m in list && m.phys <= addr < m.phys + m.length
  }

  lemma MappedNext(list: seq<Mapping>, m: Mapping)
    ensures forall addr: nat :: InMappings(list + [m], addr) <==>
              InMappings(list, addr) || m.phys <= addr < m.phys + m.length
  {
    assert m in list + [m];
  }

  // ---- the memory part of the file ----

  // The part of a block that is written.
  function Kept(f: Filter, host: Host, b: Block): Data {
    if f.Out(b) || f.Hi(b) < f.Lo(b) then [] else Bytes(host, b.host + (f.Lo(b) - b.start), f.Hi(b) - f.Lo(b))
  }

  /** Guest memory as one sequence: the kept parts of the blocks, in order. */
  function Layout(f: Filter, host: Host, blocks: seq<Block>): Data {
    if blocks == [] then [] else Layout(f, host, blocks[..|blocks| - 1]) + Kept(f, host, blocks[|blocks| - 1])
  }

  // The bytes of memory that the file holds for these blocks.
  function KeptBytes(f: Filter, blocks: seq<Block>): nat {
    if blocks == [] then 0
    else
      var m := Cut(f, blocks[|blocks| - 1]);
      KeptBytes(f, blocks[..|blocks| - 1]) + if f.Out(blocks[|blocks| - 1]) then 0 else m.length
  }

  lemma {:induction false} LayoutSize(f: Filter, host: Host, blocks: seq<Block>)
    ensures |Layout(f, host, blocks)| == KeptBytes(f, blocks)
  {
    if blocks != [] {
      LayoutSize(f, host, blocks[..|blocks| - 1]);
    }
  }

  lemma LayoutNext(f: Filter, host: Host, blocks: seq<Block>, i: nat)
    requires i < |blocks|
    ensures Layout(f, host, blocks[..i + 1]) == Layout(f, host, blocks[..i]) + Kept(f, host, blocks[i])
  {
    assert blocks[..i + 1][..i] == blocks[..i];
  }

  lemma {:induction false} LayoutPrefix(f: Filter, host: Host, blocks: seq<Block>, i: nat)
    requires i <= |blocks|
    ensures |Layout(f, host, blocks[..i])| <= |Layout(f, host, blocks)|
    ensures Layout(f, host, blocks)[..|Layout(f, host, blocks[..i])|] == Layout(f, host, blocks[..i])
    decreases |blocks| - i
  {
    hide Layout, Kept;
    if i < |blocks| {
      LayoutPrefix(f, host, blocks, i + 1);
      LayoutNext(f, host, blocks, i);
    } else {
      assert blocks[..i] == blocks;
    }
  }

  // ---- the writer ----

  const UINT16_MAX: nat := 0xffff
  const UINT32_MAX: nat := 0xffff_ffff

  // `n` program headers
  function PhdrsSize(class64: bool, n: nat): nat {
    n * PhdrSize(class64)
  }

  // With this many mappings or more, the number of headers does not fit e_phnum.
  const MANY: nat := UINT16_MAX - 2

  // The program headers for so many mappings, and where the memory then begins.
  function HeaderCount(mappings: nat): nat {
    if mappings < UINT32_MAX then 1 + mappings else UINT32_MAX
  }

  function MemoryAt(class64: bool, mappings: nat, noteSize: nat): nat {
    EhdrSize(class64) + PhdrsSize(class64, HeaderCount(mappings))
    + (if mappings < MANY then 0 else ShdrSize(class64)) + noteSize
  }

  // The program headers of the mappings, one after the other.
  function LoadTable(class64: bool, big: bool, loads: seq<Load>): Data {
    if loads == [] then []
    else
      var n := |loads| - 1;
      LoadTable(class64, big, loads[..n]) + Record(PhdrItems(class64, loads[n].Header()), big)
  }

  lemma {:induction false} TableSize(class64: bool, big: bool, loads: seq<Load>)
    ensures |LoadTable(class64, big, loads)| == PhdrsSize(class64, |loads|)
  {
    hide Record, PhdrItems, PhdrSize;
    if loads != [] {
      var n := |loads| - 1;
      TableSize(class64, big, loads[..n]);
      PhdrOffsets(class64, loads[n].Header());
      MulSucc(n, PhdrSize(class64));
    }
  }

  // Each header is in its place.
  lemma {:induction false} TableHolds(first: Data, class64: bool, big: bool, loads: seq<Load>, rest: Data, k: nat)
    requires k < |loads|
    ensures Holds(first + LoadTable(class64, big, loads) + rest, |first| + PhdrsSize(class64, k),
                  PhdrItems(class64, loads[k].Header()), big)
  {
    hide Record, PhdrItems, PhdrsSize, Holds;
    var n := |loads| - 1;
    var table, last := LoadTable(class64, big, loads[..n]), Record(PhdrItems(class64, loads[n].Header()), big);
    var all := first + LoadTable(class64, big, loads) + rest;
    if k == n {
      TableSize(class64, big, loads[..n]);
      HoldsEnd(first + table, PhdrItems(class64, loads[n].Header()), big);
      assert first + table + last + rest == all;
      HoldsLater(first + table + last, all, |first| + |table|, PhdrItems(class64, loads[n].Header()), big);
    } else {
      TableHolds(first, class64, big, loads[..n], last + rest, k);
      assert first + table + (last + rest) == all;
    }
  }

  class DumpState {
    const blocks: seq<Block>
    const host: Host
    const filter: Filter
    const list: seq<Mapping>
    const class64: bool
    const big: bool
    const machine: nat
    const noteSize: nat
    const haveSection: bool
    const maxIndex: nat
    const memoryOffset: nat
    var file: Data
    var nextBlock: nat
    var start: nat
    var loads: seq<Load>

    /** The end of dump_init: `maxIndex` is phdr_num or, with too many mappings for that
        field, sh_info. */
    constructor Init(blocks: seq<Block>, host: Host, filter: Filter, list: seq<Mapping>,
                     class64: bool, big: bool, machine: nat, noteSize: nat)
      requires |list| <= UINT32_MAX
      ensures this.blocks == blocks && this.host == host && this.filter == filter && this.list == list &&
              this.class64 == class64 && this.big == big && this.noteSize == noteSize
      ensures file == [] && loads == [] && HeaderPlan()
    {
      this.blocks, this.host, this.filter, this.list := blocks, host, filter, list;
      this.class64, this.big, this.machine, this.noteSize := class64, big, machine, noteSize;
      file, nextBlock, start, loads := [], 0, 0, [];
      var headers;
      if |list| < UINT16_MAX - 2 {
        haveSection := false;
        headers := 1 + |list|;
        memoryOffset := EhdrSize(class64) + PhdrsSize(class64, headers) + noteSize;
      } else {
        haveSection := true;
        headers := if |list| <= UINT32_MAX - 1 then 1 + |list| else UINT32_MAX;
        memoryOffset := EhdrSize(class64) + PhdrsSize(class64, headers) + ShdrSize(class64) + noteSize;
      }
      maxIndex := headers;
    }

    ghost predicate HeaderPlan() {
      && |list| <= UINT32_MAX && maxIndex == HeaderCount(|list|)
      && memoryOffset == MemoryAt(class64, |list|, noteSize) && (haveSection <==> |list| >= MANY)
    }

    // fd_write_vmcore, which may fail
    method WriteData(data: Data) returns (ok: bool)
      modifies this`file
      ensures file == if ok then old(file) + data else old(file)
    {
      ok := *;
      if ok {
        file := file + data;
      }
    }

    /** write_memory: one page for each write, and the rest in one more. */
    method WriteMemory(b: Block, offset: nat, size: nat) returns (ok: bool)
      modifies this`file
      ensures ok ==> file == old(file) + Bytes(host, b.host + offset, size)
    {
      hide PageAddr, PageOf, InPage, Pow2;
      AddrSplit(size, PageOf(size));
      ok := true;
      assert file == old(file) + Bytes(host, b.host + offset, 0);
      var i := 0;
      assert PageAddr(0) == 0 by { PageAddrSum(0, 0); }
      while i < PageOf(size)
        invariant 0 <= i <= PageOf(size) && file == old(file) + Bytes(host, b.host + offset, PageAddr(i))
      {
        AddrSplit(0, i);
        BytesJoin(host, b.host + offset, PageAddr(i), PAGE_SIZE);
        ok := WriteData(Bytes(host, b.host + offset + PageAddr(i), PAGE_SIZE));
        if !ok {
          return;
        }
        i := i + 1;
      }
      if InPage(size) != 0 {
        BytesJoin(host, b.host + offset, PageAddr(i), InPage(size));
        ok := WriteData(Bytes(host, b.host + offset + PageAddr(i), InPage(size)));
      }
    }

    /** get_start_block: the first block with something to write. */
    method GetStartBlock() returns (found: bool)
      requires filter.NoFilter? ==> blocks != []
      modifies this`nextBlock, this`start
      ensures found <==> exists i :: 0 <= i < |blocks| && !filter.Out(blocks[i])
      ensures found ==> CursorOk() && forall i | 0 <= i < nextBlock :: filter.Out(blocks[i])
    {
      if filter.NoFilter? {
        nextBlock, start := 0, 0;
        assert !filter.Out(blocks[0]);
        return true;
      }
      for i := 0 to |blocks|
        invariant forall k | 0 <= k < i :: filter.Out(blocks[k])
      {
        if filter.Out(blocks[i]) {
          continue;
        }
        nextBlock := i;
        start := if filter.begin > blocks[i].start then filter.begin - blocks[i].start else 0;
        return true;
      }
      return false;
    }

    // The cursor is on a block to be written, at the first byte to be written.
    ghost predicate CursorOk()
      reads this`nextBlock, this`start
    {
      nextBlock < |blocks| && !filter.Out(blocks[nextBlock]) &&
          blocks[nextBlock].start + start == filter.Lo(blocks[nextBlock])
    }

    /** get_next_block */
    method GetNextBlock(block: nat) returns (more: bool)
      requires block < |blocks|
      modifies this`nextBlock, this`start
      ensures more ==> CursorOk() && block < nextBlock && forall i | block < i < nextBlock :: filter.Out(blocks[i])
      ensures !more ==> forall i | block < i < |blocks| :: filter.Out(blocks[i])
    {
      for i := block + 1 to |blocks|
        invariant forall k | block < k < i :: filter.Out(blocks[k])
      {
        start, nextBlock := 0, i;
        if filter.Filter? {
          if filter.Out(blocks[i]) {
            continue;
          }
          if filter.begin > blocks[i].start {
            start := filter.begin - blocks[i].start;
          }
        }
        return true;
      }
      return false;
    }

    /** dump_iterate: what follows the headers is guest memory, laid out block by block. */
    method DumpIterate() returns (ok: bool)
      requires Sorted(blocks) && CursorOk() && forall i | 0 <= i < nextBlock :: filter.Out(blocks[i])
      modifies this`file, this`nextBlock, this`start
      ensures ok ==> file == old(file) + Layout(filter, host, blocks)
    {
      hide Layout, Kept;
      SkipOut(filter, host, blocks, 0, nextBlock);
      assert file == old(file) + Layout(filter, host, blocks[..nextBlock]) by { NothingYet(filter, host, blocks); }
      var more := true;
      ok := true;
      while more
        invariant more ==> CursorOk() && file == old(file) + Layout(filter, host, blocks[..nextBlock])
        invariant !more ==> file == old(file) + Layout(filter, host, blocks)
        decreases more, |blocks| - nextBlock
      {
        var block := nextBlock;
        ok := WriteBlock();
        if !ok {
          return;
        }
        LayoutNext(filter, host, blocks, block);
        more := GetNextBlock(block);
        SkipOut(filter, host, blocks, block + 1, if more then nextBlock else |blocks|);
        assert blocks[..|blocks|] == blocks;
      }
    }

    // The part of the block at the cursor that the filter keeps.
    method WriteBlock() returns (ok: bool)
      requires Sorted(blocks) && CursorOk()
      modifies this`file
      ensures ok ==> file == old(file) + Kept(filter, host, blocks[nextBlock])
    {
      var b := blocks[nextBlock];
      Inside(filter, b);
      var size := b.end - b.start;
      if filter.Filter? {
        size := size - start;
        if filter.Limit() < b.end {
          size := size - (b.end - filter.Limit());
        }
      }
      ok := WriteMemory(b, start, size);
    }

    // ---- file ranges ----

    /** get_offset_range: where the file holds the guest memory of a mapping. The range ends
        with the mapping or with its block, whichever comes first, and there is none if the
        first byte is not written at all. */
    method GetOffsetRange(phys: nat, length: nat) returns (offset: Option<nat>, filesz: nat)
      requires Sorted(blocks)
      ensures offset.Some? <==> InRam(blocks, phys) && filter.Keeps(phys)
      ensures offset.None? ==> filesz == 0
      ensures offset.Some? ==> RangeOk(offset.value, filesz, phys, length)
    {
      hide Layout, Kept;
      offset, filesz := None, 0;
      if filter.Filter? {
        if phys < filter.begin || phys >= filter.Limit() {
          return;
        }
      }
      var at := memoryOffset;
      NothingYet(filter, host, blocks);
      for i := 0 to |blocks|
        invariant at == memoryOffset + |Layout(filter, host, blocks[..i])|
        invariant forall k | 0 <= k < i :: !Has(blocks[k], phys)
      {
        LayoutNext(filter, host, blocks, i);
        KeptSize(filter, host, blocks[i]);
        var b := blocks[i];
        if filter.Out(b) {
          continue;
        }
        Inside(filter, b);
        var lo := b.start;
        var size := b.end - b.start;
        if filter.Filter? {
          lo := if filter.begin <= b.start then b.start else filter.begin;
          size := b.end - lo;
          if filter.Limit() < b.end {
            size := size - (b.end - filter.Limit());
          }
        }
        if lo <= phys < lo + size {
          offset := Some(phys - lo + at);
          filesz := if phys + length <= lo + size then length else size - (phys - lo);
          RangeIn(i, phys, length, offset.value, filesz);
          return;
        }
        at := at + size;
      }
    }

    /** The file range holds the guest memory from `phys` on, in its place behind that of the
        blocks before, does not leave the block of `phys`, and is as long as the mapping, the
        block and the filter allow. */
    ghost predicate RangeOk(offset: nat, filesz: nat, phys: nat, length: nat) {
      var memory := Layout(filter, host, blocks);
      && memoryOffset <= offset && offset - memoryOffset + filesz <= |memory| && filesz <= length
      && exists k ::
          0 <= k < |blocks| && Has(blocks[k], phys) && HoldsBlock(k, offset - memoryOffset, filesz, phys, length)
    }

    ghost predicate HoldsBlock(k: nat, at: nat, filesz: nat, phys: nat, length: nat)
      requires k < |blocks| && at + filesz <= |Layout(filter, host, blocks)| && Has(blocks[k], phys)
    {
      var b := blocks[k];
      && phys + filesz <= b.end && at == KeptBytes(filter, blocks[..k]) + (phys - filter.Lo(b))
      && Layout(filter, host, blocks)[at..at + filesz] == Bytes(host, b.host + (phys - b.start), filesz)
      && (filesz == length || !(Has(b, phys + filesz) && filter.Keeps(phys + filesz)))
    }

    lemma RangeIn(i: nat, phys: nat, length: nat, offset: nat, filesz: nat)
      requires Sorted(blocks) && i < |blocks| && !filter.Out(blocks[i]) &&
               filter.Lo(blocks[i]) <= phys < filter.Hi(blocks[i])
      requires offset == memoryOffset + |Layout(filter, host, blocks[..i])| + (phys - filter.Lo(blocks[i]))
      requires filesz == if phys + length <= filter.Hi(blocks[i]) then length else filter.Hi(blocks[i]) - phys
      ensures RangeOk(offset, filesz, phys, length)
    {
      hide Layout, Kept, Bytes, KeptBytes;
      var b := blocks[i];
      Inside(filter, b);
      BlockSlice(filter, host, blocks, i, phys, filesz);
      LayoutSize(filter, host, blocks[..i]);
      assert HoldsBlock(i, offset - memoryOffset, filesz, phys, length);
    }

    // ---- the headers ----

    function NoteHeader(): Phdr
      requires noteSize <= memoryOffset
    {
      Phdr(PT_NOTE, memoryOffset - noteSize, 0, 0, noteSize, noteSize)
    }

    // Where the section header is meant to be.
    function SectionPos(): nat {
      EhdrSize(class64) + PhdrsSize(class64, maxIndex)
    }

    function ElfHeader(): seq<Item> {
      EhdrItems(class64, big, machine, if haveSection then PN_XNUM else maxIndex,
                if haveSection then Some(SectionPos()) else None)
    }

    // Where the header of mapping k is.
    function LoadPos(k: nat): nat {
      EhdrSize(class64) + PhdrsSize(class64, k + 1)
    }

    // The ELF header and the PT_NOTE header.
    function FirstBytes(): Data
      requires noteSize <= memoryOffset
    {
      Record(ElfHeader(), big) + Record(PhdrItems(class64, NoteHeader()), big)
    }

    /** All headers. `junk` stands where the section header is meant to be. */
    ghost function HeaderBytes(junk: Data): Data
      requires noteSize <= memoryOffset
      reads this`loads
    {
      FirstBytes() + LoadTable(class64, big, loads) + if haveSection then junk else []
    }

    lemma FirstSize()
      requires noteSize <= memoryOffset
      ensures |FirstBytes()| == LoadPos(0) && |Record(ElfHeader(), big)| == EhdrSize(class64)
    {
      hide Record, EhdrItems, PhdrItems, Off, Width;
      EhdrOffsets(class64, big, machine, if haveSection then PN_XNUM else maxIndex,
                  if haveSection then Some(SectionPos()) else None);
      PhdrOffsets(class64, NoteHeader());
    }

    // The headers are in the file.
    ghost predicate HasHeaders(data: Data, junk: Data)
      requires noteSize <= memoryOffset
      reads this`loads
    {
      && Holds(data, 0, ElfHeader(), big) && Holds(data, EhdrSize(class64), PhdrItems(class64, NoteHeader()), big)
      && (forall k: nat | k < |loads| :: Holds(data, LoadPos(k), PhdrItems(class64, loads[k].Header()), big))
      && (haveSection ==> SectionPos() + |junk| <= |data| && data[SectionPos()..SectionPos() + |junk|] == junk)
    }

    lemma HeadersHold(junk: Data, rest: Data)
      requires HeaderPlan() && |loads| == maxIndex - 1 && |junk| == ShdrSize(class64)
      ensures HasHeaders(HeaderBytes(junk) + rest, junk) && |HeaderBytes(junk)| == memoryOffset - noteSize
    {
      hide Record, EhdrItems, PhdrItems, Off, Width, Holds, PhdrSize, EhdrSize, ShdrSize;
      var first, table, all := FirstBytes(), LoadTable(class64, big, loads), HeaderBytes(junk) + rest;
      FirstSize();
      TableSize(class64, big, loads);
      MulSucc(maxIndex - 1, PhdrSize(class64));
      MulSucc(0, PhdrSize(class64));
      var elf := Record(ElfHeader(), big);
      HoldsEnd([], ElfHeader(), big);
      assert [] + elf == elf;
      HoldsLater(elf, all, 0, ElfHeader(), big);
      HoldsEnd(elf, PhdrItems(class64, NoteHeader()), big);
      HoldsLater(first, all, |elf|, PhdrItems(class64, NoteHeader()), big);
      var tail := if haveSection then junk else [];
      assert all == first + table + (tail + rest);
      forall k: nat | k < |loads|
        ensures Holds(all, LoadPos(k), PhdrItems(class64, loads[k].Header()), big)
      {
        TableHolds(first, class64, big, loads, tail + rest, k);
        MulSucc(k, PhdrSize(class64));
      }
      assert haveSection ==> all[SectionPos()..SectionPos() + |junk|] == junk;
    }

    /** What a reader who knows only the file makes of it: the class, the byte order, and every
        program header, cut to the fields of the class. The number of program headers is
        right if it fits e_phnum. If not, it is what the bytes in the place of the section
        header say, or wrong if not even the place fits. */
    lemma HeadersReadBack(data: Data, junk: Data)
      requires HeaderPlan() && |loads| == maxIndex - 1 && |junk| == ShdrSize(class64) && HasHeaders(data, junk)
      ensures ClassOf(data) == class64 && BigOf(data) == big
      ensures |list| < MANY ==> PhCount(data) == maxIndex
      ensures |list| >= MANY && SectionPos() < Limit(class64) ==> PhCount(data) == InfoOf(class64, big, junk)
      ensures |list| >= MANY && SectionPos() >= Limit(class64) ==> PhCount(data) != maxIndex
      ensures PhdrAt(data, 0) == Narrow(class64, NoteHeader())
      ensures forall k: nat | k < |loads| :: PhdrAt(data, k + 1) == Narrow(class64, loads[k].Header())
    {
      hide Holds, ReadAt, Narrow, PhdrItems, EhdrItems, ReadPhdr, InfoOff, InfoOf;
      var at := SectionPos();
      EhdrRoundTrip(data, class64, big, machine, if haveSection then PN_XNUM else maxIndex,
                    if haveSection then Some(at) else None);
      if haveSection {
        if at < Limit(class64) {
          ReadInfo(data, at, class64, big, junk);
        } else {
          FarSection(data, junk);
        }
      }
      PhdrRoundTrip(data, EhdrSize(class64), class64, big, NoteHeader());
      forall k: nat | k < |loads|
        ensures PhdrAt(data, k + 1) == Narrow(class64, loads[k].Header())
      {
        PhdrRoundTrip(data, LoadPos(k), class64, big, loads[k].Header());
      }
    }

    // The section header of a 32-bit core begins behind 4 GiB: its offset, cut to 32 bits, leads to a
    // field of the headers that is zero, or to the end of the ELF header.
    lemma FarSection(data: Data, junk: Data)
      requires HeaderPlan() && |loads| == maxIndex - 1 && HasHeaders(data, junk)
      requires haveSection && SectionPos() >= Limit(class64)
      ensures ReadAt(data, SectionPos() % Limit(class64) + InfoOff(class64), 4, big) != maxIndex
    {
      hide Holds, ReadAt, PhdrItems, EhdrItems;
      assert !class64;
      var at, m := SectionPos(), Limit(false);
      var w, c := at % m, at / m;
      assert at == c * m + w && c >= 1;
      assert w == 52 + 32 * (maxIndex - c * 0x800_0000);
      if w < 52 {
        assert w == 20 && maxIndex == c * 0x800_0000 - 1;
        LastOfEhdr(data, big, machine, PN_XNUM, at);
      } else {
        var j := maxIndex - c * 0x800_0000;
        if j == 0 {
          LastOfPhdr(data, 52, big, NoteHeader());
        } else {
          LastOfPhdr(data, LoadPos(j - 1), big, loads[j - 1].Header());
        }
      }
    }

    /** The number of program headers is right, whatever the stack held, if and only if there are
        fewer than 65533 mappings. */
    lemma CountExact()
      requires HeaderPlan() && |loads| == maxIndex - 1
      ensures (forall junk: Data, rest: Data | |junk| == ShdrSize(class64) ::
               PhCount(HeaderBytes(junk) + rest) == maxIndex) <==>
              |list| < MANY
    {
      hide HasHeaders, HeaderBytes, PhCount;
      forall junk: Data, rest: Data | |junk| == ShdrSize(class64)
        ensures |list| < MANY ==> PhCount(HeaderBytes(junk) + rest) == maxIndex
      {
        HeadersHold(junk, rest);
        HeadersReadBack(HeaderBytes(junk) + rest, junk);
      }
      if |list| >= MANY {
        var zeros: Data := seq(ShdrSize(class64), _ => 0);
        HeadersHold(zeros, []);
        HeadersReadBack(HeaderBytes(zeros) + [], zeros);
        ZeroInfo(class64, big, zeros);
        assert PhCount(HeaderBytes(zeros) + []) != maxIndex;
      }
    }

    // A program header that says where the memory of a mapping is.
    ghost predicate LoadOk(load: Load, m: Mapping) {
      && load.phys == m.phys && load.virt == m.virt && load.memsz == m.length && load.filesz <= load.memsz
      && (load.offset.Some? <==> InRam(blocks, m.phys) && filter.Keeps(m.phys)) &&
         (load.offset.None? ==> load.filesz == 0)
      && (load.offset.Some? ==> RangeOk(load.offset.value, load.filesz, m.phys, m.length))
    }

    /** write_elf_loads */
    method WriteElfLoads() returns (ok: bool)
      requires Sorted(blocks) && HeaderPlan() && loads == []
      modifies this`file, this`loads
      ensures ok ==> file == old(file) + LoadTable(class64, big, loads) && |loads| == maxIndex - 1
      ensures ok ==> forall k | 0 <= k < |loads| :: LoadOk(loads[k], list[k])
    {
      hide LoadOk, LoadTable;
      assert LoadTable(class64, big, []) == [] by { EmptyTable(); }
      ok := true;
      var phdrIndex := 1;
      for i := 0 to |list|
        invariant phdrIndex == i + 1 && phdrIndex <= maxIndex && |loads| == i
        invariant file == old(file) + LoadTable(class64, big, loads)
        invariant i > 0 ==> phdrIndex < maxIndex || i == |list|
        invariant forall k | 0 <= k < i :: LoadOk(loads[k], list[k])
      {
        ok := WriteElfLoad(i);
        if !ok {
          return;
        }
        phdrIndex := phdrIndex + 1;
        if phdrIndex >= maxIndex {
          break;
        }
      }
    }

    lemma EmptyTable()
      ensures LoadTable(class64, big, []) == []
    {
    }

    // One turn of the loop.
    method WriteElfLoad(i: nat) returns (ok: bool)
      requires Sorted(blocks) && i < |list| && |loads| == i
      modifies this`file, this`loads
      ensures ok ==> |loads| == i + 1 && loads[..i] == old(loads) && LoadOk(loads[i], list[i])
      ensures ok ==> forall first :: old(file) == first + LoadTable(class64, big, old(loads)) ==>
                       file == first + LoadTable(class64, big, loads)
    {
      hide LoadOk, Record, PhdrItems;
      var offset, filesz := GetOffsetRange(list[i].phys, list[i].length);
      var load := Load(list[i].phys, list[i].virt, offset, filesz, list[i].length);
      assert LoadOk(load, list[i]) by { LoadIsOk(load, list[i]); }
      ok := WriteData(Record(PhdrItems(class64, load.Header()), big));
      if ok {
        assert (loads + [load])[..i] == loads;
        loads := loads + [load];
      }
    }

    lemma LoadIsOk(load: Load, m: Mapping)
      requires load.phys == m.phys && load.virt == m.virt && load.memsz == m.length
      requires load.offset.Some? <==> InRam(blocks, m.phys) && filter.Keeps(m.phys)
      requires load.offset.None? ==> load.filesz == 0
      requires load.offset.Some? ==> RangeOk(load.offset.value, load.filesz, m.phys, m.length)
      ensures LoadOk(load, m)
    {
    }

    /** write_elf_section. The address passed to the write is that of the pointer `shdr`, not of
        the header it points to, so the file gets `junk`: the pointer and what lies behind it
        on the stack. */
    method WriteElfSection(junk: Data) returns (ok: bool)
      requires |junk| == ShdrSize(class64)
      modifies this`file
      ensures ok ==> file == old(file) + junk
    {
      ok := WriteData(junk);
    }

    /** dump_begin: the headers, then the notes, and they end where the memory is said to begin. */
    method DumpBegin(notes: Data, junk: Data) returns (ok: bool)
      requires Sorted(blocks) && HeaderPlan() && file == [] && loads == []
      requires |notes| == noteSize && |junk| == ShdrSize(class64)
      modifies this`file, this`loads
      ensures ok ==> file == HeaderBytes(junk) + notes && |file| == memoryOffset && |loads| == maxIndex - 1
      ensures ok ==> forall k | 0 <= k < |loads| :: LoadOk(loads[k], list[k])
    {
      hide LoadOk, LoadTable, Record, EhdrItems, PhdrItems, MemoryAt;
      assert noteSize <= memoryOffset by { MemoryBehindNotes(); }
      ok := WriteData(Record(ElfHeader(), big));
      if !ok {
        return;
      }
      ok := WriteData(Record(PhdrItems(class64, NoteHeader()), big));
      if !ok {
        return;
      }
      assert file == FirstBytes();
      ok := WriteElfLoads();
      if !ok {
        return;
      }
      if haveSection {
        ok := WriteElfSection(junk);
        if !ok {
          return;
        }
      }
      assert file == HeaderBytes(junk);
      ok := WriteData(notes);
      if ok {
        HeadersHold(junk, []);
      }
    }

    lemma MemoryBehindNotes()
      requires HeaderPlan()
      ensures noteSize <= memoryOffset
    {
    }

    /** create_vmcore: the file is the headers, the notes and the memory, and every program header
        points at the guest memory it names. */
    method CreateVmcore(notes: Data, junk: Data) returns (ok: bool)
      requires Sorted(blocks) && HeaderPlan() && file == [] && loads == []
      requires |notes| == noteSize && |junk| == ShdrSize(class64)
      requires CursorOk() && forall i | 0 <= i < nextBlock :: filter.Out(blocks[i])
      modifies this
      ensures ok ==> |loads| == maxIndex - 1 && file == HeaderBytes(junk) + notes + Layout(filter, host, blocks)
      ensures ok ==> forall k | 0 <= k < |loads| :: LoadOk(loads[k], list[k]) && HoldsGuest(file, loads[k])
    {
      hide LoadOk, Layout, HeaderBytes;
      ok := DumpBegin(notes, junk);
      if !ok {
        return;
      }
      ghost var headers := file;
      ok := DumpIterate();
      if !ok {
        return;
      }
      forall k | 0 <= k < |loads|
        ensures HoldsGuest(file, loads[k])
      {
        HeaderAgrees(headers, loads[k], list[k]);
      }
    }

    // The file range of the header holds the guest memory at its physical address.
    ghost predicate HoldsGuest(file: Data, load: Load) {
      load.offset.Some? ==> forall addr: nat | load.phys <= addr < load.phys + load.filesz ::
          HoldsByte(file, load, addr)
    }

    ghost predicate HoldsByte(file: Data, load: Load, addr: nat)
      requires load.offset.Some? && load.phys <= addr
    {
      var pos := load.offset.value + (addr - load.phys);
      pos < |file| && exists at :: Backed(blocks, addr, at) && file[pos] == host(at)
    }

    // A mapping inside one block is in the file as a whole.
    lemma WholeMapping(load: Load, m: Mapping)
      requires Sorted(blocks) && LoadOk(load, m) && InBlock(m, blocks, filter) && m.length > 0
      ensures load.offset.Some? && load.filesz == m.length
    {
      hide Layout;
      var j :| 0 <= j < |blocks| && blocks[j].start <= m.phys && m.phys + m.length <= blocks[j].end;
      assert Has(blocks[j], m.phys);
      var k :| 0 <= k < |blocks| && Has(blocks[k], m.phys) &&
          HoldsBlock(k, load.offset.value - memoryOffset, load.filesz, m.phys, m.length);
      assert j == k;
    }

    // A byte of a mapped block is found through the header of the mapping.
    lemma FindByte(addr: nat, at: nat)
      requires Sorted(blocks) && Backed(blocks, addr, at) && InMappings(list, addr) && |loads| == |list|
      requires forall k | 0 <= k < |list| ::
                 InBlock(list[k], blocks, filter) && LoadOk(loads[k], list[k]) && HoldsGuest(file, loads[k])
      ensures Found(loads, file, addr, host(at))
    {
      hide LoadOk;
      var m :| m in list && m.phys <= addr < m.phys + m.length;
      var k :| 0 <= k < |list| && list[k] == m;
      WholeMapping(loads[k], m);
      assert loads[k].phys == m.phys by { LoadPhys(loads[k], m); }
      assert HoldsByte(file, loads[k], addr);
      var at' :| Backed(blocks, addr, at') && file[loads[k].offset.value + (addr - m.phys)] == host(at');
      BackedOnce(blocks, addr, at, at');
      assert Leads(loads[k].Header(), file, addr, host(at));
    }

    // What a reader makes of the finished file.
    lemma ReadCore(notes: Data, junk: Data)
      requires HeaderPlan() && |loads| == maxIndex - 1 && |junk| == ShdrSize(class64)
      requires file == HeaderBytes(junk) + notes + Layout(filter, host, blocks)
      ensures |list| < MANY ==> PhCount(file) == maxIndex
      ensures |list| >= MANY && SectionPos() < Limit(class64) ==> PhCount(file) == InfoOf(class64, big, junk)
      ensures PhdrAt(file, 0) == Narrow(class64, NoteHeader())
      ensures forall k: nat | k < |loads| :: PhdrAt(file, k + 1) == Narrow(class64, loads[k].Header())
    {
      hide HasHeaders, HeaderBytes, Layout, PhdrAt, PhCount;
      var rest := notes + Layout(filter, host, blocks);
      assert file == HeaderBytes(junk) + rest;
      HeadersHold(junk, rest);
      HeadersReadBack(file, junk);
    }

    // A header that leads to a byte does so when it is read from the file as it is meant.
    lemma FoundInCore(addr: nat, v: byte)
      requires HeadersMeant(file, loads, class64) && PhCount(file) == |loads| + 1 && Found(loads, file, addr, v)
      requires |list| >= |loads| && forall k | 0 <= k < |loads| :: LoadOk(loads[k], list[k])
      ensures InCore(file, addr, v)
    {
      hide LoadOk, PhdrAt, PhCount, Leads;
      var k: nat :| k < |loads| && Leads(loads[k].Header(), file, addr, v);
      assert loads[k].offset.Some? by { LeadsSome(k, addr, v); }
      assert Leads(PhdrAt(file, k + 1), file, addr, v);
    }

    lemma LeadsSome(k: nat, addr: nat, v: byte)
      requires k < |loads| <= |list| && LoadOk(loads[k], list[k]) && Leads(loads[k].Header(), file, addr, v)
      ensures loads[k].offset.Some?
    {
    }

    // The header of the mapping of a block that is written says where its memory begins.
    lemma OffsetOfBlock(load: Load, i: nat)
      requires Sorted(blocks) && i < |blocks| && !filter.Out(blocks[i]) && filter.Lo(blocks[i]) < filter.Hi(blocks[i])
      requires LoadOk(load, Cut(filter, blocks[i]))
      ensures load.offset == Some(memoryOffset + KeptBytes(filter, blocks[..i]))
    {
      hide Layout, KeptBytes, Bytes;
      var m := Cut(filter, blocks[i]);
      Inside(filter, blocks[i]);
      assert Has(blocks[i], m.phys);
      var j :| 0 <= j < |blocks| && Has(blocks[j], m.phys) &&
          HoldsBlock(j, load.offset.value - memoryOffset, load.filesz, m.phys, m.length);
      assert i == j;
    }

    // A header that has an offset names the beginning of a block that is written.
    lemma BlockOfOffset(load: Load, i: nat) returns (j: nat)
      requires Sorted(blocks) && i < |blocks| && !filter.Out(blocks[i])
      requires LoadOk(load, Cut(filter, blocks[i])) && load.offset.Some?
      ensures j < |blocks| && !filter.Out(blocks[j]) && filter.Lo(blocks[j]) < filter.Hi(blocks[j])
      ensures load.offset.value == memoryOffset + KeptBytes(filter, blocks[..j])
    {
      hide Layout, KeptBytes, Bytes;
      var m := Cut(filter, blocks[i]);
      Inside(filter, blocks[i]);
      j :| 0 <= j < |blocks| && Has(blocks[j], m.phys) &&
          HoldsBlock(j, load.offset.value - memoryOffset, load.filesz, m.phys, m.length);
      Inside(filter, blocks[j]);
      if j < i {
        assert false;
      } else if i < j {
        assert blocks[i].end <= blocks[j].start;
      }
    }

    /** The program headers in the file are what they are meant to be if and only if the memory
        of every block begins at an offset that the class can hold: addresses always fit. */
    lemma MeantIffFit(data: Data)
      requires Sorted(blocks) && HeaderPlan() && list == MappingsOf(filter, blocks) && |loads| == |list|
      requires forall k | 0 <= k < |loads| :: LoadOk(loads[k], list[k])
      requires forall k: nat | k < |loads| :: PhdrAt(data, k + 1) == Narrow(class64, loads[k].Header())
      requires forall i | 0 <= i < |blocks| :: blocks[i].end < Limit(class64)
      ensures HeadersMeant(data, loads, class64) <==> OffsetsFit(filter, blocks, class64, noteSize)
    {
      hide LoadOk, PhdrAt, Narrow, MappingsOf, KeptBytes, MemoryAt;
      if OffsetsFit(filter, blocks, class64, noteSize) {
        forall k: nat | k < |loads|
          ensures PhdrAt(data, k + 1) == loads[k].Meant(class64)
        {
          var i := BlockOfMapping(filter, blocks, k);
          if loads[k].offset.Some? {
            var j := BlockOfOffset(loads[k], i);
            assert BlockFits(filter, blocks, class64, noteSize, j);
          }
          OthersFit(loads[k], i);
          MeantExact(class64, loads[k]);
        }
      }
      if HeadersMeant(data, loads, class64) {
        forall i: nat | i < |blocks|
          ensures BlockFits(filter, blocks, class64, noteSize, i)
        {
          if !filter.Out(blocks[i]) && filter.Lo(blocks[i]) < filter.Hi(blocks[i]) {
            var k := MappingOfBlock(filter, blocks, i);
            OffsetOfBlock(loads[k], i);
            assert PhdrAt(data, k + 1) == loads[k].Meant(class64);
            MeantExact(class64, loads[k]);
          }
        }
      }
    }

    lemma OthersFit(load: Load, i: nat)
      requires Sorted(blocks) && i < |blocks| && !filter.Out(blocks[i]) && LoadOk(load, Cut(filter, blocks[i]))
      requires blocks[i].end < Limit(class64)
      ensures load.virt < Limit(class64) && load.phys < Limit(class64)
      ensures load.filesz < Limit(class64) && load.memsz < Limit(class64)
    {
      hide RangeOk;
      Inside(filter, blocks[i]);
    }

    lemma LoadPhys(load: Load, m: Mapping)
      requires LoadOk(load, m)
      ensures load.phys == m.phys
    {
    }

    lemma HeaderAgrees(headers: Data, load: Load, m: Mapping)
      requires LoadOk(load, m) && |headers| == memoryOffset
      ensures HoldsGuest(headers + Layout(filter, host, blocks), load)
    {
      hide Layout;
      if load.offset.Some? {
        var memory := Layout(filter, host, blocks);
        var at := load.offset.value - memoryOffset;
        var k :| 0 <= k < |blocks| && Has(blocks[k], m.phys) && HoldsBlock(k, at, load.filesz, m.phys, m.length);
        forall addr: nat | load.phys <= addr < load.phys + load.filesz
          ensures HoldsByte(headers + memory, load, addr)
        {
          ByteInFile(headers, memory, load, m, k, addr);
        }
      }
    }

    lemma ByteInFile(headers: Data, memory: Data, load: Load, m: Mapping, k: nat, addr: nat)
      requires memory == Layout(filter, host, blocks) && |headers| == memoryOffset &&
               load.phys == m.phys <= addr < load.phys + load.filesz
      requires load.offset.Some? && memoryOffset <= load.offset.value &&
               load.offset.value - memoryOffset + load.filesz <= |memory|
      requires k < |blocks| && Has(blocks[k], m.phys) &&
               HoldsBlock(k, load.offset.value - memoryOffset, load.filesz, m.phys, m.length)
      ensures HoldsByte(headers + memory, load, addr)
    {
      hide Layout;
      var b, at, i := blocks[k], load.offset.value - memoryOffset, addr - load.phys;
      assert Has(b, addr) && Backed(blocks, addr, b.host + (addr - b.start));
      var part, from := memory[at..at + load.filesz], b.host + (m.phys - b.start);
      assert part == Bytes(host, from, load.filesz) && part[i] == memory[at + i];
      assert part[i] == host(from + i) && from + i == b.host + (addr - b.start);
      assert (headers + memory)[load.offset.value + i] == memory[at + i];
    }
  }

  // Memory of one block, where the layout has it.
  lemma BlockSlice(f: Filter, host: Host, blocks: seq<Block>, i: nat, phys: nat, n: nat)
    requires i < |blocks| && !f.Out(blocks[i]) && blocks[i].start <= blocks[i].end
    requires f.Lo(blocks[i]) <= phys && phys + n <= f.Hi(blocks[i])
    ensures var at := |Layout(f, host, blocks[..i])| + (phys - f.Lo(blocks[i]));
            at + n <= |Layout(f, host, blocks)| &&
                Layout(f, host, blocks)[at..at + n] == Bytes(host, blocks[i].host + (phys - blocks[i].start), n)
  {
    hide Layout, Bytes;
    var b := blocks[i];
    Inside(f, b);
    KeptSize(f, host, b);
    var before, kept, memory := Layout(f, host, blocks[..i]), Kept(f, host, b), Layout(f, host, blocks);
    assert |before + kept| <= |memory| && memory[..|before + kept|] == before + kept by {
      LayoutNext(f, host, blocks, i);
      LayoutPrefix(f, host, blocks, i + 1);
    }
    SliceOfSum(before, kept, memory, phys - f.Lo(b), n);
    SubBytes(host, b.host + (f.Lo(b) - b.start), f.Hi(b) - f.Lo(b), phys - f.Lo(b), n);
  }

  lemma SubBytes(host: Host, at: nat, size: nat, a: nat, n: nat)
    requires a + n <= size
    ensures Bytes(host, at, size)[a..a + n] == Bytes(host, at + a, n)
  {
  }

  lemma SliceOfSum(before: Data, kept: Data, memory: Data, a: nat, n: nat)
    requires |before + kept| <= |memory| && memory[..|before + kept|] == before + kept && a + n <= |kept|
    ensures memory[|before| + a..|before| + a + n] == kept[a..a + n]
  {
    assert forall k | 0 <= k < |before + kept| :: memory[k] == (before + kept)[k];
  }

  lemma KeptSize(f: Filter, host: Host, b: Block)
    requires b.start <= b.end
    ensures |Kept(f, host, b)| == if f.Out(b) then 0 else f.Hi(b) - f.Lo(b)
  {
  }

  lemma NothingYet(f: Filter, host: Host, blocks: seq<Block>)
    ensures Layout(f, host, blocks[..0]) == []
  {
  }

  // Blocks outside the filter add nothing.
  lemma {:induction false} SkipOut(f: Filter, host: Host, blocks: seq<Block>, i: nat, j: nat)
    requires i <= j <= |blocks| && forall k | i <= k < j :: f.Out(blocks[k])
    ensures Layout(f, host, blocks[..j]) == Layout(f, host, blocks[..i])
    decreases j
  {
    if i < j {
      SkipOut(f, host, blocks, i, j - 1);
      LayoutNext(f, host, blocks, j - 1);
    }
  }

  // ---- a whole dump ----

  /** guest_phys_blocks_append */
  method GuestBlocks(sections: seq<Block>) returns (blocks: seq<Block>)
    requires Sorted(sections)
    ensures Sorted(blocks) && |blocks| <= |sections| && (sections != [] ==> blocks != []) &&
            blocks == BlocksOf(sections)
    ensures forall addr: nat, at: nat :: Backed(blocks, addr, at) <==> Backed(sections, addr, at)
  {
    hide Join, BlocksOf;
    blocks := [];
    assert BlocksOf(sections[..0]) == [] by { NoSections(sections); }
    for i := 0 to |sections|
      invariant Sorted(blocks) && forall addr: nat, at: nat :: Backed(blocks, addr, at) <==>
                Backed(sections[..i], addr, at)
      invariant |blocks| <= i && (i > 0 ==> blocks != []) && blocks == BlocksOf(sections[..i])
      invariant blocks != [] ==> i > 0 && blocks[|blocks| - 1].end == sections[i - 1].end
    {
      ghost var before := blocks;
      blocks := RegionAdd(blocks, sections[i]);
      assert sections[..i + 1] == sections[..i] + [sections[i]];
      BlocksNext(sections, i);
      forall addr: nat, at: nat
        ensures Backed(blocks, addr, at) <==> Backed(sections[..i + 1], addr, at)
      {
        Added(sections[..i], sections[i], addr, at);
      }
    }
    assert sections[..|sections|] == sections;
  }

  /** qemu_get_guest_simple_memory_mapping: a mapping for each block. */
  function SimpleMapping(blocks: seq<Block>): (list: seq<Mapping>)
    requires Sorted(blocks)
    ensures |list| == |blocks| && forall k | 0 <= k < |blocks| ::
              list[k] == Mapping(blocks[k].start, 0, blocks[k].end - blocks[k].start)
  {
    seq(|blocks|, k requires 0 <= k < |blocks| => Mapping(blocks[k].start, 0, blocks[k].end - blocks[k].start))
  }

  // The mapping of every block, cut to the filter.
  method KeptMappings(blocks: seq<Block>, filter: Filter) returns (list: seq<Mapping>)
    requires Sorted(blocks)
    ensures list == MappingsOf(filter, blocks) && forall k | 0 <= k < |list| :: InBlock(list[k], blocks, filter)
    ensures forall addr: nat :: InRam(blocks, addr) && filter.Keeps(addr) ==> InMappings(list, addr)
  {
    list := SimpleMapping(blocks);
    ghost var all := list;
    forall addr: nat | InRam(blocks, addr)
      ensures InMappings(all, addr)
    {
      var i :| 0 <= i < |blocks| && Has(blocks[i], addr);
      assert all[i] in all;
    }
    if filter.Filter? {
      FilteredMappings(filter, blocks, list);
      list := MappingFilter(list, filter.begin, filter.length);
      forall k | 0 <= k < |list|
        ensures InBlock(list[k], blocks, filter)
      {
        assert list[k] in list && PartOfSome(list[k], all);
      }
    } else {
      AllMappings(blocks, list);
      forall k | 0 <= k < |list|
        ensures InBlock(list[k], blocks, filter)
      {
        assert blocks[k].start <= list[k].phys && list[k].phys + list[k].length <= blocks[k].end;
      }
    }
  }

  // The mapping lies in one block, and the filter keeps all of it.
  ghost predicate InBlock(m: Mapping, blocks: seq<Block>, filter: Filter) {
    && (exists j :: 0 <= j < |blocks| && blocks[j].start <= m.phys && m.phys + m.length <= blocks[j].end)
    && (filter.Filter? ==> filter.begin <= m.phys && m.phys + m.length <= filter.Limit())
  }

  // ---- the class ----

  /** The targets that can dump: x86, where the class depends on the mode of the first CPU and on
      the memory, and ppc64 and s390x, which always take the 64-bit class. */
  datatype Arch = X86(longMode: bool) | Wide(machine: nat, big: bool)

  const UINT64_MAX: nat := 0xffff_ffff_ffff_ffff
  const EM_386: nat := 3
  const EM_X86_64: nat := 62

  ghost predicate TakesWide(arch: Arch, blocks: seq<Block>) {
    arch.Wide? || arch.longMode || exists i :: 0 <= i < |blocks| && blocks[i].end > UINT32_MAX
  }

  /** cpu_get_dump_info: under the class it chooses every guest address fits its field. */
  method GetDumpInfo(arch: Arch, blocks: seq<Block>) returns (class64: bool, big: bool, machine: nat)
    requires forall i | 0 <= i < |blocks| :: blocks[i].end <= UINT64_MAX
    ensures class64 <==> TakesWide(arch, blocks)
    ensures forall i | 0 <= i < |blocks| :: blocks[i].end < Limit(class64)
  {
    match arch {
      case Wide(m, b) =>
        return true, b, m;
      case X86(longMode) =>
        machine := if longMode then EM_X86_64 else EM_386;
        big := false;
        class64 := longMode;
        if !longMode {
          for i := 0 to |blocks|
            invariant !class64 && forall k | 0 <= k < i :: blocks[k].end <= UINT32_MAX
          {
            if blocks[i].end > UINT32_MAX {
              class64 := true;
              break;
            }
          }
        }
    }
  }

  /** cpu_get_note_size on x86: a status note and a note of QEMU's own for each CPU, with
      headers of 12 bytes and names of 8. */
  function X86NoteSize(longMode: bool, cpus: nat): nat {
    ((12 + 8 + if longMode then 336 else 144) + (12 + 8 + 432)) * cpus
  }

  // ---- what fits ----

  // If anything of block i is written, the offset at which its memory begins fits its field.
  ghost predicate BlockFits(f: Filter, blocks: seq<Block>, class64: bool, noteSize: nat, i: nat)
    requires i < |blocks|
  {
    !f.Out(blocks[i]) && f.Lo(blocks[i]) < f.Hi(blocks[i]) ==>
      MemoryAt(class64, |MappingsOf(f, blocks)|, noteSize) + KeptBytes(f, blocks[..i]) < Limit(class64)
  }

  ghost predicate OffsetsFit(f: Filter, blocks: seq<Block>, class64: bool, noteSize: nat) {
    forall i: nat | i < |blocks| :: BlockFits(f, blocks, class64, noteSize, i)
  }

  // A reader gets every program header as it is meant.
  ghost predicate HeadersMeant(file: Data, loads: seq<Load>, class64: bool) {
    forall k: nat | k < |loads| :: PhdrAt(file, k + 1) == loads[k].Meant(class64)
  }

  /** A dump without paging. Every byte of guest memory that the filter keeps is in the file
      where a header says it is. A reader who knows only the file gets these headers if and
      only if the offsets fit, and if there are also fewer than 65533 mappings, finds
      every such byte. */
  method DumpGuestMemory(sections: seq<Block>, host: Host, filter: Filter, arch: Arch, notes: Data, stack: Data)
    returns (s: DumpState, ok: bool)
    requires Sorted(sections) && |sections| < UINT32_MAX && (filter.NoFilter? ==> sections != [])
    requires |stack| == ShdrSize(true) && forall i | 0 <= i < |sections| :: sections[i].end <= UINT64_MAX
    ensures fresh(s) && s.host == host && s.filter == filter && s.noteSize == |notes| && s.HeaderPlan()
    ensures s.blocks == BlocksOf(sections) && s.list == MappingsOf(filter, s.blocks)
    ensures s.class64 <==> TakesWide(arch, s.blocks)
    ensures ok ==>
              && |s.loads| == |s.list| && (forall k | 0 <= k < |s.loads| :: s.LoadOk(s.loads[k], s.list[k]))
              && s.file == s.HeaderBytes(stack[..ShdrSize(s.class64)]) + notes + Layout(filter, host, s.blocks)
    ensures ok ==> forall addr: nat, at: nat | Backed(sections, addr, at) && filter.Keeps(addr) ::
              Found(s.loads, s.file, addr, host(at))
    ensures ok ==> (HeadersMeant(s.file, s.loads, s.class64) <==> OffsetsFit(filter, s.blocks, s.class64, |notes|))
    ensures ok && |s.list| < MANY && OffsetsFit(filter, s.blocks, s.class64, |notes|) ==>
              forall addr: nat, at: nat | Backed(sections, addr, at) && filter.Keeps(addr) ::
                InCore(s.file, addr, host(at))
  {
    hide MappingsOf, BlocksOf, DumpState.LoadOk, DumpState.HeaderBytes, Layout, MemoryAt, OffsetsFit, HeadersMeant;
    var blocks := GuestBlocks(sections);
    EndsBelow(sections, UINT64_MAX);
    var list := KeptMappings(blocks, filter);
    var class64, big, machine := GetDumpInfo(arch, blocks);
    s := new DumpState.Init(blocks, host, filter, list, class64, big, machine, |notes|);
    ok := s.GetStartBlock();
    if !ok {
      return;
    }
    ok := s.CreateVmcore(notes, stack[..ShdrSize(class64)]);
    if ok {
      forall addr: nat, at: nat | Backed(sections, addr, at) && filter.Keeps(addr)
        ensures Found(s.loads, s.file, addr, host(at))
      {
        assert Backed(blocks, addr, at) && InMappings(list, addr);
        s.FindByte(addr, at);
      }
      s.ReadCore(notes, stack[..ShdrSize(class64)]);
      s.MeantIffFit(s.file);
      if |list| < MANY && OffsetsFit(filter, blocks, class64, |notes|) {
        forall addr: nat, at: nat | Backed(sections, addr, at) && filter.Keeps(addr)
          ensures InCore(s.file, addr, host(at))
        {
          assert Found(s.loads, s.file, addr, host(at));
          s.FoundInCore(addr, host(at));
        }
      }
    }
  }

  // Some program header leads to the byte.
  ghost predicate Found(loads: seq<Load>, file: Data, addr: nat, v: byte) {
    exists k: nat :: k < |loads| && Leads(loads[k].Header(), file, addr, v)
  }

  // The same, from the headers as they are in the file.
  ghost predicate InCore(file: Data, addr: nat, v: byte) {
    exists k: nat :: k < PhCount(file) && Leads(PhdrAt(file, k), file, addr, v)
  }

  ghost predicate Leads(p: Phdr, file: Data, addr: nat, v: byte) {
    && p.kind == PT_LOAD && p.phys <= addr < p.phys + p.filesz && p.offset + (addr - p.phys) < |file|
    && file[p.offset + (addr - p.phys)] == v
  }

  // ---- cores that cannot be read ----

  lemma {:induction false} AllKept(blocks: seq<Block>)
    ensures |MappingsOf(NoFilter, blocks)| == |blocks|
  {
    if blocks != [] {
      AllKept(blocks[..|blocks| - 1]);
    }
  }

  /** 65533 pages with gaps between them, and a stack of zeros: a reader finds no header and so no
      byte at all. */
  method ManyMappings(host: Host, notes: Data) returns (s: DumpState, ok: bool)
    ensures |s.list| == MANY && (ok ==> PhCount(s.file) == 0 && forall addr: nat, v: byte :: !InCore(s.file, addr, v))
    ensures ok ==> Found(s.loads, s.file, 0, host(0))
  {
    hide MappingsOf, BlocksOf, DumpState.LoadOk, DumpState.HeaderBytes, Layout, MemoryAt, OffsetsFit, HeadersMeant,
         PhCount;
    var sections := seq(MANY, i requires 0 <= i => Block(i * 0x2000, i * 0x2000 + 0x1000, i * 0x2000));
    var stack: Data := seq(ShdrSize(true), _ => 0);
    s, ok := DumpGuestMemory(sections, host, NoFilter, X86(false), notes, stack);
    BlocksApart(sections);
    AllKept(sections);
    if ok {
      assert Backed(sections, 0, 0) by { assert Has(sections[0], 0); }
      ZeroInfo(s.class64, s.big, stack[..ShdrSize(s.class64)]);
      s.ReadCore(notes, stack[..ShdrSize(s.class64)]);
    }
  }

  // Two blocks of memory close to 4 GiB.
  const TWO_BLOCKS: seq<Block> := [Block(0, 0xffff_d000, 0), Block(0xffff_e000, 0xffff_f000, 0xffff_e000)]

  lemma TwoMappings()
    ensures BlocksOf(TWO_BLOCKS) == TWO_BLOCKS && KeptBytes(NoFilter, TWO_BLOCKS[..1]) == 0xffff_d000
    ensures MappingsOf(NoFilter, TWO_BLOCKS) == [Cut(NoFilter, TWO_BLOCKS[0]), Cut(NoFilter, TWO_BLOCKS[1])]
  {
    BlocksApart(TWO_BLOCKS);
    assert TWO_BLOCKS[..1] == [TWO_BLOCKS[0]] && TWO_BLOCKS[..1][..0] == [];
    assert MappingsOf(NoFilter, TWO_BLOCKS[..1][..0]) == [] && KeptBytes(NoFilter, TWO_BLOCKS[..1][..0]) == 0;
    assert MappingsOf(NoFilter, TWO_BLOCKS[..1]) == [Cut(NoFilter, TWO_BLOCKS[0])];
  }

  // The header of the second block leads to byte 180, which is one of the notes.
  lemma LeadsIntoNotes(s: DumpState, notes: Data, junk: Data)
    requires s.HeaderPlan() && !s.class64 && s.filter == NoFilter && s.noteSize == |notes| == X86NoteSize(false, 20)
    requires s.blocks == TWO_BLOCKS && s.list == MappingsOf(NoFilter, TWO_BLOCKS) && |s.loads| == |s.list|
    requires forall k | 0 <= k < |s.loads| :: s.LoadOk(s.loads[k], s.list[k])
    requires |junk| == ShdrSize(false) && s.file == s.HeaderBytes(junk) + notes + Layout(NoFilter, s.host, TWO_BLOCKS)
    requires forall i | 0 <= i < |notes| :: notes[i] == 0
    ensures !InCore(s.file, 0xffff_e000, 1)
  {
    hide Layout, KeptBytes, MappingsOf, BlocksOf, PhdrAt, PhCount, DumpState.HeaderBytes, DumpState.RangeOk;
    TwoMappings();
    s.ReadCore(notes, junk);
    s.HeadersHold(junk, notes + Layout(NoFilter, s.host, TWO_BLOCKS));
    s.OffsetOfBlock(s.loads[1], 1);
    assert PhdrAt(s.file, 0 + 1) == Narrow(false, s.loads[0].Header());
    assert PhdrAt(s.file, 1 + 1) == Narrow(false, s.loads[1].Header());
    assert PhdrAt(s.file, 2).offset == 180;
    assert s.file[180] == notes[32] == 0;
  }

  /** A 32-bit guest with 20 CPUs and two blocks of memory close to 4 GiB: the offset of the second
      block is cut, and leads into the notes. Its first byte is in the file, and a reader does
      not find it. */
  method CutOffset() returns (s: DumpState, ok: bool)
    ensures s.blocks == TWO_BLOCKS && s.noteSize == X86NoteSize(false, 20) && !s.class64
    ensures ok ==> Found(s.loads, s.file, 0xffff_e000, 1) && !InCore(s.file, 0xffff_e000, 1)
  {
    hide DumpState.LoadOk, DumpState.HeaderBytes, Layout, OffsetsFit, HeadersMeant, PhCount, PhdrAt, MappingsOf,
         BlocksOf, InCore, DumpState.HeaderPlan;
    TwoMappings();
    var host: Host := a => if a >= 0xffff_e000 then 1 else 0;
    var notes: Data := seq(X86NoteSize(false, 20), _ => 0);
    var stack: Data := seq(ShdrSize(true), _ => 0);
    s, ok := DumpGuestMemory(TWO_BLOCKS, host, NoFilter, X86(false), notes, stack);
    if ok {
      assert Backed(TWO_BLOCKS, 0xffff_e000, 0xffff_e000) by { assert Has(TWO_BLOCKS[1], 0xffff_e000); }
      LeadsIntoNotes(s, notes, stack[..ShdrSize(false)]);
    }
  }
}
