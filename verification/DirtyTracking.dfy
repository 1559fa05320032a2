/** Guest stores and the dirty log, over all virtual CPUs (exec.c, cputlb.c). */
module DirtyTracking {
  import opened Arithmetic
  import opened Geometry
  import opened SoftTlb

  // The first page after a range: TARGET_PAGE_ALIGN(start + length) as a page number.
  function EndPage(start: nat, length: nat): nat {
    PageOf(start + length + PAGE_SIZE - 1)
  }

  // bitmap_clear
  function Outside(pages: set<nat>, lo: nat, hi: nat): set<nat> {
    set p | p in pages && !(lo <= p < hi)
  }

  /** cpu_physical_memory_clear_dirty_range */
  function Clear(dirty: Dirty, client: Client, lo: nat, hi: nat): Dirty {
    match client
    case VGA => dirty.(vga := Outside(dirty.vga, lo, hi))
    case CODE => dirty.(code := Outside(dirty.code, lo, hi))
    case MIGRATION => dirty.(migration := Outside(dirty.migration, lo, hi))
  }

  /** The range touches no more pages than its length alone would. Every range that
      starts on a page boundary is of this kind. */
  predicate Tight(start: nat, length: nat)
    requires length > 0
  {
    PageOf(start + length - 1) - PageOf(start) <= PageOf(length - 1)
  }

  lemma AlignedIsTight(page: nat, length: nat)
    requires length > 0
    ensures Tight(PageAddr(page), length)
  {
    AddrSplit(PageAddr(page), page);
    AddrSplit(length - 1, PageOf(length - 1));
    PageAddrSum(page, PageOf(length - 1));
    AddrSplit(PageAddr(page) + length - 1, page + PageOf(length - 1));
  }

  lemma LastPage(start: nat, length: nat)
    requires length > 0
    ensures EndPage(start, length) == PageOf(start + length - 1) + 1 && PageOf(start) <= PageOf(start + length - 1)
  {
    var q := PageOf(start + length - 1);
    AddrSplit(start + length - 1, q);
    AddrSplit(start + length + PAGE_SIZE - 1, q + 1);
    AddrSplit(start + length + PAGE_SIZE - 1, q);
    AddrSplit(start, PageOf(start));
    PageAddrMonotone(q, PageOf(start));
    PageAddrMonotone(PageOf(start), q);
  }

  // The entries of page `p` are reset.
  predicate Reached(start: nat, length: nat, p: nat) {
    PageOf(start) <= p && PageAddr(p - PageOf(start)) < length
  }

  // Whether page `p` of the range lies within `length` of its first page.
  lemma Near(start: nat, length: nat, p: nat)
    requires length > 0 && PageOf(start) <= p
    ensures Reached(start, length, p) <==> p - PageOf(start) <= PageOf(length - 1)
  {
    hide PageOf, PageAddr, Pow2;
    AddrSplit(length - 1, PageOf(length - 1));
    PageAddrMonotone(p - PageOf(start), PageOf(length - 1));
    PageAddrMonotone(PageOf(length - 1), p - PageOf(start));
  }

  /** The pages whose bits are cleared are the pages whose entries are reset, if and
      only if the range is tight: the code rounds the range outwards for the bitmap, and
      only its start for the TLB. */
  lemma TightExact(start: nat, length: nat)
    requires length > 0
    ensures Tight(start, length) <==> forall p: nat | PageOf(start) <= p < EndPage(start, length) ::
              Reached(start, length, p)
  {
    hide PageOf, Reached, EndPage, Pow2;
    LastPage(start, length);
    forall p: nat | PageOf(start) <= p < EndPage(start, length)
      ensures Reached(start, length, p) <==> p - PageOf(start) <= PageOf(length - 1)
    {
      Near(start, length, p);
    }
    Near(start, length, PageOf(start + length - 1));
  }

  lemma NoneMissed(start: nat, length: nat)
    requires length > 0 && Tight(start, length)
    ensures forall e: Entry, io: Iotlb :: !Missed(e, io, start, length)
  {
    hide PageOf, EndPage, Pow2, Reached;
    TightExact(start, length);
  }

  // The range lies in one block, as the code asserts.
  predicate InOneBlock(b: RamBlock, start: nat, length: nat) {
    b.offset <= PageOf(start) && EndPage(start, length) <= b.offset + b.pages
  }

  lemma FirstInBlock(b: RamBlock, start: nat, length: nat)
    requires length > 0 && InOneBlock(b, start, length)
    ensures InBlock(b, PageOf(start))
  {
    hide PageOf, EndPage;
    LastPage(start, length);
  }

  // Distances in host memory are distances in RAM.
  lemma HostDistance(blocks: seq<RamBlock>, b: RamBlock, page: nat, first: nat, host: int)
    requires BlocksOk(blocks) && b in blocks && InBlock(b, page) && InBlock(b, first) && IsHost(blocks, page, host)
    ensures first <= page ==> (host - Host(b, first)) % ADDR_LIMIT == PageAddr(page - first)
  {
    hide PageAddr, Pow2;
    var i :| 0 <= i < |blocks| && blocks[i] == b;
    var j :| 0 <= j < |blocks| && InBlock(blocks[j], page) && host == Host(blocks[j], page);
    assert i == j;
    if first <= page {
      PageAddrSum(first - b.offset, page - first);
      PageAddrMonotone(page - b.offset, b.pages);
      DivModUnique(PageAddr(page - first), ADDR_LIMIT, 0, PageAddr(page - first));
    }
  }

  // The bit of the entry's page is cleared, and the entry is not reset.
  predicate Missed(e: Entry, io: Iotlb, start: nat, length: nat) {
    && Stores(e) && !e.write.notdirty && io.NotDirty?
    && PageOf(start) <= io.page < EndPage(start, length) && !Reached(start, length, io.page)
  }

  /** After the bits of a range are cleared and the entries reset, an entry keeps its
      promise if and only if it was not missed. */
  lemma ResetExact(e: Entry, io: Iotlb, blocks: seq<RamBlock>, dirty: Dirty, client: Client, b: RamBlock,
                   start: nat, length: nat)
    requires WriteOk(e, io, blocks, dirty) && BlocksOk(blocks) && b in blocks
    requires length > 0 && InOneBlock(b, start, length) && InBlock(b, PageOf(start))
    ensures !Missed(e, io, start, length) <==>
            WriteOk(Reset(e, Host(b, PageOf(start)), length), io, blocks,
                    Clear(dirty, client, PageOf(start), EndPage(start, length)))
  {
    hide PageOf, PageAddr, EndPage, Pow2;
    if Stores(e) && !e.write.notdirty && PageOf(start) <= io.page < EndPage(start, length) {
      LastPage(start, length);
      HostDistance(blocks, b, io.page, PageOf(start), PageAddr(e.write.page) + e.addend);
    }
  }

  /** Two bytes around a page boundary: the bits of both pages are cleared, and an entry that
      stores to the second one at once is missed. */
  lemma UnalignedReset(client: Client)
    ensures var b, start, dirty := RamBlock(0, 0, 2), PAGE_SIZE - 1, Dirty({0, 1}, {0, 1}, {0, 1});
            var e, io := Entry(Absent, Word(1, false, false), Absent, 0), NotDirty(1);
            && BlocksOk([b]) && InOneBlock(b, start, 2) && InBlock(b, PageOf(start)) && !Tight(start, 2)
            && WriteOk(e, io, [b], dirty)
            && !WriteOk(Reset(e, Host(b, PageOf(start)), 2), io, [b],
                        Clear(dirty, client, PageOf(start), EndPage(start, 2)))
  {
    var b, start, dirty := RamBlock(0, 0, 2), PAGE_SIZE - 1, Dirty({0, 1}, {0, 1}, {0, 1});
    var e, io := Entry(Absent, Word(1, false, false), Absent, 0), NotDirty(1);
    SmallPages();
    assert BlocksOk([b]);
    assert IsHost([b], 1, PageAddr(1)) by {
      assert InBlock([b][0], 1) && PageAddr(1) == Host([b][0], 1);
    }
    ResetExact(e, io, [b], dirty, client, b, start, 2);
  }

  lemma SmallPages()
    ensures PAGE_SIZE >= 2 && PageAddr(0) == 0 && PageAddr(1) == PAGE_SIZE && PageAddr(2) <= ADDR_LIMIT
    ensures PageOf(PAGE_SIZE - 1) == 0 && PageOf(PAGE_SIZE) == 1 && PageOf(1) == 0 && EndPage(PAGE_SIZE - 1, 2) == 2
  {
    hide PageOf, PageAddr, Pow2;
    PageFits();
    AddrSplit(PAGE_SIZE - 1, 0);
    AddrSplit(1, 0);
    AddrSplit(PAGE_SIZE, 1);
    AddrSplit(PAGE_SIZE - 1 + 2 + PAGE_SIZE - 1, 2);
    PageAddrSum(0, 0);
  }

  lemma PageFits()
    ensures 2 <= PAGE_SIZE && 2 * PAGE_SIZE <= ADDR_LIMIT
  {
    Pow2Monotone(1, TARGET_PAGE_BITS);
    Pow2Monotone(TARGET_PAGE_BITS + 1, ADDR_SPACE_BITS);
    assert Pow2(1) == 2;
  }

  /** What a machine may do next. */
  datatype Step =
    | Map(c: nat, page: nat, to: Backing, read: bool, write: bool, exec: bool, m: nat, bits: nat, watched: bool)
    | FlushAll(c: nat)
    | FlushOne(c: nat, addr: nat)
    | Store(c: nat, m: nat, page: nat, codeGone: bool)
    | MarkDirty(more: Dirty)
    | ResetBits(b: nat, start: nat, length: nat, client: Client)

  // The RAM page behind each virtual page, for every CPU and mode.
  type Maps = seq<seq<map<nat, nat>>>

  function MapStep(at: Maps, step: Step): (r: Maps)
    ensures |r| == |at|
  {
    match step
    case Map(c, page, to, _, _, _, m, _, _) =>
      if c < |at| && m < |at[c]| then at[c := MapPage(at[c], m, page, to)] else at
    case _ => at
  }

  // The mappings after some steps.
  function MapSteps(at: Maps, steps: seq<Step>): Maps {
    if steps == [] then at else MapStep(MapSteps(at, steps[..|steps| - 1]), steps[|steps| - 1])
  }

  // The step is a store to RAM page r.
  predicate StoresTo(at: Maps, step: Step, r: nat) {
    && step.Store? && step.c < |at| && step.m < |at[step.c]|
    && step.page in at[step.c][step.m] && at[step.c][step.m][step.page] == r
  }

  // The step clears the bit of RAM page r.
  predicate Clears(step: Step, client: Client, r: nat) {
    step.ResetBits? && step.client == client && step.length > 0 &&
    PageOf(step.start) <= r < EndPage(step.start, step.length)
  }

  /** Page r was stored to, and its bit has not been cleared since. */
  ghost predicate Owed(pages: set<nat>, at: Maps, steps: seq<Step>, client: Client, r: nat) {
    || (r in pages && forall k | 0 <= k < |steps| :: !Clears(steps[k], client, r))
    || exists n :: StoredAt(at, steps, client, r, n)
  }

  ghost predicate StoredAt(at: Maps, steps: seq<Step>, client: Client, r: nat, n: nat) {
    && n < |steps| && StoresTo(MapSteps(at, steps[..n]), steps[n], r)
    && forall k | n < k < |steps| :: !Clears(steps[k], client, r)
  }

  // One more step.
  lemma OwedNext(pages: set<nat>, at: Maps, steps: seq<Step>, step: Step, client: Client, r: nat)
    ensures Owed(pages, at, steps + [step], client, r) <==>
            StoresTo(MapSteps(at, steps), step, r) ||
            (Owed(pages, at, steps, client, r) && !Clears(step, client, r))
  {
    hide StoresTo, Clears, MapSteps;
    var now := steps + [step];
    assert now[..|steps|] == steps;
    forall n: nat | n < |steps|
      ensures now[..n] == steps[..n]
      ensures StoredAt(at, now, client, r, n) <==> StoredAt(at, steps, client, r, n) && !Clears(step, client, r)
    {
      assert now[..n] == steps[..n];
      assert now[|steps|] == step;
      assert forall k | 0 <= k < |steps| :: now[k] == steps[k];
    }
    if StoresTo(MapSteps(at, steps), step, r) {
      assert StoredAt(at, now, client, r, |steps|);
    }
    if Owed(pages, at, steps, client, r) && !Clears(step, client, r) && !(r in pages) {
      var n :| StoredAt(at, steps, client, r, n);
      assert StoredAt(at, now, client, r, n);
    }
  }

  lemma NothingOwed(pages: set<nat>, at: Maps, client: Client)
    ensures forall r: nat :: r in pages <==> Owed(pages, at, [], client, r)
    ensures MapSteps(at, []) == at
  {
  }

  // What one step does to the pages that wait for a client.
  ghost predicate Waits(was: set<nat>, now: set<nat>, at: Maps, step: Step, client: Client) {
    forall r: nat :: r in now <==> StoresTo(at, step, r) || (r in was && !Clears(step, client, r))
  }

  lemma OwedStep(pages: set<nat>, was: set<nat>, now: set<nat>, at: Maps, steps: seq<Step>, step: Step, client: Client)
    requires forall r: nat :: r in was <==> Owed(pages, at, steps, client, r)
    requires Waits(was, now, MapSteps(at, steps), step, client)
    ensures forall r: nat :: r in now <==> Owed(pages, at, steps + [step], client, r)
    ensures MapSteps(at, steps + [step]) == MapStep(MapSteps(at, steps), step)
  {
    hide Owed, StoresTo, Clears;
    forall r: nat
      ensures r in now <==> Owed(pages, at, steps + [step], client, r)
    {
      OwedNext(pages, at, steps, step, client, r);
    }
    assert (steps + [step])[..|steps|] == steps;
  }

  class Machine {
    const ram: RamList
    const cpus: seq<Cpu>
    // Pages of RAM stored to since their bit was last cleared, for migration and for display.
    ghost var toMigrate: set<nat>
    ghost var toDraw: set<nat>

    ghost predicate Shape()
      reads this, cpus
    {
      && BlocksOk(ram.blocks)
      && (forall i, j | 0 <= i < j < |cpus| :: cpus[i] != cpus[j])
      && (forall i | 0 <= i < |cpus| :: cpus[i].ram == ram && cpus[i].Valid())
    }

    /** No entry stores at once to a clean page, and no store is missing from the log. */
    ghost predicate Inv()
      reads this, ram, cpus
    {
      && Shape() && (forall i | 0 <= i < |cpus| :: cpus[i].LogOk())
      && toMigrate <= ram.dirty.migration && toDraw <= ram.dirty.vga
    }

    // On every CPU all modes map a virtual page alike.
    ghost predicate Agreed()
      reads cpus
    {
      forall i | 0 <= i < |cpus| :: cpus[i].Agree()
    }

    constructor (ram: RamList, cpus: seq<Cpu>)
      requires BlocksOk(ram.blocks) && (forall i, j | 0 <= i < j < |cpus| :: cpus[i] != cpus[j])
      requires forall i | 0 <= i < |cpus| :: cpus[i].ram == ram && cpus[i].Sound()
      ensures Inv() && this.ram == ram && this.cpus == cpus && toMigrate == {} && toDraw == {}
    {
      this.ram, this.cpus, toMigrate, toDraw := ram, cpus, {}, {};
    }

    // Some entry of the CPU is missed by a reset of the range.
    ghost predicate MissedBy(cpu: Cpu, start: nat, length: nat)
      requires cpu.Shape()
      reads cpu
    {
      exists m, i ::
          0 <= m < cpu.modes && 0 <= i < CPU_TLB_SIZE && Missed(cpu.tlb[m][i], cpu.iotlb[m][i], start, length)
    }

    /** cpu_physical_memory_reset_dirty on a range within block `b`: all promises are kept if
        and only if no entry of any CPU is missed, and none is in a tight range. */
    method ResetDirty(b: RamBlock, start: nat, length: nat, client: Client)
      requires Inv() && (length > 0 ==> b in ram.blocks && InOneBlock(b, start, length))
      modifies this, ram, cpus`tlb
      ensures Shape() && (old(Agreed()) ==> Agreed())
      ensures length == 0 ==> Inv() && ram.dirty == old(ram.dirty)
      ensures length > 0 ==> ram.dirty == Clear(old(ram.dirty), client, PageOf(start), EndPage(start, length))
      ensures length > 0 ==> (Inv() <==> !exists k :: 0 <= k < |cpus| && old(MissedBy(cpus[k], start, length)))
      ensures length > 0 && Tight(start, length) ==> Inv()
      ensures toMigrate == if length > 0 && client.MIGRATION?
                           then Outside(old(toMigrate), PageOf(start), EndPage(start, length)) else old(toMigrate)
      ensures toDraw == if length > 0 && client.VGA?
                        then Outside(old(toDraw), PageOf(start), EndPage(start, length)) else old(toDraw)
    {
      if length == 0 {
        return;
      }
      hide PageOf, EndPage, Tight, Clear, Outside, Inv, Shape, Agreed, MissedBy;
      if Tight(start, length) {
        NothingMissed(start, length);
      }
      ResetSome(b, start, length, client);
    }

    method ResetSome(b: RamBlock, start: nat, length: nat, client: Client)
      requires Inv() && length > 0 && b in ram.blocks && InOneBlock(b, start, length)
      modifies this, ram, cpus`tlb
      ensures Shape() && (old(Agreed()) ==> Agreed())
      ensures ram.dirty == Clear(old(ram.dirty), client, PageOf(start), EndPage(start, length))
      ensures Inv() <==> !exists k :: 0 <= k < |cpus| && old(MissedBy(cpus[k], start, length))
      ensures toMigrate == if client.MIGRATION? then Outside(old(toMigrate), PageOf(start), EndPage(start, length))
                           else old(toMigrate)
      ensures toDraw == if client.VGA? then Outside(old(toDraw), PageOf(start), EndPage(start, length)) else old(toDraw)
    {
      hide PageOf, EndPage, Cpu.LogOk, Cpu.Valid, MissedBy, LoggedBefore, InOneBlock, BlocksOk, Clear, Outside, Agreed;
      AllLogged();
      FirstInBlock(b, start, length);
      ClearBits(PageOf(start), EndPage(start, length), client);
      ResetCpus(b, start, length, client, old(ram.dirty));
    }

    method ClearBits(first: nat, end: nat, client: Client)
      requires toMigrate <= ram.dirty.migration && toDraw <= ram.dirty.vga
      modifies this, ram
      ensures ram.dirty == Clear(old(ram.dirty), client, first, end)
      ensures toMigrate <= ram.dirty.migration && toDraw <= ram.dirty.vga
      ensures toMigrate == if client.MIGRATION? then Outside(old(toMigrate), first, end) else old(toMigrate)
      ensures toDraw == if client.VGA? then Outside(old(toDraw), first, end) else old(toDraw)
    {
      ram.dirty := Clear(ram.dirty, client, first, end);
      if client.MIGRATION? {
        toMigrate := Outside(toMigrate, first, end);
      } else if client.VGA? {
        toDraw := Outside(toDraw, first, end);
      }
    }

    method ResetCpus(b: RamBlock, start: nat, length: nat, client: Client, ghost was: Dirty)
      requires Shape() && length > 0 && b in ram.blocks && InOneBlock(b, start, length) && InBlock(b, PageOf(start))
      requires forall k | 0 <= k < |cpus| :: LoggedBefore(cpus[k], was)
      requires ram.dirty == Clear(was, client, PageOf(start), EndPage(start, length))
      modifies cpus`tlb
      ensures Shape() && (old(Agreed()) ==> Agreed())
      ensures forall k | 0 <= k < |cpus| :: cpus[k].LogOk() <==> !old(MissedBy(cpus[k], start, length))
    {
      hide PageOf, EndPage, Pow2, Tight, Missed, Reached, ModesAgree, Clear, MissedBy, LoggedBefore;
      var i := 0;
      while i < |cpus|
        invariant 0 <= i <= |cpus|
        invariant forall k | 0 <= k < i :: cpus[k].Valid() && (old(cpus[k].Agree()) ==> cpus[k].Agree())
        invariant forall k | 0 <= k < i :: cpus[k].LogOk() <==> !old(MissedBy(cpus[k], start, length))
        invariant forall k | i <= k < |cpus| :: unchanged(cpus[k])
      {
        ResetCpu(cpus[i], b, start, length, client, was);
        i := i + 1;
      }
    }

    // Before the bits were cleared, the CPU kept its promise.
    ghost predicate LoggedBefore(cpu: Cpu, was: Dirty)
      requires cpu.Shape()
      reads cpu
    {
      forall m, i | 0 <= m < cpu.modes && 0 <= i < CPU_TLB_SIZE ::
        WriteOk(cpu.tlb[m][i], cpu.iotlb[m][i], cpu.ram.blocks, was)
    }

    lemma AllLogged()
      requires Inv()
      ensures forall k | 0 <= k < |cpus| :: LoggedBefore(cpus[k], ram.dirty)
    {
      hide WriteOk;
    }

    lemma NothingMissed(start: nat, length: nat)
      requires length > 0 && Tight(start, length) && Shape()
      ensures forall k | 0 <= k < |cpus| :: !MissedBy(cpus[k], start, length)
    {
      hide Missed, Tight;
      NoneMissed(start, length);
    }

    method ResetCpu(cpu: Cpu, b: RamBlock, start: nat, length: nat, client: Client, ghost was: Dirty)
      requires cpu.ram == ram && cpu.Valid() && BlocksOk(ram.blocks)
      requires LoggedBefore(cpu, was)
      requires length > 0 && b in ram.blocks && InOneBlock(b, start, length) && InBlock(b, PageOf(start))
      requires ram.dirty == Clear(was, client, PageOf(start), EndPage(start, length))
      modifies cpu`tlb
      ensures cpu.Valid() && (old(cpu.Agree()) ==> cpu.Agree())
      ensures cpu.LogOk() <==> !old(MissedBy(cpu, start, length))
    {
      hide Missed, WriteOk, Clear, PageOf, EndPage, Pow2, InOneBlock;
      cpu.ResetRange(Host(b, PageOf(start)), length);
      forall m, i | 0 <= m < cpu.modes && 0 <= i < CPU_TLB_SIZE
        ensures WriteOk(cpu.tlb[m][i], cpu.iotlb[m][i], ram.blocks, ram.dirty) <==>
                !Missed(old(cpu.tlb)[m][i], cpu.iotlb[m][i], start, length)
      {
        ResetExact(old(cpu.tlb)[m][i], cpu.iotlb[m][i], ram.blocks, was, client, b, start, length);
      }
    }

    /** More dirty bits never break a promise. */
    method Mark(more: Dirty)
      requires Inv() && ram.dirty.Within(more)
      modifies ram
      ensures Inv() && ram.dirty == more
    {
      ram.dirty := more;
      forall k | 0 <= k < |cpus|
        ensures cpus[k].LogOk()
      {
        StillSound(cpus[k]);
      }
    }

    twostate lemma StillSound(cpu: Cpu)
      requires old(cpu.Sound()) && unchanged(cpu) && old(cpu.ram.dirty).Within(cpu.ram.dirty)
      ensures cpu.Sound()
    {
      hide EntryOk, LargeOk, RegionOk, IsHost;
      forall m, i | 0 <= m < cpu.modes && 0 <= i < CPU_TLB_SIZE
        ensures WriteOk(cpu.tlb[m][i], cpu.iotlb[m][i], cpu.ram.blocks, cpu.ram.dirty)
      {
        assert WriteOk(cpu.tlb[m][i], cpu.iotlb[m][i], cpu.ram.blocks, old(cpu.ram.dirty));
      }
    }

    // Once `dirty` is set, no mode of the CPU stores at once to a clean page through `page`.
    ghost predicate ModesDirty(cpu: Cpu, page: nat, dirty: Dirty)
      requires cpu.Shape()
      reads cpu
    {
      forall k | 0 <= k < cpu.modes && cpu.tlb[k][Slot(page)].write == Word(page, true, false) ::
        cpu.iotlb[k][Slot(page)].NotDirty? && !dirty.Clean(cpu.iotlb[k][Slot(page)].page)
    }

    // Modes that agree are dirty together.
    lemma AgreeingModes(cpu: Cpu, m: nat, page: nat, dirty: Dirty)
      requires cpu.Agree() && m < cpu.modes && cpu.tlb[m][Slot(page)].write == Word(page, true, false)
      requires cpu.iotlb[m][Slot(page)].NotDirty? && !dirty.Clean(cpu.iotlb[m][Slot(page)].page)
      ensures ModesDirty(cpu, page, dirty)
    {
      hide Slot;
      forall k | 0 <= k < cpu.modes && cpu.tlb[k][Slot(page)].write == Word(page, true, false)
        ensures cpu.iotlb[k][Slot(page)] == cpu.iotlb[m][Slot(page)]
      {
        assert SamePage(cpu.tlb[m][Slot(page)], cpu.tlb[k][Slot(page)]);
      }
    }

    // The dirty bits after a store to page r that calls back.
    function Stored(dirty: Dirty, r: nat, codeGone: bool): Dirty {
      dirty.(migration := dirty.migration + {r}, vga := dirty.vga + {r},
             code := if codeGone then dirty.code + {r} else dirty.code)
    }

    /** notdirty_mem_write, called for a store of `cpu` in mode `m`. If the page holds no
        translated code any more, tb_invalidate_phys_page_fast sets its CODE bit. All promises
        are kept if and only if the page stays clean or no mode is left with a clean one. */
    method NotdirtyWrite(cpu: Cpu, m: nat, page: nat, codeGone: bool)
      requires Inv() && cpu in cpus && m < cpu.modes
      requires cpu.tlb[m][Slot(page)].write == Word(page, true, false)
      modifies this, ram, cpu`tlb
      ensures Shape() && cpu.iotlb[m][Slot(page)].NotDirty? && (old(Agreed()) ==> Inv() && Agreed())
      ensures var r := cpu.iotlb[m][Slot(page)].page;
              && ram.dirty == Stored(old(ram.dirty), r, codeGone)
              && toMigrate == old(toMigrate) + {r} && toDraw == old(toDraw) + {r}
              && cpu.tlb[m][Slot(page)].write == Word(page, ram.dirty.Clean(r), false)
              && (Inv() <==> ram.dirty.Clean(r) || old(ModesDirty(cpu, page, Stored(ram.dirty, r, codeGone))))
    {
      hide EntryOk, LargeOk, RegionOk, IsHost, ModesAgree, Slot, BlocksOk, ModesDirty, Cpu.LogOk, Cpu.Valid;
      var r := PageBehind(cpu, m, page);
      Mark(Stored(ram.dirty, r, codeGone));
      toMigrate, toDraw := toMigrate + {r}, toDraw + {r};
      if !ram.dirty.Clean(r) {
        if old(Agreed()) {
          AgreeingModes(cpu, m, page, ram.dirty);
        }
        UndoNotdirty(cpu, m, page);
      }
    }

    // tlb_set_dirty, which can break a promise of this CPU only.
    method UndoNotdirty(cpu: Cpu, m: nat, page: nat)
      requires cpu.Sound() && m < cpu.modes && cpu.tlb[m][Slot(page)].write == Word(page, true, false)
      modifies cpu`tlb
      ensures cpu.Valid() && (cpu.LogOk() <==> old(ModesDirty(cpu, page, cpu.ram.dirty))) &&
              (old(cpu.Agree()) ==> cpu.Agree())
      ensures cpu.tlb[m][Slot(page)].write == Word(page, false, false)
    {
      hide EntryOk, LargeOk, RegionOk, IsHost, ModesAgree, Slot;
      cpu.SetDirty(page);
    }

    method PageBehind(cpu: Cpu, m: nat, page: nat) returns (r: nat)
      requires cpu.Sound() && m < cpu.modes && Stores(cpu.tlb[m][Slot(page)])
      ensures cpu.iotlb[m][Slot(page)] == NotDirty(r)
    {
      assert WriteOk(cpu.tlb[m][Slot(page)], cpu.iotlb[m][Slot(page)], cpu.ram.blocks, cpu.ram.dirty);
      r := cpu.iotlb[m][Slot(page)].page;
    }

    /** A guest store through the TLB that hits RAM, on either path: the page is in the log
        afterwards. */
    method GuestStore(cpu: Cpu, m: nat, page: nat, codeGone: bool) returns (r: nat)
      requires Inv() && cpu in cpus && m < cpu.modes
      requires Stores(cpu.tlb[m][Slot(page)]) && cpu.tlb[m][Slot(page)].write.page == page
      modifies this, ram, cpu`tlb
      ensures Shape() && cpu.iotlb[m][Slot(page)] == NotDirty(r) && (old(Agreed()) ==> Inv() && Agreed())
      ensures r in ram.dirty.migration && r in ram.dirty.vga && old(ram.dirty).Within(ram.dirty)
      ensures toMigrate == old(toMigrate) + {r} && toDraw == old(toDraw) + {r}
    {
      hide EntryOk, LargeOk, RegionOk, IsHost, ModesAgree, Slot;
      r := PageBehind(cpu, m, page);
      if cpu.tlb[m][Slot(page)].write.notdirty {
        NotdirtyWrite(cpu, m, page, codeGone);
      } else {
        assert WriteOk(cpu.tlb[m][Slot(page)], cpu.iotlb[m][Slot(page)], ram.blocks, ram.dirty);
        toMigrate, toDraw := toMigrate + {r}, toDraw + {r};
      }
    }

    // ---- steps of one CPU ----

    method SetPage(cpu: Cpu, page: nat, to: Backing, read: bool, write: bool, exec: bool, m: nat, bits: nat,
                   watched: bool)
      requires Inv() && cpu in cpus && m < cpu.modes && page < ADDR_PAGES && bits <= ALL_BITS
      requires to.Ram? ==> IsHost(ram.blocks, to.page, to.host)
      modifies cpu
      ensures Inv() && cpu.mapped == MapPage(old(cpu.mapped), m, page, to)
      ensures old(Agreed()) ==>
                (Agreed() <==> (write && to.Ram? && !to.readonly && !watched ==>
                                old(cpu.OthersAgree(m, page, to.page))))
    {
      cpu.SetPage(page, to, read, write, exec, m, bits, watched);
    }

    method FlushPage(cpu: Cpu, addr: nat)
      requires Inv() && cpu in cpus
      modifies cpu`tlb, cpu`flushAddr, cpu`flushBits
      ensures Inv() && (old(Agreed()) ==> Agreed())
      ensures forall m, i | 0 <= m < cpu.modes && 0 <= i < CPU_TLB_SIZE && !Dead(cpu.tlb[m][i]) ::
                !cpu.origins[m][i].Contains(PageOf(addr))
    {
      cpu.FlushPage(addr);
    }

    method Flush(cpu: Cpu)
      requires Inv() && cpu in cpus
      modifies cpu`tlb, cpu`flushAddr, cpu`flushBits
      ensures Inv() && (old(Agreed()) ==> Agreed())
      ensures forall m, i | 0 <= m < cpu.modes && 0 <= i < CPU_TLB_SIZE :: cpu.tlb[m][i] == DEAD
    {
      cpu.Flush();
    }

    // ---- runs ----

    ghost predicate Tables()
      reads this, cpus
    {
      forall i | 0 <= i < |cpus| :: IsTable(cpus[i].tlb, cpus[i].modes) && IsTable(cpus[i].iotlb, cpus[i].modes)
    }

    // The CPU, page and block of the step exist.
    predicate Named(step: Step) {
      match step
      case Map(c, page, to, _, _, _, m, bits, _) =>
        && c < |cpus| && m < cpus[c].modes && page < ADDR_PAGES && bits <= ALL_BITS
        && (to.Ram? ==> IsHost(ram.blocks, to.page, to.host))
      case FlushAll(c) => c < |cpus|
      case FlushOne(c, _) => c < |cpus|
      case Store(c, m, _, _) => c < |cpus| && m < cpus[c].modes
      case MarkDirty(_) => true
      case ResetBits(b, start, length, _) => length > 0 ==> b < |ram.blocks| && InOneBlock(ram.blocks[b], start, length)
    }

    // The step can be taken: a store hits RAM, and marking bits clears none.
    predicate Possible(step: Step)
      requires Tables()
      reads this, ram, cpus
    {
      && Named(step)
      && match step
         case Store(c, m, page, _) =>
           Stores(cpus[c].tlb[m][Slot(page)]) && cpus[c].tlb[m][Slot(page)].write.page == page
         case MarkDirty(more) => ram.dirty.Within(more)
         case _ => true
    }

    // What the callers must see to: all modes map a virtual page alike, and ranges are tight.
    predicate Proper(step: Step)
      requires Tables() && Possible(step)
      reads this, ram, cpus
    {
      match step
      case Map(c, page, to, _, write, _, m, _, watched) =>
        write && to.Ram? && !to.readonly && !watched ==> cpus[c].OthersAgree(m, page, to.page)
      case ResetBits(_, start, length, _) => length > 0 ==> Tight(start, length)
      case _ => true
    }

    // The mappings of all CPUs.
    ghost predicate MapsAre(at: Maps)
      reads cpus
    {
      |at| == |cpus| && forall i | 0 <= i < |cpus| :: cpus[i].mapped == at[i]
    }

    lemma InvTables()
      requires Inv()
      ensures Shape() && Tables()
    {
      hide Cpu.LogOk, BlocksOk;
    }

    lemma DistinctCpus()
      requires Shape()
      ensures forall i, j | 0 <= i < j < |cpus| :: cpus[i] != cpus[j]
      ensures forall i | 0 <= i < |cpus| :: |cpus[i].mapped| == cpus[i].modes
    {
      hide Tracks, EntryOk, LargeOk, RegionOk, BlocksOk;
    }

    // A store hits the page of RAM that its virtual page was last mapped to.
    lemma StoreHits(at: Maps, step: Step) returns (r: nat)
      requires Shape() && Tables() && MapsAre(at) && step.Store? && Possible(step)
      ensures cpus[step.c].iotlb[step.m][Slot(step.page)] == NotDirty(r) && StoresTo(at, step, r)
    {
      hide Slot, EntryOk, LargeOk, RegionOk, BlocksOk;
      var cpu := cpus[step.c];
      assert Stores(cpu.tlb[step.m][Slot(step.page)]);
      r := cpu.mapped[step.m][step.page];
    }

    method DoStore(step: Step, ghost at: Maps)
      requires Inv() && Agreed() && step.Store? && Possible(step) && MapsAre(at)
      modifies this, ram, cpus`tlb
      ensures Inv() && Agreed()
      ensures Waits(old(toMigrate), toMigrate, at, step, MIGRATION) && Waits(old(toDraw), toDraw, at, step, VGA)
    {
      hide Inv, Agreed, Shape, MapsAre, Slot;
      InvTables();
      ghost var p := StoreHits(at, step);
      var r := GuestStore(cpus[step.c], step.m, step.page, step.codeGone);
      assert r == p;
    }

    method DoReset(step: Step, ghost at: Maps)
      requires Inv() && Agreed() && step.ResetBits? && Named(step) &&
               (step.length > 0 ==> Tight(step.start, step.length))
      modifies this, ram, cpus`tlb
      ensures Inv() && Agreed()
      ensures Waits(old(toMigrate), toMigrate, at, step, MIGRATION) && Waits(old(toDraw), toDraw, at, step, VGA)
    {
      hide Inv, Agreed, Shape, MissedBy, PageOf, EndPage, Tight, InOneBlock;
      if step.length > 0 {
        ResetDirty(ram.blocks[step.b], step.start, step.length, step.client);
      }
    }

    /** Every step keeps the promises. A store adds the page of RAM that its virtual page was last
        mapped to, and only clearing takes pages away. */
    method Do(step: Step, ghost at: Maps)
      requires Inv() && Agreed() && Possible(step) && Proper(step) && MapsAre(at)
      modifies this, ram, cpus
      ensures Inv() && Agreed() && MapsAre(MapStep(at, step))
      ensures Waits(old(toMigrate), toMigrate, at, step, MIGRATION) && Waits(old(toDraw), toDraw, at, step, VGA)
    {
      hide Inv, Agreed, Shape, Tight, PageOf, EndPage, Slot, InOneBlock, MapPage, IsHost;
      InvTables();
      DistinctCpus();
      match step {
        case Map(c, page, to, read, write, exec, m, bits, watched) =>
          SetPage(cpus[c], page, to, read, write, exec, m, bits, watched);
        case FlushAll(c) => Flush(cpus[c]);
        case FlushOne(c, addr) => FlushPage(cpus[c], addr);
        case Store(_, _, _, _) => DoStore(step, at);
        case MarkDirty(more) => Mark(more);
        case ResetBits(_, _, _, _) => DoReset(step, at);
      }
    }

    /** Any run of any number of CPUs. It ends early only at a step that cannot be taken or is not
        proper, and all promises are kept to the end: no entry stores at once to a clean page,
        and the log has exactly the pages that the steps stored to since their bits were last
        cleared. Which page a store goes to is said by the mappings among the steps before it. */
    method Run(steps: seq<Step>, ghost at: Maps) returns (end: nat)
      requires Inv() && Agreed() && MapsAre(at)
      modifies this, ram, cpus
      ensures Inv() && Agreed() && Tables() && end <= |steps| && MapsAre(MapSteps(at, steps[..end]))
      ensures end < |steps| ==> !Possible(steps[end]) || !Proper(steps[end])
      ensures forall r: nat :: r in toMigrate <==> Owed(old(toMigrate), at, steps[..end], MIGRATION, r)
      ensures forall r: nat :: r in toDraw <==> Owed(old(toDraw), at, steps[..end], VGA, r)
    {
      hide Inv, Agreed, Shape, Possible, Proper, MapsAre, MapStep, MapSteps, Waits, Owed;
      NothingOwed(toMigrate, at, MIGRATION);
      NothingOwed(toDraw, at, VGA);
      assert steps[..0] == [];
      for n := 0 to |steps|
        invariant Inv() && Agreed() && MapsAre(MapSteps(at, steps[..n]))
        invariant forall r: nat :: r in toMigrate <==> Owed(old(toMigrate), at, steps[..n], MIGRATION, r)
        invariant forall r: nat :: r in toDraw <==> Owed(old(toDraw), at, steps[..n], VGA, r)
      {
        InvTables();
        if !Possible(steps[n]) || !Proper(steps[n]) {
          return n;
        }
        ghost var wasMigrate, wasDraw := toMigrate, toDraw;
        Do(steps[n], MapSteps(at, steps[..n]));
        OwedStep(old(toMigrate), wasMigrate, toMigrate, at, steps[..n], steps[n], MIGRATION);
        OwedStep(old(toDraw), wasDraw, toDraw, at, steps[..n], steps[n], VGA);
        assert steps[..n + 1] == steps[..n] + [steps[n]];
      }
      InvTables();
      assert steps[..|steps|] == steps;
      return |steps|;
    }
  }

  // CPUs with empty TLBs.
  method NewCpus(ram: RamList, modes: seq<nat>) returns (cpus: seq<Cpu>)
    ensures |cpus| == |modes| && fresh(cpus) && forall i, j | 0 <= i < j < |cpus| :: cpus[i] != cpus[j]
    ensures forall i | 0 <= i < |cpus| :: cpus[i].ram == ram && cpus[i].Sound() && cpus[i].Agree()
    ensures forall i | 0 <= i < |cpus| :: cpus[i].mapped == NoMaps(modes)[i]
  {
    cpus := [];
    for c := 0 to |modes|
      invariant |cpus| == c && fresh(cpus) && forall i, j | 0 <= i < j < c :: cpus[i] != cpus[j]
      invariant forall i | 0 <= i < c :: cpus[i].ram == ram && cpus[i].Sound() && cpus[i].Agree()
      invariant forall i | 0 <= i < c :: cpus[i].mapped == NoMaps(modes)[i]
    {
      var cpu := new Cpu(modes[c], ram);
      assert cpu.mapped == NoMaps(modes)[c];
      cpus := cpus + [cpu];
    }
  }

  /** A run from reset: after it the log has every page of RAM that a store went to since its bit was
      last cleared. */
  method RunFromReset(blocks: seq<RamBlock>, dirty: Dirty, modes: seq<nat>, steps: seq<Step>)
    returns (machine: Machine, end: nat)
    requires BlocksOk(blocks)
    ensures fresh(machine) && machine.Inv() && machine.Tables() && end <= |steps|
    ensures end < |steps| ==> !machine.Possible(steps[end]) || !machine.Proper(steps[end])
    ensures forall r: nat | Owed({}, NoMaps(modes), steps[..end], MIGRATION, r) :: r in machine.ram.dirty.migration
    ensures forall r: nat | Owed({}, NoMaps(modes), steps[..end], VGA, r) :: r in machine.ram.dirty.vga
  {
    hide BlocksOk, Machine.Possible, Machine.Proper, MapSteps, Owed, Cpu.Sound, Cpu.Agree, Machine.Shape,
         Machine.Tables;
    var ram := new RamList(blocks, dirty);
    var cpus := NewCpus(ram, modes);
    machine := new Machine(ram, cpus);
    end := machine.Run(steps, NoMaps(modes));
  }

  // No page is mapped.
  function NoMaps(modes: seq<nat>): Maps {
    seq(|modes|, c requires 0 <= c < |modes| => seq(modes[c], _ => map[]))
  }

  /** Two modes map virtual page 5 to different clean pages of RAM. A store in mode 0 makes
      its page dirty for all clients, and tlb_set_dirty then lets mode 1 store at once to a
      page that is clean. */
  method DisagreeingModes() returns (machine: Machine, cpu: Cpu)
    ensures fresh(machine) && machine.cpus == [cpu] && machine.Shape() && !machine.Inv()
  {
    var ram := new RamList([RamBlock(0, 0, 2)], Dirty({}, {}, {}));
    SmallPages();
    assert BlocksOk(ram.blocks);
    cpu := new Cpu(2, ram);
    hide PageAddr, PageOf, Pow2;
    var page := 5;
    assert IsHost(ram.blocks, 0, 0) by { assert InBlock(ram.blocks[0], 0); }
    assert IsHost(ram.blocks, 1, PageAddr(1)) by { assert InBlock(ram.blocks[0], 1); }
    ManyPages();
    cpu.SetPage(page, Ram(0, 0, false), true, true, false, 0, 0, false);
    cpu.SetPage(page, Ram(1, PageAddr(1), false), true, true, false, 1, 0, false);
    machine := new Machine(ram, [cpu]);
    machine.NotdirtyWrite(cpu, 0, page, true);
  }

  lemma ManyPages()
    ensures 5 < ADDR_PAGES
  {
    Pow2Monotone(3, ADDR_SPACE_BITS - TARGET_PAGE_BITS);
    assert Pow2(3) == 8;
  }
}
