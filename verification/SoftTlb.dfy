/** The software TLB of the virtual CPUs and the dirty log of guest RAM (cputlb.c, exec.c).
    Virtual and RAM addresses are given by page number where the code only uses pages;
    a mask of ones above bit n is given by n, so masking is rounding down. */
module SoftTlb {
  import opened Arithmetic
  import opened Geometry
  import opened Options

  const CPU_TLB_SIZE: nat := 256

  /** A page address in a TLB entry with its flags; Absent is the value -1, the only one
      with TLB_INVALID_MASK set. */
  datatype Word = Absent | Word(page: nat, notdirty: bool, mmio: bool)

  /** CPUTLBEntry. The addend leads from a virtual address to host memory. */
  datatype Entry = Entry(read: Word, write: Word, code: Word, addend: int)

  const DEAD: Entry := Entry(Absent, Absent, Absent, -1)

  predicate Dead(e: Entry) {
    e.read.Absent? && e.write.Absent? && e.code.Absent?
  }

  function Slot(page: nat): (i: nat)
    ensures i < CPU_TLB_SIZE
  {
    page % CPU_TLB_SIZE
  }

  // ---- pages of any size ----

  // The page number with its low `bits` bits cleared.
  function Masked(page: nat, bits: nat): nat {
    Down(page, Pow2(bits))
  }

  // Clearing more bits forgets that some were cleared before.
  lemma MaskedAgain(page: nat, bits: nat, more: nat)
    requires bits <= more
    ensures Masked(Masked(page, bits), more) == Masked(page, more)
  {
    var d, p := Masked(page, more), Pow2(bits);
    DownFacts(page, Pow2(more));
    Pow2Add(more - bits, bits);
    MulRegroup(page / Pow2(more), Pow2(more - bits), 0, p);
    MulMonotone(0, page / Pow2(more), Pow2(more - bits));
    DivModUnique(d, p, page / Pow2(more) * Pow2(more - bits), 0);
    DownMonotone(d, page, p);
    DownFacts(page, p);
    DownUnique(Masked(page, bits), Pow2(more), d);
  }

  lemma MaskedSame(a: nat, b: nat, bits: nat, more: nat)
    requires bits <= more && Masked(a, bits) == Masked(b, bits)
    ensures Masked(a, more) == Masked(b, more)
  {
    MaskedAgain(a, bits, more);
    MaskedAgain(b, bits, more);
  }

  lemma MaskedBounds(page: nat, bits: nat)
    ensures Masked(page, 0) == page && Masked(page, bits) <= page && (page < Pow2(bits) ==> Masked(page, bits) == 0)
  {
    DownFacts(page, Pow2(bits));
    if page < Pow2(bits) {
      DivModUnique(page, Pow2(bits), 0, page);
    }
  }

  /** The page an entry was installed from, of 2^bits small pages. The entry itself maps
      one small page of it. */
  datatype Origin = Origin(page: nat, bits: nat)
  {
    predicate Contains(page': nat) {
      Masked(page', bits) == Masked(page, bits)
    }
  }

  // The region of large pages: tlb_flush_addr, None for -1, and tlb_flush_mask.
  predicate Covers(flushAddr: Option<nat>, flushBits: nat, o: Origin) {
    flushAddr == Some(Masked(o.page, flushBits)) && o.bits <= flushBits
  }

  lemma CoversAll(flushAddr: Option<nat>, flushBits: nat, o: Origin, page: nat)
    requires Covers(flushAddr, flushBits, o) && o.Contains(page)
    ensures Some(Masked(page, flushBits)) == flushAddr
  {
    MaskedSame(page, o.page, o.bits, flushBits);
  }

  ghost predicate WordOk(word: Word, o: Origin) {
    word.Absent? || word.page == o.page
  }

  ghost predicate EntryOk(e: Entry, o: Origin, i: nat) {
    Slot(o.page) == i && WordOk(e.read, o) && WordOk(e.write, o) && WordOk(e.code, o)
  }

  // A large page lies in the region.
  predicate LargeOk(flushAddr: Option<nat>, flushBits: nat, o: Origin) {
    o.bits == 0 || Covers(flushAddr, flushBits, o)
  }

  const ALL_BITS: nat := ADDR_SPACE_BITS - TARGET_PAGE_BITS

  predicate RegionOk(flushAddr: Option<nat>, flushBits: nat) {
    flushBits <= ALL_BITS && (flushAddr.Some? ==> flushAddr.value == Masked(flushAddr.value, flushBits) < ADDR_PAGES)
  }

  // tlb_flush_entry
  predicate Hits(e: Entry, page: nat) {
    || (e.read.Word? && e.read.page == page)
    || (e.write.Word? && e.write.page == page)
    || (e.code.Word? && e.code.page == page)
  }

  /** An entry that tlb_flush_page leaves alone is not from a page around the address. */
  lemma Survivor(e: Entry, o: Origin, i: nat, page: nat, flushAddr: Option<nat>, flushBits: nat)
    requires EntryOk(e, o, i) && LargeOk(flushAddr, flushBits, o) && !Dead(e)
    requires Some(Masked(page, flushBits)) != flushAddr && !(i == Slot(page) && Hits(e, page))
    ensures !o.Contains(page)
  {
    if o.bits == 0 {
      MaskedBounds(page, 0);
      MaskedBounds(o.page, 0);
    } else if o.Contains(page) {
      CoversAll(flushAddr, flushBits, o, page);
    }
  }

  // ---- the dirty log ----

  datatype RamBlock = RamBlock(host: nat, offset: nat, pages: nat)

  datatype Client = VGA | CODE | MIGRATION

  /** The dirty bitmaps of the three clients, as sets of page numbers. */
  datatype Dirty = Dirty(vga: set<nat>, code: set<nat>, migration: set<nat>)
  {
    // cpu_physical_memory_is_clean
    predicate Clean(page: nat) {
      !(page in vga && page in code && page in migration)
    }

    predicate Within(more: Dirty) {
      vga <= more.vga && code <= more.code && migration <= more.migration
    }
  }

  predicate InBlock(b: RamBlock, page: nat) {
    b.offset <= page < b.offset + b.pages
  }

  ghost predicate BlocksOk(blocks: seq<RamBlock>) {
    && (forall i, j, p: nat | 0 <= i < j < |blocks| :: !(InBlock(blocks[i], p) && InBlock(blocks[j], p)))
    && (forall i | 0 <= i < |blocks| :: blocks[i].host + PageAddr(blocks[i].pages) <= ADDR_LIMIT)
  }

  function Host(b: RamBlock, page: nat): nat
    requires InBlock(b, page)
  {
    b.host + PageAddr(page - b.offset)
  }

  predicate IsHost(blocks: seq<RamBlock>, page: nat, host: int) {
    exists i :: 0 <= i < |blocks| && InBlock(blocks[i], page) && host == Host(blocks[i], page)
  }

  class RamList {
    const blocks: seq<RamBlock>
    var dirty: Dirty

    constructor (blocks: seq<RamBlock>, dirty: Dirty)
      ensures this.blocks == blocks && this.dirty == dirty
    {
      this.blocks, this.dirty := blocks, dirty;
    }
  }

  // ---- entries and the log ----

  /** What iotlb says of a page: RAM whose clean pages call notdirty_mem_write, or
      anything else. */
  datatype Iotlb = NotDirty(page: nat) | Other

  // A store through the entry goes to RAM, at once or by way of notdirty_mem_write.
  predicate Stores(e: Entry) {
    e.write.Word? && !e.write.mmio
  }

  /** A store that goes to RAM at once goes to a page that is not clean. */
  ghost predicate WriteOk(e: Entry, io: Iotlb, blocks: seq<RamBlock>, dirty: Dirty) {
    Stores(e) ==>
      && io.NotDirty? && IsHost(blocks, io.page, PageAddr(e.write.page) + e.addend)
      && (!e.write.notdirty ==> !dirty.Clean(io.page))
  }

  // Two modes store to RAM through one virtual page.
  predicate SamePage(e: Entry, e': Entry) {
    Stores(e) && Stores(e') && e.write.page == e'.write.page
  }

  /** What a physical page holds, and where the host keeps it. */
  datatype Backing = Ram(page: nat, host: nat, readonly: bool) | Romd(host: nat) | Device

  // tlb_set_dirty1, in the slot of the page
  function Undone(e: Entry, page: nat, i: nat): Entry {
    if i == Slot(page) && e.write == Word(page, true, false) then e.(write := Word(page, false, false)) else e
  }

  /** tlb_reset_dirty_range: the distance to the start of the range is unsigned. */
  function Reset(e: Entry, start: nat, length: nat): Entry {
    if Stores(e) && !e.write.notdirty && (PageAddr(e.write.page) + e.addend - start) % ADDR_LIMIT < length
    then e.(write := e.write.(notdirty := true))
    else e
  }

  // ---- the table of one CPU ----

  lemma UndoneLog(was: seq<seq<Entry>>, tlb: seq<seq<Entry>>, iotlb: seq<seq<Iotlb>>, modes: nat, blocks: seq<RamBlock>,
                  dirty: Dirty, page: nat)
    requires IsTable(was, modes) && IsTable(tlb, modes) && IsTable(iotlb, modes)
    requires forall m, i | 0 <= m < modes && 0 <= i < CPU_TLB_SIZE :: WriteOk(was[m][i], iotlb[m][i], blocks, dirty)
    requires forall m, i | 0 <= m < modes && 0 <= i < CPU_TLB_SIZE :: tlb[m][i] == Undone(was[m][i], page, i)
    ensures (forall m, i | 0 <= m < modes && 0 <= i < CPU_TLB_SIZE ::
              WriteOk(tlb[m][i], iotlb[m][i], blocks, dirty)) <==>
            forall m | 0 <= m < modes && was[m][Slot(page)].write == Word(page, true, false) ::
              iotlb[m][Slot(page)].NotDirty? && !dirty.Clean(iotlb[m][Slot(page)].page)
  {
    hide IsHost, Slot;
  }

  ghost predicate ModesAgree(tlb: seq<seq<Entry>>, iotlb: seq<seq<Iotlb>>, modes: nat)
    requires IsTable(tlb, modes) && IsTable(iotlb, modes)
  {
    forall m, k, i | 0 <= m < modes && 0 <= k < modes && 0 <= i < CPU_TLB_SIZE && SamePage(tlb[m][i], tlb[k][i]) ::
      iotlb[m][i] == iotlb[k][i]
  }

  // Resetting the dirty state of entries changes how they store, not where.
  lemma ResetsStore(was: seq<seq<Entry>>, tlb: seq<seq<Entry>>, modes: nat, start: nat, length: nat)
    requires IsTable(was, modes) && IsTable(tlb, modes)
    requires forall m, i | 0 <= m < modes && 0 <= i < CPU_TLB_SIZE :: tlb[m][i] == Reset(was[m][i], start, length)
    ensures forall m, i | 0 <= m < modes && 0 <= i < CPU_TLB_SIZE && Stores(tlb[m][i]) ::
              Stores(was[m][i]) && was[m][i].write.page == tlb[m][i].write.page
  {
    hide PageAddr;
  }

  // Entries that store to the same pages of RAM as before agree as before.
  lemma SameStores(was: seq<seq<Entry>>, tlb: seq<seq<Entry>>, iotlb: seq<seq<Iotlb>>, modes: nat)
    requires IsTable(was, modes) && IsTable(tlb, modes) && IsTable(iotlb, modes) && ModesAgree(was, iotlb, modes)
    requires forall m, i | 0 <= m < modes && 0 <= i < CPU_TLB_SIZE && Stores(tlb[m][i]) ::
               Stores(was[m][i]) && was[m][i].write.page == tlb[m][i].write.page
    ensures ModesAgree(tlb, iotlb, modes)
  {
    forall m, k, i | 0 <= m < modes && 0 <= k < modes && 0 <= i < CPU_TLB_SIZE && SamePage(tlb[m][i], tlb[k][i])
      ensures iotlb[m][i] == iotlb[k][i]
    {
      assert SamePage(was[m][i], was[k][i]);
    }
  }

  // A new entry agrees with the rest exactly if it agrees with the entries of its virtual page.
  lemma InstallAgrees(tlb: seq<seq<Entry>>, iotlb: seq<seq<Iotlb>>, modes: nat, m: nat, page: nat, e: Entry, io: Iotlb)
    requires IsTable(tlb, modes) && IsTable(iotlb, modes) && m < modes && (Stores(e) ==> e.write.page == page)
    ensures var i := Slot(page);
            var tlb', iotlb' := tlb[m := tlb[m][i := e]], iotlb[m := iotlb[m][i := io]];
            ModesAgree(tlb, iotlb, modes) ==>
              (ModesAgree(tlb', iotlb', modes) <==>
               (Stores(e) ==>
                forall k | 0 <= k < modes && k != m && Stores(tlb[k][i]) && tlb[k][i].write.page == page ::
                                iotlb[k][i] == io))
  {
    hide Slot;
    var i := Slot(page);
    var tlb', iotlb' := tlb[m := tlb[m][i := e]], iotlb[m := iotlb[m][i := io]];
    if ModesAgree(tlb, iotlb, modes) && ModesAgree(tlb', iotlb', modes) && Stores(e) {
      forall k | 0 <= k < modes && k != m && Stores(tlb[k][i]) && tlb[k][i].write.page == page
        ensures iotlb[k][i] == io
      {
        assert SamePage(tlb'[m][i], tlb'[k][i]);
      }
    }
    forall k, l, j | 0 <= k < modes && 0 <= l < modes && 0 <= j < CPU_TLB_SIZE && SamePage(tlb'[k][j], tlb'[l][j]) &&
                     (k == m && j == i ==> l == m) && (l == m && j == i ==> k == m) && ModesAgree(tlb, iotlb, modes)
      ensures iotlb'[k][j] == iotlb'[l][j]
    {
      assert k == l || SamePage(tlb[k][j], tlb[l][j]);
    }
  }

  /** Every entry that stores to RAM stores where its page was last mapped in its mode. */
  ghost predicate Tracks(tlb: seq<seq<Entry>>, iotlb: seq<seq<Iotlb>>, mapped: seq<map<nat, nat>>, modes: nat)
    requires IsTable(tlb, modes) && IsTable(iotlb, modes) && |mapped| == modes
  {
    forall m, i | 0 <= m < modes && 0 <= i < CPU_TLB_SIZE && Stores(tlb[m][i]) ::
      && Slot(tlb[m][i].write.page) == i && tlb[m][i].write.page in mapped[m]
      && iotlb[m][i] == NotDirty(mapped[m][tlb[m][i].write.page])
  }

  lemma StillTracks(was: seq<seq<Entry>>, tlb: seq<seq<Entry>>, iotlb: seq<seq<Iotlb>>, mapped: seq<map<nat, nat>>,
                    modes: nat)
    requires IsTable(was, modes) && IsTable(tlb, modes) && IsTable(iotlb, modes) && |mapped| == modes
    requires Tracks(was, iotlb, mapped, modes)
    requires forall m, i | 0 <= m < modes && 0 <= i < CPU_TLB_SIZE && Stores(tlb[m][i]) ::
               Stores(was[m][i]) && was[m][i].write.page == tlb[m][i].write.page
    ensures Tracks(tlb, iotlb, mapped, modes)
  {
    hide Slot;
  }

  lemma InstallTracks(tlb: seq<seq<Entry>>, iotlb: seq<seq<Iotlb>>, mapped: seq<map<nat, nat>>, modes: nat, m: nat,
                      page: nat, to: Backing, e: Entry, io: Iotlb)
    requires IsTable(tlb, modes) && IsTable(iotlb, modes) && |mapped| == modes && Tracks(tlb, iotlb, mapped, modes)
    requires m < modes && (Stores(e) ==> to.Ram? && e.write.page == page && io == NotDirty(to.page))
    ensures var i := Slot(page);
            Tracks(tlb[m := tlb[m][i := e]], iotlb[m := iotlb[m][i := io]], MapPage(mapped, m, page, to), modes)
  {
    hide Slot;
  }

  // The RAM pages behind the virtual pages of all modes, after one more is mapped.
  function MapPage(mapped: seq<map<nat, nat>>, m: nat, page: nat, to: Backing): (r: seq<map<nat, nat>>)
    requires m < |mapped|
    ensures |r| == |mapped|
  {
    if to.Ram? then
      var pages: map<nat, nat> := mapped[m][page := to.page];
      mapped[m := pages]
    else
      mapped
  }

  ghost predicate IsTable<T>(t: seq<seq<T>>, modes: nat) {
    |t| == modes && forall m | 0 <= m < modes :: |t[m]| == CPU_TLB_SIZE
  }

  class Cpu {
    const modes: nat
    const ram: RamList
    var tlb: seq<seq<Entry>>
    var iotlb: seq<seq<Iotlb>>
    var flushAddr: Option<nat>
    var flushBits: nat
    ghost var origins: seq<seq<Origin>>
    // The RAM page that each virtual page was last mapped to, mode by mode.
    ghost var mapped: seq<map<nat, nat>>

    ghost predicate Shape()
      reads this`tlb, this`iotlb, this`origins
    {
      IsTable(tlb, modes) && IsTable(iotlb, modes) && IsTable(origins, modes)
    }

    /** Every live entry knows its page, and the flush region covers it if it is large. */
    ghost predicate Valid()
      reads this
    {
      && Shape() && RegionOk(flushAddr, flushBits) && |mapped| == modes && Tracks(tlb, iotlb, mapped, modes)
      && forall m, i | 0 <= m < modes && 0 <= i < CPU_TLB_SIZE && !Dead(tlb[m][i]) ::
           EntryOk(tlb[m][i], origins[m][i], i) && LargeOk(flushAddr, flushBits, origins[m][i])
    }

    constructor (modes: nat, ram: RamList)
      ensures Valid() && this.modes == modes && this.ram == ram
      ensures forall m, i | 0 <= m < modes && 0 <= i < CPU_TLB_SIZE :: tlb[m][i] == DEAD
      ensures forall m | 0 <= m < modes :: mapped[m] == map[]
    {
      this.modes, this.ram := modes, ram;
      tlb := seq(modes, _ => seq(CPU_TLB_SIZE, _ => DEAD));
      iotlb := seq(modes, _ => seq(CPU_TLB_SIZE, _ => Other));
      origins := seq(modes, _ => seq(CPU_TLB_SIZE, _ => Origin(0, 0)));
      mapped := seq(modes, _ => map[]);
      flushAddr, flushBits := None, ALL_BITS;
    }

    /** tlb_flush */
    method Flush()
      requires Shape() && |mapped| == modes
      modifies this`tlb, this`flushAddr, this`flushBits
      ensures Valid() && forall m, i | 0 <= m < modes && 0 <= i < CPU_TLB_SIZE :: tlb[m][i] == DEAD
      ensures (old(Sound()) ==> Sound()) && (old(Agree()) ==> Agree())
    {
      tlb := seq(modes, _ => seq(CPU_TLB_SIZE, _ => DEAD));
      flushAddr, flushBits := None, ALL_BITS;
    }

    /** tlb_flush_page: no entry from a page of any size around `addr` survives, and
        what is flushed is flushed whole. */
    method FlushPage(addr: nat)
      requires Valid()
      modifies this`tlb, this`flushAddr, this`flushBits
      ensures Valid()
      ensures forall m, i | 0 <= m < modes && 0 <= i < CPU_TLB_SIZE && !Dead(tlb[m][i]) ::
                !origins[m][i].Contains(PageOf(addr))
      ensures forall m, i | 0 <= m < modes && 0 <= i < CPU_TLB_SIZE :: tlb[m][i] == DEAD || tlb[m][i] == old(tlb)[m][i]
      ensures (old(Sound()) ==> Sound()) && (old(Agree()) ==> Agree())
    {
      hide Masked, PageOf;
      var page := PageOf(addr);
      if Some(Masked(page, flushBits)) == flushAddr {
        Flush();
        return;
      }
      var i, m := Slot(page), 0;
      while m < modes
        invariant 0 <= m <= modes && Shape()
        modifies this`tlb
        invariant forall k, j | 0 <= k < modes && 0 <= j < CPU_TLB_SIZE ::
                    tlb[k][j] == if k < m && j == i && Hits(old(tlb)[k][j], page) then DEAD else old(tlb)[k][j]
      {
        if Hits(tlb[m][i], page) {
          tlb := tlb[m := tlb[m][i := DEAD]];
        }
        m := m + 1;
      }
      forall k, j | 0 <= k < modes && 0 <= j < CPU_TLB_SIZE && !Dead(tlb[k][j])
        ensures !origins[k][j].Contains(page)
      {
        Survivor(old(tlb)[k][j], origins[k][j], j, page, flushAddr, flushBits);
      }
      StillTracks(old(tlb), tlb, iotlb, mapped, modes);
    }

    /** tlb_add_large_page: the region grows until it covers the new page too. */
    method AddLargePage(page: nat, bits: nat)
      requires page < ADDR_PAGES && 0 < bits <= ALL_BITS && RegionOk(flushAddr, flushBits)
      modifies this`flushAddr, this`flushBits
      ensures RegionOk(flushAddr, flushBits) && Covers(flushAddr, flushBits, Origin(page, bits))
      ensures old(flushAddr.Some?) ==>
                flushAddr == Some(Masked(old(flushAddr).value, flushBits)) && old(flushBits) <= flushBits
    {
      hide Masked;
      var mask := bits;
      if flushAddr.None? {
        flushAddr, flushBits := Some(Masked(page, mask)), mask;
        MaskedAgain(page, mask, mask);
        MaskedBounds(page, mask);
        return;
      }
      var addr := flushAddr.value;
      mask := if mask < flushBits then flushBits else mask;
      while Masked(addr, mask) != Masked(page, mask)
        invariant bits <= mask <= ALL_BITS && old(flushBits) <= mask
        decreases ALL_BITS - mask
      {
        MaskedBounds(addr, mask);
        MaskedBounds(page, mask);
        mask := mask + 1;
      }
      MaskedAgain(addr, mask, mask);
      MaskedBounds(addr, mask);
      flushAddr, flushBits := Some(Masked(addr, mask)), mask;
    }

    // ---- pages installed ----

    // A region that has grown covers the pages it covered before.
    lemma Grown(wasAddr: Option<nat>, wasBits: nat)
      requires Shape() && forall m, i | 0 <= m < modes && 0 <= i < CPU_TLB_SIZE && !Dead(tlb[m][i]) ::
                 LargeOk(wasAddr, wasBits, origins[m][i])
      requires wasAddr.Some? ==> flushAddr == Some(Masked(wasAddr.value, flushBits)) && wasBits <= flushBits
      ensures forall m, i | 0 <= m < modes && 0 <= i < CPU_TLB_SIZE && !Dead(tlb[m][i]) ::
                LargeOk(flushAddr, flushBits, origins[m][i])
    {
      hide Masked;
      forall m, i | 0 <= m < modes && 0 <= i < CPU_TLB_SIZE && !Dead(tlb[m][i])
        ensures LargeOk(flushAddr, flushBits, origins[m][i])
      {
        if origins[m][i].bits != 0 {
          MaskedAgain(origins[m][i].page, wasBits, flushBits);
        }
      }
    }

    // The new entry replaces the one in its slot.
    method Install(page: nat, m: nat, bits: nat, e: Entry, io: Iotlb, ghost now: seq<map<nat, nat>>)
      requires Sound() && m < modes && |now| == modes
      requires var i := Slot(page); Tracks(tlb[m := tlb[m][i := e]], iotlb[m := iotlb[m][i := io]], now, modes)
      requires EntryOk(e, Origin(page, bits), Slot(page)) && LargeOk(flushAddr, flushBits, Origin(page, bits))
      requires WriteOk(e, io, ram.blocks, ram.dirty)
      modifies this`tlb, this`iotlb, this`origins, this`mapped
      ensures Sound() && mapped == now
      ensures tlb == old(tlb)[m := old(tlb)[m][Slot(page) := e]]
      ensures iotlb == old(iotlb)[m := old(iotlb)[m][Slot(page) := io]]
      ensures origins == old(origins)[m := old(origins)[m][Slot(page) := Origin(page, bits)]]
    {
      hide WriteOk, EntryOk, LargeOk, RegionOk, Slot, Tracks;
      var i := Slot(page);
      mapped := now;
      iotlb := iotlb[m := iotlb[m][i := io]];
      tlb := tlb[m := tlb[m][i := e]];
      origins := origins[m := origins[m][i := Origin(page, bits)]];
    }

    // Every store that goes to RAM at once is in the dirty log already.
    ghost predicate LogOk()
      requires Shape()
      reads this`tlb, this`iotlb, this`origins, ram
    {
      forall m, i | 0 <= m < modes && 0 <= i < CPU_TLB_SIZE :: WriteOk(tlb[m][i], iotlb[m][i], ram.blocks, ram.dirty)
    }

    // All modes that store to a virtual page store to the same page of RAM.
    ghost predicate Agree()
      reads this`tlb, this`iotlb, this`origins
    {
      Shape() && ModesAgree(tlb, iotlb, modes)
    }

    ghost predicate Sound()
      reads this, ram
    {
      Valid() && LogOk()
    }

    // The other modes store to RAM page r, if they store to RAM through `page` at all.
    predicate OthersAgree(m: nat, page: nat, r: nat)
      requires IsTable(tlb, modes) && IsTable(iotlb, modes)
      reads this`tlb, this`iotlb
    {
      forall k | 0 <= k < modes && k != m && Stores(tlb[k][Slot(page)]) && tlb[k][Slot(page)].write.page == page ::
        iotlb[k][Slot(page)] == NotDirty(r)
    }

    /** tlb_set_page, for a page of 2^bits small pages that a watchpoint may trap. The modes
        still agree if and only if no other mode stores through the page to other RAM. */
    method SetPage(page: nat, to: Backing, read: bool, write: bool, exec: bool, m: nat, bits: nat, watched: bool)
      requires Sound() && m < modes && page < ADDR_PAGES && bits <= ALL_BITS
      requires to.Ram? ==> IsHost(ram.blocks, to.page, to.host)
      modifies this
      ensures Sound() && mapped == MapPage(old(mapped), m, page, to)
      ensures old(Agree()) ==>
                (Agree() <==> (write && to.Ram? && !to.readonly && !watched ==> old(OthersAgree(m, page, to.page))))
      ensures var i := Slot(page);
              && tlb == old(tlb)[m := old(tlb)[m][i := tlb[m][i]]]
              && iotlb == old(iotlb)[m := old(iotlb)[m][i := iotlb[m][i]]]
              && origins == old(origins)[m := old(origins)[m][i := Origin(page, bits)]]
              && (to.Ram? && !to.readonly && !watched ==> iotlb[m][i] == NotDirty(to.page))
              && tlb[m][i].read == (if read then Word(page, false, to.Device? || watched) else Absent)
              && tlb[m][i].code == (if exec then Word(page, false, to.Device?) else Absent)
              && tlb[m][i].write == if !write then Absent
                                    else if to.Ram? && !to.readonly then Word(page, ram.dirty.Clean(to.page), watched)
                                    else Word(page, false, true)
    {
      if bits != 0 {
        AddLargePage(page, bits);
        Grown(old(flushAddr), old(flushBits));
      }
      var e, io := MakeEntry(page, to, read, write, exec, watched);
      hide WriteOk, EntryOk, LargeOk, RegionOk, Slot, ModesAgree, Covers, Tracks;
      InstallAgrees(tlb, iotlb, modes, m, page, e, io);
      InstallTracks(tlb, iotlb, mapped, modes, m, page, to, e, io);
      Install(page, m, bits, e, io, MapPage(mapped, m, page, to));
    }

    // The words of the new entry, as protection, backing and dirty state call for.
    method MakeEntry(page: nat, to: Backing, read: bool, write: bool, exec: bool, watched: bool)
      returns (e: Entry, io: Iotlb)
      requires to.Ram? ==> IsHost(ram.blocks, to.page, to.host)
      ensures WriteOk(e, io, ram.blocks, ram.dirty)
      ensures forall bits: nat :: EntryOk(e, Origin(page, bits), Slot(page))
      ensures Stores(e) <==> write && to.Ram? && !to.readonly && !watched
      ensures Stores(e) ==> e.write.page == page
      ensures to.Ram? && !to.readonly && !watched ==> io == NotDirty(to.page)
      ensures e.read == (if read then Word(page, false, to.Device? || watched) else Absent)
      ensures e.code == (if exec then Word(page, false, to.Device?) else Absent)
      ensures e.write == if !write then Absent
                         else if to.Ram? && !to.readonly then Word(page, ram.dirty.Clean(to.page), watched)
                         else Word(page, false, true)
    {
      hide Slot;
      var mmio := to.Device?;
      var host := if to.Device? then 0 else to.host;
      var codeWord := if exec then Word(page, false, mmio) else Absent;
      io := if to.Ram? && !to.readonly then NotDirty(to.page) else Other;
      if watched {
        io, mmio := Other, true;
      }
      var readWord := if read then Word(page, false, mmio) else Absent;
      var writeWord := Absent;
      if write {
        if (to.Ram? && to.readonly) || to.Romd? {
          writeWord := Word(page, false, true);
        } else if to.Ram? && ram.dirty.Clean(to.page) {
          writeWord := Word(page, true, mmio);
        } else {
          writeWord := Word(page, false, mmio);
        }
      }
      e := Entry(readWord, writeWord, codeWord, host - PageAddr(page));
    }

    // ---- the dirty flag of entries ----

    /** tlb_set_dirty: the entries of all modes for the page stop calling back. The log
        stays sound if and only if none of them stores to a clean page. */
    method SetDirty(page: nat)
      requires Sound()
      modifies this`tlb
      ensures Valid() && (old(Agree()) ==> Agree())
      ensures LogOk() <==> forall m | 0 <= m < modes && old(tlb)[m][Slot(page)].write == Word(page, true, false) ::
                             !ram.dirty.Clean(iotlb[m][Slot(page)].page)
      ensures forall m, i | 0 <= m < modes && 0 <= i < CPU_TLB_SIZE :: tlb[m][i] == Undone(old(tlb)[m][i], page, i)
    {
      hide Slot, Tracks, IsHost, LargeOk, RegionOk;
      var i, m := Slot(page), 0;
      while m < modes
        invariant 0 <= m <= modes && Shape()
        modifies this`tlb
        invariant forall k, j | 0 <= k < modes && 0 <= j < CPU_TLB_SIZE ::
                    tlb[k][j] == if k < m then Undone(old(tlb)[k][j], page, j) else old(tlb)[k][j]
      {
        if tlb[m][i].write == Word(page, true, false) {
          tlb := tlb[m := tlb[m][i := tlb[m][i].(write := Word(page, false, false))]];
        }
        m := m + 1;
      }
      UndoneLog(old(tlb), tlb, iotlb, modes, ram.blocks, ram.dirty, page);
      StillTracks(old(tlb), tlb, iotlb, mapped, modes);
      if old(Agree()) {
        SameStores(old(tlb), tlb, iotlb, modes);
      }
    }

    /** cpu_tlb_reset_dirty_all, for this CPU: stores to a range of host memory call back
        from now on. */
    method ResetRange(start: nat, length: nat)
      requires Shape()
      modifies this`tlb
      ensures Shape() && (old(Agree()) ==> Agree())
      ensures |mapped| == modes && old(Tracks(tlb, iotlb, mapped, modes)) ==> Tracks(tlb, iotlb, mapped, modes)
      ensures forall m, i | 0 <= m < modes && 0 <= i < CPU_TLB_SIZE :: tlb[m][i] == Reset(old(tlb)[m][i], start, length)
    {
      hide Reset;
      var m := 0;
      while m < modes
        invariant 0 <= m <= modes && Shape()
        invariant forall k, j | 0 <= k < modes && 0 <= j < CPU_TLB_SIZE ::
                    tlb[k][j] == if k < m then Reset(old(tlb)[k][j], start, length) else old(tlb)[k][j]
      {
        var i := 0;
        while i < CPU_TLB_SIZE
          invariant 0 <= i <= CPU_TLB_SIZE && Shape()
          invariant forall k, j | 0 <= k < modes && 0 <= j < CPU_TLB_SIZE ::
                      tlb[k][j] == if k < m || (k == m && j < i) then Reset(old(tlb)[k][j], start, length)
                                   else old(tlb)[k][j]
        {
          tlb := tlb[m := tlb[m][i := Reset(tlb[m][i], start, length)]];
          i := i + 1;
        }
        m := m + 1;
      }
      ResetsStore(old(tlb), tlb, modes, start, length);
      if |mapped| == modes && old(Tracks(tlb, iotlb, mapped, modes)) {
        StillTracks(old(tlb), tlb, iotlb, mapped, modes);
      }
      if old(Agree()) {
        SameStores(old(tlb), tlb, iotlb, modes);
      }
    }
  }
}
