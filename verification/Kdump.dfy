/** The compressed form of a guest memory dump (dump.c): two bitmaps of the dumped pages,
    a descriptor for each page, and the page data, all written through buffers. */
module Kdump {
  import opened Arithmetic
  import opened Geometry
  import opened Options

  type Data = seq<bv8>

  // ---- the file ----

  // The bytes written so far, by file offset.
  type Content = map<nat, bv8>

  function Put(c: Content, at: nat, data: Data): Content {
    c + map a: nat | at <= a < at + |data| :: ByteAt(data, at, a)
  }

  function ByteAt(data: Data, at: nat, a: nat): bv8
    requires at <= a < at + |data|
  {
    data[a - at]
  }

  ghost predicate Holds(c: Content, at: nat, data: Data) {
    forall a: nat | at <= a < at + |data| :: a in c && c[a] == data[a - at]
  }

  // Nothing outside [lo, hi) has changed.
  ghost predicate OnlyIn(c: Content, c': Content, lo: nat, hi: nat) {
    forall a: nat | !(lo <= a < hi) :: (a in c' <==> a in c) && (a in c ==> c'[a] == c[a])
  }

  // Nothing before `at` has changed.
  ghost predicate KeptBelow(c: Content, c': Content, at: nat) {
    forall a: nat | a < at :: (a in c' <==> a in c) && (a in c ==> c'[a] == c[a])
  }

  lemma OnlyAbove(c: Content, c': Content, lo: nat, hi: nat, at: nat)
    requires OnlyIn(c, c', lo, hi) && at <= lo
    ensures KeptBelow(c, c', at)
  {
  }

  class File {
    var content: Content

    constructor ()
      ensures content == map[]
    {
      content := map[];
    }

    /** write_buffer, which may fail. */
    method WriteBuffer(at: nat, data: Data) returns (ok: bool)
      modifies this
      ensures content == if ok then Put(old(content), at, data) else old(content)
    {
      ok := *;
      if ok {
        content := Put(content, at, data);
      }
    }
  }

  // ---- the data cache ----

  const BUFSIZE_DATA_CACHE: nat := PAGE_SIZE * 4

  /** DataCache. The specification keeps all bytes given to the cache so far in `stream`;
      those before `offset` are in the file, the rest in the buffer. */
  class DataCache {
    const file: File
    ghost const base: nat
    var buf: Data
    var offset: nat
    ghost var stream: Data

    ghost predicate Valid()
      reads this, file
    {
      && |buf| <= BUFSIZE_DATA_CACHE && base <= offset && offset + |buf| == base + |stream|
      && buf == stream[offset - base..] && Holds(file.content, base, stream[..offset - base])
    }

    /** prepare_data_cache */
    constructor (file: File, offset: nat)
      ensures Valid() && this.file == file && base == offset && stream == []
    {
      this.file, base, buf, this.offset, stream := file, offset, [], offset, [];
    }

    method Flush() returns (ok: bool)
      requires Valid()
      modifies this`buf, this`offset, file
      ensures OnlyIn(old(file.content), file.content, base, base + |stream|)
      ensures ok ==> Valid() && buf == [] && offset == base + |stream| && Holds(file.content, base, stream)
    {
      hide Holds, OnlyIn, Put, Pow2;
      ok := file.WriteBuffer(offset, buf);
      Flushed(old(file.content), base, stream, offset - base);
      SameContent(file.content, base, base + |stream|);
      if ok {
        offset := offset + |buf|;
        buf := [];
      }
    }

    method Append(data: Data)
      requires Valid() && |buf| + |data| <= BUFSIZE_DATA_CACHE
      modifies this`buf, this`stream
      ensures Valid() && stream == old(stream) + data
    {
      hide Pow2;
      ghost var n := offset - base;
      stream := stream + data;
      buf := buf + data;
      assert stream[..n] == old(stream)[..n] && stream[n..] == old(stream)[n..] + data;
    }

    /** write_cache: the data is appended, and with `sync` all of it is in the file. */
    method Write(data: Data, sync: bool) returns (ok: bool)
      requires Valid() && |data| <= BUFSIZE_DATA_CACHE
      modifies this, file
      ensures OnlyIn(old(file.content), file.content, base, base + |old(stream)|)
      ensures ok ==> Valid() && stream == if sync then old(stream) else old(stream) + data
      ensures ok && sync ==> Holds(file.content, base, stream)
    {
      hide Holds, Pow2;
      ok := true;
      if (!sync && |buf| + |data| > BUFSIZE_DATA_CACHE) || (sync && |buf| > 0) {
        ok := Flush();
        if !ok {
          return;
        }
      }
      if !sync {
        Append(data);
      } else {
        assert stream[..|stream|] == stream;
      }
    }
  }

  lemma SameContent(c: Content, lo: nat, hi: nat)
    ensures OnlyIn(c, c, lo, hi)
  {
  }

  // What lies outside the changed range is still there.
  lemma HoldsKept(c: Content, c': Content, lo: nat, hi: nat, at: nat, data: Data)
    requires OnlyIn(c, c', lo, hi) && Holds(c, at, data) && (hi <= at || at + |data| <= lo)
    ensures Holds(c', at, data)
  {
  }

  lemma Flushed(c: Content, base: nat, stream: Data, n: nat)
    requires n <= |stream| && Holds(c, base, stream[..n])
    ensures Holds(Put(c, base + n, stream[n..]), base, stream) &&
            OnlyIn(c, Put(c, base + n, stream[n..]), base, base + |stream|)
    ensures stream[..|stream|] == stream
  {
    var c' := Put(c, base + n, stream[n..]);
    forall a: nat | base <= a < base + |stream|
      ensures a in c' && c'[a] == stream[a - base]
    {
      if a < base + n {
        assert c[a] == stream[..n][a - base];
      }
    }
  }

  // ---- bitmaps ----

  const CHAR_BIT: nat := 8
  const PFN_BUFBITMAP: nat := CHAR_BIT * PAGE_SIZE

  function Mask(i: nat): bv8
    requires i < CHAR_BIT
  {
    match i
    case 0 => 0x01
    case 1 => 0x02
    case 2 => 0x04
    case 3 => 0x08
    case 4 => 0x10
    case 5 => 0x20
    case 6 => 0x40
    case _ => 0x80
  }

  predicate Lit(byte: bv8, i: nat)
    requires i < CHAR_BIT
  {
    byte & Mask(i) != 0
  }

  function Switch(byte: bv8, i: nat, value: bool): bv8
    requires i < CHAR_BIT
  {
    if value then byte | Mask(i) else byte & !Mask(i)
  }

  lemma SwitchOne(byte: bv8, i: nat, value: bool, j: nat)
    requires i < CHAR_BIT && j < CHAR_BIT
    ensures Lit(Switch(byte, i, value), j) <==> if i == j then value else Lit(byte, j)
  {
  }

  // The part of the bitmap that one buffer holds, by number.
  function Region(pfn: nat): nat {
    DivBounds(pfn, PFN_BUFBITMAP); pfn / PFN_BUFBITMAP
  }

  function InRegion(pfn: nat): (q: nat)
    ensures q < PFN_BUFBITMAP
  {
    pfn % PFN_BUFBITMAP
  }

  function ByteOf(q: nat): nat {
    q / CHAR_BIT
  }

  function BitOf(q: nat): (i: nat)
    ensures i < CHAR_BIT
  {
    q % CHAR_BIT
  }

  // The byte of a page in the bitmap is the byte in its region, regions being pages of the file.
  lemma RegionBytes(pfn: nat)
    ensures ByteOf(pfn) == PageAddr(Region(pfn)) + ByteOf(InRegion(pfn)) && BitOf(pfn) == BitOf(InRegion(pfn))
    ensures ByteOf(InRegion(pfn)) < PAGE_SIZE
  {
    var r, q := Region(pfn), InRegion(pfn);
    DivBounds(pfn, PFN_BUFBITMAP);
    assert r * (CHAR_BIT * PAGE_SIZE) == CHAR_BIT * (r * PAGE_SIZE);
    hide Pow2;
  }

  lemma RegionUnique(pfn: nat, r: nat, q: nat)
    requires Region(pfn) == r && InRegion(pfn) == q
    ensures pfn == r * PFN_BUFBITMAP + q
  {
    DivBounds(pfn, PFN_BUFBITMAP);
  }

  predicate BufBit(buf: Data, q: nat)
    requires |buf| == PAGE_SIZE && ByteOf(q) < PAGE_SIZE
  {
    Lit(buf[ByteOf(q)], BitOf(q))
  }

  predicate FileBit(c: Content, at: nat, pfn: nat) {
    at + ByteOf(pfn) in c && Lit(c[at + ByteOf(pfn)], BitOf(pfn))
  }

  // The buffer holds the bits of region r.
  ghost predicate BufIs(buf: Data, r: nat, pfns: set<nat>) {
    && |buf| == PAGE_SIZE
    && forall p: nat | Region(p) == r :: ByteOf(InRegion(p)) < PAGE_SIZE && (BufBit(buf, InRegion(p)) <==> p in pfns)
  }

  // The file holds the bits of the regions before r.
  ghost predicate AreaIs(c: Content, at: nat, r: nat, pfns: set<nat>) {
    forall p: nat | Region(p) < r :: FileBit(c, at, p) <==> p in pfns
  }

  lemma AreaGrows(c: Content, at: nat, r: nat, pfns: set<nat>, buf: Data)
    requires AreaIs(c, at, r, pfns) && BufIs(buf, r, pfns)
    ensures AreaIs(Put(c, at + PageAddr(r), buf), at, r + 1, pfns)
  {
    hide Pow2, PageAddr, Region, InRegion, Lit, ByteOf, BitOf;
    var c' := Put(c, at + PageAddr(r), buf);
    forall p: nat | Region(p) < r + 1
      ensures FileBit(c', at, p) <==> p in pfns
    {
      RegionBytes(p);
      if Region(p) == r {
        assert ByteAt(buf, at + PageAddr(r), at + ByteOf(p)) == buf[ByteOf(InRegion(p))];
      } else {
        PageAddrMonotone(Region(p), r);
        assert FileBit(c', at, p) == FileBit(c, at, p);
      }
    }
  }

  // Writes elsewhere leave the area alone.
  lemma AreaKept(c: Content, at: nat, r: nat, pfns: set<nat>, to: nat, buf: Data)
    requires AreaIs(c, at, r, pfns) && (to + |buf| <= at || at + PageAddr(r) <= to)
    ensures AreaIs(Put(c, to, buf), at, r, pfns)
  {
    hide Pow2, PageAddr, Region, InRegion, Lit, ByteOf, BitOf;
    var c' := Put(c, to, buf);
    forall p: nat | Region(p) < r
      ensures FileBit(c', at, p) <==> p in pfns
    {
      RegionBytes(p);
      PageAddrMonotone(Region(p), r);
      assert FileBit(c', at, p) == FileBit(c, at, p);
    }
  }

  lemma NoBitsAhead(r: nat, pfns: set<nat>)
    requires forall p | p in pfns :: Region(p) < r
    ensures BufIs(Zeros(), r, pfns)
  {
    hide Pow2, Region, InRegion, Mask, ByteOf, BitOf;
    forall p: nat | Region(p) == r
      ensures ByteOf(InRegion(p)) < PAGE_SIZE && !BufBit(Zeros(), InRegion(p))
    {
      RegionBytes(p);
    }
  }

  function Zeros(): (r: Data)
    ensures |r| == PAGE_SIZE && forall i | 0 <= i < PAGE_SIZE :: r[i] == 0
  {
    seq(PAGE_SIZE, _ => 0)
  }

  // buf with one bit set or cleared
  function SetBit(buf: Data, q: nat, value: bool): (r: Data)
    requires |buf| == PAGE_SIZE && ByteOf(q) < PAGE_SIZE
    ensures |r| == PAGE_SIZE
  {
    buf[ByteOf(q) := Switch(buf[ByteOf(q)], BitOf(q), value)]
  }

  lemma SetBitOk(buf: Data, pfn: nat, value: bool, pfns: set<nat>)
    requires BufIs(buf, Region(pfn), pfns) && ByteOf(InRegion(pfn)) < PAGE_SIZE
    ensures BufIs(SetBit(buf, InRegion(pfn), value), Region(pfn), if value then pfns + {pfn} else pfns - {pfn})
  {
    hide Pow2, Region, InRegion, Lit, Switch, ByteOf, BitOf;
    var after := SetBit(buf, InRegion(pfn), value);
    forall p: nat | Region(p) == Region(pfn)
      ensures ByteOf(InRegion(p)) < PAGE_SIZE
      ensures BufBit(after, InRegion(p)) <==> if p == pfn then value else p in pfns
    {
      RegionBytes(p);
      SwitchOne(buf[ByteOf(InRegion(pfn))], BitOf(InRegion(pfn)), value, BitOf(InRegion(p)));
      if p != pfn {
        OtherBit(p, pfn);
      }
    }
  }

  // Two pages of a region have different bits.
  lemma OtherBit(p: nat, pfn: nat)
    requires Region(p) == Region(pfn) && p != pfn
    ensures ByteOf(InRegion(p)) != ByteOf(InRegion(pfn)) || BitOf(InRegion(p)) != BitOf(InRegion(pfn))
  {
    RegionUnique(p, Region(p), InRegion(p));
    RegionUnique(pfn, Region(pfn), InRegion(pfn));
    hide Pow2, Region, InRegion;
  }

  // ---- pages ----

  /** A block of guest memory, in pages; the code asserts that its ends are aligned. */
  datatype PageBlock = PageBlock(first: nat, count: nat, host: nat)

  datatype GuestPage = GuestPage(pfn: nat, at: nat)

  ghost predicate BlocksOk(blocks: seq<PageBlock>) {
    && blocks != [] && (forall i | 0 <= i < |blocks| :: blocks[i].count > 0)
    && (forall i, j | 0 <= i < j < |blocks| :: blocks[i].first + blocks[i].count <= blocks[j].first)
  }

  function BlockPages(b: PageBlock): (r: seq<GuestPage>)
    ensures |r| == b.count && forall i | 0 <= i < b.count :: r[i] == GuestPage(b.first + i, b.host + PageAddr(i))
  {
    seq(b.count, i requires 0 <= i => GuestPage(b.first + i, b.host + PageAddr(i)))
  }

  /** All pages of guest memory, in ascending order. */
  function Pages(blocks: seq<PageBlock>): seq<GuestPage> {
    if blocks == [] then [] else Pages(blocks[..|blocks| - 1]) + BlockPages(blocks[|blocks| - 1])
  }

  lemma PagesNext(blocks: seq<PageBlock>, i: nat)
    requires i < |blocks|
    ensures Pages(blocks[..i + 1]) == Pages(blocks[..i]) + BlockPages(blocks[i])
  {
    assert blocks[..i + 1][..i] == blocks[..i];
  }

  lemma {:induction false} PagesPrefix(blocks: seq<PageBlock>, i: nat)
    requires i <= |blocks|
    ensures |Pages(blocks[..i])| <= |Pages(blocks)| && Pages(blocks)[..|Pages(blocks[..i])|] == Pages(blocks[..i])
    decreases |blocks| - i
  {
    hide Pages, BlockPages;
    if i < |blocks| {
      PagesPrefix(blocks, i + 1);
      PagesNext(blocks, i);
    } else {
      assert blocks[..i] == blocks;
    }
  }

  // The iteration is at page k, which is in the given block.
  ghost predicate IsAt(blocks: seq<PageBlock>, k: nat, block: nat, pfn: nat, at: nat) {
    && block < |blocks| && blocks[block].first <= pfn < blocks[block].first + blocks[block].count
    && k == |Pages(blocks[..block])| + (pfn - blocks[block].first)
    && at == blocks[block].host + PageAddr(pfn - blocks[block].first)
  }

  lemma AtPage(blocks: seq<PageBlock>, k: nat, block: nat, pfn: nat, at: nat)
    requires IsAt(blocks, k, block, pfn, at)
    ensures k < |Pages(blocks)| && Pages(blocks)[k] == GuestPage(pfn, at)
  {
    var before := Pages(blocks[..block]);
    PagesNext(blocks, block);
    PagesPrefix(blocks, block + 1);
    assert (before + BlockPages(blocks[block]))[k] == GuestPage(pfn, at);
    assert Pages(blocks)[..|before| + blocks[block].count][k] == Pages(blocks)[k];
  }

  // The last page of the last block is the last page of all.
  lemma LastPage(blocks: seq<PageBlock>)
    requires blocks != []
    ensures |Pages(blocks)| == |Pages(blocks[..|blocks| - 1])| + blocks[|blocks| - 1].count
  {
  }

  /** get_next_page */
  method GetNextPage(blocks: seq<PageBlock>, block: Option<nat>, pfn: nat, ghost k: int, ghost at: nat)
    returns (more: bool, block': nat, pfn': nat, at': nat)
    requires BlocksOk(blocks)
    requires if block.None? then k == -1 else k >= 0 && IsAt(blocks, k, block.value, pfn, at)
    ensures more <==> k + 1 < |Pages(blocks)|
    ensures more ==> IsAt(blocks, k + 1, block', pfn', at')
  {
    hide PageAddr, Pages, BlockPages;
    assert PageAddr(0) == 0 by { PageAddrSum(0, 0); }
    assert Pages(blocks[..0]) == [] by { NoPages(blocks); }
    if block.None? {
      more, block', pfn', at' := true, 0, blocks[0].first, blocks[0].host;
      AtPage(blocks, 0, 0, pfn', at');
      return;
    }
    block', pfn' := block.value, pfn + 1;
    var b := blocks[block'];
    if b.first <= pfn' && pfn' + 1 <= b.first + b.count {
      more, at' := true, b.host + PageAddr(pfn' - b.first);
      AtPage(blocks, k + 1, block', pfn', at');
    } else {
      PagesNext(blocks, block');
      block' := block' + 1;
      if block' == |blocks| {
        LastPage(blocks);
        more, at' := false, 0;
        return;
      }
      more, pfn', at' := true, blocks[block'].first, blocks[block'].host;
      AtPage(blocks, k + 1, block', pfn', at');
    }
  }

  lemma NoPages(blocks: seq<PageBlock>)
    ensures Pages(blocks[..0]) == []
  {
  }

  /** Pages come in ascending order. */
  lemma {:induction false} PagesAscend(blocks: seq<PageBlock>, n: nat)
    requires BlocksOk(blocks) && n <= |blocks|
    ensures forall i, j | 0 <= i < j < |Pages(blocks[..n])| :: Pages(blocks[..n])[i].pfn < Pages(blocks[..n])[j].pfn
    ensures n > 0 ==> forall i | 0 <= i < |Pages(blocks[..n])| ::
              Pages(blocks[..n])[i].pfn < blocks[n - 1].first + blocks[n - 1].count
  {
    hide Pages, BlockPages, PageAddr;
    NoPages(blocks);
    if n > 0 {
      PagesAscend(blocks, n - 1);
      PagesNext(blocks, n - 1);
      var before, last := Pages(blocks[..n - 1]), blocks[n - 1];
      assert forall i | 0 <= i < |before| :: before[i].pfn < last.first;
      assert forall i | 0 <= i < |before| :: Pages(blocks[..n])[i] == before[i];
      assert forall j | |before| <= j < |Pages(blocks[..n])| ::
               Pages(blocks[..n])[j].pfn == last.first + (j - |before|);
    }
  }

  // ---- the dump ----

  type Host = nat -> bv8

  function PageData(host: Host, page: GuestPage): (r: Data)
    ensures |r| == PAGE_SIZE
  {
    seq(PAGE_SIZE, i requires 0 <= i => host(page.at + i))
  }

  function PfnSet(pages: seq<GuestPage>): (r: set<nat>)
    ensures forall p :: p in r <==> exists i :: 0 <= i < |pages| && pages[i].pfn == p
  {
    set i | 0 <= i < |pages| :: pages[i].pfn
  }

  /** PageDescriptor */
  datatype PageDescriptor = PageDescriptor(offset: nat, size: nat, flags: nat, pageFlags: nat)
  {
    // The fields have 64, 32, 32 and 64 bits.
    predicate Fits() {
      offset < ADDR_LIMIT && size < 0x1_0000_0000 && flags < 0x1_0000_0000 && pageFlags < ADDR_LIMIT
    }
  }

  const DESC_SIZE: nat := 24

  /** What depends on the dump's byte order and compression library: descriptors as bytes,
      and a compression that may fail. Both can be undone. */
  datatype Codec = Codec(
    pack: PageDescriptor -> Data, unpack: Data -> PageDescriptor,
    flag: nat, compress: Data -> Option<Data>, inflate: Data -> Data)
  {
    ghost predicate Ok() {
      && 0 < flag < 0x1_0000_0000
      && (forall pd: PageDescriptor :: |pack(pd)| == DESC_SIZE && (pd.Fits() ==> unpack(pack(pd)) == pd))
      && (forall d: Data | compress(d).Some? :: inflate(compress(d).value) == d)
    }

    // How a reader of the dump gets a page back.
    function Restore(flags: nat, stored: Data): Data {
      if flags == 0 then stored else inflate(stored)
    }
  }

  class KdumpState {
    const blocks: seq<PageBlock>
    const host: Host
    const file: File
    const offsetBitmap: nat
    const regions: nat
    const offsetPage: nat
    const codec: Codec
    var numDumpable: nat

    /** The sizes that dump_init and the headers fix: the pages of file space that each
        bitmap takes, and where the descriptors begin. */
    constructor (blocks: seq<PageBlock>, host: Host, file: File, offsetBitmap: nat, codec: Codec)
      requires BlocksOk(blocks) && codec.Ok()
      ensures this.blocks == blocks && this.host == host && this.file == file && this.offsetBitmap == offsetBitmap &&
              this.codec == codec && Layout()
    {
      var last := blocks[|blocks| - 1];
      var regions := Regions(last.first + last.count);
      this.blocks, this.host, this.file, this.offsetBitmap, this.regions := blocks, host, file, offsetBitmap, regions;
      offsetPage := offsetBitmap + PageAddr(regions) + PageAddr(regions);
      this.codec, numDumpable := codec, 0;
      new;
      PagesAscend(blocks, |blocks|);
      assert blocks[..|blocks|] == blocks;
      forall i | 0 <= i < |Pages(blocks)|
        ensures Region(Pages(blocks)[i].pfn) < regions
      {
        RegionsSuffice(Pages(blocks)[i].pfn, last.first + last.count);
      }
    }

    ghost predicate Layout() {
      && BlocksOk(blocks) && codec.Ok() && offsetPage == offsetBitmap + PageAddr(regions) + PageAddr(regions)
      && forall i | 0 <= i < |Pages(blocks)| :: Region(Pages(blocks)[i].pfn) < regions
    }

    // Both bitmaps hold the bits of the regions before r.
    ghost predicate BitmapsAre(r: nat, pfns: set<nat>)
      reads file
    {
      && AreaIs(file.content, offsetBitmap, r, pfns)
      && AreaIs(file.content, offsetBitmap + PageAddr(regions), r, pfns)
    }

    method FlushRegion(r: nat, buf: Data, ghost pfns: set<nat>) returns (ok: bool)
      requires r < regions && BitmapsAre(r, pfns) && BufIs(buf, r, pfns)
      modifies file
      ensures ok ==> BitmapsAre(r + 1, pfns)
    {
      hide AreaIs, BufIs, PageAddr, Pow2, Put;
      assert |buf| == PAGE_SIZE by { BufSize(buf, r, pfns); }
      PageAddrMonotone(r, regions);
      AddrSplit(0, r);
      ok := file.WriteBuffer(offsetBitmap + PageAddr(r), buf);
      if !ok {
        return;
      }
      AreaGrows(old(file.content), offsetBitmap, r, pfns, buf);
      AreaKept(old(file.content), offsetBitmap + PageAddr(regions), r, pfns, offsetBitmap + PageAddr(r), buf);
      ghost var between := file.content;
      ok := file.WriteBuffer(offsetBitmap + PageAddr(regions) + PageAddr(r), buf);
      if !ok {
        return;
      }
      AreaGrows(between, offsetBitmap + PageAddr(regions), r, pfns, buf);
      AreaKept(between, offsetBitmap, r + 1, pfns, offsetBitmap + PageAddr(regions) + PageAddr(r), buf);
    }

    /** set_dump_bitmap: regions before that of `pfn` go to the file, and its bit to the buffer. */
    method SetDumpBitmap(lastPfn: nat, pfn: nat, value: bool, buf0: Data, ghost pfns: set<nat>)
      returns (buf: Data, ok: bool)
      requires lastPfn <= pfn && Region(pfn) <= regions && BitmapsAre(Region(lastPfn), pfns) &&
               BufIs(buf0, Region(lastPfn), pfns)
      requires forall p | p in pfns :: p <= lastPfn
      modifies file
      ensures ok ==> BitmapsAre(Region(pfn), if value then pfns + {pfn} else pfns - {pfn})
      ensures ok ==> BufIs(buf, Region(pfn), if value then pfns + {pfn} else pfns - {pfn})
    {
      hide BufIs, PageAddr, Pow2, AreaIs;
      buf, ok := buf0, true;
      var r := Region(lastPfn);
      RegionMonotone(lastPfn, pfn);
      while r < Region(pfn)
        invariant Region(lastPfn) <= r <= Region(pfn) && BitmapsAre(r, pfns) && BufIs(buf, r, pfns)
      {
        ok := FlushRegion(r, buf, pfns);
        if !ok {
          return;
        }
        forall p | p in pfns
          ensures Region(p) < r + 1
        {
          RegionMonotone(p, lastPfn);
        }
        NoBitsAhead(r + 1, pfns);
        buf := Zeros();
        r := r + 1;
      }
      RegionBytes(pfn);
      assert |buf| == PAGE_SIZE by { BufSize(buf, r, pfns); }
      SetBitOk(buf, pfn, value, pfns);
      buf := SetBit(buf, InRegion(pfn), value);
      ghost var pfns' := if value then pfns + {pfn} else pfns - {pfn};
      AreaSame(file.content, offsetBitmap, r, pfns, pfns', pfn);
      AreaSame(file.content, offsetBitmap + PageAddr(regions), r, pfns, pfns', pfn);
    }

    // The bits of the first `num` pages are in the bitmaps or in the buffer.
    ghost predicate BitmapAt(num: nat, lastPfn: nat, buf: Data)
      reads file
    {
      var pages := Pages(blocks);
      && num <= |pages| && lastPfn == (if num == 0 then 0 else pages[num - 1].pfn)
      && BitmapsAre(Region(lastPfn), PfnSet(pages[..num])) && BufIs(buf, Region(lastPfn), PfnSet(pages[..num]))
    }

    method MarkPage(num: nat, lastPfn: nat, pfn: nat, buf0: Data) returns (buf: Data, ok: bool)
      requires Layout() && BitmapAt(num, lastPfn, buf0) && num < |Pages(blocks)| && pfn == Pages(blocks)[num].pfn
      modifies file
      ensures ok ==> BitmapAt(num + 1, pfn, buf)
    {
      hide BufIs, Pages, PfnSet, Region, BitmapsAre;
      Ascending(blocks, num);
      OneMore(Pages(blocks), num);
      buf, ok := SetDumpBitmap(lastPfn, pfn, true, buf0, PfnSet(Pages(blocks)[..num]));
    }

    // The last buffer reaches the file.
    method SyncBitmap(lastPfn: nat, buf0: Data) returns (ok: bool)
      requires Layout() && BitmapAt(|Pages(blocks)|, lastPfn, buf0) && |Pages(blocks)| > 0
      modifies file
      ensures ok ==> BitmapsAre(Region(lastPfn) + 1, PfnSet(Pages(blocks)))
    {
      hide BufIs, Pages, PfnSet, Region, BitmapsAre;
      ghost var pages := Pages(blocks);
      assert pages[..|pages|] == pages;
      Highest(blocks);
      NextRegion(lastPfn);
      ghost var pfns := PfnSet(pages);
      assert pfns - {lastPfn + PFN_BUFBITMAP} == pfns;
      var buf;
      buf, ok := SetDumpBitmap(lastPfn, lastPfn + PFN_BUFBITMAP, false, buf0, pfns);
    }

    /** write_dump_bitmap: both bitmaps mark exactly the pages of guest memory, and the pages
        are counted. */
    method WriteDumpBitmap() returns (ok: bool)
      requires Layout()
      modifies file, this`numDumpable
      ensures ok ==> numDumpable == |Pages(blocks)| > 0
      ensures ok ==> BitmapsAre(Region(Pages(blocks)[|Pages(blocks)| - 1].pfn) + 1, PfnSet(Pages(blocks)))
    {
      hide BufIs, Pages, BlockPages, PfnSet, Region, IsAt, BitmapsAre;
      var buf := Zeros();
      var lastPfn, pfn, num := 0, 0, 0;
      ghost var k, at := -1, 0;
      var block: Option<nat> := None;
      var more, block', at' := true, 0, 0;
      assert BitmapAt(0, 0, buf) by { EmptyBitmap(); }
      more, block', pfn, at' := GetNextPage(blocks, block, pfn, k, at);
      while more
        invariant BitmapAt(num, lastPfn, buf) && (more <==> num < |Pages(blocks)|) &&
                  (more ==> IsAt(blocks, num, block', pfn, at'))
        decreases |Pages(blocks)| - num
      {
        AtPage(blocks, num, block', pfn, at');
        buf, ok := MarkPage(num, lastPfn, pfn, buf);
        if !ok {
          return;
        }
        lastPfn, num := pfn, num + 1;
        more, block', pfn, at' := GetNextPage(blocks, Some(block'), pfn, num - 1, at');
      }
      ok := true;
      SomePage(blocks);
      if num > 0 {
        ok := SyncBitmap(lastPfn, buf);
      }
      numDumpable := num;
    }

    // ---- write_dump_pages ----

    // The descriptors and the data of the first `num` pages have been given to the caches.
    ghost predicate PagesAt(num: nat, pds: seq<PageDescriptor>, desc: Data, data: Data, dataAt: nat) {
      && |pds| == num <= |Pages(blocks)| && |desc| == DESC_SIZE * num
      && (forall k | 0 <= k < num :: Described(pds[k], desc, k) && Restores(pds[k], data, dataAt, Pages(blocks)[k]))
    }

    ghost predicate Described(pd: PageDescriptor, desc: Data, k: nat)
      requires DESC_SIZE * (k + 1) <= |desc|
    {
      desc[DESC_SIZE * k..DESC_SIZE * k + DESC_SIZE] == codec.pack(pd)
    }

    // The descriptor selects bytes of the page data from which the page is restored.
    ghost predicate Restores(pd: PageDescriptor, data: Data, dataAt: nat, page: GuestPage) {
      && dataAt <= pd.offset && pd.offset - dataAt + pd.size <= |data|
      && codec.Restore(pd.flags, data[pd.offset - dataAt..pd.offset - dataAt + pd.size]) == PageData(host, page)
    }

    lemma NextPage(num: nat, pds: seq<PageDescriptor>, desc: Data, data: Data, dataAt: nat, pd: PageDescriptor,
                   more: Data)
      requires Layout() && PagesAt(num, pds, desc, data, dataAt) && num < |Pages(blocks)|
      requires Restores(pd, data + more, dataAt, Pages(blocks)[num])
      ensures PagesAt(num + 1, pds + [pd], desc + codec.pack(pd), data + more, dataAt)
    {
      hide Pages, Layout;
      assert |codec.pack(pd)| == DESC_SIZE by { PackSize(pd); }
      var desc', pds' := desc + codec.pack(pd), pds + [pd];
      forall k | 0 <= k < num + 1
        ensures Described(pds'[k], desc', k) && Restores(pds'[k], data + more, dataAt, Pages(blocks)[k])
      {
        if k < num {
          assert Described(pds[k], desc, k) && Restores(pds[k], data, dataAt, Pages(blocks)[k]);
          assert desc'[DESC_SIZE * k..DESC_SIZE * k + DESC_SIZE] == desc[DESC_SIZE * k..DESC_SIZE * k + DESC_SIZE];
          var lo, hi := pds[k].offset - dataAt, pds[k].offset - dataAt + pds[k].size;
          assert (data + more)[lo..hi] == data[lo..hi];
        }
      }
    }

    lemma PackSize(pd: PageDescriptor)
      requires Layout()
      ensures |codec.pack(pd)| == DESC_SIZE && (pd.Fits() ==> codec.unpack(codec.pack(pd)) == pd)
    {
    }

    /** What is stored of a page that is not zero: compressed if that makes it smaller. */
    method StoredForm(page: GuestPage) returns (flags: nat, stored: Data)
      requires Layout()
      ensures |stored| <= PAGE_SIZE && flags < 0x1_0000_0000 && codec.Restore(flags, stored) == PageData(host, page)
    {
      var buf := PageData(host, page);
      var out := codec.compress(buf);
      if out.Some? && |out.value| < PAGE_SIZE {
        flags, stored := codec.flag, out.value;
      } else {
        flags, stored := 0, buf;
      }
    }

    ghost predicate CachesOk(desc: DataCache, data: DataCache)
      reads desc, data, file
    {
      && desc != data && desc.file == file && data.file == file && desc.Valid() && data.Valid()
      && desc.base == offsetPage && data.base == offsetPage + DESC_SIZE * |Pages(blocks)| &&
         |desc.stream| <= DESC_SIZE * |Pages(blocks)|
    }

    // A write through one cache leaves the other alone.
    method WriteDesc(desc: DataCache, data: DataCache, bytes: Data, sync: bool) returns (ok: bool)
      requires CachesOk(desc, data) && |bytes| <= DESC_SIZE &&
               |desc.stream| + (if sync then 0 else |bytes|) <= DESC_SIZE * |Pages(blocks)|
      modifies desc, file
      ensures ok ==>
                CachesOk(desc, data) && desc.stream == (if sync then old(desc.stream) else old(desc.stream) + bytes)
      ensures ok && sync ==> Holds(file.content, desc.base, desc.stream)
      ensures KeptBelow(old(file.content), file.content, offsetPage)
    {
      hide Holds, Pages, Pow2, OnlyIn;
      PageHoldsDescriptor();
      ok := desc.Write(bytes, sync);
      Widen(old(file.content), file.content, desc.base, desc.base + |old(desc.stream)|, data.base);
      HoldsKept(old(file.content), file.content, desc.base, data.base, data.base,
                data.stream[..data.offset - data.base]);
      OnlyAbove(old(file.content), file.content, desc.base, data.base, offsetPage);
    }

    method WritePageData(desc: DataCache, data: DataCache, bytes: Data, sync: bool) returns (ok: bool)
      requires CachesOk(desc, data) && |bytes| <= PAGE_SIZE
      modifies data, file
      ensures ok ==>
                CachesOk(desc, data) && data.stream == (if sync then old(data.stream) else old(data.stream) + bytes)
      ensures ok && sync ==> Holds(file.content, data.base, data.stream)
      ensures old(Holds(file.content, desc.base, desc.stream)) ==> Holds(file.content, desc.base, desc.stream)
      ensures KeptBelow(old(file.content), file.content, offsetPage)
    {
      hide Holds, Pages, Pow2, OnlyIn;
      ok := data.Write(bytes, sync);
      OnlyAbove(old(file.content), file.content, data.base, data.base + |old(data.stream)|, offsetPage);
      HoldsKept(old(file.content), file.content, data.base, data.base + |old(data.stream)|, desc.base,
                desc.stream[..desc.offset - desc.base]);
      if old(Holds(file.content, desc.base, desc.stream)) {
        HoldsKept(old(file.content), file.content, data.base, data.base + |old(data.stream)|, desc.base, desc.stream);
      }
    }

    // The first page of the page data is zero, for all zero pages.
    ghost predicate ZeroFirst(data: Data) {
      PAGE_SIZE <= |data| && data[..PAGE_SIZE] == Zeros()
    }

    /** One turn of the loop of write_dump_pages. */
    method WritePage(desc: DataCache, data: DataCache, page: GuestPage, zeroAt: nat, offsetData: nat, ghost num: nat,
                     ghost pds: seq<PageDescriptor>)
      returns (offset: nat, ghost pd: PageDescriptor, ok: bool)
      requires Layout() && CachesOk(desc, data) && num < |Pages(blocks)| && page == Pages(blocks)[num]
      requires PagesAt(num, pds, desc.stream, data.stream, data.base) && ZeroFirst(data.stream) &&
               zeroAt == data.base && offsetData == data.base + |data.stream|
      modifies desc, data, file
      ensures ok ==> CachesOk(desc, data) && PagesAt(num + 1, pds + [pd], desc.stream, data.stream, data.base)
      ensures ok ==>
                ZeroFirst(data.stream) && offsetData <= offset == data.base + |data.stream| <= offsetData + PAGE_SIZE
      ensures ok ==> pd.offset <= offset && pd.size <= PAGE_SIZE && pd.flags < 0x1_0000_0000 && pd.pageFlags == 0
      ensures KeptBelow(old(file.content), file.content, offsetPage)
    {
      hide Pages, Holds, Layout, Pow2, PagesAt, PageData, Zeros;
      offset := offsetData;
      var buf := PageData(host, page);
      if buf == Zeros() {
        var pdZero := PageDescriptor(zeroAt, PAGE_SIZE, 0, 0);
        pd := pdZero;
        PackSize(pdZero);
        assert data.stream + [] == data.stream;
        NextPage(num, pds, desc.stream, data.stream, data.base, pdZero, []);
        Room(num, pds, desc.stream, data.stream, data.base);
        ok := WriteDesc(desc, data, codec.pack(pdZero), false);
      } else {
        var flags, stored := StoredForm(page);
        var pdNew := PageDescriptor(offsetData, |stored|, flags, 0);
        pd := pdNew;
        PackSize(pdNew);
        assert (data.stream + stored)[|data.stream|..|data.stream| + |stored|] == stored;
        NextPage(num, pds, desc.stream, data.stream, data.base, pdNew, stored);
        Room(num, pds, desc.stream, data.stream, data.base);
        ok := WritePageData(desc, data, stored, false);
        if !ok {
          return;
        }
        assert data.stream[..PAGE_SIZE] == old(data.stream)[..PAGE_SIZE];
        offset := offset + |stored|;
        ok := WriteDesc(desc, data, codec.pack(pdNew), false);
      }
    }

    lemma Room(num: nat, pds: seq<PageDescriptor>, desc: Data, data: Data, dataAt: nat)
      requires PagesAt(num, pds, desc, data, dataAt) && num < |Pages(blocks)|
      ensures |desc| + DESC_SIZE <= DESC_SIZE * |Pages(blocks)|
    {
    }

    // All offsets fit in the fields of a descriptor.
    ghost predicate FileFits() {
      offsetPage + DESC_SIZE * |Pages(blocks)| + PageAddr(|Pages(blocks)| + 1) < ADDR_LIMIT
    }

    /** The file holds, at its place, a descriptor of page k that a reader unpacks to `pd`,
        and where `pd` says, bytes from which page k is restored. */
    ghost predicate InFile(c: Content, pd: PageDescriptor, k: nat)
      requires k < |Pages(blocks)|
    {
      && Holds(c, offsetPage + DESC_SIZE * k, codec.pack(pd)) && codec.unpack(codec.pack(pd)) == pd
      && exists stored ::
          |stored| == pd.size && Holds(c, pd.offset, stored) &&
              codec.Restore(pd.flags, stored) == PageData(host, Pages(blocks)[k])
    }

    lemma PageInFile(c: Content, num: nat, pds: seq<PageDescriptor>, desc: Data, data: Data, dataAt: nat, k: nat)
      requires Layout() && PagesAt(num, pds, desc, data, dataAt) && k < num && pds[k].Fits()
      requires Holds(c, offsetPage, desc) && Holds(c, dataAt, data)
      ensures InFile(c, pds[k], k)
    {
      hide Pages, Layout, PageData, Holds;
      var pd := pds[k];
      PackSize(pd);
      assert Described(pd, desc, k) && Restores(pd, data, dataAt, Pages(blocks)[k]);
      HoldsPart(c, offsetPage, desc, DESC_SIZE * k, DESC_SIZE);
      HoldsPart(c, dataAt, data, pd.offset - dataAt, pd.size);
    }

    // `num` pages have been written through the caches, and `offsetData` is where the data of the next one goes.
    ghost predicate Written(desc: DataCache, data: DataCache, dataAt: nat, offsetData: nat, num: nat,
                            pds: seq<PageDescriptor>)
      reads desc, data, file
    {
      && CachesOk(desc, data) && data.base == dataAt && PagesAt(num, pds, desc.stream, data.stream, dataAt) &&
         ZeroFirst(data.stream)
      && offsetData == dataAt + |data.stream| && |data.stream| <= PageAddr(num + 1)
      && (forall k | 0 <= k < |pds| :: SmallPd(pds[k], offsetData))
    }

    method NewCaches(dataAt: nat) returns (desc: DataCache, data: DataCache)
      requires dataAt == offsetPage + DESC_SIZE * |Pages(blocks)|
      ensures fresh(desc) && fresh(data) && desc != data && CachesOk(desc, data) && data.base == dataAt &&
              desc.stream == [] && data.stream == []
    {
      hide Pages, Holds, Pow2;
      desc := new DataCache(file, offsetPage);
      data := new DataCache(file, dataAt);
    }

    method StartPages(dataAt: nat) returns (desc: DataCache, data: DataCache, ok: bool)
      requires dataAt == offsetPage + DESC_SIZE * |Pages(blocks)|
      modifies file
      ensures fresh(desc) && fresh(data) && (ok ==> Written(desc, data, dataAt, dataAt + PAGE_SIZE, 0, []))
      ensures KeptBelow(old(file.content), file.content, offsetPage)
    {
      hide Pages, Holds, PagesAt, PageAddr, Pow2, Zeros, ZeroFirst, CachesOk;
      desc, data := NewCaches(dataAt);
      ok := WritePageData(desc, data, Zeros(), false);
      if ok {
        FirstZero(data.stream);
        NoneYet(desc.stream, data.stream, dataAt);
        AddrSplit(0, 0);
        assert PageAddr(0) == 0 by { PageAddrSum(0, 0); }
      }
    }

    method NextWritten(desc: DataCache, data: DataCache, dataAt: nat, offsetData: nat, page: GuestPage, ghost num: nat,
                       ghost pds: seq<PageDescriptor>)
      returns (offset: nat, ghost pd: PageDescriptor, ok: bool)
      requires Layout() && Written(desc, data, dataAt, offsetData, num, pds) && num < |Pages(blocks)| &&
               page == Pages(blocks)[num]
      modifies desc, data, file
      ensures ok ==> Written(desc, data, dataAt, offset, num + 1, pds + [pd])
      ensures KeptBelow(old(file.content), file.content, offsetPage)
    {
      hide Pages, Layout, Holds, PagesAt, PageAddr, Pow2, ZeroFirst, CachesOk;
      AddrSplit(0, num + 1);
      offset, pd, ok := WritePage(desc, data, page, dataAt, offsetData, num, pds);
    }

    /** write_dump_pages: descriptor k leads to page k, for every page. */
    method WriteDumpPages() returns (ok: bool, ghost pds: seq<PageDescriptor>)
      requires Layout() && FileFits() && numDumpable == |Pages(blocks)|
      modifies file
      ensures ok ==> |pds| == |Pages(blocks)| && forall k | 0 <= k < |pds| :: InFile(file.content, pds[k], k)
      ensures KeptBelow(old(file.content), file.content, offsetPage)
    {
      hide Pages, Layout, Written, BlockPages, IsAt, PageAddr, Pow2, InFile;
      assert BlocksOk(blocks) by { LayoutBlocks(); }
      var dataAt := offsetPage + DESC_SIZE * numDumpable;
      pds := [];
      var desc, data;
      desc, data, ok := StartPages(dataAt);
      if !ok {
        return;
      }
      var offsetData: nat := dataAt + PAGE_SIZE;
      ghost var num: nat := 0;
      var more, block, pfn, at := GetNextPage(blocks, None, 0, -1, 0);
      while more
        invariant Written(desc, data, dataAt, offsetData, num, pds) &&
                  KeptBelow(old(file.content), file.content, offsetPage)
        invariant num <= |Pages(blocks)| && (more <==> num < |Pages(blocks)|) &&
                  (more ==> IsAt(blocks, num, block, pfn, at))
        modifies desc, data, file
        decreases |Pages(blocks)| - num
      {
        AtPage(blocks, num, block, pfn, at);
        ghost var pd;
        offsetData, pd, ok := NextWritten(desc, data, dataAt, offsetData, GuestPage(pfn, at), num, pds);
        if !ok {
          return;
        }
        pds, num := pds + [pd], num + 1;
        more, block, pfn, at := GetNextPage(blocks, Some(block), pfn, num - 1, at);
      }
      ok := FinishPages(desc, data, dataAt, offsetData, pds);
    }

    // Both caches are emptied into the file.
    method FinishPages(desc: DataCache, data: DataCache, ghost dataAt: nat, ghost end: nat,
                       ghost pds: seq<PageDescriptor>) returns (ok: bool)
      requires Layout() && FileFits() && Written(desc, data, dataAt, end, |Pages(blocks)|, pds)
      modifies desc, data, file
      ensures ok ==> |pds| == |Pages(blocks)| && forall k | 0 <= k < |pds| :: InFile(file.content, pds[k], k)
      ensures KeptBelow(old(file.content), file.content, offsetPage)
    {
      hide Pages, Layout, Holds, PagesAt, PageAddr, Pow2, InFile;
      PdCount(|Pages(blocks)|, pds, desc.stream, data.stream, dataAt);
      ok := WriteDesc(desc, data, [], true);
      if !ok {
        return;
      }
      ok := WritePageData(desc, data, [], true);
      if !ok {
        return;
      }
      forall k | 0 <= k < |pds|
        ensures InFile(file.content, pds[k], k)
      {
        assert SmallPd(pds[k], end);
        PageFits();
        PageInFile(file.content, |pds|, pds, desc.stream, data.stream, data.base, k);
      }
    }

    lemma FirstZero(stream: Data)
      requires stream == [] + Zeros()
      ensures ZeroFirst(stream) && |stream| == PAGE_SIZE
    {
      assert stream == Zeros() && stream[..PAGE_SIZE] == stream;
    }

    lemma PdCount(num: nat, pds: seq<PageDescriptor>, desc: Data, data: Data, dataAt: nat)
      requires PagesAt(num, pds, desc, data, dataAt)
      ensures |pds| == num
    {
    }

    lemma NoneYet(desc: Data, data: Data, dataAt: nat)
      requires desc == []
      ensures PagesAt(0, [], desc, data, dataAt)
    {
    }

    lemma LayoutBlocks()
      requires Layout()
      ensures BlocksOk(blocks)
    {
    }

    /** create_kdump_vmcore after the headers: in the finished file both bitmaps mark exactly
        the pages of guest memory, and descriptor k leads to the k-th of them. */
    method CreateKdump() returns (ok: bool, ghost pds: seq<PageDescriptor>)
      requires Layout() && FileFits()
      modifies this`numDumpable, file
      ensures ok ==> numDumpable == |pds| == |Pages(blocks)| > 0 && forall k | 0 <= k < |pds| ::
                InFile(file.content, pds[k], k)
      ensures ok ==> BitmapsAre(Region(Pages(blocks)[|Pages(blocks)| - 1].pfn) + 1, PfnSet(Pages(blocks)))
    {
      hide Pages, PfnSet, Region, AreaIs, InFile, FileFits, KeptBelow;
      pds := [];
      ok := WriteDumpBitmap();
      if !ok {
        return;
      }
      ghost var bitmaps, last := file.content, Pages(blocks)[|Pages(blocks)| - 1].pfn;
      ok, pds := WriteDumpPages();
      if ok {
        BitmapsKept(bitmaps, Region(last) + 1, PfnSet(Pages(blocks)));
      }
    }

    lemma BitmapsKept(was: Content, r: nat, pfns: set<nat>)
      requires AreaIs(was, offsetBitmap, r, pfns) && AreaIs(was, offsetBitmap + PageAddr(regions), r, pfns) &&
               r <= regions
      requires Layout() && KeptBelow(was, file.content, offsetPage)
      ensures BitmapsAre(r, pfns)
    {
      hide Pages, Pow2, PageAddr, Region, AreaIs, KeptBelow;
      PageAddrMonotone(r, regions);
      AreaBelow(was, file.content, offsetBitmap, r, pfns, offsetPage);
      AreaBelow(was, file.content, offsetBitmap + PageAddr(regions), r, pfns, offsetPage);
    }

    lemma EmptyBitmap()
      ensures BitmapAt(0, 0, Zeros())
    {
      Begin(Pages(blocks));
      NoBitsAhead(0, {});
    }
  }

  // DIV_ROUND_UP(DIV_ROUND_UP(max_mapnr, CHAR_BIT), TARGET_PAGE_SIZE)
  function Regions(maxMapnr: nat): nat {
    PageOf(ByteOf(maxMapnr + CHAR_BIT - 1) + PAGE_SIZE - 1)
  }

  lemma RegionsSuffice(pfn: nat, maxMapnr: nat)
    requires pfn < maxMapnr
    ensures Region(pfn) < Regions(maxMapnr)
  {
    RegionBytes(pfn);
    var bytes := ByteOf(maxMapnr + CHAR_BIT - 1);
    assert ByteOf(pfn) < bytes;
    hide Pow2, PageOf, PageAddr, Region, InRegion, ByteOf;
    AddrSplit(bytes + PAGE_SIZE - 1, Regions(maxMapnr));
    AddrSplit(0, Regions(maxMapnr));
    PageAddrMonotone(Regions(maxMapnr), Region(pfn));
  }

  lemma Begin(pages: seq<GuestPage>)
    ensures PfnSet(pages[..0]) == {} && Region(0) == 0
  {
    DivModUnique(0, PFN_BUFBITMAP, 0, 0);
  }

  lemma NextRegion(pfn: nat)
    ensures Region(pfn + PFN_BUFBITMAP) == Region(pfn) + 1
  {
    DivBounds(pfn, PFN_BUFBITMAP);
    MulSucc(Region(pfn), PFN_BUFBITMAP);
    DivModUnique(pfn + PFN_BUFBITMAP, PFN_BUFBITMAP, Region(pfn) + 1, InRegion(pfn));
  }

  lemma SomePage(blocks: seq<PageBlock>)
    requires BlocksOk(blocks)
    ensures |Pages(blocks)| > 0
  {
  }

  /** The k-th set bit belongs to the k-th page: k bits are set before it. */
  lemma {:induction false} KthBit(blocks: seq<PageBlock>, k: nat)
    requires BlocksOk(blocks) && k < |Pages(blocks)|
    ensures |set p | p in PfnSet(Pages(blocks)) && p < Pages(blocks)[k].pfn| == k
  {
    hide Pages, PfnSet;
    var pages := Pages(blocks);
    PagesAscend(blocks, |blocks|);
    assert blocks[..|blocks|] == blocks;
    var below := set p | p in PfnSet(pages) && p < pages[k].pfn;
    if k == 0 {
      assert below == {};
    } else {
      KthBit(blocks, k - 1);
      assert below == (set p | p in PfnSet(pages) && p < pages[k - 1].pfn) + {pages[k - 1].pfn};
    }
  }

  // The pages before the next one have smaller numbers.
  lemma Ascending(blocks: seq<PageBlock>, num: nat)
    requires BlocksOk(blocks) && num < |Pages(blocks)|
    ensures forall p | p in PfnSet(Pages(blocks)[..num]) :: num > 0 && p <= Pages(blocks)[num - 1].pfn
    ensures num > 0 ==> Pages(blocks)[num - 1].pfn < Pages(blocks)[num].pfn
  {
    hide Pages;
    PagesAscend(blocks, |blocks|);
    assert blocks[..|blocks|] == blocks;
  }

  lemma Highest(blocks: seq<PageBlock>)
    requires BlocksOk(blocks) && |Pages(blocks)| > 0
    ensures forall p | p in PfnSet(Pages(blocks)) :: p <= Pages(blocks)[|Pages(blocks)| - 1].pfn
  {
    hide Pages;
    PagesAscend(blocks, |blocks|);
    assert blocks[..|blocks|] == blocks;
  }

  lemma OneMore(pages: seq<GuestPage>, n: nat)
    requires n < |pages|
    ensures PfnSet(pages[..n + 1]) == PfnSet(pages[..n]) + {pages[n].pfn}
  {
    assert pages[..n + 1] == pages[..n] + [pages[n]];
    forall p | p in PfnSet(pages[..n])
      ensures p in PfnSet(pages[..n + 1])
    {
      var i :| 0 <= i < |pages[..n]| && pages[..n][i].pfn == p;
      assert pages[..n + 1][i].pfn == p;
    }
    assert pages[..n + 1][n] == pages[n];
  }

  ghost predicate SmallPd(pd: PageDescriptor, end: nat) {
    pd.offset <= end && pd.size <= PAGE_SIZE && pd.flags < 0x1_0000_0000 && pd.pageFlags == 0
  }

  lemma PageFits()
    ensures PAGE_SIZE < 0x1_0000_0000
  {
    NodesFit(0);
  }

  lemma HoldsPart(c: Content, at: nat, data: Data, lo: nat, n: nat)
    requires Holds(c, at, data) && lo + n <= |data|
    ensures Holds(c, at + lo, data[lo..lo + n])
  {
  }

  lemma PageHoldsDescriptor()
    ensures DESC_SIZE <= PAGE_SIZE <= BUFSIZE_DATA_CACHE
  {
    Pow2Monotone(10, TARGET_PAGE_BITS);
    assert Pow2(10) == 1024;
  }

  lemma Widen(c: Content, c': Content, lo: nat, hi: nat, more: nat)
    requires OnlyIn(c, c', lo, hi) && hi <= more
    ensures OnlyIn(c, c', lo, more)
  {
  }

  lemma BufSize(buf: Data, r: nat, pfns: set<nat>)
    requires BufIs(buf, r, pfns)
    ensures |buf| == PAGE_SIZE
  {
  }

  lemma RegionMonotone(a: nat, b: nat)
    requires a <= b
    ensures Region(a) <= Region(b)
  {
    hide Pow2;
    DivBounds(a, PFN_BUFBITMAP);
    DivBounds(b, PFN_BUFBITMAP);
    if Region(a) > Region(b) {
      MulMonotone(Region(b) + 1, Region(a), PFN_BUFBITMAP);
    }
  }

  lemma AreaBelow(c: Content, c': Content, at: nat, r: nat, pfns: set<nat>, end: nat)
    requires AreaIs(c, at, r, pfns) && KeptBelow(c, c', end) && at + PageAddr(r) <= end
    ensures AreaIs(c', at, r, pfns)
  {
    hide Pow2, PageAddr, Region, InRegion, Lit, ByteOf, BitOf;
    forall p: nat | Region(p) < r
      ensures FileBit(c', at, p) <==> p in pfns
    {
      RegionBytes(p);
      PageAddrMonotone(Region(p), r);
      assert FileBit(c', at, p) == FileBit(c, at, p);
    }
  }

  // A page of a later region does not matter.
  lemma AreaSame(c: Content, at: nat, r: nat, pfns: set<nat>, pfns': set<nat>, pfn: nat)
    requires AreaIs(c, at, r, pfns) && Region(pfn) == r && (pfns' == pfns + {pfn} || pfns' == pfns - {pfn})
    ensures AreaIs(c, at, r, pfns')
  {
  }
}
