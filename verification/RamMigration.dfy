/**
 Live migration of RAM, arch_init.c: the source with its dirty log, migration
 bitmap, scan cursor and XBZRLE cache, the stream, and the destination. The
 guest runs between the steps and between the reads inside ram_save_page.
*/
module RamMigration {
  import opened Options
  import opened Geometry
  import opened Xbzrle
  import opened RamStream
  import opened RamBitmap

  // A slot of the page cache; page_cache.c has one slot for each residue of the page number.
  datatype CacheItem = Empty | Item(no: nat, data: Page)

  // cache_is_cached and get_cached_data.
  function Lookup(cache: seq<CacheItem>, no: nat): Option<Page>
    requires cache != []
  {
    var item := cache[no % |cache|];
    if item.Item? && item.no == no then Some(item.data) else None
  }

  datatype Write = Write(no: nat, data: Page)

  // Guest memory after some stores.
  function Written(src: seq<Page>, total: nat, writes: seq<Write>): seq<Page>
    decreases |writes|
  {
    if writes == [] then src
    else
      var w := writes[0];
      Written(if w.no < total && w.no < |src| then src[w.no := w.data] else src, total, writes[1..])
  }

  predicate IsWritten(total: nat, writes: seq<Write>, no: nat) {
    no < total && exists k | 0 <= k < |writes| :: writes[k].no == no
  }

  lemma MoreWritten(total: nat, writes: seq<Write>, k: nat)
    requires k < |writes|
    ensures forall no: nat :: IsWritten(total, writes[..k + 1], no) <==>
              IsWritten(total, writes[..k], no) || (no < total && no == writes[k].no)
  {
    forall no: nat
      ensures IsWritten(total, writes[..k + 1], no) <==>
              IsWritten(total, writes[..k], no) || (no < total && no == writes[k].no)
    {
      if no < total {
        if i :| 0 <= i < k && writes[i].no == no {
          assert writes[..k][i].no == no && writes[..k + 1][i].no == no;
        }
        assert writes[..k + 1][k] == writes[k];
      }
    }
  }

  // The names of the pages of the blocks.
  ghost predicate KeysOk(blocks: seq<Block>, keys: set<Key>) {
    && (forall b: nat, o: nat | IsPage(blocks, b, o) :: (blocks[b].id, o) in keys)
    && (forall key | key in keys :: exists b: nat, o: nat :: IsPage(blocks, b, o) && key == (blocks[b].id, o))
  }

  class Migration {
    const blocks: seq<Block>
    const total: nat
    const useXbzrle: bool
    ghost const keys: set<Key>

    var src: seq<Page>
    var dirtyLog: seq<bool>
    var bitmap: seq<bool>
    var dirtyPages: int
    var bulkStage: bool
    var lastSeen: Option<nat>
    var lastSent: Option<nat>
    var lastOffset: nat
    var cache: seq<CacheItem>

    var stream: seq<Msg>
    var memory: map<Key, Page>
    var recvBlock: Option<string>

    // ---- what holds at every step ----

    ghost predicate Shape()
      reads this`src, this`dirtyLog, this`bitmap, this`dirtyPages
    {
      && BlocksOk(blocks, total) && KeysOk(blocks, keys)
      && |bitmap| == |dirtyLog| == |src| && total <= |bitmap| && |bitmap| % BITS_PER_LONG == 0
      && GapsOk(blocks, total, bitmap, dirtyLog)
      && dirtyPages == |Marked(blocks, bitmap)|
    }

    // What the destination will hold for page o of block b.
    function Arrives(b: nat, o: nat): Content
      requires b < |blocks|
      reads this`stream, this`memory, this`recvBlock
    {
      var key := (blocks[b].id, o);
      if key in memory then Outcome(stream, recvBlock, key, Known(memory[key])) else Broken
    }

    // The destination will hold what the source holds now.
    predicate UpToDate(b: nat, o: nat)
      requires Shape() && IsPage(blocks, b, o)
      reads this`src, this`dirtyLog, this`bitmap, this`dirtyPages, this`stream, this`memory, this`recvBlock
    {
      var c := Arrives(b, o);
      c == Tracks(No(blocks, b, o)) || c == Known(src[No(blocks, b, o)])
    }

    predicate Safe(b: nat, o: nat)
      requires Shape() && IsPage(blocks, b, o)
      reads this`src, this`dirtyLog, this`bitmap, this`dirtyPages, this`stream, this`memory, this`recvBlock
    {
      bitmap[No(blocks, b, o)] || dirtyLog[No(blocks, b, o)] || UpToDate(b, o)
    }

    // No page is lost: it is marked, or logged, or up to date.
    ghost predicate NoLoss()
      requires Shape()
      reads this`src, this`dirtyLog, this`bitmap, this`dirtyPages, this`stream, this`memory, this`recvBlock
    {
      forall b: nat, o: nat | IsPage(blocks, b, o) :: Safe(b, o)
    }

    predicate Lossless(): (intact: bool)
      requires Shape()
      reads this`src, this`dirtyLog, this`bitmap, this`dirtyPages, this`stream, this`memory, this`recvBlock
      ensures intact <==> NoLoss()
    {
      forall b | 0 <= b < |blocks| :: forall o | 0 <= o < blocks[b].pages :: Safe(b, o)
    }

    ghost predicate StreamOk()
      reads this`stream, this`memory, this`recvBlock, this`lastSent, this`bitmap
    {
      && (forall b: nat, o: nat | IsPage(blocks, b, o) :: Arrives(b, o) != Broken)
      && Playable(stream, recvBlock, keys, |bitmap|)
      && (lastSent.Some? ==> lastSent.value < |blocks| && RecvEnd(stream, recvBlock) == Some(blocks[lastSent.value].id))
    }

    /** ram_save_setup up to its first bitmap sync: every page is marked, and the
        count leaves out the gaps between blocks. */
    constructor Setup(blocks: seq<Block>, total: nat, src: seq<Page>, log: seq<bool>, memory: map<Key, Page>,
                      cacheSlots: nat)
      requires BlocksOk(blocks, total) && |src| == |log| >= total && |log| % BITS_PER_LONG == 0
      requires forall i | total <= i < |log| :: !log[i]
      requires KeysOk(blocks, memory.Keys)
      ensures this.blocks == blocks && this.total == total && this.src == src && this.memory == memory &&
              keys == memory.Keys && stream == []
      ensures useXbzrle == (cacheSlots > 0) && bulkStage && lastSeen == None && lastOffset == 0 && dirtyLog == log
      ensures forall i | 0 <= i < |bitmap| :: bitmap[i] <==> i < total
      ensures Inv(false)
    {
      this.blocks, this.total, this.useXbzrle, keys := blocks, total, cacheSlots > 0, memory.Keys;
      this.src, dirtyLog, this.memory, recvBlock, stream := src, log, memory, None, [];
      cache := seq(cacheSlots, _ => Empty);
      bulkStage, lastSeen, lastSent, lastOffset := true, None, None, 0;
      bitmap := seq(|log|, i => i < total);
      dirtyPages := 0;
      new;
      var k := 0;
      while k < |blocks|
        invariant 0 <= k <= |blocks| && dirtyPages == SumPages(blocks[..k])
        modifies this`dirtyPages
      {
        assert blocks[..k + 1][..k] == blocks[..k];
        dirtyPages := dirtyPages + blocks[k].pages;
        k := k + 1;
      }
      assert blocks[..k] == blocks;
      SetupOk();
    }

    lemma SetupOk()
      requires BlocksOk(blocks, total) && KeysOk(blocks, keys) && keys == memory.Keys
      requires |bitmap| == |src| == |dirtyLog| >= total && |bitmap| % BITS_PER_LONG == 0
      requires forall i | total <= i < |dirtyLog| :: !dirtyLog[i]
      requires forall i | 0 <= i < |bitmap| :: bitmap[i] <==> i < total
      requires dirtyPages == SumPages(blocks) && stream == [] && lastSent == None && lastSeen == None &&
               lastOffset == 0 && bulkStage
      requires (useXbzrle ==> cache != []) && forall s | 0 <= s < |cache| :: cache[s].Empty?
      ensures Inv(false)
    {
      FullBitmapCount(blocks, total, bitmap);
      hide Marked;
      forall b: nat, o: nat | IsPage(blocks, b, o)
        ensures IsMarked(blocks, bitmap, b, o) && Arrives(b, o) == Known(memory[(blocks[b].id, o)]) && !Cached(b, o)
      {
      }
      assert IsPage(blocks, 0, 0);
    }

    // ---- guest ----

    // Stores of the guest, each of which sets the page in the dirty log.
    method GuestRun(writes: seq<Write>)
      requires Shape()
      modifies this`src, this`dirtyLog
      ensures Shape()
      ensures src == Written(old(src), total, writes)
      ensures forall i | 0 <= i < |src| :: dirtyLog[i] <==> old(dirtyLog)[i] || IsWritten(total, writes, i)
      ensures forall i | 0 <= i < |src| :: old(dirtyLog)[i] ==> dirtyLog[i]
      ensures forall i | 0 <= i < |src| :: src[i] != old(src)[i] ==> dirtyLog[i]
      ensures writes == [] ==> src == old(src) && dirtyLog == old(dirtyLog)
    {
      var k := 0;
      while k < |writes|
        invariant 0 <= k <= |writes| && Shape() && |src| == |old(src)|
        invariant forall i | 0 <= i < |src| :: old(dirtyLog)[i] ==> dirtyLog[i]
        invariant forall i | 0 <= i < |src| :: src[i] != old(src)[i] ==> dirtyLog[i]
        invariant k == 0 ==> src == old(src) && dirtyLog == old(dirtyLog)
        invariant Written(src, total, writes[k..]) == Written(old(src), total, writes)
        invariant forall i | 0 <= i < |src| :: dirtyLog[i] <==> old(dirtyLog)[i] || IsWritten(total, writes[..k], i)
      {
        var w := writes[k];
        assert writes[k..][0] == w && writes[k..][1..] == writes[k + 1..];
        MoreWritten(total, writes, k);
        if w.no < total {
          src := src[w.no := w.data];
          dirtyLog := dirtyLog[w.no := true];
        }
        k := k + 1;
      }
      assert writes[..k] == writes;
    }

    // ---- bitmap ----

    method SyncRange(b: nat)
      requires Shape() && b < |blocks|
      modifies this`bitmap, this`dirtyLog, this`dirtyPages
      ensures Shape() && Synced(old(bitmap), old(dirtyLog), bitmap, dirtyLog)
      ensures forall o: nat | IsPage(blocks, b, o) :: !dirtyLog[No(blocks, b, o)]
    {
      hide Marked, GapsOk, KeysOk;
      var start, pages := blocks[b].base, blocks[b].pages;
      var word := start / BITS_PER_LONG;
      if word * BITS_PER_LONG == start {
        var nr := (pages + BITS_PER_LONG - 1) / BITS_PER_LONG;
        var k := word;
        while k < word + nr
          invariant word <= k <= word + nr && Shape()
          invariant Synced(old(bitmap), old(dirtyLog), bitmap, dirtyLog)
          invariant forall i | 0 <= i < |bitmap| && start <= i < k * BITS_PER_LONG :: !dirtyLog[i]
        {
          SyncWord(k);
          k := k + 1;
        }
      } else {
        var addr := 0;
        while addr < pages
          invariant 0 <= addr <= pages && Shape()
          invariant Synced(old(bitmap), old(dirtyLog), bitmap, dirtyLog)
          invariant forall o: nat | o < addr :: !dirtyLog[No(blocks, b, o)]
        {
          if dirtyLog[start + addr] {
            SyncPage(b, addr);
          }
          addr := addr + 1;
        }
      }
    }

    method SyncWord(k: nat)
      requires Shape() && (k + 1) * BITS_PER_LONG <= |bitmap|
      modifies this`bitmap, this`dirtyLog, this`dirtyPages
      ensures Shape() && Synced(old(bitmap), old(dirtyLog), bitmap, dirtyLog)
      ensures dirtyLog == ClearRange(old(dirtyLog), k * BITS_PER_LONG, (k + 1) * BITS_PER_LONG)
    {
      var lo, hi := k * BITS_PER_LONG, (k + 1) * BITS_PER_LONG;
      NewDirtyIsGrowth(blocks, total, bitmap, dirtyLog, lo, hi);
      SyncedOnce(bitmap, dirtyLog, lo, hi);
      var newDirty := NewDirty(bitmap, dirtyLog, lo, hi);
      bitmap := OrRange(bitmap, dirtyLog, lo, hi);
      dirtyPages := dirtyPages + newDirty;
      dirtyLog := ClearRange(dirtyLog, lo, hi);
      SyncedGaps(blocks, total, old(bitmap), old(dirtyLog), bitmap, dirtyLog);
    }

    method SyncPage(b: nat, o: nat)
      requires Shape() && IsPage(blocks, b, o) && dirtyLog[No(blocks, b, o)]
      modifies this`bitmap, this`dirtyLog, this`dirtyPages
      ensures Shape() && Synced(old(bitmap), old(dirtyLog), bitmap, dirtyLog)
      ensures dirtyLog == old(dirtyLog)[No(blocks, b, o) := false]
    {
      var i := No(blocks, b, o);
      assert InBlock(blocks, b, i);
      MarkBit(blocks, bitmap, i);
      dirtyLog := dirtyLog[i := false];
      if !bitmap[i] {
        dirtyPages := dirtyPages + 1;
      }
      bitmap := bitmap[i := true];
      SyncedGaps(blocks, total, old(bitmap), old(dirtyLog), bitmap, dirtyLog);
    }

    method Sync()
      requires Shape()
      modifies this`bitmap, this`dirtyLog, this`dirtyPages
      ensures Shape() && Synced(old(bitmap), old(dirtyLog), bitmap, dirtyLog)
      ensures forall b: nat, o: nat | IsPage(blocks, b, o) :: !dirtyLog[No(blocks, b, o)]
      ensures old(NoLoss()) ==> NoLoss()
    {
      var k := 0;
      while k < |blocks|
        invariant 0 <= k <= |blocks| && Shape()
        invariant Synced(old(bitmap), old(dirtyLog), bitmap, dirtyLog)
        invariant forall b: nat, o: nat | IsPage(blocks, b, o) && b < k :: !dirtyLog[No(blocks, b, o)]
      {
        SyncRange(k);
        k := k + 1;
      }
      if old(NoLoss()) {
        forall b: nat, o: nat | IsPage(blocks, b, o)
          ensures Safe(b, o)
        {
          assert old(Safe(b, o));
        }
      }
    }

    method FindNextBit(size: nat, offset: nat) returns (next: nat)
      requires size <= |bitmap|
      ensures if offset < size then offset <= next <= size else next == size
      ensures forall i | offset <= i < next && i < size :: !bitmap[i]
      ensures next < size ==> bitmap[next]
    {
      next := offset;
      if offset >= size {
        return size;
      }
      while next < size && !bitmap[next]
        invariant offset <= next <= size
        invariant forall i | offset <= i < next :: !bitmap[i]
      {
        next := next + 1;
      }
    }

    // Outside the bulk stage the bits are searched; inside it the next page is taken unseen.
    method FindAndResetDirty(b: nat, start: nat) returns (offset: nat)
      requires Shape() && b < |blocks| && start <= blocks[b].pages
      requires bulkStage && 0 < start && start + 1 < blocks[b].pages ==> bitmap[No(blocks, b, start + 1)]
      modifies this`bitmap, this`dirtyPages
      ensures Shape()
      ensures if bulkStage && start > 0 then offset == start + 1 else start <= offset <= blocks[b].pages
      ensures !(bulkStage && start > 0) ==> forall o: nat | start <= o < offset :: !old(bitmap)[No(blocks, b, o)]
      ensures offset < blocks[b].pages ==>
                old(bitmap)[No(blocks, b, offset)] && bitmap == old(bitmap)[No(blocks, b, offset) := false]
      ensures offset >= blocks[b].pages ==> bitmap == old(bitmap)
      ensures dirtyPages == old(dirtyPages) - (if offset < blocks[b].pages then 1 else 0)
    {
      hide Marked, GapsOk;
      var base := blocks[b].base;
      var nr := base + start;
      var size := base + blocks[b].pages;
      var next;
      if bulkStage && nr > base {
        next := nr + 1;
      } else {
        next := FindNextBit(size, nr);
      }
      offset := next - base;
      if next < size {
        ClearMark(blocks, total, bitmap, dirtyLog, b, next);
        bitmap := bitmap[next := false];
        dirtyPages := dirtyPages - 1;
      }
    }

    // ---- sending a page ----

    ghost predicate Cached(b: nat, o: nat)
      requires b < |blocks|
      reads this`cache
    {
      cache != [] && Lookup(cache, No(blocks, b, o)).Some?
    }

    ghost function CachedData(b: nat, o: nat): Page
      requires b < |blocks| && Cached(b, o)
      reads this`cache
    {
      Lookup(cache, No(blocks, b, o)).value
    }

    // The cache holds what the destination will hold.
    ghost predicate CacheFits(b: nat, o: nat)
      requires IsPage(blocks, b, o)
      reads this`stream, this`memory, this`recvBlock, this`cache
    {
      Cached(b, o) ==> Arrives(b, o) == Known(CachedData(b, o))
    }

    /** cache_insert; allocation may fail for a slot that holds no buffer yet. A page that
        shared the slot is found no more, every other page as before. If it fails, the page
        was not cached before either, so no older copy of it is left. */
    method CacheInsert(no: nat, data: Page, allocates: bool) returns (ok: bool)
      requires cache != []
      modifies this`cache
      ensures |cache| == |old(cache)| && (ok <==> allocates || old(cache)[no % |cache|].Item?)
      ensures Lookup(cache, no) == if ok then Some(data) else None
      ensures forall p: nat | p != no ::
                Lookup(cache, p) == if ok && p % |cache| == no % |cache| then None else Lookup(old(cache), p)
      ensures forall s | 0 <= s < |cache| :: cache[s].Item? <==> old(cache)[s].Item? || (ok && s == no % |cache|)
    {
      var pos := no % |cache|;
      ok := allocates || cache[pos].Item?;
      if ok {
        cache := cache[pos := Item(no, data)];
      }
    }

    // Appends a message for page o of block b.
    method Emit(b: nat, o: nat, m: Msg)
      requires BlocksOk(blocks, total) && KeysOk(blocks, keys) && IsPage(blocks, b, o) && StreamOk()
      requires m.h == if lastSent == Some(b) then Continue(o) else Named(blocks[b].id, o)
      requires m.PageMsg? && m.data.Live? ==> m.data.no < |bitmap|
      modifies this`stream
      ensures stream == old(stream) + [m] && RecvEnd(stream, recvBlock) == Some(blocks[b].id) &&
              Playable(stream, recvBlock, keys, |bitmap|)
      ensures forall c: nat, q: nat | IsPage(blocks, c, q) ::
                Arrives(c, q) == if c == b && q == o then Update(m, old(Arrives(b, o))) else old(Arrives(c, q))
    {
      ghost var before := stream;
      stream := stream + [m];
      forall c: nat, q: nat | IsPage(blocks, c, q)
        ensures Arrives(c, q) == if c == b && q == o then Update(m, old(Arrives(b, o))) else old(Arrives(c, q))
        ensures RecvEnd(stream, recvBlock) == Some(blocks[b].id)
      {
        var key := (blocks[c].id, q);
        assert old(Arrives(c, q)) != Broken;
        AppendMsg(before, m, recvBlock, key, Known(memory[key]));
      }
      assert IsPage(blocks, b, o) && old(Arrives(b, o)) != Broken;
      AppendPlayable(before, m, recvBlock, keys, |bitmap|);
    }

    ghost predicate CacheOk(lastStage: bool)
      requires Shape()
      reads this`src, this`dirtyLog, this`bitmap, this`dirtyPages, this`stream, this`memory, this`recvBlock, this`cache
    {
      forall b: nat, o: nat | IsPage(blocks, b, o) && (lastStage ==> bitmap[No(blocks, b, o)]) :: CacheFits(b, o)
    }

    // What every page but (b, o) satisfies while (b, o) is being sent.
    ghost predicate OthersFine(b: nat, o: nat, lastStage: bool)
      requires Shape()
      reads this`src, this`dirtyLog, this`bitmap, this`dirtyPages, this`stream, this`memory, this`recvBlock, this`cache
    {
      forall c: nat, q: nat | IsPage(blocks, c, q) && (c != b || q != o) ::
        Safe(c, q) && ((lastStage ==> bitmap[No(blocks, c, q)]) ==> CacheFits(c, q))
    }

    // The cache is used outside the bulk stage only.
    ghost predicate CacheIdle()
      reads this`cache, this`bulkStage
    {
      && (useXbzrle ==> cache != [])
      && (bulkStage || !useXbzrle ==> forall s | 0 <= s < |cache| :: cache[s].Empty?)
    }

    // Page (b, o) has been taken from the bitmap and is about to be sent.
    ghost predicate Sending(b: nat, o: nat, lastStage: bool)
      reads this`src, this`dirtyLog, this`bitmap, this`dirtyPages, this`stream, this`memory, this`recvBlock, this`cache,
            this`bulkStage, this`lastSent
    {
      && Shape() && IsPage(blocks, b, o) && StreamOk() && CacheIdle()
      && !bitmap[No(blocks, b, o)] && OthersFine(b, o, lastStage)
    }

    // Nothing is pending.
    ghost predicate Settled(lastStage: bool)
      reads this`src, this`dirtyLog, this`bitmap, this`dirtyPages, this`stream, this`memory, this`recvBlock, this`cache,
            this`bulkStage
    {
      && Shape() && NoLoss() && CacheOk(lastStage) && CacheIdle() && Playable(stream, recvBlock, keys, |bitmap|)
      && forall b: nat, o: nat | IsPage(blocks, b, o) :: Arrives(b, o) != Broken
    }

    // The guest runs while (b, o) is being sent.
    method Interfere(b: nat, o: nat, lastStage: bool, writes: seq<Write>)
      requires Sending(b, o, lastStage)
      modifies this`src, this`dirtyLog
      ensures Sending(b, o, lastStage) && Arrives(b, o) == old(Arrives(b, o))
      ensures writes == [] ==> src == old(src) && dirtyLog == old(dirtyLog)
    {
      hide Marked, GapsOk, KeysOk, Outcome, RecvEnd, Playable, Apply, Runs;
      GuestRun(writes);
      forall c: nat, q: nat | IsPage(blocks, c, q)
        ensures Arrives(c, q) == old(Arrives(c, q)) != Broken
      {
      }
      forall c: nat, q: nat | IsPage(blocks, c, q) && (c != b || q != o)
        ensures Safe(c, q) && ((lastStage ==> bitmap[No(blocks, c, q)]) ==> CacheFits(c, q))
      {
        assert old(Safe(c, q) && ((lastStage ==> bitmap[No(blocks, c, q)]) ==> CacheFits(c, q)));
      }
    }

    // Storing data for (b, o) in the cache evicts at most one other page.
    method Remember(b: nat, o: nat, lastStage: bool, data: Page, allocates: bool) returns (ok: bool)
      requires Sending(b, o, lastStage) && useXbzrle && !bulkStage
      modifies this`cache
      ensures Sending(b, o, lastStage) && Arrives(b, o) == old(Arrives(b, o)) && |cache| == |old(cache)|
      ensures ok <==>
                Cached(b, o) && CachedData(b, o) == data && (allocates || old(cache[No(blocks, b, o) % |cache|].Item?))
      ensures !ok ==> !Cached(b, o)
      ensures old(Cached(b, o)) ==> ok
    {
      hide Marked, GapsOk, KeysOk, Outcome, RecvEnd, Playable, Apply, Runs;
      ok := CacheInsert(No(blocks, b, o), data, allocates);
      forall c: nat, q: nat | IsPage(blocks, c, q) && (c != b || q != o)
        ensures Safe(c, q) && ((lastStage ==> bitmap[No(blocks, c, q)]) ==> CacheFits(c, q))
      {
        assert old(Safe(c, q) && ((lastStage ==> bitmap[No(blocks, c, q)]) ==> CacheFits(c, q)));
        if No(blocks, b, o) == No(blocks, c, q) {
          NoInjective(blocks, total, b, o, c, q);
        }
      }
    }

    // Puts the message for (b, o) on the stream; the page is up to date and the cache fits.
    method Deliver(b: nat, o: nat, lastStage: bool, m: Msg)
      requires Sending(b, o, lastStage)
      requires m.h == if lastSent == Some(b) then Continue(o) else Named(blocks[b].id, o)
      requires m.PageMsg? && m.data.Live? ==> m.data.no < |bitmap|
      requires var c := Update(m, Arrives(b, o)); c == Tracks(No(blocks, b, o)) || c == Known(src[No(blocks, b, o)])
      requires Cached(b, o) && !lastStage ==> Update(m, Arrives(b, o)) == Known(CachedData(b, o))
      modifies this`stream
      ensures Settled(lastStage) && RecvEnd(stream, recvBlock) == Some(blocks[b].id) && stream == old(stream) + [m]
    {
      hide Marked, GapsOk, KeysOk, Outcome, RecvEnd, Playable, Apply, Runs;
      Emit(b, o, m);
      forall c: nat, q: nat | IsPage(blocks, c, q)
        ensures Safe(c, q) && ((lastStage ==> bitmap[No(blocks, c, q)]) ==> CacheFits(c, q)) && Arrives(c, q) != Broken
      {
        if c != b || q != o {
          assert old(Safe(c, q) && ((lastStage ==> bitmap[No(blocks, c, q)]) ==> CacheFits(c, q)));
        }
      }
    }

    /** save_xbzrle_page. A negative result asks for the page to be sent in full,
        from `cur` when that is set. Zero means the cached copy is still current. */
    method SaveXbzrlePage(b: nat, o: nat, h: Header, lastStage: bool, guest: seq<Write>, allocates: bool)
      returns (bytes: int, cur: Option<Page>)
      requires Sending(b, o, lastStage) && useXbzrle && !bulkStage && CacheFits(b, o)
      requires h == if lastSent == Some(b) then Continue(o) else Named(blocks[b].id, o)
      requires lastStage ==> guest == []
      modifies this`src, this`dirtyLog, this`cache, this`stream
      ensures bytes >= -1
      ensures bytes != -1 ==> Settled(lastStage)
      ensures bytes == 0 ==> old(Cached(b, o))
      ensures bytes != -1 ==> Sent(old(stream), stream, bytes)
      ensures bytes > 0 ==> RecvEnd(stream, recvBlock) == Some(blocks[b].id)
      ensures bytes == -1 ==> Sending(b, o, lastStage) && stream == old(stream) && Arrives(b, o) == old(Arrives(b, o))
      ensures bytes == -1 && cur.Some? ==> cur.value == src[No(blocks, b, o)]
      ensures bytes == -1 && Cached(b, o) && !lastStage ==> cur == Some(CachedData(b, o))
      ensures lastStage ==> cur == None
      ensures guest == [] ==> src == old(src) && dirtyLog == old(dirtyLog)
    {
      hide Marked, GapsOk, KeysOk, Outcome, RecvEnd, Playable, Apply, Runs;
      var no := No(blocks, b, o);
      cur := None;
      var cached := Lookup(cache, no);
      if cached.None? {
        if !lastStage {
          var ok := Remember(b, o, lastStage, src[no], allocates);
          if ok {
            cur := Lookup(cache, no);
          }
        }
        return -1, cur;
      }
      var prev := cached.value;
      var currentBuf := src[no];
      NodesFit(0);
      var enc := EncodeBuffer(prev, currentBuf, PAGE_SIZE);
      if enc.Unchanged? {
        Skip(b, o, lastStage);
        return 0, None;
      }
      if enc.Overflow? {
        if !lastStage {
          Interfere(b, o, lastStage, guest);
          var _ := Remember(b, o, lastStage, src[no], true);
          cur := Lookup(cache, no);
        }
        return -1, cur;
      }
      CodecRoundTrip(prev, currentBuf);
      if !lastStage {
        var _ := Remember(b, o, lastStage, currentBuf, true);
      }
      var m := XbzrleMsg(h, enc.bytes);
      Deliver(b, o, lastStage, m);
      return MsgBytes(m), None;
    }

    // An unmodified page needs no message.
    lemma Skip(b: nat, o: nat, lastStage: bool)
      requires Sending(b, o, lastStage) && CacheFits(b, o) && Cached(b, o) && CachedData(b, o) == src[No(blocks, b, o)]
      ensures Settled(lastStage)
    {
      forall c: nat, q: nat | IsPage(blocks, c, q)
        ensures Safe(c, q) && ((lastStage ==> bitmap[No(blocks, c, q)]) ==> CacheFits(c, q))
      {
        if c == b && q == o {
          assert UpToDate(b, o);
        }
      }
    }

    /** ram_save_page, with the guest running before and between its reads of the
        page: `guest[0]` before the zero test, `guest[1]` before the copy that is
        encoded, `guest[2]` before the page is read again. */
    method SavePage(b: nat, o: nat, lastStage: bool, guest: seq<seq<Write>>, allocates: bool) returns (bytes: int)
      requires Sending(b, o, lastStage) && CacheFits(b, o)
      requires |guest| == 3 && (lastStage ==> guest == [[], [], []])
      modifies this`src, this`dirtyLog, this`cache, this`stream
      ensures Settled(lastStage) && bytes >= 0
      ensures Sent(old(stream), stream, bytes) && (bytes == 0 ==> old(Cached(b, o)))
      ensures bytes > 0 ==> RecvEnd(stream, recvBlock) == Some(blocks[b].id)
      ensures guest == [[], [], []] ==> src == old(src) && dirtyLog == old(dirtyLog)
    {
      hide Marked, GapsOk, KeysOk, Outcome, RecvEnd, Playable, Apply, Runs, MsgBytes, OthersFine;
      var no := No(blocks, b, o);
      var h := if lastSent == Some(b) then Continue(o) else Named(blocks[b].id, o);
      bytes := -1;
      var sendAsync := true;
      var cur := None;
      Interfere(b, o, lastStage, guest[0]);
      if src[no] == ZeroPage() {
        SaveZeroPage(b, o, h, lastStage, allocates);
        bytes := MsgBytes(ZeroMsg(h));
      } else if !bulkStage && useXbzrle {
        Interfere(b, o, lastStage, guest[1]);
        bytes, cur := SaveXbzrlePage(b, o, h, lastStage, guest[2], allocates);
        if !lastStage {
          sendAsync := false;
        }
      }
      if bytes == -1 {
        bytes := SaveWhole(b, o, h, lastStage, cur, sendAsync, guest[2]);
      }
    }

    // The whole page: a copy from the cache, a page read when the stream is flushed, or one read now.
    method SaveWhole(b: nat, o: nat, h: Header, lastStage: bool, cur: Option<Page>, sendAsync: bool, guest: seq<Write>)
      returns (bytes: int)
      requires Sending(b, o, lastStage) && (lastStage ==> guest == [])
      requires h == if lastSent == Some(b) then Continue(o) else Named(blocks[b].id, o)
      requires cur.Some? ==> cur.value == src[No(blocks, b, o)]
      requires Cached(b, o) && !lastStage ==> cur == Some(CachedData(b, o))
      modifies this`src, this`dirtyLog, this`stream
      ensures Settled(lastStage) && bytes > 0 && Sent(old(stream), stream, bytes)
      ensures RecvEnd(stream, recvBlock) == Some(blocks[b].id)
      ensures guest == [] ==> src == old(src) && dirtyLog == old(dirtyLog)
    {
      hide Marked, GapsOk, KeysOk, Outcome, RecvEnd, Playable, Apply, Runs, MsgBytes, OthersFine;
      var data;
      if cur.Some? {
        data := Copied(cur.value);
      } else if sendAsync {
        data := Live(No(blocks, b, o));
      } else {
        Interfere(b, o, lastStage, guest);
        data := Copied(src[No(blocks, b, o)]);
      }
      var m := PageMsg(h, data);
      Deliver(b, o, lastStage, m);
      bytes := MsgBytes(m);
    }

    // A zero page is one byte, and the cache must not keep an older copy.
    method SaveZeroPage(b: nat, o: nat, h: Header, lastStage: bool, allocates: bool)
      requires Sending(b, o, lastStage) && CacheFits(b, o) && src[No(blocks, b, o)] == ZeroPage()
      requires h == if lastSent == Some(b) then Continue(o) else Named(blocks[b].id, o)
      modifies this`cache, this`stream
      ensures Settled(lastStage) && RecvEnd(stream, recvBlock) == Some(blocks[b].id) &&
              stream == old(stream) + [ZeroMsg(h)]
    {
      hide Marked, GapsOk, KeysOk, Outcome, RecvEnd, Playable, Apply, Runs;
      Emit(b, o, ZeroMsg(h));
      if !(bulkStage || !useXbzrle) {
        var _ := CacheInsert(No(blocks, b, o), ZeroPage(), allocates);
      }
      forall c: nat, q: nat | IsPage(blocks, c, q)
        ensures Safe(c, q) && ((lastStage ==> bitmap[No(blocks, c, q)]) ==> CacheFits(c, q)) && Arrives(c, q) != Broken
      {
        if c != b || q != o {
          assert old(Safe(c, q) && ((lastStage ==> bitmap[No(blocks, c, q)]) ==> CacheFits(c, q)));
          if No(blocks, b, o) == No(blocks, c, q) {
            NoInjective(blocks, total, b, o, c, q);
          }
        }
      }
    }

    // ---- the scan ----

    /** Where the scan stands. In the bulk stage every page after the cursor is
        still marked, which is why the next page may be taken without looking. */
    ghost predicate CursorOk()
      reads this`bitmap, this`bulkStage, this`lastSeen, this`lastOffset
    {
      match lastSeen
      case None =>
        bulkStage && lastOffset == 0 && MarkedAfter(blocks, bitmap, 0, 0) && blocks != [] &&
            IsMarked(blocks, bitmap, 0, 0)
      case Some(b) =>
        && b < |blocks| && lastOffset <= blocks[b].pages
        && (bulkStage ==> lastOffset < blocks[b].pages && MarkedAfter(blocks, bitmap, b, lastOffset))
    }

    // The invariant of the whole migration between two steps.
    ghost predicate Inv(lastStage: bool)
      reads this
    {
      Settled(lastStage) && StreamOk() && CursorOk()
    }

    /** The one state in which a page is taken from the bitmap and not sent: the
        bulk stage ends on the last page, that page has been marked again, and it
        is the only marked page. */
    ghost predicate LosesMark()
      reads this`bitmap, this`bulkStage, this`lastSeen, this`lastOffset
    {
      && blocks != []
      && var b := |blocks| - 1;
         && bulkStage && lastSeen == Some(b) && 0 < lastOffset == blocks[b].pages - 1 &&
            IsMarked(blocks, bitmap, b, lastOffset)
         && forall c: nat, q: nat | IsPage(blocks, c, q) && (c != b || q != lastOffset) ::
              !IsMarked(blocks, bitmap, c, q)
    }

    // Page (b, o) has just been taken from the bitmap `before`.
    ghost predicate Taken(b: nat, o: nat, lastStage: bool, before: seq<bool>)
      reads this`src, this`dirtyLog, this`bitmap, this`dirtyPages, this`stream, this`memory, this`recvBlock, this`cache,
            this`bulkStage, this`lastSent
    {
      && Shape() && IsPage(blocks, b, o) && StreamOk() && CacheIdle()
      && |before| == |bitmap| && before[No(blocks, b, o)] && bitmap == before[No(blocks, b, o) := false]
      && (forall c: nat, q: nat | IsPage(blocks, c, q) ::
          before[No(blocks, c, q)] || dirtyLog[No(blocks, c, q)] || UpToDate(c, q))
      && (forall c: nat, q: nat | IsPage(blocks, c, q) && (lastStage ==> before[No(blocks, c, q)]) :: CacheFits(c, q))
    }

    // The search of one block: either nothing is found and nothing changes, or a page is taken.
    method Search(b: nat, start: nat, lastStage: bool) returns (offset: nat)
      requires Settled(lastStage) && StreamOk() && b < |blocks| && start <= blocks[b].pages
      requires bulkStage && start > 0 ==> start < blocks[b].pages && MarkedAfter(blocks, bitmap, b, start)
      modifies this`bitmap, this`dirtyPages
      ensures Found(blocks, old(bitmap), bitmap, b, if bulkStage && start > 0 then start + 1 else start, offset)
      ensures start <= offset && (bulkStage && start > 0 ==> offset == start + 1)
      ensures offset < blocks[b].pages ==>
                Taken(b, offset, lastStage, old(bitmap)) && dirtyPages < old(dirtyPages) &&
                    !IsMarked(blocks, bitmap, b, offset)
      ensures dirtyPages <= old(dirtyPages)
      ensures offset >= blocks[b].pages ==>
                Settled(lastStage) && StreamOk() && bitmap == old(bitmap) && offset == blocks[b].pages
      ensures dirtyPages >= 0 && Shape()
    {
      hide Marked, GapsOk, KeysOk, Outcome, RecvEnd, Playable, Apply, Runs;
      if bulkStage && start > 0 && start + 1 < blocks[b].pages {
        assert IsMarked(blocks, bitmap, b, start + 1);
      }
      offset := FindAndResetDirty(b, start);
    }

    // Sends a page that has been taken.
    method SaveTaken(b: nat, o: nat, lastStage: bool, guest: seq<seq<Write>>, allocates: bool, ghost before: seq<bool>)
      returns (bytes: int)
      requires Taken(b, o, lastStage, before)
      requires |guest| == 3 && (lastStage ==> guest == [[], [], []])
      modifies this`src, this`dirtyLog, this`cache, this`stream
      ensures Shape() && Settled(lastStage) && bytes >= 0
      ensures Sent(old(stream), stream, bytes) && (bytes == 0 ==> StreamOk() && old(Cached(b, o)))
      ensures bytes > 0 ==> RecvEnd(stream, recvBlock) == Some(blocks[b].id)
      ensures guest == [[], [], []] ==> src == old(src) && dirtyLog == old(dirtyLog)
    {
      hide Marked, GapsOk, KeysOk, Outcome, RecvEnd, Playable, Apply, Runs;
      forall c: nat, q: nat | IsPage(blocks, c, q) && (c != b || q != o)
        ensures Safe(c, q) && ((lastStage ==> bitmap[No(blocks, c, q)]) ==> CacheFits(c, q))
      {
        if No(blocks, b, o) == No(blocks, c, q) {
          NoInjective(blocks, total, b, o, c, q);
        }
      }
      bytes := SavePage(b, o, lastStage, guest, allocates);
    }

    // The scan under way at (b, o), started in the state `at`.
    ghost predicate Scanning(b: nat, o: nat, round2: bool, lastStage: bool, at: Start)
      reads this`src, this`dirtyLog, this`bitmap, this`dirtyPages, this`bulkStage, this`lastSent, this`cache,
            this`stream, this`memory, this`recvBlock
    {
      && Settled(lastStage) && StreamOk() && BlocksOk(blocks, total)
      && b < |blocks| && o <= blocks[b].pages && at.b0 < |blocks| && at.o0 <= blocks[at.b0].pages &&
         (at.seen || at.bulk)
      && (if round2 then
            !bulkStage && at.seen && b <= at.b0 && ClearAround(blocks, bitmap, at.b0, at.o1(), b, o)
          else
            && bulkStage == at.bulk && at.b0 <= b && !Before(b, o, at.b0, at.o0)
            && ClearFrom(blocks, bitmap, at.b0, at.o1(), b, o))
      && Passing(blocks, at.bitmap, bitmap, at.b0, at.o1(), b, o, round2)
      && (at.bulk ==> BulkScanning(b, o, round2, at))
    }

    // A scan that started in the bulk stage stops at the first page it takes.
    ghost predicate BulkScanning(b: nat, o: nat, round2: bool, at: Start)
      requires at.b0 < |blocks|
      reads this`src, this`dirtyLog, this`bitmap, this`stream, this`cache
    {
      && at.o0 < blocks[at.b0].pages && MarkedAfter(blocks, bitmap, at.b0, at.o0)
      && bitmap == at.bitmap && src == at.src && dirtyLog == at.dirtyLog && stream == at.stream && cache == at.cache
      && (forall s | 0 <= s < |cache| :: cache[s].Empty?)
      && (!at.seen ==> at.b0 == 0 && at.o0 == 0 && IsMarked(blocks, bitmap, 0, 0))
      && if round2 then at.b0 == |blocks| - 1 && (at.o0 > 0 ==> at.o0 == blocks[at.b0].pages - 1)
         else (b == at.b0 && o == at.o0) || (b > at.b0 && o == 0)
    }

    // The scan has stopped at (b, o).
    ghost predicate Stopped(b: nat, o: nat, bytes: int, lastStage: bool, at: Start)
      reads this`src, this`dirtyLog, this`bitmap, this`dirtyPages, this`bulkStage, this`lastSent, this`cache,
            this`stream, this`memory, this`recvBlock
    {
      && Shape() && b < |blocks| && o <= blocks[b].pages
      && (bytes == 0 ==> AllClear(blocks, bitmap))
      && if at.Doomed(blocks) then
           && bytes == 0 && Taken(at.b0, at.o0, lastStage, at.bitmap) && !bulkStage
           && src == at.src && dirtyLog == at.dirtyLog && stream == at.stream && cache == at.cache
         else
           && Settled(lastStage) && StreamOk() &&
               (bulkStage ==> o < blocks[b].pages && MarkedAfter(blocks, bitmap, b, o))
           && (bytes > 0 ==> Swept(blocks, at.bitmap, bitmap, at.b0, at.o1(), b, o) && OneByOne(b, o, at))
           && (bytes == 0 && at.bulk ==> bitmap == at.bitmap)
    }

    // In the bulk stage a scan takes one page, and the stage ends only by a wrap.
    ghost predicate OneByOne(b: nat, o: nat, at: Start)
      requires b < |blocks|
      reads this`bitmap, this`bulkStage
    {
      && (at.bulk ==> No(blocks, b, o) < |at.bitmap| && bitmap == at.bitmap[No(blocks, b, o) := false])
      && (!Before(b, o, at.b0, at.o1()) ==> bulkStage == at.bulk)
    }

    // Nothing found from `o` on in block b: on to the next block, or round again.
    method NextBlock(b: nat, o: nat, round2: bool, lastStage: bool, ghost at: Start) returns (b': nat, round2': bool)
      requires Scanning(b, o, round2, lastStage, at) && !(round2 && b == at.b0)
      requires Found(blocks, bitmap, bitmap, b, if bulkStage && o > 0 then o + 1 else o, blocks[b].pages)
      modifies this`bulkStage
      ensures Scanning(b', 0, round2', lastStage, at)
      ensures if round2' == round2 then b' == b + 1 else round2' && !round2
    {
      hide Settled, StreamOk, Found, ClearFrom, MarkedAfter, Passing;
      ghost var from: nat := if bulkStage && o > 0 then o + 1 else o;
      PassingNext(blocks, at.bitmap, bitmap, at.b0, at.o1(), b, o, round2);
      ClearStart(blocks, bitmap, at.b0, at.o1());
      FoundAdvances(blocks, bitmap, bitmap, at.b0, at.o1(), b, from, blocks[b].pages);
      FoundAdvances(blocks, bitmap, bitmap, 0, 0, b, from, blocks[b].pages);
      ClearNothing(blocks, bitmap);
      if at.bulk && !round2 {
        BulkEndsHere(blocks, bitmap, bitmap, at.b0, at.o0, b, from, blocks[b].pages);
        FoundMarked(blocks, bitmap, bitmap, b, from, blocks[b].pages);
      }
      b' := b + 1;
      round2' := round2;
      if b' == |blocks| {
        b' := 0;
        round2' := true;
        EndBulk(lastStage);
      }
    }

    // Back where the scan started: nothing is marked any more.
    lemma GiveUp(o: nat, from: nat, lastStage: bool, at: Start, before: seq<bool>)
      requires Shape() && at.b0 < |blocks| && at.seen && !bulkStage && at.o0 <= o && at.o0 <= blocks[at.b0].pages
      requires ClearAround(blocks, before, at.b0, at.o1(), at.b0, from) && Found(blocks, before, bitmap, at.b0, from, o)
      requires if o >= blocks[at.b0].pages then Settled(lastStage) && StreamOk() else Taken(at.b0, o, lastStage, before)
      requires at.bulk ==>
                 before == at.bitmap && src == at.src && dirtyLog == at.dirtyLog && stream == at.stream &&
                     cache == at.cache
      requires at.bulk ==> at.b0 == |blocks| - 1 && (at.o0 > 0 ==> at.o0 == blocks[at.b0].pages - 1)
      ensures Stopped(at.b0, o, 0, lastStage, at)
    {
      hide Settled, StreamOk, MarkedAfter, Marked, GapsOk, KeysOk;
      FoundAdvances(blocks, before, bitmap, at.b0, at.o1(), at.b0, from, o);
      FoundAdvances(blocks, before, bitmap, 0, 0, at.b0, from, o);
      GiveUpClear(blocks, bitmap, at.b0, at.o1(), o);
      if o < blocks[at.b0].pages {
        OnlyMark(blocks, before, bitmap, at.b0, at.o1(), from, o);
      }
    }

    // A page was found: it is sent, or skipped as unmodified.
    method SaveFound(b: nat, ghost from: nat, o: nat, round2: bool, lastStage: bool, guest: seq<seq<Write>>,
                     allocates: bool, ghost at: Start, ghost before: seq<bool>) returns (bytes: int)
      requires Taken(b, o, lastStage, before) && BlocksOk(blocks, total) && Found(blocks, before, bitmap, b, from, o)
      requires at.b0 < |blocks| && at.o0 <= blocks[at.b0].pages && (at.seen || at.bulk) && o < blocks[b].pages
      requires if round2 then !bulkStage && at.seen && b <= at.b0 &&
               ClearAround(blocks, before, at.b0, at.o1(), b, from)
               else bulkStage == at.bulk && at.b0 <= b && ClearFrom(blocks, before, at.b0, at.o1(), b, from) &&
                    !Before(b, o, at.b0, at.o0) && !Before(b, o, at.b0, at.o1())
      requires round2 ==> Before(b, o, at.b0, at.o1())
      requires Passing(blocks, at.bitmap, bitmap, at.b0, at.o1(), b, o, round2) && IsMarked(blocks, at.bitmap, b, o)
      requires at.bulk ==>
                 before == at.bitmap && MarkedAfter(blocks, before, at.b0, at.o0) && forall s | 0 <= s < |cache| ::
                     cache[s].Empty?
      requires at.bulk && !round2 ==> !Before(b, o, at.b0, at.o0)
      requires !(at.Doomed(blocks) && b == at.b0 && o == at.o0)
      requires |guest| == 3 && (lastStage ==> guest == [[], [], []])
      modifies this`src, this`dirtyLog, this`cache, this`stream, this`lastSent
      ensures bytes >= 0 && Sent(old(stream), stream, bytes)
      ensures bytes == 0 ==> Scanning(b, o, round2, lastStage, at)
      ensures bytes > 0 ==> Stopped(b, o, bytes, lastStage, at)
      ensures guest == [[], [], []] ==> src == old(src) && dirtyLog == old(dirtyLog)
    {
      hide Marked, GapsOk, KeysOk, Outcome, RecvEnd, Playable, Apply, Runs;
      hide Settled, StreamOk, Sent;
      FoundAdvances(blocks, before, bitmap, at.b0, at.o1(), b, from, o);
      FoundAdvances(blocks, before, bitmap, 0, 0, b, from, o);
      if at.bulk && !round2 {
        MarkedAfterLater(blocks, total, before, at.b0, at.o0, b, o);
      }
      assert !at.Doomed(blocks);
      bytes := SaveTaken(b, o, lastStage, guest, allocates, before);
      if bytes > 0 {
        lastSent := Some(b);
        StreamOkNow(lastStage, b);
        SweptNow(blocks, at.bitmap, bitmap, at.b0, at.o1(), b, o, round2);
      }
    }

    // The page at the cursor does not need its mark: it is in the log, or up to date.
    ghost predicate Spare(b: nat, o: nat)
      requires Shape() && IsPage(blocks, b, o)
      reads this`src, this`dirtyLog, this`bitmap, this`dirtyPages, this`stream, this`memory, this`recvBlock
    {
      dirtyLog[No(blocks, b, o)] || UpToDate(b, o)
    }

    /** ram_find_and_save_block. It keeps the invariant, so every bit it clears was sent or
        found unmodified, if and only if it does not lose a mark that is needed. The page it
        sends is the first on its way that is marked and not found unmodified; in the bulk
        stage it takes one page. It returns 0 only when no page is marked any more. */
    method FindAndSaveBlock(lastStage: bool, guest: seq<seq<seq<Write>>>, allocates: bool) returns (bytes: int)
      requires Inv(lastStage)
      requires forall k | 0 <= k < |guest| :: |guest[k]| == 3
      requires lastStage ==> guest == []
      modifies this`src, this`dirtyLog, this`bitmap, this`dirtyPages, this`bulkStage, this`lastSeen, this`lastSent,
               this`lastOffset, this`cache, this`stream
      ensures bytes >= 0 && Sent(old(stream), stream, bytes) && Shape() && dirtyPages >= 0
      ensures Inv(lastStage) <==> (old(LosesMark()) ==> old(Spare(|blocks| - 1, lastOffset)))
      ensures Inv(lastStage) || !NoLoss()
      ensures bytes == 0 ==> AllClear(blocks, bitmap)
      ensures old(LosesMark()) ==>
                && bytes == 0 && bitmap == old(bitmap)[No(blocks, |blocks| - 1, old(lastOffset)) := false]
                && src == old(src) && dirtyLog == old(dirtyLog) && stream == old(stream) && cache == old(cache)
      ensures guest == [] ==> src == old(src) && dirtyLog == old(dirtyLog)
      ensures bytes > 0 ==>
                && dirtyPages < old(dirtyPages) && lastSeen.Some? && lastSeen.value < |blocks|
                && !IsMarked(blocks, bitmap, lastSeen.value, lastOffset)
                && Swept(blocks, old(bitmap), bitmap, old(CursorBlock()), old(FirstOffset()), lastSeen.value,
                         lastOffset)
                && (!Before(lastSeen.value, lastOffset, old(CursorBlock()), old(FirstOffset())) ==>
                    bulkStage == old(bulkStage))
      ensures old(bulkStage) && !old(LosesMark()) ==>
                bitmap == if bytes == 0 then old(bitmap)
                          else old(bitmap)[No(blocks, lastSeen.value, lastOffset) := false]
    {
      hide Scanning, Stopped, Settled, StreamOk, MarkedAfter, Inv, LosesMark, AllClear, KeysOk, BlocksOk, GapsOk,
           Marked, Outcome, Playable, Swept, CacheOk, No, IsPage, Safe, IsMarked, RecvEnd, CacheIdle, NoLoss;
      var block: nat := if lastSeen.Some? then lastSeen.value else 0;
      var offset: nat := lastOffset;
      ghost var at := Start(block, offset, lastSeen.Some?, bulkStage, src, dirtyLog, bitmap, cache, stream);
      StartScan(lastStage, at);
      bytes := Scan(block, offset, lastStage, guest, allocates, at);
    }

    // Where a scan begins to look.
    ghost function CursorBlock(): nat
      reads this`lastSeen
    {
      if lastSeen.Some? then lastSeen.value else 0
    }

    ghost function FirstOffset(): nat
      reads this`bulkStage, this`lastOffset
    {
      if bulkStage && lastOffset > 0 then lastOffset + 1 else lastOffset
    }

    // A scan that started in the state `at` has ended.
    ghost predicate Scanned(bytes: int, lastStage: bool, at: Start)
      reads this
    {
      && Shape() && dirtyPages >= 0 && (bytes == 0 ==> AllClear(blocks, bitmap))
      && if at.Doomed(blocks) then
           && bytes == 0 && bitmap == at.bitmap[No(blocks, at.b0, at.o0) := false]
           && src == at.src && dirtyLog == at.dirtyLog && stream == at.stream && cache == at.cache
           && (Inv(lastStage) <==> Spare(at.b0, at.o0)) && (NoLoss() <==> Spare(at.b0, at.o0))
         else
           && Inv(lastStage)
           && (bytes > 0 ==> && lastSeen.Some? && lastSeen.value < |blocks| && OneByOne(lastSeen.value, lastOffset, at)
                              && Swept(blocks, at.bitmap, bitmap, at.b0, at.o1(), lastSeen.value, lastOffset))
           && (bytes == 0 && at.bulk ==> bitmap == at.bitmap)
    }

    // The loop of ram_find_and_save_block, and the cursor it leaves.
    method Scan(block0: nat, offset0: nat, lastStage: bool, guest: seq<seq<seq<Write>>>, allocates: bool,
                ghost at: Start)
      returns (bytes: int)
      requires Scanning(block0, offset0, false, lastStage, at) && Cursor(at) && dirtyPages >= 0 && block0 < |blocks|
      requires forall k | 0 <= k < |guest| :: |guest[k]| == 3
      requires lastStage ==> guest == []
      modifies this`src, this`dirtyLog, this`bitmap, this`dirtyPages, this`bulkStage, this`lastSeen, this`lastSent,
               this`lastOffset, this`cache, this`stream
      ensures bytes >= 0 && Scanned(bytes, lastStage, at)
      ensures Sent(old(stream), stream, bytes)
      ensures guest == [] ==> src == old(src) && dirtyLog == old(dirtyLog)
      ensures bytes > 0 ==>
                && dirtyPages < old(dirtyPages) && lastSeen.Some? && lastSeen.value < |blocks|
                && !IsMarked(blocks, bitmap, lastSeen.value, lastOffset)
    {
      hide Scanning, Stopped, Settled, StreamOk, MarkedAfter, Inv, AllClear, Marked, GapsOk, KeysOk, BlocksOk, Shape,
           Scanned;
      var block, offset;
      block, offset, bytes := Rounds(block0, offset0, lastStage, guest, allocates, at);
      lastSeen := Some(block);
      lastOffset := offset;
      EndScan(block, offset, bytes, lastStage, at);
    }

    // The loop of ram_find_and_save_block.
    method Rounds(block0: nat, offset0: nat, lastStage: bool, guest: seq<seq<seq<Write>>>, allocates: bool,
                  ghost at: Start)
      returns (block: nat, offset: nat, bytes: int)
      requires Scanning(block0, offset0, false, lastStage, at) && Cursor(at) && dirtyPages >= 0 && block0 < |blocks|
      requires forall k | 0 <= k < |guest| :: |guest[k]| == 3
      requires lastStage ==> guest == []
      modifies this`src, this`dirtyLog, this`bitmap, this`dirtyPages, this`bulkStage, this`lastSent, this`cache,
               this`stream
      ensures Stopped(block, offset, bytes, lastStage, at) && bytes >= 0 && dirtyPages >= 0
      ensures guest == [] ==> src == old(src) && dirtyLog == old(dirtyLog)
      ensures Sent(old(stream), stream, bytes)
      ensures block < |blocks| && (bytes > 0 ==>
                                   dirtyPages < old(dirtyPages) && !IsMarked(blocks, bitmap, block, offset))
    {
      hide Shape, Scanning, Stopped, Cursor, MsgBytes, IsMarked;
      block, offset, bytes := block0, offset0, 0;
      var completeRound := false;
      var saves := 0;
      var stop := false;
      while !stop
        invariant Cursor(at) && bytes >= 0 && dirtyPages >= 0 && block < |blocks|
        invariant Sent(old(stream), stream, bytes)
        invariant guest == [] ==> src == old(src) && dirtyLog == old(dirtyLog)
        invariant dirtyPages <= old(dirtyPages) &&
                  (bytes > 0 ==> stop && dirtyPages < old(dirtyPages) && !IsMarked(blocks, bitmap, block, offset))
        invariant if stop then Stopped(block, offset, bytes, lastStage, at)
                  else Scanning(block, offset, completeRound, lastStage, at)
        decreases !stop, !completeRound, |blocks| - block, dirtyPages
      {
        var g := if saves < |guest| then guest[saves] else [[], [], []];
        saves := saves + 1;
        block, offset, completeRound, bytes, stop := Turn(block, offset, completeRound, lastStage, g, allocates, at);
      }
    }

    lemma EndScan(b: nat, o: nat, bytes: int, lastStage: bool, at: Start)
      requires Stopped(b, o, bytes, lastStage, at) && lastSeen == Some(b) && lastOffset == o
      ensures Scanned(bytes, lastStage, at)
    {
      hide Marked, GapsOk, KeysOk, Outcome, RecvEnd, Playable, Swept, MarkedAfter;
      if at.Doomed(blocks) {
        MarkLost(b, o, lastStage, at.b0, at.o0, at.bitmap);
      }
    }

    // A mark that was taken without sending the page is missed exactly if the page needs it.
    lemma MarkLost(b: nat, o: nat, lastStage: bool, b0: nat, o0: nat, before: seq<bool>)
      requires Taken(b0, o0, lastStage, before) && !bulkStage && lastSeen == Some(b) && lastOffset == o
      requires b < |blocks| && o <= blocks[b].pages
      ensures Inv(lastStage) <==> Spare(b0, o0)
      ensures NoLoss() <==> Spare(b0, o0)
    {
      hide Marked, GapsOk, KeysOk, Outcome, RecvEnd, Playable;
      forall c: nat, q: nat | IsPage(blocks, c, q) && (c != b0 || q != o0)
        ensures Safe(c, q)
      {
        if No(blocks, b0, o0) == No(blocks, c, q) {
          NoInjective(blocks, total, b0, o0, c, q);
        }
      }
      assert Safe(b0, o0) <==> Spare(b0, o0);
    }

    // One turn of the loop of ram_find_and_save_block.
    method Turn(block0: nat, offset0: nat, round0: bool, lastStage: bool, guest: seq<seq<Write>>, allocates: bool,
                ghost at: Start)
      returns (block: nat, offset: nat, completeRound: bool, bytes: int, stop: bool)
      requires Scanning(block0, offset0, round0, lastStage, at) && Cursor(at)
      requires |guest| == 3 && (lastStage ==> guest == [[], [], []])
      modifies this`src, this`dirtyLog, this`bitmap, this`dirtyPages, this`bulkStage, this`lastSent, this`cache,
               this`stream
      ensures bytes >= 0 && Sent(old(stream), stream, bytes) && dirtyPages >= 0 && block < |blocks|
      ensures if stop then Stopped(block, offset, bytes, lastStage, at)
              else Scanning(block, offset, completeRound, lastStage, at)
      ensures stop || ((round0 ==> completeRound) &&
                       (round0 == completeRound ==>
                        block0 < block || (block0 == block && dirtyPages < old(dirtyPages))))
      ensures guest == [[], [], []] ==> src == old(src) && dirtyLog == old(dirtyLog)
      ensures dirtyPages <= old(dirtyPages)
      ensures bytes > 0 ==> stop && dirtyPages < old(dirtyPages) && !IsMarked(blocks, bitmap, block, offset)
    {
      hide Settled, StreamOk, Taken, Found, ClearFrom, MarkedAfter, Passing;
      ghost var before := bitmap;
      ClearStart(blocks, bitmap, at.b0, at.o1());
      ghost var from: nat := if bulkStage && offset0 > 0 then offset0 + 1 else offset0;
      block, completeRound, bytes, stop := block0, round0, 0, false;
      offset := Search(block, offset0, lastStage);
      PassingOn(blocks, total, at.bitmap, before, bitmap, at.b0, at.o1(), block, offset0, from, offset, round0);
      if completeRound && lastSeen == Some(block) && offset >= lastOffset {
        GiveUp(offset, from, lastStage, at, before);
        stop := true;
      } else if offset >= blocks[block].pages {
        block, completeRound := NextBlock(block, offset0, completeRound, lastStage, at);
        offset := 0;
      } else {
        bytes := SaveFound(block, from, offset, completeRound, lastStage, guest, allocates, at, before);
        stop := bytes > 0;
      }
    }

    // last_seen_block and last_offset are written only when the scan ends.
    ghost predicate Cursor(at: Start)
      reads this`lastSeen, this`lastOffset
    {
      lastSeen == (if at.seen then Some(at.b0) else None) && lastOffset == at.o0
    }

    lemma StartScan(lastStage: bool, at: Start)
      requires Inv(lastStage)
      requires at == Start(CursorBlock(), lastOffset, lastSeen.Some?, bulkStage, src, dirtyLog, bitmap, cache, stream)
      ensures Scanning(at.b0, at.o0, false, lastStage, at) && Cursor(at) && dirtyPages >= 0 && at.b0 < |blocks|
      ensures at.Doomed(blocks) <==> LosesMark()
    {
    }

    lemma StreamOkNow(lastStage: bool, b: nat)
      requires Settled(lastStage) && lastSent == Some(b) && b < |blocks| &&
               RecvEnd(stream, recvBlock) == Some(blocks[b].id)
      ensures StreamOk()
    {
    }

    // The first wrap of the scan ends the bulk stage.
    method EndBulk(lastStage: bool)
      requires Settled(lastStage)
      modifies this`bulkStage
      ensures Settled(lastStage) && !bulkStage
    {
      bulkStage := false;
    }

    // ---- the other steps of a migration ----

    // The guest runs between two steps of the migration thread.
    method GuestStep(writes: seq<Write>)
      requires Inv(false)
      modifies this`src, this`dirtyLog
      ensures Inv(false) && src == Written(old(src), total, writes) && |dirtyLog| == |old(dirtyLog)| == |src|
      ensures forall i | 0 <= i < |src| :: src[i] != old(src)[i] || old(dirtyLog)[i] ==> dirtyLog[i]
      ensures forall i | 0 <= i < |src| :: dirtyLog[i] <==> old(dirtyLog)[i] || IsWritten(total, writes, i)
    {
      hide Marked, GapsOk, Outcome, RecvEnd, Playable, MarkedAfter;
      GuestRun(writes);
      forall b: nat, o: nat | IsPage(blocks, b, o)
        ensures Safe(b, o) && CacheFits(b, o) && Arrives(b, o) != Broken
      {
        assert old(Safe(b, o)) && old(CacheFits(b, o));
      }
    }

    // migration_bitmap_sync between two steps.
    method SyncStep()
      requires Inv(false)
      modifies this`bitmap, this`dirtyLog, this`dirtyPages
      ensures Inv(false) && Synced(old(bitmap), old(dirtyLog), bitmap, dirtyLog)
      ensures forall b: nat, o: nat | IsPage(blocks, b, o) :: !dirtyLog[No(blocks, b, o)]
    {
      hide Marked, GapsOk, Outcome, RecvEnd, Playable;
      Sync();
      forall b: nat, o: nat | IsPage(blocks, b, o)
        ensures Arrives(b, o) != Broken && CacheFits(b, o)
        ensures old(IsMarked(blocks, bitmap, b, o)) ==> IsMarked(blocks, bitmap, b, o)
      {
        assert old(Arrives(b, o)) != Broken && old(CacheFits(b, o));
      }
    }

    // qemu_fflush reaches message k, whose page is read from guest memory only now.
    method Flush(k: nat, lastStage: bool)
      requires Inv(lastStage) && k < |stream| && stream[k].PageMsg? && stream[k].data.Live?
      modifies this`stream
      ensures Inv(lastStage) && old(stream[k].data.no) < |src|
      ensures stream == old(stream)[k := old(stream)[k].(data := Copied(src[old(stream)[k].data.no]))]
      ensures forall b: nat, o: nat | IsPage(blocks, b, o) :: old(UpToDate(b, o)) ==> UpToDate(b, o)
    {
      hide Marked, GapsOk, Outcome, Playable, MarkedAfter;
      ghost var before := stream;
      var no := stream[k].data.no;
      PlayableLive(stream, k, recvBlock, keys, |bitmap|);
      stream := stream[k := stream[k].(data := Copied(src[no]))];
      forall b: nat, o: nat | IsPage(blocks, b, o)
        ensures Arrives(b, o) != Broken && Safe(b, o) && (old(UpToDate(b, o)) ==> UpToDate(b, o))
        ensures (lastStage ==> bitmap[No(blocks, b, o)]) ==> CacheFits(b, o)
        ensures RecvEnd(stream, recvBlock) == RecvEnd(before, recvBlock)
      {
        assert old(Safe(b, o)) && old(Arrives(b, o)) != Broken;
        var key := (blocks[b].id, o);
        FlushMsg(before, k, recvBlock, key, Known(memory[key]), no, src[no]);
      }
      assert IsPage(blocks, 0, 0);
      FlushPlayable(before, k, recvBlock, keys, |bitmap|, src[no]);
    }

    // ---- the destination ----

    // What the first message makes of the page it names, if the load succeeds.
    ghost predicate Loads(m: Msg)
      reads this`memory, this`recvBlock
    {
      && RecvAfter(m, recvBlock).Some?
      && var key := (RecvAfter(m, recvBlock).value, m.h.offset);
         key in memory && Update(m, Known(memory[key])).Known?
    }

    // The destination has a block of this name.
    predicate HasBlock(id: string)
      reads this`memory
    {
      exists key | key in memory :: key.0 == id
    }

    /** One turn of ram_load, with its error exits: no block in hand, a block that the
        destination does not have, a delta that is too long or does not decode. The offset is
        not compared with the size of the block: it is up to the source to send one inside. */
    method LoadMsg() returns (ret: int)
      requires stream != [] && !IsLive(stream[0])
      requires var recv := RecvAfter(stream[0], recvBlock);
               recv.Some? && (stream[0].h.Continue? || HasBlock(recv.value)) ==>
                   (recv.value, stream[0].h.offset) in memory
      modifies this`stream, this`memory, this`recvBlock
      ensures ret == 0 <==> old(Loads(stream[0]))
      ensures ret == 0 ==> stream == old(stream)[1..] && recvBlock == RecvAfter(old(stream)[0], old(recvBlock)) &&
                           recvBlock.Some? && (recvBlock.value, old(stream)[0].h.offset) in old(memory)
      ensures ret == 0 ==> var key := (recvBlock.value, old(stream)[0].h.offset);
                           memory == old(memory)[key := Update(old(stream)[0], Known(old(memory)[key])).page]
    {
      var m := stream[0];
      if m.h.Named? {
        if !HasBlock(m.h.id) {
          recvBlock := None;
          return -22;
        }
        recvBlock := Some(m.h.id);
      } else if recvBlock.None? {
        return -22;
      }
      var key := (recvBlock.value, m.h.offset);
      match m {
        case ZeroMsg(_) =>
          memory := memory[key := ZeroPage()];
        case PageMsg(_, data) =>
          memory := memory[key := data.page];
        case XbzrleMsg(_, delta) =>
          if |delta| > PAGE_SIZE {
            return -22;
          }
          var ok, page := DecodeBuffer(delta, memory[key]);
          if !ok {
            return -22;
          }
          memory := memory[key := page];
      }
      stream := stream[1..];
      return 0;
    }

    // Under the invariant the first message can be loaded.
    lemma HeadLoads(lastStage: bool)
      requires Inv(lastStage) && stream != [] && !IsLive(stream[0])
      ensures Loads(stream[0])
    {
      hide Marked, GapsOk, Apply, MarkedAfter;
      var m := stream[0];
      var key := (RecvAfter(m, recvBlock).value, m.h.offset);
      assert key in keys;
      var b: nat, o: nat :| IsPage(blocks, b, o) && key == (blocks[b].id, o);
      assert Arrives(b, o) != Broken;
      BrokenStays(stream[1..], RecvAfter(m, recvBlock), key);
    }

    // The destination takes the next message; the load does not fail.
    method LoadStep(lastStage: bool)
      requires Inv(lastStage) && stream != [] && !IsLive(stream[0])
      modifies this`stream, this`memory, this`recvBlock
      ensures Inv(lastStage) && stream == old(stream)[1..]
      ensures forall b: nat, o: nat | IsPage(blocks, b, o) :: Arrives(b, o) == old(Arrives(b, o))
    {
      hide Marked, GapsOk, Apply, MarkedAfter;
      HeadLoads(lastStage);
      var ret := LoadMsg();
      forall b: nat, o: nat | IsPage(blocks, b, o)
        ensures Arrives(b, o) == old(Arrives(b, o))
        ensures Safe(b, o) && ((lastStage ==> bitmap[No(blocks, b, o)]) ==> CacheFits(b, o))
      {
        assert old(Arrives(b, o)) != Broken && old(Safe(b, o));
      }
    }

    // ---- the end of the migration ----

    /** The state in which the last phase would take the last page from the bitmap
        without sending it, seen before the final sync. */
    ghost predicate LosesLastPage()
      requires Shape()
      reads this`src, this`dirtyLog, this`bitmap, this`dirtyPages, this`bulkStage, this`lastSeen, this`lastOffset
    {
      var b := |blocks| - 1;
      && bulkStage && lastSeen == Some(b) && 0 < lastOffset == blocks[b].pages - 1
      && (bitmap[No(blocks, b, lastOffset)] || dirtyLog[No(blocks, b, lastOffset)])
      && forall c: nat, q: nat | IsPage(blocks, c, q) && (c != b || q != lastOffset) ::
          !bitmap[No(blocks, c, q)] && !dirtyLog[No(blocks, c, q)]
    }

    ghost predicate AllUpToDate()
      requires Shape()
      reads this`src, this`dirtyLog, this`bitmap, this`dirtyPages, this`stream, this`memory, this`recvBlock
    {
      forall b: nat, o: nat | IsPage(blocks, b, o) :: UpToDate(b, o)
    }

    lemma EnterLastStage()
      requires Inv(false)
      ensures Inv(true)
    {
    }

    lemma NothingLeft()
      requires Inv(true) && AllClear(blocks, bitmap)
      requires forall b: nat, o: nat | IsPage(blocks, b, o) :: !dirtyLog[No(blocks, b, o)]
      ensures AllUpToDate()
    {
      hide Marked, GapsOk, KeysOk, Outcome, Playable;
      forall b: nat, o: nat | IsPage(blocks, b, o)
        ensures UpToDate(b, o)
      {
        assert Safe(b, o) && !IsMarked(blocks, bitmap, b, o);
      }
    }

    // The loop of ram_save_complete.
    method SaveAll(allocates: bool)
      requires Inv(true) && forall b: nat, o: nat | IsPage(blocks, b, o) :: !dirtyLog[No(blocks, b, o)]
      modifies this`dirtyLog, this`bitmap, this`dirtyPages, this`bulkStage, this`lastSeen, this`lastSent,
               this`lastOffset, this`cache, this`stream, this`src
      ensures Shape() && src == old(src) && (Inv(true) || !NoLoss())
      ensures Inv(true) <==> (old(LosesMark()) ==> old(UpToDate(|blocks| - 1, lastOffset)))
      ensures Inv(true) ==> AllUpToDate()
    {
      ghost var lost := LosesMark();
      assert Shape() && dirtyPages >= 0;
      ghost var spare := lost ==> UpToDate(|blocks| - 1, lastOffset);
      hide Settled, StreamOk, CursorOk, LosesMark, AllClear, Shape, UpToDate, NoLoss;
      var bytes := 1;
      while bytes != 0
        invariant Shape() && dirtyPages >= 0 && src == old(src) && dirtyLog == old(dirtyLog) &&
                  bytes >= 0
        invariant Inv(true) || !NoLoss()
        invariant bytes == 0 ==> AllClear(blocks, bitmap) && (Inv(true) <==> spare)
        invariant bytes != 0 ==> Inv(true) && LosesMark() == lost && (lost ==> spare == Spare(|blocks| - 1, lastOffset))
        decreases bytes != 0, dirtyPages
      {
        bytes := FindAndSaveBlock(true, [], allocates);
        if bytes > 0 {
          CursorIsClear();
        }
      }
      if spare {
        NothingLeft();
      }
    }

    lemma CursorIsClear()
      requires lastSeen.Some? && lastSeen.value < |blocks| && !IsMarked(blocks, bitmap, lastSeen.value, lastOffset)
      ensures !LosesMark()
    {
    }

    /** ram_save_complete, with the guest stopped: a last sync, then every marked
        page. Afterwards the stream brings every page up to date, unless the last page is
        lost: in the state LosesLastPage nothing more is sent, so that page must be up to
        date before. */
    method Complete(allocates: bool)
      requires Inv(false)
      modifies this`dirtyLog, this`bitmap, this`dirtyPages, this`bulkStage, this`lastSeen, this`lastSent,
               this`lastOffset, this`cache, this`stream, this`src
      ensures Shape() && src == old(src) && (Inv(true) || !NoLoss())
      ensures Inv(true) <==> (old(LosesLastPage()) ==> old(UpToDate(|blocks| - 1, lastOffset)))
      ensures Inv(true) ==> AllUpToDate()
    {
      hide Marked, GapsOk, KeysOk, Outcome, Playable, MarkedAfter;
      SyncStep();
      EnterLastStage();
      assert LosesMark() <==> old(LosesLastPage()) by { SyncedDoom(old(bitmap), old(dirtyLog)); }
      SaveAll(allocates);
    }

    lemma SyncedDoom(bitmap0: seq<bool>, log0: seq<bool>)
      requires Shape() && Synced(bitmap0, log0, bitmap, dirtyLog)
      requires forall b: nat, o: nat | IsPage(blocks, b, o) :: !dirtyLog[No(blocks, b, o)]
      ensures LosesMark() <==>
              var b := |blocks| - 1;
              && bulkStage && lastSeen == Some(b) && 0 < lastOffset == blocks[b].pages - 1
              && (bitmap0[No(blocks, b, lastOffset)] || log0[No(blocks, b, lastOffset)])
              && forall c: nat, q: nat | IsPage(blocks, c, q) && (c != b || q != lastOffset) ::
                   !bitmap0[No(blocks, c, q)] && !log0[No(blocks, c, q)]
    {
      hide Marked, GapsOk, KeysOk;
      forall c: nat, q: nat | IsPage(blocks, c, q)
        ensures IsMarked(blocks, bitmap, c, q) <==> bitmap0[No(blocks, c, q)] || log0[No(blocks, c, q)]
      {
      }
    }

    /** The stream is flushed and loaded to its end: if every page was up to date, the
        destination then holds the memory of the source. */
    method Drain(lastStage: bool)
      requires Inv(lastStage)
      modifies this`stream, this`memory, this`recvBlock
      ensures Inv(lastStage) && stream == []
      ensures old(AllUpToDate()) ==> Same()
    {
      assert Shape();
      hide Settled, StreamOk, CursorOk, Shape, Same, UpToDate;
      FlushAll(lastStage);
      while stream != []
        invariant Shape() && Inv(lastStage) && (old(AllUpToDate()) ==> AllUpToDate())
        invariant forall i | 0 <= i < |stream| :: !IsLive(stream[i])
        decreases |stream|
      {
        LoadOn(lastStage);
      }
      if old(AllUpToDate()) {
        Arrived(lastStage);
      }
    }

    // The destination holds the memory of the source.
    ghost predicate Same()
      reads this`src, this`memory
    {
      forall b: nat, o: nat | IsPage(blocks, b, o) ::
        && (blocks[b].id, o) in memory && No(blocks, b, o) < |src|
        && memory[(blocks[b].id, o)] == src[No(blocks, b, o)]
    }

    method LoadOn(lastStage: bool)
      requires Inv(lastStage) && Shape() && stream != [] && !IsLive(stream[0])
      modifies this`stream, this`memory, this`recvBlock
      ensures Inv(lastStage) && stream == old(stream)[1..] && Shape()
      ensures old(AllUpToDate()) ==> AllUpToDate()
    {
      hide Settled, StreamOk, CursorOk, Shape, Outcome;
      LoadStep(lastStage);
      if old(AllUpToDate()) {
        forall b: nat, o: nat | IsPage(blocks, b, o)
          ensures UpToDate(b, o)
        {
          assert old(UpToDate(b, o));
        }
      }
    }

    method FlushAll(lastStage: bool)
      requires Inv(lastStage) && Shape()
      modifies this`stream
      ensures Inv(lastStage) && Shape() && (old(AllUpToDate()) ==> AllUpToDate())
      ensures forall i | 0 <= i < |stream| :: !IsLive(stream[i])
    {
      hide Settled, StreamOk, CursorOk, Shape, UpToDate;
      var k := 0;
      while k < |stream|
        invariant 0 <= k <= |stream| && Shape() && Inv(lastStage) && (old(AllUpToDate()) ==> AllUpToDate())
        invariant forall i | 0 <= i < k :: !IsLive(stream[i])
      {
        if IsLive(stream[k]) {
          Flush(k, lastStage);
        }
        k := k + 1;
      }
    }

    lemma Arrived(lastStage: bool)
      requires Inv(lastStage) && AllUpToDate() && stream == []
      ensures Same()
    {
      hide Marked, GapsOk, KeysOk, Playable;
      forall b: nat, o: nat | IsPage(blocks, b, o)
        ensures (blocks[b].id, o) in memory && memory[(blocks[b].id, o)] == src[No(blocks, b, o)]
      {
        assert UpToDate(b, o) && Arrives(b, o) != Broken;
      }
    }

    // ---- whole runs ----

    // One step of the migration thread, the guest, the socket or the destination.
    method Do(step: Step)
      requires Inv(false)
      modifies this
      ensures Shape() && (Inv(false) || !NoLoss())
    {
      hide StreamOk, CursorOk, CacheOk, NoLoss, Playable, CacheIdle;
      match step {
        case Guest(writes) => GuestStep(writes);
        case SyncLog => SyncStep();
        case Save(guest, allocates) =>
          var calm := forall k | 0 <= k < |guest| :: |guest[k]| == 3;
          var _ := FindAndSaveBlock(false, if calm then guest else [], allocates);
        case FlushTo(k) =>
          if k < |stream| && IsLive(stream[k]) {
            Flush(k, false);
          }
        case Load =>
          if stream != [] && !IsLive(stream[0]) {
            LoadStep(false);
          }
      }
    }

    /** A whole migration, with any schedule of its steps before the guest is stopped. It ends with the
        memory of the guest at the destination, or some scan has lost a page: a page with no
        mark, not logged and not up to date. */
    method Migrate(steps: seq<Step>, allocates: bool) returns (lost: bool)
      requires Inv(false)
      modifies this
      ensures !lost ==> stream == [] && Same()
      ensures lost ==> Shape() && !NoLoss()
    {
      assert Shape();
      hide Inv, NoLoss, Same, AllUpToDate;
      var k := 0;
      while k < |steps|
        invariant 0 <= k <= |steps| && Shape() && Inv(false)
      {
        Do(steps[k]);
        if !Lossless() {
          return true;
        }
        k := k + 1;
      }
      Complete(allocates);
      if !Lossless() {
        return true;
      }
      Drain(true);
      return false;
    }
  }

  /** A migration from ram_save_setup to the end, with any schedule of the steps between. */
  method LiveMigration(blocks: seq<Block>, total: nat, src: seq<Page>, log: seq<bool>, memory: map<Key, Page>,
                       cacheSlots: nat, steps: seq<Step>, allocates: bool) returns (m: Migration, lost: bool)
    requires BlocksOk(blocks, total) && |src| == |log| >= total && |log| % BITS_PER_LONG == 0
    requires forall i | total <= i < |log| :: !log[i]
    requires KeysOk(blocks, memory.Keys)
    ensures fresh(m) && m.blocks == blocks
    ensures !lost ==> m.stream == [] && m.Same()
    ensures lost ==> m.Shape() && !m.NoLoss()
  {
    hide Migration.Inv, Migration.Same, Migration.NoLoss, Migration.Shape, KeysOk, BlocksOk;
    m := new Migration.Setup(blocks, total, src, log, memory, cacheSlots);
    lost := m.Migrate(steps, allocates);
  }

  // What can happen before the guest is stopped.
  datatype Step =
    | Guest(writes: seq<Write>)
    | SyncLog
    | Save(guest: seq<seq<seq<Write>>>, allocates: bool)
    | FlushTo(k: nat)
    | Load

  // A guest with one block of two pages.
  method TwoPages(page: Page) returns (m: Migration)
    ensures fresh(m) && m.blocks == [Block("ram", 0, 2)] && m.total == 2 && m.Inv(false) && m.bulkStage
    ensures m.lastSeen == None && m.lastOffset == 0 && |m.bitmap| == |m.dirtyLog| == |m.src| == BITS_PER_LONG
    ensures forall i | 0 <= i < BITS_PER_LONG :: !m.dirtyLog[i] && (m.bitmap[i] <==> i < 2)
  {
    var blocks := [Block("ram", 0, 2)];
    var none := seq(BITS_PER_LONG, _ => false);
    var src := seq(BITS_PER_LONG, _ => page);
    var memory := map[("ram", 0) := page, ("ram", 1) := page];
    assert KeysOk(blocks, memory.Keys) by {
      assert IsPage(blocks, 0, 0) && IsPage(blocks, 0, 1);
    }
    assert BlocksOk(blocks, 2);
    hide KeysOk, BlocksOk, IsPage, Migration.Inv;
    m := new Migration.Setup(blocks, 2, src, none, memory, 0);
  }

  // The first two scans of the bulk stage send the two pages in order.
  method BothSent(page: Page) returns (m: Migration)
    ensures fresh(m) && m.blocks == [Block("ram", 0, 2)] && m.total == 2 && m.Inv(false) && m.bulkStage
    ensures m.lastSeen == Some(0) && m.lastOffset == 1 && |m.bitmap| == |m.dirtyLog| == |m.src| == BITS_PER_LONG
    ensures !m.bitmap[0] && !m.bitmap[1] && forall i | 0 <= i < BITS_PER_LONG :: !m.dirtyLog[i]
  {
    m := TwoPages(page);
    hide Migration.Inv, Migration.Shape, Sent, Swept, AllClear;
    ghost var full := m.bitmap;
    var bytes := m.FindAndSaveBlock(false, [], true);
    if bytes == 0 {
      StillMarked(m.blocks, m.bitmap, 0);
    }
    FirstOnTheWay(m.blocks, full, m.bitmap, 0, m.lastSeen.value, m.lastOffset);
    ghost var half := m.bitmap;
    bytes := m.FindAndSaveBlock(false, [], true);
    if bytes == 0 {
      StillMarked(m.blocks, m.bitmap, 1);
    }
    FirstOnTheWay(m.blocks, half, m.bitmap, 1, m.lastSeen.value, m.lastOffset);
  }

  lemma StillMarked(blocks: seq<Block>, bitmap: seq<bool>, o: nat)
    requires blocks == [Block("ram", 0, 2)] && o < 2 <= |bitmap| && bitmap[o]
    ensures !AllClear(blocks, bitmap)
  {
    assert IsPage(blocks, 0, o) && IsMarked(blocks, bitmap, 0, o);
  }

  // A bulk scan that starts at the block takes its first marked page.
  lemma FirstOnTheWay(blocks: seq<Block>, was: seq<bool>, now: seq<bool>, first: nat, b: nat, o: nat)
    requires blocks == [Block("ram", 0, 2)] && Swept(blocks, was, now, 0, 0, b, o) && |was| >= 2
    requires now == was[No(blocks, b, o) := false]
    requires first < 2 && was[first] && (first == 1 ==> !was[0])
    ensures b == 0 && o == first
  {
    assert IsPage(blocks, 0, first) && IsMarked(blocks, was, 0, first);
  }

  // Everything sent is loaded, then the guest changes the second page, and a sync marks it.
  method ChangedAgain(page: Page, other: Page) returns (m: Migration)
    requires page != other
    ensures fresh(m) && m.blocks == [Block("ram", 0, 2)] && m.Inv(false) && m.Shape() && m.stream == []
    ensures m.LosesMark() && m.lastOffset == 1 && IsPage(m.blocks, 0, 1) && !m.Spare(0, 1)
    ensures |m.dirtyLog| == |m.src| == BITS_PER_LONG && !m.dirtyLog[0] && !m.dirtyLog[1]
    ensures ("ram", 1) in m.memory && m.memory[("ram", 1)] != m.src[1]
  {
    hide Migration.Shape, Migration.Inv, Migration.AllUpToDate, Migration.LosesMark, Migration.Spare, Migration.Same;
    m := BothSent(page);
    m.Drain(false);
    HeldPage(m);
    var w := Write(1, if m.memory[("ram", 1)] == page then other else page);
    m.GuestStep([w]);
    assert [w][0] == w && m.src[1] == w.data && m.dirtyLog[1];
    m.SyncStep();
    assert IsPage(m.blocks, 0, 0) && IsPage(m.blocks, 0, 1);
    MarkedAgain(m);
  }

  /** A run that loses a page. Two scans send the two pages, everything sent is loaded, the
      guest changes the second page, and a sync marks it again. The next scan takes that
      mark and sends nothing: no mark is left, no log entry, no message, and the
      destination holds another content. */
  method LostPage(page: Page, other: Page) returns (m: Migration)
    requires page != other
    ensures fresh(m) && m.Shape() && m.blocks == [Block("ram", 0, 2)] && AllClear(m.blocks, m.bitmap) && m.stream == []
    ensures |m.dirtyLog| == |m.src| == BITS_PER_LONG && !m.dirtyLog[0] && !m.dirtyLog[1] && !m.NoLoss()
    ensures ("ram", 1) in m.memory && m.memory[("ram", 1)] != m.src[1]
  {
    hide Sent, Swept, AllClear, Migration.Shape, Migration.Inv, Migration.LosesMark, Migration.Spare, Migration.NoLoss;
    m := ChangedAgain(page, other);
    var _ := m.FindAndSaveBlock(false, [], true);
  }

  lemma HeldPage(m: Migration)
    requires m.blocks == [Block("ram", 0, 2)] && m.Inv(false)
    ensures ("ram", 1) in m.memory
  {
    assert IsPage(m.blocks, 0, 1) && m.Arrives(0, 1) != Broken;
  }

  lemma MarkedAgain(m: Migration)
    requires m.blocks == [Block("ram", 0, 2)] && m.Inv(false) && m.bulkStage && m.lastSeen == Some(0) &&
             m.lastOffset == 1
    requires |m.bitmap| == |m.src| == |m.dirtyLog| == BITS_PER_LONG && m.stream == [] && !m.bitmap[0] && m.bitmap[1]
    requires !m.dirtyLog[1] && ("ram", 1) in m.memory && m.memory[("ram", 1)] != m.src[1]
    ensures m.Shape() && m.LosesMark() && IsPage(m.blocks, 0, 1) && !m.Spare(0, 1)
  {
    assert IsPage(m.blocks, 0, 1) && IsMarked(m.blocks, m.bitmap, 0, 1);
  }

  /** Where and in what state a scan started. */
  datatype Start = Start(b0: nat, o0: nat, seen: bool, bulk: bool, src: seq<Page>, dirtyLog: seq<bool>,
                         bitmap: seq<bool>, cache: seq<CacheItem>, stream: seq<Msg>)
  {
    // In the bulk stage the page at the cursor itself is skipped.
    ghost function o1(): nat {
      if bulk && o0 > 0 then o0 + 1 else o0
    }

    ghost predicate Doomed(blocks: seq<Block>) {
      && blocks != [] && bulk && seen && b0 == |blocks| - 1 && 0 < o0 == blocks[b0].pages - 1 &&
         IsMarked(blocks, bitmap, b0, o0)
      && forall c: nat, q: nat | IsPage(blocks, c, q) && (c != b0 || q != o0) :: !IsMarked(blocks, bitmap, c, q)
    }
  }
}
