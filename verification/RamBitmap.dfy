/**
 Page bitmaps over the RAM blocks of arch_init.c. Offsets are counted in pages.
*/
module RamBitmap {

  datatype Block = Block(id: string, base: nat, pages: nat)

  const BITS_PER_LONG: nat := 64

  // Blocks are non-empty, do not overlap and carry different names; gaps are allowed.
  ghost predicate BlocksOk(blocks: seq<Block>, total: nat) {
    && blocks != []
    && (forall b | 0 <= b < |blocks| :: blocks[b].pages > 0 && blocks[b].base + blocks[b].pages <= total)
    && (forall b, c | 0 <= b < |blocks| && 0 <= c < |blocks| && b != c ::
          blocks[b].id != blocks[c].id &&
          (blocks[b].base + blocks[b].pages <= blocks[c].base || blocks[c].base + blocks[c].pages <= blocks[b].base))
  }

  ghost predicate InBlock(blocks: seq<Block>, b: nat, i: nat) {
    b < |blocks| && blocks[b].base <= i < blocks[b].base + blocks[b].pages
  }

  ghost predicate InBlocks(blocks: seq<Block>, i: nat) {
    exists b: nat :: InBlock(blocks, b, i)
  }

  // The marked pages that lie in some block.
  ghost function Marked(blocks: seq<Block>, bitmap: seq<bool>): set<nat> {
    set i: nat | i < |bitmap| && bitmap[i] && InBlocks(blocks, i)
  }

  lemma MarkBit(blocks: seq<Block>, bitmap: seq<bool>, i: nat)
    requires i < |bitmap| && InBlocks(blocks, i)
    ensures Marked(blocks, bitmap[i := true]) == Marked(blocks, bitmap) + {i}
    ensures Marked(blocks, bitmap[i := false]) == Marked(blocks, bitmap) - {i}
    ensures i in Marked(blocks, bitmap) <==> bitmap[i]
  {
  }

  /** Bits outside the blocks stay as ram_save_setup leaves them: set in the gaps,
      so that they are never counted as newly dirty, and clear past the last block. */
  ghost predicate GapsOk(blocks: seq<Block>, total: nat, bitmap: seq<bool>, log: seq<bool>)
    requires |bitmap| == |log|
  {
    forall i: nat | i < |bitmap| && !InBlocks(blocks, i) :: if i < total then bitmap[i] else !bitmap[i] && !log[i]
  }

  // Taking a marked page of a block off the bitmap.
  lemma ClearMark(blocks: seq<Block>, total: nat, bitmap: seq<bool>, log: seq<bool>, b: nat, i: nat)
    requires |bitmap| == |log| && GapsOk(blocks, total, bitmap, log) && InBlock(blocks, b, i) && i < |bitmap| &&
             bitmap[i]
    ensures GapsOk(blocks, total, bitmap[i := false], log)
    ensures |Marked(blocks, bitmap[i := false])| == |Marked(blocks, bitmap)| - 1
  {
    assert InBlocks(blocks, i);
    MarkBit(blocks, bitmap, i);
  }

  // ---- word-wise merge ----

  // The words of `log` that cover [lo, hi) are or-ed into the bitmap.
  function OrRange(bitmap: seq<bool>, log: seq<bool>, lo: nat, hi: nat): (r: seq<bool>)
    requires |bitmap| == |log| && lo <= hi <= |bitmap|
    ensures |r| == |bitmap|
    ensures forall i | 0 <= i < |r| :: r[i] == (bitmap[i] || (lo <= i < hi && log[i]))
  {
    seq(|bitmap|, i requires 0 <= i < |bitmap| => bitmap[i] || (lo <= i < hi && log[i]))
  }

  function ClearRange(log: seq<bool>, lo: nat, hi: nat): (r: seq<bool>)
    requires lo <= hi <= |log|
    ensures |r| == |log|
    ensures forall i | 0 <= i < |r| :: r[i] == (log[i] && !(lo <= i < hi))
  {
    seq(|log|, i requires 0 <= i < |log| => log[i] && !(lo <= i < hi))
  }

  // ctpopl of the bits of [lo, hi) that are in the log and not yet in the bitmap.
  function NewDirty(bitmap: seq<bool>, log: seq<bool>, lo: nat, hi: nat): nat
    requires |bitmap| == |log| && lo <= hi <= |bitmap|
    decreases hi - lo
  {
    if lo == hi then 0 else NewDirty(bitmap, log, lo, hi - 1) + (if log[hi - 1] && !bitmap[hi - 1] then 1 else 0)
  }

  // The population count of the new bits is the growth of the set of marked pages.
  lemma {:induction false} NewDirtyIsGrowth(blocks: seq<Block>, total: nat, bitmap: seq<bool>, log: seq<bool>, lo: nat,
                                            hi: nat)
    requires |bitmap| == |log| && lo <= hi <= |bitmap| && GapsOk(blocks, total, bitmap, log)
    ensures |Marked(blocks, OrRange(bitmap, log, lo, hi))| == |Marked(blocks, bitmap)| + NewDirty(bitmap, log, lo, hi)
    decreases hi - lo
  {
    if lo == hi {
      assert OrRange(bitmap, log, lo, hi) == bitmap;
    } else {
      NewDirtyIsGrowth(blocks, total, bitmap, log, lo, hi - 1);
      var before, after := OrRange(bitmap, log, lo, hi - 1), OrRange(bitmap, log, lo, hi);
      if log[hi - 1] && !bitmap[hi - 1] {
        assert after == before[hi - 1 := true];
        MarkBit(blocks, before, hi - 1);
      } else {
        assert after == before;
      }
    }
  }

  /** What synchronising does to the two maps, page by page: a logged page becomes
      marked as it leaves the log, and nothing else becomes marked. */
  ghost predicate Synced(bitmap: seq<bool>, log: seq<bool>, bitmap': seq<bool>, log': seq<bool>) {
    && |bitmap| == |log| == |bitmap'| == |log'|
    && forall i | 0 <= i < |bitmap| ::
         && (log'[i] ==> log[i])
         && (bitmap'[i] <==> bitmap[i] || (log[i] && !log'[i]))
  }

  lemma SyncedOnce(bitmap: seq<bool>, log: seq<bool>, lo: nat, hi: nat)
    requires |bitmap| == |log| && lo <= hi <= |bitmap|
    ensures Synced(bitmap, log, OrRange(bitmap, log, lo, hi), ClearRange(log, lo, hi))
  {
  }

  lemma SyncedGaps(blocks: seq<Block>, total: nat, bitmap: seq<bool>, log: seq<bool>, bitmap': seq<bool>,
                   log': seq<bool>)
    requires Synced(bitmap, log, bitmap', log') && GapsOk(blocks, total, bitmap, log)
    ensures GapsOk(blocks, total, bitmap', log')
  {
  }

  // ---- the order of the scan ----

  predicate IsPage(blocks: seq<Block>, b: nat, o: nat) {
    b < |blocks| && o < blocks[b].pages
  }

  function No(blocks: seq<Block>, b: nat, o: nat): nat
    requires b < |blocks|
  {
    blocks[b].base + o
  }

  ghost predicate IsMarked(blocks: seq<Block>, bitmap: seq<bool>, b: nat, o: nat)
    requires b < |blocks|
  {
    No(blocks, b, o) < |bitmap| && bitmap[No(blocks, b, o)]
  }

  predicate Before(c: nat, q: nat, b: nat, o: nat) {
    c < b || (c == b && q < o)
  }

  // Every page from (b0, o0) up to (b, o) is unmarked.
  ghost predicate ClearFrom(blocks: seq<Block>, bitmap: seq<bool>, b0: nat, o0: nat, b: nat, o: nat) {
    forall c: nat, q: nat | IsPage(blocks, c, q) && !Before(c, q, b0, o0) && Before(c, q, b, o) ::
        !IsMarked(blocks, bitmap, c, q)
  }

  // Every page from (b0, o0) to the end, and every page before (b, o), is unmarked.
  ghost predicate ClearAround(blocks: seq<Block>, bitmap: seq<bool>, b0: nat, o0: nat, b: nat, o: nat) {
    ClearFrom(blocks, bitmap, b0, o0, |blocks|, 0) && ClearFrom(blocks, bitmap, 0, 0, b, o)
  }

  ghost predicate AllClear(blocks: seq<Block>, bitmap: seq<bool>) {
    forall c: nat, q: nat | IsPage(blocks, c, q) :: !IsMarked(blocks, bitmap, c, q)
  }

  // Every page after (b, o) is marked.
  ghost predicate MarkedAfter(blocks: seq<Block>, bitmap: seq<bool>, b: nat, o: nat) {
    forall c: nat, q: nat | IsPage(blocks, c, q) && Before(b, o, c, q) :: IsMarked(blocks, bitmap, c, q)
  }

  // What one search of a block returns: the first marked page at or after o, which it clears.
  ghost predicate Found(blocks: seq<Block>, bitmap: seq<bool>, bitmap': seq<bool>, b: nat, o: nat, o': nat) {
    && b < |blocks| && o <= o' <= blocks[b].pages
    && (forall q: nat | o <= q < o' :: !IsMarked(blocks, bitmap, b, q))
    && if o' < blocks[b].pages then
         IsMarked(blocks, bitmap, b, o') && bitmap' == bitmap[No(blocks, b, o') := false]
       else
         bitmap' == bitmap
  }

  lemma FoundAdvances(blocks: seq<Block>, bitmap: seq<bool>, bitmap': seq<bool>, b0: nat, o0: nat, b: nat, o: nat,
                      o': nat)
    requires Found(blocks, bitmap, bitmap', b, o, o')
    ensures ClearFrom(blocks, bitmap, b0, o0, b, o) ==> ClearFrom(blocks, bitmap', b0, o0, b, o')
    ensures ClearFrom(blocks, bitmap, b0, o0, |blocks|, 0) ==> ClearFrom(blocks, bitmap', b0, o0, |blocks|, 0)
    ensures o' == blocks[b].pages && ClearFrom(blocks, bitmap, b0, o0, b, o) ==>
            ClearFrom(blocks, bitmap', b0, o0, b + 1, 0)
  {
    forall c: nat, q: nat | IsPage(blocks, c, q) && IsMarked(blocks, bitmap', c, q)
      ensures IsMarked(blocks, bitmap, c, q)
    {
    }
  }

  lemma NoInjective(blocks: seq<Block>, total: nat, b: nat, o: nat, c: nat, q: nat)
    requires BlocksOk(blocks, total) && IsPage(blocks, b, o) && IsPage(blocks, c, q) &&
             No(blocks, b, o) == No(blocks, c, q)
    ensures b == c && o == q
  {
  }

  // Giving up at (b0, o) with o >= o0 leaves nothing marked but what lies between o0 and o1.
  lemma GiveUpClear(blocks: seq<Block>, bitmap: seq<bool>, b0: nat, o1: nat, o: nat)
    requires ClearAround(blocks, bitmap, b0, o1, b0, o)
    ensures o >= o1 ==> AllClear(blocks, bitmap)
    ensures forall c: nat, q: nat | IsPage(blocks, c, q) && (c != b0 || !(o <= q < o1)) ::
              !IsMarked(blocks, bitmap, c, q)
  {
  }

  /** In the bulk stage a search that comes back empty was on the block of the
      cursor, and the cursor was on its last page or the block has one page. */
  lemma BulkEndsHere(blocks: seq<Block>, bitmap: seq<bool>, bitmap': seq<bool>, b0: nat, o0: nat, b: nat, from: nat,
                     o': nat)
    requires b0 < |blocks| && o0 < blocks[b0].pages && MarkedAfter(blocks, bitmap, b0, o0)
    requires Found(blocks, bitmap, bitmap', b, from, o') && o' >= blocks[b].pages && blocks[b].pages > 0
    requires (b == b0 && from == if o0 > 0 then o0 + 1 else 0) || (b > b0 && from == 0)
    ensures b == b0 && (o0 > 0 ==> o0 == blocks[b0].pages - 1)
    ensures b0 == |blocks| - 1 ==> ClearFrom(blocks, bitmap', b0, if o0 > 0 then o0 + 1 else o0, |blocks|, 0)
  {
    if b > b0 {
      assert IsPage(blocks, b, 0) && Before(b0, o0, b, 0);
    } else if o0 > 0 && o0 + 1 < blocks[b0].pages {
      assert IsPage(blocks, b0, o0 + 1) && Before(b0, o0, b0, o0 + 1);
    }
  }

  lemma FoundMarked(blocks: seq<Block>, bitmap: seq<bool>, bitmap': seq<bool>, b: nat, from: nat, o': nat)
    requires Found(blocks, bitmap, bitmap', b, from, o')
    ensures from < blocks[b].pages && IsMarked(blocks, bitmap, b, from) ==> o' == from
  {
  }

  // A page that is found when the scan gives up is the only marked page.
  lemma OnlyMark(blocks: seq<Block>, bitmap: seq<bool>, bitmap': seq<bool>, b0: nat, o1: nat, from: nat, o': nat)
    requires ClearAround(blocks, bitmap, b0, o1, b0, from) && Found(blocks, bitmap, bitmap', b0, from, o') &&
             o' < blocks[b0].pages
    ensures o' < o1 && IsMarked(blocks, bitmap, b0, o')
    ensures forall c: nat, q: nat | IsPage(blocks, c, q) && (c != b0 || !(o' <= q < o1)) ::
              !IsMarked(blocks, bitmap, c, q)
    ensures bitmap' == bitmap[No(blocks, b0, o') := false]
  {
  }

  // Page (c, q) lies on the way of a scan from (b0, o1) to (b, o), which wraps if (b, o) comes first.
  predicate OnTheWay(b0: nat, o1: nat, b: nat, o: nat, c: nat, q: nat) {
    if Before(b, o, b0, o1) then !Before(c, q, b0, o1) || !Before(b, o, c, q)
    else !Before(c, q, b0, o1) && !Before(b, o, c, q)
  }

  /** A scan from (b0, o1) that took its last page at (b, o): exactly the marks on its way are gone. */
  ghost predicate Swept(blocks: seq<Block>, was: seq<bool>, now: seq<bool>, b0: nat, o1: nat, b: nat, o: nat) {
    && IsPage(blocks, b, o) && IsMarked(blocks, was, b, o)
    && forall c: nat, q: nat | IsPage(blocks, c, q) ::
         IsMarked(blocks, now, c, q) <==> IsMarked(blocks, was, c, q) && !OnTheWay(b0, o1, b, o, c, q)
  }

  // A scan under way at (b, o) has taken marks away, but none beyond (b, o).
  ghost predicate Passing(blocks: seq<Block>, was: seq<bool>, now: seq<bool>, b0: nat, o1: nat, b: nat, o: nat,
                          round2: bool) {
    forall c: nat, q: nat | IsPage(blocks, c, q) ::
      && (IsMarked(blocks, now, c, q) ==> IsMarked(blocks, was, c, q))
      && (IsMarked(blocks, was, c, q) && Beyond(b0, o1, b, o, round2, c, q) ==> IsMarked(blocks, now, c, q))
  }

  predicate Beyond(b0: nat, o1: nat, b: nat, o: nat, round2: bool, c: nat, q: nat) {
    if round2 then Before(b, o, c, q) && Before(c, q, b0, o1) else Before(b, o, c, q) || Before(c, q, b0, o1)
  }

  lemma PassingOn(blocks: seq<Block>, total: nat, was: seq<bool>, now: seq<bool>, now': seq<bool>,
                  b0: nat, o1: nat, b: nat, o: nat, from: nat, o': nat, round2: bool)
    requires BlocksOk(blocks, total) && Passing(blocks, was, now, b0, o1, b, o, round2) && o <= from
    requires Found(blocks, now, now', b, from, o') && (!round2 ==> !Before(b, from, b0, o1))
    ensures Passing(blocks, was, now', b0, o1, b, o', round2)
    ensures o' < blocks[b].pages ==> IsMarked(blocks, was, b, o')
  {
    forall c: nat, q: nat | IsPage(blocks, c, q)
      ensures IsMarked(blocks, now', c, q) ==> IsMarked(blocks, was, c, q)
      ensures IsMarked(blocks, was, c, q) && Beyond(b0, o1, b, o', round2, c, q) ==> IsMarked(blocks, now', c, q)
    {
      if IsPage(blocks, b, o') && No(blocks, b, o') == No(blocks, c, q) {
        NoInjective(blocks, total, b, o', c, q);
      }
    }
  }

  // On to the next block, or from the last one back to the first.
  lemma PassingNext(blocks: seq<Block>, was: seq<bool>, now: seq<bool>, b0: nat, o1: nat, b: nat, o: nat, round2: bool)
    requires Passing(blocks, was, now, b0, o1, b, o, round2)
    ensures Passing(blocks, was, now, b0, o1, b + 1, 0, round2)
    ensures !round2 ==> Passing(blocks, was, now, b0, o1, 0, 0, true)
  {
    forall c: nat, q: nat | IsPage(blocks, c, q)
      ensures Beyond(b0, o1, b + 1, 0, round2, c, q) ==> Beyond(b0, o1, b, o, round2, c, q)
      ensures !round2 && Beyond(b0, o1, 0, 0, true, c, q) ==> Beyond(b0, o1, b, o, round2, c, q)
    {
    }
  }

  // A stretch that has not begun is clear.
  lemma ClearStart(blocks: seq<Block>, bitmap: seq<bool>, b0: nat, o1: nat)
    ensures ClearFrom(blocks, bitmap, b0, o1, b0, o1)
  {
  }

  // The scan stops at the page it has just taken.
  lemma SweptNow(blocks: seq<Block>, was: seq<bool>, now: seq<bool>, b0: nat, o1: nat, b: nat, o: nat, round2: bool)
    requires Passing(blocks, was, now, b0, o1, b, o, round2) && IsPage(blocks, b, o) && IsMarked(blocks, was, b, o)
    requires !IsMarked(blocks, now, b, o) && (round2 <==> Before(b, o, b0, o1))
    requires if round2 then ClearAround(blocks, now, b0, o1, b, o) else ClearFrom(blocks, now, b0, o1, b, o)
    ensures Swept(blocks, was, now, b0, o1, b, o)
  {
    forall c: nat, q: nat | IsPage(blocks, c, q)
      ensures IsMarked(blocks, now, c, q) <==> IsMarked(blocks, was, c, q) && !OnTheWay(b0, o1, b, o, c, q)
    {
      if c == b && q == o {
      } else if OnTheWay(b0, o1, b, o, c, q) {
        assert !IsMarked(blocks, now, c, q);
      } else {
        assert Beyond(b0, o1, b, o, round2, c, q);
      }
    }
  }

  lemma ClearNothing(blocks: seq<Block>, bitmap: seq<bool>)
    ensures ClearFrom(blocks, bitmap, 0, 0, 0, 0)
  {
  }

  lemma MarkedAfterLater(blocks: seq<Block>, total: nat, bitmap: seq<bool>, b0: nat, o0: nat, b: nat, o: nat)
    requires BlocksOk(blocks, total) && MarkedAfter(blocks, bitmap, b0, o0) && IsPage(blocks, b, o) &&
             !Before(b, o, b0, o0)
    requires No(blocks, b, o) < |bitmap|
    ensures MarkedAfter(blocks, bitmap[No(blocks, b, o) := false], b, o)
  {
    forall c: nat, q: nat | IsPage(blocks, c, q) && Before(b, o, c, q)
      ensures IsMarked(blocks, bitmap[No(blocks, b, o) := false], c, q)
    {
      assert IsMarked(blocks, bitmap, c, q);
      if No(blocks, b, o) == No(blocks, c, q) {
        NoInjective(blocks, total, b, o, c, q);
      }
    }
  }

  // ---- the first bitmap ----

  function SumPages(blocks: seq<Block>): nat {
    if blocks == [] then 0 else SumPages(blocks[..|blocks| - 1]) + blocks[|blocks| - 1].pages
  }

  predicate InSpan(i: nat, base: nat, pages: nat) {
    base <= i < base + pages
  }

  ghost function RangeSet(base: nat, pages: nat): set<nat> {
    set i: nat | i < base + pages && InSpan(i, base, pages)
  }

  lemma {:induction false} RangeSetSize(base: nat, pages: nat)
    ensures |RangeSet(base, pages)| == pages
  {
    if pages == 0 {
      assert RangeSet(base, 0) == {};
    } else {
      RangeSetSize(base, pages - 1);
      assert RangeSet(base, pages) == RangeSet(base, pages - 1) + {base + pages - 1};
    }
  }

  lemma LastBlock(blocks: seq<Block>, total: nat, i: nat)
    requires BlocksOk(blocks, total)
    ensures var last := |blocks| - 1;
            var here := InSpan(i, blocks[last].base, blocks[last].pages);
            (InBlocks(blocks, i) <==> InBlocks(blocks[..last], i) || here) && !(InBlocks(blocks[..last], i) && here)
  {
    var last := |blocks| - 1;
    var init := blocks[..last];
    if InBlocks(init, i) {
      var c: nat :| InBlock(init, c, i);
      assert InBlock(blocks, c, i);
    }
    if InBlocks(blocks, i) {
      var c: nat :| InBlock(blocks, c, i);
      assert c == last || InBlock(init, c, i);
    }
    if InSpan(i, blocks[last].base, blocks[last].pages) {
      assert InBlock(blocks, last, i);
    }
  }

  // The bitmap of ram_save_setup marks exactly the pages that the source counts.
  lemma {:induction false} FullBitmapCount(blocks: seq<Block>, total: nat, bitmap: seq<bool>)
    requires blocks == [] || BlocksOk(blocks, total)
    requires forall i | 0 <= i < |bitmap| :: bitmap[i] <==> i < total
    requires total <= |bitmap|
    ensures |Marked(blocks, bitmap)| == SumPages(blocks)
  {
    hide InBlock;
    if blocks == [] {
      NothingMarked(bitmap);
    } else {
      var last := |blocks| - 1;
      FullBitmapCount(blocks[..last], total, bitmap);
      RangeSetSize(blocks[last].base, blocks[last].pages);
      MarkedSplit(blocks, total, bitmap);
    }
  }

  lemma NothingMarked(bitmap: seq<bool>)
    ensures Marked([], bitmap) == {}
  {
  }

  lemma MarkedSplit(blocks: seq<Block>, total: nat, bitmap: seq<bool>)
    requires BlocksOk(blocks, total) && total <= |bitmap|
    requires forall i | 0 <= i < |bitmap| :: bitmap[i] <==> i < total
    ensures var last := |blocks| - 1;
            var a, b := Marked(blocks[..last], bitmap), RangeSet(blocks[last].base, blocks[last].pages);
            Marked(blocks, bitmap) == a + b && a !! b
  {
    hide InBlocks;
    forall i: nat
      ensures var last := |blocks| - 1;
              var here := InSpan(i, blocks[last].base, blocks[last].pages);
              (InBlocks(blocks, i) <==> InBlocks(blocks[..last], i) || here) && !(InBlocks(blocks[..last], i) && here)
    {
      LastBlock(blocks, total, i);
    }
  }
}
