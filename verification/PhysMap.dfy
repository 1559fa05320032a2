/**
 The radix table of exec.c as a value: entries, nodes, the walk that
 phys_page_find performs, and the two facts the in-place algorithms rest on:
 a walk only reads nodes below its slot, and path compression only ever
 redirects a page that is unassigned.
*/
module PhysMap {
  import opened Geometry
  import opened Sections

  // skip == 0: ptr is a section number. skip > 0: ptr is a node, `skip` levels down.
  datatype Entry = Entry(skip: nat, ptr: nat)

  const PHYS_MAP_NODE_NIL: nat := 0x3FF_FFFF

  const NIL_ENTRY := Entry(1, PHYS_MAP_NODE_NIL)
  const UNASSIGNED_ENTRY := Entry(0, PHYS_SECTION_UNASSIGNED)

  type Node = s: seq<Entry> | |s| == P_L2_SIZE
    ghost witness seq(P_L2_SIZE, _ => Entry(0, 0))

  /** Where a node hangs in the table: its level (0 holds the pages) and the
      number of its range among the ranges of that level. The label makes the
      nodes below different slots different nodes. */
  datatype Home = Home(level: nat, prefix: nat)

  /** The walk of phys_page_find from an entry `k` levels above the pages. A walk
      that would leave the table ends in PHYS_MAP_NODE_NIL, which is no section. */
  function Walk(nodes: seq<Node>, e: Entry, k: nat, idx: nat): (leaf: nat)
    decreases k
  {
    if e.skip == 0 then e.ptr
    else if e.skip > k then PHYS_MAP_NODE_NIL
    else if e.ptr == PHYS_MAP_NODE_NIL then PHYS_SECTION_UNASSIGNED
    else if e.ptr >= |nodes| then PHYS_MAP_NODE_NIL
    else Walk(nodes, nodes[e.ptr][Digit(idx, k - e.skip)], k - e.skip, idx)
  }

  /** An entry as phys_page_set builds it, in the slot that spans the pages idx
      with Part(idx, k) == q: a leaf, or nothing, or a node of the level below. */
  ghost predicate SlotOk(homes: seq<Home>, e: Entry, k: nat, q: nat) {
    if e.skip == 0 then
      && e.ptr != PHYS_MAP_NODE_NIL
      && (k > 0 ==> e.ptr != PHYS_SECTION_UNASSIGNED)
    else
      && k > 0
      && e.skip == 1
      && (e.ptr == PHYS_MAP_NODE_NIL || (e.ptr < |homes| && homes[e.ptr] == Home(k - 1, q)))
  }

  ghost predicate NodeOk(homes: seq<Home>, node: Node, h: Home) {
    forall i | 0 <= i < P_L2_SIZE :: SlotOk(homes, node[i], h.level, Kid(h.prefix, i))
  }

  ghost predicate TableOk(nodes: seq<Node>, homes: seq<Home>) {
    && |nodes| == |homes| <= PHYS_MAP_NODE_NIL
    && forall n | 0 <= n < |nodes| :: NodeOk(homes, nodes[n], homes[n])
  }

  // The node labelled h hangs below the slot (k, q).
  ghost predicate Under(h: Home, k: nat, q: nat) {
    h.level < k && Part(h.prefix, k - 1 - h.level) == q
  }

  lemma UnderChild(h: Home, k: nat, q: nat, i: nat)
    requires i < P_L2_SIZE
    requires Under(h, k, Kid(q, i))
    ensures Under(h, k + 1, q)
  {
    KidPart(h.prefix, k - 1 - h.level, q, i);
  }

  lemma UnderChildAll(homes: seq<Home>, k: nat, q: nat, i: nat)
    requires i < P_L2_SIZE
    ensures forall n | 0 <= n < |homes| && Under(homes[n], k, Kid(q, i)) :: Under(homes[n], k + 1, q)
  {
    forall n | 0 <= n < |homes| && Under(homes[n], k, Kid(q, i))
      ensures Under(homes[n], k + 1, q)
    {
      UnderChild(homes[n], k, q, i);
    }
  }

  lemma UnderAnyChild(homes: seq<Home>, k: nat, q: nat)
    ensures forall n, m | 0 <= n < |homes| && 0 <= m < P_L2_SIZE && Under(homes[n], k, Kid(q, m)) ::
              Under(homes[n], k + 1, q)
  {
    forall n, m | 0 <= n < |homes| && 0 <= m < P_L2_SIZE && Under(homes[n], k, Kid(q, m))
      ensures Under(homes[n], k + 1, q)
    {
      UnderChild(homes[n], k, q, m);
    }
  }

  lemma HomeUnderSlot(k: nat, q: nat)
    ensures Under(Home(k, q), k + 1, q)
  {
    assert Span(0) == 1;
  }

  // A walk from a slot reads only the nodes below that slot.
  lemma {:induction false} WalkFrame(a: seq<Node>, b: seq<Node>, homes: seq<Home>, e: Entry, k: nat, q: nat, idx: nat)
    requires TableOk(a, homes) && SlotOk(homes, e, k, q)
    requires |a| <= |b|
    requires forall n | 0 <= n < |a| && Under(homes[n], k, q) :: a[n] == b[n]
    ensures Walk(a, e, k, idx) == Walk(b, e, k, idx)
    decreases k
  {
    if e.skip != 0 && e.ptr != PHYS_MAP_NODE_NIL {
      HomeUnderSlot(k - 1, q);
      var i := Digit(idx, k - 1);
      var n := e.ptr;
      assert NodeOk(homes, a[n], homes[n]);
      forall m | 0 <= m < |a| && Under(homes[m], k - 1, Kid(q, i))
        ensures a[m] == b[m]
      {
        UnderChild(homes[m], k - 1, q, i);
      }
      WalkFrame(a, b, homes, a[n][i], k - 1, Kid(q, i), idx);
    }
  }

  /** How many levels above the pages the leaf is that a walk ends in; 0 if it ends in no leaf. */
  function Height(nodes: seq<Node>, e: Entry, k: nat, idx: nat): (h: nat)
    decreases k
  {
    if e.skip == 0 then k
    else if e.skip > k || e.ptr == PHYS_MAP_NODE_NIL || e.ptr >= |nodes| then 0
    else Height(nodes, nodes[e.ptr][Digit(idx, k - e.skip)], k - e.skip, idx)
  }

  // All pages of the leaf of page idx lie in [a, b).
  ghost predicate Within(idx: nat, h: nat, a: nat, b: nat) {
    a <= Lo(Part(idx, h), h) && Lo(Part(idx, h) + 1, h) <= b
  }

  // The same frame as for the walk.
  lemma {:induction false} HeightFrame(a: seq<Node>, b: seq<Node>, homes: seq<Home>, e: Entry, k: nat, q: nat, idx: nat)
    requires TableOk(a, homes) && SlotOk(homes, e, k, q)
    requires |a| <= |b|
    requires forall n | 0 <= n < |a| && Under(homes[n], k, q) :: a[n] == b[n]
    ensures Height(a, e, k, idx) == Height(b, e, k, idx)
    decreases k
  {
    if e.skip != 0 && e.ptr != PHYS_MAP_NODE_NIL {
      HomeUnderSlot(k - 1, q);
      var i := Digit(idx, k - 1);
      var n := e.ptr;
      assert NodeOk(homes, a[n], homes[n]);
      forall m | 0 <= m < |a| && Under(homes[m], k - 1, Kid(q, i))
        ensures a[m] == b[m]
      {
        UnderChild(homes[m], k - 1, q, i);
      }
      HeightFrame(a, b, homes, a[n][i], k - 1, Kid(q, i), idx);
    }
  }

  lemma HeightNode(nodes: seq<Node>, p: nat, level: nat, q: nat, m: nat, idx: nat)
    requires p < |nodes| && p != PHYS_MAP_NODE_NIL && m < P_L2_SIZE && Part(idx, level) == Kid(q, m)
    ensures Height(nodes, Entry(1, p), level + 1, idx) == Height(nodes, nodes[p][m], level, idx)
  {
    KidPart(idx, level, q, m);
  }

  // No leaf above the pages says unassigned.
  lemma {:induction false} UnassignedHeight(nodes: seq<Node>, homes: seq<Home>, e: Entry, k: nat, q: nat, idx: nat)
    requires TableOk(nodes, homes) && SlotOk(homes, e, k, q) && Walk(nodes, e, k, idx) == PHYS_SECTION_UNASSIGNED
    ensures Height(nodes, e, k, idx) == 0
    decreases k
  {
    if e.skip != 0 && e.ptr != PHYS_MAP_NODE_NIL {
      var i := Digit(idx, k - 1);
      assert NodeOk(homes, nodes[e.ptr], homes[e.ptr]);
      UnassignedHeight(nodes, homes, nodes[e.ptr][i], k - 1, Kid(q, i), idx);
    }
  }

  lemma {:induction false} WalkStaysInside(nodes: seq<Node>, homes: seq<Home>, e: Entry, k: nat, q: nat, idx: nat)
    requires TableOk(nodes, homes) && SlotOk(homes, e, k, q)
    ensures Walk(nodes, e, k, idx) != PHYS_MAP_NODE_NIL
    decreases k
  {
    if e.skip != 0 && e.ptr != PHYS_MAP_NODE_NIL {
      var i := Digit(idx, k - 1);
      assert NodeOk(homes, nodes[e.ptr], homes[e.ptr]);
      WalkStaysInside(nodes, homes, nodes[e.ptr][i], k - 1, Kid(q, i), idx);
    }
  }

  // Below the slot (k, q), a page is told apart only by its low digits.
  lemma {:induction false} WalkLowDigits(nodes: seq<Node>, e: Entry, k: nat, i: nat, j: nat)
    requires forall d | 0 <= d < k :: Digit(i, d) == Digit(j, d)
    ensures Walk(nodes, e, k, i) == Walk(nodes, e, k, j)
    decreases k
  {
    if !(e.skip == 0 || e.skip > k || e.ptr == PHYS_MAP_NODE_NIL || e.ptr >= |nodes|) {
      WalkLowDigits(nodes, nodes[e.ptr][Digit(i, k - e.skip)], k - e.skip, i, j);
    }
  }

  // A walk through a node goes on from the slot that the page selects.
  lemma WalkNode(nodes: seq<Node>, p: nat, level: nat, q: nat, m: nat, idx: nat)
    requires p < |nodes| && p != PHYS_MAP_NODE_NIL && m < P_L2_SIZE && Part(idx, level) == Kid(q, m)
    ensures Part(idx, level + 1) == q
    ensures Walk(nodes, Entry(1, p), level + 1, idx) == Walk(nodes, nodes[p][m], level, idx)
  {
    KidPart(idx, level, q, m);
  }

  // ---- single updates ----

  lemma SetSlotOk(nodes: seq<Node>, homes: seq<Home>, n: nat, i: nat, e: Entry)
    requires TableOk(nodes, homes) && n < |nodes| && i < P_L2_SIZE
    requires SlotOk(homes, e, homes[n].level, Kid(homes[n].prefix, i))
    ensures TableOk(nodes[n := nodes[n][i := e]], homes)
  {
    var b := nodes[n := nodes[n][i := e]];
    forall m | 0 <= m < |b|
      ensures NodeOk(homes, b[m], homes[m])
    {
      assert NodeOk(homes, nodes[m], homes[m]);
    }
  }

  lemma AppendNodeOk(nodes: seq<Node>, homes: seq<Home>, added: Node, h: Home)
    requires TableOk(nodes, homes) && |nodes| < PHYS_MAP_NODE_NIL
    requires forall i | 0 <= i < P_L2_SIZE :: added[i] == if h.level == 0 then UNASSIGNED_ENTRY else NIL_ENTRY
    ensures TableOk(nodes + [added], homes + [h])
  {
    forall m | 0 <= m < |nodes|
      ensures NodeOk(homes + [h], nodes[m], homes[m])
    {
      assert NodeOk(homes, nodes[m], homes[m]);
    }
  }

  // Changing slot i of node p, and nodes below that slot, leaves the other slots of p alone.
  lemma SiblingFrame(a: seq<Node>, b: seq<Node>, homes: seq<Home>, p: nat, i: nat, level: nat, q: nat)
    requires TableOk(a, homes) && p < |a| <= |b| && i < P_L2_SIZE && homes[p] == Home(level, q)
    requires forall n | 0 <= n < |a| && n != p && !Under(homes[n], level, Kid(q, i)) :: a[n] == b[n]
    requires forall m | 0 <= m < P_L2_SIZE && m != i :: b[p][m] == a[p][m]
    ensures forall m: nat, idx: nat | m < P_L2_SIZE && m != i ::
              Walk(a, a[p][m], level, idx) == Walk(b, b[p][m], level, idx)
    ensures forall m: nat, idx: nat | m < P_L2_SIZE && m != i ::
              Height(a, a[p][m], level, idx) == Height(b, b[p][m], level, idx)
  {
    hide Part, Digit, Span, Kid;
    KidBasics(q, i);
    forall m: nat, idx: nat | m < P_L2_SIZE && m != i
      ensures Walk(a, a[p][m], level, idx) == Walk(b, b[p][m], level, idx)
      ensures Height(a, a[p][m], level, idx) == Height(b, b[p][m], level, idx)
    {
      assert NodeOk(homes, a[p], homes[p]);
      WalkFrame(a, b, homes, a[p][m], level, Kid(q, m), idx);
      HeightFrame(a, b, homes, a[p][m], level, Kid(q, m), idx);
    }
  }

  // ---- path compression ----

  ghost predicate OnlyChild(node: Node, i: nat) {
    && i < P_L2_SIZE
    && node[i].ptr != PHYS_MAP_NODE_NIL
    && forall j | 0 <= j < P_L2_SIZE && j != i :: node[j].ptr == PHYS_MAP_NODE_NIL
  }

  ghost predicate HasOnlyChild(node: Node) {
    exists i: nat :: OnlyChild(node, i)
  }

  ghost function TheChild(node: Node): (i: nat)
    requires HasOnlyChild(node)
    ensures OnlyChild(node, i)
  {
    var i: nat :| OnlyChild(node, i);
    i
  }

  function Merge(e: Entry, c: Entry): Entry {
    if e.skip + c.skip >= 8 then e
    else if c.skip == 0 then Entry(0, c.ptr)
    else Entry(e.skip + c.skip, c.ptr)
  }

  // What phys_page_compact leaves in a slot whose entry was e.
  ghost function CompactEntry(nodes: seq<Node>, e: Entry, k: nat): Entry
    decreases k
  {
    if e.skip == 0 || e.skip > k || e.ptr >= |nodes| || !HasOnlyChild(nodes[e.ptr]) then e
    else Merge(e, CompactEntry(nodes, nodes[e.ptr][TheChild(nodes[e.ptr])], k - e.skip))
  }

  lemma CompactEntryIdle(nodes: seq<Node>, e: Entry, k: nat)
    requires |nodes| <= PHYS_MAP_NODE_NIL
    ensures e.skip == 0 || e.ptr == PHYS_MAP_NODE_NIL ==> CompactEntry(nodes, e, k) == e
  {
  }

  // Every slot of b holds what it held in a, or the compacted form of it.
  ghost predicate CompactedFrom(a: seq<Node>, homes: seq<Home>, b: seq<Node>) {
    && |a| == |homes| == |b|
    && forall n, i | 0 <= n < |a| && 0 <= i < P_L2_SIZE ::
         b[n][i] == a[n][i] || b[n][i] == CompactEntry(a, a[n][i], homes[n].level)
  }

  // Skipping over an only child reads the same entry as going through it would.
  lemma WalkMerged(nodes: seq<Node>, e: Entry, c: Entry, k: nat, idx: nat)
    requires e.skip == 1 && k > 0 && Merge(e, c) != e
    ensures Walk(nodes, Merge(e, c), k, idx) == Walk(nodes, c, k - 1, idx)
  {
  }

  /** A compacted table answers as the original did, or else the original had
      nothing there and the answer is what the original holds at another page j
      below the same slot. */
  lemma {:induction false} WalkCompacted(a: seq<Node>, homes: seq<Home>, b: seq<Node>, e: Entry, e': Entry,
                                         k: nat, q: nat, idx: nat)
    returns (j: nat)
    requires TableOk(a, homes) && CompactedFrom(a, homes, b)
    requires SlotOk(homes, e, k, q)
    requires e' == e || e' == CompactEntry(a, e, k)
    ensures Part(j, k) == Part(idx, k)
    ensures || Walk(b, e', k, idx) == Walk(a, e, k, idx)
            || (Walk(a, e, k, idx) == PHYS_SECTION_UNASSIGNED && Walk(b, e', k, idx) == Walk(a, e, k, j))
    decreases k
  {
    hide Part, Kid, Span;
    j := idx;
    if e.skip != 0 && e.ptr != PHYS_MAP_NODE_NIL {
      var n, i := e.ptr, Digit(idx, k - 1);
      assert NodeOk(homes, a[n], homes[n]);
      if e' == e {
        j := WalkCompacted(a, homes, b, a[n][i], b[n][i], k - 1, Kid(q, i), idx);
        PartPart(j, k - 1);
        PartPart(idx, k - 1);
      } else {
        var i0 := TheChild(a[n]);
        var v := a[n][i0];
        var c := CompactEntry(a, v, k - 1);
        WalkMerged(b, e, c, k, idx);
        var idx' := WithDigit(idx, k - 1, i0);
        LowDigits(idx, idx', k - 1);
        WalkLowDigits(b, c, k - 1, idx, idx');
        j := WalkCompacted(a, homes, b, v, c, k - 1, Kid(q, i0), idx');
        PartPart(j, k - 1);
        PartPart(idx', k - 1);
        if i != i0 {
          assert a[n][i].ptr == PHYS_MAP_NODE_NIL;
          if Walk(b, c, k - 1, idx') == Walk(a, v, k - 1, idx') {
            j := idx';
          }
        }
      }
    }
  }
}
