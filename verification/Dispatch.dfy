/**
 Physical memory dispatch of exec.c: insertion of page ranges into the radix
 table, sub-pages, path compression and lookup.
*/
module Dispatch {
  import opened Arithmetic
  import opened Geometry
  import opened PhysMap
  import opened FlatView
  import opened Sections

  // A PhysPageEntry * of the source: the root entry or a slot of a node.
  datatype Slot = Root | Child(node: nat, i: nat)

  function Min(a: nat, b: nat): nat {
    if a <= b then a else b
  }

  class AddressSpaceDispatch {
    var physMap: Entry
    var nodes: seq<Node>
    var nodesNbAlloc: nat
    ghost var homes: seq<Home>
    var sections: seq<Section>
    var subpages: seq<Subpage>

    ghost predicate TableValid()
      reads this`physMap, this`nodes, this`homes
    {
      TableOk(nodes, homes) && SlotOk(homes, physMap, P_L2_LEVELS, 0)
    }

    ghost predicate SlotAt(lp: Slot, k: nat, q: nat)
      reads this`nodes, this`homes
    {
      match lp
      case Root => k == P_L2_LEVELS && q == 0
      case Child(n, i) =>
        n < |nodes| == |homes| && i < P_L2_SIZE && k == homes[n].level && q == Kid(homes[n].prefix, i)
    }

    function At(lp: Slot): Entry
      requires lp.Child? ==> lp.node < |nodes| && lp.i < P_L2_SIZE
      reads this`physMap, this`nodes
    {
      match lp
      case Root => physMap
      case Child(n, i) => nodes[n][i]
    }

    // The section number that a walk from the slot lp, above a node of `level`, reaches.
    function LeafBelow(lp: Slot, level: nat, idx: nat): nat
      requires lp.Child? ==> lp.node < |nodes| && lp.i < P_L2_SIZE
      reads this`physMap, this`nodes
    {
      Walk(nodes, At(lp), level + 1, idx)
    }

    function HeightBelow(lp: Slot, level: nat, idx: nat): nat
      requires lp.Child? ==> lp.node < |nodes| && lp.i < P_L2_SIZE
      reads this`physMap, this`nodes
    {
      Height(nodes, At(lp), level + 1, idx)
    }

    method Put(lp: Slot, e: Entry)
      requires lp.Child? ==> lp.node < |nodes| && lp.i < P_L2_SIZE
      modifies this`physMap, this`nodes
      ensures |nodes| == |old(nodes)| && At(lp) == e
      ensures lp.Root? ==> nodes == old(nodes)
      ensures lp.Child? ==> physMap == old(physMap) && nodes == old(nodes)[lp.node := old(nodes)[lp.node][lp.i := e]]
    {
      match lp
      case Root => physMap := e;
      case Child(n, i) => nodes := nodes[n := nodes[n][i := e]];
    }

    method NodeReserve(count: nat)
      modifies this`nodesNbAlloc
      ensures |nodes| + count <= nodesNbAlloc && old(nodesNbAlloc) <= nodesNbAlloc
    {
      if |nodes| + count > nodesNbAlloc {
        nodesNbAlloc := if nodesNbAlloc * 2 >= 16 then nodesNbAlloc * 2 else 16;
        nodesNbAlloc := if nodesNbAlloc >= |nodes| + count then nodesNbAlloc else |nodes| + count;
      }
    }

    // The two assertions of phys_map_node_alloc are the preconditions here.
    method NodeAlloc(ghost h: Home) returns (ret: nat)
      requires TableValid()
      requires |nodes| != PHYS_MAP_NODE_NIL && |nodes| < nodesNbAlloc
      modifies this`nodes, this`homes
      ensures |nodes| == |old(nodes)| + 1 && ret == |old(nodes)|
      ensures nodes == old(nodes) + [nodes[ret]] && homes == old(homes) + [h]
      ensures forall i | 0 <= i < P_L2_SIZE :: nodes[ret][i] == NIL_ENTRY
    {
      ret := |nodes|;
      nodes := nodes + [seq(P_L2_SIZE, _ => NIL_ENTRY)];
      homes := homes + [h];
    }

    // Give the slot lp a node of its own, as the head of phys_page_set_level does.
    method OpenNode(lp: Slot, level: nat, ghost q: nat) returns (p: nat)
      requires TableValid() && SlotAt(lp, level + 1, q) && At(lp).skip != 0
      requires |nodes| < PHYS_MAP_NODE_NIL && |nodes| < nodesNbAlloc
      modifies this`physMap, this`nodes, this`homes
      ensures TableValid() && |old(nodes)| <= |nodes| <= |old(nodes)| + 1
      ensures homes[..|old(homes)|] == old(homes)
      ensures SlotAt(lp, level + 1, q) && At(lp) == Entry(1, p) && p < |nodes| && homes[p] == Home(level, q)
      ensures lp.Child? ==> physMap == old(physMap)
      ensures forall n | 0 <= n < |old(nodes)| :: nodes[n] ==
                if lp.Child? && n == lp.node then old(nodes)[n][lp.i := At(lp)] else old(nodes)[n]
      ensures forall idx: nat :: LeafBelow(lp, level, idx) == old(LeafBelow(lp, level, idx))
      ensures forall idx: nat :: HeightBelow(lp, level, idx) == old(HeightBelow(lp, level, idx))
    {
      hide Part, Kid, Digit, Span, Lo;
      ghost var before := nodes;
      ghost var e := At(lp);
      if At(lp).skip != 0 && At(lp).ptr == PHYS_MAP_NODE_NIL {
        p := NodeAlloc(Home(level, q));
        if level == 0 {
          nodes := nodes[p := seq(P_L2_SIZE, _ => UNASSIGNED_ENTRY)];
        }
        AppendNodeOk(before, old(homes), nodes[p], Home(level, q));
        assert nodes == before + [nodes[p]];
        if lp.Child? {
          SetSlotOk(nodes, homes, lp.node, lp.i, Entry(1, p));
        }
        Put(lp, Entry(1, p));
        forall idx: nat
          ensures LeafBelow(lp, level, idx) == PHYS_SECTION_UNASSIGNED && HeightBelow(lp, level, idx) == 0
        {
          var d := nodes[p][Digit(idx, level)];
          assert d == if level == 0 then UNASSIGNED_ENTRY else NIL_ENTRY;
          assert Walk(nodes, d, level, idx) == PHYS_SECTION_UNASSIGNED && Height(nodes, d, level, idx) == 0;
        }
      } else {
        p := At(lp).ptr;
      }
    }

    /** phys_page_set_level: sets the pages of [index, index + nb) that lie below
        lp to `leaf`, and reports what is left over. A leaf for many pages that is there
        already must lie in the whole range from `a` on. `nodeBudget` counts nodes. */
    method SetLevel(lp: Slot, index0: nat, nb0: nat, leaf: nat, level: nat, ghost q: nat, ghost a: nat)
      returns (index: nat, nb: nat)
      requires TableValid() && SlotAt(lp, level + 1, q) && At(lp).skip != 0
      requires leaf != PHYS_SECTION_UNASSIGNED && leaf != PHYS_MAP_NODE_NIL
      requires nb0 > 0 && Part(index0, level + 1) == q
      requires index0 == a || (a <= index0 && index0 == Lo(q, level + 1))
      requires forall idx: nat | index0 <= idx < index0 + nb0 && Part(idx, level + 1) == q ::
                 Within(idx, HeightBelow(lp, level, idx), a, index0 + nb0)
      requires |nodes| + NodeBudget(index0, nb0, level, q) <= Min(nodesNbAlloc, PHYS_MAP_NODE_NIL)
      modifies this`physMap, this`nodes, this`homes
      ensures TableValid() && |old(nodes)| <= |nodes| <= |old(nodes)| + NodeBudget(index0, nb0, level, q)
      ensures homes[..|old(homes)|] == old(homes)
      ensures SlotAt(lp, level + 1, q)
      ensures index == Min(index0 + nb0, Lo(q + 1, level + 1)) && index + nb == index0 + nb0
      ensures lp.Child? ==> physMap == old(physMap)
      ensures forall n | 0 <= n < |old(nodes)| && !Under(homes[n], level + 1, q) :: nodes[n] ==
                if lp.Child? && n == lp.node then old(nodes)[n][lp.i := At(lp)] else old(nodes)[n]
      ensures forall idx: nat | Part(idx, level + 1) == q :: LeafBelow(lp, level, idx) ==
                if index0 <= idx < index then leaf else old(LeafBelow(lp, level, idx))
      decreases level, 2
    {
      hide Part, Kid, Digit, Span, Lo, Walk, Height, Within, Filled;
      var p := OpenNode(lp, level, q);
      ghost var start := nodes;
      forall m: nat, idx: nat | m < P_L2_SIZE && index0 <= idx < index0 + nb0 && Part(idx, level) == Kid(q, m)
        ensures Within(idx, Height(nodes, nodes[p][m], level, idx), a, index0 + nb0)
      {
        WalkNode(nodes, p, level, q, m, idx);
        HeightNode(nodes, p, level, q, m, idx);
        assert Within(idx, HeightBelow(lp, level, idx), a, index0 + nb0);
      }
      HomeUnderSlot(level, q);
      index, nb := FillNode(p, index0, nb0, leaf, level, q, a);
      forall idx: nat | Part(idx, level + 1) == q
        ensures LeafBelow(lp, level, idx) == if index0 <= idx < index then leaf else old(LeafBelow(lp, level, idx))
      {
        FilledBelow(start, nodes, p, level, q, index0, index, leaf, idx);
      }
    }

    // The loop of phys_page_set_level over the slots of the node p.
    method FillNode(p: nat, index0: nat, nb0: nat, leaf: nat, level: nat, ghost q: nat, ghost a: nat)
      returns (index: nat, nb: nat)
      requires TableValid() && p < |nodes| && homes[p] == Home(level, q)
      requires leaf != PHYS_SECTION_UNASSIGNED && leaf != PHYS_MAP_NODE_NIL
      requires nb0 > 0 && Part(index0, level + 1) == q
      requires index0 == a || (a <= index0 && index0 == Lo(q, level + 1))
      requires forall m: nat, idx: nat | m < P_L2_SIZE && index0 <= idx < index0 + nb0 &&
               Part(idx, level) == Kid(q, m) ::
                 Within(idx, Height(nodes, nodes[p][m], level, idx), a, index0 + nb0)
      requires |nodes| + NodeBudget(index0, nb0, level, q) <= Min(nodesNbAlloc, PHYS_MAP_NODE_NIL) + 1
      modifies this`physMap, this`nodes, this`homes
      ensures TableValid() && |old(nodes)| <= |nodes| < |old(nodes)| + NodeBudget(index0, nb0, level, q)
      ensures homes[..|old(homes)|] == old(homes) && physMap == old(physMap)
      ensures index == Min(index0 + nb0, Lo(q + 1, level + 1)) && index + nb == index0 + nb0
      ensures forall n | 0 <= n < |old(nodes)| && n != p && !Under(homes[n], level + 1, q) :: nodes[n] == old(nodes)[n]
      ensures Filled(old(nodes), nodes, p, level, q, index0, index, leaf)
      decreases level, 1
    {
      hide Part, Kid, Digit, Span, Lo, Walk, Height, Within;
      var i := Digit(index0, level);
      index, nb := index0, nb0;
      KidPart(index0, level, q, i);
      KidInside(q, i, level);
      PartInterval(index0, level, Kid(q, i));
      ghost var i0 := i;
      ghost var start := nodes;
      while nb > 0 && i < P_L2_SIZE
        invariant i0 <= i <= P_L2_SIZE && index0 <= index && index + nb == index0 + nb0
        invariant TableValid() && |start| <= |nodes| && homes[..|start|] == old(homes) && physMap == old(physMap)
        invariant if i == i0 then index == index0 && nb > 0 && |nodes| == |start|
                  else if nb > 0 then index == Lo(Kid(q, i), level) &&
                      |nodes| <= |start| + FirstBudget(index0, level, q, i0)
                  else index <= Lo(Kid(q, i), level) && |nodes| < |start| + NodeBudget(index0, nb0, level, q)
        invariant forall n | 0 <= n < |start| && n != p && !Under(homes[n], level + 1, q) :: nodes[n] == start[n]
        invariant Filled(start, nodes, p, level, q, index0, index, leaf)
        invariant forall m: nat, idx: nat | i <= m < P_L2_SIZE ::
                    Height(nodes, nodes[p][m], level, idx) == Height(start, start[p][m], level, idx)
        decreases P_L2_SIZE - i
      {
        PartInterval(index, level, Kid(q, i));
        KidBasics(q, i);
        ChildBudgetFits(index0, index, nb, level, q, i0, i);
        UnderChildAll(homes, level, q, i);
        ghost var before, from := nodes, index;
        index, nb := SetChild(p, i, index, nb, leaf, level, q, a);
        FilledStep(start, before, nodes, p, level, q, i, index0, from, index, leaf);
        i := i + 1;
      }
      PartInterval(index0, level + 1, q);
      LoKid(q, level);
      if i < P_L2_SIZE {
        KidInside(q, i, level);
      }
    }

    // One turn of the loop of phys_page_set_level: slot i of the node p.
    method SetChild(p: nat, i: nat, index0: nat, nb0: nat, leaf: nat, level: nat, ghost q: nat, ghost a: nat)
      returns (index: nat, nb: nat)
      requires TableValid() && p < |nodes| && homes[p] == Home(level, q) && i < P_L2_SIZE
      requires leaf != PHYS_SECTION_UNASSIGNED && leaf != PHYS_MAP_NODE_NIL
      requires nb0 > 0 && Part(index0, level) == Kid(q, i)
      requires index0 == a || (a <= index0 && index0 == Lo(Kid(q, i), level))
      requires forall idx: nat | index0 <= idx < index0 + nb0 && Part(idx, level) == Kid(q, i) ::
                 Within(idx, Height(nodes, nodes[p][i], level, idx), a, index0 + nb0)
      requires |nodes| + ChildBudget(index0, nb0, level, Kid(q, i)) <= Min(nodesNbAlloc, PHYS_MAP_NODE_NIL)
      modifies this`physMap, this`nodes, this`homes
      ensures TableValid() && |old(nodes)| <= |nodes| <= |old(nodes)| + ChildBudget(index0, nb0, level, Kid(q, i))
      ensures homes[..|old(homes)|] == old(homes) && physMap == old(physMap)
      ensures index == Min(index0 + nb0, Lo(Kid(q, i) + 1, level)) && index + nb == index0 + nb0
      ensures forall m | 0 <= m < P_L2_SIZE && m != i :: nodes[p][m] == old(nodes[p][m])
      ensures forall n | 0 <= n < |old(nodes)| && n != p && !Under(homes[n], level, Kid(q, i)) ::
                nodes[n] == old(nodes[n])
      ensures forall idx: nat | Part(idx, level) == Kid(q, i) :: Walk(nodes, nodes[p][i], level, idx) ==
                if index0 <= idx < index then leaf else old(Walk(nodes, nodes[p][i], level, idx))
      ensures forall m: nat, idx: nat | m < P_L2_SIZE && m != i ::
                Walk(nodes, nodes[p][m], level, idx) == old(Walk(nodes, nodes[p][m], level, idx))
      ensures forall m: nat, idx: nat | m < P_L2_SIZE && m != i ::
                Height(nodes, nodes[p][m], level, idx) == old(Height(nodes, nodes[p][m], level, idx))
      decreases level, 0
    {
      assert Span(0) == 1;
      hide Part, Kid, Digit, Span, Lo;
      ghost var c := Kid(q, i);
      PartInterval(index0, level, c);
      var step := Span(level);
      if index0 % step == 0 && nb0 >= step {
        SetSlotOk(nodes, homes, p, i, Entry(0, leaf));
        Put(Child(p, i), Entry(0, leaf));
        index := index0 + step;
        nb := nb0 - step;
        forall idx: nat | Part(idx, level) == c
          ensures index0 <= idx < index
        {
          PartInterval(idx, level, c);
        }
      } else {
        assert NodeOk(homes, nodes[p], homes[p]);
        assert level > 0;
        assert Within(index0, Height(nodes, nodes[p][i], level, index0), a, index0 + nb0);
        index, nb := SetLevel(Child(p, i), index0, nb0, leaf, level - 1, c, a);
        forall idx: nat | Part(idx, level) == c
          ensures Walk(nodes, nodes[p][i], level, idx) == LeafBelow(Child(p, i), level - 1, idx)
          ensures old(Walk(nodes, nodes[p][i], level, idx)) == old(LeafBelow(Child(p, i), level - 1, idx))
        {
        }
      }
      SiblingFrame(old(nodes), nodes, old(homes), p, i, level, q);
    }

    /** phys_page_set: the pages [index, index + nb) become `leaf`, all others keep
        their section, and the nodes taken stay within the reservation. Pages may have a
        section already; only a leaf for many pages must not lie across an end of the
        range. */
    method PageSet(index: nat, nb: nat, leaf: nat)
      requires TableValid()
      requires leaf != PHYS_SECTION_UNASSIGNED && leaf != PHYS_MAP_NODE_NIL
      requires nb > 0 && index + nb <= Span(P_L2_LEVELS)
      requires physMap.skip != 0
      requires forall idx: nat | index <= idx < index + nb ::
                 Within(idx, Height(nodes, physMap, P_L2_LEVELS, idx), index, index + nb)
      requires |nodes| + 2 * P_L2_LEVELS <= PHYS_MAP_NODE_NIL
      modifies this`physMap, this`nodes, this`homes, this`nodesNbAlloc
      ensures TableValid() && |nodes| < |old(nodes)| + 2 * P_L2_LEVELS
      ensures forall idx: nat | idx < Span(P_L2_LEVELS) :: Walk(nodes, physMap, P_L2_LEVELS, idx) ==
                if index <= idx < index + nb then leaf else old(Walk(nodes, physMap, P_L2_LEVELS, idx))
    {
      hide P_L2_LEVELS, Part, Span, Lo, Walk, Height, Within, TableOk, SlotOk, NodeBudget;
      NodeReserve(3 * P_L2_LEVELS);
      NodeHasTwoSlots();
      var level := P_L2_LEVELS - 1;
      BudgetMax(index, nb, level);
      forall idx: nat
        ensures Part(idx, level + 1) == 0 <==> idx < Span(P_L2_LEVELS)
        ensures LeafBelow(Root, level, idx) == Walk(nodes, physMap, P_L2_LEVELS, idx)
        ensures HeightBelow(Root, level, idx) == Height(nodes, physMap, P_L2_LEVELS, idx)
      {
        WholeRange(idx, P_L2_LEVELS);
      }
      WholeRange(index, P_L2_LEVELS);
      assert Lo(0 + 1, level + 1) == Span(P_L2_LEVELS);
      var end, _ := SetLevel(Root, index, nb, leaf, level, 0, index);
      assert end == index + nb;
      forall idx: nat | idx < Span(P_L2_LEVELS)
        ensures Walk(nodes, physMap, P_L2_LEVELS, idx) ==
                if index <= idx < index + nb then leaf else old(Walk(nodes, physMap, P_L2_LEVELS, idx))
      {
        WholeRange(idx, P_L2_LEVELS);
        assert LeafBelow(Root, level, idx) == Walk(nodes, physMap, P_L2_LEVELS, idx);
      }
    }

    // Pages without a section can be set.
    lemma PagesFree(index: nat, nb: nat)
      requires TableValid() && nb > 0
      requires forall idx: nat | index <= idx < index + nb ::
                 Walk(nodes, physMap, P_L2_LEVELS, idx) == PHYS_SECTION_UNASSIGNED
      ensures physMap.skip != 0
      ensures forall idx: nat | index <= idx < index + nb ::
                Within(idx, Height(nodes, physMap, P_L2_LEVELS, idx), index, index + nb)
    {
      RootIsOpen(nodes, homes, physMap, index);
      hide P_L2_LEVELS, Walk, Height, TableOk, SlotOk;
      forall idx: nat | index <= idx < index + nb
        ensures Within(idx, Height(nodes, physMap, P_L2_LEVELS, idx), index, index + nb)
      {
        UnassignedHeight(nodes, homes, physMap, P_L2_LEVELS, 0, idx);
        assert Span(0) == 1;
      }
    }

    /** phys_page_compact: lp and the slots below it take the form that
        CompactEntry gives them; nothing else changes. */
    method Compact(lp: Slot, ghost table: seq<Node>, ghost k: nat, ghost q: nat)
      requires TableOk(table, homes) && CompactedFrom(table, homes, nodes)
      requires SlotAt(lp, k, q) && At(lp).skip != 0 && SlotOk(homes, At(lp), k, q)
      requires lp.Child? ==> At(lp) == table[lp.node][lp.i]
      requires forall n | 0 <= n < |nodes| && Under(homes[n], k, q) :: nodes[n] == table[n]
      modifies this`physMap, this`nodes
      ensures CompactedFrom(table, homes, nodes)
      ensures At(lp) == CompactEntry(table, old(At(lp)), k)
      ensures lp.Child? ==> physMap == old(physMap)
      ensures forall n | 0 <= n < |nodes| && !Under(homes[n], k, q) :: nodes[n] ==
                if lp.Child? && n == lp.node then old(nodes)[n][lp.i := At(lp)] else old(nodes)[n]
      decreases k, 0
    {
      hide Part, Kid, Span, Digit, Walk;
      if At(lp).ptr == PHYS_MAP_NODE_NIL {
        return;
      }
      var p := At(lp).ptr;
      HomeUnderSlot(k - 1, q);
      UnderAnyChild(homes, k - 1, q);
      var valid, validPtr := CompactSlots(p, table, k - 1, q);
      if valid != 1 {
        return;
      }
      var child := nodes[p][validPtr];
      if At(lp).skip + child.skip >= 8 {
        return;
      }
      if child.skip == 0 {
        Put(lp, Entry(0, child.ptr));
      } else {
        Put(lp, Entry(At(lp).skip + child.skip, child.ptr));
      }
    }

    // The loop of phys_page_compact: compacts the slots of p and counts those in use.
    method CompactSlots(p: nat, ghost table: seq<Node>, ghost level: nat, ghost q: nat)
      returns (valid: nat, validPtr: nat)
      requires TableOk(table, homes) && CompactedFrom(table, homes, nodes)
      requires p < |nodes| && homes[p] == Home(level, q) && nodes[p] == table[p]
      requires forall n, m | 0 <= n < |nodes| && 0 <= m < P_L2_SIZE && Under(homes[n], level, Kid(q, m)) ::
                 nodes[n] == table[n]
      modifies this`physMap, this`nodes
      ensures CompactedFrom(table, homes, nodes) && physMap == old(physMap)
      ensures forall n | 0 <= n < |nodes| && n != p && !Under(homes[n], level + 1, q) :: nodes[n] == old(nodes)[n]
      ensures forall m | 0 <= m < P_L2_SIZE :: nodes[p][m] == CompactEntry(table, table[p][m], level)
      ensures valid == 1 <==> HasOnlyChild(table[p])
      ensures valid == 1 ==> validPtr == TheChild(table[p])
      decreases level, 1
    {
      hide Part, Kid, Span, Digit, Walk, CompactEntry;
      UnderAnyChild(homes, level, q);
      assert NodeOk(homes, table[p], homes[p]);
      valid, validPtr := 0, P_L2_SIZE;
      ghost var first := 0;
      var i := 0;
      while i < P_L2_SIZE
        invariant 0 <= i <= P_L2_SIZE
        invariant CompactedFrom(table, homes, nodes) && physMap == old(physMap)
        invariant forall n | 0 <= n < |nodes| && n != p && !Under(homes[n], level + 1, q) :: nodes[n] == old(nodes)[n]
        invariant forall n, m | 0 <= n < |nodes| && i <= m < P_L2_SIZE && Under(homes[n], level, Kid(q, m)) ::
                    nodes[n] == table[n]
        invariant forall m | 0 <= m < P_L2_SIZE ::
                    nodes[p][m] == if m < i then CompactEntry(table, table[p][m], level) else table[p][m]
        invariant Tally(table[p], i, valid, first, validPtr)
      {
        CompactEntryIdle(table, table[p][i], level);
        if nodes[p][i].ptr != PHYS_MAP_NODE_NIL {
          validPtr := i;
          first := if valid == 0 then i else first;
          valid := valid + 1;
          if nodes[p][i].skip != 0 {
            KidBasics(q, i);
            Compact(Child(p, i), table, level, Kid(q, i));
          }
        }
        i := i + 1;
      }
      TallyDecides(table[p], valid, first, validPtr);
    }

    // ---- lookup ----

    // phys_page_find: the loop that follows `skip` levels at a time.
    method PageFind(addr: nat) returns (n: nat)
      requires Leaf(View(), PageOf(addr)) < |sections| <= PHYS_MAP_NODE_NIL
      ensures n == Checked(sections, Leaf(View(), PageOf(addr)), addr)
    {
      var index := PageOf(addr);
      var lp := physMap;
      var i: nat := P_L2_LEVELS;
      while lp.skip != 0
        invariant Walk(nodes, lp, i, index) == Leaf(View(), index)
        decreases i
      {
        i := i - lp.skip;
        if lp.ptr == PHYS_MAP_NODE_NIL {
          return PHYS_SECTION_UNASSIGNED;
        }
        lp := nodes[lp.ptr][Digit(index, i)];
      }
      if sections[lp.ptr].size >= ADDR_LIMIT || Contains(sections[lp.ptr], addr) {
        n := lp.ptr;
      } else {
        n := PHYS_SECTION_UNASSIGNED;
      }
    }

    function View(): Tables
      reads this`physMap, this`nodes, this`sections, this`subpages
    {
      Tables(physMap, nodes, sections, subpages)
    }

    // The state between mem_begin and mem_commit.
    ghost predicate Valid()
      reads this
    {
      TableValid() && PagesOk(View()) && |nodes| <= NodeAllowance(|sections|)
    }

    // mem_begin: the four dummy sections and an empty table.
    constructor MemBegin()
      ensures Valid() && fresh(this) && |sections| == DUMMY_SECTIONS
      ensures Implements(View(), [])
    {
      physMap, nodes, nodesNbAlloc, homes, subpages := NIL_ENTRY, [], 0, [], [];
      sections := [Section(IoUnassigned, 0, 0, ADDR_LIMIT), Section(IoNotdirty, 0, 0, ADDR_LIMIT),
                   Section(IoRom, 0, 0, ADDR_LIMIT), Section(IoWatch, 0, 0, ADDR_LIMIT)];
      new;
      EmptyTables(View());
    }

    // ---- registering sections ----

    // phys_section_add; its assertion on the number of sections aborts.
    method SectionAdd(section: Section) returns (ok: bool, n: nat)
      modifies this`sections
      ensures ok <==> |old(sections)| < PAGE_SIZE
      ensures n == |old(sections)| && sections == if ok then old(sections) + [section] else old(sections)
    {
      n := |sections|;
      ok := |sections| < PAGE_SIZE;
      if ok {
        sections := sections + [section];
      }
    }

    /** register_multipage */
    method RegisterMultipage(now: Section) returns (ok: bool)
      requires Valid() && PageAligned(now) && now.mr.Guest? && Unmapped(View(), now)
      modifies this
      ensures ok <==> |old(sections)| + 1 <= PAGE_SIZE
      ensures ok ==> Valid() && |sections| == |old(sections)| + 1 && Adds(old(View()), View(), now)
      ensures ok ==> KeepsBeyond(old(View()), View(), now.start + now.size)
    {
      hide P_L2_LEVELS, NodeAllowance, PageOf, InPage, PageAddr, Walk, Span, TableOk, SlotOk, PagesOk, Adds;
      var n;
      ok, n := SectionAdd(now);
      if !ok {
        return;
      }
      var index, numPages := PageOf(now.start), PageOf(now.size);
      AlignedRange(now);
      TableSpansAddressSpace();
      forall page: nat | index <= page < index + numPages
        ensures Walk(nodes, physMap, P_L2_LEVELS, page) == PHYS_SECTION_UNASSIGNED
      {
        UnmappedPage(old(View()), now, page);
      }
      SectionNumbers(old(View()), |nodes|);
      PagesFree(index, numPages);
      PageSet(index, numPages, n);
      PagesBeyond(old(View()), View(), now);
      AddPages(old(View()), View(), now);
    }

    method SubpageRegister(id: nat, start: nat, end: nat, section: nat) returns (r: int)
      requires id < |subpages| && |subpages[id].subSection| == PAGE_SIZE
      modifies this`subpages
      ensures start < PAGE_SIZE && end < PAGE_SIZE ==>
                r == 0 && subpages == old(subpages)[id := WithBytes(old(subpages)[id], start, end + 1, section)]
      ensures !(start < PAGE_SIZE && end < PAGE_SIZE) ==> r == -1 && subpages == old(subpages)
    {
      if start >= PAGE_SIZE || end >= PAGE_SIZE {
        return -1;
      }
      var idx := start;
      assert subpages[id].subSection == WithBytes(subpages[id], start, idx, section).subSection;
      while idx <= end
        invariant start <= idx && (idx <= end + 1 || idx == start)
        invariant subpages == old(subpages)[id := WithBytes(old(subpages)[id], start, idx, section)]
        decreases end + 1 - idx
      {
        var sub := subpages[id];
        subpages := subpages[id := sub.(subSection := sub.subSection[idx := section])];
        idx := idx + 1;
        assert subpages[id].subSection == WithBytes(old(subpages)[id], start, idx, section).subSection;
      }
      assert subpages[id].subSection == WithBytes(old(subpages)[id], start, end + 1, section).subSection;
      return 0;
    }

    method RegisterSubpage(now: Section) returns (ok: bool)
      requires Valid() && InOnePage(now, PageOf(now.start)) && now.mr.Guest? && Unmapped(View(), now)
      modifies this
      ensures ok <==> |old(sections)| + SubpageSlots(old(View()), PageOf(now.start)) <= PAGE_SIZE
      ensures ok ==> |sections| == |old(sections)| + SubpageSlots(old(View()), PageOf(now.start))
      ensures ok ==> Valid() && Adds(old(View()), View(), now) && KeepsBeyond(old(View()), View(), now.start + now.size)
    {
      hide P_L2_LEVELS, NodeAllowance, PageOf, InPage, PageAddr, Walk, Span, TableOk, SlotOk, PagesOk, Adds;
      ghost var t := View();
      var page := PageOf(now.start);
      var base := PageAddr(page);
      UnmappedByte(t, now, page);
      SectionNumbers(t, |nodes|);
      var existing := PageFind(base);
      assert sections[existing].mr.SubpageRegion? || sections[existing].mr == IoUnassigned;
      if !sections[existing].mr.SubpageRegion? {
        ok := RegisterFresh(now, page);
      } else {
        ok := RegisterAgain(now, page, sections[existing].mr.id);
      }
      if ok {
        PageBeyond(t, View(), now, page);
      }
    }

    // register_subpage on a page that no section uses.
    method RegisterFresh(now: Section, page: nat) returns (ok: bool)
      requires Valid() && InOnePage(now, page) && now.mr.Guest? && page < ADDR_PAGES <= Span(P_L2_LEVELS)
      requires Leaf(View(), page) == PHYS_SECTION_UNASSIGNED
      requires InPage(now.start) == now.start - PageAddr(page)
      modifies this
      ensures ok <==> |old(sections)| + 2 <= PAGE_SIZE
      ensures ok ==> Valid() && |sections| == |old(sections)| + 2 && Adds(old(View()), View(), now)
      ensures ok ==> forall other: nat | other < Span(P_L2_LEVELS) && other != page ::
                Leaf(View(), other) == old(Leaf(View(), other))
    {
      hide P_L2_LEVELS, NodeAllowance, PageOf, InPage, PageAddr, Walk, Span, TableOk, SlotOk, PagesOk, Adds,
           EmptySubpage, WithBytes, InOnePage;
      assert now.size > 0 && InPage(now.start) + now.size <= PAGE_SIZE by { InOnePageFits(now, page); }
      ghost var t := View();
      SectionNumbers(t, |nodes|);
      var base := PageAddr(page);
      var id := |subpages|;
      subpages := subpages + [EmptySubpage(page)];
      var n, m;
      ok, n := SectionAdd(Section(SubpageRegion(id), base, 0, PAGE_SIZE));
      if !ok {
        return;
      }
      PagesFree(page, 1);
      PageSet(page, 1, n);
      var start := InPage(now.start);
      ok, m := SectionAdd(now);
      if !ok {
        return;
      }
      var _ := SubpageRegister(id, start, start + now.size - 1, m);
      AddBytesFresh(t, View(), now, page);
    }

    // register_subpage on a page that is split already.
    method RegisterAgain(now: Section, page: nat, id: nat) returns (ok: bool)
      requires Valid() && InOnePage(now, page) && now.mr.Guest? && page < ADDR_PAGES <= Span(P_L2_LEVELS)
      requires PageOk(sections, subpages, Leaf(View(), page), page)
      requires Leaf(View(), page) != PHYS_SECTION_UNASSIGNED && sections[Leaf(View(), page)].mr == SubpageRegion(id)
      requires id < |subpages| && |subpages[id].subSection| == PAGE_SIZE
      requires InPage(now.start) == now.start - PageAddr(page)
      modifies this
      ensures ok <==> |old(sections)| + 1 <= PAGE_SIZE
      ensures ok ==> Valid() && |sections| == |old(sections)| + 1 && Adds(old(View()), View(), now)
      ensures ok ==> nodes == old(nodes) && physMap == old(physMap)
    {
      hide P_L2_LEVELS, NodeAllowance, PageOf, InPage, PageAddr, Walk, Span, TableOk, SlotOk, PagesOk, PageOk,
           InOnePage, Adds, WithBytes;
      assert now.size > 0 && InPage(now.start) + now.size <= PAGE_SIZE by { InOnePageFits(now, page); }
      ghost var t := View();
      SectionNumbers(t, |nodes|);
      var start := InPage(now.start);
      var m;
      ok, m := SectionAdd(now);
      if !ok {
        return;
      }
      var _ := SubpageRegister(id, start, start + now.size - 1, m);
      AddBytesAgain(t, View(), now, page);
    }

    // Registers the piece of `section` that follows its first `done` bytes.
    method AddPiece(now: Section, multipage: bool, ghost t: Tables, ghost section: Section, ghost done: nat)
      returns (ok: bool)
      requires Valid() && PagesOk(t) && Unmapped(t, section) && Adds(t, View(), Prefix(section, done))
      requires now == Suffix(section, done, now.size) && now.mr.Guest? && done + now.size <= section.size
      requires if multipage then PageAligned(now) else InOnePage(now, PageOf(now.start))
      modifies this
      ensures var slots := if multipage then 1 else SubpageSlots(old(View()), PageOf(now.start));
              && (ok <==> |old(sections)| + slots <= PAGE_SIZE)
              && (ok ==> |sections| == |old(sections)| + slots)
      ensures ok ==> Valid() && Adds(t, View(), Prefix(section, done + now.size))
      ensures ok ==> KeepsBeyond(old(View()), View(), now.start + now.size)
    {
      hide P_L2_LEVELS, NodeAllowance, PageOf, PageAddr, InPage, Walk, Span, TableOk, SlotOk, Adds, Unmapped,
           PageAligned, InOnePage, PagesOk;
      ghost var before := View();
      SuffixUnmapped(t, before, section, done, now.size);
      if multipage {
        ok := RegisterMultipage(now);
      } else {
        ok := RegisterSubpage(now);
      }
      if ok {
        AddsCompose(t, before, View(), section, done, now.size);
      }
    }

    /** mem_add: cuts the section at page boundaries and registers the pieces. The
        result is false when the section array is full, where the source aborts. */
    method MemAdd(section: Section) returns (ok: bool)
      requires Valid() && section.mr.Guest? && section.size > 0 && section.start + section.size <= ADDR_LIMIT
      requires Unmapped(View(), section)
      modifies this
      ensures ok <==> |old(sections)| + SlotsNeeded(old(View()), section) <= PAGE_SIZE
      ensures ok ==> Valid() && |sections| == |old(sections)| + SlotsNeeded(old(View()), section)
      ensures ok ==> Adds(old(View()), View(), section) && SlotsNeeded(old(View()), section) <= 5
    {
      hide P_L2_LEVELS, NodeAllowance, PageOf, PageAddr, InPage, Walk, Leaf, Span, TableOk, SlotOk, Adds, Unmapped,
           PageAligned, InOnePage, PagesOk, RestSlots, SubpageSlots, KeepsBeyond, SlotsNeeded;
      ghost var t := View();
      SlotsBounds(t, section);
      var remain, now := section, section;
      ok, now := AddFirst(section, t);
      if !ok {
        return;
      }
      ghost var done: nat := 0;
      while remain.size != now.size
        invariant Valid() && done + remain.size == section.size && now.size <= remain.size
        invariant remain == Suffix(section, done, remain.size)
        invariant Adds(t, View(), Prefix(section, done + now.size))
        invariant remain.size != now.size ==> InPage(remain.start + now.size) == 0
        invariant KeepsBeyond(t, View(), remain.start + now.size)
        invariant |sections| + RestSlots(t, remain.start + now.size, remain.size - now.size) ==
                  |old(sections)| + SlotsNeeded(t, section)
        invariant ok
        decreases remain.size - now.size
      {
        done := done + now.size;
        remain := Section(remain.mr, remain.start + now.size, remain.offset + now.size, remain.size - now.size);
        ok, now := AddNext(remain, t, section, done);
        if !ok {
          return;
        }
      }
      FewSections(View());
    }

    // The piece up to the first page boundary, if the section does not begin at one.
    method AddFirst(section: Section, ghost t: Tables) returns (ok: bool, now: Section)
      requires Valid() && section.mr.Guest? && section.size > 0 && section.start + section.size <= ADDR_LIMIT
      requires t == View() && Unmapped(t, section)
      modifies this
      ensures !ok ==> |old(sections)| + SlotsNeeded(t, section) > PAGE_SIZE
      ensures ok ==> Valid() && PagesOk(t) && now.size <= section.size && now == section.(size := now.size)
      ensures ok ==> Adds(t, View(), Prefix(section, now.size)) && KeepsBeyond(t, View(), section.start + now.size)
      ensures ok ==> |sections| + RestSlots(t, section.start + now.size, section.size - now.size) ==
                     |old(sections)| + SlotsNeeded(t, section)
      ensures ok && section.size != now.size ==> InPage(section.start + now.size) == 0
    {
      hide P_L2_LEVELS, NodeAllowance, PageOf, PageAddr, InPage, Walk, Leaf, Span, TableOk, SlotOk, Adds, Unmapped,
           PageAligned, InOnePage, PagesOk, RestSlots, SubpageSlots, KeepsBeyond;
      PagesOkReadable(t);
      AddsNothing(t, section);
      SlotsBounds(t, section);
      KeepsSelf(t, section.start);
      ok := true;
      now := section;
      if InPage(now.start) != 0 {
        var left := PAGE_SIZE - InPage(now.start);
        now := now.(size := Min(left, now.size));
        ShortPiece(now);
        ok := AddPiece(now, false, t, section, 0);
        if ok {
          KeepsOn(t, t, View(), section.start, section.start + now.size);
        }
      } else {
        now := now.(size := 0);
      }
    }

    // One turn of the loop of mem_add.
    method AddNext(remain: Section, ghost t: Tables, ghost section: Section, ghost done: nat)
      returns (ok: bool, now: Section)
      requires Valid() && PagesOk(t) && Unmapped(t, section) && Adds(t, View(), Prefix(section, done))
      requires remain == Suffix(section, done, remain.size) && remain.mr.Guest? && done + remain.size == section.size
      requires remain.size > 0 && InPage(remain.start) == 0 && remain.start + remain.size <= ADDR_LIMIT
      requires KeepsBeyond(t, View(), remain.start)
      modifies this
      ensures !ok ==> |old(sections)| + RestSlots(t, remain.start, remain.size) > PAGE_SIZE
      ensures ok ==> Valid() && now.size <= remain.size && now == remain.(size := now.size) && now.size > 0
      ensures ok ==>
                Adds(t, View(), Prefix(section, done + now.size)) && KeepsBeyond(t, View(), remain.start + now.size)
      ensures ok ==> |sections| + RestSlots(t, remain.start + now.size, remain.size - now.size) ==
                     |old(sections)| + RestSlots(t, remain.start, remain.size)
      ensures ok && remain.size != now.size ==> InPage(remain.start + now.size) == 0
    {
      hide P_L2_LEVELS, NodeAllowance, PageOf, PageAddr, InPage, Walk, Leaf, Span, TableOk, SlotOk, Adds, Unmapped,
           PageAligned, InOnePage, PagesOk, RestSlots, SubpageSlots, KeepsBeyond;
      ghost var before := View();
      now := remain;
      if remain.size < PAGE_SIZE {
        ShortPiece(now);
        StartsInTable(now);
        TailSlots(t, before, remain.start, remain.size);
        ok := AddPiece(now, false, t, section, done);
      } else if InPage(remain.start) != 0 {
        assert false; // the first piece ends at a page boundary, so no later piece starts inside a page
      } else {
        PagesSlots(t, remain.start, remain.size);
        now := now.(size := now.size - InPage(now.size));
        WholePages(remain);
        ok := AddPiece(now, true, t, section, done);
      }
      if ok {
        KeepsOn(t, before, View(), remain.start, remain.start + now.size);
      }
    }

    /** mem_commit: phys_page_compact_all, after which the table is only read. */
    method MemCommit()
      requires Valid()
      modifies this`physMap, this`nodes
      ensures Readable(View())
      ensures forall addr: nat | addr < ADDR_LIMIT ::
                ReadableAt(old(View()), addr) && Resolve(View(), addr) == Resolve(old(View()), addr)
    {
      hide P_L2_LEVELS, NodeAllowance, PageOf, InPage, PageAddr, Walk, Span, Part, CompactEntry;
      ghost var t := View();
      if physMap.skip != 0 {
        Compact(Root, nodes, P_L2_LEVELS, 0);
      }
      SectionsFit(t);
      forall addr: nat | addr < ADDR_LIMIT
        ensures ReadableAt(t, addr) && ReadableAt(View(), addr) && Resolve(View(), addr) == Resolve(t, addr)
      {
        CompactionKeepsLookups(t, View(), homes, addr);
      }
    }

    /** address_space_lookup_region and address_space_translate_internal; `regionSize` gives
        the sizes of the regions. The length is cut to what the region has left when counted from
        the start of the section. So the access stays in the region if and only if the
        section begins where the region does, or no cut was needed. */
    method TranslateInternal(addr: nat, plen: nat, regionSize: Region -> nat, resolveSubpage: bool)
      returns (n: nat, xlat: int, len: int)
      requires ReadableAt(View(), addr) && |sections| <= PHYS_MAP_NODE_NIL
      ensures n < |sections|
      ensures resolveSubpage ==> (sections[n].mr, xlat) == Resolve(View(), addr)
      ensures !resolveSubpage ==>
                n == Checked(sections, Leaf(View(), PageOf(addr)), addr) &&
                    (sections[n].mr, xlat) == Translate(sections[n], addr)
      ensures len <= plen && (len < plen ==> len == regionSize(sections[n].mr) - (addr - sections[n].start))
      ensures xlat == addr - sections[n].start + sections[n].offset
      ensures xlat + len <= regionSize(sections[n].mr) <==>
              sections[n].offset == 0 || xlat + plen <= regionSize(sections[n].mr)
    {
      hide P_L2_LEVELS, PageOf, InPage, PageAddr, Walk;
      n := PageFind(addr);
      if resolveSubpage && sections[n].mr.SubpageRegion? {
        n := subpages[sections[n].mr.id].subSection[InPage(addr)];
      }
      var diff := addr - sections[n].start;
      xlat := diff + sections[n].offset;
      len := if regionSize(sections[n].mr) - diff < plen then regionSize(sections[n].mr) - diff else plen;
    }
  }

  ghost predicate Disjoint(a: Section, b: Section) {
    a.start + a.size <= b.start || b.start + b.size <= a.start
  }

  // The flat view of the memory API: non-empty, inside the address space, not overlapping.
  ghost predicate FlatRanges(list: seq<Section>) {
    && (forall i | 0 <= i < |list| ::
        list[i].mr.Guest? && list[i].size > 0 && list[i].start + list[i].size <= ADDR_LIMIT)
    && (forall i, j | 0 <= i < j < |list| :: Disjoint(list[i], list[j]))
  }

  lemma {:induction false} FlatLookupOutside(list: seq<Section>, addr: nat)
    requires forall i | 0 <= i < |list| :: !Contains(list[i], addr)
    ensures FlatLookup(list, addr) == (IoUnassigned, addr)
  {
    if list != [] {
      FlatLookupOutside(list[..|list| - 1], addr);
    }
  }

  lemma {:induction false} FlatLookupInside(list: seq<Section>, i: nat, addr: nat)
    requires FlatRanges(list) && i < |list| && Contains(list[i], addr)
    ensures FlatLookup(list, addr) == Translate(list[i], addr)
  {
    var last := |list| - 1;
    if i < last {
      assert Disjoint(list[i], list[last]);
      FlatLookupInside(list[..last], i, addr);
    }
  }

  // The tables mean what the flat list says.
  ghost predicate Implements(t: Tables, list: seq<Section>) {
    Readable(t) && forall addr: nat | addr < ADDR_LIMIT :: Resolve(t, addr) == FlatLookup(list, addr)
  }

  lemma ImplementsNext(t: Tables, t': Tables, list: seq<Section>, i: nat)
    requires i < |list| && Implements(t, list[..i]) && Adds(t, t', list[i])
    ensures Implements(t', list[..i + 1])
  {
    hide PageOf, Leaf, ReadableAt, Resolve;
    assert list[..i + 1][..i] == list[..i];
  }

  lemma ImplementsSame(t: Tables, t': Tables, list: seq<Section>)
    requires Implements(t, list) && Readable(t')
    requires forall addr: nat | addr < ADDR_LIMIT :: Resolve(t', addr) == Resolve(t, addr)
    ensures Implements(t', list)
  {
  }

  lemma NextUnmapped(t: Tables, list: seq<Section>, i: nat)
    requires FlatRanges(list) && i < |list| && PagesOk(t) && Implements(t, list[..i])
    ensures Unmapped(t, list[i])
  {
    hide PageOf, Leaf, ReadableAt, Resolve, PagesOk;
    forall addr: nat | Contains(list[i], addr) && addr < ADDR_LIMIT
      ensures ReadableAt(t, addr) && Resolve(t, addr).0 == IoUnassigned
    {
      forall j | 0 <= j < i
        ensures !Contains(list[..i][j], addr)
      {
        assert Disjoint(list[j], list[i]);
      }
      FlatLookupOutside(list[..i], addr);
    }
  }

  /** mem_begin, one mem_add for each range of the flat view, mem_commit: every byte
      address is sent to the section that contains it, or is unassigned. */
  method BuildDispatch(list: seq<Section>) returns (ok: bool, d: AddressSpaceDispatch)
    requires FlatRanges(list)
    ensures fresh(d)
    ensures DUMMY_SECTIONS + 5 * |list| <= PAGE_SIZE ==> ok
    ensures ok ==> Implements(d.View(), list)
  {
    hide P_L2_LEVELS, NodeAllowance, Walk, TableOk, SlotOk, Adds, PagesOk, Implements;
    d := new AddressSpaceDispatch.MemBegin();
    ok := true;
    var i := 0;
    assert list[..0] == [];
    while i < |list|
      invariant 0 <= i <= |list| && fresh(d) && d.Valid() && ok
      invariant |d.sections| <= DUMMY_SECTIONS + 5 * i
      invariant Implements(d.View(), list[..i])
    {
      ghost var t := d.View();
      NextUnmapped(t, list, i);
      ok := d.MemAdd(list[i]);
      if !ok {
        return;
      }
      ImplementsNext(t, d.View(), list, i);
      i := i + 1;
    }
    assert list[..i] == list;
    ghost var built := d.View();
    d.MemCommit();
    ImplementsSame(built, d.View(), list);
  }

  lemma PageInSpace()
    ensures DUMMY_SECTIONS + 5 <= PAGE_SIZE <= ADDR_LIMIT
  {
    assert Pow2(4) == 16;
    Pow2Monotone(4, TARGET_PAGE_BITS);
    Pow2Monotone(TARGET_PAGE_BITS, ADDR_SPACE_BITS);
  }

  /** A page of a region of two pages, mapped alone: an access of two pages is not cut, though it
      begins in the second page of the region. */
  method PastTheEnd() returns (ok: bool, xlat: int, len: int)
    ensures ok && xlat == PAGE_SIZE && len == 2 * PAGE_SIZE
  {
    hide P_L2_LEVELS, PageOf, InPage, PageAddr, Walk, Leaf;
    PageInSpace();
    var list := [Section(Guest(0), 0, PAGE_SIZE, PAGE_SIZE)];
    var d;
    ok, d := BuildDispatch(list);
    assert Resolve(d.View(), 0) == Translate(list[0], 0);
    var n;
    n, xlat, len := d.TranslateInternal(0, 2 * PAGE_SIZE, _ => 2 * PAGE_SIZE, true);
  }

  // With n sections taken there are node numbers left for one more range.
  lemma SectionNumbers(t: Tables, nodes: nat)
    requires PagesOk(t) && nodes <= NodeAllowance(|t.sections|)
    ensures 0 < |t.sections| < PHYS_MAP_NODE_NIL && nodes + 2 * P_L2_LEVELS <= PHYS_MAP_NODE_NIL
    ensures NodeAllowance(|t.sections|) + 2 * P_L2_LEVELS ==
            NodeAllowance(|t.sections| + 1) <= NodeAllowance(|t.sections| + 2)
  {
    NodesFit(|t.sections|);
    MulMonotone(|t.sections| + 1, |t.sections| + 2, 2 * P_L2_LEVELS);
    SectionsFit(t);
    NodeHasTwoSlots();
  }

  // `valid` of the first i slots are in use; `first` and `last` are the extreme ones.
  ghost predicate Tally(node: Node, i: nat, valid: nat, first: nat, last: nat) {
    if valid == 0 then
      forall m | 0 <= m < i && m < P_L2_SIZE :: node[m].ptr == PHYS_MAP_NODE_NIL
    else
      && first <= last < i && last < P_L2_SIZE
      && node[first].ptr != PHYS_MAP_NODE_NIL && node[last].ptr != PHYS_MAP_NODE_NIL
      && (if valid == 1 then
            forall m | 0 <= m < i && m < P_L2_SIZE && m != last :: node[m].ptr == PHYS_MAP_NODE_NIL
          else
            first < last)
  }

  lemma TallyDecides(node: Node, valid: nat, first: nat, last: nat)
    requires Tally(node, P_L2_SIZE, valid, first, last)
    ensures valid == 1 <==> HasOnlyChild(node)
    ensures valid == 1 ==> last == TheChild(node)
  {
    if valid == 1 {
      assert OnlyChild(node, last);
    }
  }

  // From a to b, the pages [lo, hi) below node p became `leaf` and the others kept their section.
  ghost predicate Filled(a: seq<Node>, b: seq<Node>, p: nat, level: nat, q: nat, lo: nat, hi: nat, leaf: nat)
    requires p < |a| && p < |b|
  {
    forall m: nat, idx: nat | m < P_L2_SIZE && Part(idx, level) == Kid(q, m) ::
      Walk(b, b[p][m], level, idx) == if lo <= idx < hi then leaf else Walk(a, a[p][m], level, idx)
  }

  lemma FilledBelow(a: seq<Node>, b: seq<Node>, p: nat, level: nat, q: nat, lo: nat, hi: nat, leaf: nat, idx: nat)
    requires p < |a| && p < |b| && p != PHYS_MAP_NODE_NIL
    requires Filled(a, b, p, level, q, lo, hi, leaf) && Part(idx, level + 1) == q
    ensures Walk(b, Entry(1, p), level + 1, idx) == if lo <= idx < hi then leaf
                                                    else Walk(a, Entry(1, p), level + 1, idx)
  {
    hide Part, Kid, Span, Digit;
    var m := Digit(idx, level);
    KidPart(idx, level, q, m);
    WalkNode(a, p, level, q, m, idx);
    WalkNode(b, p, level, q, m, idx);
  }

  lemma FilledStep(a: seq<Node>, b: seq<Node>, c: seq<Node>, p: nat, level: nat, q: nat, i: nat, lo: nat, from: nat,
                   hi: nat, leaf: nat)
    requires p < |a| && p < |b| && p < |c| && i < P_L2_SIZE
    requires Filled(a, b, p, level, q, lo, from, leaf)
    requires lo <= from <= hi && Lo(Kid(q, i), level) <= from && hi <= Lo(Kid(q, i), level) + Span(level)
    requires forall idx: nat | Part(idx, level) == Kid(q, i) ::
               Walk(c, c[p][i], level, idx) == if from <= idx < hi then leaf else Walk(b, b[p][i], level, idx)
    requires forall m: nat, idx: nat | m < P_L2_SIZE && m != i ::
               Walk(c, c[p][m], level, idx) == Walk(b, b[p][m], level, idx)
    ensures Filled(a, c, p, level, q, lo, hi, leaf)
  {
    hide Part, Kid, Lo, Span, Digit, Walk;
    forall m: nat, idx: nat | m < P_L2_SIZE && Part(idx, level) == Kid(q, m)
      ensures Walk(c, c[p][m], level, idx) == if lo <= idx < hi then leaf else Walk(a, a[p][m], level, idx)
    {
      PartInterval(idx, level, Kid(q, i));
      KidBasics(q, i);
    }
  }

  // Nodes that one turn of the loop can allocate below the slot (level, c).
  ghost function ChildBudget(index: nat, nb: nat, level: nat, c: nat): nat {
    if level == 0 || (index == Lo(c, level) && nb >= Span(level)) then 0 else NodeBudget(index, nb, level - 1, c)
  }

  // Nodes that the first slot of a range can take when the range goes on after it.
  ghost function FirstBudget(index: nat, level: nat, q: nat, i: nat): nat {
    if index == Lo(Kid(q, i), level) then 0 else level
  }

  // Nodes that setting [index, index + nb) below the slot (level + 1, q) can allocate.
  ghost function NodeBudget(index: nat, nb: nat, level: nat, q: nat): nat {
    if index == Lo(q, level + 1) || index + nb >= Lo(q + 1, level + 1) then level + 1 else 2 * level + 1
  }

  lemma InOnePageFits(s: Section, page: nat)
    requires InOnePage(s, page)
    ensures s.size > 0 && s.start - PageAddr(page) + s.size <= PAGE_SIZE
  {
  }

  lemma BudgetMax(index: nat, nb: nat, level: nat)
    ensures NodeBudget(index, nb, level, 0) <= 2 * level + 1
  {
  }

  lemma RootIsOpen(nodes: seq<Node>, homes: seq<Home>, root: Entry, page: nat)
    requires SlotOk(homes, root, P_L2_LEVELS, 0) && Walk(nodes, root, P_L2_LEVELS, page) == PHYS_SECTION_UNASSIGNED
    ensures root.skip != 0 && P_L2_LEVELS >= 1
  {
    NodeHasTwoSlots();
  }

  lemma ChildBudgetFits(index0: nat, index: nat, nb: nat, level: nat, q: nat, i0: nat, i: nat)
    requires nb > 0 && i0 <= i < P_L2_SIZE && index0 <= index
    requires Part(index0, level) == Kid(q, i0)
    requires index == if i == i0 then index0 else Lo(Kid(q, i), level)
    ensures var taken := (if i == i0 then 0 else FirstBudget(index0, level, q, i0)) +
            ChildBudget(index, nb, level, Kid(q, i));
            && taken < NodeBudget(index0, index + nb - index0, level, q)
            && (index + nb > Lo(Kid(q, i) + 1, level) ==> taken <= FirstBudget(index0, level, q, i0))
  {
    hide Part, Kid, Lo, Span;
    PartInterval(index0, level, Kid(q, i0));
    PartInterval(index, level, Kid(q, i));
    PartInterval(index0, level + 1, q);
    KidInside(q, i0, level);
    KidInside(q, i, level);
  }
}
