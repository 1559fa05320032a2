/**
 Sizes of the physical memory dispatch: the target page, the radix node and
 the number of radix levels. The source fixes them with macros; here the page
 size and the node size are left open, so every result holds for all of them.
 Shifts and masks by powers of two are written as division and remainder.
*/
module Geometry {
  import opened Arithmetic

  // The targets in the repository use 10 to 13 bits.
  type PageBits = n: nat | 10 <= n <= 13 witness 12
  type NodeBits = n: nat | 1 <= n witness 9

  const ADDR_SPACE_BITS: nat := 64
  const TARGET_PAGE_BITS: PageBits
  const P_L2_BITS: NodeBits
  const P_L2_LEVELS: nat := (ADDR_SPACE_BITS - TARGET_PAGE_BITS - 1) / P_L2_BITS + 1

  const PAGE_SIZE: nat := Pow2(TARGET_PAGE_BITS)
  const P_L2_SIZE: nat := Pow2(P_L2_BITS)
  const ADDR_PAGES: nat := Pow2(ADDR_SPACE_BITS - TARGET_PAGE_BITS)
  const ADDR_LIMIT: nat := Pow2(ADDR_SPACE_BITS)

  function Pow2(n: nat): (r: nat)
    ensures r >= 1
  {
    if n == 0 then 1 else 2 * Pow2(n - 1)
  }

  // Number of pages below an entry that sits `k` levels above the pages.
  function Span(k: nat): (r: nat)
    ensures r >= 1
  {
    if k == 0 then 1 else MulPositive(P_L2_SIZE, Span(k - 1)); P_L2_SIZE * Span(k - 1)
  }

  // The number of the level-k range that page idx lies in.
  function Part(idx: nat, k: nat): nat {
    DivBounds(idx, Span(k)); idx / Span(k)
  }

  // The first page of the level-k range number q.
  function Lo(q: nat, k: nat): nat {
    MulMonotone(0, q, Span(k)); q * Span(k)
  }

  // The number, one level down, of sub-range i of range q.
  function Kid(q: nat, i: nat): nat {
    MulMonotone(0, q, P_L2_SIZE); q * P_L2_SIZE + i
  }

  // The slot that page idx selects in a node of level k.
  function Digit(idx: nat, k: nat): (d: nat)
    ensures d < P_L2_SIZE
  {
    Part(idx, k) % P_L2_SIZE
  }

  function PageOf(addr: nat): nat {
    DivBounds(addr, PAGE_SIZE); addr / PAGE_SIZE
  }

  function InPage(addr: nat): (b: nat)
    ensures b < PAGE_SIZE
  {
    addr % PAGE_SIZE
  }

  function PageAddr(page: nat): nat {
    MulMonotone(0, page, PAGE_SIZE); page * PAGE_SIZE
  }

  // ---- ranges of the table ----

  lemma NodeHasTwoSlots()
    ensures P_L2_SIZE >= 2 && P_L2_LEVELS >= 1
  {
    assert Pow2(P_L2_BITS) == 2 * Pow2(P_L2_BITS - 1);
    DivBounds(ADDR_SPACE_BITS - TARGET_PAGE_BITS - 1, P_L2_BITS);
  }

  lemma PartInterval(idx: nat, k: nat, q: nat)
    ensures Part(idx, k) == q <==> Lo(q, k) <= idx < Lo(q, k) + Span(k)
    ensures Lo(q + 1, k) == Lo(q, k) + Span(k)
    ensures Part(idx, k) == q ==> (idx % Span(k) == 0 <==> idx == Lo(q, k))
  {
    DivInterval(idx, Span(k), q);
    MulSucc(q, Span(k));
    DivBounds(idx, Span(k));
  }

  lemma WholeRange(idx: nat, k: nat)
    ensures Part(idx, k) == 0 <==> idx < Span(k)
    ensures Lo(0, k) == 0 && Lo(1, k) == Span(k)
  {
    PartInterval(idx, k, 0);
  }

  lemma KidBasics(q: nat, i: nat)
    ensures Kid(q, i + 1) == Kid(q, i) + 1
    ensures forall j: nat :: Kid(q, j) == Kid(q, i) ==> j == i
  {
  }

  lemma KidDivMod(q: nat, i: nat)
    requires i < P_L2_SIZE
    ensures Kid(q, i) / P_L2_SIZE == q && Kid(q, i) % P_L2_SIZE == i
  {
    DivModUnique(Kid(q, i), P_L2_SIZE, q, i);
  }

  // Climbing one level divides by the node size once more.
  lemma PartPart(idx: nat, k: nat)
    ensures Span(k + 1) == P_L2_SIZE * Span(k)
    ensures Part(idx, k) / P_L2_SIZE == Part(idx, k + 1)
    ensures Part(idx, k) == Kid(Part(idx, k + 1), Digit(idx, k))
  {
    var s, n := Span(k), P_L2_SIZE;
    var q, r := idx / s, idx % s;
    var a, b := q / n, q % n;
    DivBounds(idx, s);
    DivBounds(q, n);
    assert idx == (a * n + b) * s + r;
    MulRegroup(a, n, b, s);
    assert b * s + r < n * s by {
      MulMonotone(b + 1, n, s);
      MulSucc(b, s);
    }
    MulMonotone(0, b, s);
    DivModUnique(idx, n * s, a, b * s + r);
  }

  lemma KidPart(idx: nat, k: nat, q: nat, i: nat)
    requires i < P_L2_SIZE
    ensures Part(idx, k) == Kid(q, i) <==> Part(idx, k + 1) == q && Digit(idx, k) == i
  {
    PartPart(idx, k);
    KidDivMod(q, i);
  }

  lemma LoKid(q: nat, k: nat)
    ensures Lo(Kid(q, 0), k) == Lo(q, k + 1)
    ensures Lo(Kid(q, P_L2_SIZE), k) == Lo(q, k + 1) + Span(k + 1)
  {
    MulRegroup(q, P_L2_SIZE, 0, Span(k));
    MulRegroup(q, P_L2_SIZE, P_L2_SIZE, Span(k));
  }

  // Sub-range i lies inside range q, and starts it exactly when i == 0.
  lemma KidInside(q: nat, i: nat, k: nat)
    requires i < P_L2_SIZE
    ensures Lo(q, k + 1) <= Lo(Kid(q, i), k)
    ensures Lo(Kid(q, i), k) + Span(k) <= Lo(q, k + 1) + Span(k + 1)
    ensures Lo(Kid(q, i), k) == Lo(q, k + 1) <==> i == 0
  {
    LoKid(q, k);
    MulRegroup(q, P_L2_SIZE, i, Span(k));
    MulMonotone(i + 1, P_L2_SIZE, Span(k));
    MulSucc(i, Span(k));
    MulMonotone(if i == 0 then 0 else 1, i, Span(k));
  }

  // Reducing modulo a larger span keeps the remainder modulo a smaller one, and the digit between.
  lemma ModSpan(idx: nat, k: nat)
    ensures (idx % Span(k + 1)) % Span(k) == idx % Span(k)
    ensures (idx % Span(k + 1)) / Span(k) == Digit(idx, k)
  {
    var s, n := Span(k), P_L2_SIZE;
    PartPart(idx, k);
    DivBounds(idx, s);
    DivBounds(idx, n * s);
    var a, d := idx / (n * s), Digit(idx, k);
    assert idx == (a * n + d) * s + idx % s;
    MulRegroup(a, n, d, s);
    assert idx % (n * s) == d * s + idx % s;
    DivModUnique(idx % (n * s), s, d, idx % s);
  }

  // Pages that agree modulo Span(k) agree on all digits below level k.
  lemma {:induction false} LowDigits(i: nat, j: nat, k: nat)
    requires i % Span(k) == j % Span(k)
    ensures forall d | 0 <= d < k :: Digit(i, d) == Digit(j, d)
  {
    if k != 0 {
      ModSpan(i, k - 1);
      ModSpan(j, k - 1);
      LowDigits(i, j, k - 1);
    }
  }

  // The page that replaces the digit of idx at level k by i and keeps all others.
  function WithDigit(idx: nat, k: nat, i: nat): (r: nat)
    requires i < P_L2_SIZE
    ensures r % Span(k) == idx % Span(k)
    ensures Part(r, k + 1) == Part(idx, k + 1) && Digit(r, k) == i
    ensures i == Digit(idx, k) ==> r == idx
  {
    var c := Kid(Part(idx, k + 1), i);
    var r := Lo(c, k) + idx % Span(k);
    DivModUnique(r, Span(k), c, idx % Span(k));
    KidDivMod(Part(idx, k + 1), i);
    PartPart(r, k);
    PartPart(idx, k);
    DivBounds(idx, Span(k));
    r
  }

  // ---- the address space fits the table ----

  lemma Pow2Add(a: nat, b: nat)
    ensures Pow2(a + b) == Pow2(a) * Pow2(b)
  {
    if a != 0 {
      Pow2Add(a - 1, b);
      MulRegroup(2, Pow2(a - 1), 0, Pow2(b));
    }
  }

  lemma Pow2Monotone(a: nat, b: nat)
    requires a <= b
    ensures Pow2(a) <= Pow2(b)
  {
    if a < b {
      Pow2Monotone(a, b - 1);
    }
  }

  lemma SpanIsPow2(k: nat)
    ensures Span(k) == Pow2(k * P_L2_BITS)
  {
    if k != 0 {
      SpanIsPow2(k - 1);
      assert k * P_L2_BITS == P_L2_BITS + (k - 1) * P_L2_BITS;
      MulMonotone(0, k - 1, P_L2_BITS);
      Pow2Add(P_L2_BITS, (k - 1) * P_L2_BITS);
    }
  }

  // exec.c sizes P_L2_LEVELS so that the table spans the 64-bit address space.
  lemma TableSpansAddressSpace()
    ensures ADDR_PAGES <= Span(P_L2_LEVELS)
    ensures ADDR_PAGES * PAGE_SIZE == ADDR_LIMIT
  {
    var bits := ADDR_SPACE_BITS - TARGET_PAGE_BITS;
    DivBounds(bits - 1, P_L2_BITS);
    assert bits <= P_L2_LEVELS * P_L2_BITS;
    SpanIsPow2(P_L2_LEVELS);
    Pow2Monotone(bits, P_L2_LEVELS * P_L2_BITS);
    Pow2Add(bits, TARGET_PAGE_BITS);
  }

  // ---- pages and byte addresses ----

  lemma AddrSplit(addr: nat, page: nat)
    ensures PageOf(addr) == page <==> PageAddr(page) <= addr < PageAddr(page) + PAGE_SIZE
    ensures PageOf(addr) == page ==> addr == PageAddr(page) + InPage(addr)
    ensures PageAddr(page + 1) == PageAddr(page) + PAGE_SIZE
    ensures PageOf(PageAddr(page)) == page && InPage(PageAddr(page)) == 0
  {
    DivInterval(addr, PAGE_SIZE, page);
    MulSucc(page, PAGE_SIZE);
    DivBounds(addr, PAGE_SIZE);
    DivModUnique(PageAddr(page), PAGE_SIZE, page, 0);
  }

  lemma PageAddrMonotone(a: nat, b: nat)
    ensures a <= b <==> PageAddr(a) <= PageAddr(b)
    ensures a < b <==> PageAddr(a) + PAGE_SIZE <= PageAddr(b)
  {
    if a < b {
      MulMonotone(a + 1, b, PAGE_SIZE);
      MulSucc(a, PAGE_SIZE);
    } else {
      MulMonotone(b, a, PAGE_SIZE);
    }
  }

  lemma PageAddrSum(a: nat, b: nat)
    ensures PageAddr(a + b) == PageAddr(a) + PageAddr(b)
  {
    assert (a + b) * PAGE_SIZE == a * PAGE_SIZE + b * PAGE_SIZE;
  }

  // Nodes that ranges for this many sections can take.
  function NodeAllowance(sections: nat): nat {
    MulMonotone(0, sections, 2 * P_L2_LEVELS); sections * (2 * P_L2_LEVELS)
  }

  // Fewer than PAGE_SIZE sections cannot use up the node numbers.
  lemma NodesFit(sections: nat)
    requires sections <= PAGE_SIZE
    ensures NodeAllowance(sections) + 2 * P_L2_LEVELS == NodeAllowance(sections + 1) <= 0x3FF_FFFF
    ensures PAGE_SIZE <= 8192
  {
    Pow2Monotone(TARGET_PAGE_BITS, 13);
    assert Pow2(13) == 8192 by { assert Pow2(6) == 64; assert Pow2(10) == 1024; }
    DivBounds(ADDR_SPACE_BITS - TARGET_PAGE_BITS - 1, P_L2_BITS);
    MulMonotone(1, P_L2_BITS, P_L2_LEVELS - 1);
    assert P_L2_LEVELS <= 54;
    MulMonotone(2 * P_L2_LEVELS, 108, sections);
    MulSucc(sections, 2 * P_L2_LEVELS);
  }
}
