/** Division, multiplication and rounding, in the form the proofs use them. */
module Arithmetic {
  lemma MulPositive(a: nat, b: nat)
    requires a >= 1 && b >= 1
    ensures a * b >= 1
  {
  }

  lemma MulMonotone(a: nat, b: nat, c: nat)
    requires a <= b
    ensures a * c <= b * c
  {
  }

  lemma MulSucc(a: nat, c: nat)
    ensures (a + 1) * c == a * c + c
  {
  }

  // The quotient and remainder are determined by the division equation.
  lemma DivModUnique(a: nat, d: nat, q: nat, r: nat)
    requires d >= 1 && r < d && a == q * d + r
    ensures a / d == q && a % d == r
  {
    var q', r' := a / d, a % d;
    assert a == q' * d + r';
    assert (q - q') * d == r' - r;
    if q < q' {
      assert (q' - q) * d >= d by { MulMonotone(1, q' - q, d); }
    } else if q > q' {
      assert (q - q') * d >= d by { MulMonotone(1, q - q', d); }
    }
  }

  lemma DivBounds(a: nat, d: nat)
    requires d >= 1
    ensures a / d >= 0 && 0 <= a % d < d
    ensures (a / d) * d <= a < (a / d + 1) * d
    ensures a == (a / d) * d + a % d
  {
    assert (a / d + 1) * d == (a / d) * d + d;
  }

  // The quotient is q exactly on [q * d, (q + 1) * d).
  lemma DivInterval(a: nat, d: nat, q: nat)
    requires d >= 1
    ensures a / d == q <==> q * d <= a < (q + 1) * d
  {
    DivBounds(a, d);
    if q * d <= a < (q + 1) * d {
      assert (q + 1) * d == q * d + d;
      DivModUnique(a, d, q, a - q * d);
    }
  }

  lemma MulRegroup(a: nat, n: nat, b: nat, s: nat)
    ensures (a * n + b) * s == a * (n * s) + b * s
  {
    assert (a * n) * s == a * (n * s);
    assert (a * n + b) * s == (a * n) * s + b * s;
  }

  // ---- rounding to an alignment ----

  function Down(x: nat, align: nat): (d: nat)
    requires align > 0
  {
    MulMonotone(0, x / align, align); x / align * align
  }

  // ROUND_UP
  function Up(x: nat, align: nat): nat
    requires align > 0
  {
    Down(x + align - 1, align)
  }

  predicate Aligned(x: nat, align: nat)
    requires align > 0
  {
    Down(x, align) == x
  }

  // Rounding down finds the one multiple of the alignment in an interval of that length.
  lemma DownFacts(x: nat, align: nat)
    requires align > 0
    ensures Down(x, align) <= x < Down(x, align) + align && Aligned(Down(x, align), align)
  {
    DivBounds(x, align);
    MulSucc(x / align, align);
    DivModUnique(Down(x, align), align, x / align, 0);
  }

  lemma DownUnique(x: nat, align: nat, d: nat)
    requires align > 0 && Aligned(d, align) && d <= x < d + align
    ensures Down(x, align) == d
  {
    DivModUnique(x, align, d / align, x - d);
  }

  lemma SumAligned(x: nat, y: nat, align: nat)
    requires align > 0 && Aligned(x, align) && Aligned(y, align)
    ensures Aligned(x + y, align)
  {
    assert x + y == (x / align + y / align) * align;
    DivModUnique(x + y, align, x / align + y / align, 0);
  }

  lemma UpFacts(x: nat, align: nat)
    requires align > 0
    ensures Up(x, align) == if Aligned(x, align) then x else Down(x, align) + align
    ensures x <= Up(x, align) && Aligned(Up(x, align), align)
  {
    DownFacts(x, align);
    DownFacts(x + align - 1, align);
    if Aligned(x, align) {
      DownUnique(x + align - 1, align, x);
    } else {
      DivModUnique(align, align, 1, 0);
      SumAligned(Down(x, align), align, align);
      DownUnique(x + align - 1, align, Down(x, align) + align);
    }
  }

  // Rounding the length of a range that starts on a boundary rounds its end.
  lemma UpShift(d: nat, x: nat, align: nat)
    requires align > 0 && Aligned(d, align)
    ensures d + Up(x, align) == Up(d + x, align)
  {
    DownFacts(x + align - 1, align);
    SumAligned(d, Down(x + align - 1, align), align);
    DownUnique(d + x + align - 1, align, d + Down(x + align - 1, align));
  }

  lemma DownMonotone(x: nat, y: nat, align: nat)
    requires align > 0 && x <= y
    ensures Down(x, align) <= Down(y, align)
  {
    DivBounds(x, align);
    DivBounds(y, align);
    if x / align > y / align {
      MulMonotone(y / align + 1, x / align, align);
    }
    MulMonotone(x / align, y / align, align);
  }
}
