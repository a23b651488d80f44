/** Power-of-two rounding, as both the allocator and the pager use it. */
module Align {

  const PAGE_SIZE: nat := 4096

  predicate IsPowerOfTwo(n: nat)
  {
    n == 1 || (n > 1 && n % 2 == 0 && IsPowerOfTwo(n / 2))
  }

  /** `addr & !(align - 1)`: the low bits below a power of two, cleared one by one. */
  function AlignDown(addr: nat, align: nat): (r: nat)
    requires IsPowerOfTwo(align)
    ensures r <= addr < r + align
    decreases addr, align
  {
    if align == 1 then addr else 2 * AlignDown(addr / 2, align / 2)
  }

  /** `align_up`, as the code computes it. */
  function AlignUp(addr: nat, align: nat): (r: nat)
    requires IsPowerOfTwo(align)
    ensures addr <= r < addr + align
  {
    AlignDown(addr + align - 1, align)
  }

  lemma SmallMultipleIsZero(m: int, d: int)
    requires -m < m * d < m
    ensures d == 0
  {
    assert d >= 1 ==> m * d >= m;
    assert d <= -1 ==> m * d <= -m;
  }

  /** Quotient and remainder are determined by their defining equation. */
  lemma DivisionIsUnique(x: nat, m: nat, q: int, r: nat)
    requires m > 0 && r < m && x == m * q + r
    ensures x / m == q && x % m == r
  {
    assert x == m * (x / m) + x % m;
    assert m * (x / m - q) == r - x % m by {
      assert m * (x / m - q) == m * (x / m) - m * q;
    }
    SmallMultipleIsZero(m, x / m - q);
  }

  lemma SumOfMultiples(x: nat, y: nat, m: nat)
    requires m > 0 && x % m == 0 && y % m == 0
    ensures (x + y) % m == 0
    ensures x >= y ==> (x - y) % m == 0
  {
    var p, q := x / m, y / m;
    assert x == m * p && y == m * q;
    assert x + y == m * (p + q);
    assert x - y == m * (p - q);
    DivisionIsUnique(x + y, m, p + q, 0);
    if x >= y {
      DivisionIsUnique(x - y, m, p - q, 0);
    }
  }

  /** A multiple of a multiple is a multiple. */
  lemma DividesTransitively(x: nat, m: nat, n: nat)
    requires m > 0 && n > 0 && x % m == 0 && m % n == 0
    ensures x % n == 0
  {
    var p, q := x / m, m / n;
    assert x == m * p && m == n * q;
    assert x == n * (q * p) by {
      assert (n * q) * p == n * (q * p);
    }
    DivisionIsUnique(x, n, q * p, 0);
  }

  /** Of two powers of two the smaller divides the larger. */
  lemma {:induction false} PowersDivide(a: nat, b: nat)
    requires IsPowerOfTwo(a) && IsPowerOfTwo(b) && a <= b
    ensures b % a == 0
  {
    if a == 1 {
    } else {
      PowersDivide(a / 2, b / 2);
      var q := (b / 2) / (a / 2);
      assert b / 2 == (a / 2) * q;
      assert b == a * q by {
        assert b == 2 * ((a / 2) * q) == (2 * (a / 2)) * q;
      }
      DivisionIsUnique(b, a, q, 0);
    }
  }

  /** Clearing the low bits takes off the remainder. */
  lemma {:induction false} AlignDownIs(x: nat, a: nat)
    requires IsPowerOfTwo(a)
    ensures AlignDown(x, a) % a == 0 && AlignDown(x, a) == x - x % a
  {
    var r := AlignDown(x, a);
    if a == 1 {
    } else {
      AlignDownIs(x / 2, a / 2);
      var h, q := AlignDown(x / 2, a / 2), AlignDown(x / 2, a / 2) / (a / 2);
      assert h == (a / 2) * q;
      assert r == a * q by {
        assert 2 * ((a / 2) * q) == (2 * (a / 2)) * q;
      }
      DivisionIsUnique(r, a, q, 0);
      DivisionIsUnique(x, a, q, x - r);
    }
  }

  lemma {:induction false} AlignDownIsMonotone(x: nat, y: nat, a: nat)
    requires IsPowerOfTwo(a) && y <= x
    ensures AlignDown(y, a) <= AlignDown(x, a)
    decreases a
  {
    if a == 1 {
    } else {
      AlignDownIsMonotone(x / 2, y / 2, a / 2);
    }
  }

  /** Rounding up gives a multiple. */
  lemma AlignUpIsMultiple(x: nat, a: nat)
    requires IsPowerOfTwo(a)
    ensures AlignUp(x, a) % a == 0
  {
    AlignDownIs(x + a - 1, a);
  }

  /** No multiple lies between a number and its rounding. */
  lemma AlignUpLeast(x: nat, a: nat, m: nat)
    requires IsPowerOfTwo(a) && m % a == 0 && x <= m
    ensures AlignUp(x, a) <= m
  {
    var r := AlignUp(x, a);
    AlignUpIsMultiple(x, a);
    if m < r {
      SumOfMultiples(r, m, a);
      DivisionIsUnique(r - m, a, 0, r - m);
    }
  }

  /** A fixed point of rounding up is exactly a multiple. */
  lemma AlignUpFixedPoint(x: nat, a: nat)
    requires IsPowerOfTwo(a)
    ensures AlignUp(x, a) == x <==> x % a == 0
  {
    AlignUpIsMultiple(x, a);
    if x % a == 0 {
      var r := AlignUp(x, a);
      SumOfMultiples(r, x, a);
      DivisionIsUnique(r - x, a, 0, r - x);
    }
  }

  /** Two multiples of `step` that straddle less than `a` are at most `a - step` apart. */
  lemma AlignUpFromMultiple(x: nat, a: nat, step: nat)
    requires IsPowerOfTwo(a) && step > 0 && a % step == 0 && x % step == 0
    ensures AlignUp(x, a) % step == 0 && AlignUp(x, a) <= x + a - step
  {
    var r := AlignUp(x, a);
    AlignUpIsMultiple(x, a);
    DividesTransitively(r, a, step);
    SumOfMultiples(r, x, step);
    SumOfMultiples(a, r - x, step);
    var d := a - (r - x);
    assert d % step == 0 && d > 0;
    if d < step {
      DivisionIsUnique(d, step, 0, d);
    }
  }

  /** Rounding depends only on the offset when the start is itself a multiple. */
  lemma AlignUpShifts(start: nat, x: nat, a: nat)
    requires IsPowerOfTwo(a) && start % a == 0
    ensures AlignUp(start + x, a) == start + AlignUp(x, a)
  {
    var r, t := AlignUp(start + x, a), start + AlignUp(x, a);
    AlignUpIsMultiple(x, a);
    AlignUpIsMultiple(start + x, a);
    SumOfMultiples(start, AlignUp(x, a), a);
    if r >= t {
      SumOfMultiples(r, t, a);
      DivisionIsUnique(r - t, a, 0, r - t);
    } else {
      SumOfMultiples(t, r, a);
      DivisionIsUnique(t - r, a, 0, t - r);
    }
  }
}
