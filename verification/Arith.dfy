/** Facts about quotients and remainders that the solver does not find by itself. */
module Arith {
  lemma AtLeast(a: int, s: int)
    requires a >= 1 && s > 0
    ensures a * s >= s
  {
  }

  lemma AtMost(a: int, s: int)
    requires a <= 0 && s > 0
    ensures a * s <= 0
  {
  }

  lemma Distribute(a: int, b: int, s: int)
    ensures (a - b) * s == a * s - b * s
  {
  }

  lemma MulAssoc(a: int, n: int, s: int)
    ensures a * (n * s) == (a * n) * s
  {
  }

  /** A number has one quotient and remainder. */
  lemma Quotient(v: int, s: int, m: int, r: int)
    requires s > 0 && 0 <= r < s && v == m * s + r
    ensures v / s == m && v % s == r
  {
    var q, z := v / s, v % s;
    assert v == q * s + z;
    Distribute(q, m, s);
    Distribute(m, q, s);
    if q > m {
      AtLeast(q - m, s);
    } else if q < m {
      AtLeast(m - q, s);
    }
  }

  lemma QuotientIn(v: int, s: int, k: int, i: int, r: int)
    requires s > 0 && 0 <= r < s && 0 <= i < 512 && v == (k * 512 + i) * s + r
    ensures v / s % 512 == i && v % s == r
  {
    Quotient(v, s, k * 512 + i, r);
    Quotient(k * 512 + i, 512, k, i);
  }

  lemma QuotientAdd(x: int, d: int, s: int)
    requires s > 0 && d % s == 0
    ensures (x + d) % s == x % s
  {
    Distribute(x / s, -(d / s), s);
    Quotient(x + d, s, x / s + d / s, x % s);
  }

  lemma QuotientSplit(x: int, n: int, s: int, big: int)
    requires s > 0 && n > 0 && big == n * s
    ensures x % s <= x % big
    ensures (x - x % s) % big == x % big - x % s
    ensures x % big == 0 ==> x % s == 0
  {
    var z := x % big;
    SplitAt(x, n, s, big, x / big, z, z / s, z % s);
  }

  lemma SplitAt(x: int, n: int, s: int, big: int, q: int, z: int, q': int, z': int)
    requires s > 0 && n > 0 && big == n * s
    requires x == q * big + z && 0 <= z < big && z == q' * s + z' && 0 <= z' < s
    ensures x % s == z' && (x - z') % big == z - z' && (z == 0 ==> z' == 0)
  {
    SplitSum(q, n, q', s, big);
    Quotient(x, s, q * n + q', z');
    if z < z' {
      AtLeast(-q', s);
    }
    Quotient(x - z', big, q, z - z');
  }

  lemma SplitSum(q: int, n: int, q': int, s: int, big: int)
    requires big == n * s
    ensures q * big + q' * s == (q * n + q') * s
  {
    MulAssoc(q, n, s);
    Distribute(q * n, -q', s);
  }

  lemma WholePage(v: int, s: int)
    requires s > 0
    ensures (v - v % s) % s == 0
  {
    Quotient(v - v % s, s, v / s, 0);
  }

  lemma NestedBlocks(a: int, b: int, n: int, s: int, big: int)
    requires s > 0 && n > 0 && big == n * s && a % big == 0 && b % s == 0 && a <= b < a + big
    ensures b + s <= a + big
  {
    var q, q' := a / big, b / s;
    assert a == q * big && b == q' * s;
    assert q * (n * s) == (q * n) * s;
    Distribute(q * n + n, q', s);
    assert (q * n + n) * s == q * n * s + n * s;
    if q * n + n - q' < 1 {
      AtMost(q * n + n - q', s);
      assert false;
    }
    AtLeast(q * n + n - q', s);
  }

  /** A slot number reduced into the ring. */
  function Wrap(x: int, size: int): int {
    if x < size then x else x - size
  }

  lemma WrapIsMod(x: int, size: int)
    requires 0 <= x < 2 * size
    ensures x % size == Wrap(x, size)
  {
    Quotient(x, size, if x < size then 0 else 1, Wrap(x, size));
  }

  /** A position within two rounds, reduced to a slot as the C code does it. */
  function Slot(x: int, size: int): (s: int)
    requires 0 <= x < 2 * size
    ensures s == Wrap(x, size)
  {
    WrapIsMod(x, size);
    x % size
  }

  /** Narrowing to `int32_t`, in two's complement. */
  function Int32(x: int): int { (x + 0x8000_0000) % 0x1_0000_0000 - 0x8000_0000 }
}
