/** Integer facts the storage layers share: machine words, division with a remainder, and products. */
module Arith {
  const POW32: nat := 0x1_0000_0000

  type Byte = b: int | 0 <= b < 0x100
  type Word32 = w: int | 0 <= w < 0x1_0000_0000

  /** Unsigned 32-bit subtraction, as C computes it on a DWORD. */
  function Sub32(a: Word32, b: Word32): Word32 {
    (a - b) % POW32
  }

  /** The idiom `a - base < n` on unsigned words is a test that a lies in [base, base + n). */
  lemma {:induction false} Sub32IsRangeTest(a: Word32, base: Word32, n: nat)
    requires base + n <= POW32
    ensures Sub32(a, base) < n <==> base <= a < base + n
  {
    if a < base {
      assert (a - base) % POW32 == a - base + POW32;
    }
  }

  lemma {:induction false} DivModUnique(q: int, r: int, m: int)
    requires m > 0 && 0 <= r < m
    ensures (q * m + r) / m == q && (q * m + r) % m == r
  {
    var x := q * m + r;
    var d := x / m - q;
    assert x == m * (x / m) + x % m;
    assert d * m == r - x % m by {
      assert (x / m - q) * m == m * (x / m) - q * m;
    }
    if d >= 1 { MulMono(1, d, m); assert false; }
    if d <= -1 { MulMono(d, -1, m); assert false; }
    assert d * m == 0;
  }

  lemma {:induction false} MulMono(a: int, b: int, m: int)
    requires a <= b && m >= 0
    ensures a * m <= b * m
  {
    assert (b - a) * m >= 0;
  }

  /** floor division is monotone */
  lemma {:induction false} DivMono(a: int, b: int, m: int)
    requires a <= b && m > 0
    ensures a / m <= b / m
  {
    if a / m > b / m {
      var qa, qb := a / m, b / m;
      assert a == m * qa + a % m && b == m * qb + b % m;
      MulMono(qb + 1, qa, m);
      assert false;
    }
  }

  /** A wrapped value may be wrapped again after adding to it. */
  lemma {:induction false} ModAdd(a: nat, b: nat, m: nat)
    requires m > 0
    ensures (a % m + b) % m == (a + b) % m
  {
    var q, r := a / m, a % m;
    var d, e := (r + b) / m, (r + b) % m;
    assert a == m * q + r && r + b == m * d + e;
    assert a + b == (q + d) * m + e;
    DivModUnique(q + d, e, m);
  }

  /** The quotient of a number below n * c is below n. */
  lemma {:induction false} QuotientBelow(k: nat, n: nat, c: nat)
    requires k < n * c
    ensures c > 0 && n > 0 && k / c < n
  {
    assert (c == 0 ==> n * c == 0) && (n == 0 ==> n * c == 0);
    DivMono(k, n * c - 1, c);
    assert n * c - 1 == (n - 1) * c + (c - 1);
    DivModUnique(n - 1, c - 1, c);
  }

  lemma {:induction false} SameQuotient(k: nat, l: nat, c: nat)
    requires c > 0 && k < l && k / c == l / c
    ensures k % c < l % c
  {
    assert k == c * (k / c) + k % c && l == c * (l / c) + l % c;
  }

  /** The quotient of the next number, inside a multiple and at one. */
  lemma {:induction false} QuotientStays(k: nat, c: nat)
    requires c > 0 && (k + 1) % c != 0
    ensures (k + 1) / c == k / c && (k + 1) % c == k % c + 1
  {
    assert k == c * (k / c) + k % c;
    if k % c == c - 1 {
      assert k + 1 == (k / c + 1) * c + 0;
      DivModUnique(k / c + 1, 0, c);
    } else {
      assert k + 1 == (k / c) * c + (k % c + 1);
      DivModUnique(k / c, k % c + 1, c);
    }
  }

  lemma {:induction false} QuotientSteps(k: nat, c: nat)
    requires c > 0 && (k + 1) % c == 0
    ensures (k + 1) / c == k / c + 1
  {
    assert k == c * (k / c) + k % c;
    if k % c != c - 1 {
      assert k + 1 == (k / c) * c + (k % c + 1);
      DivModUnique(k / c, k % c + 1, c);
    }
    assert k % c == c - 1;
    assert k + 1 == (k / c + 1) * c + 0;
    DivModUnique(k / c + 1, 0, c);
  }
}
