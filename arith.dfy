/** Powers of two, Python's bitwise `&` on non-negative integers, and the
    division facts the bit-level proofs of the genome rest on. */
module Arith {

  type Positive = n: int | n >= 1 witness 1

  /** 2 ** n */
  function Pow2(n: nat): Positive
  {
    if n == 0 then 1 else 2 * Pow2(n - 1)
  }

  lemma {:induction false} Pow2Add(m: nat, n: nat)
    ensures Pow2(m + n) == Pow2(m) * Pow2(n)
  {
    if m > 0 {
      Pow2Add(m - 1, n);
      assert Pow2(m + n) == 2 * Pow2(m - 1 + n);
    }
  }

  lemma {:induction false} Pow2Mono(k: nat, n: nat)
    requires k <= n
    ensures Pow2(k) <= Pow2(n)
  {
    if k < n {
      Pow2Mono(k, n - 1);
    }
  }

  /** Python's `a & b` for a, b >= 0: bit i of the result is set exactly
      when bit i is set in both operands. */
  function And(a: nat, b: nat): nat
    decreases a
  {
    if a == 0 then 0 else 2 * And(a / 2, b / 2) + (a % 2) * (b % 2)
  }

  /** Division by a positive divisor is determined by any decomposition
      with a remainder in range. */
  lemma DivModUnique(x: int, d: int, q: int, r: int)
    requires d > 0 && 0 <= r < d && x == d * q + r
    ensures x / d == q && x % d == r
  {
    var q' := x / d;
    var r' := x % d;
    var k := q' - q;
    assert d * k == r - r' by {
      assert d * q' + r' == d * q + r;
      assert d * q' == d * q + d * k;
    }
    if k > 0 {
      MulAtLeast(d, k);
    } else if k < 0 {
      MulAtLeast(d, -k);
    }
  }

  lemma MulAtLeast(d: int, k: int)
    requires d > 0 && k > 0
    ensures d * k >= d
  {
    assert d * k == d + d * (k - 1);
    assert d * (k - 1) >= 0;
  }

  lemma DivDiv(x: nat, a: nat, b: nat)
    requires a > 0 && b > 0
    ensures x / a / b == x / (a * b)
    ensures (x % (a * b)) / a == (x / a) % b
    ensures (x % (a * b)) % a == x % a
  {
    var q, r := x / a, x % a;
    var q1, r1 := q / b, q % b;
    Regroup(x, a, b, q, r, q1, r1);
    RemainderBelow(a, b, r, r1);
    DivModUnique(x, a * b, q1, a * r1 + r);
    DivModUnique(a * r1 + r, a, r1, r);
  }

  /** x == a * (b * q1 + r1) + r regrouped around the product a * b. */
  lemma Regroup(x: int, a: int, b: int, q: int, r: int, q1: int, r1: int)
    requires x == a * q + r && q == b * q1 + r1
    ensures x == (a * b) * q1 + (a * r1 + r)
  {
    assert a * q == a * (b * q1) + a * r1;
    assert a * (b * q1) == (a * b) * q1;
  }

  /** A digit r1 < b in base a, followed by r < a, stays below a * b. */
  lemma RemainderBelow(a: int, b: int, r: int, r1: int)
    requires a > 0 && 0 <= r < a && 0 <= r1 < b
    ensures 0 <= a * r1 + r < a * b
  {
    assert a * r1 >= 0;
    assert a * b == a * r1 + a * (b - r1);
    MulAtLeast(a, b - r1);
  }

  /** The remainder by 2m splits into the remainder of the half by m and
      the lowest bit. */
  lemma ModSplit(x: nat, m: nat)
    requires m > 0
    ensures x % (2 * m) == 2 * ((x / 2) % m) + x % 2
    ensures x / (2 * m) == (x / 2) / m
  {
    DivDiv(x, 2, m);
    assert (x % (2 * m)) / 2 == (x / 2) % m;
    assert (x % (2 * m)) % 2 == x % 2;
  }

  /** Masking with 2^k - 1 keeps the low k bits. */
  lemma {:induction false} AndLowMask(x: nat, k: nat)
    ensures And(x, Pow2(k) - 1) == x % Pow2(k)
  {
    if k == 0 {
      AndZero(x);
      assert Pow2(0) == 1;
      DivModUnique(x, 1, x, 0);
    } else if x == 0 {
      assert And(0, Pow2(k) - 1) == 0;
      DivModUnique(x, Pow2(k), 0, 0);
    } else {
      AndLowMask(x / 2, k - 1);
      AndLowMaskStep(x, k);
    }
  }

  lemma AndLowMaskStep(x: nat, k: nat)
    requires x > 0 && k > 0
    requires And(x / 2, Pow2(k - 1) - 1) == (x / 2) % Pow2(k - 1)
    ensures And(x, Pow2(k) - 1) == x % Pow2(k)
  {
    var h: int := Pow2(k - 1);
    var m := Pow2(k) - 1;
    assert m == 2 * (h - 1) + 1;
    assert m / 2 == h - 1 && m % 2 == 1;
    assert And(x, m) == 2 * And(x / 2, h - 1) + x % 2;
    ModSplit(x, h);
  }

  lemma {:induction false} AndZero(x: nat)
    ensures And(x, 0) == 0
  {
    if x > 0 {
      AndZero(x / 2);
    }
  }

  /** Masking with 2^n - 2^k keeps bits k .. n-1. */
  lemma {:induction false} AndHighMask(x: nat, n: nat, k: nat)
    requires k <= n
    ensures Pow2(k) <= Pow2(n)
    ensures And(x, Pow2(n) - Pow2(k)) == x % Pow2(n) - x % Pow2(k)
  {
    Pow2Mono(k, n);
    if x == 0 {
      assert And(x, Pow2(n) - Pow2(k)) == 0;
      DivModUnique(x, Pow2(n), 0, 0);
      DivModUnique(x, Pow2(k), 0, 0);
    } else if k == 0 {
      AndLowMask(x, n);
      assert Pow2(k) == 1;
      DivModUnique(x, 1, x, 0);
    } else {
      Pow2Mono(k - 1, n - 1);
      AndHighMask(x / 2, n - 1, k - 1);
      AndHighMaskStep(x, n, k);
    }
  }

  lemma AndHighMaskStep(x: nat, n: nat, k: nat)
    requires x > 0 && 0 < k <= n
    requires Pow2(k - 1) <= Pow2(n - 1)
    requires And(x / 2, Pow2(n - 1) - Pow2(k - 1)) == (x / 2) % Pow2(n - 1) - (x / 2) % Pow2(k - 1)
    ensures And(x, Pow2(n) - Pow2(k)) == x % Pow2(n) - x % Pow2(k)
  {
    var hn: int, hk: int := Pow2(n - 1), Pow2(k - 1);
    var m := Pow2(n) - Pow2(k);
    assert m == 2 * (hn - hk);
    assert m / 2 == hn - hk && m % 2 == 0;
    assert And(x, m) == 2 * And(x / 2, hn - hk);
    ModSplit(x, hn);
    ModSplit(x, hk);
  }
  lemma QuotBound(x: nat, d: nat, m: nat)
    requires d > 0 && x < d * m
    ensures x / d < m
  {
    if x / d >= m {
      MulLe(d, m, x / d);
    }
  }

  lemma MulLe(m: nat, x: nat, y: nat)
    requires x <= y
    ensures m * x <= m * y
  {
    assert m * y == m * x + m * (y - x);
  }

  /** Replacing the remainder of `a` by that of `b` keeps the quotient of
      `a`, takes the remainder of `b`, and stays below `d * m`. */
  lemma SpliceArith(a: nat, b: nat, d: nat, m: nat)
    requires d > 0 && a < d * m
    ensures var r := a - a % d + b % d;
      r / d == a / d && r % d == b % d && 0 <= r < d * m
  {
    var q := a / d;
    var r := a - a % d + b % d;
    assert a == d * q + a % d;
    assert r == d * q + b % d;
    DivModUnique(r, d, q, b % d);
    QuotBound(a, d, m);
    MulLe(d, q, m - 1);
    assert d * (m - 1) == d * m - d;
  }

  /** One round of peeling the top bit off below `2 * place`. */
  lemma PeelBit(x: nat, place: nat)
    requires place > 0
    ensures (x % (2 * place)) / place == (x / place) % 2
    ensures (x % (2 * place)) - ((x % (2 * place)) / place) * place == x % place
    ensures x / place / 2 == x / (2 * place)
  {
    DivDiv(x, place, 2);
    assert place * 2 == 2 * place;
    var rest := x % (2 * place);
    assert rest == place * (rest / place) + rest % place;
  }

  /** x >> k */
  function Shr(x: nat, k: nat): nat
  {
    if k == 0 then x else Shr(x / 2, k - 1)
  }

  /** The low k bits of x, i.e. x & (2^k - 1). */
  function LowBits(x: nat, k: nat): nat
  {
    if k == 0 then 0 else 2 * LowBits(x / 2, k - 1) + x % 2
  }

  lemma {:induction false} ShrLast(x: nat, m: nat)
    ensures Shr(x, m + 1) == Shr(x, m) / 2
  {
    if m > 0 {
      ShrLast(x / 2, m - 1);
    }
  }

  lemma {:induction false} LowBitsBound(x: nat, k: nat)
    ensures LowBits(x, k) < Pow2(k)
  {
    if k > 0 {
      LowBitsBound(x / 2, k - 1);
    }
  }

  /** The low m+1 bits are bit m on top of the low m bits. */
  lemma {:induction false} LowBitsTop(x: nat, m: nat)
    ensures LowBits(x, m + 1) == (if Shr(x, m) % 2 == 1 then Pow2(m) else 0) + LowBits(x, m)
  {
    if m > 0 {
      LowBitsTop(x / 2, m - 1);
    }
  }

  /** Shifting and masking are division and remainder by a power of two. */
  lemma {:induction false} ShrLowBits(x: nat, k: nat)
    ensures Shr(x, k) == x / Pow2(k) && LowBits(x, k) == x % Pow2(k)
  {
    if k > 0 {
      ShrLowBits(x / 2, k - 1);
      ShrLowBitsStep(x, Pow2(k - 1), Pow2(k), Shr(x / 2, k - 1), LowBits(x / 2, k - 1));
    }
  }

  lemma ShrLowBitsStep(x: nat, h: int, twice: int, q: int, r: int)
    requires h > 0 && twice == 2 * h
    requires q == (x / 2) / h && r == (x / 2) % h
    ensures q == x / twice && 2 * r + x % 2 == x % twice
  {
    ModSplit(x, h);
  }
}
