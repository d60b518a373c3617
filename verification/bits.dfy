/** Unsigned machine integers and the C bitwise operators, stated over `nat`.

    The rule-processing code works on `uint32_t` values and combines them with
    `&`, `|`, `>>` and `<<`.  This module gives each operator a definition on
    naturals (bit by bit, from the least significant end) and proves the
    arithmetic facts the rest of the model relies on: masking with `2^k - 1`
    keeps the remainder modulo `2^k`, or-ing bits that are known to be clear is
    addition, and so on. */
module Bits {

  /** The values a `uint32_t` can hold. */
  type U32 = x: int | 0 <= x < 0x1_0000_0000

  const TwoTo32: nat := 0x1_0000_0000

  function Pow2(n: nat): (r: nat)
    ensures r > 0
  {
    if n == 0 then 1 else 2 * Pow2(n - 1)
  }

  /** `x & y` on unsigned values. */
  function BitAnd(x: nat, y: nat): (r: nat)
    ensures r <= x && r <= y
    decreases x
  {
    if x == 0 || y == 0 then 0
    else 2 * BitAnd(x / 2, y / 2) + (if x % 2 == 1 && y % 2 == 1 then 1 else 0)
  }

  /** `x | y` on unsigned values. */
  function BitOr(x: nat, y: nat): (r: nat)
    ensures x <= r && y <= r && r <= x + y
    decreases x + y
  {
    if x == 0 then y
    else if y == 0 then x
    else 2 * BitOr(x / 2, y / 2) + (if x % 2 == 1 || y % 2 == 1 then 1 else 0)
  }

  /** `x >> s` on an unsigned value; a shift by the full width yields 0 for
      every value below `2^s`. */
  function Shr(x: nat, s: nat): nat
  {
    DivNonneg(x, Pow2(s));
    x / Pow2(s)
  }

  /** `x << s` on a `uint32_t`: bits shifted past bit 31 are lost. */
  function Shl32(x: nat, s: nat): U32
  {
    (x * Pow2(s)) % TwoTo32
  }

  // ---------------------------------------------------------------------
  // Arithmetic facts about powers of two, division and remainder
  // ---------------------------------------------------------------------

  lemma Pow2Values()
    ensures Pow2(8) == 256 && Pow2(16) == 0x1_0000 && Pow2(24) == 0x100_0000
    ensures Pow2(32) == TwoTo32
  {
  }

  lemma {:induction false} Pow2Add(a: nat, b: nat)
    ensures Pow2(a + b) == Pow2(a) * Pow2(b)
    decreases a
  {
    if a > 0 {
      Pow2Add(a - 1, b);
      assert Pow2(a + b) == 2 * Pow2(a - 1 + b);
    }
  }

  lemma {:induction false} Pow2Monotone(a: nat, b: nat)
    requires a <= b
    ensures Pow2(a) <= Pow2(b)
    decreases b
  {
    if a < b {
      Pow2Monotone(a, b - 1);
    }
  }

  lemma MulNonneg(a: int, b: int)
    requires a >= 0 && b >= 0
    ensures a * b >= 0
  {
  }

  /** Quotient and remainder are determined by any decomposition
      `x == q * m + r` with `0 <= r < m`. */
  lemma DivModUnique(x: int, m: int, q: int, r: int)
    requires m > 0 && 0 <= r < m && x == q * m + r
    ensures x / m == q && x % m == r
  {
    var q', r' := x / m, x % m;
    if q' > q {
      var d := q' - q;
      assert d * m == (d - 1) * m + m;
      assert q' * m == q * m + d * m;
      MulNonneg(d - 1, m);
      assert false;
    } else if q' < q {
      var d := q - q';
      assert d * m == (d - 1) * m + m;
      assert q * m == q' * m + d * m;
      MulNonneg(d - 1, m);
      assert false;
    }
  }

  lemma DivNonneg(x: int, m: int)
    requires x >= 0 && m > 0
    ensures x / m >= 0
  {
  }

  lemma DivDiv(x: nat, a: nat, b: nat)
    requires a > 0 && b > 0
    ensures x / (a * b) == x / a / b
  {
    var q, s, t := x / a / b, (x / a) % b, x % a;
    assert x / a == b * q + s;
    assert x == a * (x / a) + t;
    assert a * (b * q + s) == (a * b) * q + a * s;
    MulNonneg(a, b - 1 - s);
    assert a * (b - 1 - s) == a * b - a - a * s;
    DivModUnique(x, a * b, q, a * s + t);
  }

  /** Removing the lowest bit first: `x mod 2^k` in terms of `(x / 2) mod 2^(k-1)`. */
  lemma ModSplit(x: nat, k: nat)
    requires k >= 1
    ensures x % Pow2(k) == 2 * ((x / 2) % Pow2(k - 1)) + x % 2
  {
    var p := Pow2(k - 1);
    var y := x / 2;
    assert x == 2 * y + x % 2;
    assert y == p * (y / p) + y % p;
    assert x == (2 * p) * (y / p) + (2 * (y % p) + x % 2);
    DivModUnique(x, 2 * p, y / p, 2 * (y % p) + x % 2);
  }

  /** Division and remainder by a positive divisor recompose the dividend. */
  lemma DivBounds(x: nat, p: nat)
    requires p > 0
    ensures x / p * p <= x < x / p * p + p
    ensures x == x / p * p + x % p
  {
  }

  /** A multiple of `m` leaves no remainder. */
  lemma MulMod(q: nat, m: nat)
    requires m > 0
    ensures (q * m) % m == 0 && (q * m) / m == q
  {
    DivModUnique(q * m, m, q, 0);
  }

  /** Clearing the bits below `2^s` and shifting back: the floor to a
      multiple of `2^s` lies at most `2^s - 1` below `x`. */
  lemma FloorToMultiple(x: nat, p: nat)
    requires p > 0
    ensures x / p * p <= x < x / p * p + p
    ensures (x / p * p) % p == 0
    ensures (x / p * p) / p == x / p
  {
    MulMod(x / p, p);
  }

  // ---------------------------------------------------------------------
  // Facts about the bitwise operators
  // ---------------------------------------------------------------------

  /** `x & (2^k - 1)` keeps the `k` low bits: it is `x mod 2^k`. */
  lemma {:induction false} BitAndLowMask(x: nat, k: nat)
    ensures BitAnd(x, Pow2(k) - 1) == x % Pow2(k)
    decreases k
  {
    if k > 0 && x > 0 {
      BitAndLowMask(x / 2, k - 1);
      LowMaskStep(x, k);
    } else if x == 0 {
      DivModUnique(0, Pow2(k), 0, 0);
    }
  }

  /** The inductive step of `BitAndLowMask`: dropping the lowest bit of `x`
      and of the mask. */
  lemma LowMaskStep(x: nat, k: nat)
    requires k > 0 && x > 0
    requires BitAnd(x / 2, Pow2(k - 1) - 1) == (x / 2) % Pow2(k - 1)
    ensures BitAnd(x, Pow2(k) - 1) == x % Pow2(k)
  {
    var p := Pow2(k - 1);
    var m := Pow2(k) - 1;
    var lo := BitAnd(x / 2, p - 1);
    assert BitAnd(x, m) == 2 * lo + x % 2 by {
      assert m == 2 * (p - 1) + 1;
      assert m % 2 == 1 && m / 2 == p - 1;
    }
    ModSplit(x, k);
  }

  /** The mask `2^k - 2^i` selecting bits `i .. k-1`. */
  function HighMask(k: nat, i: nat): nat
    requires i <= k
  {
    Pow2Monotone(i, k);
    Pow2(k) - Pow2(i)
  }

  /** `x & (2^k - 2^i)` keeps the bits `i .. k-1` of `x`. */
  lemma {:induction false} BitAndHighMask(x: nat, k: nat, i: nat)
    requires i <= k
    ensures BitAnd(x, HighMask(k, i)) == x % Pow2(k) / Pow2(i) * Pow2(i)
    decreases i
  {
    if i == k {
      DivModUnique(x % Pow2(k), Pow2(k), 0, x % Pow2(k));
    } else if i == 0 {
      BitAndLowMask(x, k);
    } else if x == 0 {
      DivModUnique(0, Pow2(k), 0, 0);
      DivModUnique(0, Pow2(i), 0, 0);
    } else {
      BitAndHighMask(x / 2, k - 1, i - 1);
      HighMaskStep(x, k, i);
    }
  }

  /** The inductive step of `BitAndHighMask`: dropping the lowest bit of `x`
      and of the mask. */
  lemma HighMaskStep(x: nat, k: nat, i: nat)
    requires 0 < i < k && x > 0
    requires BitAnd(x / 2, HighMask(k - 1, i - 1))
             == (x / 2) % Pow2(k - 1) / Pow2(i - 1) * Pow2(i - 1)
    ensures BitAnd(x, HighMask(k, i)) == x % Pow2(k) / Pow2(i) * Pow2(i)
  {
    var p, q := Pow2(k - 1), Pow2(i - 1);
    var m := HighMask(k, i);
    var hi := BitAnd(x / 2, p - q);
    var y := (x / 2) % p;
    assert BitAnd(x, m) == 2 * hi by {
      Pow2Monotone(i, k - 1);
      assert m == 2 * (p - q);
      DivModUnique(m, 2, p - q, 0);
    }
    assert hi == y / q * q by {
      Pow2Monotone(i - 1, k - 1);
      assert HighMask(k - 1, i - 1) == p - q;
    }
    assert x % Pow2(k) / Pow2(i) == y / q by {
      ModSplit(x, k);
      DivDiv(2 * y + x % 2, 2, q);
      DivModUnique(2 * y + x % 2, 2, y, x % 2);
    }
    assert Pow2(i) == 2 * q;
    MulTwice(y / q, q);
  }

  lemma MulTwice(t: int, q: int)
    ensures 2 * (t * q) == t * (2 * q)
  {
  }

  /** `x - (x & m)` has every bit of `m` clear. */
  lemma {:induction false} BitAndClears(x: nat, m: nat)
    ensures BitAnd(x - BitAnd(x, m), m) == 0
    decreases x
  {
    if x > 0 && m > 0 {
      var c := BitAnd(x, m);
      var d := x - c;
      var b := if x % 2 == 1 && m % 2 == 1 then 1 else 0;
      assert c == 2 * BitAnd(x / 2, m / 2) + b;
      assert d == 2 * (x / 2 - BitAnd(x / 2, m / 2)) + (x % 2 - b);
      BitAndClears(x / 2, m / 2);
      if d > 0 {
        assert d / 2 == x / 2 - BitAnd(x / 2, m / 2);
        assert d % 2 == x % 2 - b;
      }
    }
  }

  /** Masking twice with the same mask is masking once. */
  lemma {:induction false} BitAndIdem(x: nat, m: nat)
    ensures BitAnd(BitAnd(x, m), m) == BitAnd(x, m)
    decreases x
  {
    if x > 0 && m > 0 {
      var c := BitAnd(x, m);
      var b := if x % 2 == 1 && m % 2 == 1 then 1 else 0;
      assert c == 2 * BitAnd(x / 2, m / 2) + b;
      BitAndIdem(x / 2, m / 2);
      if c > 0 {
        assert c / 2 == BitAnd(x / 2, m / 2) && c % 2 == b;
      }
    }
  }

  /** Or-ing values with no common bit is addition. */
  lemma {:induction false} BitOrDisjoint(a: nat, b: nat)
    requires BitAnd(a, b) == 0
    ensures BitOr(a, b) == a + b
    decreases a + b
  {
    if a > 0 && b > 0 {
      assert BitAnd(a / 2, b / 2) == 0;
      BitOrDisjoint(a / 2, b / 2);
    }
  }

  /** Or-ing two `k`-bit values gives a `k`-bit value. */
  lemma {:induction false} BitOrBound(a: nat, b: nat, k: nat)
    requires a < Pow2(k) && b < Pow2(k)
    ensures BitOr(a, b) < Pow2(k)
    decreases a + b
  {
    if a > 0 && b > 0 {
      BitOrBound(a / 2, b / 2, k - 1);
    }
  }

  /** A value shifted left by `s` has no bit in common with a value below `2^s`. */
  lemma {:induction false} BitAndShifted(a: nat, s: nat, b: nat)
    requires b < Pow2(s)
    ensures BitAnd(a * Pow2(s), b) == 0
    decreases s
  {
    if s > 0 && a > 0 && b > 0 {
      var p := Pow2(s - 1);
      var y := a * p;
      assert a * Pow2(s) == 2 * y by {
        assert Pow2(s) == 2 * p;
        MulTwice(a, p);
      }
      BitAndShifted(a, s - 1, b / 2);
      assert BitAnd(y, b / 2) == 0;
      assert (2 * y) / 2 == y && (2 * y) % 2 == 0;
    }
  }
}
