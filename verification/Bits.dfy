/** Machine words as naturals: the C operators `|`, `^`, `~` and `<<` bit by bit, and
    the few facts that turn them into arithmetic. */
module Bits {

  type byte = b: int | 0 <= b < 256


  function Pow2(n: nat): (p: nat)
    ensures p > 0
  {
    if n == 0 then 1 else 2 * Pow2(n - 1)
  }

  /** `x * 2^n` */
  function Scaled(x: nat, n: nat): nat
    decreases n
  {
    if n == 0 then x else 2 * Scaled(x, n - 1)
  }

  /** What is left of `x` in an unsigned word that holds `m` values. */
  function Wrap(x: nat, m: nat): (r: nat)
    requires m > 0
    ensures r < m
    decreases x
  {
    if x < m then x else Wrap(x - m, m)
  }

  function Low32(x: nat): (r: nat)
    ensures r < 0x1_0000_0000
  {
    Wrap(x, 0x1_0000_0000)
  }

  function Low64(x: nat): (r: nat)
    ensures r < 0x1_0000_0000_0000_0000
  {
    Wrap(x, 0x1_0000_0000_0000_0000)
  }

  /** Bitwise or. */
  function Or(a: nat, b: nat): nat
    decreases a + b
  {
    if a == 0 && b == 0 then 0
    else (if a % 2 == 1 || b % 2 == 1 then 1 else 0) + 2 * Or(a / 2, b / 2)
  }

  /** Bitwise exclusive or. */
  function Xor(a: nat, b: nat): nat
    decreases a + b
  {
    if a == 0 && b == 0 then 0
    else (if a % 2 != b % 2 then 1 else 0) + 2 * Xor(a / 2, b / 2)
  }

  /** Bit `k` of a word. */
  predicate Bit(a: nat, k: nat) {
    if k == 0 then a % 2 == 1 else Bit(a / 2, k - 1)
  }

  /** `x << s` in a word of `w` bits. */
  function Shl(x: nat, s: nat, w: nat): (r: nat)
    ensures r < Pow2(w)
    decreases s
  {
    if s == 0 then Wrap(x, Pow2(w)) else Shl(2 * x, s - 1, w)
  }

  /** `~x` in a word of `w` bits. */
  function Not(x: int, w: nat): int {
    Pow2(w) - 1 - x
  }

  lemma {:induction false} ScaledIsProduct(x: nat, n: nat)
    ensures Scaled(x, n) == x * Pow2(n)
    decreases n
  {
    if n > 0 {
      ScaledIsProduct(x, n - 1);
      assert 2 * (x * Pow2(n - 1)) == x * (2 * Pow2(n - 1));
    }
  }

  lemma {:induction false} ScaledTwice(x: nat, m: nat, n: nat)
    ensures Scaled(Scaled(x, m), n) == Scaled(x, m + n)
    decreases n
  {
    if n > 0 {
      ScaledTwice(x, m, n - 1);
    }
  }

  lemma {:induction false} WrapIsMod(x: nat, m: nat)
    requires m > 0
    ensures Wrap(x, m) == x % m
    decreases x
  {
    if x >= m {
      WrapIsMod(x - m, m);
      DivModUnique(x, m, (x - m) / m + 1, (x - m) % m);
    } else {
      DivModUnique(x, m, 0, x);
    }
  }

  lemma {:induction false} WrapMultiple(x: nat, m: nat, k: nat)
    requires m > 0
    ensures Wrap(x + k * m, m) == Wrap(x, m)
    decreases k
  {
    if k > 0 {
      assert x + k * m - m == x + (k - 1) * m;
      WrapMultiple(x, m, k - 1);
    }
  }

  lemma {:induction false} WrapInverse(x: nat, m: nat) returns (k: nat)
    requires m > 0
    ensures x == Wrap(x, m) + k * m
    decreases x
  {
    if x < m {
      k := 0;
    } else {
      k := WrapInverse(x - m, m);
      assert (k + 1) * m == k * m + m;
      k := k + 1;
    }
  }

  lemma {:induction false} Low32OfLow64(x: nat)
    ensures Low32(Low64(x)) == Low32(x)
  {
    var k := WrapInverse(x, 0x1_0000_0000_0000_0000);
    WrapMultiple(Low64(x), 0x1_0000_0000, k * 0x1_0000_0000);
  }

  lemma {:induction false} Pow2Add(a: nat, b: nat)
    ensures Pow2(a + b) == Pow2(a) * Pow2(b)
  {
    if a > 0 {
      Pow2Add(a - 1, b);
      assert Pow2(a + b) == 2 * Pow2((a - 1) + b);
    }
  }

  lemma {:induction false} Pow2Small()
    ensures Pow2(5) == 0x20 && Pow2(7) == 0x80 && Pow2(8) == 0x100
  {
    assert Pow2(3) == 8;
  }

  lemma {:induction false} Pow2Word()
    ensures Pow2(28) == 0x1000_0000 && Pow2(31) == 0x8000_0000 && Pow2(32) == 0x1_0000_0000
  {
    Pow2Small();
    Pow2Add(8, 8);
    Pow2Add(16, 16);
    assert Pow2(32) == 16 * Pow2(28);
    assert Pow2(32) == 2 * Pow2(31);
  }

  lemma {:induction false} Pow2Long()
    ensures Pow2(63) == 0x8000_0000_0000_0000 && Pow2(64) == 0x1_0000_0000_0000_0000
  {
    Pow2Word();
    Pow2Add(32, 32);
    assert Pow2(64) == 2 * Pow2(63);
  }

  lemma {:induction false} OrZero(b: nat)
    ensures Or(0, b) == b
    decreases b
  {
    if b > 0 {
      OrZero(b / 2);
    }
  }

  /** Or-ing a shifted value above the bits already set adds it. */
  lemma {:induction false} OrIsAdd(a: nat, c: nat, p: nat)
    requires a < Pow2(p)
    ensures Or(a, c * Pow2(p)) == a + c * Pow2(p)
    decreases p
  {
    if p == 0 {
      OrZero(c);
    } else {
      var d := c * Pow2(p - 1);
      assert c * Pow2(p) == 2 * d;
      OrIsAdd(a / 2, c, p - 1);
    }
  }

  lemma {:induction false} OrBound(a: nat, b: nat, w: nat)
    requires a < Pow2(w) && b < Pow2(w)
    ensures Or(a, b) < Pow2(w)
    decreases w
  {
    if w > 0 {
      OrBound(a / 2, b / 2, w - 1);
    }
  }

  lemma {:induction false} AtLeastOnce(d: nat, k: nat)
    requires k > 0
    ensures d * k >= d
  {
    if k > 1 {
      AtLeastOnce(d, k - 1);
      assert d * k == d * (k - 1) + d;
    }
  }

  lemma {:induction false} DivModUnique(x: int, d: int, q: int, r: int)
    requires 0 <= r < d && x == d * q + r
    ensures x / d == q && x % d == r
  {
    var q', r' := x / d, x % d;
    assert x == d * q' + r';
    if q > q' {
      AtLeastOnce(d, q - q');
    } else if q < q' {
      AtLeastOnce(d, q' - q);
    }
  }

  lemma {:induction false} ShlOfZero(s: nat, w: nat)
    ensures Shl(0, s, w) == 0
    decreases s
  {
    if s > 0 {
      ShlOfZero(s - 1, w);
    }
  }

  lemma {:induction false} ShlMeaning(x: nat, s: nat, w: nat)
    ensures Shl(x, s, w) == x * Pow2(s) % Pow2(w)
    decreases s
  {
    if s > 0 {
      ShlMeaning(2 * x, s - 1, w);
      assert 2 * x * Pow2(s - 1) == x * Pow2(s);
    } else {
      WrapIsMod(x, Pow2(w));
    }
  }

  /** Dropping the part of `g * m` that is a multiple of `m * n`. */
  lemma {:induction false} TruncatedSum(x: nat, g: nat, m: nat, n: nat)
    requires x < m && n > 0
    ensures m * n > 0
    ensures (x + g * m) % (m * n) == x + g % n * m
  {
    var q, c := g / n, g % n;
    assert m * n > 0 by {
      AtLeastOnce(m, n);
    }
    assert x + c * m < m * n by {
      MulMonotone(c + 1, n, m);
      assert (c + 1) * m == c * m + m;
    }
    assert g * m == m * n * q + c * m by {
      assert g == n * q + c;
      assert (n * q + c) * m == n * q * m + c * m;
      assert n * q * m == m * n * q;
    }
    DivModUnique(x + g * m, m * n, q, x + c * m);
  }

  lemma {:induction false} ShlTruncates(g: nat, k: nat, n: nat)
    ensures Shl(g, k, k + n) == g % Pow2(n) * Pow2(k)
  {
    ShlMeaning(g, k, k + n);
    Pow2Add(k, n);
    TruncatedSum(0, g, Pow2(k), Pow2(n));
  }

  lemma {:induction false} WrapTruncates(x: nat, g: nat, k: nat, n: nat)
    requires x < Pow2(k)
    ensures Wrap(x + g * Pow2(k), Pow2(k + n)) == x + g % Pow2(n) * Pow2(k)
  {
    WrapIsMod(x + g * Pow2(k), Pow2(k + n));
    Pow2Add(k, n);
    TruncatedSum(x, g, Pow2(k), Pow2(n));
  }

  /** Or-ing `g << k` into a word whose bits from `k` up are clear adds it, modulo the word size. */
  lemma {:induction false} OrShl(x: nat, g: nat, k: nat, w: nat)
    requires x < Pow2(k) && k <= w
    ensures Or(x, Shl(g, k, w)) == Wrap(x + Scaled(g, k), Pow2(w))
  {
    var n := w - k;
    ScaledIsProduct(g, k);
    ShlTruncates(g, k, n);
    WrapTruncates(x, g, k, n);
    OrIsAdd(x, g % Pow2(n), k);
  }

  lemma {:induction false} MulMonotone(a: nat, b: nat, m: nat)
    requires a <= b
    ensures a * m <= b * m
    decreases b - a
  {
    if a < b {
      MulMonotone(a, b - 1, m);
      assert b * m == (b - 1) * m + m;
    }
  }

  lemma {:induction false} PowMonotone(a: nat, b: nat)
    requires a <= b
    ensures Pow2(a) <= Pow2(b)
  {
    Pow2Add(a, b - a);
    AtLeastOnce(Pow2(a), Pow2(b - a));
  }

  lemma {:induction false} XorZero(a: nat)
    ensures Xor(a, 0) == a
    decreases a
  {
    if a > 0 {
      XorZero(a / 2);
    }
  }

  lemma {:induction false} XorOdd(a: nat, m: nat)
    ensures Xor(a, 2 * m + 1) == 1 - a % 2 + 2 * Xor(a / 2, m)
  {
    assert (2 * m + 1) % 2 == 1 && (2 * m + 1) / 2 == m;
  }

  /** Xor with the all-ones word is complement. */
  lemma {:induction false} XorOnes(a: nat, w: nat)
    requires a < Pow2(w)
    ensures Xor(a, Pow2(w) - 1) == Not(a, w)
    decreases w
  {
    if w > 0 {
      XorOnes(a / 2, w - 1);
      XorOdd(a, Pow2(w - 1) - 1);
      NotHalves(a, Pow2(w - 1));
      assert Pow2(w) == 2 * Pow2(w - 1);
    }
  }

  lemma {:induction false} NotHalves(a: nat, p: nat)
    ensures 2 * p - 1 - a == 1 - a % 2 + 2 * (p - 1 - a / 2)
  {
  }

  /** Setting bit `k` sets that bit and no other. */
  lemma {:induction false} OrSetsBit(a: nat, k: nat, j: nat)
    ensures Bit(Or(a, Pow2(k)), j) == (Bit(a, j) || j == k)
    decreases k + j
  {
    var o := Or(a, Pow2(k));
    assert o == (if a % 2 == 1 || Pow2(k) % 2 == 1 then 1 else 0) + 2 * Or(a / 2, Pow2(k) / 2);
    if k == 0 {
      if j > 0 {
        OrSame(a / 2);
        assert Pow2(k) / 2 == 0;
      }
    } else {
      assert Pow2(k) / 2 == Pow2(k - 1);
      if j > 0 {
        OrSetsBit(a / 2, k - 1, j - 1);
      }
    }
  }

  lemma {:induction false} OrSame(a: nat)
    ensures Or(a, 0) == a
    decreases a
  {
    if a > 0 {
      OrSame(a / 2);
    }
  }

  /** The low `n` bits of a word are all set. */
  predicate LowBitsSet(a: nat, n: nat) {
    forall k :: 0 <= k < n ==> Bit(a, k)
  }

  /** A word below `2^n` holds the value `2^n - 1` exactly when its low `n` bits are all set. */
  lemma {:induction false} AllOnes(a: nat, n: nat)
    requires a < Pow2(n)
    ensures a == Pow2(n) - 1 <==> LowBitsSet(a, n)
    decreases n
  {
    if n > 0 {
      AllOnes(a / 2, n - 1);
      assert LowBitsSet(a, n) <==> a % 2 == 1 && LowBitsSet(a / 2, n - 1) by {
        LowBitsStep(a, n);
      }
    }
  }

  lemma {:induction false} LowBitsStep(a: nat, n: nat)
    requires n > 0
    ensures LowBitsSet(a, n) <==> a % 2 == 1 && LowBitsSet(a / 2, n - 1)
  {
    if LowBitsSet(a, n) {
      assert Bit(a, 0);
      forall k | 0 <= k < n - 1
        ensures Bit(a / 2, k)
      {
        assert Bit(a, k + 1);
      }
    } else {
      var k :| 0 <= k < n && !Bit(a, k);
      if k > 0 {
        assert !Bit(a / 2, k - 1);
      }
    }
  }

  /** A word with no bit set at or above `n` is below `2^n`. */
  lemma {:induction false} HighBitsClear(a: nat, n: nat)
    requires forall k: nat :: k >= n ==> !Bit(a, k)
    ensures a < Pow2(n)
    decreases a
  {
    if a > 0 {
      if n == 0 {
        HasBit(a);
      } else {
        forall k: nat | k >= n - 1
          ensures !Bit(a / 2, k)
        {
          assert !Bit(a, k + 1);
        }
        HighBitsClear(a / 2, n - 1);
      }
    }
  }

  lemma {:induction false} HasBit(a: nat)
    requires a > 0
    ensures exists k: nat :: Bit(a, k)
    decreases a
  {
    if a % 2 == 1 {
      assert Bit(a, 0);
    } else {
      HasBit(a / 2);
      var k: nat :| Bit(a / 2, k);
      assert Bit(a, k + 1);
    }
  }
}
