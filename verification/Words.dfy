/**
 Unsigned machine words and the C operators on them.

 A `uint32_t` is an integer in [0, 2^32); the operators below are the C operators with
 their truncation written out.  `Bit(x, i)` reads one bit, and the lemmas say what each
 operator does to every bit, or what number a field operation computes.
 */
module Words {

  const WORD: nat := 0x1_0000_0000

  type uint32 = x: int | 0 <= x < 0x1_0000_0000

  type int32 = x: int | -0x8000_0000 <= x < 0x8000_0000

  type byte = x: int | 0 <= x < 0x100

  function Pow2(k: nat): (p: nat)
    ensures p >= 1
  {
    if k == 0 then 1 else 2 * Pow2(k - 1)
  }

  predicate Bit(x: nat, i: nat) {
    if i == 0 then x % 2 == 1 else Bit(x / 2, i - 1)
  }

  function And(x: nat, y: nat): (r: nat)
    ensures r <= x && r <= y
  {
    if x == 0 || y == 0 then 0
    else (if x % 2 == 1 && y % 2 == 1 then 1 else 0) + 2 * And(x / 2, y / 2)
  }

  function Or(x: nat, y: nat): (r: nat)
    ensures x <= r && y <= r && r <= x + y
  {
    if x == 0 then y
    else if y == 0 then x
    else (if x % 2 == 1 || y % 2 == 1 then 1 else 0) + 2 * Or(x / 2, y / 2)
  }

  /** `~x` on 32 bits. */
  function Not(x: uint32): uint32 {
    WORD - 1 - x
  }

  /** `x << k` on 32 bits. */
  function Shl(x: uint32, k: nat): uint32 {
    x * Pow2(k) % WORD
  }

  /** `x >> k`. */
  function Shr(x: nat, k: nat): (r: nat)
    ensures r <= x
  {
    DivShrinks(x, Pow2(k));
    x / Pow2(k)
  }

  /** `x + y`, `x - y` and `x * y` on 32 bits. */
  function Add(x: uint32, y: uint32): uint32 {
    (x + y) % WORD
  }

  function Sub(x: uint32, y: uint32): uint32 {
    (x - y) % WORD
  }

  function Mul(x: uint32, y: uint32): uint32 {
    x * y % WORD
  }

  // ----- powers of two -----

  lemma DivShrinks(x: nat, p: nat)
    requires p >= 1
    ensures 0 <= x / p <= x
  {
    assert x / p * p <= x;
  }

  lemma {:induction false} Pow2Add(a: nat, b: nat)
    ensures Pow2(a + b) == Pow2(a) * Pow2(b)
  {
    if a == 0 {
    } else {
      Pow2Add(a - 1, b);
      assert a + b - 1 == (a - 1) + b;
    }
  }

  lemma {:induction false} Pow2Monotone(a: nat, b: nat)
    requires a <= b
    ensures Pow2(a) <= Pow2(b)
    decreases b - a
  {
    if a == b {
    } else {
      Pow2Monotone(a + 1, b);
    }
  }

  lemma Pow2Values()
    ensures Pow2(0) == 1 && Pow2(1) == 2 && Pow2(2) == 4 && Pow2(3) == 8 && Pow2(4) == 16
    ensures Pow2(5) == 32 && Pow2(6) == 64 && Pow2(7) == 128 && Pow2(8) == 256 && Pow2(9) == 512
    ensures Pow2(10) == 1024 && Pow2(16) == 0x1_0000 && Pow2(20) == 0x10_0000 && Pow2(24) == 0x100_0000
    ensures Pow2(30) == 0x4000_0000 && Pow2(31) == 0x8000_0000 && Pow2(32) == WORD
  {
    assert Pow2(5) == 32;
    assert Pow2(10) == 1024 by { Pow2Add(5, 5); }
    assert Pow2(15) == 32768 by { Pow2Add(10, 5); }
    assert Pow2(20) == 0x10_0000 by { Pow2Add(10, 10); }
    assert Pow2(24) == 0x100_0000;
    assert Pow2(30) == 0x4000_0000 by { Pow2Add(20, 10); }
  }

  /** Dividing twice is dividing by the product. */
  lemma DivDiv(x: nat, p: nat, q: nat)
    requires p >= 1 && q >= 1
    ensures p * q >= 1 && x / p / q == x / (p * q)
  {
    var d, r, s := x / p / q, x / p % q, x % p;
    DivModIdentity(x, p);
    DivModIdentity(x / p, q);
    assert x == (d * q + r) * p + s;
    MulAddRight(d * q, r, p);
    MulAssociates(d, q, p);
    MulCommutes(p, q);
    MulGap(r, q, p);
    MulGap(0, p, q);
    assert 0 <= r * p by { MulNonNegative(r, p); }
    DivModUnique(x, p * q, d, r * p + s);
  }

  lemma DivModIdentity(x: nat, n: nat)
    requires n >= 1
    ensures x / n * n + x % n == x && x % n < n
  {
  }

  lemma MulAssociates(a: int, b: int, c: int)
    ensures a * b * c == a * (b * c)
  {
  }

  lemma MulCommutes(a: int, b: int)
    ensures a * b == b * a
  {
  }

  lemma MulNonNegative(a: nat, b: nat)
    ensures 0 <= a * b
  {
  }

  /** Adding a multiple of n does not change the remainder. */
  lemma ModShift(x: int, k: int, n: nat)
    requires n >= 1
    ensures (x + k * n) % n == x % n
  {
    assert x == x / n * n + x % n;
    MulAddRight(x / n, k, n);
    DivModUnique(x + k * n, n, x / n + k, x % n);
  }

  lemma MulAddRight(a: int, b: int, n: int)
    ensures (a + b) * n == a * n + b * n
  {
  }

  lemma MulSucc(a: int, n: int)
    ensures (a + 1) * n == a * n + n
  {
  }

  lemma MulGap(a: int, b: int, n: nat)
    requires a < b
    ensures a * n + n <= b * n
  {
    assert b * n == a * n + n + (b - a - 1) * n;
    assert (b - a - 1) * n >= 0;
  }

  lemma DivModUnique(x: int, n: int, q: int, r: int)
    requires n >= 1 && x == q * n + r && 0 <= r < n
    ensures x / n == q && x % n == r
  {
    var q', r' := x / n, x % n;
    assert q' * n + r' == q * n + r;
    if q > q' {
      MulGap(q', q, n);
    } else if q < q' {
      MulGap(q, q', n);
    }
  }

  // ----- bits of the operators -----

  lemma {:induction false} BitZero(i: nat)
    ensures !Bit(0, i)
  {
    if i > 0 {
      BitZero(i - 1);
    }
  }

  lemma {:induction false} BitAnd(x: nat, y: nat, i: nat)
    ensures Bit(And(x, y), i) == (Bit(x, i) && Bit(y, i))
  {
    if x == 0 || y == 0 {
      BitZero(i);
    } else if i > 0 {
      BitAnd(x / 2, y / 2, i - 1);
    }
  }

  lemma {:induction false} BitOr(x: nat, y: nat, i: nat)
    ensures Bit(Or(x, y), i) == (Bit(x, i) || Bit(y, i))
  {
    if x == 0 || y == 0 {
      BitZero(i);
    } else if i > 0 {
      BitOr(x / 2, y / 2, i - 1);
    }
  }

  lemma {:induction false} BitShr(x: nat, k: nat, i: nat)
    ensures Bit(Shr(x, k), i) == Bit(x, i + k)
  {
    if k == 0 {
    } else {
      DivDiv(x, 2, Pow2(k - 1));
      BitShr(x / 2, k - 1, i);
      assert Bit(x, i + k) == Bit(x / 2, i + k - 1);
    }
  }

  lemma {:induction false} BitTimesPow2(x: nat, k: nat, i: nat)
    ensures Bit(x * Pow2(k), i) == (i >= k && Bit(x, i - k))
  {
    if k == 0 {
    } else {
      var h := x * Pow2(k - 1);
      assert x * Pow2(k) == 2 * h by {
        assert x * (2 * Pow2(k - 1)) == 2 * (x * Pow2(k - 1));
      }
      if i > 0 {
        assert 2 * h / 2 == h;
        BitTimesPow2(x, k - 1, i - 1);
      }
    }
  }

  /** Halving commutes with taking a remainder by a power of two. */
  lemma ModHalf(x: nat, n: nat)
    requires n >= 1
    ensures x % (2 * n) % 2 == x % 2
    ensures x % (2 * n) / 2 == x / 2 % n
  {
    var q, r := x / 2 / n, x / 2 % n;
    assert x / 2 == q * n + r;
    DoubledProduct(q, n);
    DivModUnique(x, 2 * n, q, 2 * r + x % 2);
  }

  lemma DoubledProduct(q: nat, n: nat)
    ensures q * (2 * n) == 2 * (q * n)
  {
  }

  lemma {:induction false} BitMod(x: nat, n: nat, i: nat)
    ensures Bit(x % Pow2(n), i) == (i < n && Bit(x, i))
  {
    if n == 0 {
      BitZero(i);
    } else {
      ModHalf(x, Pow2(n - 1));
      if i > 0 {
        BitMod(x / 2, n - 1, i - 1);
      }
    }
  }

  lemma BitShl(x: uint32, k: nat, i: nat)
    ensures Bit(Shl(x, k), i) == (k <= i < 32 && Bit(x, i - k))
  {
    Pow2Values();
    BitMod(x * Pow2(k), 32, i);
    BitTimesPow2(x, k, i);
  }

  lemma {:induction false} BitOnes(n: nat, i: nat)
    ensures Bit(Pow2(n) - 1, i) == (i < n)
  {
    if n == 0 {
      BitZero(i);
    } else if i > 0 {
      assert (Pow2(n) - 1) / 2 == Pow2(n - 1) - 1;
      BitOnes(n - 1, i - 1);
    }
  }

  lemma {:induction false} BitHigh(x: nat, n: nat, i: nat)
    requires x < Pow2(n) <= Pow2(i) && n <= i
    ensures !Bit(x, i)
  {
    if n == 0 {
      BitZero(i);
    } else {
      Pow2Monotone(n - 1, i - 1);
      BitHigh(x / 2, n - 1, i - 1);
    }
  }

  /** A word has no bit at or above position 32. */
  lemma BitAboveWord(x: uint32, i: nat)
    requires i >= 32
    ensures !Bit(x, i)
  {
    Pow2Values();
    Pow2Monotone(32, i);
    BitHigh(x, 32, i);
  }

  lemma {:induction false} BitNot(x: nat, n: nat, i: nat)
    requires x < Pow2(n)
    ensures Bit(Pow2(n) - 1 - x, i) == (i < n && !Bit(x, i))
  {
    if n == 0 {
      BitZero(i);
    } else if i > 0 {
      assert (Pow2(n) - 1 - x) / 2 == Pow2(n - 1) - 1 - x / 2;
      BitNot(x / 2, n - 1, i - 1);
    }
  }

  lemma BitNotWord(x: uint32, i: nat)
    ensures Bit(Not(x), i) == (i < 32 && !Bit(x, i))
  {
    Pow2Values();
    BitNot(x, 32, i);
  }

  lemma BitOne(i: nat)
    ensures Bit(1, i) == (i == 0)
  {
    if i > 0 {
      BitZero(i - 1);
    }
  }

  /** The single-bit mask `1 << k`. */
  lemma BitMask(k: nat, i: nat)
    requires k < 32
    ensures Bit(Shl(1, k), i) == (i == k)
  {
    BitShl(1, k, i);
    if i >= k {
      BitOne(i - k);
    }
  }

  /** Numbers below 2^n are equal when their low n bits are. */
  lemma {:induction false} SameBits(x: nat, y: nat, n: nat)
    requires x < Pow2(n) && y < Pow2(n)
    requires forall i | 0 <= i < n :: Bit(x, i) == Bit(y, i)
    ensures x == y
  {
    if n > 0 {
      assert Bit(x, 0) == Bit(y, 0);
      forall i | 0 <= i < n - 1
        ensures Bit(x / 2, i) == Bit(y / 2, i)
      {
        assert Bit(x, i + 1) == Bit(y, i + 1);
      }
      SameBits(x / 2, y / 2, n - 1);
    }
  }

  /** `(w & (1 << k)) != 0` tests bit k. */
  lemma AndMaskTest(w: uint32, k: nat)
    requires k < 32
    ensures And(w, Shl(1, k)) != 0 <==> Bit(w, k)
  {
    BitAnd(w, Shl(1, k), k);
    BitMask(k, k);
    if And(w, Shl(1, k)) == 0 {
      BitZero(k);
    } else if !Bit(w, k) {
      Pow2Values();
      hide And, Bit, Pow2, Shl;
      forall i | 0 <= i < 32
        ensures Bit(And(w, Shl(1, k)), i) == Bit(0, i)
      {
        BitAnd(w, Shl(1, k), i);
        BitMask(k, i);
        BitZero(i);
      }
      SameBits(And(w, Shl(1, k)), 0, 32);
    }
  }

  // ----- fields as numbers -----

  lemma {:induction false} OrBound(x: nat, y: nat, n: nat)
    requires x < Pow2(n) && y < Pow2(n)
    ensures Or(x, y) < Pow2(n)
  {
    if x != 0 && y != 0 {
      OrBound(x / 2, y / 2, n - 1);
    }
  }

  lemma OrWord(x: uint32, y: uint32)
    ensures Or(x, y) < WORD
  {
    Pow2Values();
    OrBound(x, y, 32);
  }

  /** Masking with the low n bits is the remainder by 2^n. */
  lemma {:induction false} AndOnes(x: nat, n: nat)
    ensures And(x, Pow2(n) - 1) == x % Pow2(n)
  {
    if n == 0 {
    } else {
      ModHalf(x, Pow2(n - 1));
      AndOnes(x / 2, n - 1);
      assert (Pow2(n) - 1) / 2 == Pow2(n - 1) - 1;
      assert (Pow2(n) - 1) % 2 == 1;
    }
  }

  /** Masking with n ones at position p keeps that field in place. */
  lemma {:induction false} AndField(x: nat, p: nat, n: nat)
    ensures And(x, (Pow2(n) - 1) * Pow2(p)) == Shr(x, p) % Pow2(n) * Pow2(p)
  {
    if p == 0 {
      AndOnes(x, n);
    } else {
      AndField(x / 2, p - 1, n);
      DivDiv(x, 2, Pow2(p - 1));
      Doubling(Pow2(n) - 1, Pow2(p - 1));
      Doubling(Shr(x, p) % Pow2(n), Pow2(p - 1));
      AndDoubled(x, (Pow2(n) - 1) * Pow2(p - 1));
    }
  }

  /** `(x << p) & mask`, where the mask is n ones at position p: the low n bits of x, in place. */
  lemma FieldInsert(x: uint32, p: nat, n: nat)
    requires p + n <= 32
    ensures And(Shl(x, p), (Pow2(n) - 1) * Pow2(p)) == x % Pow2(n) * Pow2(p)
  {
    AndField(Shl(x, p), p, n);
    forall i | 0 <= i < n
      ensures Bit(Shr(Shl(x, p), p) % Pow2(n), i) == Bit(x % Pow2(n), i)
    {
      BitMod(Shr(Shl(x, p), p), n, i);
      BitShr(Shl(x, p), p, i);
      BitShl(x, p, i + p);
      BitMod(x, n, i);
    }
    SameBits(Shr(Shl(x, p), p) % Pow2(n), x % Pow2(n), n);
  }

  lemma Doubling(a: int, b: int)
    ensures a * (2 * b) == 2 * (a * b)
  {
  }

  lemma AndDoubled(x: nat, m: nat)
    ensures And(x, 2 * m) == 2 * And(x / 2, m)
  {
    assert 2 * m / 2 == m;
  }

  /** Or-ing a multiple of 2^p with a number below 2^p adds them. */
  lemma {:induction false} OrDisjoint(x: nat, p: nat, y: nat)
    requires y < Pow2(p)
    ensures Or(x * Pow2(p), y) == x * Pow2(p) + y
  {
    if p == 0 {
    } else {
      var h := x * Pow2(p - 1);
      assert x * Pow2(p) == 2 * h by {
        assert x * (2 * Pow2(p - 1)) == 2 * (x * Pow2(p - 1));
      }
      OrDisjoint(x, p - 1, y / 2);
      assert Or(h, y / 2) == h + y / 2;
    }
  }

  lemma {:induction false} OrCommutes(x: nat, y: nat)
    ensures Or(x, y) == Or(y, x)
  {
    if x != 0 && y != 0 {
      OrCommutes(x / 2, y / 2);
    }
  }
}
