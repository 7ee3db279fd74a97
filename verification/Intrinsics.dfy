/** The software forms of the RBIT, CLZ, SSAT and USAT instructions. */
module Intrinsics {
  import opened Words

  // ----- bit reversal -----

  /** The low n bits of x in reverse order. */
  function ReverseBits(x: nat, n: nat): (r: nat)
    ensures r < Pow2(n)
  {
    if n == 0 then 0 else (if x % 2 == 1 then Pow2(n - 1) else 0) + ReverseBits(x / 2, n - 1)
  }

  /** The word with its 32 bits in reverse order. */
  function Reverse(x: uint32): uint32 {
    Pow2Values();
    ReverseBits(x, 32)
  }

  lemma {:induction false} ReverseBitsBit(x: nat, n: nat, i: nat)
    requires i < n
    ensures Bit(ReverseBits(x, n), i) == Bit(x, n - 1 - i)
  {
    if n > 0 {
      var low := ReverseBits(x / 2, n - 1);
      var top := if x % 2 == 1 then 1 else 0;
      assert ReverseBits(x, n) == top * Pow2(n - 1) + low;
      OrDisjoint(top, n - 1, low);
      hide ReverseBits, Or;
      BitOr(top * Pow2(n - 1), low, i);
      BitTimesPow2(top, n - 1, i);
      if i < n - 1 {
        ReverseBitsBit(x / 2, n - 1, i);
      } else {
        BitHigh(low, n - 1, i);
      }
    }
  }

  lemma {:induction false} ReverseBit(x: uint32, i: nat)
    requires i < 32
    ensures Bit(Reverse(x), i) == Bit(x, 31 - i)
  {
    ReverseBitsBit(x, 32, i);
  }

  /** A word whose bit i is input bit 31-i is the reverse. */
  lemma IsReverse(x: uint32, r: uint32)
    requires forall i | 0 <= i < 32 :: Bit(r, i) == Bit(x, 31 - i)
    ensures r == Reverse(x)
  {
    Pow2Values();
    forall i | 0 <= i < 32
      ensures Bit(r, i) == Bit(Reverse(x), i)
    {
      ReverseBit(x, i);
    }
    SameBits(r, Reverse(x), 32);
  }

  lemma {:induction false} ReverseInvolution(x: uint32)
    ensures Reverse(Reverse(x)) == x
  {
    hide Reverse, Bit;
    forall i | 0 <= i < 32
      ensures Bit(x, i) == Bit(Reverse(x), 31 - i)
    {
      ReverseBit(x, 31 - i);
    }
    IsReverse(Reverse(x), x);
  }

  /**
   What the loops keep after k rounds: the low k+1 bits of r are the low k+1 bits of x reversed, while
   whatever is above them, left over from starting with all of x, is still to be shifted out.
   */
  ghost predicate Partial(x: uint32, r: uint32, k: nat) {
    forall i | 0 <= i <= k :: Bit(r, i) == Bit(x, k - i)
  }

  lemma PartialStep(x: uint32, r: uint32, k: nat)
    requires Partial(x, r, k)
    ensures Or(Shl(r, 1), And(Shr(x, k + 1), 1)) < WORD
    ensures k < 31 ==> Partial(x, Or(Shl(r, 1), And(Shr(x, k + 1), 1)), k + 1)
  {
    var low := And(Shr(x, k + 1), 1);
    OrWord(Shl(r, 1), low);
    if k < 31 {
      hide And, Or, Shl, Shr, Bit;
      forall i | 0 <= i <= k + 1
        ensures Bit(Or(Shl(r, 1), low), i) == Bit(x, k + 1 - i)
      {
        BitOr(Shl(r, 1), low, i);
        BitShl(r, 1, i);
        BitAnd(Shr(x, k + 1), 1, i);
        BitOne(i);
        BitShr(x, k + 1, i);
      }
    }
  }

  /** Once nothing of x is left, shifting out the leftovers gives the reverse. */
  lemma PartialEnds(x: uint32, r: uint32, k: nat)
    requires k <= 31 && Partial(x, r, k) && Shr(x, k + 1) == 0
    ensures Shl(r, 31 - k) == Reverse(x)
  {
    hide Shl, Shr, Bit, Reverse;
    var shifted := Shl(r, 31 - k);
    forall i | 0 <= i < 32
      ensures Bit(shifted, i) == Bit(x, 31 - i)
    {
      BitShl(r, 31 - k, i);
      if i < 31 - k {
        BitShr(x, k + 1, 30 - k - i);
        BitZero(30 - k - i);
      }
    }
    IsReverse(x, shifted);
  }

  /** What is left of x shrinks, and vanishes after 32 shifts. */
  lemma ShiftsOut(x: uint32, k: nat)
    ensures Shr(Shr(x, k), 1) == Shr(x, k + 1)
    ensures Shr(x, k) != 0 ==> k < 32 && Shr(x, k + 1) < Shr(x, k)
  {
    Pow2Values();
    Pow2Add(k, 1);
    DivDiv(x, Pow2(k), 2);
    if k >= 32 {
      Pow2Monotone(32, k);
      DivModUnique(x, Pow2(k), 0, x);
    }
  }

  /** The IAR __RBIT: the word counter is a `uint8_t` and the loop stops when no bit is left. */
  method RbitIccarm(value: uint32) returns (r: uint32)
    ensures r == Reverse(value)
  {
    var v: uint32 := value;
    var sc: byte := 31;
    r := v;
    v := Shr(v, 1);
    hide Shr, Shl, Or, And, Reverse;
    while v != 0
      invariant 0 <= sc <= 31 && v == Shr(value, 32 - sc)
      invariant Partial(value, r, 31 - sc)
      decreases v
    {
      ShiftsOut(value, 32 - sc);
      PartialStep(value, r, 31 - sc);
      r := Or(Shl(r, 1), And(v, 1));
      sc := sc - 1;
      v := Shr(v, 1);
    }
    PartialEnds(value, r, 31 - sc);
    r := Shl(r, sc);
  }

  /** The ARM Compiler __RBIT: the same loop on its own argument, with a `uint32_t` counter. */
  method RbitArmcc(argument: uint32) returns (result: uint32)
    ensures result == Reverse(argument)
  {
    var value: uint32 := argument;
    var s: uint32 := 4 * 8 - 1;
    result := value;
    value := Shr(value, 1);
    hide Shr, Shl, Or, And, Reverse;
    while value != 0
      invariant 0 <= s <= 31 && value == Shr(argument, 32 - s)
      invariant Partial(argument, result, 31 - s)
      decreases value
    {
      ShiftsOut(argument, 32 - s);
      PartialStep(argument, result, 31 - s);
      result := Shl(result, 1);
      result := Or(result, And(value, 1));
      s := s - 1;
      value := Shr(value, 1);
    }
    PartialEnds(argument, result, 31 - s);
    result := Shl(result, s);
  }

  // ----- leading and trailing zeros -----

  /** n is the number of zero bits above the highest one bit; 32 for a zero word. */
  ghost predicate LeadingZeros(x: uint32, n: nat) {
    && n <= 32
    && (n < 32 ==> Bit(x, 31 - n))
    && forall i | 32 - n <= i < 32 :: !Bit(x, i)
  }

  ghost predicate TrailingZeros(x: uint32, n: nat) {
    && n <= 32
    && (n < 32 ==> Bit(x, n))
    && forall i | 0 <= i < n :: !Bit(x, i)
  }

  /** Counting the leading zeros of the reversed word counts the trailing zeros of the word. */
  lemma {:induction false} ClzOfReverse(x: uint32, n: nat)
    ensures LeadingZeros(Reverse(x), n) <==> TrailingZeros(x, n)
  {
    hide Reverse, Bit;
    forall i | 0 <= i < 32
      ensures Bit(Reverse(x), 31 - i) == Bit(x, i)
    {
      ReverseBit(x, 31 - i);
    }
    if n <= 32 && LeadingZeros(Reverse(x), n) {
      forall i | 0 <= i < n ensures !Bit(x, i) {
        assert !Bit(Reverse(x), 31 - i);
      }
    }
    if n <= 32 && TrailingZeros(x, n) {
      forall i | 32 - n <= i < 32 ensures !Bit(Reverse(x), i) {
        assert !Bit(x, 31 - i);
        assert Bit(Reverse(x), 31 - (31 - i)) == Bit(x, 31 - i);
      }
    }
  }

  lemma MaskHalves(k: nat)
    requires 0 < k < 32
    ensures Shr(Shl(1, k), 1) == Shl(1, k - 1) && 0 < Shl(1, k - 1) < Shl(1, k)
  {
    Pow2Values();
    Pow2Monotone(k, 31);
  }

  /** A word with no bit set is zero. */
  lemma NoBits(x: uint32)
    requires forall i | 0 <= i < 32 :: !Bit(x, i)
    ensures x == 0
  {
    Pow2Values();
    forall i | 0 <= i < 32 ensures Bit(x, i) == Bit(0, i) {
      BitZero(i);
    }
    SameBits(x, 0, 32);
  }

  /** __CLZ: the mask walks down from the top bit; the loop cannot run past bit 0 of a nonzero word. */
  method Clz(data: uint32) returns (n: byte)
    ensures LeadingZeros(data, n)
  {
    if data == 0 {
      forall i | 0 <= i < 32 ensures !Bit(data, i) {
        BitZero(i);
      }
      return 32;
    }
    var count: uint32 := 0;
    var mask: uint32 := 0x8000_0000;
    Pow2Values();
    assert mask == Shl(1, 31);
    AndMaskTest(data, 31);
    hide Shl, Shr, And, Pow2, Bit;
    while And(data, mask) == 0
      invariant 0 <= count <= 31 && mask == Shl(1, 31 - count)
      invariant forall i | 32 - count <= i < 32 :: !Bit(data, i)
      invariant And(data, mask) != 0 <==> Bit(data, 31 - count)
      decreases 31 - count
    {
      if count == 31 {
        NoBits(data);
      }
      MaskHalves(31 - count);
      count := count + 1;
      mask := Shr(mask, 1);
      AndMaskTest(data, 31 - count);
    }
    n := count;
  }

  // ----- saturation -----

  /** __SSAT, as both compilers' files write it. */
  function Ssat(val: int32, sat: uint32): int32 {
    if 1 <= sat <= 32 then
      SignedMax(sat);
      var max: int32 := Sub(Shl(1, sat - 1), 1);
      var min: int32 := -1 - max;
      if val > max then max else if val < min then min else val
    else val
  }

  /** __USAT. */
  function Usat(val: int32, sat: uint32): uint32 {
    if sat <= 31 then
      SignedMax(sat + 1);
      var max: uint32 := Sub(Shl(1, sat), 1);
      if val > max then max else if val < 0 then 0 else val
    else val % WORD
  }

  lemma SignedMax(sat: uint32)
    requires 1 <= sat <= 32
    ensures Sub(Shl(1, sat - 1), 1) == Pow2(sat - 1) - 1 < 0x8000_0000
  {
    Pow2Values();
    Pow2Monotone(sat - 1, 31);
  }

  /** r is the point of [lo, hi] nearest to x. */
  ghost predicate Nearest(x: int, lo: int, hi: int, r: int) {
    lo <= r <= hi && forall y | lo <= y <= hi :: Distance(x, r) <= Distance(x, y)
  }

  function Distance(a: int, b: int): nat {
    if a < b then b - a else a - b
  }

  /**
   Signed saturation to s bits is the nearest-point projection onto the s-bit signed range; a width that
   is none leaves the value alone.
   */
  lemma {:induction false} SsatNearest(val: int32, sat: uint32)
    ensures if 1 <= sat <= 32 then Nearest(val, -(Pow2(sat - 1) as int), Pow2(sat - 1) - 1, Ssat(val, sat))
            else Ssat(val, sat) == val
  {
    if 1 <= sat <= 32 {
      SignedMax(sat);
    }
  }

  lemma {:induction false} UsatNearest(val: int32, sat: uint32)
    ensures if sat <= 31 then Nearest(val, 0, Pow2(sat) - 1, Usat(val, sat))
            else Usat(val, sat) == if val >= 0 then val else val + WORD
  {
    if sat <= 31 {
      SignedMax(sat + 1);
    }
  }

  /** It keeps order, and saturating twice is saturating once to the smaller width. */
  lemma {:induction false} SsatNested(a: int32, b: int32, s: uint32, t: uint32)
    requires 1 <= s <= 32 && 1 <= t <= 32
    ensures a <= b ==> Ssat(a, s) <= Ssat(b, s)
    ensures Ssat(Ssat(a, s), t) == Ssat(a, if s <= t then s else t)
  {
    SignedMax(s);
    SignedMax(t);
    if s <= t {
      Pow2Monotone(s - 1, t - 1);
    } else {
      Pow2Monotone(t - 1, s - 1);
    }
  }

  lemma {:induction false} UsatNested(a: int32, b: int32, s: uint32, t: uint32)
    requires s <= 31 && t <= 31
    ensures a <= b ==> Usat(a, s) <= Usat(b, s)
    ensures Usat(a, s) < 0x8000_0000 && Usat(Usat(a, s), t) == Usat(a, if s <= t then s else t)
  {
    SignedMax(s + 1);
    SignedMax(t + 1);
    if s <= t {
      Pow2Monotone(s, t);
    } else {
      Pow2Monotone(t, s);
    }
  }
}
