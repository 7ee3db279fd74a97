/** SystemCoreClockUpdate: the core clock computed from the RCC registers by truncating divisions. */
module Clock {
  import opened Words

  const HSE_VALUE: uint32 := 12_000_000
  const HSI_VALUE: uint32 := 16_000_000

  const AHB_PRESC_TABLE: seq<byte> := [0, 0, 0, 0, 0, 0, 0, 0, 1, 2, 3, 4, 6, 7, 8, 9]

  /** The fields of CFGR and PLLCFGR that the routine reads. */
  datatype Source = HSI | HSE | PLL

  datatype Setting = Setting(source: Source, pllHse: bool, m: nat, n: nat, p: nat, shift: nat)

  function Fields(cfgr: uint32, pllcfgr: uint32): (s: Setting)
    ensures s.m <= 63 && s.n <= 511 && s.p in {2, 4, 6, 8} && s.shift <= 9
  {
    Setting(
      if cfgr / 4 % 4 == 1 then HSE else if cfgr / 4 % 4 == 2 then PLL else HSI,
      pllcfgr / 0x40_0000 % 2 == 1,
      pllcfgr % 64,
      pllcfgr / 64 % 512,
      (pllcfgr / 0x1_0000 % 4 + 1) * 2,
      AHB_PRESC_TABLE[cfgr / 16 % 16])
  }

  function Input(s: Setting): uint32 {
    if s.pllHse then HSE_VALUE else HSI_VALUE
  }

  /** The PLL's intermediate frequency before it is cut to 32 bits. */
  function Vco(s: Setting): nat
    requires s.m > 0
  {
    Input(s) / s.m * s.n
  }

  /** The frequency the routine stores. */
  function Hclk(s: Setting): nat
    requires s.source == PLL ==> s.m > 0 && s.p > 0
  {
    match s.source
    case HSI => Over(HSI_VALUE, Pow2(s.shift))
    case HSE => Over(HSE_VALUE, Pow2(s.shift))
    case PLL => Over(Over(Vco(s) % WORD, s.p), Pow2(s.shift))
  }

  function Over(x: nat, y: nat): (q: nat)
    requires y > 0
    ensures q == x / y
  {
    DivShrinks(x, y);
    x / y
  }

  /** The divider in the exact rational F * N / (M * P * 2^k). */
  function Divider(s: Setting): nat {
    s.m * s.p * Pow2(s.shift)
  }

  /**
   The product overflows 32 bits exactly when the input is not divided at all and the multiplier is
   too large; for a divider of at least 2, as the hardware demands, never.
   */
  lemma {:induction false} OverflowExact(s: Setting)
    requires 1 <= s.m && s.n <= 511
    ensures Vco(s) < WORD <==> !(s.m == 1 && s.n > if s.pllHse then 357 else 268)
  {
    var f := Input(s);
    if s.m >= 2 {
      DivAtMost(f, s.m, 8_000_000);
      ProductBound(f / s.m, 8_000_000, s.n, 511);
    } else {
      assert f / s.m == f;
    }
  }

  lemma DivAtMost(f: nat, m: nat, q: nat)
    requires m >= 2 && f <= 2 * q
    ensures f / m <= q
  {
    DivModIdentity(f, m);
    if f / m > q {
      MulGap(q, f / m, m);
      MulGap(1, m, q + 1);
      MulCommutes(q, m);
    }
  }

  lemma ProductBound(a: nat, b: nat, c: nat, d: nat)
    requires a <= b && c <= d
    ensures a * c <= b * d
  {
    assert a * c <= b * c;
    assert b * c <= b * d;
  }

  /**
   Without overflow, the numerator F * N exceeds HCLK times the divider by exactly what the three
   truncating divisions threw away, each scaled up by the divisions after it.
   */
  lemma {:induction false} ErrorFormula(s: Setting)
    requires s.source == PLL && s.m > 0 && s.p > 0 && Vco(s) < WORD
    ensures var sysclk := Vco(s) / s.p;
            Input(s) * s.n == Hclk(s) * Divider(s)
              + sysclk % Pow2(s.shift) * (s.m * s.p) + Vco(s) % s.p * s.m + Input(s) % s.m * s.n
  {
    var f, v, k := Input(s), Vco(s), Pow2(s.shift);
    var c := v / s.p;
    assert Hclk(s) == c / k by {
      DivModUnique(v, WORD, 0, v);
    }
    DivModIdentity(f, s.m);
    DivModIdentity(v, s.p);
    DivModIdentity(c, k);
    hide Hclk, Pow2;
    ErrorNumbers(f / s.m, f % s.m, c, v % s.p, c / k, c % k, s.m, s.p, k, s.n);
  }

  lemma ErrorNumbers(q: int, r: int, c: int, e: int, h: int, g: int, m: int, p: int, k: int, n: int)
    requires q * n == c * p + e && c == h * k + g
    ensures (q * m + r) * n == h * (m * p * k) + g * (m * p) + e * m + r * n
  {
    Expand(q, m, r, n);
    Regroup(q, m, n);
    VcoPart(q * n, c, e, m, p);
    Expand(h, k, g, m * p);
    Regroup(h, k, m * p);
    MulCommutes(k, m * p);
  }

  lemma VcoPart(v: int, c: int, e: int, m: int, p: int)
    requires v == c * p + e
    ensures v * m == c * (m * p) + e * m
  {
    Expand(c, p, e, m);
    MulAssociates(c, p, m);
    MulCommutes(p, m);
  }

  /** (a * b + r) * c, multiplied out. */
  lemma Expand(a: int, b: int, r: int, c: int)
    ensures (a * b + r) * c == a * b * c + r * c
  {
    MulAddRight(a * b, r, c);
  }

  lemma Regroup(a: int, b: int, c: int)
    ensures a * b * c == a * c * b && a * c * b == a * (b * c)
  {
    MulAssociates(a, b, c);
    MulAssociates(a, c, b);
    MulCommutes(b, c);
  }

  /** The exact frequency. */
  function Exact(s: Setting): real
    requires Divider(s) > 0
  {
    (Input(s) * s.n) as real / Divider(s) as real
  }

  lemma DividerPositive(s: Setting)
    requires s.m > 0 && s.p > 0
    ensures Divider(s) > 0 && s.m * s.p > 0
  {
    MulGap(0, s.m, s.p);
    MulGap(0, s.m * s.p, Pow2(s.shift));
  }

  /**
   HCLK never exceeds the exact rational, falls short by less than (N/P + 1) / 2^k + 1 (written over
   the common divider), and is exact when, and only when, no division truncates.
   */
  lemma {:induction false} HclkBounds(s: Setting)
    requires s.source == PLL && s.m > 0 && s.p > 0 && Vco(s) < WORD
    ensures Hclk(s) * Divider(s) <= Input(s) * s.n
    ensures Input(s) * s.n < Hclk(s) * Divider(s) + s.m * s.n + s.m * s.p + Divider(s)
    ensures Hclk(s) * Divider(s) == Input(s) * s.n <==>
            (Input(s) % s.m == 0 || s.n == 0) && Vco(s) % s.p == 0 && Vco(s) / s.p % Pow2(s.shift) == 0
  {
    var k := Pow2(s.shift);
    var g, e, r := Vco(s) / s.p % k, Vco(s) % s.p, Input(s) % s.m;
    ErrorFormula(s);
    DividerPositive(s);
    Leftover(g, k, s.m * s.p);
    Leftover(e, s.p, s.m);
    Leftover(r, s.m, s.n);
    MulCommutes(k, s.m * s.p);
    MulCommutes(s.p, s.m);
    hide Vco, Hclk, Input;
  }

  /** A remainder below b, scaled by c. */
  lemma Leftover(r: nat, b: nat, c: nat)
    requires r < b
    ensures 0 <= r * c && r * c + c <= b * c
    ensures r * c == 0 <==> r == 0 || c == 0
  {
    MulGap(r, b, c);
    MulNonNegative(r, c);
    if r > 0 && c > 0 {
      MulGap(0, r, c);
    }
  }

  /** The same bounds as real numbers. */
  lemma {:induction false} HclkError(s: Setting)
    requires s.source == PLL && s.m > 0 && s.p > 0 && Vco(s) < WORD
    ensures Divider(s) > 0
    ensures Hclk(s) as real <= Exact(s)
    ensures Exact(s) - Hclk(s) as real < (s.n as real / s.p as real + 1.0) / Pow2(s.shift) as real + 1.0
  {
    HclkBounds(s);
    DividerPositive(s);
    var d, h, x := Divider(s), Hclk(s), Input(s) * s.n;
    hide Hclk, Vco, Input, Divider;
    Quotient(x, d, h, s.m * s.n + s.m * s.p + d);
    ShareOfDivider(s);
  }

  /** h * d <= x < h * d + y, divided by d. */
  lemma Quotient(x: int, d: int, h: int, y: int)
    requires d > 0 && h * d <= x < h * d + y
    ensures h as real <= x as real / d as real < h as real + y as real / d as real
  {
    var q := x as real / d as real;
    assert q * d as real == x as real;
    assert (h * d) as real == h as real * d as real;
    assert (q - h as real) * d as real >= 0.0;
    assert y as real / d as real * d as real == y as real;
    assert (h as real + y as real / d as real - q) * d as real > 0.0;
  }

  lemma ShareOfDivider(s: Setting)
    requires s.m > 0 && s.p > 0 && Divider(s) > 0
    ensures (s.m * s.n + s.m * s.p + Divider(s)) as real / Divider(s) as real ==
            (s.n as real / s.p as real + 1.0) / Pow2(s.shift) as real + 1.0
  {
    var m, n, p, k := s.m as real, s.n as real, s.p as real, Pow2(s.shift) as real;
    RealProducts(s.m, s.n, s.p, Pow2(s.shift), Divider(s));
    ShareTimesDivider(m, n, p, k);
    hide Divider, Pow2;
    QuotientIs((s.m * s.n + s.m * s.p + Divider(s)) as real, Divider(s) as real, (n / p + 1.0) / k + 1.0);
  }

  /** The integer products, as real numbers. */
  lemma RealProducts(m: nat, n: nat, p: nat, k: nat, d: nat)
    requires d == m * p * k
    ensures d as real == m as real * p as real * k as real
    ensures (m * n + m * p + d) as real ==
            m as real * n as real + m as real * p as real + m as real * p as real * k as real
  {
    RealProduct(m, p);
    RealProduct(m, n);
    RealProduct(m * p, k);
  }

  lemma RealProduct(a: int, b: int)
    ensures (a * b) as real == a as real * b as real
  {
  }

  lemma ShareTimesDivider(m: real, n: real, p: real, k: real)
    requires p > 0.0 && k > 0.0
    ensures ((n / p + 1.0) / k + 1.0) * (m * p * k) == m * n + m * p + m * p * k
  {
    var x := n / p;
    var y := (x + 1.0) / k;
    assert x * p == n;
    assert y * k == x + 1.0;
    assert (y + 1.0) * (m * p * k) == m * p * (y * k) + m * p * k;
    assert m * p * (x + 1.0) == m * (x * p) + m * p;
  }

  lemma QuotientIs(x: real, d: real, z: real)
    requires d > 0.0 && z * d == x
    ensures x / d == z
  {
  }

  // ----- what the register codes mean -----

  /** What an HPRE code divides the system clock by: codes below 8 do not divide. */
  function HpreDivisor(code: nat): (d: nat)
    ensures d >= 1
  {
    if code == 8 then 2 else if code == 9 then 4 else if code == 10 then 8 else if code == 11 then 16
    else if code == 12 then 64 else if code == 13 then 128 else if code == 14 then 256 else if code == 15 then 512
    else 1
  }

  lemma {:induction false} TableIsDivisor(code: nat)
    requires code < 16
    ensures Pow2(AHB_PRESC_TABLE[code]) == HpreDivisor(code)
  {
    Pow2Values();
    assert Pow2(6) == 64 && Pow2(7) == 128 && Pow2(8) == 256 && Pow2(9) == 512;
  }

  /** F * N / (M * P * d) with the three divisions truncating, and without overflow the bounds that lies between. */
  ghost predicate PllClock(hz: nat, f: nat, m: nat, n: nat, p: nat, d: nat)
    requires m > 0 && p > 0 && d > 0
  {
    && hz == f / m * n % 0x1_0000_0000 / p / d
    && (f / m * n < 0x1_0000_0000 ==>
          hz * (m * p * d) <= f * n < hz * (m * p * d) + m * n + m * p + m * p * d)
  }

  /**
   What the registers say the core clock is.  SWS, bits 3:2 of CFGR, selects HSI unless it is HSE (1) or
   the PLL (2); HPRE, bits 7:4, divides it.  The PLL takes HSE if bit 22 of PLLCFGR is set, divides it by
   M (bits 5:0), multiplies it by N (14:6) and divides it by P (17:16, in steps of two).
   */
  ghost predicate RegisterClock(hz: nat, cfgr: uint32, pllcfgr: uint32)
    requires cfgr / 4 % 4 == 2 ==> pllcfgr % 64 > 0
  {
    var sws, d := cfgr / 4 % 4, HpreDivisor(cfgr / 16 % 16);
    if sws == 1 then hz == 12_000_000 / d
    else if sws == 2 then
      PllClock(hz, if pllcfgr / 0x40_0000 % 2 == 1 then 12_000_000 else 16_000_000,
               pllcfgr % 64, pllcfgr / 64 % 512, 2 * (pllcfgr / 0x1_0000 % 4) + 2, d)
    else hz == 16_000_000 / d
  }

  lemma {:induction false} RegisterMeaning(cfgr: uint32, pllcfgr: uint32)
    requires cfgr / 4 % 4 == 2 ==> pllcfgr % 64 > 0
    ensures RegisterClock(Hclk(Fields(cfgr, pllcfgr)), cfgr, pllcfgr)
  {
    hide Pow2, HpreDivisor, PllClock;
    TableIsDivisor(cfgr / 16 % 16);
    if cfgr / 4 % 4 == 2 {
      PllMeaning(Fields(cfgr, pllcfgr), HpreDivisor(cfgr / 16 % 16));
    }
  }

  lemma PllMeaning(s: Setting, d: nat)
    requires s.source == PLL && s.m > 0 && s.p > 0 && d == Pow2(s.shift)
    ensures d > 0 && PllClock(Hclk(s), Input(s), s.m, s.n, s.p, d)
  {
    if Vco(s) < WORD {
      HclkBounds(s);
    }
    hide Pow2, Input;
  }

  class System {
    /** RCC->CFGR and RCC->PLLCFGR. */
    var cfgr: uint32
    var pllcfgr: uint32
    var systemCoreClock: uint32

    constructor (c: uint32, p: uint32)
      ensures cfgr == c && pllcfgr == p && systemCoreClock == HSI_VALUE
    {
      cfgr, pllcfgr, systemCoreClock := c, p, HSI_VALUE;
    }

    /** The C code divides by PLLM when the PLL is the system clock. */
    method SystemCoreClockUpdate()
      requires cfgr / 4 % 4 == 2 ==> pllcfgr % 64 > 0
      modifies this`systemCoreClock
      ensures systemCoreClock == Hclk(Fields(cfgr, pllcfgr))
      ensures RegisterClock(systemCoreClock, cfgr, pllcfgr)
    {
      hide And, Shr, Shl, Pow2, RegisterClock;
      RegisterMeaning(cfgr, pllcfgr);
      FieldMasks(cfgr, pllcfgr);
      var tmp: uint32 := And(cfgr, 0xC);
      if tmp == 0 {
        systemCoreClock := HSI_VALUE;
      } else if tmp == 4 {
        systemCoreClock := HSE_VALUE;
      } else if tmp == 8 {
        var pllsource: uint32 := Shr(And(pllcfgr, 0x40_0000), 22);
        var pllm: uint32 := And(pllcfgr, 0x3F);
        var pllvco: uint32;
        if pllsource != 0 {
          pllvco := Mul(HSE_VALUE / pllm, Shr(And(pllcfgr, 0x7FC0), 6));
        } else {
          pllvco := Mul(HSI_VALUE / pllm, Shr(And(pllcfgr, 0x7FC0), 6));
        }
        var pllp: uint32 := (Shr(And(pllcfgr, 0x3_0000), 16) + 1) * 2;
        systemCoreClock := pllvco / pllp;
      } else {
        systemCoreClock := HSI_VALUE;
      }
      tmp := AHB_PRESC_TABLE[Shr(And(cfgr, 0xF0), 4)];
      ShrIsDivision(systemCoreClock, tmp);
      systemCoreClock := Shr(systemCoreClock, tmp);
    }
  }

  lemma ShrIsDivision(x: uint32, k: nat)
    ensures Shr(x, k) == x / Pow2(k)
  {
  }

  /** The C masks and shifts pick out the fields. */
  lemma FieldMasks(cfgr: uint32, pllcfgr: uint32)
    ensures And(cfgr, 0xC) == cfgr / 4 % 4 * 4
    ensures Shr(And(cfgr, 0xF0), 4) == cfgr / 16 % 16
    ensures Shr(And(pllcfgr, 0x40_0000), 22) == pllcfgr / 0x40_0000 % 2
    ensures And(pllcfgr, 0x3F) == pllcfgr % 64
    ensures Shr(And(pllcfgr, 0x7FC0), 6) == pllcfgr / 64 % 512
    ensures Shr(And(pllcfgr, 0x3_0000), 16) == pllcfgr / 0x1_0000 % 4
  {
    Pow2Values();
    assert Pow2(22) == 0x40_0000;
    hide And, Pow2;
    AndField(cfgr, 2, 2);
    AndField(cfgr, 4, 4);
    AndField(pllcfgr, 22, 1);
    AndOnes(pllcfgr, 6);
    AndField(pllcfgr, 6, 9);
    AndField(pllcfgr, 16, 2);
  }
}
