/**
 The NVIC: banked write-1-to-set and write-1-to-clear registers, and interrupt priorities
 (section B3.4 of the ARMv7-M Architecture Reference Manual).
 */
module Nvic {
  import opened Words

  type int240 = n: int | 0 <= n < 240

  /** Interrupts 0..239, or the system exceptions -12..-1 whose priority can be set. */
  type Exception = n: int | -12 <= n < 240

  /** A bank of eight words, one bit an interrupt. */
  type Bank = b: seq<uint32> | |b| == 8 witness [0, 0, 0, 0, 0, 0, 0, 0]

  predicate Has(b: Bank, n: nat)
    requires n < 256
  {
    Bit(b[n / 32], n % 32)
  }

  /** The interrupts whose bit is set. */
  ghost function Members(b: Bank): set<nat> {
    set n: nat | n < 256 && Has(b, n)
  }

  /** Writing a word to a set-enable or set-pending register, and to a clear register. */
  function WriteOneSets(b: Bank, i: nat, v: uint32): Bank
    requires i < 8
  {
    OrWord(b[i], v);
    b[i := Or(b[i], v)]
  }

  function WriteOneClears(b: Bank, i: nat, v: uint32): Bank
    requires i < 8
  {
    b[i := And(b[i], Not(v))]
  }

  /** `IRQn >> 5` and `1 << (IRQn & 0x1F)`. */
  function IrqWord(n: int240): (i: nat)
    ensures i == n / 32 < 8
  {
    Pow2Values();
    Shr(n, 5)
  }

  function IrqMask(n: int240): uint32 {
    Shl(1, And(n, 0x1F))
  }

  lemma IrqMaskBits(n: int240, i: nat)
    ensures Bit(IrqMask(n), i) == (i == n % 32)
  {
    Pow2Values();
    AndOnes(n, 5);
    BitMask(n % 32, i);
  }

  lemma SettingOne(b: Bank, n: int240)
    ensures Members(WriteOneSets(b, IrqWord(n), IrqMask(n))) == Members(b) + {n}
  {
    var b' := WriteOneSets(b, IrqWord(n), IrqMask(n));
    forall k: nat | k < 256
      ensures Has(b', k) == (Has(b, k) || k == n)
    {
      IrqMaskBits(n, k % 32);
      BitOr(b[IrqWord(n)], IrqMask(n), k % 32);
    }
  }

  lemma ClearingOne(b: Bank, n: int240)
    ensures Members(WriteOneClears(b, IrqWord(n), IrqMask(n))) == Members(b) - {n}
  {
    var b' := WriteOneClears(b, IrqWord(n), IrqMask(n));
    Pow2Values();
    forall k: nat | k < 256
      ensures Has(b', k) == (Has(b, k) && k != n)
    {
      IrqMaskBits(n, k % 32);
      BitNot(IrqMask(n), 32, k % 32);
      BitAnd(b[IrqWord(n)], Not(IrqMask(n)), k % 32);
    }
  }

  lemma MaskTest(w: uint32, n: int240)
    ensures And(w, IrqMask(n)) != 0 <==> Bit(w, n % 32)
  {
    Pow2Values();
    AndOnes(n, 5);
    hide And, Bit, Pow2, Shl;
    AndMaskTest(w, n % 32);
  }

  // ----- priorities -----

  /** __NVIC_PRIO_BITS. */
  type PrioBits = n: nat | 1 <= n <= 8 witness 4

  function PreemptBits(n: PrioBits, group: uint32): uint32 {
    var g: uint32 := And(group, 7);
    if Sub(7, g) > n then n else Sub(7, g)
  }

  function SubBits(n: PrioBits, group: uint32): uint32 {
    var g: uint32 := And(group, 7);
    if Add(g, n) < 7 then 0 else Add(Sub(g, 7), n)
  }

  /** The two widths split the implemented bits, whatever the group. */
  lemma {:induction false} WidthsSum(n: PrioBits, group: uint32)
    ensures PreemptBits(n, group) + SubBits(n, group) == n
    ensures PreemptBits(n, group) == (if 7 - group % 8 > n then n else 7 - group % 8)
  {
    Pow2Values();
    AndOnes(group, 3);
    hide And, Pow2, Add, Sub;
    WrappedWidths(n, group % 8);
  }

  /** The wrap of `g - 7` is undone by adding the implemented bits. */
  lemma WrappedWidths(n: PrioBits, g: uint32)
    requires g <= 7
    ensures Sub(7, g) == 7 - g && Add(g, n) == g + n
    ensures g + n >= 7 ==> Add(Sub(g, 7), n) == g + n - 7
  {
    if g < 7 {
      DivModUnique(g - 7, WORD, -1, WORD + g - 7);
      if g + n >= 7 {
        DivModUnique(WORD + g - 7 + n, WORD, 1, g + n - 7);
      }
    }
  }

  /** `(1 << bits) - 1`. */
  function Ones(bits: uint32): uint32 {
    Sub(Shl(1, bits), 1)
  }

  function EncodePriority(n: PrioBits, group: uint32, preempt: uint32, sub: uint32): uint32 {
    var hi := Shl(And(preempt, Ones(PreemptBits(n, group))), SubBits(n, group));
    var lo := And(sub, Ones(SubBits(n, group)));
    OrWord(hi, lo);
    Or(hi, lo)
  }

  function DecodePriority(n: PrioBits, group: uint32, priority: uint32): (r: (uint32, uint32)) {
    (And(Shr(priority, SubBits(n, group)), Ones(PreemptBits(n, group))), And(priority, Ones(SubBits(n, group))))
  }

  lemma Pow2Small(k: nat)
    requires k <= 8
    ensures Pow2(k) <= 0x100
  {
    Pow2Values();
    Pow2Monotone(k, 8);
  }

  lemma MaskOnes(x: uint32, k: nat)
    requires k <= 8
    ensures And(x, Ones(k)) == x % Pow2(k)
  {
    OnesValue(k);
    hide And, Ones;
    AndOnes(x, k);
  }

  lemma OnesValue(k: nat)
    requires k <= 8
    ensures Ones(k) == Pow2(k) - 1
  {
    Pow2Small(k);
    hide Pow2;
    ModSmall(1 * Pow2(k), WORD);
    ModSmall(Pow2(k) - 1, WORD);
  }

  /** Two masked fields side by side, as a number. */
  lemma PackFields(hi: uint32, lo: uint32, p: nat, s: nat)
    requires p + s <= 8
    ensures Or(Shl(And(hi, Ones(p)), s), And(lo, Ones(s))) == hi % Pow2(p) * Pow2(s) + lo % Pow2(s)
    ensures hi % Pow2(p) * Pow2(s) + lo % Pow2(s) < Pow2(p + s)
  {
    hide And, Ones, Or, Shl;
    MaskOnes(hi, p);
    MaskOnes(lo, s);
    FieldsFit(hi % Pow2(p), lo % Pow2(s), p, s);
    OrDisjoint(hi % Pow2(p), s, lo % Pow2(s));
  }

  lemma FieldsFit(h: nat, l: nat, p: nat, s: nat)
    requires p + s <= 8 && h < Pow2(p) && l < Pow2(s)
    ensures h * Pow2(s) + l < Pow2(p + s) <= 0x100
    ensures Shl(h, s) == h * Pow2(s)
  {
    Pow2Add(p, s);
    Pow2Small(p + s);
    MulGap(h, Pow2(p), Pow2(s));
    MulNonNegative(h, Pow2(s));
    ModSmall(h * Pow2(s), WORD);
    MulGap(0, Pow2(s), Pow2(p));
  }

  /** The encoding is the truncated preempt priority above the truncated subpriority. */
  lemma EncodeValue(n: PrioBits, group: uint32, preempt: uint32, sub: uint32)
    ensures var p, s := PreemptBits(n, group), SubBits(n, group);
            && EncodePriority(n, group, preempt, sub) == preempt % Pow2(p) * Pow2(s) + sub % Pow2(s)
            && EncodePriority(n, group, preempt, sub) < Pow2(n)
  {
    WidthsSum(n, group);
    PackFields(preempt, sub, PreemptBits(n, group), SubBits(n, group));
  }

  lemma DecodeValue(n: PrioBits, group: uint32, priority: uint32)
    ensures var p, s := PreemptBits(n, group), SubBits(n, group);
            DecodePriority(n, group, priority) == (priority / Pow2(s) % Pow2(p), priority % Pow2(s))
  {
    WidthsSum(n, group);
    hide And, Ones, PreemptBits, SubBits;
    MaskOnes(Shr(priority, SubBits(n, group)), PreemptBits(n, group));
    MaskOnes(priority, SubBits(n, group));
  }

  /** Decoding undoes encoding, up to the truncation of each field to its width. */
  lemma {:induction false} DecodeEncode(n: PrioBits, group: uint32, preempt: uint32, sub: uint32)
    ensures DecodePriority(n, group, EncodePriority(n, group, preempt, sub)) ==
            (preempt % Pow2(PreemptBits(n, group)), sub % Pow2(SubBits(n, group)))
  {
    hide *;
    var p, s := PreemptBits(n, group), SubBits(n, group);
    var e := EncodePriority(n, group, preempt, sub);
    EncodeValue(n, group, preempt, sub);
    DecodeValue(n, group, e);
    DivModUnique(e, Pow2(s), preempt % Pow2(p), sub % Pow2(s));
    ModSmall(preempt % Pow2(p), Pow2(p));
  }

  lemma ModSmall(x: nat, n: nat)
    requires x < n
    ensures x % n == x
  {
    DivModUnique(x, n, 0, x);
  }

  /** Encoding undoes decoding, up to the truncation of the priority to the implemented bits. */
  lemma {:induction false} EncodeDecode(n: PrioBits, group: uint32, priority: uint32)
    ensures var d := DecodePriority(n, group, priority);
            EncodePriority(n, group, d.0, d.1) == priority % Pow2(n)
  {
    hide *;
    WidthsSum(n, group);
    var p, s := PreemptBits(n, group), SubBits(n, group);
    var d := DecodePriority(n, group, priority);
    DecodeValue(n, group, priority);
    EncodeValue(n, group, d.0, d.1);
    Pow2Add(p, s);
    SplitTruncated(priority, Pow2(p), Pow2(s));
  }

  /** The remainder of a number by a * b, from a high part below a and a low part below b. */
  lemma SplitTruncated(x: nat, a: nat, b: nat)
    requires a >= 1 && b >= 1
    ensures x / b % a % a * b + x % b % b == x % (a * b)
  {
    var q, h, l := x / b / a, x / b % a, x % b;
    DivModIdentity(x, b);
    DivModIdentity(x / b, a);
    ModSmall(h, a);
    ModSmall(l, b);
    MulGap(h, a, b);
    MulNonNegative(h, b);
    MulAddRight(q * a, h, b);
    MulAssociates(q, a, b);
    DivModUnique(x, a * b, q, h * b + l);
  }

  lemma MulMonotone(a: nat, b: nat, n: nat)
    requires a <= b
    ensures a * n <= b * n
  {
    if a < b {
      MulGap(a, b, n);
    }
  }

  /** The encoding orders exactly as the two fields, each cut to its width, do lexicographically. */
  lemma {:induction false} EncodeOrder(n: PrioBits, group: uint32, pa: uint32, sa: uint32, pb: uint32, sb: uint32)
    ensures var p, s := Pow2(PreemptBits(n, group)), Pow2(SubBits(n, group));
            EncodePriority(n, group, pa, sa) < EncodePriority(n, group, pb, sb)
            <==> pa % p < pb % p || (pa % p == pb % p && sa % s < sb % s)
  {
    var p, s := Pow2(PreemptBits(n, group)), Pow2(SubBits(n, group));
    EncodeValue(n, group, pa, sa);
    EncodeValue(n, group, pb, sb);
    hide EncodePriority, PreemptBits, SubBits, Pow2;
    if pa % p < pb % p {
      MulGap(pa % p, pb % p, s);
    } else if pb % p < pa % p {
      MulGap(pb % p, pa % p, s);
    }
  }

  /** The register byte of a priority, and the priority read back from it. */
  function PriorityByte(n: PrioBits, priority: uint32): byte {
    And(Shl(priority, 8 - n), 0xFF)
  }

  /** The register byte holds the priority's implemented bits at its top and zeros below. */
  lemma {:induction false} PriorityReadBack(n: PrioBits, priority: uint32)
    ensures Shr(PriorityByte(n, priority), 8 - n) == priority % Pow2(n)
    ensures PriorityByte(n, priority) == priority % Pow2(n) * Pow2(8 - n)
  {
    var v := PriorityByte(n, priority);
    var k := 8 - n;
    Pow2Values();
    Pow2Small(n);
    ByteShift(v, n);
    ByteLow(n, priority);
    ShrDivides(v, k);
    DivModIdentity(v, Pow2(k));
    hide PriorityByte, Shr, Shl, And;
    forall i | 0 <= i < n
      ensures Bit(Shr(v, k), i) == Bit(priority % Pow2(n), i)
    {
      PriorityBits(n, priority, i);
      BitShr(v, k, i);
      BitMod(priority, n, i);
    }
    SameBits(Shr(v, k), priority % Pow2(n), n);
  }

  lemma ShrDivides(x: nat, k: nat)
    ensures Shr(x, k) == x / Pow2(k)
  {
  }

  lemma ByteLow(n: PrioBits, priority: uint32)
    ensures PriorityByte(n, priority) % Pow2(8 - n) == 0
  {
    var v, k := PriorityByte(n, priority), 8 - n;
    Pow2Values();
    hide Bit, And, Shl, Pow2;
    forall i | 0 <= i < k
      ensures Bit(v % Pow2(k), i) == Bit(0, i)
    {
      BitMod(v, k, i);
      BitAnd(Shl(priority, k), 0xFF, i);
      BitShl(priority, k, i);
      BitZero(i);
    }
    SameBits(v % Pow2(k), 0, k);
  }

  lemma ByteShift(v: byte, n: PrioBits)
    ensures Shr(v, 8 - n) < Pow2(n)
  {
    Pow2Values();
    Pow2Add(n, 8 - n);
    DivModIdentity(v, Pow2(8 - n));
    if v / Pow2(8 - n) >= Pow2(n) {
      MulMonotone(Pow2(n), v / Pow2(8 - n), Pow2(8 - n));
    }
  }

  lemma PriorityBits(n: PrioBits, priority: uint32, i: nat)
    requires i < n
    ensures Bit(PriorityByte(n, priority), i + (8 - n)) == Bit(priority, i)
  {
    Pow2Values();
    BitAnd(Shl(priority, 8 - n), 0xFF, i + (8 - n));
    BitOnes(8, i + (8 - n));
    BitShl(priority, 8 - n, i + (8 - n));
  }

  // ----- runs over the enable and pending bits -----

  datatype IrqOp = Enable(irq: int240) | Disable(irq: int240) | SetPending(irq: int240) | ClearPending(irq: int240)

  /** What one operation does to the set of enabled, and to the set of pending, interrupts. */
  function EnabledStep(s: set<nat>, op: IrqOp): set<nat> {
    match op
    case Enable(n) => s + {n}
    case Disable(n) => s - {n}
    case _ => s
  }

  function PendingStep(s: set<nat>, op: IrqOp): set<nat> {
    match op
    case SetPending(n) => s + {n}
    case ClearPending(n) => s - {n}
    case _ => s
  }

  function EnabledAfter(s: set<nat>, ops: seq<IrqOp>): set<nat> {
    if ops == [] then s else EnabledStep(EnabledAfter(s, ops[..|ops| - 1]), ops[|ops| - 1])
  }

  function PendingAfter(s: set<nat>, ops: seq<IrqOp>): set<nat> {
    if ops == [] then s else PendingStep(PendingAfter(s, ops[..|ops| - 1]), ops[|ops| - 1])
  }

  /** Some `on` is followed by no `off`. */
  ghost predicate Latest(ops: seq<IrqOp>, on: IrqOp, off: IrqOp) {
    exists k | 0 <= k < |ops| :: ops[k] == on && off !in ops[k..]
  }

  /**
   An interrupt is enabled after a run exactly when some enable of it, or its being enabled at the
   start, is followed by no disable of it; whatever else the run does.
   */
  lemma {:induction false} LastEnableWins(s: set<nat>, ops: seq<IrqOp>, n: int240)
    ensures n in EnabledAfter(s, ops) <==>
            || (n in s && Disable(n) !in ops)
            || Latest(ops, Enable(n), Disable(n))
  {
    if ops != [] {
      var front, op := ops[..|ops| - 1], ops[|ops| - 1];
      LastEnableWins(s, front, n);
      LastStep(ops, Enable(n), Disable(n));
    }
  }

  /** The same for the pending bits. */
  lemma {:induction false} LastPendWins(s: set<nat>, ops: seq<IrqOp>, n: int240)
    ensures n in PendingAfter(s, ops) <==>
            || (n in s && ClearPending(n) !in ops)
            || Latest(ops, SetPending(n), ClearPending(n))
  {
    if ops != [] {
      var front, op := ops[..|ops| - 1], ops[|ops| - 1];
      LastPendWins(s, front, n);
      LastStep(ops, SetPending(n), ClearPending(n));
    }
  }

  /** One more operation at the end of a run. */
  lemma LastStep(ops: seq<IrqOp>, on: IrqOp, off: IrqOp)
    requires ops != [] && on != off
    ensures var front, op := ops[..|ops| - 1], ops[|ops| - 1];
            && (off in ops <==> off in front || op == off)
            && (Latest(ops, on, off) <==> op == on || (op != off && Latest(front, on, off)))
  {
    var front, op := ops[..|ops| - 1], ops[|ops| - 1];
    assert ops == front + [op];
    if op == on {
      assert ops[|front|..] == [op];
    }
    if k :| 0 <= k < |front| && front[k] == on && off !in front[k..] {
      assert ops[k..] == front[k..] + [op];
      assert op != off ==> off !in ops[k..];
    }
    if k :| 0 <= k < |ops| && ops[k] == on && off !in ops[k..] {
      assert op == ops[k..][|ops| - 1 - k];
      if k < |front| {
        assert ops[k..] == front[k..] + [op] && front[k] == on;
      }
    }
  }

  // ----- the priority grouping register -----

  /** AIRCR as it reads: key status 0xFA05 above the fields. A write without the key 0x5FA is ignored. */
  function WriteAircr(aircr: uint32, v: uint32): uint32 {
    if v / 0x1_0000 == 0x5FA then 0xFA05 * 0x1_0000 + v % 0x1_0000 else aircr
  }

  const AIRCR_VECTKEY: uint32 := 0xFFFF_0000
  const AIRCR_PRIGROUP: uint32 := 0x700

  /** The word __NVIC_SetPriorityGrouping writes. */
  function GroupingWord(aircr: uint32, group: uint32): uint32 {
    var keep := And(aircr, Not(Or(AIRCR_VECTKEY, AIRCR_PRIGROUP)));
    OrWord(keep, Shl(0x5FA, 16));
    OrWord(Or(keep, Shl(0x5FA, 16)), Shl(And(group, 7), 8));
    Or(Or(keep, Shl(0x5FA, 16)), Shl(And(group, 7), 8))
  }

  function GroupingOf(aircr: uint32): uint32 {
    Shr(And(aircr, AIRCR_PRIGROUP), 8)
  }

  lemma GroupingMaskBits(i: nat)
    ensures Bit(AIRCR_PRIGROUP, i) == (8 <= i < 11)
    ensures Bit(AIRCR_VECTKEY, i) == (16 <= i < 32)
  {
    Pow2Values();
    hide Bit;
    BitTimesPow2(7, 8, i);
    BitTimesPow2(0xFFFF, 16, i);
    if i >= 8 {
      BitOnes(3, i - 8);
    }
    if i >= 16 {
      BitOnes(16, i - 16);
    }
  }

  /** The bits that the C code keeps: those of neither field. */
  lemma KeptBits(aircr: uint32, i: nat)
    requires i < 32
    ensures Or(AIRCR_VECTKEY, AIRCR_PRIGROUP) < WORD
    ensures Bit(And(aircr, Not(Or(AIRCR_VECTKEY, AIRCR_PRIGROUP))), i) ==
            (Bit(aircr, i) && !(8 <= i < 11) && i < 16)
  {
    hide Bit, And, Or, Not, Pow2;
    OrWord(AIRCR_VECTKEY, AIRCR_PRIGROUP);
    var clear: uint32 := Or(AIRCR_VECTKEY, AIRCR_PRIGROUP);
    GroupingMaskBits(i);
    BitOr(AIRCR_VECTKEY, AIRCR_PRIGROUP, i);
    BitNotWord(clear, i);
    BitAnd(aircr, Not(clear), i);
  }

  /** The group's bits, shifted into place. */
  lemma GroupBits(group: uint32, i: nat)
    requires i < 32
    ensures Bit(Shl(And(group, 7), 8), i) == (8 <= i < 11 && Bit(group, i - 8))
  {
    Pow2Values();
    hide Bit, And;
    BitShl(And(group, 7), 8, i);
    if i >= 8 {
      BitAnd(group, 7, i - 8);
      BitOnes(3, i - 8);
    }
  }

  lemma GroupingWordBits(aircr: uint32, group: uint32, i: nat)
    requires i < 32
    ensures Bit(GroupingWord(aircr, group), i) ==
            if i >= 16 then Bit(0x5FA, i - 16) else if 8 <= i < 11 then Bit(group, i - 8) else Bit(aircr, i)
  {
    hide Bit, And, Or, Shl;
    KeptBits(aircr, i);
    var keep := And(aircr, Not(Or(AIRCR_VECTKEY, AIRCR_PRIGROUP)));
    BitShl(0x5FA, 16, i);
    GroupBits(group, i);
    OrWord(keep, Shl(0x5FA, 16));
    BitOr(keep, Shl(0x5FA, 16), i);
    BitOr(Or(keep, Shl(0x5FA, 16)), Shl(And(group, 7), 8), i);
  }

  /** The write is accepted, the group reads back truncated to three bits, and no other field changes. */
  lemma {:induction false} GroupingReadsBack(aircr: uint32, group: uint32)
    ensures var a := WriteAircr(aircr, GroupingWord(aircr, group));
            && GroupingOf(a) == group % 8 && a / 0x100 % 8 == group % 8
            && a / 0x1_0000 == 0xFA05
            && forall i: nat | i < 16 && !(8 <= i < 11) :: Bit(a, i) == Bit(aircr, i)
  {
    hide GroupingWord, And, Bit, GroupingOf;
    var w := GroupingWord(aircr, group);
    var a := WriteAircr(aircr, w);
    GroupingKey(aircr, group);
    DivModUnique(a, 0x1_0000, 0xFA05, w % 0x1_0000);
    forall i: nat | i < 16
      ensures Bit(a, i) == Bit(w, i)
      ensures !(8 <= i < 11) ==> Bit(a, i) == Bit(aircr, i)
    {
      LowHalfBit(a, i);
      LowHalfBit(w, i);
      GroupingWordBits(aircr, group, i);
    }
    GroupFieldBits(aircr, group, a);
    GroupingField(a);
  }

  lemma LowHalfBit(x: nat, i: nat)
    requires i < 16
    ensures Bit(x, i) == Bit(x % 0x1_0000, i)
  {
    Pow2Values();
    BitMod(x, 16, i);
  }

  /** A word that carries the group's bits in its field has the group in it. */
  lemma GroupFieldBits(aircr: uint32, group: uint32, a: uint32)
    requires forall i: nat | i < 16 :: Bit(a, i) == Bit(GroupingWord(aircr, group), i)
    ensures GroupingOf(a) == group % 8
  {
    hide GroupingWord, And, Bit;
    Pow2Values();
    forall i | 0 <= i < 32
      ensures Bit(GroupingOf(a), i) == Bit(group % 8, i)
    {
      BitShr(And(a, AIRCR_PRIGROUP), 8, i);
      BitAnd(a, AIRCR_PRIGROUP, i + 8);
      GroupingMaskBits(i + 8);
      BitMod(group, 3, i);
      if i < 3 {
        GroupingWordBits(aircr, group, i + 8);
      }
    }
    SameBits(GroupingOf(a), group % 8, 32);
  }

  /** The getter reads bits 10:8. */
  lemma GroupingField(aircr: uint32)
    ensures GroupingOf(aircr) == aircr / 0x100 % 8
  {
    Pow2Values();
    hide And;
    AndField(aircr, 8, 3);
    DivModUnique(aircr / 0x100 % 8 * 0x100, 0x100, aircr / 0x100 % 8, 0);
  }

  lemma GroupingKey(aircr: uint32, group: uint32)
    ensures GroupingWord(aircr, group) / 0x1_0000 == 0x5FA
  {
    var w := GroupingWord(aircr, group);
    Pow2Values();
    forall i | 0 <= i < 16
      ensures Bit(Shr(w, 16), i) == Bit(0x5FA, i)
    {
      BitShr(w, 16, i);
      GroupingWordBits(aircr, group, i + 16);
    }
    SameBits(Shr(w, 16), 0x5FA, 16);
  }

  // ----- the registers -----

  class Controller {
    const prioBits: PrioBits
    var enable: Bank
    var pending: Bank
    var active: Bank
    /** NVIC->IP and SCB->SHPR. */
    var ip: seq<byte>
    var shpr: seq<byte>
    var aircr: uint32

    ghost predicate Valid()
      reads this
    {
      |ip| == 240 && |shpr| == 12
    }

    constructor (n: PrioBits, e: Bank, p: Bank, a: Bank, aircr0: uint32)
      ensures Valid() && prioBits == n && enable == e && pending == p && active == a && aircr == aircr0
    {
      prioBits, enable, pending, active, aircr := n, e, p, a, aircr0;
      ip, shpr := seq(240, _ => 0), seq(12, _ => 0);
    }

    ghost function Enabled(): set<nat>
      reads this
    {
      Members(enable)
    }

    ghost function Pending(): set<nat>
      reads this
    {
      Members(pending)
    }

    method EnableIRQ(irq: int32)
      requires irq < 240
      modifies this`enable
      ensures Enabled() == if irq >= 0 then old(Enabled()) + {irq} else old(Enabled())
    {
      if irq >= 0 {
        SettingOne(enable, irq);
        enable := WriteOneSets(enable, IrqWord(irq), IrqMask(irq));
      }
    }

    method DisableIRQ(irq: int32)
      requires irq < 240
      modifies this`enable
      ensures Enabled() == if irq >= 0 then old(Enabled()) - {irq} else old(Enabled())
    {
      if irq >= 0 {
        ClearingOne(enable, irq);
        enable := WriteOneClears(enable, IrqWord(irq), IrqMask(irq));
      }
    }

    method SetPendingIRQ(irq: int32)
      requires irq < 240
      modifies this`pending
      ensures Pending() == if irq >= 0 then old(Pending()) + {irq} else old(Pending())
    {
      if irq >= 0 {
        SettingOne(pending, irq);
        pending := WriteOneSets(pending, IrqWord(irq), IrqMask(irq));
      }
    }

    method ClearPendingIRQ(irq: int32)
      requires irq < 240
      modifies this`pending
      ensures Pending() == if irq >= 0 then old(Pending()) - {irq} else old(Pending())
    {
      if irq >= 0 {
        ClearingOne(pending, irq);
        pending := WriteOneClears(pending, IrqWord(irq), IrqMask(irq));
      }
    }

    /** Reads 1 for an enabled interrupt, 0 for any other and for every system exception. */
    method GetEnableIRQ(irq: int32) returns (r: uint32)
      requires irq < 240
      ensures r == if irq in Enabled() then 1 else 0
    {
      r := TestBit(enable, irq);
    }

    method GetPendingIRQ(irq: int32) returns (r: uint32)
      requires irq < 240
      ensures r == if irq in Pending() then 1 else 0
    {
      r := TestBit(pending, irq);
    }

    method GetActive(irq: int32) returns (r: uint32)
      requires irq < 240
      ensures r == if irq in Members(active) then 1 else 0
    {
      r := TestBit(active, irq);
    }

    /** The test the three getters share. */
    static method TestBit(b: Bank, irq: int32) returns (r: uint32)
      requires irq < 240
      ensures r == if irq in Members(b) then 1 else 0
    {
      if irq >= 0 {
        MaskTest(b[IrqWord(irq)], irq);
        r := if And(b[IrqWord(irq)], IrqMask(irq)) != 0 then 1 else 0;
      } else {
        r := 0;
      }
    }

    /** Any run of the four operations leaves the two banks as the abstract sets say. */
    method Execute(ops: seq<IrqOp>)
      modifies this`enable, this`pending
      ensures Enabled() == EnabledAfter(old(Enabled()), ops)
      ensures Pending() == PendingAfter(old(Pending()), ops)
    {
      for i := 0 to |ops|
        invariant Enabled() == EnabledAfter(old(Enabled()), ops[..i])
        invariant Pending() == PendingAfter(old(Pending()), ops[..i])
      {
        assert ops[..i + 1][..i] == ops[..i];
        match ops[i]
        case Enable(n) => EnableIRQ(n);
        case Disable(n) => DisableIRQ(n);
        case SetPending(n) => SetPendingIRQ(n);
        case ClearPending(n) => ClearPendingIRQ(n);
      }
      assert ops[..|ops|] == ops;
    }

    /** The priority register of an interrupt or exception. */
    function PriorityRegister(irq: Exception): byte
      requires Valid()
      reads this
    {
      if irq >= 0 then ip[irq] else shpr[irq + 12]
    }

    /** `(((uint32_t)IRQn) & 0xF) - 4` for an exception number. */
    static lemma ShprIndex(irq: int)
      requires -12 <= irq < 0
      ensures And(irq + WORD, 0xF) - 4 == irq + 12
    {
      Pow2Values();
      AndOnes(irq + WORD, 4);
      DivModUnique(irq + WORD, 16, WORD / 16 - 1, irq + 16);
    }

    /**
     Stores the priority's implemented bits at the top of one register, IP[irq] for an interrupt and
     SHPR[irq + 12] for a system exception, and leaves every other register alone.
     */
    method SetPriority(irq: Exception, priority: uint32)
      requires Valid()
      modifies this`ip, this`shpr
      ensures Valid()
      ensures irq >= 0 ==> ip[irq] == priority % Pow2(prioBits) * Pow2(8 - prioBits) && shpr == old(shpr)
      ensures irq < 0 ==> shpr[irq + 12] == priority % Pow2(prioBits) * Pow2(8 - prioBits) && ip == old(ip)
      ensures forall k | 0 <= k < 240 && k != irq :: ip[k] == old(ip)[k]
      ensures forall k | 0 <= k < 12 && k != irq + 12 :: shpr[k] == old(shpr)[k]
      ensures Shr(PriorityRegister(irq), 8 - prioBits) == priority % Pow2(prioBits)
      ensures forall e: Exception | e != irq :: PriorityRegister(e) == old(PriorityRegister(e))
    {
      PriorityReadBack(prioBits, priority);
      if irq >= 0 {
        ip := ip[irq := PriorityByte(prioBits, priority)];
      } else {
        ShprIndex(irq);
        shpr := shpr[And(irq + WORD, 0xF) - 4 := PriorityByte(prioBits, priority)];
      }
    }

    method GetPriority(irq: Exception) returns (r: uint32)
      requires Valid()
      ensures r == Shr(PriorityRegister(irq), 8 - prioBits)
      ensures r == (if irq >= 0 then ip[irq] else shpr[irq + 12]) / Pow2(8 - prioBits)
    {
      ShrDivides(PriorityRegister(irq), 8 - prioBits);
      if irq >= 0 {
        r := Shr(ip[irq], 8 - prioBits);
      } else {
        ShprIndex(irq);
        r := Shr(shpr[And(irq + WORD, 0xF) - 4], 8 - prioBits);
      }
    }

    /** An encoded priority survives the register: what is read back decodes to the same two fields. */
    method PriorityRoundTrip(irq: Exception, group: uint32, preempt: uint32, sub: uint32) returns (d: (uint32, uint32))
      requires Valid()
      modifies this`ip, this`shpr
      ensures Valid()
      ensures d == (preempt % Pow2(PreemptBits(prioBits, group)), sub % Pow2(SubBits(prioBits, group)))
      ensures forall e: Exception | e != irq :: PriorityRegister(e) == old(PriorityRegister(e))
    {
      var p := EncodePriority(prioBits, group, preempt, sub);
      EncodeValue(prioBits, group, preempt, sub);
      ModSmall(p, Pow2(prioBits));
      DecodeEncode(prioBits, group, preempt, sub);
      SetPriority(irq, p);
      var q := GetPriority(irq);
      d := DecodePriority(prioBits, group, q);
    }

    method SetPriorityGrouping(group: uint32)
      modifies this`aircr
      ensures GroupingOf(aircr) == aircr / 0x100 % 8 == group % 8
      ensures forall i: nat | i < 16 && !(8 <= i < 11) :: Bit(aircr, i) == Bit(old(aircr), i)
    {
      GroupingReadsBack(aircr, group);
      hide And, GroupingOf, GroupingWord, WriteAircr, Bit;
      aircr := WriteAircr(aircr, GroupingWord(aircr, group));
    }
  }
}
