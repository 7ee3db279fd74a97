/**
 The ADC conversion sequences: which channel is converted at which rank, packed five bits a rank
 into SQR3, SQR2, SQR1 and, for injected conversions, JSQR.
 */
module AdcSequence {
  import opened Words

  /** `(uint16_t)` of a channel constant; the temperature sensor's flag bit falls away. */
  function Channel16(channel: uint32): (c: uint32)
    ensures c < 0x1_0000
    ensures channel <= 18 ==> c == channel
  {
    channel % 0x1_0000
  }

  /** ADC_SQR3_RK, ADC_SQR2_RK and ADC_SQR1_RK. */
  function Sqr3Rk(channel: uint32, rank: uint32): uint32
    requires 1 <= rank
  {
    Shl(Channel16(channel), 5 * (rank - 1))
  }

  function Sqr2Rk(channel: uint32, rank: uint32): uint32
    requires 7 <= rank
  {
    Shl(Channel16(channel), 5 * (rank - 7))
  }

  function Sqr1Rk(channel: uint32, rank: uint32): uint32
    requires 13 <= rank
  {
    Shl(Channel16(channel), 5 * (rank - 13))
  }

  /** ADC_SQR1: the length field. */
  function Sqr1(length: uint32): uint32
    requires 1 <= length
  {
    Shl(length - 1, 20)
  }

  /** `(uint8_t)((rank + 3) - length)`, the slot in JSQR. */
  function Slot(rank: uint32, length: uint32): byte
    requires rank <= 4 && length <= 4
  {
    (rank + 3 - length) % 0x100
  }

  /** ADC_JSQR. */
  function Jsqr(channel: uint32, rank: uint32, length: uint32): uint32
    requires rank <= 4 && length <= 4
  {
    Shl(Channel16(channel), 5 * Slot(rank, length))
  }

  // ----- fields -----

  /** The w-bit field at position p. */
  function Field(reg: uint32, p: nat, w: nat): nat {
    Shr(reg, p) % Pow2(w)
  }

  /** `reg &= ~(ones << p); reg |= v << p;` with w ones. */
  function Replace(reg: uint32, p: nat, w: nat, v: uint32): uint32
    requires w <= 8
  {
    Pow2Values();
    Pow2Monotone(w, 8);
    OrWord(And(reg, Not(Shl(Pow2(w) - 1, p))), Shl(v, p));
    Or(And(reg, Not(Shl(Pow2(w) - 1, p))), Shl(v, p))
  }

  lemma ReplaceBit(reg: uint32, p: nat, w: nat, v: uint32, i: nat)
    requires w <= 8 && v < Pow2(w) && i < 32
    ensures Bit(Replace(reg, p, w, v), i) == if p <= i < p + w then Bit(v, i - p) else Bit(reg, i)
  {
    Pow2Values();
    Pow2Monotone(w, 8);
    hide Bit, And, Or, Not, Shl, Pow2;
    var ones: uint32 := Pow2(w) - 1;
    BitOr(And(reg, Not(Shl(ones, p))), Shl(v, p), i);
    BitAnd(reg, Not(Shl(ones, p)), i);
    BitNotWord(Shl(ones, p), i);
    BitShl(ones, p, i);
    BitShl(v, p, i);
    if i >= p {
      BitOnes(w, i - p);
      if i - p >= w {
        Pow2Monotone(w, i - p);
        BitHigh(v, w, i - p);
      }
    }
  }

  lemma FieldBit(reg: uint32, p: nat, w: nat, i: nat)
    ensures Bit(Field(reg, p, w), i) == (i < w && Bit(reg, i + p))
  {
    BitMod(Shr(reg, p), w, i);
    BitShr(reg, p, i);
  }

  /** The replaced field reads back, and every field apart from it is untouched. */
  lemma ReplaceReadsBack(reg: uint32, p: nat, w: nat, v: uint32)
    requires w <= 8 && v < Pow2(w) && p + w <= 32
    ensures Field(Replace(reg, p, w, v), p, w) == v
  {
    var r := Replace(reg, p, w, v);
    hide Bit, Replace, Shr;
    forall i | 0 <= i < w
      ensures Bit(Field(r, p, w), i) == Bit(v, i)
    {
      FieldBit(r, p, w, i);
      ReplaceBit(reg, p, w, v, i + p);
    }
    SameBits(Field(r, p, w), v, w);
  }

  lemma ReplaceKeeps(reg: uint32, p: nat, w: nat, v: uint32, q: nat, u: nat)
    requires w <= 8 && v < Pow2(w) && q + u <= 32 && (q + u <= p || p + w <= q)
    ensures Field(Replace(reg, p, w, v), q, u) == Field(reg, q, u)
  {
    var r := Replace(reg, p, w, v);
    hide Bit, Replace, Shr;
    forall i | 0 <= i < u
      ensures Bit(Field(r, q, u), i) == Bit(Field(reg, q, u), i)
    {
      FieldBit(r, q, u, i);
      FieldBit(reg, q, u, i);
      ReplaceBit(reg, p, w, v, i + q);
    }
    SameBits(Field(r, q, u), Field(reg, q, u), u);
  }

  // ----- what the registers mean -----

  datatype Registers = Registers(sqr1: uint32, sqr2: uint32, sqr3: uint32, jsqr: uint32) {

    /** The regular sequence: its length, and the channel converted at a rank. */
    function Length(): nat {
      Field(sqr1, 20, 4) + 1
    }

    function At(rank: nat): nat
      requires 1 <= rank <= 16
    {
      if rank < 7 then Field(sqr3, 5 * (rank - 1), 5)
      else if rank < 13 then Field(sqr2, 5 * (rank - 7), 5)
      else Field(sqr1, 5 * (rank - 13), 5)
    }

    /** The injected sequence: the hardware converts the last JL+1 of the four slots, in order. */
    function InjectedLength(): nat {
      Field(jsqr, 20, 2) + 1
    }

    function InjectedAt(rank: nat, length: nat): nat
      requires 1 <= rank <= length <= 4
    {
      Field(jsqr, 5 * (4 - length + (rank - 1)), 5)
    }

    /** HAL_ADC_ConfigChannel's update of the sequence registers. */
    function WithRank(channel: uint32, rank: uint32): Registers
      requires 1 <= rank <= 16
    {
      if rank < 7 then this.(sqr3 := Replace(sqr3, 5 * (rank - 1), 5, Channel16(channel)))
      else if rank < 13 then this.(sqr2 := Replace(sqr2, 5 * (rank - 7), 5, Channel16(channel)))
      else this.(sqr1 := Replace(sqr1, 5 * (rank - 13), 5, Channel16(channel)))
    }

    /** HAL_ADC_Init's update of the length. */
    function WithLength(length: uint32): Registers
      requires 1 <= length <= 16
    {
      Pow2Values();
      this.(sqr1 := Replace(sqr1, 20, 4, length - 1))
    }

    /** HAL_ADCEx_InjectedConfigChannel's update of JSQR: first the length, then the slot. */
    function WithInjected(channel: uint32, rank: uint32, length: uint32): Registers
      requires 1 <= rank <= 4 && 1 <= length <= 4
    {
      this.(jsqr := Replace(Replace(jsqr, 20, 2, length - 1), 5 * Slot(rank, length), 5, Channel16(channel)))
    }
  }

  /** The position of a regular rank in its register. */
  function Place(rank: nat): (p: nat)
    requires 1 <= rank <= 16
    ensures p <= 25 && (rank >= 13 ==> p <= 15)
  {
    5 * (if rank < 7 then rank - 1 else if rank < 13 then rank - 7 else rank - 13)
  }

  /** Replacing one rank's field leaves another rank of the same register alone. */
  lemma OtherRankKept(reg: uint32, c: uint32, rank: nat, k: nat)
    requires 1 <= rank <= 16 && 1 <= k <= 16 && k != rank && c <= 31
    requires rank < 7 <==> k < 7
    requires rank < 13 <==> k < 13
    ensures Field(Replace(reg, Place(rank), 5, c), Place(k), 5) == Field(reg, Place(k), 5)
  {
    Pow2Values();
    hide Replace, Field, Pow2;
    ReplaceKeeps(reg, Place(rank), 5, c, Place(k), 5);
  }

  /** Setting a rank sets that rank and nothing else. */
  lemma {:induction false} RankSet(r: Registers, channel: uint32, rank: uint32)
    requires 1 <= rank <= 16 && Channel16(channel) <= 31
    ensures var r' := r.WithRank(channel, rank);
            && r'.At(rank) == channel % 0x1_0000 && r'.Length() == r.Length() && r'.jsqr == r.jsqr
            && forall k | 1 <= k <= 16 && k != rank :: r'.At(k) == r.At(k)
  {
    var c := Channel16(channel);
    var r' := r.WithRank(channel, rank);
    Pow2Values();
    hide Replace, Field, Channel16, Pow2;
    var reg := if rank < 7 then r.sqr3 else if rank < 13 then r.sqr2 else r.sqr1;
    ReplaceReadsBack(reg, Place(rank), 5, c);
    if rank >= 13 {
      ReplaceKeeps(reg, Place(rank), 5, c, 20, 4);
    }
    forall k | 1 <= k <= 16 && k != rank
      ensures r'.At(k) == r.At(k)
    {
      if (rank < 7 <==> k < 7) && (rank < 13 <==> k < 13) {
        OtherRankKept(reg, c, rank, k);
      }
    }
  }

  lemma {:induction false} LengthSet(r: Registers, length: uint32)
    requires 1 <= length <= 16
    ensures var r' := r.WithLength(length);
            && r'.Length() == length && r'.jsqr == r.jsqr
            && forall k | 1 <= k <= 16 :: r'.At(k) == r.At(k)
  {
    var r' := r.WithLength(length);
    Pow2Values();
    hide Replace, Field, Pow2;
    ReplaceReadsBack(r.sqr1, 20, 4, length - 1);
    forall k | 1 <= k <= 16
      ensures r'.At(k) == r.At(k)
    {
      if k >= 13 {
        ReplaceKeeps(r.sqr1, 20, 4, length - 1, Place(k), 5);
      }
    }
  }

  /** An injected rank within the length goes to its slot; the length and the other ranks are kept. */
  lemma {:induction false} InjectedSet(r: Registers, channel: uint32, rank: uint32, length: uint32)
    requires 1 <= rank <= length <= 4 && Channel16(channel) <= 31
    ensures var r' := r.WithInjected(channel, rank, length);
            && r'.InjectedLength() == length && r'.InjectedAt(rank, length) == channel % 0x1_0000
            && forall k | 1 <= k <= length && k != rank :: r'.InjectedAt(k, length) == r.InjectedAt(k, length)
  {
    hide *;
    LowHalf(channel);
    OwnInjectedSet(r, channel, rank, length);
    forall k | 1 <= k <= length && k != rank
      ensures r.WithInjected(channel, rank, length).InjectedAt(k, length) == r.InjectedAt(k, length)
    {
      OtherInjectedKept(r, channel, rank, length, k);
    }
  }

  lemma LowHalf(channel: uint32)
    ensures Channel16(channel) == channel % 0x1_0000
  {
  }

  lemma OwnInjectedSet(r: Registers, channel: uint32, rank: uint32, length: uint32)
    requires 1 <= rank <= length <= 4 && Channel16(channel) <= 31
    ensures r.WithInjected(channel, rank, length).InjectedLength() == length
    ensures r.WithInjected(channel, rank, length).InjectedAt(rank, length) == Channel16(channel)
  {
    hide Replace, Field, Pow2, Channel16, Slot;
    SlotPlace(rank, length);
    Widths();
    var c, p := Channel16(channel), 5 * (4 - length + (rank - 1));
    var j := Replace(r.jsqr, 20, 2, length - 1);
    assert r.WithInjected(channel, rank, length).jsqr == Replace(j, p, 5, c);
    ReplaceReadsBack(r.jsqr, 20, 2, length - 1);
    ReplaceReadsBack(j, p, 5, c);
    ReplaceKeeps(j, p, 5, c, 20, 2);
  }

  lemma SlotPlace(rank: uint32, length: uint32)
    requires 1 <= rank <= 4 && 1 <= length <= 4
    ensures Slot(rank, length) == rank + 3 - length
  {
  }

  lemma Widths()
    ensures Pow2(2) == 4 && Pow2(5) == 32
  {
    Pow2Values();
  }

  /** No rank of the sequence but the one set changes, whatever accepted rank it is. */
  lemma {:induction false} OtherInjectedKept(r: Registers, channel: uint32, rank: uint32, length: uint32, k: nat)
    requires 1 <= rank <= 4 && 1 <= k <= length <= 4 && k != rank && Channel16(channel) <= 31
    ensures r.WithInjected(channel, rank, length).InjectedAt(k, length) == r.InjectedAt(k, length)
  {
    var p, q := 5 * Slot(rank, length), 5 * (4 - length + (k - 1));
    Pow2Values();
    hide Replace, Field, Pow2, Channel16;
    assert p == 5 * (rank + 3 - length);
    ReplaceKeeps(Replace(r.jsqr, 20, 2, length - 1), p, 5, Channel16(channel), q, 5);
    ReplaceKeeps(r.jsqr, 20, 2, length - 1, q, 5);
  }

  /** Everything the call does to the sequence. */
  lemma InjectedEffect(r: Registers, channel: uint32, rank: uint32, length: uint32)
    requires 1 <= rank <= 4 && 1 <= length <= 4 && Channel16(channel) <= 31
    ensures var r' := r.WithInjected(channel, rank, length);
            && (rank <= length ==>
                  && r'.InjectedLength() == length
                  && r'.InjectedAt(rank, length) == Channel16(channel) == channel % 0x1_0000)
            && forall k | 1 <= k <= length && k != rank :: r'.InjectedAt(k, length) == r.InjectedAt(k, length)
  {
    hide *;
    LowHalf(channel);
    if rank <= length {
      InjectedSet(r, channel, rank, length);
    }
    forall k | 1 <= k <= length && k != rank
      ensures r.WithInjected(channel, rank, length).InjectedAt(k, length) == r.InjectedAt(k, length)
    {
      OtherInjectedKept(r, channel, rank, length, k);
    }
  }

  /** The parameter checks of the injected call: a rank of 1..4 and a length of 1..4, not compared. */
  predicate Accepted(rank: uint32, length: uint32) {
    1 <= rank <= 4 && 1 <= length <= 4
  }

  /**
   A rank just past the length is accepted and lands in the length field, which then reads back as the
   channel's two low bits plus one; for every other accepted rank the length survives.
   */
  lemma {:induction false} InjectedLengthExact(r: Registers, channel: uint32, rank: uint32, length: uint32)
    requires Accepted(rank, length) && Channel16(channel) <= 31
    ensures var read := r.WithInjected(channel, rank, length).InjectedLength();
            && read == (if rank == length + 1 then channel % 0x1_0000 % 4 + 1 else length)
            && (read == length <==> rank != length + 1 || channel % 0x1_0000 % 4 == length - 1)
  {
    hide Replace, Field, Pow2;
    assert Channel16(channel) <= 31;
    if rank == length + 1 {
      LowBits(Replace(r.jsqr, 20, 2, length - 1), Channel16(channel));
    } else {
      LengthSurvives(r, channel, rank, length);
    }
  }

  lemma LengthSurvives(r: Registers, channel: uint32, rank: uint32, length: uint32)
    requires Accepted(rank, length) && rank != length + 1 && Channel16(channel) <= 31
    ensures r.WithInjected(channel, rank, length).InjectedLength() == length
  {
    Pow2Values();
    hide Replace, Field, Pow2, Channel16;
    ReplaceReadsBack(r.jsqr, 20, 2, length - 1);
    ReplaceKeeps(Replace(r.jsqr, 20, 2, length - 1), 5 * Slot(rank, length), 5, Channel16(channel), 20, 2);
  }

  /** A channel written over the length field shows its two low bits there. */
  lemma LowBits(reg: uint32, c: uint32)
    requires c <= 31
    ensures Field(Replace(reg, 20, 5, c), 20, 2) == c % 4
  {
    Pow2Values();
    hide Replace, Field, Bit, Pow2;
    var r := Replace(reg, 20, 5, c);
    forall i | 0 <= i < 2
      ensures Bit(Field(r, 20, 2), i) == Bit(c % 4, i)
    {
      FieldBit(r, 20, 2, i);
      ReplaceBit(reg, 20, 5, c, i + 20);
      BitMod(c, 2, i);
    }
    FieldSmall(r, 20, 2);
    SameBits(Field(r, 20, 2), c % 4, 2);
  }

  lemma FieldSmall(reg: uint32, p: nat, w: nat)
    ensures Field(reg, p, w) < Pow2(w)
  {
  }

  class Adc {
    var regs: Registers

    constructor (r: Registers)
      ensures regs == r
    {
      regs := r;
    }

    /** The channel constant's low half goes to the rank; for a plain channel number that is the number. */
    method ConfigChannel(channel: uint32, rank: uint32)
      requires 1 <= rank <= 16 && Channel16(channel) <= 31
      modifies this
      ensures channel <= 18 ==> regs.At(rank) == channel
      ensures regs.At(rank) == Channel16(channel) == channel % 0x1_0000
      ensures regs.Length() == old(regs).Length() && regs.jsqr == old(regs).jsqr
      ensures forall k | 1 <= k <= 16 && k != rank :: regs.At(k) == old(regs).At(k)
    {
      RankSet(regs, channel, rank);
      hide Shl;
      if rank < 7 {
        regs := regs.(sqr3 := And(regs.sqr3, Not(Sqr3Rk(0x1F, rank))));
        OrWord(regs.sqr3, Sqr3Rk(channel, rank));
        regs := regs.(sqr3 := Or(regs.sqr3, Sqr3Rk(channel, rank)));
      } else if rank < 13 {
        regs := regs.(sqr2 := And(regs.sqr2, Not(Sqr2Rk(0x1F, rank))));
        OrWord(regs.sqr2, Sqr2Rk(channel, rank));
        regs := regs.(sqr2 := Or(regs.sqr2, Sqr2Rk(channel, rank)));
      } else {
        regs := regs.(sqr1 := And(regs.sqr1, Not(Sqr1Rk(0x1F, rank))));
        OrWord(regs.sqr1, Sqr1Rk(channel, rank));
        regs := regs.(sqr1 := Or(regs.sqr1, Sqr1Rk(channel, rank)));
      }
      assert regs == old(regs).WithRank(channel, rank);
    }

    method SetLength(length: uint32)
      requires 1 <= length <= 16
      modifies this
      ensures regs.Length() == length && regs.jsqr == old(regs).jsqr
      ensures forall k | 1 <= k <= 16 :: regs.At(k) == old(regs).At(k)
    {
      LengthSet(regs, length);
      LengthMask();
      hide Shl;
      regs := regs.(sqr1 := And(regs.sqr1, Not(0x00F0_0000)));
      OrWord(regs.sqr1, Sqr1(length));
      regs := regs.(sqr1 := Or(regs.sqr1, Sqr1(length)));
      assert regs == old(regs).WithLength(length);
    }

    /**
     A rank within the length is set, and with it the length; no other rank of the sequence changes.  For
     what a rank past the length does to the length see InjectedLengthExact.
     */
    method InjectedConfigChannel(channel: uint32, rank: uint32, length: uint32)
      requires Accepted(rank, length) && Channel16(channel) <= 31
      modifies this
      ensures regs == old(regs).WithInjected(channel, rank, length)
      ensures rank <= length && channel <= 18 ==> regs.InjectedAt(rank, length) == channel
      ensures rank <= length ==>
                && regs.InjectedLength() == length
                && regs.InjectedAt(rank, length) == Channel16(channel) == channel % 0x1_0000
      ensures forall k | 1 <= k <= length && k != rank ::
                regs.InjectedAt(k, length) == old(regs).InjectedAt(k, length)
    {
      hide Field, Shl, And, Or, Not, Channel16, Registers.InjectedAt, Registers.InjectedLength, Pow2;
      InjectedEffect(regs, channel, rank, length);
      LengthMask();
      LowHalf(0x1F);
      regs := regs.(jsqr := And(regs.jsqr, Not(0x0030_0000)));
      OrWord(regs.jsqr, Sqr1(length));
      regs := regs.(jsqr := Or(regs.jsqr, Sqr1(length)));
      regs := regs.(jsqr := And(regs.jsqr, Not(Jsqr(0x1F, rank, length))));
      OrWord(regs.jsqr, Jsqr(channel, rank, length));
      regs := regs.(jsqr := Or(regs.jsqr, Jsqr(channel, rank, length)));
      assert regs == old(regs).WithInjected(channel, rank, length);
    }

    /** Programming a whole sequence, over whatever the registers held: it decodes to the same channels in order. */
    method ProgramSequence(channels: seq<uint32>)
      requires 1 <= |channels| <= 16 && forall c | c in channels :: Channel16(c) <= 31
      modifies this
      ensures regs.Length() == |channels|
      ensures forall k | 1 <= k <= |channels| :: regs.At(k) == Channel16(channels[k - 1])
      ensures forall k | 1 <= k <= |channels| && channels[k - 1] <= 18 :: regs.At(k) == channels[k - 1]
    {
      hide Channel16;
      SetLength(|channels|);
      for i := 0 to |channels|
        invariant regs.Length() == |channels|
        invariant forall k | 1 <= k <= i :: regs.At(k) == Channel16(channels[k - 1])
      {
        ConfigChannel(channels[i], i + 1);
      }
    }

    method ProgramInjected(channels: seq<uint32>)
      requires 1 <= |channels| <= 4 && forall c | c in channels :: Channel16(c) <= 31
      modifies this
      ensures regs.InjectedLength() == |channels|
      ensures forall k | 1 <= k <= |channels| :: regs.InjectedAt(k, |channels|) == Channel16(channels[k - 1])
      ensures forall k | 1 <= k <= |channels| && channels[k - 1] <= 18 ::
                regs.InjectedAt(k, |channels|) == channels[k - 1]
    {
      hide Channel16;
      for i := 0 to |channels|
        invariant i > 0 ==> regs.InjectedLength() == |channels|
        invariant forall k | 1 <= k <= i :: regs.InjectedAt(k, |channels|) == Channel16(channels[k - 1])
      {
        InjectedConfigChannel(channels[i], i + 1, |channels|);
      }
    }
  }

  /** The length masks of SQR1 and JSQR. */
  lemma LengthMask()
    ensures Shl(Pow2(4) - 1, 20) == 0x00F0_0000 && Shl(Pow2(2) - 1, 20) == 0x0030_0000
    ensures Pow2(5) - 1 == 0x1F
  {
    Pow2Values();
  }
}
