/**
 The DMA stream flags: which status register and which bit the HAL macros select for a stream, and
 runs of hardware raising and software clearing them.
 */
module DmaFlags {
  import opened Words

  /** DMA1 streams 0..7 and DMA2 streams 0..7. */
  type Stream = s: nat | s < 16

  datatype Kind = FE | DME | TE | HT | TC

  const DMA1_STREAM0: uint32 := 0x4002_6010
  const DMA2_STREAM0: uint32 := 0x4002_6410

  /** The address of a stream's registers: 0x18 bytes a stream, 0x400 a controller. */
  function Instance(s: Stream): uint32 {
    if s < 8 then DMA1_STREAM0 + 0x18 * s else DMA2_STREAM0 + 0x18 * (s - 8)
  }

  /** The conditional chain the five flag-index macros share, for their four constants. */
  function Select(instance: uint32, f0: uint32, f1: uint32, f2: uint32, f3: uint32): uint32 {
    if instance == Instance(0) then f0
    else if instance == Instance(8) then f0
    else if instance == Instance(4) then f0
    else if instance == Instance(12) then f0
    else if instance == Instance(1) then f1
    else if instance == Instance(9) then f1
    else if instance == Instance(5) then f1
    else if instance == Instance(13) then f1
    else if instance == Instance(2) then f2
    else if instance == Instance(10) then f2
    else if instance == Instance(6) then f2
    else if instance == Instance(14) then f2
    else f3
  }

  /** __HAL_DMA_GET_xx_FLAG_INDEX. */
  function FlagIndex(kind: Kind, instance: uint32): uint32 {
    match kind
    case FE => Select(instance, 0x0000_0001, 0x0000_0040, 0x0001_0000, 0x0040_0000)
    case DME => Select(instance, 0x0000_0004, 0x0000_0100, 0x0004_0000, 0x0100_0000)
    case TE => Select(instance, 0x0000_0008, 0x0000_0200, 0x0008_0000, 0x0200_0000)
    case HT => Select(instance, 0x0000_0010, 0x0000_0400, 0x0010_0000, 0x0400_0000)
    case TC => Select(instance, 0x0000_0020, 0x0000_0800, 0x0020_0000, 0x0800_0000)
  }

  /** The register the flag macros choose: 0 and 1 are DMA1's low and high, 2 and 3 are DMA2's. */
  function RegisterOf(instance: uint32): (r: nat)
    ensures r < 4
  {
    if instance > Instance(11) then 3
    else if instance > Instance(7) then 2
    else if instance > Instance(3) then 1
    else 0
  }

  /** Where the reference manual puts a stream's flag: its register and its bit. */
  function HomeRegister(s: Stream): (r: nat)
    ensures r < 4
  {
    s / 4
  }

  function HomeBit(s: Stream, kind: Kind): (b: nat)
    ensures b < 28
  {
    (match s % 4
     case 0 => 0
     case 1 => 6
     case 2 => 16
     case _ => 22) +
    (match kind
     case FE => 0
     case DME => 2
     case TE => 3
     case HT => 4
     case TC => 5)
  }

  lemma SingleBits()
    ensures Shl(1, 0) == 0x1 && Shl(1, 2) == 0x4 && Shl(1, 3) == 0x8 && Shl(1, 4) == 0x10 && Shl(1, 5) == 0x20
    ensures Shl(1, 6) == 0x40 && Shl(1, 8) == 0x100 && Shl(1, 9) == 0x200 && Shl(1, 10) == 0x400
    ensures Shl(1, 11) == 0x800 && Shl(1, 16) == 0x1_0000 && Shl(1, 18) == 0x4_0000 && Shl(1, 19) == 0x8_0000
    ensures Shl(1, 20) == 0x10_0000 && Shl(1, 21) == 0x20_0000 && Shl(1, 22) == 0x40_0000
    ensures Shl(1, 24) == 0x100_0000 && Shl(1, 25) == 0x200_0000 && Shl(1, 26) == 0x400_0000
    ensures Shl(1, 27) == 0x800_0000
  {
    Pow2Values();
    assert Pow2(11) == 0x800 && Pow2(18) == 0x4_0000 && Pow2(19) == 0x8_0000 && Pow2(21) == 0x20_0000;
    assert Pow2(22) == 0x40_0000 && Pow2(25) == 0x200_0000 && Pow2(26) == 0x400_0000 && Pow2(27) == 0x800_0000;
  }

  /** The address comparisons and the chain of conditionals find exactly the documented register and bit. */
  lemma {:induction false} MacrosFindHome(s: Stream, kind: Kind)
    ensures RegisterOf(Instance(s)) == HomeRegister(s)
    ensures FlagIndex(kind, Instance(s)) == Shl(1, HomeBit(s, kind))
  {
    SingleBits();
    hide Shl;
  }

  /** No two flags share a register bit. */
  lemma HomesDistinct(s: Stream, j: Kind, t: Stream, k: Kind)
    requires HomeRegister(s) == HomeRegister(t) && HomeBit(s, j) == HomeBit(t, k)
    ensures s == t && j == k
  {
  }

  /** No two (stream, kind) pairs select the same register and the same flag word. */
  lemma {:induction false} SelectionInjective(s: Stream, j: Kind, t: Stream, k: Kind)
    requires RegisterOf(Instance(s)) == RegisterOf(Instance(t))
    requires FlagIndex(j, Instance(s)) == FlagIndex(k, Instance(t))
    ensures s == t && j == k
  {
    hide FlagIndex, Shl, RegisterOf;
    MacrosFindHome(s, j);
    MacrosFindHome(t, k);
    BitMask(HomeBit(s, j), HomeBit(s, j));
    BitMask(HomeBit(t, k), HomeBit(s, j));
    HomesDistinct(s, j, t, k);
  }

  // ----- status registers -----

  /** DMA1->LISR, DMA1->HISR, DMA2->LISR, DMA2->HISR. */
  type Status = r: seq<uint32> | |r| == 4 witness [0, 0, 0, 0]

  predicate IsPending(r: Status, s: Stream, kind: Kind) {
    Bit(r[HomeRegister(s)], HomeBit(s, kind))
  }

  ghost function Pending(r: Status): set<(Stream, Kind)> {
    set s: Stream, k: Kind | IsPending(r, s, k) :: (s, k)
  }

  /** The hardware raises a flag; software writes ones to the clear register beside the status register. */
  function Raised(r: Status, s: Stream, kind: Kind): Status {
    var i := HomeRegister(s);
    OrWord(r[i], Shl(1, HomeBit(s, kind)));
    r[i := Or(r[i], Shl(1, HomeBit(s, kind)))]
  }

  function Cleared(r: Status, i: nat, flags: uint32): Status
    requires i < 4
  {
    r[i := And(r[i], Not(flags))]
  }

  lemma RaisedPending(r: Status, s: Stream, kind: Kind)
    ensures Pending(Raised(r, s, kind)) == Pending(r) + {(s, kind)}
  {
    hide Bit, Or, Shl;
    forall t: Stream, k: Kind
      ensures IsPending(Raised(r, s, kind), t, k) == (IsPending(r, t, k) || (t, k) == (s, kind))
    {
      BitOr(r[HomeRegister(s)], Shl(1, HomeBit(s, kind)), HomeBit(t, k));
      BitMask(HomeBit(s, kind), HomeBit(t, k));
      if HomeRegister(s) == HomeRegister(t) && HomeBit(s, kind) == HomeBit(t, k) {
        HomesDistinct(s, kind, t, k);
      }
    }
  }

  /** Any flag word clears exactly the flags of that register whose bits it contains. */
  lemma {:induction false} ClearedPending(r: Status, i: nat, flags: uint32, t: Stream, k: Kind)
    requires i < 4
    ensures IsPending(Cleared(r, i, flags), t, k) <==>
            IsPending(r, t, k) && !(HomeRegister(t) == i && Bit(flags, HomeBit(t, k)))
  {
    BitNotWord(flags, HomeBit(t, k));
    BitAnd(r[i], Not(flags), HomeBit(t, k));
  }

  /** Clearing by a stream's own flag index clears that flag of that stream and no other. */
  lemma {:induction false} ClearedOwn(r: Status, s: Stream, kind: Kind)
    ensures Pending(Cleared(r, RegisterOf(Instance(s)), FlagIndex(kind, Instance(s)))) == Pending(r) - {(s, kind)}
  {
    MacrosFindHome(s, kind);
    hide Bit, Shl, FlagIndex, RegisterOf;
    var i, flags := RegisterOf(Instance(s)), FlagIndex(kind, Instance(s));
    forall t: Stream, k: Kind
      ensures IsPending(Cleared(r, i, flags), t, k) == (IsPending(r, t, k) && (t, k) != (s, kind))
    {
      ClearedPending(r, i, flags, t, k);
      BitMask(HomeBit(s, kind), HomeBit(t, k));
      if HomeRegister(s) == HomeRegister(t) && HomeBit(s, kind) == HomeBit(t, k) {
        HomesDistinct(s, kind, t, k);
      }
    }
  }

  /** The hardware raises a flag; software clears any combination of flags through a handle on stream s. */
  datatype FlagOp = Raise(s: Stream, kind: Kind) | Clear(s: Stream, flags: uint32)

  /** The flag word, written through a handle on stream s, names this flag. */
  predicate Names(s: Stream, flags: uint32, t: Stream, k: Kind) {
    HomeRegister(t) == HomeRegister(s) && Bit(flags, HomeBit(t, k))
  }

  function PendingAfter(p: set<(Stream, Kind)>, ops: seq<FlagOp>): set<(Stream, Kind)> {
    if ops == [] then p
    else
      var before := PendingAfter(p, ops[..|ops| - 1]);
      match ops[|ops| - 1]
      case Raise(s, k) => before + {(s, k)}
      case Clear(s, flags) => set t: Stream, k: Kind | (t, k) in before && !Names(s, flags, t, k) :: (t, k)
  }

  /** Every bit of the word is some stream's flag. */
  ghost predicate OnlyFlags(flags: uint32) {
    forall i: nat | Bit(flags, i) :: IsFlagBit(i)
  }

  ghost predicate IsFlagBit(i: nat) {
    exists s: Stream, k: Kind :: HomeBit(s, k) == i
  }

  /** The four streams of a register have all the flag bits between them. */
  lemma FlagBitHome(s: Stream, i: nat) returns (t: Stream, k: Kind)
    requires IsFlagBit(i)
    ensures HomeRegister(t) == HomeRegister(s) && HomeBit(t, k) == i
  {
    var u: Stream, j: Kind :| HomeBit(u, j) == i;
    t, k := s / 4 * 4 + u % 4, j;
  }

  /** A nonzero word has a bit. */
  lemma {:induction false} SomeBit(x: nat) returns (i: nat)
    requires x > 0
    ensures Bit(x, i)
  {
    if x % 2 == 1 {
      i := 0;
    } else {
      i := SomeBit(x / 2);
      i := i + 1;
    }
  }

  /** Masking a status register leaves the pending ones of the flags named. */
  lemma {:induction false} FlagFound(r: Status, s: Stream, flags: uint32, t: Stream, k: Kind)
    requires HomeRegister(t) == HomeRegister(s)
    ensures Bit(And(r[HomeRegister(s)], flags), HomeBit(t, k)) <==> IsPending(r, t, k) && Names(s, flags, t, k)
  {
    BitAnd(r[HomeRegister(s)], flags, HomeBit(t, k));
  }

  /** If anything is left, some flag named is pending. */
  lemma {:induction false} SomeFlag(r: Status, s: Stream, flags: uint32) returns (t: Stream, k: Kind)
    requires OnlyFlags(flags) && And(r[HomeRegister(s)], flags) != 0
    ensures IsPending(r, t, k) && Names(s, flags, t, k)
  {
    hide Bit, And, HomeBit;
    var i := SomeBit(And(r[HomeRegister(s)], flags));
    BitAnd(r[HomeRegister(s)], flags, i);
    t, k := FlagBitHome(s, i);
  }

  class Controllers {
    var status: Status

    constructor (r: Status)
      ensures status == r
    {
      status := r;
    }

    method Raise(s: Stream, kind: Kind)
      modifies this
      ensures Pending(status) == Pending(old(status)) + {(s, kind)}
    {
      RaisedPending(status, s, kind);
      status := Raised(status, s, kind);
    }

    /** __HAL_DMA_CLEAR_FLAG for a handle on stream s. */
    method ClearFlag(s: Stream, flags: uint32)
      modifies this
      ensures status == Cleared(old(status), HomeRegister(s), flags)
      ensures forall t: Stream, k: Kind ::
                (t, k) in Pending(status) <==>
                (t, k) in Pending(old(status)) && !Names(s, flags, t, k)
      ensures forall k: Kind | flags == FlagIndex(k, Instance(s)) ::
                Pending(status) == Pending(old(status)) - {(s, k)}
    {
      MacrosFindHome(s, TC);
      var r := RegisterOf(Instance(s));
      forall t: Stream, k: Kind
        ensures IsPending(Cleared(status, r, flags), t, k) <==>
                IsPending(status, t, k) && !(HomeRegister(t) == r && Bit(flags, HomeBit(t, k)))
      {
        ClearedPending(status, r, flags, t, k);
      }
      forall k: Kind | flags == FlagIndex(k, Instance(s))
        ensures Pending(Cleared(status, r, flags)) == Pending(status) - {(s, k)}
      {
        ClearedOwn(status, s, k);
      }
      status := Cleared(status, r, flags);
    }

    /**
     __HAL_DMA_GET_FLAG for a handle on stream s and any flag word: the pending ones among the flags it
     names.  When the word consists of flags, the result is nonzero exactly when one of them is pending.
     */
    method GetFlag(s: Stream, flags: uint32) returns (flag: uint32)
      ensures forall t: Stream, k: Kind | HomeRegister(t) == HomeRegister(s) ::
                Bit(flag, HomeBit(t, k)) <==> (t, k) in Pending(status) && Names(s, flags, t, k)
      ensures OnlyFlags(flags) ==>
                (flag != 0 <==> exists t: Stream, k: Kind :: (t, k) in Pending(status) && Names(s, flags, t, k))
    {
      MacrosFindHome(s, TC);
      hide Bit, And, HomeBit, RegisterOf;
      flag := And(status[RegisterOf(Instance(s))], flags);
      forall t: Stream, k: Kind | HomeRegister(t) == HomeRegister(s)
        ensures Bit(flag, HomeBit(t, k)) <==> IsPending(status, t, k) && Names(s, flags, t, k)
        ensures !Bit(0, HomeBit(t, k))
      {
        FlagFound(status, s, flags, t, k);
        BitZero(HomeBit(t, k));
      }
      if flag != 0 && OnlyFlags(flags) {
        ghost var t, k := SomeFlag(status, s, flags);
      }
    }

    /** Over any run of raises and clears the registers hold exactly the pending flags. */
    method Execute(ops: seq<FlagOp>)
      modifies this
      ensures Pending(status) == PendingAfter(Pending(old(status)), ops)
    {
      for i := 0 to |ops|
        invariant Pending(status) == PendingAfter(Pending(old(status)), ops[..i])
      {
        assert ops[..i + 1][..i] == ops[..i];
        match ops[i]
        case Raise(s, k) => Raise(s, k);
        case Clear(s, flags) => ClearFlag(s, flags);
      }
      assert ops[..|ops|] == ops;
    }
  }
}
