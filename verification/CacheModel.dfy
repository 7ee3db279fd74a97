/**
 The Cortex-M7 L1 data cache as a machine: a (set, way) table of lines over a flat memory,
 driven by events.  The command registers DCISW, DCCSW, DCCISW, DCIMVAC, DCCMVAC and DCCIMVAC
 act on it as section B2.2 of the ARMv7-M Architecture Reference Manual describes; the data
 cache is on when bit 16 of CCR is set.  Every address is ordinary write-back memory.
 */
module CacheModel {
  import opened Words

  datatype Option<+T> = None | Some(value: T)

  /** Memory is 2^32 bytes in blocks of one cache line, 32 bytes. */
  const BLOCKS: nat := 0x800_0000

  type Block = b: seq<byte> | |b| == 32 ghost witness seq(32, _ => 0)

  type Memory = seq<Block>

  type Count = n: nat | n >= 1 witness 1

  datatype Line = Invalid | Valid(tag: nat, dirty: bool, data: Block)

  datatype Maintenance = Invalidate | Clean | CleanInvalidate

  /**
   What can happen to the machine.  `SetWay` and `ByAddress` are writes to the six cache
   command registers, `OrCCR` and `BicCCR` are `SCB->CCR |= bits` and `SCB->CCR &= ~bits`.
   `Fill` and `Evict` are the hardware's own line fills and evictions, at any time and in any
   order; the device events are a DMA master's accesses to memory.
   */
  datatype Event =
    | Load(addr: uint32)
    | Store(addr: uint32, value: byte)
    | OrCCR(bits: uint32)
    | BicCCR(bits: uint32)
    | SetWay(op: Maintenance, word: uint32)
    | ByAddress(op: Maintenance, addr: uint32)
    | Fill(block: nat, way: nat)
    | Evict(row: nat, way: nat)
    | DeviceRead(addr: uint32)
    | DeviceWrite(addr: uint32, value: byte)

  predicate Hardware(e: Event) {
    e.Fill? || e.Evict?
  }

  /** `sets` and `ways` are the geometry, which never changes. */
  datatype Machine = Machine(sets: Count, ways: Count, ccr: uint32, lines: map<(nat, nat), Line>, mem: Memory)
  {
    /** Bit 16 of CCR. */
    predicate Enabled() {
      ccr / 0x1_0000 % 2 == 1
    }

    predicate SameShape(m: Machine) {
      sets == m.sets && ways == m.ways
    }

    /** The memory block that a line with this tag in this set holds. */
    function BlockOf(tag: nat, s: nat): nat {
      tag * sets + s
    }

    ghost predicate WellFormed() {
      && |mem| == BLOCKS
      && (forall s: nat, w: nat :: (s, w) in lines <==> s < sets && w < ways)
      && forall s: nat, w: nat | (s, w) in lines && lines[(s, w)].Valid? :: BlockOf(lines[(s, w)].tag, s) < BLOCKS
    }

    /** Way w of block b's set holds block b. */
    predicate Hits(b: nat, w: nat) {
      var k := (b % sets, w);
      k in lines && lines[k].Valid? && lines[k].tag == b / sets
    }

    function LineOf(b: nat, w: nat): (l: Line)
      requires Hits(b, w)
      ensures l.Valid?
    {
      lines[(b % sets, w)]
    }

    predicate Dirty(b: nat, w: nat) {
      Hits(b, w) && LineOf(b, w).dirty
    }

    /** The lowest of the first k ways that holds block b. */
    function FindWay(b: nat, k: nat): (r: Option<nat>)
      ensures r.Some? ==> r.value < k && Hits(b, r.value)
      ensures r.None? ==> forall w: nat | w < k :: !Hits(b, w)
    {
      if k == 0 then None
      else
        var r := FindWay(b, k - 1);
        if r.Some? then r else if Hits(b, k - 1) then Some(k - 1) else None
    }

    /** The coherent view of a block: cached data if some line holds it, else memory. */
    function View(b: nat): Block
      requires b < |mem|
    {
      match FindWay(b, ways)
      case Some(w) => LineOf(b, w).data
      case None => mem[b]
    }

    /** What a CPU load from an address returns: with the cache off it bypasses the lines. */
    function CpuByte(a: uint32): byte
      requires |mem| == BLOCKS
    {
      (if Enabled() then View(a / 32) else mem[a / 32])[a % 32]
    }

    function MemByte(a: uint32): byte
      requires |mem| == BLOCKS
    {
      mem[a / 32][a % 32]
    }

    // ----- what the hardware does -----

    /** Write a dirty line back to memory and mark it clean. */
    function CleanLine(s: nat, w: nat): (m': Machine)
      requires WellFormed()
      ensures m'.WellFormed() && m'.SameShape(this) && m'.ccr == ccr
    {
      if (s, w) in lines && lines[(s, w)].Valid? && lines[(s, w)].dirty then
        var l := lines[(s, w)];
        this.(lines := lines[(s, w) := l.(dirty := false)], mem := mem[BlockOf(l.tag, s) := l.data])
      else
        this
    }

    /** Forget a line without writing it back. */
    function DropLine(s: nat, w: nat): (m': Machine)
      requires WellFormed()
      ensures m'.WellFormed() && m'.SameShape(this) && m'.ccr == ccr
    {
      if (s, w) in lines then this.(lines := lines[(s, w) := Invalid]) else this
    }

    function Maintain(op: Maintenance, s: nat, w: nat): (m': Machine)
      requires WellFormed()
      ensures m'.WellFormed() && m'.SameShape(this) && m'.ccr == ccr
    {
      match op
      case Invalidate => DropLine(s, w)
      case Clean => CleanLine(s, w)
      case CleanInvalidate => CleanLine(s, w).DropLine(s, w)
    }

    function PutLine(s: nat, w: nat, l: Line): (m': Machine)
      requires WellFormed() && (s, w) in lines
      requires l.Valid? ==> BlockOf(l.tag, s) < BLOCKS
      ensures m'.WellFormed() && m'.SameShape(this) && m'.ccr == ccr
    {
      this.(lines := lines[(s, w) := l])
    }

    /** Bring block b into a way of its set, clean, after evicting what was there. */
    function FillLine(b: nat, w: nat): (m': Machine)
      requires WellFormed() && b < BLOCKS && w < ways
      ensures m'.WellFormed() && m'.SameShape(this) && m'.ccr == ccr
    {
      var s := b % sets;
      var m := CleanLine(s, w).DropLine(s, w);
      DivModIdentity(b, sets);
      m.PutLine(s, w, Valid(b / sets, false, m.mem[b]))
    }

    function WriteMemory(a: uint32, v: byte): (m': Machine)
      requires WellFormed()
      ensures m'.WellFormed() && m'.SameShape(this) && m'.ccr == ccr && m'.lines == lines
    {
      this.(mem := SetByte(mem, a, v))
    }

    /** A store writes a hit line and makes it dirty; on a miss it goes to memory.  Write-allocate is a `Fill` first. */
    function StoreByte(a: uint32, v: byte): (m': Machine)
      requires WellFormed()
      ensures m'.WellFormed() && m'.SameShape(this) && m'.ccr == ccr
    {
      var b := a / 32;
      match FindWay(b, ways)
      case Some(w) =>
        var l := LineOf(b, w);
        this.(lines := lines[(b % sets, w) := l.(dirty := true, data := l.data[a % 32 := v])])
      case None => WriteMemory(a, v)
    }

    /** One event.  A set/way word names its way in bits 31:30 and its set in bits 13:5. */
    function Apply(e: Event): (m': Machine)
      requires WellFormed()
      ensures m'.WellFormed() && m'.SameShape(this)
    {
      match e
      case Load(_) => this
      case Store(a, v) => if Enabled() then StoreByte(a, v) else WriteMemory(a, v)
      case OrCCR(bits) => OrWord(ccr, bits); this.(ccr := Or(ccr, bits))
      case BicCCR(bits) => this.(ccr := And(ccr, Not(bits)))
      case SetWay(op, word) => Maintain(op, word / 32 % 512, word / 0x4000_0000)
      case ByAddress(op, a) =>
        (match FindWay(a / 32, ways)
         case Some(w) => Maintain(op, a / 32 % sets, w)
         case None => this)
      case Fill(b, w) =>
        if Enabled() && b < BLOCKS && w < ways && FindWay(b, ways).None? then FillLine(b, w) else this
      case Evict(s, w) => if Enabled() then Maintain(CleanInvalidate, s, w) else this
      case DeviceRead(_) => this
      case DeviceWrite(a, v) => WriteMemory(a, v)
    }
  }

  function SetByte(mem: Memory, a: uint32, v: byte): (mem': Memory)
    requires |mem| == BLOCKS
    ensures |mem'| == BLOCKS
  {
    mem[a / 32 := mem[a / 32][a % 32 := v]]
  }

  function Run(m: Machine, es: seq<Event>): (m': Machine)
    requires m.WellFormed()
    ensures m'.WellFormed() && m'.SameShape(m)
    decreases |es|
  {
    if es == [] then m else Run(m.Apply(es[0]), es[1..])
  }

  /** The program's share of an interleaving: everything but the hardware's fills and evictions. */
  function Program(es: seq<Event>): seq<Event> {
    if es == [] then []
    else (if Hardware(es[0]) then [] else [es[0]]) + Program(es[1..])
  }

  /** The flat memory the program believes in: every store and every device write lands, nothing else matters. */
  function FlatApply(flat: Memory, e: Event): (flat': Memory)
    requires |flat| == BLOCKS
    ensures |flat'| == BLOCKS
  {
    match e
    case Store(a, v) => SetByte(flat, a, v)
    case DeviceWrite(a, v) => SetByte(flat, a, v)
    case _ => flat
  }

  function FlatRun(flat: Memory, es: seq<Event>): (flat': Memory)
    requires |flat| == BLOCKS
    ensures |flat'| == BLOCKS
    decreases |es|
  {
    if es == [] then flat else FlatRun(FlatApply(flat, es[0]), es[1..])
  }

  // ----- runs compose -----

  lemma TakeDrop<T>(s: seq<T>, i: nat)
    requires i <= |s|
    ensures s[..i] + s[i..] == s
    ensures i < |s| ==> s[i..][0] == s[i] && s[i..][1..] == s[i + 1..]
  {
  }

  lemma {:induction false} RunConcat(m: Machine, es: seq<Event>, fs: seq<Event>)
    requires m.WellFormed()
    ensures Run(m, es + fs) == Run(Run(m, es), fs)
    decreases |es|
  {
    hide Machine.Apply;
    if es == [] {
      assert es + fs == fs;
    } else {
      assert (es + fs)[1..] == es[1..] + fs;
      RunConcat(m.Apply(es[0]), es[1..], fs);
    }
  }

  lemma {:induction false} FlatRunConcat(flat: Memory, es: seq<Event>, fs: seq<Event>)
    requires |flat| == BLOCKS
    ensures FlatRun(flat, es + fs) == FlatRun(FlatRun(flat, es), fs)
    decreases |es|
  {
    if es == [] {
      assert es + fs == fs;
    } else {
      assert (es + fs)[1..] == es[1..] + fs;
      FlatRunConcat(FlatApply(flat, es[0]), es[1..], fs);
    }
  }

  /** An interleaving of two program pieces splits into an interleaving of each. */
  lemma {:induction false} SplitProgram(es: seq<Event>, p: seq<Event>, q: seq<Event>) returns (k: nat)
    requires Program(es) == p + q
    ensures k <= |es| && Program(es[..k]) == p && Program(es[k..]) == q
  {
    if p == [] {
      k := 0;
      assert p + q == q && es[0..] == es;
    } else if Hardware(es[0]) {
      var j := SplitProgram(es[1..], p, q);
      k := j + 1;
      assert es[..k][1..] == es[1..][..j] && es[k..] == es[1..][j..];
    } else {
      assert (p + q)[1..] == p[1..] + q;
      var j := SplitProgram(es[1..], p[1..], q);
      k := j + 1;
      assert es[..k][1..] == es[1..][..j] && es[k..] == es[1..][j..];
    }
  }

  /** Every event of an interleaving is the hardware's or the program's. */
  lemma {:induction false} ProgramMembers(es: seq<Event>, e: Event)
    requires e in es
    ensures Hardware(e) || e in Program(es)
  {
    if e != es[0] {
      ProgramMembers(es[1..], e);
    }
  }

  /** Each program event sits somewhere in the interleaving. */
  lemma {:induction false} ProgramIndex(es: seq<Event>, e: Event) returns (i: nat)
    requires e in Program(es)
    ensures i < |es| && es[i] == e
  {
    if es[0] == e {
      i := 0;
    } else {
      i := ProgramIndex(es[1..], e);
      i := i + 1;
    }
  }
}
