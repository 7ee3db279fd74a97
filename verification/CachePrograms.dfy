/**
 Programs: CPU accesses, device accesses and calls of the cache routines, each as the register
 writes it makes, and what a complete sweep of the cache achieves.
 */
module CachePrograms {
  import opened Words
  import opened CacheModel
  import Coherence = CacheCoherence
  import Commands = CacheCommands
  import opened CacheRuns

  /** SCB_CCR_DC_Msk. */
  const CCR_DC: uint32 := 0x1_0000

  /** The highest set and way numbers. */
  datatype Geometry = Geometry(topSet: uint32, topWay: uint32)

  /** The CCSIDR register: NumSets in bits 27:13 and Associativity in bits 12:3, each one less than the count. */
  function GeometryOf(ccsidr: uint32): Geometry {
    Geometry(ccsidr / 0x2000 % 0x8000, ccsidr / 8 % 0x400)
  }

  predicate Describes(g: Geometry, m: Machine) {
    m.sets == g.topSet + 1 && m.ways == g.topWay + 1
  }

  /** The geometry fits the set and way fields of a set/way word: at most 512 sets and 4 ways. */
  predicate Fits(g: Geometry) {
    g.topSet <= 511 && g.topWay <= 3
  }

  function SetWayEvents(op: Maintenance, words: seq<uint32>): (es: seq<Event>)
    ensures |es| == |words| && forall i | 0 <= i < |es| :: es[i] == SetWay(op, words[i])
  {
    seq(|words|, i requires 0 <= i < |words| => SetWay(op, words[i]))
  }

  function AddrEvents(op: Maintenance, words: seq<uint32>): (es: seq<Event>)
    ensures |es| == |words| && forall i | 0 <= i < |es| :: es[i] == ByAddress(op, words[i])
  {
    seq(|words|, i requires 0 <= i < |words| => ByAddress(op, words[i]))
  }

  /** The commands of one complete set/way loop nest. */
  function Sweep(op: Maintenance, g: Geometry): seq<Event> {
    SetWayEvents(op, Commands.SetWayWords(g.topSet, g.topWay))
  }

  datatype Op =
    | CpuLoad(addr: uint32)
    | CpuStore(addr: uint32, value: byte)
    | DmaRead(addr: uint32)
    | DmaWrite(addr: uint32, value: byte)
    | EnableDCache
    | DisableDCache
    | InvalidateDCache
    | CleanDCache
    | CleanInvalidateDCache
    | InvalidateDCacheByAddr(addr: uint32, dsize: int32)
    | CleanDCacheByAddr(addr: uint32, dsize: int32)
    | CleanInvalidateDCacheByAddr(addr: uint32, dsize: int32)

  /** The events an operation causes, in program order. */
  function Trace(op: Op, g: Geometry): seq<Event> {
    match op
    case CpuLoad(a) => [Load(a)]
    case CpuStore(a, v) => [Store(a, v)]
    case DmaRead(a) => [DeviceRead(a)]
    case DmaWrite(a, v) => [DeviceWrite(a, v)]
    case EnableDCache => Sweep(Invalidate, g) + [OrCCR(CCR_DC)]
    case DisableDCache => [BicCCR(CCR_DC)] + Sweep(CleanInvalidate, g)
    case InvalidateDCache => Sweep(Invalidate, g)
    case CleanDCache => Sweep(Clean, g)
    case CleanInvalidateDCache => Sweep(CleanInvalidate, g)
    case InvalidateDCacheByAddr(a, n) => AddrEvents(Invalidate, Commands.AddrWords(a, n))
    case CleanDCacheByAddr(a, n) => AddrEvents(Clean, Commands.AddrWords(a, n))
    case CleanInvalidateDCacheByAddr(a, n) => AddrEvents(CleanInvalidate, Commands.AddrWords(a, n))
  }

  function ProgramTrace(ops: seq<Op>, g: Geometry): seq<Event> {
    if ops == [] then [] else Trace(ops[0], g) + ProgramTrace(ops[1..], g)
  }

  lemma {:induction false} NoHardwareProgram(es: seq<Event>)
    requires forall i | 0 <= i < |es| :: !Hardware(es[i])
    ensures Program(es) == es
  {
    if es != [] {
      NoHardwareProgram(es[1..]);
    }
  }

  // ----- the enable bit -----

  lemma {:induction false} EnableBit(ccr: uint32, i: nat)
    ensures Bit(Or(ccr, CCR_DC), i) == (i == 16 || Bit(ccr, i))
    ensures Bit(And(ccr, Not(CCR_DC)), i) == (i != 16 && Bit(ccr, i))
    ensures i == 16 ==> Or(ccr, CCR_DC) / 0x1_0000 % 2 == 1 && And(ccr, Not(CCR_DC)) / 0x1_0000 % 2 == 0
  {
    Pow2Values();
    assert CCR_DC == Shl(1, 16);
    BitMask(16, i);
    BitOr(ccr, CCR_DC, i);
    BitNot(CCR_DC, 32, i);
    BitAnd(ccr, Not(CCR_DC), i);
    BitShr(Or(ccr, CCR_DC), 16, 0);
    BitShr(And(ccr, Not(CCR_DC)), 16, 0);
    if i >= 32 {
      BitAboveWord(ccr, i);
    }
  }

  // ----- interleavings of one command list -----

  /** In an interleaving of commands of one kind, everything is hardware or such a command. */
  lemma SweepMembers(es: seq<Event>, op: Maintenance, cmds: seq<Event>)
    requires Program(es) == cmds
    requires forall i | 0 <= i < |cmds| :: (cmds[i].SetWay? || cmds[i].ByAddress?) && cmds[i].op == op
    ensures AllPassive(es)
    ensures op == Invalidate ==> OnlyInvalidates(es)
    ensures op != Invalidate ==> AllQuiet(es)
  {
    forall i | 0 <= i < |es|
      ensures Hardware(es[i]) || ((es[i].SetWay? || es[i].ByAddress?) && es[i].op == op)
    {
      ProgramMembers(es, es[i]);
    }
  }

  /** Every line of the cache gets its command somewhere in the interleaving. */
  lemma SweepReaches(m: Machine, es: seq<Event>, op: Maintenance, g: Geometry, k: (nat, nat)) returns (i: nat)
    requires m.WellFormed() && Describes(g, m) && Fits(g)
    requires Program(es) == Sweep(op, g) && k in m.lines
    ensures i < |es| && es[i].SetWay? && es[i].op == op
    ensures es[i].word / 32 % 512 == k.0 && es[i].word / 0x4000_0000 == k.1
  {
    var s, w := g.topSet, g.topWay;
    assert (k.0, k.1) in m.lines;
    Commands.WordAtPosition(s, w, k.0, k.1);
    var word := Commands.LineWord(k.0, k.1);
    assert Sweep(op, g)[Commands.Position(s, w, k.0, k.1)] == SetWay(op, word);
    i := ProgramIndex(es, SetWay(op, word));
    Commands.WordDecodes(k.0, k.1);
  }

  /** Splits a run around position i. */
  lemma RunAround(m: Machine, es: seq<Event>, i: nat)
    requires m.WellFormed() && i < |es|
    ensures Run(m, es) == Run(Run(m, es[..i]).Apply(es[i]), es[i + 1..])
  {
    hide *;
    var front, back := es[..i], es[i..];
    RunConcat(m, front, back);
    RunUnfold(Run(m, front), back);
    TakeDrop(es, i);
  }

  lemma RunUnfold(m: Machine, es: seq<Event>)
    requires m.WellFormed() && es != []
    ensures Run(m, es) == Run(m.Apply(es[0]), es[1..])
  {
    hide Machine.Apply, Machine.WellFormed;
  }

  /**
   A sweep of commands leaves no dirty line (written back or discarded), and a sweep of
   invalidate (or clean and invalidate) commands leaves no valid line unless the hardware, with
   the cache on, filled one meanwhile; wherever the hardware's fills and evictions fall.
   */
  lemma {:induction false} SweepEffect(m: Machine, es: seq<Event>, op: Maintenance, g: Geometry)
    requires m.WellFormed() && Describes(g, m) && Fits(g)
    requires Program(es) == Sweep(op, g)
    ensures LinesClean(Run(m, es))
    ensures op != Clean && (!m.Enabled() || NoFills(es)) ==> LinesInvalid(Run(m, es))
  {
    SweepMembers(es, op, Sweep(op, g));
    PassiveKeeps(m, es);
    forall k | k in m.lines
      ensures Run(m, es).lines[k].Valid? ==> !Run(m, es).lines[k].dirty
      ensures op != Clean && (!m.Enabled() || NoFills(es)) ==> Run(m, es).lines[k].Invalid?
    {
      var i := SweepReaches(m, es, op, g, k);
      CommandEffect(m, es, op, k, i);
    }
  }

  /** One command for a line, among passive events, decides what becomes of the line. */
  lemma CommandEffect(m: Machine, es: seq<Event>, op: Maintenance, k: (nat, nat), i: nat)
    requires m.WellFormed() && AllPassive(es) && k in m.lines && i < |es| && es[i].SetWay? && es[i].op == op
    requires es[i].word / 32 % 512 == k.0 && es[i].word / 0x4000_0000 == k.1
    ensures k in Run(m, es).lines
    ensures Run(m, es).lines[k].Valid? ==> !Run(m, es).lines[k].dirty
    ensures op != Clean && (!m.Enabled() || NoFills(es)) ==> Run(m, es).lines[k].Invalid?
  {
    RunAround(m, es, i);
    PassiveKeeps(m, es[..i]);
    var n := Run(m, es[..i]);
    MaintainReaches(n, op, k.0, k.1);
    assert AllPassive(es[i + 1..]);
    StaysClean(n.Apply(es[i]), es[i + 1..], k);
    if op != Clean && (!m.Enabled() || NoFills(es)) {
      assert NoFills(es) ==> NoFills(es[i + 1..]);
      StaysInvalid(n.Apply(es[i]), es[i + 1..], k);
    }
  }

  lemma MaintainReaches(m: Machine, op: Maintenance, s: nat, w: nat)
    requires m.WellFormed() && (s, w) in m.lines
    ensures m.Maintain(op, s, w).lines.Keys == m.lines.Keys && m.Maintain(op, s, w).ccr == m.ccr
    ensures var l := m.Maintain(op, s, w).lines[(s, w)]; l.Valid? ==> !l.dirty
    ensures op != Clean ==> m.Maintain(op, s, w).lines[(s, w)].Invalid?
  {
  }

  // ----- settled states -----

  /** With no dirty line and nothing stale, memory is the flat memory. */
  lemma CleanMeansMemory(m: Machine, flat: Memory)
    requires Coherence.Synced(m, flat, {}) && LinesClean(m)
    ensures m.mem == flat
  {
    forall b: nat | b < BLOCKS
      ensures m.mem[b] == flat[b]
    {
      assert Coherence.Value(m, {}, b) == flat[b];
      if w: nat :| m.Hits(b, w) {
        Coherence.ViewOfHit(m, b, w);
      } else {
        Coherence.ViewOfMiss(m, b);
      }
    }
  }

  /** With no valid line, the cache holds nothing and memory is the view. */
  lemma InvalidMeansSynced(m: Machine)
    requires m.WellFormed() && LinesInvalid(m)
    ensures Coherence.Synced(m, m.mem, {})
  {
    forall b: nat | b < BLOCKS
      ensures Coherence.Value(m, {}, b) == m.mem[b]
    {
      Coherence.ViewOfMiss(m, b);
    }
  }
}
