/**
 What the by-address routines leave behind for any range and any interleaving, and for which ranges
 a clean reaches every byte and an invalidate spares its neighbours.
 */
module CacheRanges {
  import opened Words
  import opened CacheModel
  import opened CacheCoherence
  import opened CacheCommands
  import opened CacheRuns
  import opened CachePrograms
  import Outcomes = CacheOutcomes

  /** A line that the words name gets its command somewhere in the interleaving. */
  lemma RangeCommand(es: seq<Event>, op: Maintenance, words: seq<uint32>, b: nat) returns (i: nat)
    requires Program(es) == AddrEvents(op, words) && Touches(words, b)
    ensures i < |es| && es[i].ByAddress? && es[i].op == op && es[i].addr / 32 == b
  {
    var j :| 0 <= j < |words| && words[j] / 32 == b;
    assert AddrEvents(op, words)[j] == ByAddress(op, words[j]);
    i := ProgramIndex(es, ByAddress(op, words[j]));
  }

  /** Everything in the interleaving is hardware or a command for a line that the words name. */
  lemma RangeMembers(es: seq<Event>, op: Maintenance, words: seq<uint32>)
    requires Program(es) == AddrEvents(op, words)
    ensures AllPassive(es)
    ensures forall i | 0 <= i < |es| ::
              Hardware(es[i]) || (es[i].ByAddress? && es[i].op == op && Touches(words, es[i].addr / 32))
  {
    forall i | 0 <= i < |es|
      ensures Hardware(es[i]) || (es[i].ByAddress? && es[i].op == op && Touches(words, es[i].addr / 32))
    {
      ProgramMembers(es, es[i]);
      if !Hardware(es[i]) {
        var j :| 0 <= j < |words| && es[i] == AddrEvents(op, words)[j];
        assert words[j] / 32 == es[i].addr / 32;
      }
    }
  }

  // ----- what passive events never do -----

  ghost predicate FewerHits(m: Machine, m': Machine) {
    forall b: nat, w: nat | m'.Hits(b, w) :: m.Hits(b, w)
  }

  lemma MaintainFewer(m: Machine, op: Maintenance, s: nat, w: nat)
    requires m.WellFormed()
    ensures FewerDirty(m, m.Maintain(op, s, w)) && FewerHits(m, m.Maintain(op, s, w))
  {
  }

  /** They dirty nothing, and only a fill makes a block a hit. */
  lemma PassiveFewer(m: Machine, e: Event)
    requires m.WellFormed() && Passive(e)
    ensures FewerDirty(m, m.Apply(e)) && m.Apply(e).ccr == m.ccr
    ensures !e.Fill? || !m.Enabled() ==> FewerHits(m, m.Apply(e))
  {
    match e
    case SetWay(op, word) => MaintainFewer(m, op, word / 32 % 512, word / 0x4000_0000);
    case ByAddress(op, a) =>
      if m.FindWay(a / 32, m.ways).Some? {
        MaintainFewer(m, op, a / 32 % m.sets, m.FindWay(a / 32, m.ways).value);
      }
    case Fill(b, w) =>
      if m.Enabled() && b < BLOCKS && w < m.ways && m.FindWay(b, m.ways).None? {
        MaintainFewer(m, CleanInvalidate, b % m.sets, w);
        var n := m.CleanLine(b % m.sets, w).DropLine(b % m.sets, w);
        assert n == m.Maintain(CleanInvalidate, b % m.sets, w);
        assert FewerDirty(n, m.FillLine(b, w));
      }
    case Evict(s, w) => MaintainFewer(m, CleanInvalidate, s, w);
  }

  lemma {:induction false} PassiveRunFewer(m: Machine, es: seq<Event>)
    requires m.WellFormed() && AllPassive(es)
    ensures FewerDirty(m, Run(m, es)) && Run(m, es).ccr == m.ccr
    ensures NoFills(es) || !m.Enabled() ==> FewerHits(m, Run(m, es))
    decreases |es|
  {
    hide Machine.Apply, Machine.Hits, Machine.Dirty;
    if es != [] {
      assert AllPassive(es[1..]) && (NoFills(es) ==> NoFills(es[1..]));
      PassiveFewer(m, es[0]);
      PassiveRunFewer(m.Apply(es[0]), es[1..]);
    }
  }

  // ----- one command -----

  /** The command for a block leaves it without a dirty line, and unless it only cleans, without any. */
  lemma CommandForBlock(m: Machine, e: Event)
    requires m.WellFormed() && Unique(m) && e.ByAddress?
    ensures forall w: nat :: !m.Apply(e).Dirty(e.addr / 32, w)
    ensures e.op != Clean ==> forall w: nat :: !m.Apply(e).Hits(e.addr / 32, w)
  {
    var b := e.addr / 32;
    if w: nat :| m.Hits(b, w) {
      ViewOfHit(m, b, w);
      MaintainFewer(m, e.op, b % m.sets, w);
      HitBlock(m, b, w);
    } else {
      ViewOfMiss(m, b);
    }
  }

  /** After a block's command and any passive events, the block has no dirty line. */
  lemma CommandSettles(m: Machine, es: seq<Event>, b: nat, i: nat)
    requires m.WellFormed() && Coherent(m, {}) && AllPassive(es)
    requires i < |es| && es[i].ByAddress? && es[i].addr / 32 == b
    ensures forall w: nat :: !Run(m, es).Dirty(b, w)
    ensures es[i].op != Clean && (NoFills(es) || !m.Enabled()) ==> forall w: nat :: !Run(m, es).Hits(b, w)
  {
    hide Machine.Apply, Machine.Hits, Machine.Dirty, Coherent;
    RunAround(m, es, i);
    assert AllPassive(es[..i]) && AllPassive(es[i + 1..]) && (NoFills(es) ==> NoFills(es[i + 1..]));
    Outcomes.PassiveRunContents(m, es[..i]);
    PassiveRunFewer(m, es[..i]);
    var n := Run(m, es[..i]);
    CoherentUnique(n);
    CommandForBlock(n, es[i]);
    PassiveFewer(n, es[i]);
    PassiveRunFewer(n.Apply(es[i]), es[i + 1..]);
  }

  lemma CoherentUnique(m: Machine)
    requires m.WellFormed() && Coherent(m, {})
    ensures Unique(m)
  {
  }

  /** A block without a dirty line is in memory. */
  lemma NotDirtyInMemory(m: Machine, b: nat)
    requires m.WellFormed() && Coherent(m, {}) && b < BLOCKS && forall w: nat :: !m.Dirty(b, w)
    ensures m.mem[b] == m.View(b)
  {
    if w: nat :| m.Hits(b, w) {
      ViewOfHit(m, b, w);
      assert !m.Dirty(b, w);
    } else {
      ViewOfMiss(m, b);
    }
  }

  // ----- whole routines -----

  /** No way holds a block that the words name. */
  ghost predicate NoneHeld(m: Machine, words: seq<uint32>) {
    forall b: nat, w: nat | Touches(words, b) :: !m.Hits(b, w)
  }

  /** Memory holds every block that the words name. */
  ghost predicate InMemory(m: Machine, words: seq<uint32>)
    requires m.WellFormed()
  {
    forall b: nat | b < BLOCKS && Touches(words, b) :: m.mem[b] == m.View(b)
  }

  /**
   Cleaning, or cleaning and invalidating, by any list of words changes no reader's view and puts every
   block named into memory; the latter also leaves none of them cached, unless the hardware refills it.
   */
  lemma {:induction false} CleanWords(m: Machine, op: Maintenance, words: seq<uint32>, es: seq<Event>)
    requires m.WellFormed() && Coherent(m, {}) && op != Invalidate && Program(es) == AddrEvents(op, words)
    ensures var m' := Run(m, es);
            && Coherent(m', {}) && m'.ccr == m.ccr && Outcomes.Snapshot(m') == Outcomes.Snapshot(m)
            && InMemory(m', words)
            && (op == CleanInvalidate && (NoFills(es) || !m.Enabled()) ==> NoneHeld(m', words))
  {
    var m' := Run(m, es);
    RangeMembers(es, op, words);
    Outcomes.SnapshotSynced(m);
    QuietRun(m, Outcomes.Snapshot(m), {}, es);
    Outcomes.SyncedSnapshot(m', Outcomes.Snapshot(m));
    WordsSettled(m, op, words, es);
  }

  lemma WordsSettled(m: Machine, op: Maintenance, words: seq<uint32>, es: seq<Event>)
    requires m.WellFormed() && Coherent(m, {}) && Program(es) == AddrEvents(op, words)
    requires Coherent(Run(m, es), {})
    ensures InMemory(Run(m, es), words)
    ensures op != Clean && (NoFills(es) || !m.Enabled()) ==> NoneHeld(Run(m, es), words)
  {
    RangeMembers(es, op, words);
    forall b: nat | Touches(words, b)
      ensures b < BLOCKS ==> Run(m, es).mem[b] == Run(m, es).View(b)
      ensures op != Clean && (NoFills(es) || !m.Enabled()) ==> forall w: nat :: !Run(m, es).Hits(b, w)
    {
      var i := RangeCommand(es, op, words, b);
      CommandSettles(m, es, b, i);
      if b < BLOCKS {
        NotDirtyInMemory(Run(m, es), b);
      }
    }
  }

  /**
   Invalidating by any list of words leaves every block named with its old cached or its old memory
   contents, undisturbed always the latter, and no other block changes in any reader's view.
   */
  lemma {:induction false} InvalidateWords(m: Machine, words: seq<uint32>, es: seq<Event>)
    requires m.WellFormed() && Coherent(m, {}) && Program(es) == AddrEvents(Invalidate, words)
    ensures var m' := Run(m, es);
            && Coherent(m', {}) && m'.ccr == m.ccr && Outcomes.OldContents(m, m') && InMemory(m', words)
            && (NoFills(es) || !m.Enabled() ==> NoneHeld(m', words))
            && (forall b: nat | b < BLOCKS && !Touches(words, b) :: m'.View(b) == m.View(b))
            && (es == AddrEvents(Invalidate, words) ==> m'.mem == m.mem)
  {
    RangeMembers(es, Invalidate, words);
    Outcomes.PassiveRunContents(m, es);
    PassiveRunFewer(m, es);
    WordsSettled(m, Invalidate, words, es);
    forall b: nat | b < BLOCKS && !Touches(words, b)
      ensures Run(m, es).View(b) == m.View(b)
    {
      UncommandedKept(m, es, b);
    }
    if es == AddrEvents(Invalidate, words) {
      Outcomes.InvalidatesKeepMemory(m, es);
    }
  }

  lemma DropOther(m: Machine, b: nat, w: nat, c: nat)
    requires m.WellFormed() && Unique(m) && m.Hits(b, w) && c != b && c < BLOCKS
    ensures m.DropLine(b % m.sets, w).View(c) == m.View(c)
  {
    var m' := m.DropLine(b % m.sets, w);
    assert forall d: nat, v: nat | m'.Hits(d, v) :: m.Hits(d, v) && m.LineOf(d, v) == m'.LineOf(d, v);
    if v: nat :| m.Hits(c, v) {
      HitBlock(m, b, w);
      HitBlock(m, c, v);
      assert m'.Hits(c, v);
      ViewOfHit(m, c, v);
      ViewOfHit(m', c, v);
    } else {
      ViewOfMiss(m, c);
      ViewOfMiss(m', c);
    }
  }

  lemma {:induction false} UncommandedKept(m: Machine, es: seq<Event>, c: nat)
    requires m.WellFormed() && Coherent(m, {}) && c < BLOCKS
    requires forall i | 0 <= i < |es| ::
               Hardware(es[i]) || (es[i].ByAddress? && es[i].op == Invalidate && es[i].addr / 32 != c)
    ensures Run(m, es).View(c) == m.View(c) && Run(m, es).ccr == m.ccr
    decreases |es|
  {
    if es != [] {
      var e := es[0];
      Outcomes.PassiveContents(m, e);
      if Hardware(e) {
        Outcomes.SnapshotSynced(m);
        QuietStep(m, Outcomes.Snapshot(m), {}, e);
        assert Value(m.Apply(e), {}, c) == Outcomes.Snapshot(m)[c];
      } else if w: nat :| m.Hits(e.addr / 32, w) {
        ViewOfHit(m, e.addr / 32, w);
        DropOther(m, e.addr / 32, w, c);
      } else {
        ViewOfMiss(m, e.addr / 32);
      }
      UncommandedKept(m.Apply(e), es[1..], c);
    }
  }

  // ----- for which ranges a clean reaches every byte -----

  /** The offsets of the range's first and last byte do not carry into a further line. */
  predicate NoCarry(addr: uint32, dsize: int32)
    requires 0 < dsize
  {
    addr % 32 + (dsize - 1) % 32 < 32
  }

  /**
   Cleaning the range by address puts every byte of it into memory, on every coherent cache of this
   geometry and under every interleaving.
   */
  ghost predicate CleansRange(g: Geometry, addr: uint32, dsize: int32) {
    forall m: Machine, es: seq<Event>, x: uint32 |
      && m.WellFormed() && Coherent(m, {}) && Describes(g, m) && addr <= x < addr + dsize
      && Program(es) == AddrEvents(Clean, AddrWords(addr, dsize)) ::
      Run(m, es).MemByte(x) == m.View(x / 32)[x % 32]
  }

  /** A range whose offsets do not carry has every byte's line named. */
  lemma ByteTouched(addr: uint32, dsize: int32, x: uint32)
    requires 0 < dsize && addr + dsize <= WORD && NoCarry(addr, dsize) && addr <= x < addr + dsize
    ensures Touches(AddrWords(addr, dsize), x / 32)
  {
    AddrCoverage(addr, dsize);
    assert Overlaps(addr, dsize, x / 32);
  }

  /** SCB_CleanDCache_by_Addr reaches the whole range exactly when no line of it is missed, on any geometry. */
  lemma {:induction false} CleanRangeExact(g: Geometry, addr: uint32, dsize: int32)
    requires 0 < dsize && addr + dsize <= WORD
    ensures CleansRange(g, addr, dsize) <==> NoCarry(addr, dsize)
  {
    var words := AddrWords(addr, dsize);
    if NoCarry(addr, dsize) {
      forall m: Machine, es: seq<Event>, x: uint32 |
        && m.WellFormed() && Coherent(m, {}) && Describes(g, m) && addr <= x < addr + dsize
        && Program(es) == AddrEvents(Clean, words)
        ensures Run(m, es).MemByte(x) == m.View(x / 32)[x % 32]
      {
        CleanReaches(m, addr, dsize, es, x);
      }
    } else {
      AddrCoverage(addr, dsize);
      var b: nat :| Overlaps(addr, dsize, b) && !Touches(words, b);
      ByteMissed(g, addr, dsize, b);
    }
  }

  lemma CleanReaches(m: Machine, addr: uint32, dsize: int32, es: seq<Event>, x: uint32)
    requires 0 < dsize && addr + dsize <= WORD && NoCarry(addr, dsize) && addr <= x < addr + dsize
    requires m.WellFormed() && Coherent(m, {}) && Program(es) == AddrEvents(Clean, AddrWords(addr, dsize))
    ensures Run(m, es).MemByte(x) == m.View(x / 32)[x % 32]
  {
    var m' := Run(m, es);
    ByteTouched(addr, dsize, x);
    CleanWords(m, Clean, AddrWords(addr, dsize), es);
    assert m'.View(x / 32) == Outcomes.Snapshot(m')[x / 32] == Outcomes.Snapshot(m)[x / 32];
  }

  // ----- a witness of every geometry -----

  /** Way 0 of block b's set holds ones for b, dirty, and no other line is valid. */
  function OneLine(sets: Count, ways: Count, b: nat): (lines: map<(nat, nat), Line>)
    ensures forall s: nat, w: nat :: (s, w) in lines <==> s < sets && w < ways
    ensures forall s: nat, w: nat | (s, w) in lines ::
              lines[(s, w)] == if s == b % sets && w == 0 then Valid(b / sets, true, Filled(1)) else Invalid
  {
    map s: nat, w: nat | s < sets && w < ways ::
      (s, w) := if s == b % sets && w == 0 then Valid(b / sets, true, Filled(1)) else Invalid
  }

  function Filled(v: byte): Block {
    seq(32, _ => v)
  }

  /** That line, with the cache on, over a memory of zeros. */
  function OneDirtyLine(g: Geometry, b: nat): (m: Machine)
    requires b < BLOCKS
    ensures m.WellFormed() && Describes(g, m)
  {
    DivModIdentity(b, g.topSet + 1);
    Machine(g.topSet + 1, g.topWay + 1, CCR_DC, OneLine(g.topSet + 1, g.topWay + 1, b), seq(BLOCKS, _ => Filled(0)))
  }

  ghost predicate HoldsAtMost(m: Machine, b: nat) {
    forall c: nat, w: nat | m.Hits(c, w) :: c == b
  }

  lemma OneDirtyLineHolds(g: Geometry, b: nat)
    requires b < BLOCKS
    ensures var m := OneDirtyLine(g, b);
            && m.Enabled() && Coherent(m, {}) && HoldsAtMost(m, b)
            && m.View(b) == Filled(1) && m.mem[b] == Filled(0)
  {
    var m := OneDirtyLine(g, b);
    assert m.Hits(b, 0);
    forall c: nat, w: nat | m.Hits(c, w)
      ensures c == b && w == 0
    {
      HitBlock(m, c, w);
      HitBlock(m, b, 0);
    }
    assert Unique(m);
    ViewOfHit(m, b, 0);
  }

  /** Commands for other blocks find nothing. */
  lemma {:induction false} OtherCommands(m: Machine, es: seq<Event>, b: nat)
    requires m.WellFormed() && HoldsAtMost(m, b)
    requires forall i | 0 <= i < |es| :: es[i].ByAddress? && es[i].addr / 32 != b
    ensures Run(m, es) == m
  {
    if es != [] {
      OtherCommands(m, es[1..], b);
    }
  }

  /** A line of the range that is not named starts inside the range. */
  lemma LineBeyond(addr: uint32, dsize: int32, b: nat)
    requires 0 < dsize && addr + dsize <= WORD
    requires Overlaps(addr, dsize, b) && !Touches(AddrWords(addr, dsize), b)
    ensures b < BLOCKS && addr <= b * 32 < addr + dsize
  {
    AddrCoverage(addr, dsize);
  }

  /** A line of the range that is not named stays in the cache alone. */
  lemma ByteMissed(g: Geometry, addr: uint32, dsize: int32, b: nat)
    requires 0 < dsize && addr + dsize <= WORD
    requires Overlaps(addr, dsize, b) && !Touches(AddrWords(addr, dsize), b)
    ensures !CleansRange(g, addr, dsize)
  {
    var words := AddrWords(addr, dsize);
    var es := AddrEvents(Clean, words);
    var m := OneDirtyLine(g, b);
    LineBeyond(addr, dsize, b);
    var x: uint32 := b * 32;
    NoHardwareProgram(es);
    OneDirtyLineHolds(g, b);
    assert forall i | 0 <= i < |es| :: es[i].addr / 32 == words[i] / 32;
    OtherCommands(m, es, b);
    assert x / 32 == b && Run(m, es).MemByte(x) == 0 && m.View(x / 32)[x % 32] == 1;
  }

  // ----- for which ranges an invalidate spares its neighbours -----

  /**
   Invalidating the range on a coherent cache of this geometry in use, under every interleaving,
   leaves every byte outside the range as the CPU last saw it.
   */
  ghost predicate SparesNeighbours(g: Geometry, addr: uint32, dsize: int32) {
    forall m: Machine, es: seq<Event>, x: uint32 |
      && m.WellFormed() && Coherent(m, {}) && Describes(g, m) && m.Enabled() && !(addr <= x < addr + dsize)
      && Program(es) == AddrEvents(Invalidate, AddrWords(addr, dsize)) ::
      Run(m, es).CpuByte(x) == m.CpuByte(x)
  }

  /** A named line that sticks out of the range has a byte outside it. */
  lemma ByteOutside(addr: uint32, dsize: int32, b: nat) returns (x: uint32)
    requires 0 < dsize && addr + dsize <= WORD
    requires Touches(AddrWords(addr, dsize), b) && !Inside(addr, dsize, b)
    ensures b < BLOCKS && x / 32 == b && !(addr <= x < addr + dsize)
  {
    AddrCoverage(addr, dsize);
    x := if b * 32 < addr then b * 32 else b * 32 + 31;
  }

  /** A touched line sticking out of the range loses the bytes it has outside it. */
  lemma NeighbourLost(g: Geometry, addr: uint32, dsize: int32, b: nat)
    requires 0 < dsize && addr + dsize <= WORD
    requires Touches(AddrWords(addr, dsize), b) && !Inside(addr, dsize, b)
    ensures !SparesNeighbours(g, addr, dsize)
  {
    hide AddrWords, Touches;
    var words := AddrWords(addr, dsize);
    var x := ByteOutside(addr, dsize, b);
    LostInRun(g, b, words, x);
  }

  lemma LostInRun(g: Geometry, b: nat, words: seq<uint32>, x: uint32)
    requires b < BLOCKS && Touches(words, b) && x / 32 == b
    ensures var m, es := OneDirtyLine(g, b), AddrEvents(Invalidate, words);
            && Program(es) == es && m.Enabled() && Coherent(m, {})
            && Run(m, es).CpuByte(x) != m.CpuByte(x)
  {
    var m, es := OneDirtyLine(g, b), AddrEvents(Invalidate, words);
    NoHardwareProgram(es);
    OneDirtyLineHolds(g, b);
    InvalidateWords(m, words, es);
    hide Machine.Apply, Machine.View, Coherent, Program, AddrEvents;
    assert Run(m, es).View(b) == Filled(0);
  }

  /**
   SCB_InvalidateDCache_by_Addr is safe for its neighbours exactly when the range is whole lines,
   whatever the geometry.
   */
  lemma {:induction false} NeighboursExact(g: Geometry, addr: uint32, dsize: int32)
    requires 0 < dsize && addr + dsize <= WORD
    ensures SparesNeighbours(g, addr, dsize) <==> addr % 32 == 0 && dsize % 32 == 0
  {
    AddrContained(addr, dsize);
    if addr % 32 == 0 && dsize % 32 == 0 {
      forall m: Machine, es: seq<Event>, x: uint32 |
        && m.WellFormed() && Coherent(m, {}) && Describes(g, m) && m.Enabled() && !(addr <= x < addr + dsize)
        && Program(es) == AddrEvents(Invalidate, AddrWords(addr, dsize))
        ensures Run(m, es).CpuByte(x) == m.CpuByte(x)
      {
        OutsideKept(m, addr, dsize, es, x);
      }
    } else {
      var b: nat :| Touches(AddrWords(addr, dsize), b) && !Inside(addr, dsize, b);
      NeighbourLost(g, addr, dsize, b);
    }
  }

  lemma OutsideKept(m: Machine, addr: uint32, dsize: int32, es: seq<Event>, x: uint32)
    requires 0 < dsize && addr + dsize <= WORD && addr % 32 == 0 && dsize % 32 == 0
    requires m.WellFormed() && Coherent(m, {}) && m.Enabled() && !(addr <= x < addr + dsize)
    requires Program(es) == AddrEvents(Invalidate, AddrWords(addr, dsize))
    ensures Run(m, es).CpuByte(x) == m.CpuByte(x)
  {
    OutsideUntouched(addr, dsize, x);
    InvalidateWords(m, AddrWords(addr, dsize), es);
  }

  lemma OutsideUntouched(addr: uint32, dsize: int32, x: uint32)
    requires 0 < dsize && addr + dsize <= WORD && addr % 32 == 0 && dsize % 32 == 0
    requires !(addr <= x < addr + dsize)
    ensures !Touches(AddrWords(addr, dsize), x / 32)
  {
    AddrContained(addr, dsize);
    assert !Inside(addr, dsize, x / 32);
  }
}
