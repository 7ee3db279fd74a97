/**
 Whole runs: programs of cache routines, with CPU accesses, interrupt handlers' accesses and devices'
 accesses falling anywhere, inside the routines too.
 */
module CacheHandover {
  import opened Words
  import opened CacheModel
  import opened CacheCoherence
  import opened CacheRuns
  import opened CachePrograms
  import opened CacheInterleaving
  import opened CacheOwnership
  import Commands = CacheCommands
  import Ranges = CacheRanges
  import Transparency = CacheTransparency

  // ----- what is permitted when -----

  /**
   While a cache that was on is being disabled, accesses go to memory past lines still to be written
   back: the CPU keeps off blocks that a dirty line holds, and so do devices unless the CPU gave them up.
   */
  ghost predicate PermittedDraining(m: Machine, bufs: seq<Buffer>, e: Event) {
    match e
    case Load(a) => BlockClean(m, a / 32)
    case Store(a, _) => BlockClean(m, a / 32)
    case DeviceRead(a) => GivenUp(bufs, a) || BlockClean(m, a / 32)
    case DeviceWrite(a, _) => GivenUp(bufs, a) || BlockClean(m, a / 32)
    case _ => true
  }

  /** Otherwise, with the cache off, every access is permitted. */
  ghost predicate Permitted(m: Machine, bufs: seq<Buffer>, draining: bool, e: Event) {
    SwitchesCache(e) || if m.Enabled() then PermittedOn(bufs, e) else draining ==> PermittedDraining(m, bufs, e)
  }

  /** Buffers change hands only while the cache is on. */
  function OwnersAfter(m: Machine, bufs: seq<Buffer>, es: seq<Event>): (bufs': seq<Buffer>)
    requires m.WellFormed()
    ensures |bufs'| == |bufs| && forall i | 0 <= i < |bufs| :: bufs'[i].SamePlace(bufs[i])
    decreases |es|
  {
    if es == [] then bufs
    else OwnersAfter(m.Apply(es[0]), if m.Enabled() then After(bufs, es[0]) else bufs, es[1..])
  }

  /** Each event is permitted at its moment. */
  ghost predicate PermittedRun(m: Machine, bufs: seq<Buffer>, draining: bool, es: seq<Event>)
    requires m.WellFormed()
    decreases |es|
  {
    es == [] ||
    (Permitted(m, bufs, draining, es[0]) &&
     PermittedRun(m.Apply(es[0]), if m.Enabled() then After(bufs, es[0]) else bufs, draining, es[1..]))
  }

  lemma {:induction false} PermittedSplit(m: Machine, bufs: seq<Buffer>, draining: bool, es: seq<Event>, k: nat)
    requires m.WellFormed() && k <= |es| && PermittedRun(m, bufs, draining, es)
    ensures PermittedRun(m, bufs, draining, es[..k])
    ensures PermittedRun(Run(m, es[..k]), OwnersAfter(m, bufs, es[..k]), draining, es[k..])
    ensures OwnersAfter(m, bufs, es) == OwnersAfter(Run(m, es[..k]), OwnersAfter(m, bufs, es[..k]), es[k..])
    decreases |es|
  {
    hide Machine.Apply, Machine.Enabled, Permitted, After;
    if k == 0 {
      assert es[..k] == [] && es[k..] == es;
    } else {
      assert es[..k][1..] == es[1..][..k - 1] && es[k..] == es[1..][k - 1..];
      PermittedSplit(m.Apply(es[0]), if m.Enabled() then After(bufs, es[0]) else bufs, draining, es[1..], k - 1);
    }
  }

  /** A buffer that nobody writes stays with whoever has it. */
  lemma {:induction false} LeftAloneKept(m: Machine, bufs: seq<Buffer>, es: seq<Event>, j: nat)
    requires m.WellFormed() && j < |bufs| && bufs[j].LeftAlone(es)
    ensures OwnersAfter(m, bufs, es)[j] == bufs[j]
    decreases |es|
  {
    hide Machine.Apply, Machine.Enabled;
    if es != [] {
      assert bufs[j].LeftAlone(es[1..]);
      LeftAloneKept(m.Apply(es[0]), if m.Enabled() then After(bufs, es[0]) else bufs, es[1..], j);
    }
  }

  ghost predicate NoSwitch(es: seq<Event>) {
    forall i | 0 <= i < |es| :: !SwitchesCache(es[i])
  }

  // ----- while the cache is on -----

  /** Any permitted events, in any order, keep the invariant with the owners folded along. */
  lemma {:induction false} OnRun(m: Machine, flat: Memory, bufs: seq<Buffer>, draining: bool, es: seq<Event>)
    requires Held(m, flat, bufs) && PermittedRun(m, bufs, draining, es) && NoSwitch(es)
    ensures Held(Run(m, es), FlatRun(flat, es), OwnersAfter(m, bufs, es)) && Faithful(m, flat, es)
    decreases |es|
  {
    hide Machine.Apply, After, PermittedOn, Observes, Arranged, SharedClean, Value, Stale;
    if es != [] {
      assert NoSwitch(es[1..]) && !SwitchesCache(es[0]);
      EventHeld(m, flat, bufs, es[0]);
      OnRun(m.Apply(es[0]), FlatApply(flat, es[0]), After(bufs, es[0]), draining, es[1..]);
    }
  }

  lemma HeldAt(m: Machine, flat: Memory, bufs: seq<Buffer>, draining: bool, es: seq<Event>, k: nat)
    requires Held(m, flat, bufs) && PermittedRun(m, bufs, draining, es) && NoSwitch(es) && k <= |es|
    ensures Unique(Run(m, es[..k]))
  {
    hide PermittedRun, Arranged, SharedClean, Machine.Apply, Stale;
    PermittedSplit(m, bufs, draining, es, k);
    assert NoSwitch(es[..k]);
    OnRun(m, flat, bufs, draining, es[..k]);
  }

  /** A call that reaches a buffer issues its command for every way of each of its lines. */
  lemma TargetIn(m: Machine, es: seq<Event>, op: Op, g: Geometry, buf: Buffer, b: nat, w: nat) returns (i: nat)
    requires m.WellFormed() && Describes(g, m) && Fits(g) && Interleaves(es, Trace(op, g))
    requires buf.Reached(op) && b in buf.Blocks() && w < m.ways
    ensures i < |es| && Targets(m, es[i], CommandOf(op), b, w)
  {
    if op.CleanDCache? || op.CleanInvalidateDCache? {
      i := SweepTarget(m, es, CommandOf(op), g, b, w);
    } else {
      var words := Commands.AddrWords(op.addr, op.dsize);
      var j :| 0 <= j < |words| && words[j] / 32 == b;
      assert AddrEvents(CommandOf(op), words)[j] == ByAddress(CommandOf(op), words[j]);
      i := InterleavesIndex(es, AddrEvents(CommandOf(op), words), ByAddress(CommandOf(op), words[j]));
    }
  }

  lemma SweepTarget(m: Machine, es: seq<Event>, c: Maintenance, g: Geometry, b: nat, w: nat) returns (i: nat)
    requires m.WellFormed() && Describes(g, m) && Fits(g) && Interleaves(es, Sweep(c, g)) && w < m.ways
    ensures i < |es| && Targets(m, es[i], c, b, w) && es[i].SetWay?
  {
    var e := SweepWord(m, c, g, b % m.sets, w);
    i := InterleavesIndex(es, Sweep(c, g), e);
  }

  lemma SweepWord(m: Machine, c: Maintenance, g: Geometry, s: nat, w: nat) returns (e: Event)
    requires m.WellFormed() && Describes(g, m) && Fits(g) && s < m.sets && w < m.ways
    ensures e in Sweep(c, g) && e.SetWay? && e.op == c && e.word / 32 % 512 == s && e.word / 0x4000_0000 == w
  {
    Commands.WordAtPosition(g.topSet, g.topWay, s, w);
    e := SetWay(c, Commands.LineWord(s, w));
    assert Sweep(c, g)[Commands.Position(g.topSet, g.topWay, s, w)] == e;
    Commands.WordDecodes(s, w);
  }

  lemma LeftAloneBlock(buf: Buffer, es: seq<Event>, b: nat)
    requires buf.Aligned() && buf.LeftAlone(es) && b in buf.Blocks()
    ensures NoStoreTo(es, b) && NoDeviceWriteTo(es, b)
  {
    forall i | 0 <= i < |es| && (es[i].Store? || es[i].DeviceWrite?)
      ensures es[i].addr / 32 != b
    {
      BufferBlocks(buf, es[i].addr);
    }
  }

  lemma NoSuchWay(m: Machine, b: nat, w: nat)
    requires m.WellFormed() && w >= m.ways
    ensures !m.Hits(b, w)
  {
  }

  /** A buffer that comes back shared has no dirty line, and if it was a device's no way that differs from memory. */
  lemma ReturnedLine(m: Machine, flat: Memory, bufs: seq<Buffer>, op: Op, g: Geometry, es: seq<Event>,
                     j: nat, b: nat, w: nat)
    requires Held(m, flat, bufs) && PermittedRun(m, bufs, false, es) && NoSwitch(es)
    requires Describes(g, m) && Fits(g) && Interleaves(es, Trace(op, g))
    requires j < |bufs| && bufs[j].Reached(op) && bufs[j].LeftAlone(es) && b in bufs[j].Blocks()
    ensures !Run(m, es).Dirty(b, w)
    ensures bufs[j].owner == Device && DropsLines(op) ==> Fresh(Run(m, es), b, w)
  {
    hide PermittedRun, Machine.Apply, Synced, Machine.Hits, Machine.Dirty, Buffer.Reached, Buffer.LeftAlone, Stale;
    LeftAloneBlock(bufs[j], es, b);
    if w >= m.ways {
      NoSuchWay(Run(m, es), b, w);
      MissIsFresh(Run(m, es), b, w);
    } else {
      var i := TargetIn(m, es, op, g, bufs[j], b, w);
      HeldAt(m, flat, bufs, false, es, i);
      ReachedNotDirty(m, es, i, CommandOf(op), b, w);
      if bufs[j].owner == Device && DropsLines(op) {
        GivenUpClean(m, flat, bufs, j);
        ReachedFresh(m, es, i, CommandOf(op), b, w);
      }
    }
  }

  lemma MissIsFresh(m: Machine, b: nat, w: nat)
    requires m.WellFormed() && b < BLOCKS && !m.Hits(b, w)
    ensures !m.Dirty(b, w) && Fresh(m, b, w)
  {
  }

  /** What the returned buffers' lines mean for the invariant. */
  lemma ReturnedHeld(m: Machine, flat: Memory, bufs: seq<Buffer>, op: Op, es: seq<Event>)
    requires Held(m, flat, bufs)
    requires forall j, b: nat, w: nat | 0 <= j < |bufs| && bufs[j].Moves(op, es) && b in bufs[j].Blocks() ::
               !m.Dirty(b, w) && (bufs[j].owner == Device ==> Fresh(m, b, w))
    ensures Held(m, flat, Returned(op, es, bufs))
  {
    hide Coherent, Value, Machine.Dirty, Fresh, Buffer.Reached, Buffer.LeftAlone, Machine.Enabled;
    var bufs' := Returned(op, es, bufs);
    StaysArranged(bufs, bufs');
    forall b: nat | b < BLOCKS && DeviceHas(bufs', b)
      ensures DeviceHas(bufs, b)
    {
      var j :| 0 <= j < |bufs'| && bufs'[j].owner == Device && bufs'[j].Covers(b);
      assert bufs[j].Covers(b) && bufs[j].owner == Device;
    }
    forall b: nat, w: nat | b < BLOCKS && b in Stale(bufs) && b !in Stale(bufs')
      ensures Fresh(m, b, w)
    {
      var j :| 0 <= j < |bufs| && bufs[j].owner == Device && bufs[j].Covers(b);
      assert bufs'[j].Covers(b) && bufs'[j].owner != Device;
      assert b in bufs[j].Blocks();
    }
    FreshNotStale(m, flat, Stale(bufs), Stale(bufs'));
    forall j | 0 <= j < |bufs'| && bufs'[j].owner == Shared
      ensures NoDirtyIn(m, bufs'[j].Blocks())
    {
      assert bufs'[j].Blocks() == bufs[j].Blocks();
    }
  }

  /**
   A routine called while the cache is on, with permitted accesses falling anywhere inside it, keeps the
   invariant; when it returns, the buffers it reached and nobody wrote meanwhile have changed hands.
   */
  lemma {:induction false} CallHeld(m: Machine, flat: Memory, bufs: seq<Buffer>, op: Op, g: Geometry, es: seq<Event>)
    requires Held(m, flat, bufs) && PermittedRun(m, bufs, false, es) && NoSwitch(es)
    requires Describes(g, m) && Fits(g) && Interleaves(es, Trace(op, g))
    ensures Held(Run(m, es), FlatRun(flat, es), Returned(op, es, OwnersAfter(m, bufs, es))) && Faithful(m, flat, es)
  {
    hide PermittedRun, Machine.Apply, Held, Machine.Dirty, Fresh, Buffer.Reached, Buffer.LeftAlone, Faithful, Stale,
         Interleaves, Trace, Fits, Machine.Enabled, Run, FlatRun, OwnersAfter;
    HeldShape(m, flat, bufs);
    OnRun(m, flat, bufs, false, es);
    HeldShape(Run(m, es), FlatRun(flat, es), OwnersAfter(m, bufs, es));
    var bufs' := OwnersAfter(m, bufs, es);
    forall j, b: nat, w: nat | 0 <= j < |bufs'| && bufs'[j].Moves(op, es) && b in bufs'[j].Blocks()
      ensures !Run(m, es).Dirty(b, w) && (bufs'[j].owner == Device ==> Fresh(Run(m, es), b, w))
    {
      SameBuffer(bufs[j], bufs'[j], op, es);
      LeftAloneKept(m, bufs, es, j);
      ReturnedLine(m, flat, bufs, op, g, es, j, b, w);
    }
    ReturnedHeld(Run(m, es), FlatRun(flat, es), bufs', op, es);
  }

  lemma SameBuffer(x: Buffer, y: Buffer, op: Op, es: seq<Event>)
    requires x.SamePlace(y)
    ensures x.LeftAlone(es) == y.LeftAlone(es) && x.Blocks() == y.Blocks() && x.Reached(op) == y.Reached(op)
  {
    assert x.Blocks() == y.Blocks();
  }

  // ----- while the cache is off -----

  /** Nothing switches the cache on. */
  ghost predicate StaysOff(es: seq<Event>) {
    forall i | 0 <= i < |es| :: !es[i].OrCCR? && (es[i].BicCCR? ==> es[i].bits == CCR_DC)
  }

  /** Nothing could write a line back. */
  ghost predicate OnlyDrops(es: seq<Event>) {
    forall i | 0 <= i < |es| && (es[i].SetWay? || es[i].ByAddress?) :: es[i].op == Invalidate
  }

  lemma OffEvent(m: Machine, flat: Memory, e: Event)
    requires Off(m, flat) && |flat| == BLOCKS && !e.OrCCR? && (e.BicCCR? ==> e.bits == CCR_DC)
    requires LinesClean(m) || (e.SetWay? || e.ByAddress? ==> e.op == Invalidate)
    ensures Observes(m, flat, e) && Off(m.Apply(e), FlatApply(flat, e))
    ensures LinesClean(m) ==> LinesClean(m.Apply(e))
  {
    EnableBit(m.ccr, 16);
  }

  /** With the cache off, memory is the flat memory whoever accesses it, and commands change nothing of it. */
  lemma {:induction false} OffAnyRun(m: Machine, flat: Memory, es: seq<Event>)
    requires Off(m, flat) && |flat| == BLOCKS && StaysOff(es) && (LinesClean(m) || OnlyDrops(es))
    ensures Off(Run(m, es), FlatRun(flat, es)) && Faithful(m, flat, es)
    ensures LinesClean(m) ==> LinesClean(Run(m, es))
    decreases |es|
  {
    hide Machine.Apply, LinesClean, Observes;
    if es != [] {
      assert StaysOff(es[1..]) && (OnlyDrops(es) ==> OnlyDrops(es[1..]));
      OffEvent(m, flat, es[0]);
      OffAnyRun(m.Apply(es[0]), FlatApply(flat, es[0]), es[1..]);
    }
  }

  lemma OffOwners(m: Machine, flat: Memory, bufs: seq<Buffer>, es: seq<Event>)
    requires Off(m, flat) && |flat| == BLOCKS && StaysOff(es) && (LinesClean(m) || OnlyDrops(es))
    ensures OwnersAfter(m, bufs, es) == bufs
    decreases |es|
  {
    hide Machine.Apply, LinesClean, Observes;
    if es != [] {
      assert StaysOff(es[1..]) && (OnlyDrops(es) ==> OnlyDrops(es[1..]));
      OffEvent(m, flat, es[0]);
      OffOwners(m.Apply(es[0]), FlatApply(flat, es[0]), bufs, es[1..]);
    }
  }

  lemma SetWayDrops(m: Machine, e: Event, k: (nat, nat))
    requires m.WellFormed() && k.0 < m.sets && k.1 < m.ways && e.SetWay? && e.op != Clean
    requires e.word / 32 % 512 == k.0 && e.word / 0x4000_0000 == k.1
    ensures k in m.Apply(e).lines && m.Apply(e).lines[k].Invalid?
  {
    assert (k.0, k.1) in m.lines;
  }

  /** A dropping sweep with the cache off leaves no valid line, whatever accesses fall inside it. */
  lemma SweepEmpties(m: Machine, es: seq<Event>, c: Maintenance, g: Geometry)
    requires m.WellFormed() && !m.Enabled() && NoSwitch(es) && Describes(g, m) && Fits(g)
    requires Interleaves(es, Sweep(c, g)) && c != Clean
    ensures LinesInvalid(Run(m, es))
  {
    hide Interleaves, Sweep;
    forall k | k in Run(m, es).lines
      ensures Run(m, es).lines[k].Invalid?
    {
      assert (k.0, k.1) in Run(m, es).lines;
      var e := SweepWord(m, c, g, k.0, k.1);
      var i := InterleavesIndex(es, Sweep(c, g), e);
      assert NoSwitch(es[..i]) && NoSwitch(es[i + 1..]);
      OffKeeps(m, es[..i], k);
      SetWayDrops(Run(m, es[..i]), es[i], k);
      OffKeepsStep(Run(m, es[..i]), es[i], k);
      OffKeeps(Run(m, es[..i]).Apply(es[i]), es[i + 1..], k);
      RunAround(m, es, i);
    }
  }

  lemma OffKeepsStep(m: Machine, e: Event, k: (nat, nat))
    requires m.WellFormed() && !m.Enabled() && !SwitchesCache(e)
    ensures m.Apply(e).ccr == m.ccr
    ensures k in m.lines && m.lines[k].Invalid? ==> k in m.Apply(e).lines && m.Apply(e).lines[k].Invalid?
  {
  }

  lemma {:induction false} OffKeeps(m: Machine, es: seq<Event>, k: (nat, nat))
    requires m.WellFormed() && !m.Enabled() && NoSwitch(es)
    ensures Run(m, es).ccr == m.ccr
    ensures k in m.lines && m.lines[k].Invalid? ==> k in Run(m, es).lines && Run(m, es).lines[k].Invalid?
    decreases |es|
  {
    hide Machine.Apply;
    if es != [] {
      assert NoSwitch(es[1..]);
      OffKeepsStep(m, es[0], k);
      OffKeeps(m.Apply(es[0]), es[1..], k);
    }
  }

  // ----- while a cache that was on is being disabled -----

  /** Dirty lines hold the flat memory's blocks, memory holds the others, and what the CPU gave up is not dirty. */
  ghost predicate Draining(m: Machine, flat: Memory, bufs: seq<Buffer>) {
    && m.WellFormed() && |flat| == BLOCKS && !m.Enabled() && Arranged(bufs)
    && (forall b: nat, w: nat | b < BLOCKS && m.Dirty(b, w) :: m.LineOf(b, w).data == flat[b])
    && (forall b: nat | b < BLOCKS && BlockClean(m, b) :: m.mem[b] == flat[b])
    && forall i | 0 <= i < |bufs| && bufs[i].owner != Cpu :: NoDirtyIn(m, bufs[i].Blocks())
  }

  /** Clearing the enable bit starts the draining. */
  lemma HeldDrains(m: Machine, flat: Memory, bufs: seq<Buffer>)
    requires Held(m, flat, bufs)
    ensures Draining(m.Apply(BicCCR(CCR_DC)), flat, bufs)
  {
    var m' := m.Apply(BicCCR(CCR_DC));
    EnableBit(m.ccr, 16);
    assert forall b: nat, w: nat :: m'.Hits(b, w) == m.Hits(b, w) && m'.Dirty(b, w) == m.Dirty(b, w);
    forall b: nat, w: nat | b < BLOCKS && m'.Dirty(b, w)
      ensures m'.LineOf(b, w).data == flat[b]
    {
      ViewOfHit(m, b, w);
      assert Value(m, Stale(bufs), b) == flat[b];
    }
    forall b: nat | b < BLOCKS && BlockClean(m', b)
      ensures m'.mem[b] == flat[b]
    {
      assert NoDirtyIn(m, {b}) by {
        forall w: nat ensures !m.Dirty(b, w) { assert !m'.Dirty(b, w); }
      }
      MoreStale(m, flat, Stale(bufs), {b});
    }
    forall i | 0 <= i < |bufs| && bufs[i].owner != Cpu
      ensures NoDirtyIn(m', bufs[i].Blocks())
    {
      GivenUpClean(m, flat, bufs, i);
    }
  }

  /** Writing a line back moves the truth of its block from the line to memory. */
  lemma DrainLine(m: Machine, flat: Memory, bufs: seq<Buffer>, s: nat, w: nat)
    requires Draining(m, flat, bufs)
    ensures Draining(m.CleanLine(s, w), flat, bufs)
  {
    var m' := m.CleanLine(s, w);
    if (s, w) in m.lines && m.lines[(s, w)].Valid? && m.lines[(s, w)].dirty {
      LineHits(m, s, w);
      var c := m.BlockOf(m.lines[(s, w)].tag, s);
      assert m.Dirty(c, w);
      forall b: nat, v: nat
        ensures m'.Dirty(b, v) <==> m.Dirty(b, v) && (b, v) != (c, w)
        ensures m'.Dirty(b, v) ==> m'.LineOf(b, v) == m.LineOf(b, v)
      {
        if m.Hits(b, v) && b % m.sets == s && v == w {
          HitBlock(m, b, v);
        }
      }
      forall b: nat | b < BLOCKS && BlockClean(m', b)
        ensures m'.mem[b] == flat[b]
      {
        if b != c {
          forall v: nat ensures !m.Dirty(b, v) { assert !m'.Dirty(b, v); }
        }
      }
    }
  }

  lemma DrainDrop(m: Machine, flat: Memory, bufs: seq<Buffer>, s: nat, w: nat)
    requires Draining(m, flat, bufs)
    requires (s, w) in m.lines && m.lines[(s, w)].Valid? ==> !m.lines[(s, w)].dirty
    ensures Draining(m.DropLine(s, w), flat, bufs)
  {
    var m' := m.DropLine(s, w);
    forall b: nat, v: nat
      ensures m'.Dirty(b, v) == m.Dirty(b, v)
      ensures m'.Dirty(b, v) ==> m'.LineOf(b, v) == m.LineOf(b, v)
    {
    }
    forall b: nat | b < BLOCKS && BlockClean(m', b)
      ensures m'.mem[b] == flat[b]
    {
      forall v: nat ensures !m.Dirty(b, v) { assert !m'.Dirty(b, v); }
    }
  }

  lemma DrainMaintain(m: Machine, flat: Memory, bufs: seq<Buffer>, op: Maintenance, s: nat, w: nat)
    requires Draining(m, flat, bufs) && op != Invalidate
    ensures Draining(m.Maintain(op, s, w), flat, bufs)
  {
    DrainLine(m, flat, bufs, s, w);
    if op == CleanInvalidate {
      DrainDrop(m.CleanLine(s, w), flat, bufs, s, w);
    }
  }

  lemma DrainWrite(m: Machine, flat: Memory, bufs: seq<Buffer>, a: uint32, x: byte)
    requires Draining(m, flat, bufs) && BlockClean(m, a / 32)
    ensures Draining(m.WriteMemory(a, x), SetByte(flat, a, x), bufs)
  {
    var m' := m.WriteMemory(a, x);
    assert forall b: nat, w: nat :: m'.Dirty(b, w) == m.Dirty(b, w);
    forall b: nat | b < BLOCKS && BlockClean(m', b)
      ensures m'.mem[b] == SetByte(flat, a, x)[b]
    {
      forall v: nat ensures !m.Dirty(b, v) { assert !m'.Dirty(b, v); }
    }
  }

  lemma GivenUpDrained(m: Machine, flat: Memory, bufs: seq<Buffer>, a: uint32)
    requires Draining(m, flat, bufs) && GivenUp(bufs, a)
    ensures BlockClean(m, a / 32)
  {
    var i :| 0 <= i < |bufs| && bufs[i].Contains(a) && bufs[i].owner != Cpu;
    BufferBlocks(bufs[i], a);
  }

  lemma DrainEvent(m: Machine, flat: Memory, bufs: seq<Buffer>, e: Event)
    requires Draining(m, flat, bufs) && PermittedDraining(m, bufs, e) && !SwitchesCache(e)
    requires e.SetWay? || e.ByAddress? ==> e.op != Invalidate
    ensures Observes(m, flat, e) && Draining(m.Apply(e), FlatApply(flat, e), bufs)
  {
    hide Draining, GivenUp;
    DrainShape(m, flat, bufs);
    match e
    case Load(a) => DrainRead(m, flat, bufs, a);
    case Store(a, x) => DrainWrite(m, flat, bufs, a, x);
    case DeviceRead(a) =>
      if GivenUp(bufs, a) {
        GivenUpDrained(m, flat, bufs, a);
      }
      DrainRead(m, flat, bufs, a);
    case DeviceWrite(a, x) =>
      if GivenUp(bufs, a) {
        GivenUpDrained(m, flat, bufs, a);
      }
      DrainWrite(m, flat, bufs, a, x);
    case SetWay(op, word) => DrainMaintain(m, flat, bufs, op, word / 32 % 512, word / 0x4000_0000);
    case ByAddress(op, a) =>
      if m.FindWay(a / 32, m.ways).Some? {
        DrainMaintain(m, flat, bufs, op, a / 32 % m.sets, m.FindWay(a / 32, m.ways).value);
      }
    case _ =>
  }

  lemma DrainShape(m: Machine, flat: Memory, bufs: seq<Buffer>)
    requires Draining(m, flat, bufs)
    ensures m.WellFormed() && |flat| == BLOCKS && !m.Enabled()
  {
  }

  lemma DrainRead(m: Machine, flat: Memory, bufs: seq<Buffer>, a: uint32)
    requires Draining(m, flat, bufs) && BlockClean(m, a / 32)
    ensures m.WellFormed() && m.mem[a / 32] == flat[a / 32]
  {
  }

  ghost predicate NoDrops(es: seq<Event>) {
    forall i | 0 <= i < |es| && (es[i].SetWay? || es[i].ByAddress?) :: es[i].op != Invalidate
  }

  lemma {:induction false} DrainRun(m: Machine, flat: Memory, bufs: seq<Buffer>, es: seq<Event>)
    requires Draining(m, flat, bufs) && PermittedRun(m, bufs, true, es) && NoSwitch(es) && NoDrops(es)
    ensures Draining(Run(m, es), FlatRun(flat, es), bufs) && Faithful(m, flat, es)
    ensures OwnersAfter(m, bufs, es) == bufs
    decreases |es|
  {
    hide Machine.Apply, Draining, PermittedDraining, Observes, Machine.Enabled;
    DrainShape(m, flat, bufs);
    if es != [] {
      assert NoSwitch(es[1..]) && NoDrops(es[1..]) && !SwitchesCache(es[0]);
      DrainEvent(m, flat, bufs, es[0]);
      DrainRun(m.Apply(es[0]), FlatApply(flat, es[0]), bufs, es[1..]);
    }
  }

  // ----- calls -----

  /** What a run says about a call: the routine's register writes, in order, with anything asynchronous between. */
  datatype Piece = Piece(op: Op, es: seq<Event>)

  ghost predicate Carried(p: Piece, g: Geometry) {
    Interleaves(p.es, Trace(p.op, g))
  }

  function Events(pieces: seq<Piece>): seq<Event> {
    if pieces == [] then [] else pieces[0].es + Events(pieces[1..])
  }

  /** When a call is allowed; by-address invalidates of a cache in use are permitted command by command. */
  predicate MayCall(op: Op, on: bool, trusted: bool) {
    match op
    case EnableDCache => !on
    case InvalidateDCache => !on
    case _ => WritesBack(op) || op.DisableDCache? ==> on || trusted
  }

  /**
   The invariant between calls.  With the cache off, memory is what everyone sees; `trusted` says that
   no line left over is dirty.
   */
  ghost predicate Settled(m: Machine, flat: Memory, bufs: seq<Buffer>, trusted: bool) {
    if m.Enabled() then Held(m, flat, bufs)
    else Off(m, flat) && |flat| == BLOCKS && Arranged(bufs) && (trusted ==> LinesClean(m))
  }

  /** The call's own events, as opposed to what happens between them. */
  lemma TraceMembers(op: Op, g: Geometry)
    ensures forall e | e in Trace(op, g) && (e.SetWay? || e.ByAddress?) :: e.op == CommandOf(op)
    ensures forall e | e in Trace(op, g) && e.OrCCR? :: op.EnableDCache?
    ensures forall e | e in Trace(op, g) && e.BicCCR? :: op.DisableDCache? && e.bits == CCR_DC
  {
    hide Commands.AddrWords, Commands.SetWayWords;
  }

  lemma CallMembers(op: Op, g: Geometry, es: seq<Event>)
    requires Interleaves(es, Trace(op, g))
    ensures CommandOf(op) == Invalidate ==> OnlyDrops(es)
    ensures CommandOf(op) != Invalidate ==> NoDrops(es)
    ensures !op.EnableDCache? ==> StaysOff(es)
    ensures !op.EnableDCache? && !op.DisableDCache? ==> NoSwitch(es)
  {
    hide Interleaves, Trace;
    TraceMembers(op, g);
    forall i | 0 <= i < |es|
      ensures Async(es[i]) || es[i] in Trace(op, g)
    {
      InterleavesMembers(es, Trace(op, g), es[i]);
    }
  }

  lemma SweepOnly(c: Maintenance, g: Geometry, es: seq<Event>)
    requires Interleaves(es, Sweep(c, g))
    ensures NoSwitch(es) && (c == Invalidate ==> OnlyDrops(es)) && (c != Invalidate ==> NoDrops(es))
  {
    hide Interleaves, Sweep;
    SweepWords(c, g);
    forall i | 0 <= i < |es|
      ensures Async(es[i]) || es[i] in Sweep(c, g)
    {
      InterleavesMembers(es, Sweep(c, g), es[i]);
    }
  }

  lemma SweepWords(c: Maintenance, g: Geometry)
    ensures forall e | e in Sweep(c, g) :: e.SetWay? && e.op == c
  {
    hide Commands.SetWayWords;
  }

  lemma AsyncOnly(es: seq<Event>)
    requires Interleaves(es, [])
    ensures NoSwitch(es)
  {
    forall i | 0 <= i < |es|
      ensures Async(es[i])
    {
      InterleavesMembers(es, [], es[i]);
    }
  }

  /** One more event, then the rest. */
  lemma FaithfulFrom(m: Machine, flat: Memory, es: seq<Event>, i: nat)
    requires m.WellFormed() && |flat| == BLOCKS && i < |es|
    requires Faithful(m, flat, es[..i])
    requires var n, f := Run(m, es[..i]), FlatRun(flat, es[..i]);
             && (n.Enabled() ==> Unique(n)) && Observes(n, f, es[i])
             && Faithful(n.Apply(es[i]), FlatApply(f, es[i]), es[i + 1..])
    ensures Faithful(m, flat, es)
    ensures Run(m, es) == Run(Run(m, es[..i]).Apply(es[i]), es[i + 1..])
    ensures FlatRun(flat, es) == FlatRun(FlatApply(FlatRun(flat, es[..i]), es[i]), es[i + 1..])
  {
    hide Machine.Apply, Observes, Unique, Machine.Enabled, FlatApply;
    TakeDrop(es, i);
    Transparency.Compose(m, flat, es, i);
  }

  lemma OwnersFrom(m: Machine, bufs: seq<Buffer>, draining: bool, es: seq<Event>, i: nat)
    requires m.WellFormed() && i < |es| && PermittedRun(m, bufs, draining, es) && SwitchesCache(es[i])
    ensures PermittedRun(m, bufs, draining, es[..i])
    ensures var n, owners := Run(m, es[..i]), OwnersAfter(m, bufs, es[..i]);
            && PermittedRun(n.Apply(es[i]), owners, draining, es[i + 1..])
            && OwnersAfter(m, bufs, es) == OwnersAfter(n.Apply(es[i]), owners, es[i + 1..])
  {
    hide Machine.Apply, Machine.Enabled, Permitted;
    PermittedSplit(m, bufs, draining, es, i);
    TakeDrop(es, i);
    NobodyMoves(OwnersAfter(m, bufs, es[..i]), es[i]);
  }

  lemma HeldUnique(m: Machine, flat: Memory, bufs: seq<Buffer>)
    requires Held(m, flat, bufs)
    ensures Unique(m)
  {
  }

  /** With no valid line, memory is what everyone sees. */
  lemma DrainedMemory(m: Machine, flat: Memory, bufs: seq<Buffer>)
    requires Draining(m, flat, bufs) && LinesInvalid(m)
    ensures Off(m, flat) && LinesClean(m)
  {
    forall b: nat | b < BLOCKS
      ensures m.mem[b] == flat[b]
    {
      assert BlockClean(m, b);
    }
  }

  lemma DrainedSettled(m: Machine, flat: Memory, bufs: seq<Buffer>)
    requires Draining(m, flat, bufs) && LinesInvalid(m)
    ensures Settled(m, flat, bufs, true) && !m.Enabled()
  {
    DrainedMemory(m, flat, bufs);
  }

  /** SCB_DisableDCache on a cache in use, with accesses inside it. */
  lemma {:induction false} DisableCall(m: Machine, flat: Memory, bufs: seq<Buffer>, g: Geometry, es: seq<Event>)
    requires Held(m, flat, bufs) && PermittedRun(m, bufs, true, es)
    requires Describes(g, m) && Fits(g) && Interleaves(es, Trace(DisableDCache, g))
    ensures Settled(Run(m, es), FlatRun(flat, es), OwnersAfter(m, bufs, es), true) && !Run(m, es).Enabled()
    ensures Faithful(m, flat, es)
  {
    hide Machine.Apply, Machine.Enabled, PermittedRun, Held, Draining, Sweep, Settled, Interleaves;
    HeldShape(m, flat, bufs);
    var c := BicCCR(CCR_DC);
    assert Trace(DisableDCache, g) == [] + [c] + Sweep(CleanInvalidate, g);
    var i := SplitAt(es, [], c, Sweep(CleanInvalidate, g));
    AsyncOnly(es[..i]);
    OwnersFrom(m, bufs, true, es, i);
    OnRun(m, flat, bufs, true, es[..i]);
    var n, flat', bufs' := Run(m, es[..i]), FlatRun(flat, es[..i]), OwnersAfter(m, bufs, es[..i]);
    HeldUnique(n, flat', bufs');
    HeldDrains(n, flat', bufs');
    DrainShape(n.Apply(c), flat', bufs');
    SweepOnly(CleanInvalidate, g, es[i + 1..]);
    DrainRun(n.Apply(c), flat', bufs', es[i + 1..]);
    SweepEmpties(n.Apply(c), es[i + 1..], CleanInvalidate, g);
    FaithfulFrom(m, flat, es, i);
    DrainedSettled(Run(m, es), FlatRun(flat, es), bufs');
  }

  /** An empty cache switched on holds nothing stale, whoever has the buffers. */
  lemma EmptyHeld(m: Machine, flat: Memory, bufs: seq<Buffer>)
    requires Off(m, flat) && |flat| == BLOCKS && LinesInvalid(m) && Arranged(bufs)
    ensures Held(m.Apply(OrCCR(CCR_DC)), flat, bufs)
  {
    var o := m.Apply(OrCCR(CCR_DC));
    EnableBit(m.ccr, 16);
    InvalidMeansSynced(o);
    assert NoDirtyIn(o, Stale(bufs));
    MoreStale(o, flat, {}, Stale(bufs));
    assert {} + Stale(bufs) == Stale(bufs);
  }

  /** SCB_EnableDCache on a cache that is off, with accesses inside it. */
  lemma {:induction false} EnableCall(m: Machine, flat: Memory, bufs: seq<Buffer>, g: Geometry, es: seq<Event>)
    requires Off(m, flat) && |flat| == BLOCKS && Arranged(bufs) && PermittedRun(m, bufs, false, es)
    requires Describes(g, m) && Fits(g) && Interleaves(es, Trace(EnableDCache, g))
    ensures Held(Run(m, es), FlatRun(flat, es), OwnersAfter(m, bufs, es)) && Faithful(m, flat, es)
  {
    hide Machine.Apply, Machine.Enabled, PermittedRun, Held, Sweep, Interleaves, LinesClean, LinesInvalid, Arranged;
    var c := OrCCR(CCR_DC);
    assert Trace(EnableDCache, g) == Sweep(Invalidate, g) + [c] + [];
    var i := SplitAt(es, Sweep(Invalidate, g), c, []);
    SweepOnly(Invalidate, g, es[..i]);
    AsyncOnly(es[i + 1..]);
    OwnersFrom(m, bufs, false, es, i);
    OffAnyRun(m, flat, es[..i]);
    OffOwners(m, flat, bufs, es[..i]);
    SweepEmpties(m, es[..i], Invalidate, g);
    var n, flat' := Run(m, es[..i]), FlatRun(flat, es[..i]);
    EmptyHeld(n, flat', bufs);
    OnRun(n.Apply(c), flat', bufs, false, es[i + 1..]);
    FaithfulFrom(m, flat, es, i);
  }

  /** Any other call while the cache is off. */
  lemma OffCall(m: Machine, flat: Memory, bufs: seq<Buffer>, trusted: bool, op: Op, g: Geometry, es: seq<Event>)
    requires Settled(m, flat, bufs, trusted) && !m.Enabled() && MayCall(op, false, trusted) && !op.EnableDCache?
    requires Describes(g, m) && Fits(g) && Interleaves(es, Trace(op, g))
    ensures Off(Run(m, es), FlatRun(flat, es)) && Faithful(m, flat, es) && OwnersAfter(m, bufs, es) == bufs
    ensures Transparency.NextTrusted(op, trusted) ==> LinesClean(Run(m, es))
  {
    hide Machine.Apply, Interleaves, Trace, LinesClean, LinesInvalid;
    CallMembers(op, g, es);
    if !WritesBack(op) && !op.DisableDCache? && CommandOf(op) != Invalidate {
      NoCommands(op, g, es);
    }
    OffAnyRun(m, flat, es);
    OffOwners(m, flat, bufs, es);
    if op.InvalidateDCache? {
      SweepIs(op, g);
      SweepEmpties(m, es, Invalidate, g);
      InvalidIsClean(Run(m, es));
    }
  }

  lemma SweepIs(op: Op, g: Geometry)
    requires op.InvalidateDCache?
    ensures Trace(op, g) == Sweep(Invalidate, g)
  {
  }

  lemma InvalidIsClean(m: Machine)
    requires LinesInvalid(m)
    ensures LinesClean(m)
  {
  }

  /** A plain access brings no command with it. */
  lemma NoCommands(op: Op, g: Geometry, es: seq<Event>)
    requires Interleaves(es, Trace(op, g))
    requires !WritesBack(op) && !op.DisableDCache? && CommandOf(op) != Invalidate
    ensures OnlyDrops(es)
  {
    forall i | 0 <= i < |es|
      ensures Async(es[i])
    {
      InterleavesMembers(es, Trace(op, g), es[i]);
    }
  }

  // ----- the configuration register, and what a clean keeps -----

  lemma {:induction false} CcrKept(m: Machine, es: seq<Event>)
    requires m.WellFormed() && NoSwitch(es)
    ensures Run(m, es).ccr == m.ccr
    decreases |es|
  {
    if es != [] {
      assert NoSwitch(es[1..]) && !SwitchesCache(es[0]);
      CcrKept(m.Apply(es[0]), es[1..]);
    }
  }

  /** The other 31 bits. */
  ghost predicate OnlyDcBit(before: uint32, after: uint32) {
    forall i: nat | i != 16 :: Bit(after, i) == Bit(before, i)
  }

  /**
   Whatever accesses, permitted or not, fall inside: enabling sets the enable bit, disabling clears it,
   neither touches another bit of CCR, and no other routine touches CCR at all.
   */
  lemma {:induction false} CallCcr(m: Machine, op: Op, g: Geometry, es: seq<Event>)
    requires m.WellFormed() && Interleaves(es, Trace(op, g))
    ensures op.EnableDCache? ==> Run(m, es).Enabled() && OnlyDcBit(m.ccr, Run(m, es).ccr)
    ensures op.DisableDCache? ==> !Run(m, es).Enabled() && OnlyDcBit(m.ccr, Run(m, es).ccr)
    ensures !op.EnableDCache? && !op.DisableDCache? ==> Run(m, es).ccr == m.ccr
  {
    hide Interleaves, Sweep, OnlyDcBit;
    if op.EnableDCache? {
      var c := OrCCR(CCR_DC);
      assert Trace(op, g) == Sweep(Invalidate, g) + [c] + [];
      var i := SplitAt(es, Sweep(Invalidate, g), c, []);
      SweepOnly(Invalidate, g, es[..i]);
      AsyncOnly(es[i + 1..]);
      SwitchCcr(m, es, i);
    } else if op.DisableDCache? {
      var c := BicCCR(CCR_DC);
      assert Trace(op, g) == [] + [c] + Sweep(CleanInvalidate, g);
      var i := SplitAt(es, [], c, Sweep(CleanInvalidate, g));
      AsyncOnly(es[..i]);
      SweepOnly(CleanInvalidate, g, es[i + 1..]);
      SwitchCcr(m, es, i);
    } else {
      CallMembers(op, g, es);
      CcrKept(m, es);
    }
  }

  lemma SwitchCcr(m: Machine, es: seq<Event>, i: nat)
    requires m.WellFormed() && i < |es| && NoSwitch(es[..i]) && NoSwitch(es[i + 1..])
    requires SwitchesCache(es[i]) && es[i].bits == CCR_DC
    ensures Run(m, es).Enabled() == es[i].OrCCR? && OnlyDcBit(m.ccr, Run(m, es).ccr)
  {
    CcrKept(m, es[..i]);
    var n := Run(m, es[..i]);
    CcrKept(n.Apply(es[i]), es[i + 1..]);
    RunAround(m, es, i);
    var o := n.Apply(es[i]);
    EnableBit(n.ccr, 16);
    assert o.Enabled() == es[i].OrCCR?;
    forall j: nat
      ensures j != 16 ==> Bit(o.ccr, j) == Bit(n.ccr, j)
    {
      EnableBit(n.ccr, j);
    }
    assert Run(m, es).ccr == o.ccr;
  }

  /**
   A clean takes no line out of the cache: with no fill and no eviction every line stays, whatever accesses
   fall inside, and without stores it keeps its data.
   */
  lemma {:induction false} CleanKeepsLines(m: Machine, op: Op, g: Geometry, es: seq<Event>)
    requires m.WellFormed() && Interleaves(es, Trace(op, g)) && (op.CleanDCache? || op.CleanDCacheByAddr?)
    requires forall i | 0 <= i < |es| :: !Hardware(es[i])
    ensures SameHits(m, Run(m, es))
    ensures (forall i | 0 <= i < |es| :: !es[i].Store?) ==> SameData(m, Run(m, es))
  {
    hide Interleaves, Trace, SameHits, SameData;
    TraceMembers(op, g);
    forall i | 0 <= i < |es|
      ensures es[i].SetWay? || es[i].ByAddress? ==> es[i].op == Clean
    {
      InterleavesMembers(es, Trace(op, g), es[i]);
    }
    LinesKept(m, es);
  }

  lemma ReturnedArranged(op: Op, es: seq<Event>, bufs: seq<Buffer>)
    requires Arranged(bufs)
    ensures Arranged(Returned(op, es, bufs))
    ensures op.EnableDCache? || op.DisableDCache? ==> Returned(op, es, bufs) == bufs
  {
    StaysArranged(bufs, Returned(op, es, bufs));
  }

  /**
   Any call, begun with the cache on or off, with permitted accesses anywhere inside it: every reader
   sees the flat memory, and the invariant holds again when it returns.
   */
  lemma {:induction false} CallSettled(m: Machine, flat: Memory, bufs: seq<Buffer>, trusted: bool, op: Op, g: Geometry,
                                       es: seq<Event>)
    requires Settled(m, flat, bufs, trusted) && MayCall(op, m.Enabled(), trusted)
    requires PermittedRun(m, bufs, op.DisableDCache? && m.Enabled(), es)
    requires Describes(g, m) && Fits(g) && Interleaves(es, Trace(op, g))
    ensures Settled(Run(m, es), FlatRun(flat, es), Returned(op, es, OwnersAfter(m, bufs, es)),
                    Transparency.NextTrusted(op, trusted))
    ensures Run(m, es).Enabled() == Transparency.NextOn(op, m.Enabled()) && Faithful(m, flat, es)
  {
    hide Machine.Apply, Interleaves, Trace, PermittedRun, Held, LinesClean, Arranged, Fits, Machine.Enabled;
    SettledShape(m, flat, bufs, trusted);
    var bufs' := OwnersAfter(m, bufs, es);
    if m.Enabled() {
      if op.DisableDCache? {
        DisableCall(m, flat, bufs, g, es);
        SettledShape(Run(m, es), FlatRun(flat, es), bufs', true);
      } else {
        CallMembers(op, g, es);
        CallHeld(m, flat, bufs, op, g, es);
        HeldShape(Run(m, es), FlatRun(flat, es), Returned(op, es, bufs'));
      }
    } else if op.EnableDCache? {
      EnableCall(m, flat, bufs, g, es);
      HeldShape(Run(m, es), FlatRun(flat, es), bufs');
    } else {
      OffCall(m, flat, bufs, trusted, op, g, es);
    }
    if !m.Enabled() || op.DisableDCache? {
      ReturnedArranged(op, es, bufs');
    }
  }

  lemma SettledShape(m: Machine, flat: Memory, bufs: seq<Buffer>, trusted: bool)
    requires Settled(m, flat, bufs, trusted)
    ensures m.WellFormed() && |flat| == BLOCKS && Arranged(bufs)
  {
  }

  // ----- whole runs -----

  /** Every call allowed when it is made, and every event permitted when it happens. */
  ghost predicate Disciplined(m: Machine, bufs: seq<Buffer>, trusted: bool, pieces: seq<Piece>)
    requires m.WellFormed()
    decreases |pieces|
  {
    pieces == [] ||
    var p := pieces[0];
    && MayCall(p.op, m.Enabled(), trusted)
    && PermittedRun(m, bufs, p.op.DisableDCache? && m.Enabled(), p.es)
    && Disciplined(Run(m, p.es), Returned(p.op, p.es, OwnersAfter(m, bufs, p.es)),
                   Transparency.NextTrusted(p.op, trusted), pieces[1..])
  }

  ghost predicate AllCarried(pieces: seq<Piece>, g: Geometry) {
    forall i | 0 <= i < |pieces| :: Carried(pieces[i], g)
  }

  /**
   Start with the cache on and coherent, or off with memory as everyone's truth, and any disjoint aligned
   buffers.  Along any disciplined run, with the accesses of the program, of interrupt handlers and of
   devices, and any line fills and evictions, falling anywhere between and inside the routines, every CPU
   load and every device read returns the last byte written there by either side, and while the cache is
   on no block sits in two ways.
   */
  lemma {:induction false} Handover(m: Machine, flat: Memory, bufs: seq<Buffer>, trusted: bool, pieces: seq<Piece>,
                                    g: Geometry)
    requires Settled(m, flat, bufs, trusted) && Describes(g, m) && Fits(g)
    requires AllCarried(pieces, g)
    requires m.WellFormed() && Disciplined(m, bufs, trusted, pieces)
    ensures |flat| == BLOCKS && Faithful(m, flat, Events(pieces))
    decreases |pieces|
  {
    hide Machine.Apply, Settled, PermittedRun, MayCall, Fits, Interleaves, Run, FlatRun;
    SettledShape(m, flat, bufs, trusted);
    if pieces == [] {
      SettledUnique(m, flat, bufs, trusted);
    } else {
      var p := pieces[0];
      assert Carried(p, g) && AllCarried(pieces[1..], g);
      CallSettled(m, flat, bufs, trusted, p.op, g, p.es);
      Handover(Run(m, p.es), FlatRun(flat, p.es), Returned(p.op, p.es, OwnersAfter(m, bufs, p.es)),
               Transparency.NextTrusted(p.op, trusted), pieces[1..], g);
      FaithfulConcat(m, flat, p.es, Events(pieces[1..]));
    }
  }

  lemma SettledUnique(m: Machine, flat: Memory, bufs: seq<Buffer>, trusted: bool)
    requires Settled(m, flat, bufs, trusted)
    ensures m.WellFormed() && |flat| == BLOCKS && Faithful(m, flat, [])
  {
  }

  // ----- transparency with interrupts -----

  ghost predicate CpuOnly(es: seq<Event>) {
    forall i | 0 <= i < |es| :: !es[i].DeviceRead? && !es[i].DeviceWrite?
  }

  /** Accesses past the cache keep off blocks that a dirty line still holds. */
  ghost predicate SparesDirty(m: Machine, es: seq<Event>)
    requires m.WellFormed()
    decreases |es|
  {
    es == [] ||
    (((es[0].Load? || es[0].Store?) && !m.Enabled() ==> BlockClean(m, es[0].addr / 32))
     && SparesDirty(m.Apply(es[0]), es[1..]))
  }

  /** So it is inside every call that disables a cache in use. */
  ghost predicate DisablesWithCare(m: Machine, pieces: seq<Piece>)
    requires m.WellFormed()
    decreases |pieces|
  {
    pieces == [] ||
    ((pieces[0].op.DisableDCache? && m.Enabled() ==> SparesDirty(m, pieces[0].es))
     && DisablesWithCare(Run(m, pieces[0].es), pieces[1..]))
  }

  function Calls(pieces: seq<Piece>): (ops: seq<Op>)
    ensures |ops| == |pieces| && forall i | 0 <= i < |ops| :: ops[i] == pieces[i].op
  {
    seq(|pieces|, i requires 0 <= i < |pieces| => pieces[i].op)
  }

  /** Lines are discarded only while the cache is off. */
  ghost predicate DropsOff(m: Machine, es: seq<Event>)
    requires m.WellFormed()
    decreases |es|
  {
    es == [] ||
    ((m.Enabled() && (es[0].SetWay? || es[0].ByAddress?) ==> es[0].op != Invalidate)
     && DropsOff(m.Apply(es[0]), es[1..]))
  }

  lemma {:induction false} CpuOnlyPermitted(m: Machine, draining: bool, es: seq<Event>)
    requires m.WellFormed() && CpuOnly(es) && DropsOff(m, es) && (draining ==> SparesDirty(m, es))
    ensures PermittedRun(m, [], draining, es)
    decreases |es|
  {
    hide Machine.Apply, Machine.Enabled, BlockClean;
    if es != [] {
      assert CpuOnly(es[1..]) && After([], es[0]) == [];
      CpuOnlyPermitted(m.Apply(es[0]), draining, es[1..]);
    }
  }

  lemma {:induction false} NoDropsOff(m: Machine, es: seq<Event>)
    requires m.WellFormed() && NoDrops(es)
    ensures DropsOff(m, es)
    decreases |es|
  {
    hide Machine.Apply, Machine.Enabled;
    if es != [] {
      assert NoDrops(es[1..]);
      NoDropsOff(m.Apply(es[0]), es[1..]);
    }
  }

  lemma StaysOffStep(m: Machine, e: Event)
    requires m.WellFormed() && !m.Enabled() && !e.OrCCR? && (e.BicCCR? ==> e.bits == CCR_DC)
    ensures !m.Apply(e).Enabled()
  {
    EnableBit(m.ccr, 16);
  }

  lemma {:induction false} StaysOffDrops(m: Machine, es: seq<Event>, fs: seq<Event>)
    requires m.WellFormed() && !m.Enabled() && StaysOff(es) && DropsOff(Run(m, es), fs)
    ensures DropsOff(m, es + fs)
    decreases |es|
  {
    hide Machine.Apply, Machine.Enabled;
    if es == [] {
      assert es + fs == fs;
    } else {
      assert (es + fs)[1..] == es[1..] + fs && StaysOff(es[1..]);
      StaysOffStep(m, es[0]);
      StaysOffDrops(m.Apply(es[0]), es[1..], fs);
    }
  }

  /** A legal call discards lines only while the cache is off. */
  lemma CallDropsOff(m: Machine, op: Op, g: Geometry, es: seq<Event>, trusted: bool)
    requires m.WellFormed() && Transparency.Allowed(op, m.Enabled(), trusted) && Interleaves(es, Trace(op, g))
    ensures DropsOff(m, es)
  {
    hide Machine.Apply, Machine.Enabled, Interleaves, DropsOff, Sweep, Run;
    CallMembers(op, g, es);
    if CommandOf(op) != Invalidate {
      NoDropsOff(m, es);
    } else if !op.EnableDCache? {
      NothingDropped(Run(m, es));
      StaysOffDrops(m, es, []);
      assert es + [] == es;
    } else {
      EnableDropsOff(m, g, es);
    }
  }

  lemma NothingDropped(m: Machine)
    requires m.WellFormed()
    ensures DropsOff(m, [])
  {
  }

  lemma EnableDropsOff(m: Machine, g: Geometry, es: seq<Event>)
    requires m.WellFormed() && !m.Enabled() && Interleaves(es, Trace(EnableDCache, g))
    ensures DropsOff(m, es)
  {
    hide Machine.Apply, Machine.Enabled, Interleaves, DropsOff, Sweep, Run;
    var c := OrCCR(CCR_DC);
    assert Trace(EnableDCache, g) == Sweep(Invalidate, g) + [c] + [];
    var i := SplitAt(es, Sweep(Invalidate, g), c, []);
    SweepOnly(Invalidate, g, es[..i]);
    forall j | i + 1 <= j < |es|
      ensures Async(es[j])
    {
      assert es[j] in es[i + 1..];
      InterleavesMembers(es[i + 1..], [], es[j]);
    }
    NoDropsOff(Run(m, es[..i]), es[i..]);
    StaysOffDrops(m, es[..i], es[i..]);
    TakeDrop(es, i);
  }

  ghost predicate AllCpuOnly(pieces: seq<Piece>) {
    forall i | 0 <= i < |pieces| :: CpuOnly(pieces[i].es)
  }

  lemma {:induction false} LegalDisciplined(m: Machine, flat: Memory, trusted: bool, pieces: seq<Piece>, g: Geometry)
    requires Settled(m, flat, [], trusted) && Describes(g, m) && Fits(g)
    requires m.WellFormed() && Transparency.Legal(Calls(pieces), m.Enabled(), trusted)
    requires AllCarried(pieces, g) && AllCpuOnly(pieces) && DisablesWithCare(m, pieces)
    ensures Disciplined(m, [], trusted, pieces)
    decreases |pieces|
  {
    hide Machine.Apply, Settled, PermittedRun, Fits, Interleaves, Run, FlatRun, Machine.Enabled, SparesDirty, CpuOnly;
    SettledShape(m, flat, [], trusted);
    if pieces != [] {
      var p := pieces[0];
      assert Carried(p, g) && AllCarried(pieces[1..], g) && CpuOnly(p.es) && AllCpuOnly(pieces[1..]);
      assert Calls(pieces)[1..] == Calls(pieces[1..]);
      CallDropsOff(m, p.op, g, p.es, trusted);
      CpuOnlyPermitted(m, p.op.DisableDCache? && m.Enabled(), p.es);
      CallSettled(m, flat, [], trusted, p.op, g, p.es);
      assert Returned(p.op, p.es, OwnersAfter(m, [], p.es)) == [];
      LegalDisciplined(Run(m, p.es), FlatRun(flat, p.es), Transparency.NextTrusted(p.op, trusted), pieces[1..], g);
    }
  }

  /**
   Transparency with interrupts: from a cache that is off, any legal program reads what a flat memory would
   return at every load, with interrupt handlers' loads and stores at any position of any routine.  Only
   while a cache that was on is being disabled must they keep off blocks that a dirty line still holds.
   */
  lemma {:induction false} InterruptTransparency(m: Machine, pieces: seq<Piece>, g: Geometry)
    requires m.WellFormed() && !m.Enabled() && Describes(g, m) && Fits(g)
    requires Transparency.Legal(Calls(pieces), false, LinesClean(m))
    requires AllCarried(pieces, g) && AllCpuOnly(pieces) && DisablesWithCare(m, pieces)
    ensures Faithful(m, m.mem, Events(pieces))
  {
    LegalDisciplined(m, m.mem, LinesClean(m), pieces, g);
    Handover(m, m.mem, [], LinesClean(m), pieces, g);
  }
}
