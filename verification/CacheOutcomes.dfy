/**
 What each whole-cache routine leaves behind, however the hardware's fills and evictions fall
 between its commands, and when starting from untrusted lines is fatal.
 */
module CacheOutcomes {
  import opened Words
  import opened CacheModel
  import opened CacheCoherence
  import opened CacheRuns
  import opened CachePrograms
  import Transparency = CacheTransparency

  /** The coherent view as a memory of its own. */
  function Snapshot(m: Machine): (flat: Memory)
    requires m.WellFormed()
    ensures |flat| == BLOCKS && forall b | 0 <= b < BLOCKS :: flat[b] == m.View(b)
  {
    seq(BLOCKS, b requires 0 <= b < BLOCKS => m.View(b))
  }

  lemma SnapshotSynced(m: Machine)
    requires m.WellFormed() && Coherent(m, {})
    ensures Synced(m, Snapshot(m), {})
  {
  }

  lemma SyncedSnapshot(m: Machine, flat: Memory)
    requires Synced(m, flat, {})
    ensures Snapshot(m) == flat
  {
    forall b | 0 <= b < BLOCKS
      ensures Snapshot(m)[b] == flat[b]
    {
      assert Value(m, {}, b) == flat[b];
    }
  }

  /** SCB_CleanDCache: the same view, nothing dirty, memory equal to the view. */
  lemma {:induction false} CleanOutcome(m: Machine, g: Geometry, es: seq<Event>)
    requires m.WellFormed() && Coherent(m, {}) && Describes(g, m) && Fits(g)
    requires Program(es) == Trace(CleanDCache, g)
    ensures var m' := Run(m, es);
            && LinesClean(m') && m'.mem == Snapshot(m) && Snapshot(m') == Snapshot(m)
            && Coherent(m', {}) && m'.ccr == m.ccr
  {
    SnapshotSynced(m);
    SweepMembers(es, Clean, Sweep(Clean, g));
    QuietRun(m, Snapshot(m), {}, es);
    SweepEffect(m, es, Clean, g);
    CleanMeansMemory(Run(m, es), Snapshot(m));
    SyncedSnapshot(Run(m, es), Snapshot(m));
  }

  /** SCB_CleanInvalidateDCache: moreover nothing valid, unless the hardware filled lines meanwhile. */
  lemma {:induction false} CleanInvalidateOutcome(m: Machine, g: Geometry, es: seq<Event>)
    requires m.WellFormed() && Coherent(m, {}) && Describes(g, m) && Fits(g)
    requires Program(es) == Trace(CleanInvalidateDCache, g)
    ensures var m' := Run(m, es);
            && LinesClean(m') && m'.mem == Snapshot(m) && Snapshot(m') == Snapshot(m)
            && Coherent(m', {}) && m'.ccr == m.ccr
            && (!m.Enabled() || NoFills(es) ==> LinesInvalid(m'))
  {
    SnapshotSynced(m);
    SweepMembers(es, CleanInvalidate, Sweep(CleanInvalidate, g));
    QuietRun(m, Snapshot(m), {}, es);
    SweepEffect(m, es, CleanInvalidate, g);
    CleanMeansMemory(Run(m, es), Snapshot(m));
    SyncedSnapshot(Run(m, es), Snapshot(m));
  }

  /** SCB_DisableDCache: off, nothing valid, and memory equal to the old view. */
  lemma {:induction false} DisableOutcome(m: Machine, g: Geometry, es: seq<Event>)
    requires m.WellFormed() && Coherent(m, {}) && Describes(g, m) && Fits(g)
    requires Program(es) == Trace(DisableDCache, g)
    ensures var m' := Run(m, es);
            && !m'.Enabled() && LinesInvalid(m') && m'.mem == Snapshot(m)
            && forall i: nat | i != 16 :: Bit(m'.ccr, i) == Bit(m.ccr, i)
  {
    SnapshotSynced(m);
    Transparency.DisableOn(m, Snapshot(m), g, es);
  }

  // ----- the routines that discard -----

  /** A block ends up with its old cached or its old memory contents. */
  ghost predicate OldContents(m: Machine, m': Machine)
    requires m.WellFormed() && m'.WellFormed()
  {
    forall b: nat | b < BLOCKS ::
      (m'.mem[b] == m.mem[b] || m'.mem[b] == m.View(b)) && (m'.View(b) == m.mem[b] || m'.View(b) == m.View(b))
  }

  lemma CleanLineContents(m: Machine, s: nat, w: nat)
    requires m.WellFormed() && Coherent(m, {})
    ensures Coherent(m.CleanLine(s, w), {}) && OldContents(m, m.CleanLine(s, w))
  {
    SnapshotSynced(m);
    CleanLineSynced(m, Snapshot(m), {}, s, w);
    SyncedSnapshot(m.CleanLine(s, w), Snapshot(m));
    if (s, w) in m.lines && m.lines[(s, w)].Valid? && m.lines[(s, w)].dirty {
      LineHits(m, s, w);
      ViewOfHit(m, m.BlockOf(m.lines[(s, w)].tag, s), w);
    }
    assert forall b: nat | b < BLOCKS :: m.CleanLine(s, w).View(b) == Snapshot(m.CleanLine(s, w))[b];
  }

  /** Dropping a line, dirty or not, uncovers memory's contents for its block only. */
  lemma DropLineContents(m: Machine, s: nat, w: nat)
    requires m.WellFormed() && Coherent(m, {})
    ensures Coherent(m.DropLine(s, w), {}) && OldContents(m, m.DropLine(s, w))
  {
    var m' := m.DropLine(s, w);
    assert forall b: nat, v: nat | m'.Hits(b, v) :: m.Hits(b, v) && m.LineOf(b, v) == m'.LineOf(b, v);
    assert Unique(m');
    forall b: nat | b < BLOCKS
      ensures m'.View(b) == m.mem[b] || m'.View(b) == m.View(b)
    {
      if v: nat :| m'.Hits(b, v) {
        ViewOfHit(m, b, v);
        ViewOfHit(m', b, v);
      } else {
        ViewOfMiss(m', b);
      }
    }
  }

  lemma FillLineContents(m: Machine, b: nat, w: nat)
    requires m.WellFormed() && Coherent(m, {}) && b < BLOCKS && w < m.ways && forall v: nat :: !m.Hits(b, v)
    ensures Coherent(m.FillLine(b, w), {}) && OldContents(m, m.FillLine(b, w))
  {
    SnapshotSynced(m);
    FillLineSynced(m, Snapshot(m), {}, b, w);
    SyncedSnapshot(m.FillLine(b, w), Snapshot(m));
    CleanLineContents(m, b % m.sets, w);
    assert m.FillLine(b, w).mem == m.CleanLine(b % m.sets, w).mem;
    assert forall c: nat | c < BLOCKS :: m.FillLine(b, w).View(c) == Snapshot(m.FillLine(b, w))[c];
  }

  lemma PassiveContents(m: Machine, e: Event)
    requires m.WellFormed() && Coherent(m, {}) && Passive(e)
    ensures Coherent(m.Apply(e), {}) && OldContents(m, m.Apply(e))
  {
    match e
    case SetWay(op, word) => MaintainContents(m, op, word / 32 % 512, word / 0x4000_0000);
    case ByAddress(op, a) =>
      if m.FindWay(a / 32, m.ways).Some? {
        MaintainContents(m, op, a / 32 % m.sets, m.FindWay(a / 32, m.ways).value);
      }
    case Fill(b, w) =>
      if m.Enabled() && b < BLOCKS && w < m.ways && m.FindWay(b, m.ways).None? {
        assert forall v: nat :: !m.Hits(b, v);
        FillLineContents(m, b, w);
      }
    case Evict(s, w) => MaintainContents(m, CleanInvalidate, s, w);
  }

  lemma MaintainContents(m: Machine, op: Maintenance, s: nat, w: nat)
    requires m.WellFormed() && Coherent(m, {})
    ensures Coherent(m.Maintain(op, s, w), {}) && OldContents(m, m.Maintain(op, s, w))
  {
    match op
    case Invalidate => DropLineContents(m, s, w);
    case Clean => CleanLineContents(m, s, w);
    case CleanInvalidate =>
      CleanLineContents(m, s, w);
      DropLineContents(m.CleanLine(s, w), s, w);
  }

  lemma {:induction false} PassiveRunContents(m: Machine, es: seq<Event>)
    requires m.WellFormed() && Coherent(m, {}) && AllPassive(es)
    ensures Coherent(Run(m, es), {}) && OldContents(m, Run(m, es))
    decreases |es|
  {
    if es != [] {
      PassiveContents(m, es[0]);
      assert AllPassive(es[1..]);
      PassiveRunContents(m.Apply(es[0]), es[1..]);
    }
  }

  /**
   SCB_InvalidateDCache on a cache in use: nothing dirty is left, the view is memory, and each block
   holds either what the program last stored or what memory held.  With no hardware activity it is
   always the latter, so the program's view survives exactly when memory was up to date already.
   */
  lemma {:induction false} InvalidateOutcome(m: Machine, g: Geometry, es: seq<Event>)
    requires m.WellFormed() && Coherent(m, {}) && Describes(g, m) && Fits(g)
    requires Program(es) == Trace(InvalidateDCache, g)
    ensures var m' := Run(m, es);
            && LinesClean(m') && m'.mem == Snapshot(m') && OldContents(m, m')
            && (es == Trace(InvalidateDCache, g) ==>
                  LinesInvalid(m') && m'.mem == m.mem && (Snapshot(m') == Snapshot(m) <==> m.mem == Snapshot(m)))
  {
    var m' := Run(m, es);
    SweepMembers(es, Invalidate, Sweep(Invalidate, g));
    PassiveRunContents(m, es);
    SnapshotSynced(m');
    SweepEffect(m, es, Invalidate, g);
    CleanMeansMemory(m', Snapshot(m'));
    if es == Trace(InvalidateDCache, g) {
      assert NoFills(es);
      InvalidatesKeepMemory(m, es);
    }
  }

  lemma {:induction false} InvalidatesKeepMemory(m: Machine, es: seq<Event>)
    requires m.WellFormed()
    requires forall i | 0 <= i < |es| ::
               es[i].OrCCR? || ((es[i].SetWay? || es[i].ByAddress?) && es[i].op == Invalidate)
    ensures Run(m, es).mem == m.mem
    decreases |es|
  {
    if es != [] {
      InvalidatesKeepMemory(m.Apply(es[0]), es[1..]);
    }
  }

  /** Setting the enable bit, with hardware activity around it. */
  lemma SwitchOn(m: Machine, es: seq<Event>)
    requires m.WellFormed() && Coherent(m, {}) && LinesClean(m) && Program(es) == [OrCCR(CCR_DC)]
    ensures var m' := Run(m, es);
            m'.Enabled() && Coherent(m', {}) && LinesClean(m') && m'.mem == Snapshot(m) && Snapshot(m') == Snapshot(m)
  {
    var e := OrCCR(CCR_DC);
    var i := Transparency.IsolateOne(es, e);
    SnapshotSynced(m);
    QuietClean(m, Snapshot(m), es[..i]);
    var n := Run(m, es[..i]);
    EnableBit(n.ccr, 16);
    Transparency.SyncedIgnoresCcr(n, n.Apply(e), Snapshot(m), {});
    QuietClean(n.Apply(e), Snapshot(m), es[i + 1..]);
    RunAround(m, es, i);
    SyncedSnapshot(Run(m, es), Snapshot(m));
    CleanMeansMemory(Run(m, es), Snapshot(m));
  }

  lemma QuietClean(m: Machine, flat: Memory, es: seq<Event>)
    requires Synced(m, flat, {}) && LinesClean(m) && Transparency.AllHardware(es)
    ensures Synced(Run(m, es), flat, {}) && LinesClean(Run(m, es)) && Run(m, es).ccr == m.ccr
  {
    QuietRun(m, flat, {}, es);
    PassiveKeeps(m, es);
    forall k | k in m.lines
      ensures Run(m, es).lines[k].Valid? ==> !Run(m, es).lines[k].dirty
    {
      StaysClean(m, es, k);
    }
  }

  /**
   SCB_EnableDCache called while the cache is already on: it stays on, and block by block what the cache
   held and had not written back is discarded, unless the hardware happened to write it back first; with
   no hardware activity all of it is.
   */
  lemma {:induction false} EnableWhileOnOutcome(m: Machine, g: Geometry, es: seq<Event>)
    requires m.WellFormed() && Coherent(m, {}) && Describes(g, m) && Fits(g)
    requires Program(es) == Trace(EnableDCache, g)
    ensures var m' := Run(m, es);
            && m'.Enabled() && LinesClean(m') && m'.mem == Snapshot(m') && OldContents(m, m')
            && (es == Trace(EnableDCache, g) ==> m'.mem == m.mem)
  {
    EnabledAgain(m, g, es);
    if es == Trace(EnableDCache, g) {
      InvalidatesKeepMemory(m, es);
    }
  }

  lemma EnabledAgain(m: Machine, g: Geometry, es: seq<Event>)
    requires m.WellFormed() && Coherent(m, {}) && Describes(g, m) && Fits(g)
    requires Program(es) == Trace(EnableDCache, g)
    ensures var m' := Run(m, es);
            m'.Enabled() && LinesClean(m') && m'.mem == Snapshot(m') && OldContents(m, m')
  {
    var k := SplitProgram(es, Sweep(Invalidate, g), [OrCCR(CCR_DC)]);
    var n := Run(m, es[..k]);
    InvalidateOutcome(m, g, es[..k]);
    SweepMembers(es[..k], Invalidate, Sweep(Invalidate, g));
    PassiveRunContents(m, es[..k]);
    SwitchOn(n, es[k..]);
    RunConcat(m, es[..k], es[k..]);
    TakeDrop(es, k);
    assert forall b: nat | b < BLOCKS :: Run(m, es).View(b) == Snapshot(Run(m, es))[b] == Snapshot(n)[b];
  }

  /** However the hardware's fills and evictions fall, the program's view survives the routine. */
  ghost predicate ViewSurvives(m: Machine, op: Op, g: Geometry)
    requires m.WellFormed()
  {
    forall es: seq<Event> | Program(es) == Trace(op, g) :: Snapshot(Run(m, es)) == Snapshot(m)
  }

  /**
   Invalidating the cache, or enabling it when it is on already, keeps the program's view exactly when
   memory holds all of it beforehand; otherwise some of it is lost.
   */
  lemma {:induction false} DiscardExact(m: Machine, op: Op, g: Geometry)
    requires m.WellFormed() && Coherent(m, {}) && Describes(g, m) && Fits(g)
    requires op.InvalidateDCache? || op.EnableDCache?
    ensures ViewSurvives(m, op, g) <==> m.mem == Snapshot(m)
  {
    var quiet := Trace(op, g);
    NoHardwareProgram(quiet);
    Discards(m, op, g, quiet);
    if m.mem == Snapshot(m) {
      forall es: seq<Event> | Program(es) == Trace(op, g)
        ensures Snapshot(Run(m, es)) == Snapshot(m)
      {
        Discards(m, op, g, es);
        SameContents(m, Run(m, es));
      }
    }
  }

  lemma Discards(m: Machine, op: Op, g: Geometry, es: seq<Event>)
    requires m.WellFormed() && Coherent(m, {}) && Describes(g, m) && Fits(g)
    requires (op.InvalidateDCache? || op.EnableDCache?) && Program(es) == Trace(op, g)
    ensures OldContents(m, Run(m, es))
    ensures es == Trace(op, g) ==> Snapshot(Run(m, es)) == m.mem
  {
    if op.InvalidateDCache? {
      InvalidateOutcome(m, g, es);
    } else {
      EnableWhileOnOutcome(m, g, es);
    }
  }

  lemma SameContents(m: Machine, m': Machine)
    requires m.WellFormed() && m'.WellFormed() && OldContents(m, m') && m.mem == Snapshot(m)
    ensures Snapshot(m') == Snapshot(m)
  {
    forall b | 0 <= b < BLOCKS
      ensures Snapshot(m')[b] == Snapshot(m)[b]
    {
      assert m.View(b) == Snapshot(m)[b];
    }
  }

  // ----- stores while the cache is being disabled -----

  /**
   Between clearing the enable bit and the end of the sweep, memory is bypassed but may still be
   overwritten by dirty lines: a byte stored after any part of the sweep (a spilled loop counter, an
   interrupt's variable) survives exactly when no dirty line is left that holds its block, or it
   stored what was there already.
   */
  lemma {:induction false} StoreWhileDisabling(m: Machine, flat: Memory, g: Geometry, es: seq<Event>, j: nat,
                                               a: uint32, x: byte)
    requires Synced(m, flat, {}) && !m.Enabled() && Describes(g, m) && Fits(g)
    requires Program(es) == Sweep(CleanInvalidate, g) && j <= |es|
    ensures var n := Run(m, es[..j]);
            Run(n.Apply(Store(a, x)), es[j..]).MemByte(a) == x
            <==> (forall w: nat :: !n.Dirty(a / 32, w)) || flat[a / 32][a % 32] == x
  {
    var b := a / 32;
    SweepMembers(es, CleanInvalidate, Sweep(CleanInvalidate, g));
    QuietRun(m, flat, {}, es[..j]);
    var n := Run(m, es[..j]);
    if w: nat :| n.Dirty(b, w) {
      StoreOverwritten(m, flat, g, es, j, w, a, x);
    } else {
      StoreKept(n, flat, es[j..], a, x);
    }
  }

  /** With a dirty line of the block left, the sweep still ends in the memory it was going to. */
  lemma StoreOverwritten(m: Machine, flat: Memory, g: Geometry, es: seq<Event>, j: nat, w: nat, a: uint32, x: byte)
    requires Synced(m, flat, {}) && !m.Enabled() && Describes(g, m) && Fits(g)
    requires Program(es) == Sweep(CleanInvalidate, g) && j <= |es|
    requires Run(m, es[..j]).Dirty(a / 32, w)
    ensures Run(Run(m, es[..j]).Apply(Store(a, x)), es[j..]).mem[a / 32] == flat[a / 32]
  {
    hide Machine.Apply, Machine.View, Coherent, Unique, Value, LinesInvalid;
    var n, k := Run(m, es[..j]), ((a / 32) % m.sets, w);
    StoreOff(n, a, x);
    SweepMembers(es, CleanInvalidate, Sweep(CleanInvalidate, g));
    PassiveKeeps(m, es[..j]);
    HitBlock(n, a / 32, w);
    var i := StillToCome(m, g, es, j, k);
    DrainMembers(es, g);
    DirtyLineWins(n, n.WriteMemory(a, x), es[j..], k, a / 32);
    Transparency.Drain(m, flat, g, es);
    RunConcat(m, es[..j], es[j..]);
    TakeDrop(es, j);
  }

  lemma StoreOff(m: Machine, a: uint32, x: byte)
    requires m.WellFormed()
    ensures !m.Enabled() ==> m.Apply(Store(a, x)) == m.WriteMemory(a, x)
  {
  }

  /** A line dirty in the middle of the sweep has its command in the rest. */
  lemma StillToCome(m: Machine, g: Geometry, es: seq<Event>, j: nat, k: (nat, nat)) returns (i: nat)
    requires m.WellFormed() && Describes(g, m) && Fits(g)
    requires Program(es) == Sweep(CleanInvalidate, g) && j <= |es|
    requires k in m.lines && k in Run(m, es[..j]).lines
    requires Run(m, es[..j]).lines[k].Valid? && Run(m, es[..j]).lines[k].dirty
    ensures i < |es[j..]| && Targets(es[j..][i], k)
  {
    hide Machine.Apply, Run;
    SweepMembers(es, CleanInvalidate, Sweep(CleanInvalidate, g));
    i := SweepReaches(m, es, CleanInvalidate, g, k);
    if i < j {
      CommandEffect(m, es[..j], CleanInvalidate, k, i);
      assert false;
    }
    i := i - j;
    assert es[j..][i] == es[j + i];
  }

  /** With none left, the block is memory's and nothing touches it again. */
  lemma StoreKept(n: Machine, flat: Memory, es: seq<Event>, a: uint32, x: byte)
    requires Synced(n, flat, {}) && !n.Enabled() && AllQuiet(es) && forall w: nat :: !n.Dirty(a / 32, w)
    ensures Run(n.Apply(Store(a, x)), es).MemByte(a) == x
  {
    var b := a / 32;
    NoDirtyStale(n, flat, b);
    DeviceWriteSynced(n, flat, {b}, a, x);
    QuietRun(n.WriteMemory(a, x), SetByte(flat, a, x), {b}, es);
    assert Value(Run(n.WriteMemory(a, x), es), {b}, b) == SetByte(flat, a, x)[b];
  }

  lemma DrainMembers(es: seq<Event>, g: Geometry)
    requires Program(es) == Sweep(CleanInvalidate, g)
    ensures forall i | 0 <= i < |es| :: Hardware(es[i]) || (es[i].SetWay? && es[i].op != Invalidate)
  {
    forall i | 0 <= i < |es|
      ensures Hardware(es[i]) || (es[i].SetWay? && es[i].op != Invalidate)
    {
      ProgramMembers(es, es[i]);
    }
  }

  /** A block without a dirty line may be treated as stale: memory already is its truth. */
  lemma NoDirtyStale(m: Machine, flat: Memory, b: nat)
    requires Synced(m, flat, {}) && b < BLOCKS && forall w: nat :: !m.Dirty(b, w)
    ensures Synced(m, flat, {b})
  {
    forall c: nat | c < BLOCKS
      ensures Value(m, {b}, c) == flat[c]
    {
      assert Value(m, {}, c) == flat[c];
      if c == b {
        if w: nat :| m.Hits(b, w) {
          ViewOfHit(m, b, w);
          assert !m.Dirty(b, w);
        } else {
          ViewOfMiss(m, b);
        }
      }
    }
    forall w: nat | m.Hits(b, w)
      ensures !m.LineOf(b, w).dirty
    {
      assert !m.Dirty(b, w);
    }
  }

  // ----- untrusted lines -----

  /** Every legal program that trusts the lines it finds is faithful, under every interleaving. */
  ghost predicate SafeToTrust(m: Machine, g: Geometry)
    requires m.WellFormed()
  {
    forall ops: seq<Op>, es: seq<Event> | Transparency.Legal(ops, false, true) && Program(es) == ProgramTrace(ops, g) ::
      Faithful(m, m.mem, es)
  }

  /** A command that writes line k back if it is dirty. */
  predicate Targets(e: Event, k: (nat, nat)) {
    e.SetWay? && e.op != Invalidate && e.word / 32 % 512 == k.0 && e.word / 0x4000_0000 == k.1
  }

  /**
   Two machines with the same lines, both off, end a run of write-backs with the same contents of
   block b, whatever their memories held there, if some dirty line of b is still to be written back.
   */
  lemma {:induction false} DirtyLineWins(m: Machine, n: Machine, es: seq<Event>, k: (nat, nat), b: nat)
    requires m.WellFormed() && n.WellFormed() && m.SameShape(n) && m.lines == n.lines && b < BLOCKS
    requires !m.Enabled() && !n.Enabled()
    requires forall i | 0 <= i < |es| :: Hardware(es[i]) || (es[i].SetWay? && es[i].op != Invalidate)
    requires m.mem[b] == n.mem[b] ||
             (k in m.lines && m.lines[k].Valid? && m.lines[k].dirty && m.BlockOf(m.lines[k].tag, k.0) == b &&
              exists i | 0 <= i < |es| :: Targets(es[i], k))
    ensures Run(m, es).mem[b] == Run(n, es).mem[b]
    decreases |es|
  {
    if es != [] {
      var m', n' := m.Apply(es[0]), n.Apply(es[0]);
      if m.mem[b] != n.mem[b] && !Targets(es[0], k) {
        var i :| 0 <= i < |es| && Targets(es[i], k);
        assert es[1..][i - 1] == es[i];
        if es[0].SetWay? {
          assert (es[0].word / 32 % 512, es[0].word / 0x4000_0000) != k;
        }
      }
      DirtyLineWins(m', n', es[1..], k, b);
    }
  }

  /** The program that exposes an untrusted dirty line: store, clean the cache, load back. */
  function Probe(a: uint32, x: byte): seq<Op> {
    [CpuStore(a, x), CleanDCache, CpuLoad(a)]
  }

  lemma ProbeTrace(a: uint32, x: byte, g: Geometry)
    ensures ProgramTrace(Probe(a, x), g) == [Store(a, x)] + (Sweep(Clean, g) + [Load(a)])
    ensures Program(ProgramTrace(Probe(a, x), g)) == ProgramTrace(Probe(a, x), g)
    ensures Transparency.Legal(Probe(a, x), false, true)
  {
    var ops := Probe(a, x);
    assert ops[1..] == [CleanDCache, CpuLoad(a)] && ops[1..][1..] == [CpuLoad(a)] && ops[1..][1..][1..] == [];
    assert ProgramTrace(ops[1..][1..], g) == [Load(a)] + [];
    var es := [Store(a, x)] + (Sweep(Clean, g) + [Load(a)]);
    assert ProgramTrace(ops, g) == es;
    assert forall i | 0 <= i < |es| :: !Hardware(es[i]);
    NoHardwareProgram(es);
    assert Transparency.Legal(ops[1..][1..], false, true);
    assert Transparency.Legal(ops[1..], false, true);
  }

  /** If the probe is faithful, the byte stored is the byte memory holds after the sweep. */
  lemma ProbeReadsBack(m: Machine, a: uint32, x: byte, g: Geometry)
    requires m.WellFormed() && !m.Enabled()
    requires Faithful(m, m.mem, ProgramTrace(Probe(a, x), g))
    ensures Run(m.WriteMemory(a, x), Sweep(Clean, g)).MemByte(a) == x
  {
    hide Machine.Apply, Faithful, Run, FlatRun, Program, ProgramTrace, Probe, Sweep, Transparency.Legal, Observes,
         AllPassive;
    var es := ProgramTrace(Probe(a, x), g);
    var sweep := Sweep(Clean, g);
    var i := 1 + |sweep|;
    ProbeTrace(a, x, g);
    FaithfulAt(m, m.mem, es, i);
    assert es[..i] == [Store(a, x)] + sweep && es[i] == Load(a);
    SweepPassive(Clean, g);
    StoreThenSweep(m, a, x, sweep);
    LoadObserved(Run(m, es[..i]), FlatRun(m.mem, es[..i]), a, x);
  }

  lemma SweepPassive(op: Maintenance, g: Geometry)
    ensures AllPassive(Sweep(op, g))
  {
  }

  /** With the cache off, a faithful load after the store finds the stored byte in memory. */
  lemma LoadObserved(m: Machine, flat: Memory, a: uint32, x: byte)
    requires m.WellFormed() && |flat| == BLOCKS && !m.Enabled() && Observes(m, flat, Load(a))
    requires exists f: Memory :: |f| == BLOCKS && flat == SetByte(f, a, x)
    ensures m.MemByte(a) == x
  {
  }

  lemma StoreThenSweep(m: Machine, a: uint32, x: byte, sweep: seq<Event>)
    requires m.WellFormed() && !m.Enabled() && AllPassive(sweep)
    ensures var es := [Store(a, x)] + sweep;
            && Run(m, es) == Run(m.WriteMemory(a, x), sweep) && !Run(m, es).Enabled()
            && FlatRun(m.mem, es) == SetByte(m.mem, a, x)
  {
    assert ([Store(a, x)] + sweep)[1..] == sweep;
    PassiveKeeps(m.WriteMemory(a, x), sweep);
    FlatSweep(SetByte(m.mem, a, x), sweep);
  }

  lemma {:induction false} FlatSweep(flat: Memory, es: seq<Event>)
    requires |flat| == BLOCKS && AllPassive(es)
    ensures FlatRun(flat, es) == flat
  {
    if es != [] {
      assert AllPassive(es[1..]);
      FlatSweep(flat, es[1..]);
    }
  }

  /**
   Lines found with the cache off may be trusted exactly when none is dirty: one dirty line is
   enough for some legal program to read back something else than it stored.
   */
  lemma {:induction false} TrustExact(m: Machine, g: Geometry)
    requires m.WellFormed() && !m.Enabled() && Describes(g, m) && Fits(g)
    ensures SafeToTrust(m, g) <==> LinesClean(m)
  {
    if LinesClean(m) {
      forall ops: seq<Op>, es: seq<Event> | Transparency.Legal(ops, false, true) && Program(es) == ProgramTrace(ops, g)
        ensures Faithful(m, m.mem, es)
      {
        Transparency.Transparency(m, ops, g, es);
      }
    } else {
      var k :| k in m.lines && m.lines[k].Valid? && m.lines[k].dirty;
      assert (k.0, k.1) in m.lines;
      var b := m.BlockOf(m.lines[k].tag, k.0);
      var a: uint32 := b * 32;
      var sweep := Sweep(Clean, g);
      NoHardwareProgram(sweep);
      var i := SweepReaches(m, sweep, Clean, g, k);
      assert Targets(sweep[i], k);
      DirtyLineWins(m.WriteMemory(a, 0), m.WriteMemory(a, 1), sweep, k, b);
      if SafeToTrust(m, g) {
        ProbeTrace(a, 0, g);
        ProbeTrace(a, 1, g);
        ProbeReadsBack(m, a, 0, g);
        ProbeReadsBack(m, a, 1, g);
        assert false;
      }
    }
  }
}
