/**
 Whole-run transparency: started with the data cache off, any program of CPU accesses and cache
 routines sees a flat memory, whatever the hardware fills and evicts and whenever it does so.
 */
module CacheTransparency {
  import opened Words
  import opened CacheModel
  import opened CacheCoherence
  import opened CacheRuns
  import opened CachePrograms

  /**
   What may be called when.  `on` says the cache is on; `trusted` says that no line left over from
   before is dirty.  The enable routine may only be called while the cache is off, a routine that
   writes lines back only once the lines can be trusted, and one that discards lines only while off.
   */
  predicate Allowed(op: Op, on: bool, trusted: bool) {
    match op
    case CpuLoad(_) => true
    case CpuStore(_, _) => true
    case EnableDCache => !on
    case InvalidateDCache => !on
    case InvalidateDCacheByAddr(_, _) => !on
    case DisableDCache => on || trusted
    case CleanDCache => on || trusted
    case CleanInvalidateDCache => on || trusted
    case CleanDCacheByAddr(_, _) => on || trusted
    case CleanInvalidateDCacheByAddr(_, _) => on || trusted
    case _ => false
  }

  function NextOn(op: Op, on: bool): bool {
    if op.EnableDCache? then true else if op.DisableDCache? then false else on
  }

  function NextTrusted(op: Op, trusted: bool): bool {
    trusted || op.EnableDCache? || op.DisableDCache? || op.InvalidateDCache?
  }

  predicate Legal(ops: seq<Op>, on: bool, trusted: bool) {
    ops == [] ||
    (Allowed(ops[0], on, trusted) && Legal(ops[1..], NextOn(ops[0], on), NextTrusted(ops[0], trusted)))
  }

  /** Whether the cache is on after a program. */
  function OnAfter(ops: seq<Op>, on: bool): bool {
    if ops == [] then on else OnAfter(ops[1..], NextOn(ops[0], on))
  }

  /** The invariant between operations. */
  ghost predicate Ready(m: Machine, flat: Memory, on: bool, trusted: bool) {
    && m.WellFormed() && |flat| == BLOCKS && m.Enabled() == on
    && (on ==> Synced(m, flat, {}))
    && (!on ==> m.mem == flat && (trusted ==> LinesClean(m)))
  }

  ghost predicate AllHardware(es: seq<Event>) {
    forall i | 0 <= i < |es| :: Hardware(es[i])
  }

  // ----- putting pieces of a run together -----

  lemma Compose(m: Machine, flat: Memory, es: seq<Event>, k: nat)
    requires m.WellFormed() && |flat| == BLOCKS && k <= |es|
    requires Faithful(m, flat, es[..k]) && Faithful(Run(m, es[..k]), FlatRun(flat, es[..k]), es[k..])
    ensures Faithful(m, flat, es)
    ensures Run(m, es) == Run(Run(m, es[..k]), es[k..])
    ensures FlatRun(flat, es) == FlatRun(FlatRun(flat, es[..k]), es[k..])
  {
    hide *;
    TakeDrop(es, k);
    FaithfulConcat(m, flat, es[..k], es[k..]);
    RunConcat(m, es[..k], es[k..]);
    FlatRunConcat(flat, es[..k], es[k..]);
  }

  lemma {:induction false} NoProgramMeansHardware(es: seq<Event>)
    requires Program(es) == []
    ensures AllHardware(es)
  {
    if es != [] {
      NoProgramMeansHardware(es[1..]);
      forall i | 0 <= i < |es| ensures Hardware(es[i]) {
        if i > 0 {
          assert es[i] == es[1..][i - 1];
        }
      }
    }
  }

  /** An interleaving of one program event: hardware, the event, hardware. */
  lemma {:induction false} IsolateOne(es: seq<Event>, e: Event) returns (i: nat)
    requires Program(es) == [e]
    ensures i < |es| && es[i] == e && AllHardware(es[..i]) && AllHardware(es[i + 1..])
  {
    if Hardware(es[0]) {
      var j := IsolateOne(es[1..], e);
      i := j + 1;
      assert es[i + 1..] == es[1..][j + 1..];
      forall h | 0 <= h < i ensures Hardware(es[..i][h]) {
        if h > 0 {
          assert es[..i][h] == es[1..][..j][h - 1];
        }
      }
    } else {
      i := 0;
      assert Program(es) == [es[0]] + Program(es[1..]);
      assert Program(es)[0] == es[0] && Program(es)[1..] == Program(es[1..]);
      NoProgramMeansHardware(es[1..]);
    }
  }

  lemma HardwareReady(m: Machine, flat: Memory, on: bool, trusted: bool, es: seq<Event>)
    requires Ready(m, flat, on, trusted) && AllHardware(es)
    ensures Ready(Run(m, es), flat, on, trusted)
    ensures Faithful(m, flat, es) && FlatRun(flat, es) == flat
  {
    if on {
      QuietRun(m, flat, {}, es);
    } else {
      OffRun(m, flat, es);
    }
  }

  /** A step that is ready to ready carries an interleaving of one event through. */
  lemma OneEvent(m: Machine, flat: Memory, on: bool, trusted: bool, e: Event, es: seq<Event>, on': bool)
    requires Ready(m, flat, on, trusted) && Program(es) == [e]
    requires forall n: Machine | Ready(n, flat, on, trusted) ::
               Observes(n, flat, e) && Ready(n.Apply(e), FlatApply(flat, e), on', trusted)
    ensures Faithful(m, flat, es) && Ready(Run(m, es), FlatRun(flat, es), on', trusted)
    ensures FlatRun(flat, es) == FlatApply(flat, e)
  {
    var i := IsolateOne(es, e);
    HardwareReady(m, flat, on, trusted, es[..i]);
    var n := Run(m, es[..i]);
    assert Observes(n, flat, e) && Ready(n.Apply(e), FlatApply(flat, e), on', trusted);
    assert es[i..][0] == e && es[i..][1..] == es[i + 1..];
    HardwareReady(n.Apply(e), FlatApply(flat, e), on', trusted, es[i + 1..]);
    Compose(m, flat, es, i);
  }

  // ----- each operation keeps the invariant -----

  lemma AccessReady(n: Machine, flat: Memory, on: bool, trusted: bool, e: Event)
    requires Ready(n, flat, on, trusted) && (e.Load? || e.Store?)
    ensures Observes(n, flat, e) && Ready(n.Apply(e), FlatApply(flat, e), on, trusted)
  {
    if e.Store? && on {
      StoreSynced(n, flat, {}, e.addr, e.value);
    } else if e.Load? && on {
      assert Value(n, {}, e.addr / 32) == flat[e.addr / 32];
    }
  }

  lemma AccessOp(m: Machine, flat: Memory, on: bool, trusted: bool, e: Event, es: seq<Event>)
    requires Ready(m, flat, on, trusted) && (e.Load? || e.Store?) && Program(es) == [e]
    ensures Ready(Run(m, es), FlatRun(flat, es), on, trusted) && Faithful(m, flat, es)
  {
    forall n: Machine | Ready(n, flat, on, trusted)
      ensures Observes(n, flat, e) && Ready(n.Apply(e), FlatApply(flat, e), on, trusted)
    {
      AccessReady(n, flat, on, trusted, e);
    }
    OneEvent(m, flat, on, trusted, e, es, on);
  }

  lemma MaintenanceReady(m: Machine, flat: Memory, on: bool, trusted: bool, op: Maintenance, cmds: seq<Event>,
                         es: seq<Event>)
    requires Ready(m, flat, on, trusted) && Program(es) == cmds
    requires forall i | 0 <= i < |cmds| :: (cmds[i].SetWay? || cmds[i].ByAddress?) && cmds[i].op == op
    requires if op == Invalidate then !on else on || trusted
    ensures Ready(Run(m, es), flat, on, trusted)
    ensures Faithful(m, flat, es) && FlatRun(flat, es) == flat
  {
    SweepMembers(es, op, cmds);
    if on {
      QuietRun(m, flat, {}, es);
    } else {
      OffRun(m, flat, es);
    }
  }

  lemma EnableReady(m: Machine, flat: Memory, trusted: bool, g: Geometry, es: seq<Event>)
    requires Ready(m, flat, false, trusted) && Describes(g, m) && Fits(g)
    requires Program(es) == Trace(EnableDCache, g)
    ensures Ready(Run(m, es), flat, true, true) && Faithful(m, flat, es) && FlatRun(flat, es) == flat
  {
    var k := SplitProgram(es, Sweep(Invalidate, g), [OrCCR(CCR_DC)]);
    MaintenanceReady(m, flat, false, trusted, Invalidate, Sweep(Invalidate, g), es[..k]);
    var n := Run(m, es[..k]);
    SweepEffect(m, es[..k], Invalidate, g);
    var i := IsolateOne(es[k..], OrCCR(CCR_DC));
    var before, after := es[k..][..i], es[k..][i + 1..];
    HardwareReady(n, flat, false, true, before);
    var o := Run(n, before);
    forall j | j in o.lines ensures o.lines[j].Invalid? {
      PassiveKeeps(n, before);
      StaysInvalid(n, before, j);
    }
    InvalidMeansSynced(o);
    var e := OrCCR(CCR_DC);
    EnableBit(o.ccr, 16);
    SyncedIgnoresCcr(o, o.Apply(e), flat, {});
    assert es[k..][i..][0] == e && es[k..][i..][1..] == after;
    HardwareReady(o.Apply(e), flat, true, true, after);
    Compose(n, flat, es[k..], i);
    Compose(m, flat, es, k);
  }

  /** Clearing the enable bit, with hardware activity around it, leaves the view alone. */
  lemma SwitchOff(m: Machine, flat: Memory, es: seq<Event>)
    requires Synced(m, flat, {}) && Program(es) == [BicCCR(CCR_DC)]
    ensures Synced(Run(m, es), flat, {}) && !Run(m, es).Enabled() && Run(m, es).SameShape(m)
    ensures forall i: nat | i != 16 :: Bit(Run(m, es).ccr, i) == Bit(m.ccr, i)
    ensures Faithful(m, flat, es) && FlatRun(flat, es) == flat
  {
    var e := BicCCR(CCR_DC);
    var i := IsolateOne(es, e);
    QuietRun(m, flat, {}, es[..i]);
    var n := Run(m, es[..i]);
    var o := n.Apply(e);
    forall j: nat ensures Bit(o.ccr, j) == (j != 16 && Bit(n.ccr, j)) {
      EnableBit(n.ccr, j);
    }
    EnableBit(n.ccr, 16);
    SyncedIgnoresCcr(n, o, flat, {});
    QuietRun(o, flat, {}, es[i + 1..]);
    assert es[i..][0] == e && es[i..][1..] == es[i + 1..];
    Compose(m, flat, es, i);
  }

  /** With the cache off, a clean and invalidate sweep empties it into memory. */
  lemma Drain(m: Machine, flat: Memory, g: Geometry, es: seq<Event>)
    requires Synced(m, flat, {}) && !m.Enabled() && Describes(g, m) && Fits(g)
    requires Program(es) == Sweep(CleanInvalidate, g)
    ensures LinesInvalid(Run(m, es)) && Run(m, es).mem == flat && Run(m, es).ccr == m.ccr
    ensures Faithful(m, flat, es) && FlatRun(flat, es) == flat
  {
    SweepMembers(es, CleanInvalidate, Sweep(CleanInvalidate, g));
    QuietRun(m, flat, {}, es);
    SweepEffect(m, es, CleanInvalidate, g);
    CleanMeansMemory(Run(m, es), flat);
  }

  lemma {:induction false} DisableOn(m: Machine, flat: Memory, g: Geometry, es: seq<Event>)
    requires Synced(m, flat, {}) && Describes(g, m) && Fits(g)
    requires Program(es) == Trace(DisableDCache, g)
    ensures !Run(m, es).Enabled() && LinesInvalid(Run(m, es)) && Run(m, es).mem == flat
    ensures forall i: nat | i != 16 :: Bit(Run(m, es).ccr, i) == Bit(m.ccr, i)
    ensures Faithful(m, flat, es) && FlatRun(flat, es) == flat
  {
    var k := SplitProgram(es, [BicCCR(CCR_DC)], Sweep(CleanInvalidate, g));
    SwitchOff(m, flat, es[..k]);
    Drain(Run(m, es[..k]), flat, g, es[k..]);
    Compose(m, flat, es, k);
  }

  /** Disabling a cache that is already off and has nothing dirty changes nothing the program sees. */
  lemma DisableOff(m: Machine, flat: Memory, g: Geometry, es: seq<Event>)
    requires Off(m, flat) && LinesClean(m) && Program(es) == Trace(DisableDCache, g)
    ensures Off(Run(m, es), flat) && LinesClean(Run(m, es))
    ensures |flat| == BLOCKS && Faithful(m, flat, es) && FlatRun(flat, es) == flat
  {
    var e := BicCCR(CCR_DC);
    var k := SplitProgram(es, [e], Sweep(CleanInvalidate, g));
    var i := IsolateOne(es[..k], e);
    OffRun(m, flat, es[..k][..i]);
    var n := Run(m, es[..k][..i]);
    EnableBit(n.ccr, 16);
    assert es[..k][i..][0] == e && es[..k][i..][1..] == es[..k][i + 1..];
    OffRun(n.Apply(e), flat, es[..k][i + 1..]);
    Compose(m, flat, es[..k], i);
    SweepMembers(es[k..], CleanInvalidate, Sweep(CleanInvalidate, g));
    OffRun(Run(m, es[..k]), flat, es[k..]);
    Compose(m, flat, es, k);
  }

  lemma SyncedIgnoresCcr(m: Machine, m': Machine, flat: Memory, stale: set<nat>)
    requires Synced(m, flat, stale) && m'.WellFormed()
    requires m'.lines == m.lines && m'.mem == m.mem && m'.SameShape(m)
    ensures Synced(m', flat, stale)
  {
    assert forall b: nat, w: nat :: m'.Hits(b, w) == m.Hits(b, w);
    forall b: nat | b < BLOCKS
      ensures Value(m', stale, b) == flat[b]
    {
      assert Value(m, stale, b) == flat[b];
      SameLinesSameWay(m, m', b, m.ways);
    }
  }

  lemma OpReady(m: Machine, flat: Memory, on: bool, trusted: bool, op: Op, g: Geometry, es: seq<Event>)
    requires Ready(m, flat, on, trusted) && Allowed(op, on, trusted) && Describes(g, m) && Fits(g)
    requires Program(es) == Trace(op, g)
    ensures Ready(Run(m, es), FlatRun(flat, es), NextOn(op, on), NextTrusted(op, trusted))
    ensures Faithful(m, flat, es)
  {
    match op
    case EnableDCache => EnableReady(m, flat, trusted, g, es);
    case DisableDCache =>
      if on {
        DisableOn(m, flat, g, es);
      } else {
        DisableOff(m, flat, g, es);
      }
    case InvalidateDCache =>
      MaintenanceReady(m, flat, on, trusted, Invalidate, Trace(op, g), es);
      SweepEffect(m, es, Invalidate, g);
    case CleanDCache => MaintenanceReady(m, flat, on, trusted, Clean, Trace(op, g), es);
    case CleanInvalidateDCache => MaintenanceReady(m, flat, on, trusted, CleanInvalidate, Trace(op, g), es);
    case InvalidateDCacheByAddr(_, _) => MaintenanceReady(m, flat, on, trusted, Invalidate, Trace(op, g), es);
    case CleanDCacheByAddr(_, _) => MaintenanceReady(m, flat, on, trusted, Clean, Trace(op, g), es);
    case CleanInvalidateDCacheByAddr(_, _) =>
      MaintenanceReady(m, flat, on, trusted, CleanInvalidate, Trace(op, g), es);
    case CpuLoad(a) => AccessOp(m, flat, on, trusted, Load(a), es);
    case CpuStore(a, v) => AccessOp(m, flat, on, trusted, Store(a, v), es);
    case _ =>
  }

  lemma {:induction false} ProgramReady(m: Machine, flat: Memory, on: bool, trusted: bool, ops: seq<Op>, g: Geometry,
                                        es: seq<Event>)
    requires Ready(m, flat, on, trusted) && Legal(ops, on, trusted) && Describes(g, m) && Fits(g)
    requires Program(es) == ProgramTrace(ops, g)
    ensures Faithful(m, flat, es)
    ensures OnAfter(ops, on) == Run(m, es).Enabled()
    ensures OnAfter(ops, on) ==> Synced(Run(m, es), FlatRun(flat, es), {})
    decreases |ops|
  {
    if ops == [] {
      NoProgramMeansHardware(es);
      HardwareReady(m, flat, on, trusted, es);
    } else {
      var k := SplitProgram(es, Trace(ops[0], g), ProgramTrace(ops[1..], g));
      OpReady(m, flat, on, trusted, ops[0], g, es[..k]);
      ProgramReady(Run(m, es[..k]), FlatRun(flat, es[..k]), NextOn(ops[0], on), NextTrusted(ops[0], trusted),
                   ops[1..], g, es[k..]);
      Compose(m, flat, es, k);
    }
  }

  /**
   Start with the cache off, whatever its lines hold.  Any legal program, interleaved with any line
   fills and evictions, reads what a flat memory would return at every load, and at no point while
   the cache is on does a block sit in two ways.  If the lines cannot be trusted, the program must
   invalidate or enable the cache before it writes lines back; if no line is dirty, it need not.  If the
   program leaves the cache on, it is coherent with the flat memory.
   */
  lemma {:induction false} Transparency(m: Machine, ops: seq<Op>, g: Geometry, es: seq<Event>)
    requires m.WellFormed() && !m.Enabled() && Describes(g, m) && Fits(g)
    requires Legal(ops, false, LinesClean(m))
    requires Program(es) == ProgramTrace(ops, g)
    ensures Faithful(m, m.mem, es)
    ensures Run(m, es).Enabled() == OnAfter(ops, false)
    ensures OnAfter(ops, false) ==> Synced(Run(m, es), FlatRun(m.mem, es), {})
  {
    ProgramReady(m, m.mem, false, LinesClean(m), ops, g, es);
  }
}
