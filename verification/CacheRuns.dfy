/**
 Runs of the cache: what a reader observes, and what maintenance commands achieve however the
 hardware's own fills and evictions fall between them.
 */
module CacheRuns {
  import opened CacheModel
  import opened CacheCoherence

  /** A load or a device read returns the flat memory's byte. */
  ghost predicate Observes(m: Machine, flat: Memory, e: Event)
    requires m.WellFormed() && |flat| == BLOCKS
  {
    match e
    case Load(a) => m.CpuByte(a) == flat[a / 32][a % 32]
    case DeviceRead(a) => m.MemByte(a) == flat[a / 32][a % 32]
    case _ => true
  }

  /**
   Along the whole run every reader observes the flat memory, which only stores and device writes
   change, and while the cache is on no block is held by two ways.
   */
  ghost predicate Faithful(m: Machine, flat: Memory, es: seq<Event>)
    requires m.WellFormed() && |flat| == BLOCKS
    decreases |es|
  {
    && (m.Enabled() ==> Unique(m))
    && (es != [] ==>
          Observes(m, flat, es[0]) && Faithful(m.Apply(es[0]), FlatApply(flat, es[0]), es[1..]))
  }

  /** The same, read off position by position. */
  lemma {:induction false} FaithfulAt(m: Machine, flat: Memory, es: seq<Event>, i: nat)
    requires m.WellFormed() && |flat| == BLOCKS && Faithful(m, flat, es) && i <= |es|
    ensures Run(m, es[..i]).Enabled() ==> Unique(Run(m, es[..i]))
    ensures i < |es| ==> Observes(Run(m, es[..i]), FlatRun(flat, es[..i]), es[i])
    decreases i
  {
    if i > 0 {
      assert es[..i][1..] == es[1..][..i - 1];
      FaithfulAt(m.Apply(es[0]), FlatApply(flat, es[0]), es[1..], i - 1);
    }
  }

  lemma {:induction false} FaithfulConcat(m: Machine, flat: Memory, es: seq<Event>, fs: seq<Event>)
    requires m.WellFormed() && |flat| == BLOCKS
    requires Faithful(m, flat, es) && Faithful(Run(m, es), FlatRun(flat, es), fs)
    ensures Faithful(m, flat, es + fs)
    decreases |es|
  {
    hide Machine.Apply, Observes, Unique;
    if es == [] {
      assert es + fs == fs;
    } else {
      assert (es + fs)[1..] == es[1..] + fs;
      FaithfulConcat(m.Apply(es[0]), FlatApply(flat, es[0]), es[1..], fs);
    }
  }

  // ----- quiet events: the hardware's own, and maintenance that writes dirty data back -----

  predicate Quiet(e: Event) {
    Hardware(e) || ((e.SetWay? || e.ByAddress?) && e.op != Invalidate)
  }

  ghost predicate AllQuiet(es: seq<Event>) {
    forall i | 0 <= i < |es| :: Quiet(es[i])
  }

  ghost predicate FewerDirty(m: Machine, m': Machine) {
    forall b: nat, w: nat | m'.Dirty(b, w) :: m.Dirty(b, w)
  }

  lemma MaintainSynced(m: Machine, flat: Memory, stale: set<nat>, op: Maintenance, s: nat, w: nat)
    requires Synced(m, flat, stale) && op != Invalidate
    ensures Synced(m.Maintain(op, s, w), flat, stale)
    ensures FewerDirty(m, m.Maintain(op, s, w))
  {
    if op == Clean {
      CleanLineSynced(m, flat, stale, s, w);
    } else {
      CleanInvalidateSynced(m, flat, stale, s, w);
    }
  }

  lemma QuietStep(m: Machine, flat: Memory, stale: set<nat>, e: Event)
    requires Synced(m, flat, stale) && Quiet(e)
    ensures Synced(m.Apply(e), flat, stale)
    ensures FewerDirty(m, m.Apply(e)) && m.Apply(e).ccr == m.ccr
  {
    match e
    case SetWay(op, word) => MaintainSynced(m, flat, stale, op, word / 32 % 512, word / 0x4000_0000);
    case ByAddress(op, a) =>
      if m.FindWay(a / 32, m.ways).Some? {
        MaintainSynced(m, flat, stale, op, a / 32 % m.sets, m.FindWay(a / 32, m.ways).value);
      }
    case Fill(b, w) =>
      if m.Enabled() && b < BLOCKS && w < m.ways && m.FindWay(b, m.ways).None? {
        assert forall v: nat :: !m.Hits(b, v);
        FillLineSynced(m, flat, stale, b, w);
      }
    case Evict(s, w) => MaintainSynced(m, flat, stale, CleanInvalidate, s, w);
  }

  /** Quiet events, in any order, change no reader's view of anything. */
  lemma {:induction false} QuietRun(m: Machine, flat: Memory, stale: set<nat>, es: seq<Event>)
    requires Synced(m, flat, stale) && AllQuiet(es)
    ensures Synced(Run(m, es), flat, stale)
    ensures FewerDirty(m, Run(m, es)) && Run(m, es).ccr == m.ccr
    ensures Faithful(m, flat, es) && FlatRun(flat, es) == flat
    decreases |es|
  {
    if es != [] {
      QuietStep(m, flat, stale, es[0]);
      assert AllQuiet(es[1..]);
      QuietRun(m.Apply(es[0]), flat, stale, es[1..]);
    }
  }

  // ----- the cache switched off -----

  /** With the cache off, memory is what the program sees. */
  ghost predicate Off(m: Machine, flat: Memory) {
    m.WellFormed() && !m.Enabled() && m.mem == flat
  }

  /** Maintenance that cannot write to memory: invalidates, and cleans when nothing is dirty. */
  predicate Passive(e: Event) {
    Hardware(e) || e.SetWay? || e.ByAddress?
  }

  ghost predicate AllPassive(es: seq<Event>) {
    forall i | 0 <= i < |es| :: Passive(es[i])
  }

  ghost predicate LinesClean(m: Machine) {
    forall k | k in m.lines :: m.lines[k].Valid? ==> !m.lines[k].dirty
  }

  ghost predicate LinesInvalid(m: Machine) {
    forall k | k in m.lines :: m.lines[k].Invalid?
  }

  ghost predicate OnlyInvalidates(es: seq<Event>) {
    forall i | 0 <= i < |es| :: Hardware(es[i]) || ((es[i].SetWay? || es[i].ByAddress?) && es[i].op == Invalidate)
  }

  /** While the cache is off, invalidates never touch memory, and no command does once nothing is dirty. */
  lemma {:induction false} OffRun(m: Machine, flat: Memory, es: seq<Event>)
    requires Off(m, flat) && AllPassive(es) && (LinesClean(m) || OnlyInvalidates(es))
    ensures Off(Run(m, es), flat) && Run(m, es).ccr == m.ccr
    ensures LinesClean(m) ==> LinesClean(Run(m, es))
    ensures |flat| == BLOCKS && Faithful(m, flat, es) && FlatRun(flat, es) == flat
    decreases |es|
  {
    if es != [] {
      assert AllPassive(es[1..]);
      assert OnlyInvalidates(es) ==> OnlyInvalidates(es[1..]);
      OffRun(m.Apply(es[0]), flat, es[1..]);
    }
  }

  // ----- what a full set of commands achieves -----

  ghost predicate NoFills(es: seq<Event>) {
    forall i | 0 <= i < |es| :: !es[i].Fill?
  }

  /** A line once clean stays clean while nothing is stored. */
  lemma {:induction false} StaysClean(m: Machine, es: seq<Event>, k: (nat, nat))
    requires m.WellFormed() && AllPassive(es)
    requires k in m.lines && (m.lines[k].Valid? ==> !m.lines[k].dirty)
    ensures k in Run(m, es).lines && (Run(m, es).lines[k].Valid? ==> !Run(m, es).lines[k].dirty)
    decreases |es|
  {
    if es != [] {
      assert AllPassive(es[1..]);
      StaysClean(m.Apply(es[0]), es[1..], k);
    }
  }

  /** A line once invalid stays invalid while nothing is filled. */
  lemma {:induction false} StaysInvalid(m: Machine, es: seq<Event>, k: (nat, nat))
    requires m.WellFormed() && AllPassive(es) && (NoFills(es) || !m.Enabled())
    requires k in m.lines && m.lines[k].Invalid?
    ensures k in Run(m, es).lines && Run(m, es).lines[k].Invalid?
    decreases |es|
  {
    if es != [] {
      assert AllPassive(es[1..]);
      assert NoFills(es) ==> NoFills(es[1..]);
      StaysInvalid(m.Apply(es[0]), es[1..], k);
    }
  }

  lemma {:induction false} PassiveKeeps(m: Machine, es: seq<Event>)
    requires m.WellFormed() && AllPassive(es)
    ensures Run(m, es).lines.Keys == m.lines.Keys && Run(m, es).ccr == m.ccr
    decreases |es|
  {
    if es != [] {
      assert AllPassive(es[1..]);
      var e := es[0];
      assert m.Apply(e).lines.Keys == m.lines.Keys && m.Apply(e).ccr == m.ccr;
      PassiveKeeps(m.Apply(e), es[1..]);
    }
  }
}
