/**
 Runs in which memory accesses, by interrupt handlers and by devices, fall between the register writes
 of a cache routine as freely as the hardware's fills and evictions do.
 */
module CacheInterleaving {
  import opened Words
  import opened CacheModel
  import opened CacheCoherence
  import Runs = CacheRuns
  import Programs = CachePrograms
  import Ranges = CacheRanges

  /** An access by the CPU or by a device. */
  predicate Access(e: Event) {
    e.Load? || e.Store? || e.DeviceRead? || e.DeviceWrite?
  }

  /** What may happen between two register writes of a routine. */
  predicate Async(e: Event) {
    Hardware(e) || Access(e)
  }

  predicate SwitchesCache(e: Event) {
    e.OrCCR? || e.BicCCR?
  }

  /** The events are those of the trace, in order, with asynchronous ones anywhere between them. */
  ghost predicate Interleaves(es: seq<Event>, trace: seq<Event>) {
    if es == [] then trace == []
    else
      || (Async(es[0]) && Interleaves(es[1..], trace))
      || (trace != [] && es[0] == trace[0] && Interleaves(es[1..], trace[1..]))
  }

  lemma {:induction false} InterleavesConcat(es: seq<Event>, p: seq<Event>, fs: seq<Event>, q: seq<Event>)
    requires Interleaves(es, p) && Interleaves(fs, q)
    ensures Interleaves(es + fs, p + q)
  {
    if es == [] {
      assert es + fs == fs && p + q == q;
    } else {
      assert (es + fs)[1..] == es[1..] + fs;
      if Async(es[0]) && Interleaves(es[1..], p) {
        InterleavesConcat(es[1..], p, fs, q);
      } else {
        assert (p + q)[1..] == p[1..] + q;
        InterleavesConcat(es[1..], p[1..], fs, q);
      }
    }
  }

  lemma {:induction false} InterleavesMembers(es: seq<Event>, trace: seq<Event>, e: Event)
    requires Interleaves(es, trace) && e in es
    ensures Async(e) || e in trace
  {
    if e != es[0] {
      InterleavesMembers(es[1..], if Async(es[0]) && Interleaves(es[1..], trace) then trace else trace[1..], e);
    }
  }

  lemma {:induction false} InterleavesIndex(es: seq<Event>, trace: seq<Event>, e: Event) returns (i: nat)
    requires Interleaves(es, trace) && e in trace
    ensures i < |es| && es[i] == e
  {
    if es[0] == e {
      i := 0;
    } else {
      i := InterleavesIndex(es[1..], if Async(es[0]) && Interleaves(es[1..], trace) then trace else trace[1..], e);
      i := i + 1;
    }
  }

  /** A register write of the trace splits the run where it happens. */
  lemma {:induction false} SplitAt(es: seq<Event>, p: seq<Event>, c: Event, q: seq<Event>) returns (i: nat)
    requires Interleaves(es, p + [c] + q) && !Async(c)
    ensures i < |es| && es[i] == c && Interleaves(es[..i], p) && Interleaves(es[i + 1..], q)
  {
    var trace := p + [c] + q;
    if Async(es[0]) && Interleaves(es[1..], trace) {
      i := SplitAt(es[1..], p, c, q);
      i := i + 1;
      assert es[..i][1..] == es[1..][..i - 1] && es[i + 1..] == es[1..][i..];
    } else if p == [] {
      i := 0;
      assert trace[1..] == q;
    } else {
      assert trace[1..] == p[1..] + [c] + q;
      i := SplitAt(es[1..], p[1..], c, q);
      i := i + 1;
      assert es[..i][1..] == es[1..][..i - 1] && es[i + 1..] == es[1..][i..];
      assert es[..i][0] == p[0];
    }
  }

  // ----- what no access and no command undoes -----

  ghost predicate NoStoreTo(es: seq<Event>, b: nat) {
    forall i | 0 <= i < |es| :: es[i].Store? ==> es[i].addr / 32 != b
  }

  ghost predicate NoDeviceWriteTo(es: seq<Event>, b: nat) {
    forall i | 0 <= i < |es| :: es[i].DeviceWrite? ==> es[i].addr / 32 != b
  }

  /** A way that holds the block holds what memory holds. */
  ghost predicate Fresh(m: Machine, b: nat, w: nat)
    requires m.WellFormed() && b < BLOCKS
  {
    m.Hits(b, w) ==> m.LineOf(b, w).data == m.mem[b]
  }

  /** Two blocks of one set, held by one way, are one block. */
  lemma SameLine(m: Machine, b: nat, c: nat)
    requires b % m.sets == c % m.sets && b / m.sets == c / m.sets
    ensures b == c
  {
    DivModIdentity(b, m.sets);
    DivModIdentity(c, m.sets);
  }

  /** A store through the cache touches no line and no memory of another block. */
  lemma StoreElsewhere(m: Machine, a: uint32, x: byte, b: nat, w: nat)
    requires m.WellFormed() && b < BLOCKS && b != a / 32
    ensures m.StoreByte(a, x).Hits(b, w) == m.Hits(b, w) && m.StoreByte(a, x).mem[b] == m.mem[b]
    ensures m.Hits(b, w) ==> m.StoreByte(a, x).LineOf(b, w) == m.LineOf(b, w)
  {
    var c := a / 32;
    if m.FindWay(c, m.ways).Some? && c % m.sets == b % m.sets && m.FindWay(c, m.ways).value == w {
      if b / m.sets == c / m.sets {
        SameLine(m, b, c);
        assert false;
      }
    }
  }

  /** Only a store to a block dirties it. */
  lemma NotDirtied(m: Machine, e: Event, b: nat, w: nat)
    requires m.WellFormed() && b < BLOCKS && !m.Dirty(b, w) && (e.Store? ==> e.addr / 32 != b)
    ensures !m.Apply(e).Dirty(b, w)
  {
    if Runs.Passive(e) {
      Ranges.PassiveFewer(m, e);
    } else if e.Store? {
      StoreElsewhere(m, e.addr, e.value, b, w);
    }
  }

  lemma {:induction false} StaysNotDirty(m: Machine, es: seq<Event>, b: nat, w: nat)
    requires m.WellFormed() && b < BLOCKS && !m.Dirty(b, w) && NoStoreTo(es, b)
    ensures !Run(m, es).Dirty(b, w)
    decreases |es|
  {
    hide Machine.Apply, Machine.Dirty;
    if es != [] {
      assert NoStoreTo(es[1..], b);
      NotDirtied(m, es[0], b, w);
      StaysNotDirty(m.Apply(es[0]), es[1..], b, w);
    }
  }

  ghost predicate BlockClean(m: Machine, b: nat) {
    forall w: nat :: !m.Dirty(b, w)
  }

  lemma CleanLineFresh(m: Machine, s: nat, v: nat, b: nat, w: nat)
    requires m.WellFormed() && b < BLOCKS && BlockClean(m, b) && Fresh(m, b, w)
    ensures Fresh(m.CleanLine(s, v), b, w) && BlockClean(m.CleanLine(s, v), b)
    ensures m.CleanLine(s, v).mem[b] == m.mem[b]
  {
    if (s, v) in m.lines && m.lines[(s, v)].Valid? && m.lines[(s, v)].dirty {
      LineHits(m, s, v);
      assert m.Dirty(m.BlockOf(m.lines[(s, v)].tag, s), v);
      assert m.CleanLine(s, v).Hits(b, w) == m.Hits(b, w);
    }
    Ranges.MaintainFewer(m, Clean, s, v);
    assert m.Maintain(Clean, s, v) == m.CleanLine(s, v);
  }

  lemma MaintainFresh(m: Machine, op: Maintenance, s: nat, v: nat, b: nat, w: nat)
    requires m.WellFormed() && b < BLOCKS && BlockClean(m, b) && Fresh(m, b, w)
    ensures Fresh(m.Maintain(op, s, v), b, w) && m.Maintain(op, s, v).mem[b] == m.mem[b]
  {
    CleanLineFresh(m, s, v, b, w);
  }

  lemma FillFresh(m: Machine, c: nat, v: nat, b: nat, w: nat)
    requires m.WellFormed() && b < BLOCKS && BlockClean(m, b) && Fresh(m, b, w)
    requires c < BLOCKS && v < m.ways
    ensures Fresh(m.FillLine(c, v), b, w)
  {
    MaintainFresh(m, CleanInvalidate, c % m.sets, v, b, w);
    var n := m.CleanLine(c % m.sets, v).DropLine(c % m.sets, v);
    assert n == m.Maintain(CleanInvalidate, c % m.sets, v);
    if m.FillLine(c, v).Hits(b, w) && c % m.sets == b % m.sets && v == w {
      SameLine(m, b, c);
    }
  }

  /** A way that agrees with memory goes on doing so while the block is clean and nobody writes it. */
  lemma FreshStep(m: Machine, e: Event, b: nat, w: nat)
    requires m.WellFormed() && b < BLOCKS && BlockClean(m, b) && Fresh(m, b, w)
    requires (e.Store? || e.DeviceWrite?) ==> e.addr / 32 != b
    ensures Fresh(m.Apply(e), b, w)
  {
    match e
    case Store(a, x) =>
      if m.Enabled() {
        StoreElsewhere(m, a, x, b, w);
      }
    case SetWay(op, word) => MaintainFresh(m, op, word / 32 % 512, word / 0x4000_0000, b, w);
    case ByAddress(op, a) =>
      if m.FindWay(a / 32, m.ways).Some? {
        MaintainFresh(m, op, a / 32 % m.sets, m.FindWay(a / 32, m.ways).value, b, w);
      }
    case Fill(c, v) =>
      if m.Enabled() && c < BLOCKS && v < m.ways && m.FindWay(c, m.ways).None? {
        FillFresh(m, c, v, b, w);
      }
    case Evict(s, v) => MaintainFresh(m, CleanInvalidate, s, v, b, w);
    case _ =>
  }

  lemma {:induction false} StaysFresh(m: Machine, es: seq<Event>, b: nat, w: nat)
    requires m.WellFormed() && b < BLOCKS && BlockClean(m, b) && Fresh(m, b, w)
    requires NoStoreTo(es, b) && NoDeviceWriteTo(es, b)
    ensures Fresh(Run(m, es), b, w)
    decreases |es|
  {
    hide Machine.Apply, Machine.Dirty, Fresh;
    if es != [] {
      assert NoStoreTo(es[1..], b) && NoDeviceWriteTo(es[1..], b);
      FreshStep(m, es[0], b, w);
      forall v: nat ensures !m.Apply(es[0]).Dirty(b, v) {
        NotDirtied(m, es[0], b, v);
      }
      StaysFresh(m.Apply(es[0]), es[1..], b, w);
    }
  }

  // ----- the command for a block's way -----

  /** The command reaches way w of block b's set, by set and way or because it names the block. */
  predicate Targets(m: Machine, e: Event, op: Maintenance, b: nat, w: nat) {
    || (e.SetWay? && e.op == op && e.word / 32 % 512 == b % m.sets && e.word / 0x4000_0000 == w)
    || (e.ByAddress? && e.op == op && e.addr / 32 == b)
  }

  lemma TargetReached(m: Machine, e: Event, op: Maintenance, b: nat, w: nat)
    requires m.WellFormed() && Unique(m) && Targets(m, e, op, b, w)
    ensures !m.Apply(e).Dirty(b, w) && (op != Clean ==> !m.Apply(e).Hits(b, w))
  {
    if e.ByAddress? {
      Ranges.CommandForBlock(m, e);
    }
  }

  /** Once reached, a way no longer holds the block dirty, if no store to the block follows. */
  lemma ReachedNotDirty(m: Machine, es: seq<Event>, i: nat, op: Maintenance, b: nat, w: nat)
    requires m.WellFormed() && b < BLOCKS && i < |es| && NoStoreTo(es, b)
    requires Unique(Run(m, es[..i])) && Targets(m, es[i], op, b, w)
    ensures !Run(m, es).Dirty(b, w)
  {
    hide Machine.Apply, Machine.Dirty, Machine.Hits, Unique;
    var n := Run(m, es[..i]);
    Programs.RunAround(m, es, i);
    TargetReached(n, es[i], op, b, w);
    StaysNotDirty(n.Apply(es[i]), es[i + 1..], b, w);
  }

  /** And once dropped, it agrees with memory, if nobody writes the block during the run. */
  lemma ReachedFresh(m: Machine, es: seq<Event>, i: nat, op: Maintenance, b: nat, w: nat)
    requires m.WellFormed() && b < BLOCKS && i < |es| && NoStoreTo(es, b) && NoDeviceWriteTo(es, b)
    requires BlockClean(m, b) && op != Clean
    requires Unique(Run(m, es[..i])) && Targets(m, es[i], op, b, w)
    ensures Fresh(Run(m, es), b, w)
  {
    hide Machine.Apply, Machine.Dirty, Machine.Hits, Unique;
    var n := Run(m, es[..i]);
    Programs.RunAround(m, es, i);
    TargetReached(n, es[i], op, b, w);
    forall v: nat ensures !n.Apply(es[i]).Dirty(b, v) {
      StaysNotDirty(m, es[..i], b, v);
      NotDirtied(n, es[i], b, v);
    }
    StaysFresh(n.Apply(es[i]), es[i + 1..], b, w);
  }

  /** Blocks whose ways all agree with memory are not stale any more. */
  lemma FreshNotStale(m: Machine, flat: Memory, stale: set<nat>, less: set<nat>)
    requires Synced(m, flat, stale) && less <= stale
    requires forall b: nat, w: nat | b < BLOCKS && b in stale && b !in less :: Fresh(m, b, w)
    ensures Synced(m, flat, less)
  {
    forall b: nat | b < BLOCKS
      ensures Value(m, less, b) == flat[b]
    {
      assert Value(m, stale, b) == flat[b];
      if b in stale && b !in less {
        if w: nat :| m.Hits(b, w) {
          ViewOfHit(m, b, w);
          assert Fresh(m, b, w);
        } else {
          ViewOfMiss(m, b);
        }
      }
    }
    forall b: nat, w: nat | b < BLOCKS && m.Hits(b, w) && b !in less
      ensures m.LineOf(b, w).dirty || m.LineOf(b, w).data == m.mem[b]
    {
      if b in stale {
        assert Fresh(m, b, w);
      }
    }
  }

  // ----- what a clean leaves in the cache -----

  /** Neither the hardware nor a command takes a line out of the cache or brings one in. */
  ghost predicate KeepsLines(es: seq<Event>) {
    forall i | 0 <= i < |es| :: !Hardware(es[i]) && (es[i].SetWay? || es[i].ByAddress? ==> es[i].op == Clean)
  }

  ghost predicate SameHits(m: Machine, m': Machine) {
    forall b: nat, w: nat :: m'.Hits(b, w) == m.Hits(b, w)
  }

  ghost predicate SameData(m: Machine, m': Machine) {
    forall b: nat, w: nat | m.Hits(b, w) && m'.Hits(b, w) :: m'.LineOf(b, w).data == m.LineOf(b, w).data
  }

  lemma CleanLineKeeps(m: Machine, s: nat, w: nat)
    requires m.WellFormed()
    ensures SameHits(m, m.CleanLine(s, w)) && SameData(m, m.CleanLine(s, w))
  {
  }

  lemma KeepsStep(m: Machine, e: Event)
    requires m.WellFormed() && !Hardware(e) && (e.SetWay? || e.ByAddress? ==> e.op == Clean)
    ensures SameHits(m, m.Apply(e)) && (!e.Store? ==> SameData(m, m.Apply(e)))
  {
    match e
    case SetWay(_, word) => CleanLineKeeps(m, word / 32 % 512, word / 0x4000_0000);
    case ByAddress(_, a) =>
      if m.FindWay(a / 32, m.ways).Some? {
        CleanLineKeeps(m, a / 32 % m.sets, m.FindWay(a / 32, m.ways).value);
      }
    case _ =>
  }

  /** Every line stays where it is; without stores, with its data. */
  lemma {:induction false} LinesKept(m: Machine, es: seq<Event>)
    requires m.WellFormed() && KeepsLines(es)
    ensures SameHits(m, Run(m, es))
    ensures (forall i | 0 <= i < |es| :: !es[i].Store?) ==> SameData(m, Run(m, es))
    decreases |es|
  {
    hide Machine.Apply, Machine.Hits;
    if es != [] {
      assert KeepsLines(es[1..]) && (es[0].SetWay? || es[0].ByAddress? ==> es[0].op == Clean);
      KeepsStep(m, es[0]);
      LinesKept(m.Apply(es[0]), es[1..]);
    }
  }
}
