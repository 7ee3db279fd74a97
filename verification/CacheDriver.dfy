/**
 The CMSIS cache routines as register-writing code.  Before each register write the hardware may fill and
 evict lines as it likes, and interrupt handlers and devices may access memory; the ghost log records
 everything that happened.
 */
module CacheDriver {
  import opened Words
  import opened CacheModel
  import opened CacheCoherence
  import opened CacheCommands
  import opened CacheRuns
  import opened CachePrograms
  import opened CacheInterleaving
  import Transparency = CacheTransparency
  import Outcomes = CacheOutcomes
  import Ranges = CacheRanges
  import Ownership = CacheOwnership
  import Handover = CacheHandover

  /**
   From machine m and log `before` to machine m' and log `after`: the new log entries are exactly
   what ran, and they are `cmds` with anything asynchronous between.
   */
  ghost predicate Issued(m: Machine, before: seq<Event>, m': Machine, after: seq<Event>, cmds: seq<Event>) {
    && m.WellFormed() && before <= after
    && m' == Run(m, after[|before|..])
    && Interleaves(after[|before|..], cmds)
  }

  lemma IssuedThen(m0: Machine, l0: seq<Event>, m1: Machine, l1: seq<Event>, c1: seq<Event>,
                   m2: Machine, l2: seq<Event>, c2: seq<Event>)
    requires Issued(m0, l0, m1, l1, c1) && Issued(m1, l1, m2, l2, c2)
    ensures Issued(m0, l0, m2, l2, c1 + c2)
  {
    assert l2[|l0|..] == l1[|l0|..] + l2[|l1|..];
    RunConcat(m0, l1[|l0|..], l2[|l1|..]);
    InterleavesConcat(l1[|l0|..], c1, l2[|l1|..], c2);
  }

  lemma NothingIssued(m: Machine, l: seq<Event>)
    requires m.WellFormed()
    ensures Issued(m, l, m, l, [])
  {
    assert l[|l|..] == [];
  }

  lemma IssuedNothing(m: Machine, l: seq<Event>, op: Maintenance)
    requires m.WellFormed()
    ensures Issued(m, l, m, l, SetWayEvents(op, [])) && Issued(m, l, m, l, AddrEvents(op, []))
  {
    assert l[|l|..] == [];
  }

  lemma IssuedOne(m: Machine, l: seq<Event>, e: Event)
    requires m.WellFormed()
    ensures Issued(m, l, m.Apply(e), l + [e], [e])
    ensures Async(e) ==> Issued(m, l, m.Apply(e), l + [e], [])
  {
    hide Machine.Apply;
    assert (l + [e])[|l|..] == [e];
    assert [e][1..] == [] && [e][0] == e;
    assert Interleaves([e][1..], []);
    assert Run(m.Apply(e), [e][1..]) == m.Apply(e);
  }

  /** The words still to come when the loops stand at (s, w) and ways count down from `top`. */
  function Remaining(s: uint32, w: uint32, top: uint32): seq<uint32> {
    WayWords(s, w) + if s == 0 then [] else SetWayWords(s - 1, top)
  }

  lemma SweepRemains(op: Maintenance, g: Geometry)
    ensures Sweep(op, g) == SetWayEvents(op, Remaining(g.topSet, g.topWay, g.topWay))
  {
  }

  /** The words issued so far, followed by those still to come, are the whole sweep. */
  ghost predicate OnTrack(issued: seq<uint32>, s: uint32, w: uint32, top: uint32, all: seq<uint32>) {
    issued + Remaining(s, w, top) == all
  }

  lemma OnTrackStarts(s: uint32, w: uint32)
    ensures OnTrack([], s, w, w, Remaining(s, w, w))
  {
  }

  lemma OnTrackStep(issued: seq<uint32>, s: uint32, w: uint32, top: uint32, all: seq<uint32>)
    requires OnTrack(issued, s, w, top, all)
    ensures w > 0 ==> OnTrack(issued + [LineWord(s, w)], s, w - 1, top, all)
    ensures w == 0 && s > 0 ==> OnTrack(issued + [LineWord(s, w)], s - 1, top, top, all)
    ensures w == 0 && s == 0 ==> issued + [LineWord(s, w)] == all
  {
    hide Remaining, LineWord;
    RemainingStep(s, w, top);
    Associate(issued, [LineWord(s, w)],
              if w > 0 then Remaining(s, w - 1, top) else if s > 0 then Remaining(s - 1, top, top) else []);
  }

  lemma Associate<T>(a: seq<T>, b: seq<T>, c: seq<T>)
    ensures a + (b + c) == a + b + c
    ensures c == [] ==> a + b + c == a + b
  {
  }

  lemma RemainingStep(s: uint32, w: uint32, top: uint32)
    ensures Remaining(s, w, top) == [LineWord(s, w)] +
              if w > 0 then Remaining(s, w - 1, top) else if s > 0 then Remaining(s - 1, top, top) else []
  {
    hide LineWord;
  }

  /** Nothing but the hardware's own fills and evictions happened between the routine's register writes. */
  ghost predicate HardwareOnly(ran: seq<Event>, trace: seq<Event>) {
    Program(ran) == trace
  }

  lemma OneMoreCommand(op: Maintenance, words: seq<uint32>, word: uint32)
    ensures SetWayEvents(op, words) + [SetWay(op, word)] == SetWayEvents(op, words + [word])
    ensures AddrEvents(op, words) + [ByAddress(op, word)] == AddrEvents(op, words + [word])
  {
  }

  lemma DecrementValue(x: uint32)
    ensures x > 0 ==> Decrement(x) == x - 1
  {
  }

  lemma EnableEffect(m: Machine, g: Geometry, es: seq<Event>)
    requires m.WellFormed() && Describes(g, m) && HardwareOnly(es, Trace(Op.EnableDCache, g))
    ensures Fits(g) && !m.Enabled() ==> Run(m, es).Enabled() && Synced(Run(m, es), m.mem, {})
    ensures Fits(g) && m.Enabled() && Coherent(m, {}) ==>
              var m' := Run(m, es);
              && m'.Enabled() && LinesClean(m') && m'.mem == Outcomes.Snapshot(m') && Outcomes.OldContents(m, m')
              && (es == Trace(Op.EnableDCache, g) ==> m'.mem == m.mem)
  {
    if Fits(g) && !m.Enabled() {
      Transparency.EnableReady(m, m.mem, false, g, es);
    } else if Fits(g) && Coherent(m, {}) {
      Outcomes.EnableWhileOnOutcome(m, g, es);
    }
  }

  /** The macros read the geometry that the register reports, so the loops enumerate its sweep. */
  lemma SweepByMacros(op: Maintenance, ccsidr: uint32)
    ensures Sweep(op, GeometryOf(ccsidr)) ==
            SetWayEvents(op, Remaining(CcsidrSets(ccsidr), CcsidrWays(ccsidr), CcsidrWays(ccsidr)))
  {
    hide CcsidrSets, CcsidrWays;
    CcsidrFields(ccsidr);
    SweepRemains(op, GeometryOf(ccsidr));
  }

  /** The call may be made in a settled state, and everything that happens during it is permitted. */
  ghost predicate CallPermitted(m: Machine, flat: Memory, bufs: seq<Ownership.Buffer>, trusted: bool, op: Op,
                                ran: seq<Event>)
  {
    && Handover.Settled(m, flat, bufs, trusted) && m.WellFormed() && Handover.MayCall(op, m.Enabled(), trusted)
    && Handover.PermittedRun(m, bufs, op.DisableDCache? && m.Enabled(), ran)
  }

  /** Every reader saw the flat memory, and the state is settled again, the buffers with their new owners. */
  ghost predicate CallGood(m: Machine, flat: Memory, bufs: seq<Ownership.Buffer>, trusted: bool, op: Op,
                           ran: seq<Event>)
  {
    && m.WellFormed() && |flat| == BLOCKS && Faithful(m, flat, ran)
    && Handover.Settled(Run(m, ran), FlatRun(flat, ran),
                        Ownership.Returned(op, ran, Handover.OwnersAfter(m, bufs, ran)),
                        Transparency.NextTrusted(op, trusted))
  }

  /** However the call began and whatever buffers there are, permitted accesses inside it do no harm. */
  ghost predicate HarmlessCall(m: Machine, g: Geometry, op: Op, ran: seq<Event>) {
    Fits(g) ==> forall flat, bufs, trusted | CallPermitted(m, flat, bufs, trusted, op, ran) ::
      CallGood(m, flat, bufs, trusted, op, ran)
  }

  lemma CallIsHarmless(m: Machine, l: seq<Event>, m': Machine, l': seq<Event>, op: Op, g: Geometry)
    requires Describes(g, m) && Issued(m, l, m', l', Trace(op, g))
    ensures HarmlessCall(m, g, op, l'[|l|..])
  {
    if Fits(g) {
      forall flat, bufs, trusted | CallPermitted(m, flat, bufs, trusted, op, l'[|l|..])
        ensures CallGood(m, flat, bufs, trusted, op, l'[|l|..])
      {
        Handover.CallSettled(m, flat, bufs, trusted, op, g, l'[|l|..]);
      }
    }
  }

  lemma CleanKeeps(m: Machine, l: seq<Event>, m': Machine, l': seq<Event>, op: Op, g: Geometry)
    requires Issued(m, l, m', l', Trace(op, g)) && (op.CleanDCache? || op.CleanDCacheByAddr?)
    ensures (forall i | |l| <= i < |l'| :: !Hardware(l'[i])) ==> SameHits(m, m')
    ensures (forall i | |l| <= i < |l'| :: !Hardware(l'[i]) && !l'[i].Store?) ==> SameData(m, m')
  {
    hide Interleaves, Trace, SameHits, SameData;
    var ran := l'[|l|..];
    if forall i | |l| <= i < |l'| :: !Hardware(l'[i]) {
      assert forall i | 0 <= i < |ran| :: ran[i] == l'[|l| + i];
      Handover.CleanKeepsLines(m, op, g, ran);
    }
  }

  class Core {
    /** The data cache, its enable bit and memory. */
    var st: Machine
    var csselr: uint32
    /** What CCSIDR reads for the level 1 data cache, and for any other selection. */
    const ccsidrData: uint32
    const ccsidrOther: uint32
    ghost var log: seq<Event>

    ghost predicate Valid()
      reads this
    {
      st.WellFormed() && Describes(Shape(), st)
    }

    /** The cache's shape, as CCSIDR gives it. */
    ghost function Shape(): Geometry {
      GeometryOf(ccsidrData)
    }

    constructor (m: Machine, select: uint32, data: uint32, other: uint32)
      requires m.WellFormed() && Describes(GeometryOf(data), m)
      ensures Valid() && st == m && log == [] && csselr == select && ccsidrData == data && ccsidrOther == other
    {
      st, csselr, ccsidrData, ccsidrOther, log := m, select, data, other, [];
    }

    /** SCB->CCSIDR: CSSELR chooses which cache it describes; 0 is the level 1 data cache. */
    function ReadCCSIDR(): uint32
      reads this
    {
      if csselr == 0 then ccsidrData else ccsidrOther
    }

    /** Any number of line fills, evictions, and accesses by interrupt handlers and devices. */
    method Environment()
      requires Valid()
      modifies this
      ensures Valid() && csselr == old(csselr)
      ensures Issued(old(st), old(log), st, log, [])
    {
      hide Machine.Apply, Interleaves, Run, Async;
      var n :| n >= 0;
      NothingIssued(st, log);
      for i := 0 to n
        invariant Valid() && csselr == old(csselr)
        invariant Issued(old(st), old(log), st, log, [])
      {
        var e: Event := *;
        if Async(e) {
          IssuedOne(st, log, e);
          IssuedThen(old(st), old(log), st, log, [], st.Apply(e), log + [e], []);
          assert Issued(old(st), old(log), st.Apply(e), log + [e], []) by {
            var none: seq<Event> := [];
            assert none + none == none;
          }
          st := st.Apply(e);
          log := log + [e];
        }
      }
    }

    /** One access or register write by the program. */
    method Issue(e: Event)
      requires Valid()
      modifies this
      ensures Valid() && csselr == old(csselr)
      ensures Issued(old(st), old(log), st, log, [e])
    {
      hide Machine.Apply, Interleaves, Run;
      Environment();
      IssuedOne(st, log, e);
      IssuedThen(old(st), old(log), st, log, [], st.Apply(e), log + [e], [e]);
      assert [] + [e] == [e];
      st := st.Apply(e);
      log := log + [e];
    }

    method Load(a: uint32) returns (v: byte)
      requires Valid()
      modifies this
      ensures Valid() && csselr == old(csselr)
      ensures Issued(old(st), old(log), st, log, [Event.Load(a)])
      ensures v == st.CpuByte(a)
    {
      Issue(Event.Load(a));
      v := st.CpuByte(a);
    }

    lemma Begin(op: Maintenance)
      requires Valid()
      ensures Issued(st, log, st, log, SetWayEvents(op, []))
    {
      IssuedNothing(st, log, op);
    }

    /** One more command of a routine that started in machine m with log l. */
    method Proceed(e: Event, ghost m: Machine, ghost l: seq<Event>, ghost cmds: seq<Event>)
      requires Valid() && Issued(m, l, st, log, cmds)
      modifies this
      ensures Valid() && csselr == old(csselr)
      ensures Issued(m, l, st, log, cmds + [e])
    {
      ghost var was, logged := st, log;
      Issue(e);
      IssuedThen(m, l, was, logged, cmds, st, log, [e]);
    }

    /** The inner loop: one set, its ways from `top` down to 0. */
    method WayLoop(op: Maintenance, sets: uint32, top: uint32,
                   ghost m: Machine, ghost l: seq<Event>, ghost before: seq<uint32>, ghost all: seq<uint32>)
      returns (ghost issued: seq<uint32>)
      requires Valid() && Issued(m, l, st, log, SetWayEvents(op, before))
      requires OnTrack(before, sets, top, top, all)
      modifies this
      ensures Valid() && csselr == old(csselr)
      ensures Issued(m, l, st, log, SetWayEvents(op, issued))
      ensures if sets == 0 then issued == all
              else OnTrack(issued, sets - 1, top, top, all)
    {
      hide *;
      var ways := top;
      issued := before;
      while true
        invariant Valid() && csselr == old(csselr)
        invariant OnTrack(issued, sets, ways, top, all)
        invariant Issued(m, l, st, log, SetWayEvents(op, issued))
        decreases ways
      {
        var word := PackSetWay(sets, ways);
        PackValue(sets, ways);
        OneMoreCommand(op, issued, word);
        Proceed(SetWay(op, word), m, l, SetWayEvents(op, issued));
        OnTrackStep(issued, sets, ways, top, all);
        issued := issued + [word];
        var last := ways == 0;
        DecrementValue(ways);
        ways := Decrement(ways);
        if last {
          break;
        }
      }
    }

    /** The nested do-while loops shared by the five whole-cache routines. */
    method SetWayLoops(op: Maintenance, ccsidr: uint32)
      requires Valid()
      modifies this
      ensures Valid() && csselr == old(csselr)
      ensures Issued(old(st), old(log), st, log, Sweep(op, GeometryOf(ccsidr)))
    {
      hide *;
      Begin(op);
      var sets := CcsidrSets(ccsidr);
      ghost var all := Remaining(sets, CcsidrWays(ccsidr), CcsidrWays(ccsidr));
      ghost var issued: seq<uint32> := [];
      SweepByMacros(op, ccsidr);
      OnTrackStarts(sets, CcsidrWays(ccsidr));
      while true
        invariant Valid() && csselr == old(csselr)
        invariant OnTrack(issued, sets, CcsidrWays(ccsidr), CcsidrWays(ccsidr), all)
        invariant Issued(old(st), old(log), st, log, SetWayEvents(op, issued))
        decreases sets
      {
        issued := WayLoop(op, sets, CcsidrWays(ccsidr), old(st), old(log), issued, all);
        var last := sets == 0;
        DecrementValue(sets);
        sets := Decrement(sets);
        if last {
          break;
        }
      }
    }

    /** The loop shared by the three by-address routines. */
    method AddressLoop(op: Maintenance, addr: uint32, dsize: int32)
      requires Valid()
      modifies this
      ensures Valid() && csselr == old(csselr)
      ensures Issued(old(st), old(log), st, log, AddrEvents(op, AddrWords(addr, dsize)))
    {
      hide Issued;
      IssuedNothing(st, log, op);
      var opSize: int32 := dsize;
      var opAddr := addr;
      var lineSize: int32 := 32;
      ghost var issued: seq<uint32> := [];
      while opSize > 0
        invariant Valid() && csselr == old(csselr)
        invariant issued + AddrWords(opAddr, opSize) == AddrWords(addr, dsize)
        invariant Issued(old(st), old(log), st, log, AddrEvents(op, issued))
      {
        Proceed(ByAddress(op, opAddr), old(st), old(log), AddrEvents(op, issued));
        OneMoreCommand(op, issued, opAddr);
        issued := issued + [opAddr];
        opAddr := Add(opAddr, lineSize);
        opSize := opSize - lineSize;
      }
      assert issued == AddrWords(addr, dsize);
    }

    // ----- the routines -----

    /**
     From off, whatever the lines held, leaves the cache on with memory as its view; called while on,
     it discards what was not written back: undisturbed by the hardware, the view becomes the old memory.
     */
    method EnableDCache()
      requires Valid()
      modifies this
      ensures Valid() && csselr == 0
      ensures Issued(old(st), old(log), st, log, Trace(Op.EnableDCache, Shape()))
      ensures HarmlessCall(old(st), Shape(), Op.EnableDCache, log[|old(log)|..])
      ensures st.Enabled() && forall i: nat | i != 16 :: Bit(st.ccr, i) == Bit(old(st).ccr, i)
      ensures HardwareOnly(log[|old(log)|..], Trace(Op.EnableDCache, Shape())) ==>
                (Fits(Shape()) && !old(st.Enabled()) ==> st.Enabled() && Synced(st, old(st.mem), {}))
      ensures HardwareOnly(log[|old(log)|..], Trace(Op.EnableDCache, Shape()))
              && Fits(Shape()) && old(st.Enabled()) && Coherent(old(st), {}) ==>
                && st.Enabled() && LinesClean(st) && st.mem == Outcomes.Snapshot(st)
                && Outcomes.OldContents(old(st), st)
                && (log[|old(log)|..] == Trace(Op.EnableDCache, Shape()) ==> Outcomes.Snapshot(st) == old(st.mem))
    {
      csselr := 0;
      var ccsidr := ReadCCSIDR();
      SetWayLoops(Invalidate, ccsidr);
      ghost var was, logged := st, log;
      Issue(OrCCR(CCR_DC));
      IssuedThen(old(st), old(log), was, logged, Sweep(Invalidate, GeometryOf(ccsidr)), st, log, [OrCCR(CCR_DC)]);
      CallIsHarmless(old(st), old(log), st, log, Op.EnableDCache, Shape());
      Handover.CallCcr(old(st), Op.EnableDCache, Shape(), log[|old(log)|..]);
      if HardwareOnly(log[|old(log)|..], Trace(Op.EnableDCache, Shape())) {
        EnableEffect(old(st), Shape(), log[|old(log)|..]);
      }
    }

    /** Leaves the cache off and empty, and memory as the program last saw it. */
    method DisableDCache()
      requires Valid()
      modifies this
      ensures Valid() && csselr == 0
      ensures Issued(old(st), old(log), st, log, Trace(Op.DisableDCache, Shape()))
      ensures HarmlessCall(old(st), Shape(), Op.DisableDCache, log[|old(log)|..])
      ensures !st.Enabled() && forall i: nat | i != 16 :: Bit(st.ccr, i) == Bit(old(st).ccr, i)
      ensures HardwareOnly(log[|old(log)|..], Trace(Op.DisableDCache, Shape()))
              && Fits(Shape()) && Coherent(old(st), {}) ==>
                !st.Enabled() && LinesInvalid(st) && st.mem == Outcomes.Snapshot(old(st))
    {
      csselr := 0;
      Issue(BicCCR(CCR_DC));
      ghost var was, logged := st, log;
      var ccsidr := ReadCCSIDR();
      SetWayLoops(CleanInvalidate, ccsidr);
      IssuedThen(old(st), old(log), was, logged, [BicCCR(CCR_DC)], st, log, Sweep(CleanInvalidate, GeometryOf(ccsidr)));
      CallIsHarmless(old(st), old(log), st, log, Op.DisableDCache, Shape());
      Handover.CallCcr(old(st), Op.DisableDCache, Shape(), log[|old(log)|..]);
      if HardwareOnly(log[|old(log)|..], Trace(Op.DisableDCache, Shape())) && Fits(Shape()) && Coherent(old(st), {}) {
        Outcomes.DisableOutcome(old(st), Shape(), log[|old(log)|..]);
      }
    }

    /**
     Discards what the cache holds: each block keeps its old cached or its old memory contents, and
     undisturbed by the hardware always the latter.
     */
    method InvalidateDCache()
      requires Valid()
      modifies this
      ensures Valid() && csselr == 0
      ensures Issued(old(st), old(log), st, log, Trace(Op.InvalidateDCache, Shape()))
      ensures HarmlessCall(old(st), Shape(), Op.InvalidateDCache, log[|old(log)|..])
      ensures st.ccr == old(st).ccr
      ensures HardwareOnly(log[|old(log)|..], Trace(Op.InvalidateDCache, Shape()))
              && Fits(Shape()) && Coherent(old(st), {}) ==>
                && LinesClean(st) && st.mem == Outcomes.Snapshot(st) && Outcomes.OldContents(old(st), st)
                && (log[|old(log)|..] == Trace(Op.InvalidateDCache, Shape()) ==> Outcomes.Snapshot(st) == old(st.mem))
    {
      csselr := 0;
      var ccsidr := ReadCCSIDR();
      SetWayLoops(Invalidate, ccsidr);
      CallIsHarmless(old(st), old(log), st, log, Op.InvalidateDCache, Shape());
      Handover.CallCcr(old(st), Op.InvalidateDCache, Shape(), log[|old(log)|..]);
      if HardwareOnly(log[|old(log)|..], Trace(Op.InvalidateDCache, Shape()))
         && Fits(Shape()) && Coherent(old(st), {}) {
        Outcomes.InvalidateOutcome(old(st), Shape(), log[|old(log)|..]);
      }
    }

    /** Leaves nothing dirty, the view unchanged and memory equal to it. */
    method CleanDCache()
      requires Valid()
      modifies this
      ensures Valid() && csselr == 0
      ensures Issued(old(st), old(log), st, log, Trace(Op.CleanDCache, Shape()))
      ensures HarmlessCall(old(st), Shape(), Op.CleanDCache, log[|old(log)|..])
      ensures st.ccr == old(st).ccr
      ensures (forall i | |old(log)| <= i < |log| :: !Hardware(log[i])) ==> SameHits(old(st), st)
      ensures (forall i | |old(log)| <= i < |log| :: !Hardware(log[i]) && !log[i].Store?) ==> SameData(old(st), st)
      ensures HardwareOnly(log[|old(log)|..], Trace(Op.CleanDCache, Shape()))
              && Fits(Shape()) && Coherent(old(st), {}) ==>
                LinesClean(st) && st.mem == Outcomes.Snapshot(old(st))
                && Outcomes.Snapshot(st) == Outcomes.Snapshot(old(st))
    {
      csselr := 0;
      var ccsidr := ReadCCSIDR();
      SetWayLoops(Clean, ccsidr);
      CallIsHarmless(old(st), old(log), st, log, Op.CleanDCache, Shape());
      Handover.CallCcr(old(st), Op.CleanDCache, Shape(), log[|old(log)|..]);
      CleanKeeps(old(st), old(log), st, log, Op.CleanDCache, Shape());
      if HardwareOnly(log[|old(log)|..], Trace(Op.CleanDCache, Shape())) && Fits(Shape()) && Coherent(old(st), {}) {
        Outcomes.CleanOutcome(old(st), Shape(), log[|old(log)|..]);
      }
    }

    /** As a clean, and nothing valid is left but what the hardware filled meanwhile. */
    method CleanInvalidateDCache()
      requires Valid()
      modifies this
      ensures Valid() && csselr == 0
      ensures Issued(old(st), old(log), st, log, Trace(Op.CleanInvalidateDCache, Shape()))
      ensures HarmlessCall(old(st), Shape(), Op.CleanInvalidateDCache, log[|old(log)|..])
      ensures st.ccr == old(st).ccr
      ensures HardwareOnly(log[|old(log)|..], Trace(Op.CleanInvalidateDCache, Shape()))
              && Fits(Shape()) && Coherent(old(st), {}) ==>
                && LinesClean(st) && st.mem == Outcomes.Snapshot(old(st))
                && Outcomes.Snapshot(st) == Outcomes.Snapshot(old(st))
                && (!old(st.Enabled()) || NoFills(log[|old(log)|..]) ==> LinesInvalid(st))
    {
      csselr := 0;
      var ccsidr := ReadCCSIDR();
      SetWayLoops(CleanInvalidate, ccsidr);
      CallIsHarmless(old(st), old(log), st, log, Op.CleanInvalidateDCache, Shape());
      Handover.CallCcr(old(st), Op.CleanInvalidateDCache, Shape(), log[|old(log)|..]);
      if HardwareOnly(log[|old(log)|..], Trace(Op.CleanInvalidateDCache, Shape()))
         && Fits(Shape()) && Coherent(old(st), {}) {
        Outcomes.CleanInvalidateOutcome(old(st), Shape(), log[|old(log)|..]);
      }
    }

    /**
     Discards the range's lines: each keeps its old cached or its old memory contents, undisturbed by the
     hardware always the latter, and no other line changes in any reader's view.
     */
    method InvalidateDCacheByAddr(addr: uint32, dsize: int32)
      requires Valid()
      modifies this
      ensures Valid() && csselr == old(csselr)
      ensures Issued(old(st), old(log), st, log, Trace(Op.InvalidateDCacheByAddr(addr, dsize), Shape()))
      ensures HarmlessCall(old(st), Shape(), Op.InvalidateDCacheByAddr(addr, dsize), log[|old(log)|..])
      ensures st.ccr == old(st).ccr
      ensures HardwareOnly(log[|old(log)|..], Trace(Op.InvalidateDCacheByAddr(addr, dsize), Shape()))
              && Coherent(old(st), {}) ==>
                && Coherent(st, {}) && Outcomes.OldContents(old(st), st) && Ranges.InMemory(st, AddrWords(addr, dsize))
                && (forall b: nat | b < BLOCKS && !Touches(AddrWords(addr, dsize), b) :: st.View(b) == old(st).View(b))
                && (log[|old(log)|..] == Trace(Op.InvalidateDCacheByAddr(addr, dsize), Shape()) ==>
                    st.mem == old(st).mem)
                && (NoFills(log[|old(log)|..]) ==> Ranges.NoneHeld(st, AddrWords(addr, dsize)))
    {
      AddressLoop(Invalidate, addr, dsize);
      CallIsHarmless(old(st), old(log), st, log, Op.InvalidateDCacheByAddr(addr, dsize), Shape());
      Handover.CallCcr(old(st), Op.InvalidateDCacheByAddr(addr, dsize), Shape(), log[|old(log)|..]);
      if HardwareOnly(log[|old(log)|..], Trace(Op.InvalidateDCacheByAddr(addr, dsize), Shape()))
         && Coherent(old(st), {}) {
        Ranges.InvalidateWords(old(st), AddrWords(addr, dsize), log[|old(log)|..]);
      }
    }

    /**
     Puts every line it names into memory and changes no reader's view; that is the whole range unless
     its offsets carry into one more line.
     */
    method CleanDCacheByAddr(addr: uint32, dsize: int32)
      requires Valid()
      modifies this
      ensures Valid() && csselr == old(csselr)
      ensures Issued(old(st), old(log), st, log, Trace(Op.CleanDCacheByAddr(addr, dsize), Shape()))
      ensures HarmlessCall(old(st), Shape(), Op.CleanDCacheByAddr(addr, dsize), log[|old(log)|..])
      ensures st.ccr == old(st).ccr
      ensures (forall i | |old(log)| <= i < |log| :: !Hardware(log[i])) ==> SameHits(old(st), st)
      ensures (forall i | |old(log)| <= i < |log| :: !Hardware(log[i]) && !log[i].Store?) ==> SameData(old(st), st)
      ensures HardwareOnly(log[|old(log)|..], Trace(Op.CleanDCacheByAddr(addr, dsize), Shape()))
              && Coherent(old(st), {}) ==>
                Coherent(st, {}) && Outcomes.Snapshot(st) == Outcomes.Snapshot(old(st))
                && Ranges.InMemory(st, AddrWords(addr, dsize))
      ensures HardwareOnly(log[|old(log)|..], Trace(Op.CleanDCacheByAddr(addr, dsize), Shape()))
              && Coherent(old(st), {}) && 0 < dsize && addr + dsize <= WORD && Ranges.NoCarry(addr, dsize) ==>
                forall x: uint32 | addr <= x < addr + dsize :: st.MemByte(x) == old(st).View(x / 32)[x % 32]
    {
      AddressLoop(Clean, addr, dsize);
      CallIsHarmless(old(st), old(log), st, log, Op.CleanDCacheByAddr(addr, dsize), Shape());
      Handover.CallCcr(old(st), Op.CleanDCacheByAddr(addr, dsize), Shape(), log[|old(log)|..]);
      CleanKeeps(old(st), old(log), st, log, Op.CleanDCacheByAddr(addr, dsize), Shape());
      if HardwareOnly(log[|old(log)|..], Trace(Op.CleanDCacheByAddr(addr, dsize), Shape())) && Coherent(old(st), {}) {
        Ranges.CleanWords(old(st), Clean, AddrWords(addr, dsize), log[|old(log)|..]);
        if 0 < dsize && addr + dsize <= WORD && Ranges.NoCarry(addr, dsize) {
          forall x: uint32 | addr <= x < addr + dsize
            ensures st.MemByte(x) == old(st).View(x / 32)[x % 32]
          {
            Ranges.CleanReaches(old(st), addr, dsize, log[|old(log)|..], x);
          }
        }
      }
    }

    /** As a clean, and none of the lines it names stays cached but by a refill. */
    method CleanInvalidateDCacheByAddr(addr: uint32, dsize: int32)
      requires Valid()
      modifies this
      ensures Valid() && csselr == old(csselr)
      ensures Issued(old(st), old(log), st, log, Trace(Op.CleanInvalidateDCacheByAddr(addr, dsize), Shape()))
      ensures HarmlessCall(old(st), Shape(), Op.CleanInvalidateDCacheByAddr(addr, dsize), log[|old(log)|..])
      ensures st.ccr == old(st).ccr
      ensures HardwareOnly(log[|old(log)|..], Trace(Op.CleanInvalidateDCacheByAddr(addr, dsize), Shape()))
              && Coherent(old(st), {}) ==>
                && Coherent(st, {}) && Outcomes.Snapshot(st) == Outcomes.Snapshot(old(st))
                && Ranges.InMemory(st, AddrWords(addr, dsize))
                && (NoFills(log[|old(log)|..]) ==> Ranges.NoneHeld(st, AddrWords(addr, dsize)))
    {
      AddressLoop(CleanInvalidate, addr, dsize);
      CallIsHarmless(old(st), old(log), st, log, Op.CleanInvalidateDCacheByAddr(addr, dsize), Shape());
      Handover.CallCcr(old(st), Op.CleanInvalidateDCacheByAddr(addr, dsize), Shape(), log[|old(log)|..]);
      if HardwareOnly(log[|old(log)|..], Trace(Op.CleanInvalidateDCacheByAddr(addr, dsize), Shape()))
         && Coherent(old(st), {}) {
        Ranges.CleanWords(old(st), CleanInvalidate, AddrWords(addr, dsize), log[|old(log)|..]);
      }
    }

    // ----- whole programs -----

    /**
     One operation: its events with anything asynchronous between.  If the call is allowed and what
     happens meanwhile is permitted, every reader sees the flat memory and the invariant holds again.
     */
    method Perform(op: Op)
      requires Valid()
      modifies this
      ensures Valid()
      ensures Issued(old(st), old(log), st, log, Trace(op, Shape()))
      ensures HarmlessCall(old(st), Shape(), op, log[|old(log)|..])
    {
      match op {
        case CpuLoad(a) => var _ := Load(a);
        case CpuStore(a, v) => Issue(Store(a, v));
        case DmaRead(a) => Issue(DeviceRead(a));
        case DmaWrite(a, v) => Issue(DeviceWrite(a, v));
        case EnableDCache => EnableDCache();
        case DisableDCache => DisableDCache();
        case InvalidateDCache => InvalidateDCache();
        case CleanDCache => CleanDCache();
        case CleanInvalidateDCache => CleanInvalidateDCache();
        case InvalidateDCacheByAddr(a, n) => InvalidateDCacheByAddr(a, n);
        case CleanDCacheByAddr(a, n) => CleanDCacheByAddr(a, n);
        case CleanInvalidateDCacheByAddr(a, n) => CleanInvalidateDCacheByAddr(a, n);
      }
      CallIsHarmless(old(st), old(log), st, log, op, Shape());
    }

    /**
     Any program, run by calling the routines above: one piece of the log for each operation.  Whatever
     buffers there are and wherever it starts, if the run is disciplined every reader sees one flat memory;
     without devices, from off, it is enough that the program is legal and disables with care.
     */
    method Execute(ops: seq<Op>) returns (ghost pieces: seq<Handover.Piece>)
      requires Valid() && Fits(Shape())
      modifies this
      ensures Valid()
      ensures Handover.Calls(pieces) == ops && Handover.AllCarried(pieces, Shape())
      ensures log == old(log) + Handover.Events(pieces) && st == Run(old(st), Handover.Events(pieces))
      ensures forall flat, bufs, trusted |
                && Handover.Settled(old(st), flat, bufs, trusted)
                && Handover.Disciplined(old(st), bufs, trusted, pieces) ::
                Faithful(old(st), flat, Handover.Events(pieces))
      ensures !old(st.Enabled()) && Transparency.Legal(ops, false, LinesClean(old(st)))
              && Handover.AllCpuOnly(pieces) && Handover.DisablesWithCare(old(st), pieces) ==>
                Faithful(old(st), old(st.mem), Handover.Events(pieces))
    {
      hide Machine.Apply, Interleaves, Trace, Run, Handover.Settled, Handover.Disciplined, Handover.Events, Faithful,
           HarmlessCall, Transparency.Legal, Handover.AllCpuOnly, Handover.DisablesWithCare, LinesClean,
           Handover.AllCarried;
      pieces := [];
      NoPieces(old(st), Shape());
      for i := 0 to |ops|
        invariant Valid() && |pieces| == i
        invariant Handover.AllCarried(pieces, Shape()) && forall k | 0 <= k < i :: pieces[k].op == ops[k]
        invariant log == old(log) + Handover.Events(pieces) && st == Run(old(st), Handover.Events(pieces))
      {
        ghost var was, logged := st, log;
        Perform(ops[i]);
        ghost var p := Handover.Piece(ops[i], log[|logged|..]);
        OnePieceMore(old(st), old(log), pieces, was, logged, st, log, ops[i], Shape());
        pieces := pieces + [p];
      }
      assert Handover.Calls(pieces) == ops;
      EveryReader(old(st), pieces, Shape());
      if !old(st.Enabled()) && Transparency.Legal(ops, false, LinesClean(old(st)))
         && Handover.AllCpuOnly(pieces) && Handover.DisablesWithCare(old(st), pieces) {
        Handover.InterruptTransparency(old(st), pieces, Shape());
      }
    }
  }

  lemma {:induction false} EventsAppend(pieces: seq<Handover.Piece>, p: Handover.Piece)
    ensures Handover.Events(pieces + [p]) == Handover.Events(pieces) + p.es
  {
    if pieces == [] {
      assert [p][1..] == [];
    } else {
      assert (pieces + [p])[1..] == pieces[1..] + [p];
      EventsAppend(pieces[1..], p);
    }
  }

  /** What the run means, whatever buffers there are and whatever state it started from. */
  lemma EveryReader(m: Machine, pieces: seq<Handover.Piece>, g: Geometry)
    requires m.WellFormed() && Describes(g, m) && Fits(g) && Handover.AllCarried(pieces, g)
    ensures forall flat, bufs, trusted |
              Handover.Settled(m, flat, bufs, trusted) && Handover.Disciplined(m, bufs, trusted, pieces) ::
              Faithful(m, flat, Handover.Events(pieces))
  {
    forall flat, bufs, trusted |
      Handover.Settled(m, flat, bufs, trusted) && Handover.Disciplined(m, bufs, trusted, pieces)
      ensures Faithful(m, flat, Handover.Events(pieces))
    {
      Handover.Handover(m, flat, bufs, trusted, pieces, g);
    }
  }

  lemma NoPieces(m: Machine, g: Geometry)
    requires m.WellFormed()
    ensures Handover.Events([]) == [] && Run(m, []) == m && Handover.AllCarried([], g)
  {
  }

  lemma OnePieceMore(m: Machine, l: seq<Event>, pieces: seq<Handover.Piece>, was: Machine, logged: seq<Event>,
                     now: Machine, log: seq<Event>, op: Op, g: Geometry)
    requires m.WellFormed() && logged == l + Handover.Events(pieces) && was == Run(m, Handover.Events(pieces))
    requires Issued(was, logged, now, log, Trace(op, g)) && Handover.AllCarried(pieces, g)
    ensures |logged| <= |log|
    ensures var pieces' := pieces + [Handover.Piece(op, log[|logged|..])];
            && Handover.AllCarried(pieces', g)
            && log == l + Handover.Events(pieces') && now == Run(m, Handover.Events(pieces'))
  {
    hide *;
    IssuedParts(was, logged, now, log, op, g);
    var p := Handover.Piece(op, log[|logged|..]);
    EventsAppend(pieces, p);
    CarriedAppend(pieces, p, g);
    RunConcat(m, Handover.Events(pieces), p.es);
    assert logged + p.es == l + (Handover.Events(pieces) + p.es);
  }

  lemma IssuedParts(m: Machine, l: seq<Event>, m': Machine, l': seq<Event>, op: Op, g: Geometry)
    requires Issued(m, l, m', l', Trace(op, g))
    ensures |l| <= |l'| && l' == l + l'[|l|..]
    ensures m.WellFormed() && m' == Run(m, l'[|l|..]) && Handover.Carried(Handover.Piece(op, l'[|l|..]), g)
  {
    hide Machine.Apply, Interleaves, Trace, Run;
  }

  lemma CarriedAppend(pieces: seq<Handover.Piece>, p: Handover.Piece, g: Geometry)
    requires Handover.AllCarried(pieces, g) && Handover.Carried(p, g)
    ensures Handover.AllCarried(pieces + [p], g)
  {
    hide Handover.Carried;
  }
}
