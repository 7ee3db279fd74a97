/**
 Buffers shared with DMA devices while the cache is on: who has each, what either side may do then, and
 how the cache routines hand them over.
 */
module CacheOwnership {
  import opened Words
  import opened CacheModel
  import opened CacheCoherence
  import opened CacheRuns
  import opened CachePrograms
  import opened CacheInterleaving
  import Commands = CacheCommands
  import Ranges = CacheRanges

  /**
   `Cpu`: the CPU may have written the buffer since it was last cleaned.  `Shared`: both sides may
   read.  `Device`: the device may have written it since the CPU last invalidated it.
   */
  datatype Owner = Cpu | Shared | Device

  /** A buffer and who has it.  It starts on a line boundary and is a whole number of lines long. */
  datatype Buffer = Buffer(base: uint32, size: int32, owner: Owner) {
    predicate Aligned() {
      0 < size && base % 32 == 0 && size % 32 == 0 && base + size <= WORD
    }

    predicate Contains(a: nat) {
      base <= a < base + size
    }

    predicate Covers(b: nat) {
      base / 32 <= b < (base + size) / 32
    }

    function Blocks(): set<nat> {
      set b: nat | b < BLOCKS && Covers(b)
    }

    predicate Apart(other: Buffer) {
      base + size <= other.base || other.base + other.size <= base
    }

    predicate SamePlace(other: Buffer) {
      base == other.base && size == other.size
    }

    /** Who has the buffer after an event: a CPU store takes it, a device write takes it. */
    function NextOwner(e: Event): Owner {
      match e
      case Store(a, _) => if Contains(a) then Cpu else owner
      case DeviceWrite(a, _) => if Contains(a) then Device else owner
      case _ => owner
    }

    /** Nobody writes the buffer during the run. */
    ghost predicate LeftAlone(es: seq<Event>) {
      forall i | 0 <= i < |es| :: es[i].Store? || es[i].DeviceWrite? ==> !Contains(es[i].addr)
    }

    /** The call issues its command for every line of the buffer. */
    ghost predicate Reached(op: Op) {
      || op.CleanDCache? || op.CleanInvalidateDCache?
      || ((op.CleanDCacheByAddr? || op.CleanInvalidateDCacheByAddr? || op.InvalidateDCacheByAddr?)
          && forall b | b in Blocks() :: Commands.Touches(Commands.AddrWords(op.addr, op.dsize), b))
    }

    /**
     Who has the buffer when a call returns, during which es happened.  A call that reaches all of it,
     while nobody writes it, shares it: what was the CPU's if the call writes back, and what was the
     device's if the call drops lines.
     */
    ghost function ReturnedOwner(op: Op, es: seq<Event>): Owner {
      if Reached(op) && LeftAlone(es) && (owner == Cpu ==> WritesBack(op)) && (owner == Device ==> DropsLines(op))
      then Shared else owner
    }

    /** The call's return changes hands. */
    ghost predicate Moves(op: Op, es: seq<Event>) {
      owner != ReturnedOwner(op, es)
    }
  }

  predicate WritesBack(op: Op) {
    op.CleanDCache? || op.CleanInvalidateDCache? || op.CleanDCacheByAddr? || op.CleanInvalidateDCacheByAddr?
  }

  predicate DropsLines(op: Op) {
    op.CleanInvalidateDCache? || op.CleanInvalidateDCacheByAddr? || op.InvalidateDCacheByAddr?
  }

  /** The command a routine issues. */
  function CommandOf(op: Op): Maintenance {
    if op.CleanDCache? || op.CleanDCacheByAddr? then Clean
    else if op.InvalidateDCache? || op.InvalidateDCacheByAddr? || op.EnableDCache? then Invalidate
    else CleanInvalidate
  }

  /** Any number of buffers, aligned, none overlapping another. */
  ghost predicate Arranged(bufs: seq<Buffer>) {
    && (forall i | 0 <= i < |bufs| :: bufs[i].Aligned())
    && (forall i, j | 0 <= i < j < |bufs| :: bufs[i].Apart(bufs[j]))
  }

  /** The address lies in a buffer that the CPU has given up. */
  ghost predicate GivenUp(bufs: seq<Buffer>, a: nat) {
    exists i | 0 <= i < |bufs| :: bufs[i].Contains(a) && bufs[i].owner != Cpu
  }

  /** No device has the address. */
  ghost predicate NotDevices(bufs: seq<Buffer>, a: nat) {
    forall i | 0 <= i < |bufs| && bufs[i].Contains(a) :: bufs[i].owner != Device
  }

  /**
   The discipline while the cache is on, event by event: the CPU keeps off what a device has, devices
   keep to what the CPU has given up, and only that may be invalidated.
   */
  ghost predicate PermittedOn(bufs: seq<Buffer>, e: Event) {
    match e
    case Load(a) => NotDevices(bufs, a)
    case Store(a, _) => NotDevices(bufs, a)
    case DeviceRead(a) => GivenUp(bufs, a)
    case DeviceWrite(a, _) => GivenUp(bufs, a)
    case ByAddress(op, a) => op == Invalidate ==> GivenUp(bufs, a)
    case SetWay(op, _) => op != Invalidate
    case Fill(_, _) => true
    case Evict(_, _) => true
    case _ => false
  }

  function After(bufs: seq<Buffer>, e: Event): (bufs': seq<Buffer>)
    ensures |bufs'| == |bufs|
    ensures forall i | 0 <= i < |bufs| :: bufs'[i].SamePlace(bufs[i]) && bufs'[i].owner == bufs[i].NextOwner(e)
  {
    seq(|bufs|, i requires 0 <= i < |bufs| => bufs[i].(owner := bufs[i].NextOwner(e)))
  }

  ghost function Returned(op: Op, es: seq<Event>, bufs: seq<Buffer>): (bufs': seq<Buffer>)
    ensures |bufs'| == |bufs|
    ensures forall i | 0 <= i < |bufs| ::
              bufs'[i].SamePlace(bufs[i]) && bufs'[i].owner == bufs[i].ReturnedOwner(op, es)
  {
    seq(|bufs|, i requires 0 <= i < |bufs| => bufs[i].(owner := bufs[i].ReturnedOwner(op, es)))
  }

  ghost predicate DeviceHas(bufs: seq<Buffer>, b: nat) {
    exists i | 0 <= i < |bufs| :: bufs[i].owner == Device && bufs[i].Covers(b)
  }

  /** The blocks whose cached copies may be out of date. */
  ghost function Stale(bufs: seq<Buffer>): set<nat> {
    set b: nat | b < BLOCKS && DeviceHas(bufs, b)
  }

  /** Nothing of the buffers that both sides may read is dirty. */
  ghost predicate SharedClean(m: Machine, bufs: seq<Buffer>) {
    forall i | 0 <= i < |bufs| && bufs[i].owner == Shared :: NoDirtyIn(m, bufs[i].Blocks())
  }

  /** The invariant between operations. */
  ghost predicate Held(m: Machine, flat: Memory, bufs: seq<Buffer>) {
    && Arranged(bufs) && m.WellFormed() && |flat| == BLOCKS && m.Enabled()
    && Synced(m, flat, Stale(bufs))
    && SharedClean(m, bufs)
  }

  lemma HeldShape(m: Machine, flat: Memory, bufs: seq<Buffer>)
    requires Held(m, flat, bufs)
    ensures Arranged(bufs) && m.WellFormed() && |flat| == BLOCKS && m.Enabled()
  {
  }

  // ----- which blocks are stale -----

  lemma BufferBlocks(buf: Buffer, a: uint32)
    requires buf.Aligned()
    ensures buf.Contains(a) <==> a / 32 in buf.Blocks()
  {
  }

  lemma OneCover(bufs: seq<Buffer>, i: nat, j: nat, b: nat)
    requires Arranged(bufs) && i < |bufs| && j < |bufs| && bufs[i].Covers(b) && bufs[j].Covers(b)
    ensures i == j
  {
    forall p, q | 0 <= p < q < |bufs|
      ensures !(bufs[p].Covers(b) && bufs[q].Covers(b))
    {
      assert bufs[p].Apart(bufs[q]);
    }
  }

  lemma OneContains(bufs: seq<Buffer>, i: nat, a: nat)
    requires Arranged(bufs) && i < |bufs| && bufs[i].Contains(a)
    ensures forall j | 0 <= j < |bufs| && j != i :: !bufs[j].Contains(a)
  {
    forall p, q | 0 <= p < q < |bufs|
      ensures !(bufs[p].Contains(a) && bufs[q].Contains(a))
    {
      assert bufs[p].Apart(bufs[q]);
    }
  }

  ghost predicate SamePlaces(bufs: seq<Buffer>, bufs': seq<Buffer>) {
    |bufs'| == |bufs| && forall i | 0 <= i < |bufs| :: bufs'[i].SamePlace(bufs[i])
  }

  lemma StaysArranged(bufs: seq<Buffer>, bufs': seq<Buffer>)
    requires Arranged(bufs) && SamePlaces(bufs, bufs')
    ensures Arranged(bufs')
  {
    forall i, j | 0 <= i < j < |bufs'|
      ensures bufs'[i].Apart(bufs'[j])
    {
      assert bufs[i].Apart(bufs[j]);
    }
  }

  lemma StaleSame(bufs: seq<Buffer>, bufs': seq<Buffer>)
    requires SamePlaces(bufs, bufs')
    requires forall i | 0 <= i < |bufs| :: bufs'[i].owner == Device <==> bufs[i].owner == Device
    ensures Stale(bufs') == Stale(bufs)
  {
    forall b: nat
      ensures DeviceHas(bufs', b) <==> DeviceHas(bufs, b)
    {
      if DeviceHas(bufs, b) {
        var j :| 0 <= j < |bufs| && bufs[j].owner == Device && bufs[j].Covers(b);
        assert bufs'[j].Covers(b);
      }
      if DeviceHas(bufs', b) {
        var j :| 0 <= j < |bufs'| && bufs'[j].owner == Device && bufs'[j].Covers(b);
        assert bufs[j].Covers(b);
      }
    }
  }

  /** Buffer i alone changes hands. */
  lemma StaleChange(bufs: seq<Buffer>, bufs': seq<Buffer>, i: nat)
    requires Arranged(bufs) && SamePlaces(bufs, bufs') && i < |bufs|
    requires forall j | 0 <= j < |bufs| && j != i :: bufs'[j].owner == Device <==> bufs[j].owner == Device
    ensures bufs'[i].owner == Device ==> Stale(bufs') == Stale(bufs) + bufs[i].Blocks()
    ensures bufs'[i].owner != Device ==> Stale(bufs') == Stale(bufs) - bufs[i].Blocks()
  {
    forall b: nat
      ensures DeviceHas(bufs', b) <==> if bufs[i].Covers(b) then bufs'[i].owner == Device else DeviceHas(bufs, b)
    {
      if bufs[i].Covers(b) {
        assert bufs'[i].Covers(b);
        forall j | 0 <= j < |bufs'| && bufs'[j].Covers(b)
          ensures j == i
        {
          assert bufs[j].Covers(b);
          OneCover(bufs, i, j, b);
        }
      } else {
        if DeviceHas(bufs, b) {
          var j :| 0 <= j < |bufs| && bufs[j].owner == Device && bufs[j].Covers(b);
          assert bufs'[j].Covers(b);
        }
        if DeviceHas(bufs', b) {
          var j :| 0 <= j < |bufs'| && bufs'[j].owner == Device && bufs'[j].Covers(b);
          assert bufs[j].Covers(b);
        }
      }
    }
  }

  /** The CPU's own addresses, and those outside every buffer, are not stale. */
  lemma NotStale(bufs: seq<Buffer>, a: uint32)
    requires Arranged(bufs) && forall i | 0 <= i < |bufs| && bufs[i].Contains(a) :: bufs[i].owner != Device
    ensures a / 32 !in Stale(bufs)
  {
    forall i | 0 <= i < |bufs| && bufs[i].Covers(a / 32)
      ensures bufs[i].owner != Device
    {
      BufferBlocks(bufs[i], a);
    }
  }

  /** Blocks without a dirty line may be treated as stale: memory already is their truth. */
  lemma MoreStale(m: Machine, flat: Memory, stale: set<nat>, blocks: set<nat>)
    requires Synced(m, flat, stale) && NoDirtyIn(m, blocks)
    ensures Synced(m, flat, stale + blocks)
    ensures forall b | b in blocks && b < BLOCKS :: m.mem[b] == flat[b]
  {
    forall b: nat | b < BLOCKS
      ensures Value(m, stale + blocks, b) == flat[b]
      ensures b in blocks ==> m.mem[b] == flat[b]
    {
      assert Value(m, stale, b) == flat[b];
      if b in blocks && b !in stale {
        if w: nat :| m.Hits(b, w) {
          ViewOfHit(m, b, w);
          assert !m.Dirty(b, w);
        } else {
          ViewOfMiss(m, b);
        }
      }
    }
    forall b: nat, w: nat | b in blocks && m.Hits(b, w)
      ensures !m.LineOf(b, w).dirty
    {
      assert !m.Dirty(b, w);
    }
  }

  /** A buffer that is not the CPU's has no dirty line. */
  lemma GivenUpClean(m: Machine, flat: Memory, bufs: seq<Buffer>, i: nat)
    requires Held(m, flat, bufs) && i < |bufs| && bufs[i].owner != Cpu
    ensures NoDirtyIn(m, bufs[i].Blocks())
  {
    if bufs[i].owner == Device {
      forall b: nat, w: nat | b in bufs[i].Blocks()
        ensures !m.Dirty(b, w)
      {
        assert DeviceHas(bufs, b);
        assert b in Stale(bufs);
      }
    }
  }

  // ----- single events -----

  lemma QuietHeld(m: Machine, flat: Memory, bufs: seq<Buffer>, e: Event)
    requires Held(m, flat, bufs) && Quiet(e)
    ensures Held(m.Apply(e), flat, bufs)
  {
    QuietStep(m, flat, Stale(bufs), e);
  }

  lemma LoadHeld(m: Machine, flat: Memory, bufs: seq<Buffer>, a: uint32)
    requires Held(m, flat, bufs) && NotDevices(bufs, a)
    ensures Observes(m, flat, Load(a))
  {
    NotStale(bufs, a);
    assert Value(m, Stale(bufs), a / 32) == flat[a / 32];
  }

  lemma StoreHeld(m: Machine, flat: Memory, bufs: seq<Buffer>, a: uint32, v: byte)
    requires Held(m, flat, bufs) && NotDevices(bufs, a)
    ensures Held(m.Apply(Store(a, v)), FlatApply(flat, Store(a, v)), After(bufs, Store(a, v)))
  {
    var bufs' := After(bufs, Store(a, v));
    NotStale(bufs, a);
    StaysArranged(bufs, bufs');
    StaleSame(bufs, bufs');
    StoreSynced(m, flat, Stale(bufs), a, v);
    forall i | 0 <= i < |bufs'| && bufs'[i].owner == Shared
      ensures NoDirtyIn(m.Apply(Store(a, v)), bufs'[i].Blocks())
    {
      BufferBlocks(bufs[i], a);
      assert bufs'[i].Blocks() == bufs[i].Blocks();
    }
  }

  lemma ReadHeld(m: Machine, flat: Memory, bufs: seq<Buffer>, a: uint32)
    requires Held(m, flat, bufs) && GivenUp(bufs, a)
    ensures Observes(m, flat, DeviceRead(a))
  {
    var i :| 0 <= i < |bufs| && bufs[i].Contains(a) && bufs[i].owner != Cpu;
    GivenUpClean(m, flat, bufs, i);
    MoreStale(m, flat, Stale(bufs), bufs[i].Blocks());
    BufferBlocks(bufs[i], a);
  }

  lemma WriteHeld(m: Machine, flat: Memory, bufs: seq<Buffer>, a: uint32, v: byte)
    requires Held(m, flat, bufs) && GivenUp(bufs, a)
    ensures Held(m.Apply(DeviceWrite(a, v)), FlatApply(flat, DeviceWrite(a, v)), After(bufs, DeviceWrite(a, v)))
  {
    var bufs' := After(bufs, DeviceWrite(a, v));
    var i :| 0 <= i < |bufs| && bufs[i].Contains(a) && bufs[i].owner != Cpu;
    GivenUpClean(m, flat, bufs, i);
    MoreStale(m, flat, Stale(bufs), bufs[i].Blocks());
    OneContains(bufs, i, a);
    BufferBlocks(bufs[i], a);
    StaysArranged(bufs, bufs');
    StaleChange(bufs, bufs', i);
    DeviceWriteSynced(m, flat, Stale(bufs'), a, v);
    forall j | 0 <= j < |bufs'| && bufs'[j].owner == Shared
      ensures NoDirtyIn(m.Apply(DeviceWrite(a, v)), bufs'[j].Blocks())
    {
      assert bufs'[j].Blocks() == bufs[j].Blocks() && bufs[j].owner == Shared;
    }
  }

  /** Invalidating a line of a given-up buffer makes memory its truth, which it was for the device already. */
  lemma InvalidateHeld(m: Machine, flat: Memory, bufs: seq<Buffer>, a: uint32)
    requires Held(m, flat, bufs) && GivenUp(bufs, a)
    ensures Held(m.Apply(ByAddress(Invalidate, a)), flat, bufs)
  {
    var i :| 0 <= i < |bufs| && bufs[i].Contains(a) && bufs[i].owner != Cpu;
    var e := ByAddress(Invalidate, a);
    GivenUpClean(m, flat, bufs, i);
    BufferBlocks(bufs[i], a);
    InvalidateStep(m, flat, Stale(bufs), e);
    Ranges.PassiveFewer(m, e);
  }

  lemma InvalidateStep(m: Machine, flat: Memory, stale: set<nat>, e: Event)
    requires Synced(m, flat, stale) && e.ByAddress? && e.op == Invalidate && BlockClean(m, e.addr / 32)
    ensures Synced(m.Apply(e), flat, stale)
  {
    if w: nat :| m.Hits(e.addr / 32, w) {
      ViewOfHit(m, e.addr / 32, w);
      assert !m.Dirty(e.addr / 32, w);
      DropLineSynced(m, flat, stale, e.addr / 32 % m.sets, w);
    } else {
      ViewOfMiss(m, e.addr / 32);
    }
  }

  lemma NobodyMoves(bufs: seq<Buffer>, e: Event)
    requires !e.Store? && !e.DeviceWrite?
    ensures After(bufs, e) == bufs
  {
  }

  /** Whatever happens next, if it is permitted, keeps the invariant and shows its reader the flat memory. */
  lemma {:induction false} EventHeld(m: Machine, flat: Memory, bufs: seq<Buffer>, e: Event)
    requires Held(m, flat, bufs) && PermittedOn(bufs, e)
    ensures Observes(m, flat, e) && Held(m.Apply(e), FlatApply(flat, e), After(bufs, e))
  {
    hide Held, After, NotDevices, GivenUp;
    HeldShape(m, flat, bufs);
    if !e.Store? && !e.DeviceWrite? {
      NobodyMoves(bufs, e);
    }
    match e
    case Load(a) => LoadHeld(m, flat, bufs, a);
    case Store(a, v) => StoreHeld(m, flat, bufs, a, v);
    case DeviceRead(a) => ReadHeld(m, flat, bufs, a);
    case DeviceWrite(a, v) => WriteHeld(m, flat, bufs, a, v);
    case ByAddress(op, a) =>
      if op == Invalidate {
        InvalidateHeld(m, flat, bufs, a);
      } else {
        QuietHeld(m, flat, bufs, e);
      }
    case _ => QuietHeld(m, flat, bufs, e);
  }

}
