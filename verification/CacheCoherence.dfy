/**
 The invariant that makes the cache invisible, and what each event does to it.

 `stale` is a set of blocks whose cached copies may be out of date because a device owns them;
 for every other block the cached copy, if there is one, is the truth.
 */
module CacheCoherence {
  import opened Words
  import opened CacheModel

  /** No block is held by two ways of its set. */
  ghost predicate Unique(m: Machine) {
    forall b: nat, v: nat, w: nat | m.Hits(b, v) && m.Hits(b, w) :: v == w
  }

  /** Clean lines agree with memory, except lines of stale blocks, which are never dirty. */
  ghost predicate Coherent(m: Machine, stale: set<nat>)
    requires m.WellFormed()
  {
    && Unique(m)
    && forall b: nat, w: nat | b < BLOCKS && m.Hits(b, w) ::
         if b in stale then !m.LineOf(b, w).dirty
         else m.LineOf(b, w).dirty || m.LineOf(b, w).data == m.mem[b]
  }

  /** The value of a block: what a coherent reader sees, or memory while a device owns it. */
  function Value(m: Machine, stale: set<nat>, b: nat): Block
    requires m.WellFormed() && b < BLOCKS
  {
    if b in stale then m.mem[b] else m.View(b)
  }

  /** Coherent, and block for block equal to a flat memory. */
  ghost predicate Synced(m: Machine, flat: Memory, stale: set<nat>) {
    && m.WellFormed() && |flat| == BLOCKS
    && Coherent(m, stale)
    && forall b: nat | b < BLOCKS :: Value(m, stale, b) == flat[b]
  }

  ghost predicate NoDirtyIn(m: Machine, blocks: set<nat>) {
    forall b: nat, w: nat | b in blocks :: !m.Dirty(b, w)
  }

  // ----- reading the view -----

  lemma ViewOfHit(m: Machine, b: nat, w: nat)
    requires m.WellFormed() && Unique(m) && b < BLOCKS && m.Hits(b, w)
    ensures m.FindWay(b, m.ways) == Some(w)
    ensures m.View(b) == m.LineOf(b, w).data
  {
  }

  lemma ViewOfMiss(m: Machine, b: nat)
    requires m.WellFormed() && b < BLOCKS && forall w: nat :: !m.Hits(b, w)
    ensures m.FindWay(b, m.ways).None?
    ensures m.View(b) == m.mem[b]
  {
  }

  lemma BlockOfInverse(m: Machine, tag: nat, s: nat)
    requires s < m.sets
    ensures m.BlockOf(tag, s) / m.sets == tag && m.BlockOf(tag, s) % m.sets == s
  {
    DivModUnique(m.BlockOf(tag, s), m.sets, tag, s);
  }

  /** A valid line in the table is a hit for exactly the block it holds. */
  lemma LineHits(m: Machine, s: nat, w: nat)
    requires m.WellFormed() && (s, w) in m.lines && m.lines[(s, w)].Valid?
    ensures var b := m.BlockOf(m.lines[(s, w)].tag, s);
            b < BLOCKS && m.Hits(b, w) && m.LineOf(b, w) == m.lines[(s, w)] && b % m.sets == s
  {
    BlockOfInverse(m, m.lines[(s, w)].tag, s);
  }

  lemma HitBlock(m: Machine, b: nat, w: nat)
    requires m.Hits(b, w)
    ensures m.BlockOf(m.LineOf(b, w).tag, b % m.sets) == b
  {
    DivModIdentity(b, m.sets);
  }

  // ----- line operations -----

  lemma CleanLineSynced(m: Machine, flat: Memory, stale: set<nat>, s: nat, w: nat)
    requires Synced(m, flat, stale)
    ensures Synced(m.CleanLine(s, w), flat, stale)
    ensures forall b: nat, v: nat :: m.CleanLine(s, w).Hits(b, v) == m.Hits(b, v)
    ensures forall b: nat, v: nat | m.CleanLine(s, w).Dirty(b, v) :: m.Dirty(b, v)
    ensures (s, w) in m.lines && m.CleanLine(s, w).lines[(s, w)].Valid? ==> !m.CleanLine(s, w).lines[(s, w)].dirty
  {
    var m' := m.CleanLine(s, w);
    if (s, w) in m.lines && m.lines[(s, w)].Valid? && m.lines[(s, w)].dirty {
      LineHits(m, s, w);
      var c := m.BlockOf(m.lines[(s, w)].tag, s);
      assert forall b: nat, v: nat :: m'.Hits(b, v) == m.Hits(b, v);
      forall b: nat, v: nat | m.Hits(b, v)
        ensures m'.LineOf(b, v).data == m.LineOf(b, v).data
        ensures b != c || v != w ==> m'.LineOf(b, v) == m.LineOf(b, v)
      {
        HitBlock(m, b, v);
      }
      forall b: nat | b < BLOCKS
        ensures Value(m', stale, b) == Value(m, stale, b)
      {
        if v: nat :| m.Hits(b, v) {
          ViewOfHit(m, b, v);
          ViewOfHit(m', b, v);
        } else {
          ViewOfMiss(m, b);
          ViewOfMiss(m', b);
        }
      }
    }
  }

  /** Forgetting a clean line loses nothing. */
  lemma DropLineSynced(m: Machine, flat: Memory, stale: set<nat>, s: nat, w: nat)
    requires Synced(m, flat, stale)
    requires (s, w) in m.lines && m.lines[(s, w)].Valid? ==> !m.lines[(s, w)].dirty
    ensures Synced(m.DropLine(s, w), flat, stale)
    ensures forall b: nat, v: nat | m.DropLine(s, w).Hits(b, v) ::
              m.Hits(b, v) && m.LineOf(b, v) == m.DropLine(s, w).LineOf(b, v)
    ensures forall b: nat | b % m.sets == s :: !m.DropLine(s, w).Hits(b, w)
  {
    var m' := m.DropLine(s, w);
    assert forall b: nat, v: nat | m'.Hits(b, v) :: m.Hits(b, v) && m.LineOf(b, v) == m'.LineOf(b, v);
    assert Unique(m');
    if (s, w) in m.lines && m.lines[(s, w)].Valid? {
      LineHits(m, s, w);
    }
    forall b: nat | b < BLOCKS
      ensures Value(m', stale, b) == Value(m, stale, b)
    {
      if v: nat :| m'.Hits(b, v) {
        ViewOfHit(m, b, v);
        ViewOfHit(m', b, v);
      } else if v: nat :| m.Hits(b, v) {
        assert b % m.sets == s && v == w by { assert !m'.Hits(b, v); }
        ViewOfHit(m, b, v);
        ViewOfMiss(m', b);
      } else {
        ViewOfMiss(m, b);
        ViewOfMiss(m', b);
      }
    }
  }

  lemma CleanInvalidateSynced(m: Machine, flat: Memory, stale: set<nat>, s: nat, w: nat)
    requires Synced(m, flat, stale)
    ensures var m' := m.Maintain(CleanInvalidate, s, w);
            && Synced(m', flat, stale)
            && (forall b: nat, v: nat | m'.Hits(b, v) :: m.Hits(b, v))
            && (forall b: nat, v: nat | m'.Dirty(b, v) :: m.Dirty(b, v))
            && (forall b: nat | b % m.sets == s :: !m'.Hits(b, w))
  {
    CleanLineSynced(m, flat, stale, s, w);
    DropLineSynced(m.CleanLine(s, w), flat, stale, s, w);
  }

  /** Caching memory's own data, in an empty way, for a block no way holds. */
  lemma PutLineSynced(m: Machine, flat: Memory, stale: set<nat>, b: nat, w: nat)
    requires Synced(m, flat, stale) && b < BLOCKS && forall v: nat :: !m.Hits(b, v)
    requires (b % m.sets, w) in m.lines && m.lines[(b % m.sets, w)].Invalid?
    requires m.BlockOf(b / m.sets, b % m.sets) == b
    ensures Synced(m.PutLine(b % m.sets, w, Valid(b / m.sets, false, m.mem[b])), flat, stale)
  {
    var m' := m.PutLine(b % m.sets, w, Valid(b / m.sets, false, m.mem[b]));
    assert m'.Hits(b, w);
    forall c: nat, v: nat | m'.Hits(c, v)
      ensures c == b ==> v == w
      ensures c != b ==> m.Hits(c, v) && m'.LineOf(c, v) == m.LineOf(c, v)
    {
      if c == b {
        assert !m.Hits(b, v);
      } else if c % m.sets == b % m.sets && v == w {
        HitBlock(m', c, v);
      }
    }
    assert forall c: nat, v: nat | m.Hits(c, v) :: m'.Hits(c, v);
    forall c: nat | c < BLOCKS
      ensures Value(m', stale, c) == Value(m, stale, c)
    {
      if v: nat :| m'.Hits(c, v) {
        ViewOfHit(m', c, v);
        if c == b {
          ViewOfMiss(m, b);
        } else {
          ViewOfHit(m, c, v);
        }
      } else {
        ViewOfMiss(m', c);
        ViewOfMiss(m, c);
      }
    }
  }

  lemma FillLineSynced(m: Machine, flat: Memory, stale: set<nat>, b: nat, w: nat)
    requires Synced(m, flat, stale) && b < BLOCKS && w < m.ways && forall v: nat :: !m.Hits(b, v)
    ensures Synced(m.FillLine(b, w), flat, stale)
    ensures forall c: nat, v: nat | m.FillLine(b, w).Dirty(c, v) :: m.Dirty(c, v)
  {
    var s := b % m.sets;
    CleanInvalidateSynced(m, flat, stale, s, w);
    var n := m.CleanLine(s, w).DropLine(s, w);
    assert n == m.Maintain(CleanInvalidate, s, w);
    DivModIdentity(b, m.sets);
    PutLineSynced(n, flat, stale, b, w);
    forall c: nat, v: nat | m.FillLine(b, w).Dirty(c, v)
      ensures n.Dirty(c, v)
    {
    }
  }

  /** A store through the cache changes one byte of one block's view. */
  lemma {:induction false} StoreSynced(m: Machine, flat: Memory, stale: set<nat>, a: uint32, x: byte)
    requires Synced(m, flat, stale) && a / 32 !in stale
    ensures Synced(m.StoreByte(a, x), SetByte(flat, a, x), stale)
    ensures forall b: nat, v: nat | b != a / 32 && m.StoreByte(a, x).Dirty(b, v) :: m.Dirty(b, v)
  {
    var b := a / 32;
    var m' := m.StoreByte(a, x);
    var flat' := SetByte(flat, a, x);
    assert Value(m, stale, b) == flat[b];
    if w: nat :| m.Hits(b, w) {
      ViewOfHit(m, b, w);
      forall c: nat, v: nat | m'.Hits(c, v) || m.Hits(c, v)
        ensures m'.Hits(c, v) && m.Hits(c, v)
        ensures c != b ==> m'.LineOf(c, v) == m.LineOf(c, v)
      {
        if m.Hits(c, v) {
          HitBlock(m, c, v);
        } else {
          HitBlock(m', c, v);
        }
        HitBlock(m, b, w);
      }
      forall c: nat | c < BLOCKS
        ensures Value(m', stale, c) == flat'[c]
      {
        assert Value(m, stale, c) == flat[c];
        if v: nat :| m.Hits(c, v) {
          ViewOfHit(m, c, v);
          ViewOfHit(m', c, v);
        } else {
          ViewOfMiss(m, c);
          ViewOfMiss(m', c);
        }
      }
    } else {
      ViewOfMiss(m, b);
      assert forall c: nat, v: nat :: m'.Hits(c, v) == m.Hits(c, v);
      forall c: nat | c < BLOCKS
        ensures Value(m', stale, c) == flat'[c]
      {
        assert Value(m, stale, c) == flat[c];
        SameLinesSameWay(m, m', c, m.ways);
      }
    }
  }

  lemma {:induction false} SameLinesSameWay(m: Machine, m': Machine, b: nat, k: nat)
    requires m'.lines == m.lines && m'.SameShape(m)
    ensures m'.FindWay(b, k) == m.FindWay(b, k)
  {
    if k > 0 {
      SameLinesSameWay(m, m', b, k - 1);
    }
  }

  /** A device write to a stale block changes memory, which is that block's truth. */
  lemma DeviceWriteSynced(m: Machine, flat: Memory, stale: set<nat>, a: uint32, x: byte)
    requires Synced(m, flat, stale) && a / 32 in stale
    ensures Synced(m.WriteMemory(a, x), SetByte(flat, a, x), stale)
    ensures forall b: nat, v: nat | m.WriteMemory(a, x).Dirty(b, v) :: m.Dirty(b, v)
  {
    var m' := m.WriteMemory(a, x);
    var flat' := SetByte(flat, a, x);
    assert forall b: nat, v: nat :: m'.Hits(b, v) == m.Hits(b, v);
    forall c: nat | c < BLOCKS
      ensures Value(m', stale, c) == flat'[c]
    {
      assert Value(m, stale, c) == flat[c];
      SameLinesSameWay(m, m', c, m.ways);
    }
  }
}
