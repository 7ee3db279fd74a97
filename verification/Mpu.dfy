/**
 The ARMv7-M MPU region registers and the CMSIS code that loads them.

 RBAR selects a region when its VALID bit is set, and otherwise writes the region RNR already
 selects; RASR always writes the selected region; RBAR_A1..A3 and RASR_A1..A3 are aliases with
 the same behaviour (section B3.5 of the ARMv7-M Architecture Reference Manual).
 */
module Mpu {
  import opened Words

  /** MPU_TYPE_RALIASES: how many (RBAR, RASR) register pairs stand side by side. */
  const RALIASES: uint32 := 4

  /** sizeof(ARM_MPU_Region_t) in words. */
  const ROW_WORDS: uint32 := 2

  const RBAR_VALID: uint32 := 0x10
  const RBAR_REGION: uint32 := 0xF
  const RBAR_ADDR: uint32 := 0xFFFF_FFE0

  datatype Region = Region(base: uint32, rasr: uint32)

  /** RNR, and the region file it indexes with its eight bits. */
  datatype State = State(rnr: byte, regions: seq<Region>) {
    predicate WellFormed() {
      |regions| == 0x100
    }

    function WriteRNR(v: uint32): (s: State)
      requires WellFormed()
      ensures s.WellFormed()
    {
      this.(rnr := v % 0x100)
    }

    function WriteRBAR(v: uint32): (s: State)
      requires WellFormed()
      ensures s.WellFormed()
    {
      var r: byte := if Bit(v, 4) then And(v, RBAR_REGION) else rnr;
      State(r, regions[r := regions[r].(base := And(v, RBAR_ADDR))])
    }

    function WriteRASR(v: uint32): (s: State)
      requires WellFormed()
      ensures s.WellFormed()
    {
      this.(regions := regions[rnr := regions[rnr].(rasr := v)])
    }

    /** The register i words after RBAR: RBAR and its aliases at even i, RASR and its aliases at odd i. */
    function WriteWindow(i: nat, v: uint32): (s: State)
      requires WellFormed() && i < 8
      ensures s.WellFormed()
    {
      if i % 2 == 0 then WriteRBAR(v) else WriteRASR(v)
    }

    function SetRegion(rbar: uint32, rasr: uint32): (s: State)
      requires WellFormed()
      ensures s.WellFormed()
    {
      WriteRBAR(rbar).WriteRASR(rasr)
    }
  }

  /** Calling ARM_MPU_SetRegion on rows 0..cnt-1 of a table, in order; a row is two words. */
  function SetRows(s: State, table: seq<uint32>, cnt: nat): (s': State)
    requires s.WellFormed() && 2 * cnt <= |table|
    ensures s'.WellFormed()
  {
    if cnt == 0 then s
    else SetRows(s, table, cnt - 1).SetRegion(table[2 * cnt - 2], table[2 * cnt - 1])
  }

  // ----- what a table means -----

  /** The region row k configures: the one named by the last VALID row up to k, else the one RNR selected before. */
  function Target(rnr: byte, table: seq<uint32>, k: nat): byte
    requires 2 * k + 1 < |table|
  {
    if Bit(table[2 * k], 4) then And(table[2 * k], RBAR_REGION)
    else if k == 0 then rnr
    else Target(rnr, table, k - 1)
  }

  /** Row k is the last of the first cnt rows that configures region r. */
  ghost predicate LastFor(rnr: byte, table: seq<uint32>, cnt: nat, r: byte, k: nat)
    requires 2 * cnt <= |table|
  {
    && k < cnt && Target(rnr, table, k) == r
    && forall j | k < j < cnt :: Target(rnr, table, j) != r
  }

  /**
   Loading a table leaves each region as its last row says, a region with no row as it was, and RNR
   at the last row's region; also with repeated regions and rows without VALID.
   */
  lemma {:induction false} RowsMeaning(s: State, table: seq<uint32>, cnt: nat, r: byte)
    requires s.WellFormed() && 2 * cnt <= |table|
    ensures var s' := SetRows(s, table, cnt);
            && s'.rnr == (if cnt == 0 then s.rnr else Target(s.rnr, table, cnt - 1))
            && (forall k: nat | LastFor(s.rnr, table, cnt, r, k) ::
                  s'.regions[r] == Region(And(table[2 * k], RBAR_ADDR), table[2 * k + 1]))
            && ((forall k | 0 <= k < cnt :: Target(s.rnr, table, k) != r) ==> s'.regions[r] == s.regions[r])
  {
    hide And, Bit, State.SetRegion, Target, SetRows;
    SetRowsUnfold(s, table, cnt);
    if cnt > 0 {
      RowsMeaning(s, table, cnt - 1, r);
      SetRegionMeaning(SetRows(s, table, cnt - 1), table[2 * cnt - 2], table[2 * cnt - 1]);
      TargetStep(s.rnr, table, cnt - 1);
      forall k: nat | LastFor(s.rnr, table, cnt, r, k)
        ensures SetRows(s, table, cnt).regions[r] == Region(And(table[2 * k], RBAR_ADDR), table[2 * k + 1])
      {
        if k < cnt - 1 {
          assert Target(s.rnr, table, cnt - 1) != r;
          assert LastFor(s.rnr, table, cnt - 1, r, k);
        }
      }
    }
  }

  lemma SetRowsUnfold(s: State, table: seq<uint32>, cnt: nat)
    requires s.WellFormed() && 2 * cnt <= |table|
    ensures SetRows(s, table, cnt) ==
            if cnt == 0 then s
            else SetRows(s, table, cnt - 1).SetRegion(table[2 * cnt - 2], table[2 * cnt - 1])
  {
    hide State.SetRegion;
  }

  lemma TargetStep(rnr: byte, table: seq<uint32>, k: nat)
    requires 2 * k + 1 < |table|
    ensures Target(rnr, table, k) ==
            if Bit(table[2 * k], 4) then And(table[2 * k], RBAR_REGION)
            else if k == 0 then rnr else Target(rnr, table, k - 1)
  {
  }

  /** One row configures its region, selects it, and touches no other. */
  lemma SetRegionMeaning(s: State, rbar: uint32, rasr: uint32)
    requires s.WellFormed()
    ensures var s' := s.SetRegion(rbar, rasr);
            && s'.rnr == (if Bit(rbar, 4) then And(rbar, RBAR_REGION) else s.rnr)
            && s'.regions == s.regions[s'.rnr := Region(And(rbar, RBAR_ADDR), rasr)]
  {
  }

  /** Two loads that differ in what RNR selected before: a row configures the same region, or each its own start. */
  lemma {:induction false} TargetEither(a: byte, b: byte, table: seq<uint32>, k: nat)
    requires 2 * k + 1 < |table|
    ensures Target(a, table, k) == Target(b, table, k) || (Target(a, table, k) == a && Target(b, table, k) == b)
  {
    hide And, Bit;
    if k > 0 {
      TargetEither(a, b, table, k - 1);
    }
  }

  /** Once the same, they stay the same. */
  lemma {:induction false} TargetMerged(a: byte, b: byte, table: seq<uint32>, j: nat, k: nat)
    requires j <= k && 2 * k + 1 < |table| && Target(a, table, j) == Target(b, table, j)
    ensures Target(a, table, k) == Target(b, table, k)
    decreases k
  {
    hide And, Bit;
    if j < k {
      TargetMerged(a, b, table, j, k - 1);
    }
  }

  /** Some last row exists for every region that has a row. */
  lemma {:induction false} LastExists(rnr: byte, table: seq<uint32>, cnt: nat, r: byte, k: nat) returns (l: nat)
    requires 2 * cnt <= |table| && k < cnt && Target(rnr, table, k) == r
    ensures LastFor(rnr, table, cnt, r, l)
    decreases cnt - k
  {
    if j :| k < j < cnt && Target(rnr, table, j) == r {
      l := LastExists(rnr, table, cnt, r, j);
    } else {
      l := k;
    }
  }

  /**
   Loading a table again changes nothing, for every table: rows without VALID at its start go to the
   region of the last row, which that row then writes again.
   */
  lemma {:induction false} ReloadIsIdempotent(s: State, table: seq<uint32>, cnt: nat)
    requires s.WellFormed() && 2 * cnt <= |table|
    ensures SetRows(SetRows(s, table, cnt), table, cnt) == SetRows(s, table, cnt)
  {
    hide State.SetRegion, Target, And, Bit, SetRows;
    var s' := SetRows(s, table, cnt);
    if cnt == 0 {
      SetRowsUnfold(s, table, 0);
    } else {
      forall r | 0 <= r < 0x100
        ensures SetRows(s', table, cnt).regions[r] == s'.regions[r]
      {
        ReloadedRegion(s, table, cnt, r);
      }
      RowsMeaning(s, table, cnt, 0);
      RowsMeaning(s', table, cnt, 0);
      TargetEither(s.rnr, s'.rnr, table, cnt - 1);
      assert SetRows(s', table, cnt).regions == s'.regions;
    }
  }

  lemma ReloadedRegion(s: State, table: seq<uint32>, cnt: nat, r: byte)
    requires s.WellFormed() && 0 < cnt && 2 * cnt <= |table|
    ensures var s' := SetRows(s, table, cnt); SetRows(s', table, cnt).regions[r] == s'.regions[r]
  {
    hide State.SetRegion, Target, And, Bit, SetRows;
    var s' := SetRows(s, table, cnt);
    RowsMeaning(s, table, cnt, r);
    RowsMeaning(s', table, cnt, r);
    if k :| 0 <= k < cnt && Target(s'.rnr, table, k) == r {
      var l := LastExists(s'.rnr, table, cnt, r, k);
      LastOfBoth(s.rnr, s'.rnr, table, cnt, r, l);
    }
  }

  /** The last row for a region in the second load is also its last row in the first. */
  lemma LastOfBoth(a: byte, b: byte, table: seq<uint32>, cnt: nat, r: byte, l: nat)
    requires 0 < cnt && 2 * cnt <= |table| && b == Target(a, table, cnt - 1) && LastFor(b, table, cnt, r, l)
    ensures LastFor(a, table, cnt, r, l)
  {
    hide Target;
    TargetEither(a, b, table, cnt - 1);
    if r != b {
      TargetEither(a, b, table, l);
      forall j | l < j < cnt
        ensures Target(a, table, j) != r
      {
        TargetMerged(a, b, table, l, j);
      }
    }
  }

  // ----- building RBAR words -----

  /** ARM_MPU_RBAR(Region, BaseAddress). */
  function RbarWord(region: uint32, base: uint32): uint32 {
    OrWord(And(base, RBAR_ADDR), And(region, RBAR_REGION));
    OrWord(Or(And(base, RBAR_ADDR), And(region, RBAR_REGION)), RBAR_VALID);
    Or(Or(And(base, RBAR_ADDR), And(region, RBAR_REGION)), RBAR_VALID)
  }

  lemma MaskBits(i: nat)
    ensures Bit(RBAR_REGION, i) == (i < 4)
    ensures Bit(RBAR_VALID, i) == (i == 4)
    ensures Bit(RBAR_ADDR, i) == (5 <= i < 32)
  {
    Pow2Values();
    BitOnes(4, i);
    BitMask(4, i);
    assert RBAR_VALID == Shl(1, 4);
    BitOnes(5, i);
    BitNot(0x1F, 32, i);
  }

  lemma RbarBits(region: uint32, base: uint32, i: nat)
    ensures Bit(RbarWord(region, base), i) ==
            (i == 4 || (if i < 4 then Bit(region, i) else i < 32 && Bit(base, i)))
  {
    MaskBits(i);
    BitAnd(base, RBAR_ADDR, i);
    BitAnd(region, RBAR_REGION, i);
    BitOr(And(base, RBAR_ADDR), And(region, RBAR_REGION), i);
    BitOr(Or(And(base, RBAR_ADDR), And(region, RBAR_REGION)), RBAR_VALID, i);
  }

  /**
   Writing an ARM_MPU_RBAR word selects the region by itself: SetRegion with it is SetRegionEx with
   the region number and the aligned base exactly when the number RNR keeps has four bits.
   */
  lemma {:induction false} RbarSelects(s: State, region: uint32, base: uint32, rasr: uint32)
    requires s.WellFormed()
    ensures s.SetRegion(RbarWord(region, base), rasr) == s.WriteRNR(region).SetRegion(And(base, RBAR_ADDR), rasr)
            <==> region % 0x100 <= 15
  {
    hide *;
    RbarFields(region, base);
    WriteRNRMeaning(s, region);
    SetRegionMeaning(s, RbarWord(region, base), rasr);
    SetRegionMeaning(s.WriteRNR(region), And(base, RBAR_ADDR), rasr);
    LowNibble(region);
    SelectedApart(s.regions, region % 16, region % 0x100, Region(And(And(base, RBAR_ADDR), RBAR_ADDR), rasr));
  }

  lemma LowNibble(x: nat)
    ensures x % 16 == x % 0x100 <==> x % 0x100 <= 15
  {
    DivModIdentity(x, 0x100);
    ModShift(x % 0x100, x / 0x100 * 16, 16);
  }

  lemma SelectedApart(regions: seq<Region>, a: byte, b: byte, v: Region)
    requires |regions| == 0x100
    ensures State(a, regions[a := v]) == State(b, regions[b := v]) <==> a == b
  {
  }

  lemma WriteRNRMeaning(s: State, v: uint32)
    requires s.WellFormed()
    ensures s.WriteRNR(v) == State(v % 0x100, s.regions) && s.WriteRNR(v).WellFormed()
  {
  }

  lemma RbarFields(region: uint32, base: uint32)
    ensures Bit(RbarWord(region, base), 4) && !Bit(And(base, RBAR_ADDR), 4)
    ensures And(RbarWord(region, base), RBAR_REGION) == region % 16
    ensures And(RbarWord(region, base), RBAR_ADDR) == And(And(base, RBAR_ADDR), RBAR_ADDR)
  {
    var w := RbarWord(region, base);
    var aligned := And(base, RBAR_ADDR);
    Pow2Values();
    hide And, RbarWord, Bit;
    forall i | 0 <= i < 32
      ensures Bit(And(w, RBAR_REGION), i) == Bit(region % 16, i)
      ensures Bit(And(w, RBAR_ADDR), i) == Bit(And(aligned, RBAR_ADDR), i)
    {
      RbarBits(region, base, i);
      MaskBits(i);
      BitAnd(w, RBAR_REGION, i);
      BitAnd(w, RBAR_ADDR, i);
      BitAnd(base, RBAR_ADDR, i);
      BitAnd(aligned, RBAR_ADDR, i);
      BitMod(region, 4, i);
    }
    SameBits(And(w, RBAR_REGION), region % 16, 32);
    SameBits(And(w, RBAR_ADDR), And(aligned, RBAR_ADDR), 32);
    RbarBits(region, base, 4);
    MaskBits(4);
    BitAnd(base, RBAR_ADDR, 4);
  }

  // ----- the loader -----

  /** Words written through the register window, starting at register dst. */
  function WriteWords(s: State, dst: nat, words: seq<uint32>): (s': State)
    requires s.WellFormed() && dst + |words| <= 8
    ensures s'.WellFormed()
    decreases |words|
  {
    if words == [] then s else WriteWords(s.WriteWindow(dst, words[0]), dst + 1, words[1..])
  }

  lemma {:induction false} WriteWordsAppend(s: State, dst: nat, words: seq<uint32>, w: uint32)
    requires s.WellFormed() && dst + |words| < 8
    ensures WriteWords(s, dst, words + [w]) == WriteWords(s, dst, words).WriteWindow(dst + |words|, w)
    decreases |words|
  {
    hide State.WriteWindow;
    if words == [] {
      assert [w][1..] == [];
    } else {
      assert (words + [w])[1..] == words[1..] + [w];
      WriteWordsAppend(s.WriteWindow(dst, words[0]), dst + 1, words[1..], w);
    }
  }

  /** A batch of rows written from the start of the window is those rows set one by one. */
  lemma {:induction false} BatchIsRows(s: State, table: seq<uint32>, from: nat, rows: nat)
    requires s.WellFormed() && rows <= 4 && 2 * (from + rows) <= |table|
    ensures WriteWords(SetRows(s, table, from), 0, table[2 * from..2 * (from + rows)]) == SetRows(s, table, from + rows)
    decreases rows
  {
    hide *;
    SetRowsUnfold(s, table, from + rows);
    if rows == 0 {
      WriteNothing(SetRows(s, table, from));
      assert table[2 * from..2 * from] == [];
    } else {
      var n := 2 * (from + rows);
      var front := table[2 * from..n - 2];
      BatchIsRows(s, table, from, rows - 1);
      assert table[2 * from..n] == front + [table[n - 2]] + [table[n - 1]];
      RowThroughWindow(SetRows(s, table, from), front, table[n - 2], table[n - 1]);
    }
  }

  lemma WriteNothing(s: State)
    requires s.WellFormed()
    ensures WriteWords(s, 0, []) == s
  {
  }

  /** Two more words, from an even register on, are one more row. */
  lemma RowThroughWindow(p: State, front: seq<uint32>, a: uint32, b: uint32)
    requires p.WellFormed() && |front| % 2 == 0 && |front| <= 6
    ensures WriteWords(p, 0, front + [a] + [b]) == WriteWords(p, 0, front).SetRegion(a, b)
  {
    hide WriteWords, State.WriteRBAR, State.WriteRASR;
    WriteWordsAppend(p, 0, front, a);
    WriteWordsAppend(p, 0, front + [a], b);
  }

  class Unit {
    var st: State
    /** Every write through the window, as (words after RBAR, value). */
    ghost var writes: seq<(nat, uint32)>

    constructor (s: State)
      requires s.WellFormed()
      ensures st == s && writes == []
    {
      st, writes := s, [];
    }

    /**
     ARM_MPU_SetRegion, through RBAR and RASR themselves: the region the RBAR word names, or else the
     one RNR selects, gets this base and these attributes and stays selected; no other region changes.
     */
    method SetRegion(rbar: uint32, rasr: uint32)
      requires st.WellFormed()
      modifies this
      ensures st == old(st).SetRegion(rbar, rasr) && writes == old(writes) + [(0, rbar), (1, rasr)]
      ensures st.WellFormed() && st.rnr == if Bit(rbar, 4) then And(rbar, RBAR_REGION) else old(st).rnr
      ensures st.regions[st.rnr] == Region(And(rbar, RBAR_ADDR), rasr)
      ensures forall r | 0 <= r < 0x100 && r != st.rnr :: st.regions[r] == old(st).regions[r]
    {
      SetRegionMeaning(st, rbar, rasr);
      WriteWindow(0, rbar);
      WriteWindow(1, rasr);
    }

    /** ARM_MPU_SetRegionEx: only region rnr changes, unless the RBAR word names another. */
    method SetRegionEx(rnr: uint32, rbar: uint32, rasr: uint32)
      requires st.WellFormed()
      modifies this
      ensures st == old(st).WriteRNR(rnr).SetRegion(rbar, rasr)
      ensures !Bit(rbar, 4) ==>
                && st.rnr == rnr % 0x100 && st.regions[rnr % 0x100] == Region(And(rbar, RBAR_ADDR), rasr)
                && forall r | 0 <= r < 0x100 && r != rnr % 0x100 :: st.regions[r] == old(st).regions[r]
    {
      st := st.WriteRNR(rnr);
      SetRegion(rbar, rasr);
    }

    /** ARM_MPU_ClrRegion: the region's attributes are cleared, so it is disabled; nothing else changes. */
    method ClrRegion(rnr: uint32)
      requires st.WellFormed()
      modifies this
      ensures st.WellFormed() && st.rnr == rnr % 0x100
      ensures forall r | 0 <= r < 0x100 ::
                st.regions[r] == if r == rnr % 0x100 then Region(old(st).regions[r].base, 0) else old(st).regions[r]
    {
      st := st.WriteRNR(rnr);
      WriteWindow(1, 0);
    }

    method WriteWindow(i: nat, v: uint32)
      requires st.WellFormed() && i < 8
      modifies this
      ensures st == old(st).WriteWindow(i, v) && writes == old(writes) + [(i, v)]
    {
      st := st.WriteWindow(i, v);
      writes := writes + [(i, v)];
    }

    /** orderedCpy from src[at..] into the registers from dst on: it stays inside the window and keeps the order. */
    method OrderedCpy(dst: nat, src: seq<uint32>, at: nat, len: uint32)
      requires st.WellFormed() && dst + len <= 8 && at + len <= |src|
      modifies this
      ensures st == WriteWords(old(st), dst, src[at..at + len])
      ensures writes == old(writes) + seq(len, k requires 0 <= k < len => (dst + k, src[at + k]))
    {
      var i: uint32 := 0;
      while i < len
        invariant 0 <= i <= len && st.WellFormed()
        invariant st == WriteWords(old(st), dst, src[at..at + i])
        invariant writes == old(writes) + seq(i, k requires 0 <= k < i => (dst + k, src[at + k]))
      {
        WriteWordsAppend(old(st), dst, src[at..at + i], src[at + i]);
        assert src[at..at + i + 1] == src[at..at + i] + [src[at + i]];
        WriteWindow(dst + i, src[at + i]);
        i := i + 1;
      }
    }

    /**
     ARM_MPU_Load.  The MPU ends exactly as if ARM_MPU_SetRegion had been called on each row in order,
     although the rows go out in batches of four through the aliases; the words written are the table's
     words in order, word k to register k mod 8.
     */
    method Load(table: seq<uint32>, count: uint32)
      requires st.WellFormed() && 2 * count <= |table|
      modifies this
      ensures st == SetRows(old(st), table, count)
      ensures writes == old(writes) + WindowWrites(table, 2 * count)
    {
      hide SetRows, WriteWords, WindowWrites;
      var row: nat := 0;
      var cnt: uint32 := count;
      LoadStarts(old(st), old(writes), table);
      while cnt > RALIASES
        invariant row + cnt == count && row % 4 == 0
        invariant st.WellFormed() && st == SetRows(old(st), table, row)
        invariant writes == old(writes) + WindowWrites(table, 2 * row)
      {
        BatchIsRows(old(st), table, row, 4);
        BatchWrites(old(writes), table, row, 4);
        OrderedCpy(0, table, 2 * row, RALIASES * ROW_WORDS);
        row := row + RALIASES;
        cnt := cnt - RALIASES;
      }
      BatchIsRows(old(st), table, row, cnt);
      BatchWrites(old(writes), table, row, cnt);
      OrderedCpy(0, table, 2 * row, cnt * ROW_WORDS);
    }
  }

  /** The first n words of a table, each with the window register it belongs in. */
  function WindowWrites(table: seq<uint32>, n: nat): (ws: seq<(nat, uint32)>)
    requires n <= |table|
    ensures |ws| == n && forall k | 0 <= k < n :: ws[k] == (k % 8, table[k])
  {
    seq(n, k requires 0 <= k < n => (k % 8, table[k]))
  }

  lemma LoadStarts(s: State, ws: seq<(nat, uint32)>, table: seq<uint32>)
    requires s.WellFormed()
    ensures s == SetRows(s, table, 0) && ws == ws + WindowWrites(table, 0)
  {
  }

  /** A batch that starts on a multiple of four rows continues the sequence of writes. */
  lemma BatchWrites(ws: seq<(nat, uint32)>, table: seq<uint32>, row: nat, rows: nat)
    requires row % 4 == 0 && rows <= 4 && 2 * (row + rows) <= |table|
    ensures ws + WindowWrites(table, 2 * row) +
            seq(2 * rows, k requires 0 <= k < 2 * rows => (0 + k, table[2 * row + k])) ==
            ws + WindowWrites(table, 2 * (row + rows))
  {
    var head, all := WindowWrites(table, 2 * row), WindowWrites(table, 2 * (row + rows));
    var batch: seq<(nat, uint32)> := seq(2 * rows, k requires 0 <= k < 2 * rows => (0 + k, table[2 * row + k]));
    forall i | 0 <= i < 2 * (row + rows)
      ensures all[i] == (head + batch)[i]
    {
      if i >= 2 * row {
        DivModUnique(i, 8, row / 4, i - 2 * row);
      }
    }
    assert head + batch == all;
    assert ws + head + batch == ws + (head + batch);
  }
}
