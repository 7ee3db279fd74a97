/**
 The words the cache routines write to the command registers, as the C expressions build them,
 and what they enumerate.
 */
module CacheCommands {
  import opened Words

  /** CCSIDR_SETS and CCSIDR_WAYS: the masks and shifts of the register's two fields. */
  function CcsidrSets(x: uint32): uint32 {
    Shr(And(x, 0x0FFF_E000), 13)
  }

  function CcsidrWays(x: uint32): uint32 {
    Shr(And(x, 0x1FF8), 3)
  }

  lemma {:induction false} CcsidrFields(x: uint32)
    ensures CcsidrSets(x) == x / 0x2000 % 0x8000
    ensures CcsidrWays(x) == x / 8 % 0x400
  {
    Pow2Values();
    assert Pow2(13) == 0x2000 && Pow2(15) == 0x8000 by { Pow2Add(10, 3); Pow2Add(10, 5); }
    AndField(x, 13, 15);
    assert And(x, 0x0FFF_E000) == x / 0x2000 % 0x8000 * 0x2000;
    AndField(x, 3, 10);
    assert And(x, 0x1FF8) == x / 8 % 0x400 * 8;
  }

  /** The DCISW / DCCSW / DCCISW word for a set and a way. */
  function PackSetWay(sets: uint32, ways: uint32): uint32 {
    OrWord(And(Shl(sets, 5), 0x3FE0), And(Shl(ways, 30), 0xC000_0000));
    Or(And(Shl(sets, 5), 0x3FE0), And(Shl(ways, 30), 0xC000_0000))
  }

  /** The same word as a number: the way in bits 31:30 and the set in bits 13:5, each cut to its field. */
  function LineWord(s: uint32, w: uint32): uint32 {
    w % 4 * 0x4000_0000 + s % 512 * 32
  }

  /** The masks, shifts and or of the C expression build exactly that word. */
  lemma {:induction false} PackValue(sets: uint32, ways: uint32)
    ensures PackSetWay(sets, ways) == LineWord(sets, ways)
  {
    Pow2Values();
    FieldInsert(sets, 5, 9);
    FieldInsert(ways, 30, 2);
    OrDisjoint(ways % 4, 30, sets % 512 * 32);
    OrCommutes(sets % 512 * 32, ways % 4 * 0x4000_0000);
  }

  /** `x--` on a `uint32_t`: from 0 it wraps to 0xFFFFFFFF. */
  function Decrement(x: uint32): uint32 {
    Sub(x, 1)
  }

  // ----- by set and way -----

  /** The words of one inner loop, from the given way down to 0. */
  function WayWords(s: uint32, w: uint32): seq<uint32> {
    [LineWord(s, w)] + if w == 0 then [] else WayWords(s, w - 1)
  }

  /** The words of the outer loop, from the given set down to 0. */
  function SetWayWords(s: uint32, w: uint32): seq<uint32> {
    WayWords(s, w) + if s == 0 then [] else SetWayWords(s - 1, w)
  }

  lemma {:induction false} WayWordAt(s: uint32, w: uint32, i: nat)
    requires i <= w
    ensures |WayWords(s, w)| == w + 1 && WayWords(s, w)[i] == LineWord(s, w - i)
  {
    hide LineWord;
    if w > 0 {
      WayWordAt(s, w - 1, if i == 0 then 0 else i - 1);
    }
  }

  lemma {:induction false} SetWayLength(s: uint32, w: uint32)
    ensures |SetWayWords(s, w)| == (s + 1) * (w + 1)
  {
    hide LineWord;
    var n: nat := w + 1;
    WayWordAt(s, w, 0);
    if s == 0 {
      assert SetWayWords(s, w) == WayWords(s, w);
    } else {
      SetWayLength(s - 1, w);
      assert |SetWayWords(s, w)| == n + |SetWayWords(s - 1, w)|;
      MulSucc(s, n);
    }
  }

  /** Where the word for (t, v) stands in the enumeration. */
  function Position(s: uint32, w: uint32, t: uint32, v: uint32): nat
    requires t <= s && v <= w
  {
    if t == s then w - v else w + 1 + Position(s - 1, w, t, v)
  }

  lemma {:induction false} WordAtPosition(s: uint32, w: uint32, t: uint32, v: uint32)
    requires t <= s && v <= w
    ensures Position(s, w, t, v) < |SetWayWords(s, w)|
    ensures SetWayWords(s, w)[Position(s, w, t, v)] == LineWord(t, v)
  {
    hide LineWord, SetWayWords, WayWords;
    SetWayWordsUnfold(s, w);
    WayWordAt(s, w, w - v);
    if t < s {
      WordAtPosition(s - 1, w, t, v);
    }
  }

  lemma SetWayWordsUnfold(s: uint32, w: uint32)
    ensures SetWayWords(s, w) == WayWords(s, w) + if s == 0 then [] else SetWayWords(s - 1, w)
  {
  }

  /** Every position belongs to some set and way. */
  lemma {:induction false} PositionOf(s: uint32, w: uint32, i: nat) returns (t: uint32, v: uint32)
    requires i < |SetWayWords(s, w)|
    ensures t <= s && v <= w && Position(s, w, t, v) == i
  {
    hide LineWord, SetWayWords, WayWords;
    SetWayWordsUnfold(s, w);
    WayWordAt(s, w, 0);
    if i <= w {
      t, v := s, w - i;
    } else {
      t, v := PositionOf(s - 1, w, i - (w + 1));
    }
  }

  ghost predicate Distinct(words: seq<uint32>) {
    forall i, j | 0 <= i < j < |words| :: words[i] != words[j]
  }

  ghost predicate Enumerates(words: seq<uint32>, s: uint32, w: uint32) {
    forall t: uint32, v: uint32 | t <= s && v <= w :: LineWord(t, v) in words
  }

  lemma EnumerationDistinct(s: uint32, w: uint32)
    requires s <= 511 && w <= 3
    ensures Distinct(SetWayWords(s, w))
  {
    SetWayLength(s, w);
    forall i, j | 0 <= i < j < |SetWayWords(s, w)|
      ensures SetWayWords(s, w)[i] != SetWayWords(s, w)[j]
    {
      var t, v := WordOrigin(s, w, i);
      var t', v' := WordOrigin(s, w, j);
    }
  }

  /** Within the masks, the word at a position names the set and way it came from. */
  lemma WordOrigin(s: uint32, w: uint32, i: nat) returns (t: uint32, v: uint32)
    requires s <= 511 && w <= 3 && i < |SetWayWords(s, w)|
    ensures t <= s && v <= w && Position(s, w, t, v) == i
    ensures SetWayWords(s, w)[i] / 32 % 512 == t && SetWayWords(s, w)[i] / 0x4000_0000 == v
  {
    SetWayLength(s, w);
    t, v := PositionOf(s, w, i);
    WordAtPosition(s, w, t, v);
    WordDecodes(t, v);
  }

  /** The word names its set in bits 13:5 and its way in bits 31:30. */
  lemma {:induction false} WordDecodes(sets: uint32, ways: uint32)
    requires sets <= 511 && ways <= 3
    ensures LineWord(sets, ways) / 32 % 512 == sets
    ensures LineWord(sets, ways) / 0x4000_0000 == ways
  {
    UnpackWord(LineWord(sets, ways), sets, ways);
  }

  lemma UnpackWord(word: nat, s: nat, w: nat)
    requires s <= 511 && word == w * 0x4000_0000 + s * 32
    ensures word / 32 % 512 == s && word / 0x4000_0000 == w
  {
    DivModUnique(word, 0x4000_0000, w, s * 32);
    DivModUnique(word, 32, w * 0x200_0000 + s, 0);
    DivModUnique(w * 0x200_0000 + s, 512, w * 0x1_0000, s);
  }

  /** Two different lines with the same word appear at two different positions. */
  lemma EnumerationRepeats(s: uint32, w: uint32, t: uint32, v: uint32)
    requires t <= s && v <= w && (t < s || v < w)
    requires LineWord(t, v) == LineWord(s, w)
    ensures !Distinct(SetWayWords(s, w))
  {
    WordAtPosition(s, w, s, w);
    WordAtPosition(s, w, t, v);
    assert Position(s, w, s, w) < Position(s, w, t, v);
  }

  /**
   The nested do-while loops write one word per line of the cache, (NumSets+1) * (Associativity+1)
   in all.  No word comes twice exactly when the two field masks are wide enough for the geometry.
   */
  lemma {:induction false} SetWayEnumeration(s: uint32, w: uint32)
    ensures |SetWayWords(s, w)| == (s + 1) * (w + 1)
    ensures Enumerates(SetWayWords(s, w), s, w)
    ensures Distinct(SetWayWords(s, w)) <==> s <= 511 && w <= 3
  {
    SetWayLength(s, w);
    EnumerationComplete(s, w);
    if s <= 511 && w <= 3 {
      EnumerationDistinct(s, w);
    } else {
      EnumerationOverflows(s, w);
    }
  }

  lemma EnumerationOverflows(s: uint32, w: uint32)
    requires s > 511 || w > 3
    ensures !Distinct(SetWayWords(s, w))
  {
    if s > 511 {
      ModShift(s, -1, 512);
      EnumerationRepeats(s, w, s - 512, w);
    } else {
      ModShift(w, -1, 4);
      EnumerationRepeats(s, w, s, w - 4);
    }
  }

  lemma EnumerationComplete(s: uint32, w: uint32)
    ensures Enumerates(SetWayWords(s, w), s, w)
  {
    forall t: uint32, v: uint32 | t <= s && v <= w
      ensures LineWord(t, v) in SetWayWords(s, w)
    {
      WordAtPosition(s, w, t, v);
    }
  }

  // ----- by address -----

  /** The words of a by-address loop: one every 32 bytes while bytes remain. */
  function AddrWords(addr: uint32, dsize: int32): seq<uint32>
    decreases dsize
  {
    if dsize <= 0 then [] else [addr] + AddrWords(Add(addr, 32), dsize - 32)
  }

  lemma {:induction false} AddrWordAt(addr: uint32, dsize: int32)
    requires dsize >= 0
    ensures |AddrWords(addr, dsize)| == (dsize + 31) / 32
    ensures forall i | 0 <= i < |AddrWords(addr, dsize)| :: AddrWords(addr, dsize)[i] == (addr + 32 * i) % WORD
    decreases dsize
  {
    hide Add;
    if dsize > 32 {
      AddrWordAt(Add(addr, 32), dsize - 32);
      forall i | 0 < i < |AddrWords(addr, dsize)|
        ensures AddrWords(addr, dsize)[i] == (addr + 32 * i) % WORD
      {
        AddThenAdd(addr, 32, 32 * (i - 1));
        assert AddrWords(addr, dsize)[i] == AddrWords(Add(addr, 32), dsize - 32)[i - 1];
      }
    } else if dsize > 0 {
      assert AddrWords(Add(addr, 32), dsize - 32) == [];
    }
    AddZero(addr);
  }

  lemma AddThenAdd(x: uint32, y: uint32, z: nat)
    ensures (Add(x, y) + z) % WORD == (x + y + z) % WORD
  {
    DivModIdentity(x + y, WORD);
    ModShift(Add(x, y) + z, (x + y) / WORD, WORD);
  }

  lemma AddZero(x: uint32)
    ensures (x + 32 * 0) % WORD == x
  {
  }

  /** Some command of the list names an address in cache line b. */
  ghost predicate Touches(words: seq<uint32>, b: nat) {
    exists i | 0 <= i < |words| :: words[i] / 32 == b
  }

  /** Cache line b overlaps the byte range. */
  predicate Overlaps(addr: uint32, dsize: int32, b: nat) {
    b * 32 < addr + dsize && addr < b * 32 + 32
  }

  /** Cache line b lies wholly inside the byte range. */
  predicate Inside(addr: uint32, dsize: int32, b: nat) {
    addr <= b * 32 && b * 32 + 32 <= addr + dsize
  }

  /**
   A range of dsize > 0 bytes gets ceil(dsize/32) commands on consecutive lines from the first.
   They touch no line outside the range, and miss an overlapping line exactly when the offsets of
   the first and last byte carry into a further line; then they miss one, the last.
   */
  lemma {:induction false} AddrCoverage(addr: uint32, dsize: int32)
    requires 0 < dsize && addr + dsize <= WORD
    ensures |AddrWords(addr, dsize)| == (dsize + 31) / 32
    ensures forall b: nat :: Touches(AddrWords(addr, dsize), b) <==> addr / 32 <= b < addr / 32 + (dsize + 31) / 32
    ensures forall b: nat | Touches(AddrWords(addr, dsize), b) :: Overlaps(addr, dsize, b)
    ensures forall b: nat | Overlaps(addr, dsize, b) && !Touches(AddrWords(addr, dsize), b) ::
              b == (addr + dsize - 1) / 32
    ensures (exists b: nat :: Overlaps(addr, dsize, b) && !Touches(AddrWords(addr, dsize), b))
            <==> addr % 32 + (dsize - 1) % 32 >= 32
  {
    var words := AddrWords(addr, dsize);
    var n := (dsize + 31) / 32;
    AddrWordAt(addr, dsize);
    forall i | 0 <= i < n
      ensures words[i] / 32 == addr / 32 + i
    {
    }
    forall b: nat
      ensures Touches(words, b) <==> addr / 32 <= b < addr / 32 + n
      ensures Overlaps(addr, dsize, b) <==> addr / 32 <= b <= (addr + dsize - 1) / 32
    {
      if addr / 32 <= b < addr / 32 + n {
        assert words[b - addr / 32] / 32 == b;
      }
    }
    var last := (addr + dsize - 1) / 32;
    assert Overlaps(addr, dsize, last);
    assert last < addr / 32 + n <==> addr % 32 + (dsize - 1) % 32 < 32;
    if addr % 32 + (dsize - 1) % 32 >= 32 {
      assert Overlaps(addr, dsize, last) && !Touches(words, last);
    }
  }

  /**
   The commands stay inside the range, so that an invalidate cannot discard a neighbour's bytes,
   exactly when the range starts and ends on a line boundary.
   */
  lemma {:induction false} AddrContained(addr: uint32, dsize: int32)
    requires 0 < dsize && addr + dsize <= WORD
    ensures (forall b: nat | Touches(AddrWords(addr, dsize), b) :: Inside(addr, dsize, b))
            <==> addr % 32 == 0 && dsize % 32 == 0
  {
    AddrCoverage(addr, dsize);
    hide AddrWords, Touches;
    assert Touches(AddrWords(addr, dsize), addr / 32);
    assert Touches(AddrWords(addr, dsize), addr / 32 + (dsize + 31) / 32 - 1);
    if forall b: nat | Touches(AddrWords(addr, dsize), b) :: Inside(addr, dsize, b) {
      assert Inside(addr, dsize, addr / 32);
      assert Inside(addr, dsize, addr / 32 + (dsize + 31) / 32 - 1);
    }
  }
}
