/** The set/way register format of the data cache (ARMv7-M Architecture Reference Manual, section
    B2.2): the geometry read from CCSIDR, the words the maintenance loops write, and how the cache
    decodes them. */
module CacheGeometry {
  import opened Arith
  import opened CInt

  /** `CCSIDR_SETS`, `CCSIDR_WAYS` and `CCSIDR_LSSHIFT`: number of sets less one, number of ways less
      one, and the line size code. */
  function Sets(ccsidr: u32): nat { Shr(And(ccsidr, Shl(0x7FFF, 13)), 13) }

  function Ways(ccsidr: u32): nat { Shr(And(ccsidr, Shl(0x3FF, 3)), 3) }

  function LineShift(ccsidr: u32): nat { Shr(And(ccsidr, Shl(7, 0)), 0) }

  lemma GeometryFields(ccsidr: u32)
    ensures Sets(ccsidr) == ccsidr / 0x2000 % 0x8000 && Ways(ccsidr) == ccsidr / 8 % 0x400
    ensures LineShift(ccsidr) == ccsidr % 8
  {
    FieldAt(ccsidr, 15, 13);
    FieldAt(ccsidr, 10, 3);
    FieldAt(ccsidr, 3, 0);
    Pow2Values();
    hide And, Shl, Shr;
  }

  lemma FieldAt(x: nat, k: nat, m: nat)
    ensures Shr(And(x, Shl(Pow2(k) - 1, m)), m) == x / Pow2(m) % Pow2(k)
  {
    hide And;
    AndField(x, k, m);
    LowOfShl(Low(Shr(x, m), k), m, 0);
    ShrIsDiv(x, m);
    ShrIsDiv(Shr(x, m), k);
  }

  /** The hardware CLZ: 32 on zero. */
  function CountLeadingZeros(x: nat): int { 32 - BitLength(x) }

  function SetShift(ccsidr: u32): nat { LineShift(ccsidr) + 4 }

  function WayShift(ccsidr: u32): nat { And(U32(CountLeadingZeros(Ways(ccsidr))), 0x1F) }

  /** The word the loops write for one set and way. */
  function Word(ccsidr: u32, row: nat, way: nat): nat {
    Or(U32(Shl(way, WayShift(ccsidr))), U32(Shl(row, SetShift(ccsidr))))
  }

  /** How the architecture defines the word: the way in the top A bits, A being enough for all ways,
      and the set just above the offset within a line (2^(LineSize + 4) bytes), in as many bits as
      the sets need. */
  function DecodedWay(ccsidr: u32, word: nat): nat {
    WaysBits(ccsidr);
    if Ways(ccsidr) == 0 then 0 else Shr(word, 32 - BitLength(Ways(ccsidr)))
  }

  function DecodedSet(ccsidr: u32, word: nat): nat {
    Low(Shr(word, LineShift(ccsidr) + 4), BitLength(Sets(ccsidr)))
  }

  /** Set and way fields do not overlap: the sets, shifted, stay below the way field. */
  predicate FieldsFit(ccsidr: u32) {
    Ways(ccsidr) == 0 || Shl(Sets(ccsidr) + 1, SetShift(ccsidr)) <= Pow2(WayShift(ccsidr))
  }

  lemma Shifts(ccsidr: u32)
    ensures 4 <= SetShift(ccsidr) <= 11
    ensures Ways(ccsidr) < 0x400 && Sets(ccsidr) < 0x8000
    ensures Ways(ccsidr) == 0 ==> WayShift(ccsidr) == 0
    ensures Ways(ccsidr) > 0 ==> 22 <= WayShift(ccsidr) <= 31
    ensures Ways(ccsidr) > 0 ==> WayShift(ccsidr) == 32 - BitLength(Ways(ccsidr))
    ensures SetShift(ccsidr) == LineShift(ccsidr) + 4
  {
    hide Ways, Sets, LineShift, And, BitLength, U32;
    GeometryFields(ccsidr);
    BitsOfWays(Ways(ccsidr));
    U32Exact(CountLeadingZeros(Ways(ccsidr)));
    FiveBits(CountLeadingZeros(Ways(ccsidr)));
  }

  lemma WaysBits(ccsidr: u32)
    ensures BitLength(Ways(ccsidr)) <= 10
  {
    GeometryFields(ccsidr);
    BitsOfWays(Ways(ccsidr));
  }

  lemma BitsOfWays(w: nat)
    requires w < 0x400
    ensures BitLength(w) <= 10 && (w > 0 ==> BitLength(w) >= 1) && (w == 0 ==> BitLength(w) == 0)
  {
    hide Pow2;
    if w > 0 {
      BitLengthBounds(w);
      if BitLength(w) > 10 {
        Pow2Mono(10, BitLength(w) - 1);
        Pow2Values();
        assert false;
      }
    }
  }

  lemma FiveBits(x: nat)
    requires x <= 32
    ensures And(x, 0x1F) == if x == 32 then 0 else x
  {
    hide And, Low;
    assert Pow2(5) == 32;
    AndMask(x, 5);
    ShrIsDiv(x, 5);
  }

  /** A set number shifted into place, and the room it needs. */
  lemma SetField(ccsidr: u32, row: nat)
    requires row <= Sets(ccsidr)
    ensures U32(Shl(row, SetShift(ccsidr))) == Shl(row, SetShift(ccsidr)) < 0x1_0000_0000
    ensures FieldsFit(ccsidr) && Ways(ccsidr) > 0 ==> Shl(row, SetShift(ccsidr)) < Pow2(WayShift(ccsidr))
  {
    hide Sets, Ways, SetShift, WayShift, Pow2, Shl;
    Shifts(ccsidr);
    var s := SetShift(ccsidr);
    ShlMono(row + 1, Sets(ccsidr) + 1, s);
    ShlMono(Sets(ccsidr) + 1, 0x8000, s);
    ShlStrict(row, s);
    ShlAdd15(s);
  }

  lemma ShlAdd15(s: nat)
    requires s <= 11
    ensures Shl(0x8000, s) <= 0x400_0000
  {
    ShlIsMul(0x8000, s);
    Pow2Mono(s, 11);
    assert Pow2(11) == 0x800;
  }

  lemma {:induction false} ShlMono(x: nat, y: nat, k: nat)
    requires x <= y
    ensures Shl(x, k) <= Shl(y, k)
  {
    if k != 0 {
      ShlMono(x, y, k - 1);
    }
  }

  lemma {:induction false} ShlStrict(x: nat, k: nat)
    ensures Shl(x, k) < Shl(x + 1, k)
  {
    if k != 0 {
      ShlStrict(x, k - 1);
    }
  }

  lemma WayField(ccsidr: u32, way: nat)
    requires way <= Ways(ccsidr)
    ensures U32(Shl(way, WayShift(ccsidr))) == Shl(way, WayShift(ccsidr)) < 0x1_0000_0000
  {
    hide Sets, Ways, SetShift, WayShift, Pow2, Shl, BitLength;
    Shifts(ccsidr);
    var w, k := Ways(ccsidr), WayShift(ccsidr);
    if w == 0 {
      ShlZero(way);
    } else {
      BitLengthBounds(w);
      ShlMono(way, w, k);
      ShlStrict(w, k);
      ShlMono(w + 1, Pow2(BitLength(w)), k);
      ShlIsMul(Pow2(BitLength(w)), k);
      Pow2Add(BitLength(w), k);
      assert Pow2(32) == 0x1_0000_0000 by { Pow2Values(); }
    }
  }

  lemma ShlZero(x: nat)
    ensures Shl(x, 0) == x
  {
  }

  /** Every word the loops write is read back as the set and way it was made from, for all of them
      exactly when the fields fit. */
  lemma WordsDecodeExactlyWhen(ccsidr: u32)
    ensures (forall row: nat, way: nat | row <= Sets(ccsidr) && way <= Ways(ccsidr) ::
               DecodedSet(ccsidr, Word(ccsidr, row, way)) == row
               && DecodedWay(ccsidr, Word(ccsidr, row, way)) == way)
            <==> FieldsFit(ccsidr)
  {
    hide Word, DecodedSet, DecodedWay, FieldsFit, Sets, Ways;
    if FieldsFit(ccsidr) {
      forall row: nat, way: nat | row <= Sets(ccsidr) && way <= Ways(ccsidr)
        ensures DecodedSet(ccsidr, Word(ccsidr, row, way)) == row
        ensures DecodedWay(ccsidr, Word(ccsidr, row, way)) == way
      {
        WordDecodes(ccsidr, row, way);
      }
    } else {
      LastSetMisreads(ccsidr);
    }
  }

  lemma WordDecodes(ccsidr: u32, row: nat, way: nat)
    requires FieldsFit(ccsidr) && row <= Sets(ccsidr) && way <= Ways(ccsidr)
    ensures DecodedSet(ccsidr, Word(ccsidr, row, way)) == row
    ensures DecodedWay(ccsidr, Word(ccsidr, row, way)) == way
  {
    hide Sets, Ways, SetShift, WayShift, Pow2, Shl, Shr, Low, Or, U32, BitLength;
    Shifts(ccsidr);
    SetField(ccsidr, row);
    WayField(ccsidr, way);
    var s, k, m := SetShift(ccsidr), WayShift(ccsidr), BitLength(Sets(ccsidr));
    SetBits(Sets(ccsidr), row);
    LowSmall(row, m);
    SplitNothing(row, s);
    if Ways(ccsidr) == 0 {
      OrZero(Shl(row, s));
      ShlZero(0);
    } else {
      OrAligned(way, Shl(row, s), k);
      SplitUnique(way, Shl(row, s), k);
      BelowWayField(Sets(ccsidr), s, k);
      ShlAdd(way, s, k - s);
      TwoFields(way, row, s, k - s);
      LowLow(Shl(way, k - s) + row, m, k - s);
      LowSmall(row, k - s) by { Pow2Mono(m, k - s); }
      SplitUnique(way, row, k - s) by { Pow2Mono(m, k - s); }
    }
  }

  /** A word is the way and the set, each shifted to its own bit without loss; when the fields fit they do
      not overlap. */
  lemma WordIsFields(ccsidr: u32, row: nat, way: nat)
    requires row <= Sets(ccsidr) && way <= Ways(ccsidr)
    ensures Word(ccsidr, row, way) == Or(Shl(way, WayShift(ccsidr)), Shl(row, ccsidr % 8 + 4))
    ensures FieldsFit(ccsidr) ==> Word(ccsidr, row, way) == Shl(way, WayShift(ccsidr)) + Shl(row, ccsidr % 8 + 4)
    ensures WayShift(ccsidr) == if Ways(ccsidr) == 0 then 0 else 32 - BitLength(Ways(ccsidr))
  {
    hide Sets, Ways, SetShift, WayShift, Pow2, Shl, Or, U32, BitLength, LineShift;
    GeometryFields(ccsidr);
    Shifts(ccsidr);
    SetField(ccsidr, row);
    WayField(ccsidr, way);
    var s, k := SetShift(ccsidr), WayShift(ccsidr);
    if Ways(ccsidr) == 0 {
      OrZero(Shl(row, s));
      ShlZero(0);
    } else if FieldsFit(ccsidr) {
      OrAligned(way, Shl(row, s), k);
    }
  }

  lemma SplitNothing(x: nat, k: nat)
    ensures Shr(Shl(x, k), k) == x
  {
    LowOfShl(x, k, 0);
  }

  /** Both fields above bit s move down together. */
  lemma TwoFields(way: nat, row: nat, s: nat, m: nat)
    ensures Shr(Shl(way, m + s) + Shl(row, s), s) == Shl(way, m) + row
  {
    ShlAdd(way, s, m);
    ShlSum(Shl(way, m), row, s);
    LowOfShl(Shl(way, m) + row, s, 0);
  }

  lemma SetBits(sets: nat, row: nat)
    requires row <= sets
    ensures row < Pow2(BitLength(sets))
  {
    if sets > 0 {
      BitLengthBounds(sets);
    }
  }

  /** Sets that fit below the way field need no more bits than there are. */
  lemma BelowWayField(sets: nat, s: nat, k: nat)
    requires s <= k && Shl(sets + 1, s) <= Pow2(k)
    ensures BitLength(sets) <= k - s
  {
    hide Shl, Pow2, BitLength;
    ShlIsMul(sets + 1, s);
    Pow2Add(k - s, s);
    if sets + 1 > Pow2(k - s) {
      MulNonneg(sets - Pow2(k - s), Pow2(s));
      assert (sets - Pow2(k - s)) * Pow2(s) == (sets + 1) * Pow2(s) - Pow2(s) - Pow2(k - s) * Pow2(s);
      assert false;
    }
    if BitLength(sets) > k - s {
      ZeroLength();
      if sets > 0 {
        BitLengthBounds(sets);
        Pow2Mono(k - s, BitLength(sets) - 1);
      }
      assert false;
    }
  }

  lemma ZeroLength()
    ensures BitLength(0) == 0
  {
  }

  /** Without room, the last set spills into the way field. */
  lemma LastSetMisreads(ccsidr: u32)
    requires !FieldsFit(ccsidr)
    ensures DecodedWay(ccsidr, Word(ccsidr, Sets(ccsidr), 0)) != 0
  {
    hide Sets, Ways, SetShift, WayShift, Pow2, Shl, Shr, Or, U32, BitLength;
    Shifts(ccsidr);
    SetField(ccsidr, Sets(ccsidr));
    WayField(ccsidr, 0);
    var n, s, k := Sets(ccsidr), SetShift(ccsidr), WayShift(ccsidr);
    ShlOfZero(k);
    OrZero(Shl(n, s));
    Overflows(n, s, k);
    ShlIsMul(1, k);
    SplitNothing(1, k);
    ShrMono(Pow2(k), Shl(n, s), k);
  }

  lemma {:induction false} ShlOfZero(k: nat)
    ensures Shl(0, k) == 0
  {
    if k != 0 {
      ShlOfZero(k - 1);
    }
  }

  lemma Overflows(n: nat, s: nat, k: nat)
    requires s <= k && Shl(n + 1, s) > Pow2(k)
    ensures Shl(n, s) >= Pow2(k)
  {
    hide Shl, Pow2;
    ShlIsMul(n + 1, s);
    ShlIsMul(n, s);
    Pow2Add(k - s, s);
    var p := Pow2(k - s);
    if n < p {
      MulNonneg(p - n - 1, Pow2(s));
      assert false;
    }
    MulNonneg(n - p, Pow2(s));
    assert (n - p) * Pow2(s) == n * Pow2(s) - p * Pow2(s);
  }
}
