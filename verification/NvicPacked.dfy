/** Interrupt priorities on a core whose priority registers can only be accessed as words
    (ARMv6-M Architecture Reference Manual, section B3.4): four 8-bit fields packed in each. */
module NvicPacked {
  import opened CInt

  /** The interrupts that have a priority field: the core interrupts -8..-1 and the device ones. */
  type irq = i: int | -8 <= i < 32

  /** `_BIT_SHIFT`, `_SHP_IDX` and `_IP_IDX`; the cast makes a negative number wrap to 32 bits. */
  function BitShift(i: irq): nat { And(U32(i), 0x03) * 8 }

  function ShpIndex(i: irq): int { (And(U32(i), 0x0F) - 8) / 4 }

  function IpIndex(i: irq): nat { U32(i) / 4 }

  /** Which word holds the field of an interrupt, and where in it. */
  lemma FieldOf(i: irq)
    ensures BitShift(i) == i % 4 * 8
    ensures i < 0 ==> ShpIndex(i) == (i + 8) / 4 && 0 <= ShpIndex(i) < 2
    ensures i >= 0 ==> IpIndex(i) == i / 4 && 0 <= IpIndex(i) < 8
  {
    hide And;
    assert Pow2(2) == 4;
    Pow2Values();
    AndMask(U32(i), 2);
    ShrIsDiv(U32(i), 2);
    AndMask(U32(i), 4);
    ShrIsDiv(U32(i), 4);
    NegativeResidues(i);
  }

  lemma NegativeResidues(i: irq)
    ensures U32(i) % 4 == i % 4
    ensures i < 0 ==> U32(i) % 16 == i + 16
    ensures i >= 0 ==> U32(i) == i
  {
  }

  /** The read-modify-write of one field. */
  function SetField(word: u32, shift: nat, value: nat): nat {
    Or(And(word, Not32(U32(Shl(0xFF, shift)))), Shl(And(value, 0xFF), shift))
  }

  function GetField(word: nat, shift: nat): nat {
    And(Shr(word, shift), 0xFF)
  }

  /** A word from what is above a field, the field, and what is below it. */
  function WordOf(h: nat, f: nat, l: nat, shift: nat): nat {
    Shl(Shl(h, 8) + f, shift) + l
  }

  lemma ByteMask(x: nat)
    ensures And(x, 0xFF) == Low(x, 8) == x % 0x100
  {
    hide And;
    Pow2Values();
    AndMask(x, 8);
    ShrIsDiv(x, 8);
  }

  lemma AroundField(word: u32, shift: nat)
    ensures var h, f, l := Shr(word, shift + 8), GetField(word, shift), Low(word, shift);
            word == WordOf(h, f, l, shift) && f < 0x100 && l < Pow2(shift)
  {
    hide And, Shr, Low, Shl, Pow2;
    ByteMask(Shr(word, shift));
    Split(word, shift);
    Split(Shr(word, shift), 8);
    ShrShr(word, shift, 8);
    ByteRange();
  }

  lemma ByteRange()
    ensures Pow2(8) == 0x100
  {
    Pow2Values();
  }

  lemma FieldOfWord(h: nat, f: nat, l: nat, shift: nat)
    requires f < 0x100 && l < Pow2(shift)
    ensures Shr(WordOf(h, f, l, shift), shift + 8) == h
    ensures Low(Shr(WordOf(h, f, l, shift), shift), 8) == f
    ensures Low(WordOf(h, f, l, shift), shift) == l
  {
    assert Pow2(8) == 0x100 by { Pow2Values(); }
    SplitUnique(Shl(h, 8) + f, l, shift);
    SplitUnique(h, f, 8);
    ShrShr(WordOf(h, f, l, shift), shift, 8);
  }

  predicate Aligned(shift: nat) {
    shift == 0 || shift == 8 || shift == 16 || shift == 24
  }

  /** Clearing a field leaves what is around it. */
  lemma ClearField(word: u32, shift: nat)
    requires Aligned(shift)
    ensures And(word, Not32(U32(Shl(0xFF, shift))))
            == Shl(Shl(Shr(word, shift + 8), 8), shift) + Low(word, shift)
  {
    hide And, Shr, Low, Shl, U32;
    AroundField(word, shift);
    ByteMask(Shr(word, shift));
    MaskFits(shift);
    assert Pow2(8) == 0x100 && Pow2(32) == 0x1_0000_0000 by { Pow2Values(); }
    AndField(word, 8, shift);
    AndComplement(word, Shl(0xFF, shift), 32);
    ShlSum(Shl(Shr(word, shift + 8), 8), GetField(word, shift), shift);
  }

  lemma MaskFits(shift: nat)
    requires Aligned(shift)
    ensures U32(Shl(0xFF, shift)) == Shl(0xFF, shift)
  {
    Pow2Values();
    ShlIsMul(0xFF, shift);
  }

  /** Setting a field changes that byte of the word and nothing else. */
  lemma SetFieldReplaces(word: u32, shift: nat, value: nat)
    requires Aligned(shift)
    ensures SetField(word, shift, value)
            == WordOf(Shr(word, shift + 8), value % 0x100, Low(word, shift), shift)
  {
    hide And, Or, Shr, Low, Shl;
    ClearField(word, shift);
    ByteMask(value);
    AroundField(word, shift);
    OrAbove(Shl(Shr(word, shift + 8), 8), value % 0x100, Low(word, shift), shift);
    assert Pow2(8) == 0x100 by { Pow2Values(); }
    OrAligned(Shr(word, shift + 8), value % 0x100, 8);
  }

  /** Reading the field that was set, and any other field of the same word. */
  lemma GetAfterSet(word: u32, shift: nat, value: nat, other: nat)
    requires Aligned(shift) && Aligned(other)
    ensures GetField(SetField(word, shift, value), other)
            == if other == shift then value % 0x100 else GetField(word, other)
    ensures SetField(word, shift, value) < 0x1_0000_0000
  {
    hide And, SetField, Shr, Low, Shl, WordOf;
    var x, h, f, l := SetField(word, shift, value), Shr(word, shift + 8), value % 0x100, Low(word, shift);
    SetFieldReplaces(word, shift, value);
    AroundField(word, shift);
    FieldOfWord(h, f, l, shift);
    ByteMask(Shr(x, other));
    ByteMask(Shr(word, other));
    if other > shift {
      ShrShr(x, shift + 8, other - shift - 8);
      ShrShr(word, shift + 8, other - shift - 8);
    } else if other < shift {
      LowOfShr(x, other, 8);
      LowOfShr(word, other, 8);
      LowLow(x, other + 8, shift);
      LowLow(word, other + 8, shift);
    }
    StillAWord(word, h, GetField(word, shift), f, l, shift);
  }

  /** Replacing a byte of a 32-bit word keeps it one. */
  lemma StillAWord(word: u32, h: nat, f: nat, g: nat, l: nat, shift: nat)
    requires Aligned(shift) && f < 0x100 && g < 0x100 && l < Pow2(shift)
    requires word == WordOf(h, f, l, shift)
    ensures WordOf(h, g, l, shift) < 0x1_0000_0000
  {
    hide Shl, Pow2;
    ShlBytes(h);
    ShlBytes(Shl(h, 8) + f);
    ShlBytes(Shl(h, 8) + g);
    assert Pow2(0) == 1 && Pow2(8) == 0x100 && Pow2(16) == 0x1_0000 && Pow2(24) == 0x100_0000 by {
      Pow2Values();
    }
  }

  lemma ShlBytes(x: nat)
    ensures Shl(x, 0) == x && Shl(x, 8) == 0x100 * x
    ensures Shl(x, 16) == 0x1_0000 * x && Shl(x, 24) == 0x100_0000 * x
  {
    Pow2Values();
    ShlIsMul(x, 8);
    ShlIsMul(x, 16);
    ShlIsMul(x, 24);
  }

  // ---------------------------------------------------------------- the two register banks

  datatype Registers = Registers(shp: seq<u32>, ip: seq<u32>)

  predicate Banks(r: Registers) { |r.shp| == 2 && |r.ip| == 8 }

  /** The stored byte of an interrupt. */
  function Field(r: Registers, i: irq): nat
    requires Banks(r)
  {
    FieldOf(i);
    GetField(if i < 0 then r.shp[ShpIndex(i)] else r.ip[IpIndex(i)], BitShift(i))
  }

  /** The registers after NVIC_SetPriority, for a core with `bits` priority bits. */
  function Set(r: Registers, bits: nat, i: irq, priority: u32): (r': Registers)
    requires Banks(r) && 1 <= bits <= 8
    ensures Banks(r')
  {
    FieldOf(i);
    var value := U32(Shl(priority, 8 - bits));
    if i < 0 then
      GetAfterSet(r.shp[ShpIndex(i)], BitShift(i), value, 0);
      r.(shp := r.shp[ShpIndex(i) := SetField(r.shp[ShpIndex(i)], BitShift(i), value)])
    else
      GetAfterSet(r.ip[IpIndex(i)], BitShift(i), value, 0);
      r.(ip := r.ip[IpIndex(i) := SetField(r.ip[IpIndex(i)], BitShift(i), value)])
  }

  function Get(r: Registers, bits: nat, i: irq): nat
    requires Banks(r) && 1 <= bits <= 8
  {
    Shr(Field(r, i), 8 - bits)
  }

  /** The byte that stands for a priority: left-aligned, what does not fit dropped. */
  function Stored(bits: nat, priority: u32): nat
    requires 1 <= bits <= 8
  {
    U32(Shl(priority, 8 - bits)) % 0x100
  }

  lemma StoredReadsBack(bits: nat, priority: u32)
    requires 1 <= bits <= 8
    ensures Shr(Stored(bits, priority), 8 - bits) == priority % Pow2(bits)
  {
    hide Shl, Shr, Low;
    var s := Shl(priority, 8 - bits);
    ByteMask(s);
    DropHighBits(s);
    LowOfShl(priority, 8 - bits, bits);
    LowOfShl(Low(priority, bits), 8 - bits, 0);
    ShrIsDiv(priority, bits);
  }

  /** The stored byte itself: the implemented bits left-aligned, zeros below. */
  lemma StoredIs(bits: nat, priority: u32)
    requires 1 <= bits <= 8
    ensures Stored(bits, priority) == priority % Pow2(bits) * Pow2(8 - bits)
  {
    hide Shl, Low, Pow2;
    DropHighBits(Shl(priority, 8 - bits));
    assert Pow2(8) == 0x100 by { Pow2Values(); }
    ShrIsDiv(Shl(priority, 8 - bits), 8);
    LowOfShl(priority, 8 - bits, bits);
    ShlIsMul(Low(priority, bits), 8 - bits);
    ShrIsDiv(priority, bits);
  }

  lemma DropHighBits(s: nat)
    ensures U32(s) % 0x100 == s % 0x100
  {
  }

  /** One call: the interrupt's byte is replaced, and no other interrupt's byte changes, in the same
      word or any other. */
  lemma SetTouchesOneField(r: Registers, bits: nat, i: irq, priority: u32, j: irq)
    requires Banks(r) && 1 <= bits <= 8
    ensures Field(Set(r, bits, i, priority), j)
            == if i == j then Stored(bits, priority) else Field(r, j)
  {
    hide GetField, SetField, BitShift, ShpIndex, IpIndex, Shl, U32;
    FieldOf(i);
    FieldOf(j);
    var value := U32(Shl(priority, 8 - bits));
    if i < 0 {
      GetAfterSet(r.shp[ShpIndex(i)], BitShift(i), value, BitShift(j));
    } else {
      GetAfterSet(r.ip[IpIndex(i)], BitShift(i), value, BitShift(j));
    }
  }

  // ---------------------------------------------------------------- runs

  datatype Call = Call(irqn: irq, priority: u32)

  function Run(r: Registers, bits: nat, calls: seq<Call>): (r': Registers)
    requires Banks(r) && 1 <= bits <= 8
    ensures Banks(r')
  {
    if calls == [] then r
    else
      var c := calls[|calls| - 1];
      Set(Run(r, bits, calls[..|calls| - 1]), bits, c.irqn, c.priority)
  }

  /** The abstract state: the last priority given to each interrupt. */
  function LastSet(calls: seq<Call>): map<irq, u32> {
    if calls == [] then map[]
    else LastSet(calls[..|calls| - 1])[calls[|calls| - 1].irqn := calls[|calls| - 1].priority]
  }

  /** The packed registers refine a map from interrupts to priorities, over any run of calls: an
      interrupt reads back the last priority set for it, modulo what the implemented bits can hold,
      and one that was never set reads what it did before the run. */
  lemma {:induction false} RunRefinesMap(r: Registers, bits: nat, calls: seq<Call>, i: irq)
    requires Banks(r) && 1 <= bits <= 8
    ensures Get(Run(r, bits, calls), bits, i)
            == if i in LastSet(calls) then LastSet(calls)[i] % Pow2(bits) else Get(r, bits, i)
  {
    hide Field, Set, Shr, Stored;
    if calls != [] {
      var m, c := calls[..|calls| - 1], calls[|calls| - 1];
      RunRefinesMap(r, bits, m, i);
      SetTouchesOneField(Run(r, bits, m), bits, c.irqn, c.priority, i);
      StoredReadsBack(bits, c.priority);
    }
  }

  // ---------------------------------------------------------------- the registers themselves

  class Nvic {
    const SHP: array<u32>
    const IP: array<u32>
    const prioBits: nat

    constructor (bits: nat)
      requires 1 <= bits <= 8
      ensures fresh(SHP) && fresh(IP) && Valid() && prioBits == bits
    {
      SHP := new u32[2](_ => 0);
      IP := new u32[8](_ => 0);
      prioBits := bits;
    }

    predicate Valid() {
      SHP.Length == 2 && IP.Length == 8 && SHP != IP && 1 <= prioBits <= 8
    }

    function View(): (r: Registers)
      requires Valid()
      reads SHP, IP
      ensures Banks(r)
    {
      Registers(SHP[..], IP[..])
    }

    method SetPriority(i: irq, priority: u32)
      requires Valid()
      modifies SHP, IP
      ensures View() == Set(old(View()), prioBits, i, priority)
    {
      hide SetField, BitShift, ShpIndex, IpIndex, Shl, U32, Pow2, And;
      FieldOf(i);
      var value := U32(Shl(priority, 8 - prioBits));
      if i < 0 {
        GetAfterSet(SHP[ShpIndex(i)], BitShift(i), value, 0);
        SHP[ShpIndex(i)] := SetField(SHP[ShpIndex(i)], BitShift(i), value);
      } else {
        GetAfterSet(IP[IpIndex(i)], BitShift(i), value, 0);
        IP[IpIndex(i)] := SetField(IP[IpIndex(i)], BitShift(i), value);
      }
    }

    method GetPriority(i: irq) returns (priority: nat)
      requires Valid()
      ensures priority == Get(View(), prioBits, i)
    {
      FieldOf(i);
      if i < 0 {
        priority := Shr(And(Shr(SHP[ShpIndex(i)], BitShift(i)), 0xFF), 8 - prioBits);
      } else {
        priority := Shr(And(Shr(IP[IpIndex(i)], BitShift(i)), 0xFF), 8 - prioBits);
      }
    }
  }
}
