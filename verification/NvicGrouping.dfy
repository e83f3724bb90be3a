/** Priority grouping on a core with byte-wide priority registers: splitting the implemented bits into
    a preemption level and a subpriority (ARMv7-M Architecture Reference Manual, section B1.5.4). */
module NvicGrouping {
  import opened Arith
  import opened CInt
  import NvicPacked

  // ---------------------------------------------------------------- encoding

  function Group(priorityGroup: u32): nat { And(priorityGroup, 0x07) }

  function PreemptBits(priorityGroup: u32, bits: nat): nat
    requires 1 <= bits <= 8
  {
    if U32(7 - Group(priorityGroup)) > bits then bits else U32(7 - Group(priorityGroup))
  }

  function SubBits(priorityGroup: u32, bits: nat): nat
    requires 1 <= bits <= 8
  {
    if Group(priorityGroup) + bits < 7 then 0 else U32(Group(priorityGroup) - 7 + bits)
  }

  function LowMask(n: nat): nat {
    ShlIsMul(1, n);
    Shl(1, n) - 1
  }

  function Encode(priorityGroup: u32, bits: nat, preempt: u32, sub: u32): nat
    requires 1 <= bits <= 8
  {
    Or(Shl(And(preempt, LowMask(PreemptBits(priorityGroup, bits))), SubBits(priorityGroup, bits)),
       And(sub, LowMask(SubBits(priorityGroup, bits))))
  }

  function Decode(priorityGroup: u32, bits: nat, priority: nat): (nat, nat)
    requires 1 <= bits <= 8
  {
    (And(Shr(priority, SubBits(priorityGroup, bits)), LowMask(PreemptBits(priorityGroup, bits))),
     And(priority, LowMask(SubBits(priorityGroup, bits))))
  }

  lemma LowMaskKeeps(x: nat, n: nat)
    ensures And(x, LowMask(n)) == Low(x, n) == x % Pow2(n)
  {
    hide And;
    ShlIsMul(1, n);
    AndMask(x, n);
    ShrIsDiv(x, n);
  }

  /** The two fields share the implemented bits without gap or overlap. */
  lemma FieldWidths(priorityGroup: u32, bits: nat)
    requires 1 <= bits <= 8
    ensures Group(priorityGroup) == priorityGroup % 8
    ensures PreemptBits(priorityGroup, bits) + SubBits(priorityGroup, bits) == bits
    ensures PreemptBits(priorityGroup, bits) <= 7
    ensures PreemptBits(priorityGroup, bits)
            == if bits < 7 - priorityGroup % 8 then bits else 7 - priorityGroup % 8
  {
    hide And, Group;
    GroupIsLowBits(priorityGroup);
    U32Exact(7 - Group(priorityGroup));
    if Group(priorityGroup) + bits >= 7 {
      U32Exact(Group(priorityGroup) - 7 + bits);
    }
    hide U32;
  }

  lemma GroupIsLowBits(priorityGroup: u32)
    ensures Group(priorityGroup) == priorityGroup % 8
  {
    hide And;
    Pow2Values();
    AndMask(priorityGroup, 3);
    ShrIsDiv(priorityGroup, 3);
  }

  /** The encoded value is the two reduced fields side by side. */
  lemma EncodeIsFields(priorityGroup: u32, bits: nat, preempt: u32, sub: u32)
    requires 1 <= bits <= 8
    ensures var p, s := PreemptBits(priorityGroup, bits), SubBits(priorityGroup, bits);
            && Encode(priorityGroup, bits, preempt, sub) == Shl(preempt % Pow2(p), s) + sub % Pow2(s)
            && Encode(priorityGroup, bits, preempt, sub) < Pow2(bits)
  {
    hide And, Or, Shl, LowMask, PreemptBits, SubBits;
    var p, s := PreemptBits(priorityGroup, bits), SubBits(priorityGroup, bits);
    FieldWidths(priorityGroup, bits);
    LowMaskKeeps(preempt, p);
    LowMaskKeeps(sub, s);
    OrAligned(preempt % Pow2(p), sub % Pow2(s), s);
    JoinBelow(preempt % Pow2(p), sub % Pow2(s), p, s);
  }

  lemma JoinBelow(h: nat, l: nat, p: nat, s: nat)
    requires h < Pow2(p) && l < Pow2(s)
    ensures Shl(h, s) + l < Pow2(p + s)
  {
    hide Pow2, Shl;
    Pow2Add(p, s);
    ShlIsMul(h, s);
    Between(h, h, Pow2(p) - 1, Pow2(s));
    assert (Pow2(p) - 1) * Pow2(s) == Pow2(p) * Pow2(s) - Pow2(s);
  }

  /** Decoding any priority takes its two fields, whatever lies above them. */
  lemma DecodeIsFields(priorityGroup: u32, bits: nat, priority: nat)
    requires 1 <= bits <= 8
    ensures var p, s := PreemptBits(priorityGroup, bits), SubBits(priorityGroup, bits);
            Decode(priorityGroup, bits, priority) == (priority / Pow2(s) % Pow2(p), priority % Pow2(s))
  {
    hide And, Shr, LowMask, PreemptBits, SubBits, Pow2;
    var p, s := PreemptBits(priorityGroup, bits), SubBits(priorityGroup, bits);
    LowMaskKeeps(Shr(priority, s), p);
    LowMaskKeeps(priority, s);
    ShrIsDiv(priority, s);
  }

  /** Decoding an encoded priority gives both inputs back, reduced to their fields. */
  lemma DecodeEncode(priorityGroup: u32, bits: nat, preempt: u32, sub: u32)
    requires 1 <= bits <= 8
    ensures Decode(priorityGroup, bits, Encode(priorityGroup, bits, preempt, sub))
            == (preempt % Pow2(PreemptBits(priorityGroup, bits)), sub % Pow2(SubBits(priorityGroup, bits)))
  {
    hide And, Encode, Shl, Shr, Low, LowMask, PreemptBits, SubBits, Pow2;
    var p, s := PreemptBits(priorityGroup, bits), SubBits(priorityGroup, bits);
    EncodeIsFields(priorityGroup, bits, preempt, sub);
    var h, l := preempt % Pow2(p), sub % Pow2(s);
    var e := Encode(priorityGroup, bits, preempt, sub);
    SplitUnique(h, l, s);
    LowMaskKeeps(Shr(e, s), p);
    LowMaskKeeps(e, s);
    LowSmall(h, p);
  }

  /** Encoding what was decoded gives the priority back, reduced to the implemented bits; below
      2^bits the two are inverse. */
  lemma EncodeDecode(priorityGroup: u32, bits: nat, priority: u32)
    requires 1 <= bits <= 8
    ensures var (p, s) := Decode(priorityGroup, bits, priority);
            && p < 0x1_0000_0000 && s < 0x1_0000_0000
            && Encode(priorityGroup, bits, p, s) == priority % Pow2(bits)
            && (priority < Pow2(bits) ==> Encode(priorityGroup, bits, p, s) == priority)
  {
    hide And, Encode, Shl, Shr, Low, LowMask, PreemptBits, SubBits, Pow2;
    var a, b := PreemptBits(priorityGroup, bits), SubBits(priorityGroup, bits);
    FieldWidths(priorityGroup, bits);
    LowMaskKeeps(Shr(priority, b), a);
    LowMaskKeeps(priority, b);
    SmallFields(a, b, bits);
    var p: u32, s: u32 := Low(Shr(priority, b), a), Low(priority, b);
    EncodeIsFields(priorityGroup, bits, p, s);
    ShrIsDiv(p, a);
    ShrIsDiv(s, b);
    LowLow(Shr(priority, b), a, a);
    LowLow(priority, b, b);
    LowJoins(priority, a, b);
    ShrIsDiv(priority, bits);
    if priority < Pow2(bits) {
      LowSmall(priority, bits);
    }
  }

  lemma SmallFields(a: nat, b: nat, bits: nat)
    requires a + b == bits <= 8
    ensures Pow2(a) <= 0x100 && Pow2(b) <= 0x100
  {
    Pow2Values();
    Pow2Mono(a, 8);
    Pow2Mono(b, 8);
  }

  lemma {:induction false} LowJoins(x: nat, a: nat, b: nat)
    ensures Shl(Low(Shr(x, b), a), b) + Low(x, b) == Low(x, a + b)
  {
    if b != 0 {
      LowJoins(x / 2, a, b - 1);
    }
  }

  /** The order of encoded priorities, which the hardware compares, is the lexicographic order of
      preemption level and subpriority. */
  lemma EncodeIsLexicographic(priorityGroup: u32, bits: nat, p: u32, s: u32, p': u32, s': u32)
    requires 1 <= bits <= 8
    ensures var (h, l) := Decode(priorityGroup, bits, Encode(priorityGroup, bits, p, s));
            var (h', l') := Decode(priorityGroup, bits, Encode(priorityGroup, bits, p', s'));
            Encode(priorityGroup, bits, p, s) < Encode(priorityGroup, bits, p', s')
            <==> h < h' || (h == h' && l < l')
  {
    hide Encode, Decode, Shl, PreemptBits, SubBits, Pow2;
    DecodeEncode(priorityGroup, bits, p, s);
    DecodeEncode(priorityGroup, bits, p', s');
    EncodeIsFields(priorityGroup, bits, p, s);
    EncodeIsFields(priorityGroup, bits, p', s');
    var a, b := PreemptBits(priorityGroup, bits), SubBits(priorityGroup, bits);
    JoinOrder(p % Pow2(a), s % Pow2(b), p' % Pow2(a), s' % Pow2(b), b);
  }

  lemma JoinOrder(h: nat, l: nat, h': nat, l': nat, k: nat)
    requires l < Pow2(k) && l' < Pow2(k)
    ensures Shl(h, k) + l < Shl(h', k) + l' <==> h < h' || (h == h' && l < l')
  {
    ShlIsMul(h, k);
    ShlIsMul(h', k);
    if h < h' {
      Between(Pow2(k), Pow2(k), Pow2(k), h' - h - 1);
      assert (h' - h - 1) * Pow2(k) == h' * Pow2(k) - h * Pow2(k) - Pow2(k);
      MulNonneg(h' - h - 1, Pow2(k));
    } else if h > h' {
      MulNonneg(h - h' - 1, Pow2(k));
      assert (h - h' - 1) * Pow2(k) == h * Pow2(k) - h' * Pow2(k) - Pow2(k);
    }
  }

  /** Through the priority register and back: encoded, stored left-aligned in a byte, read back and
      decoded under the same grouping, both fields survive. */
  lemma ThroughTheRegister(priorityGroup: u32, bits: nat, preempt: u32, sub: u32)
    requires 1 <= bits <= 8
    ensures var e := Encode(priorityGroup, bits, preempt, sub);
            && e < 0x1_0000_0000
            && Decode(priorityGroup, bits, Shr(NvicPacked.Stored(bits, e), 8 - bits))
               == (preempt % Pow2(PreemptBits(priorityGroup, bits)), sub % Pow2(SubBits(priorityGroup, bits)))
  {
    hide Encode, Decode, Shr, NvicPacked.Stored, PreemptBits, SubBits;
    EncodeIsFields(priorityGroup, bits, preempt, sub);
    var e := Encode(priorityGroup, bits, preempt, sub);
    Pow2Values();
    Pow2Mono(bits, 8);
    NvicPacked.StoredReadsBack(bits, e);
    LowSmall(e, bits);
    ShrIsDiv(e, bits);
    DecodeEncode(priorityGroup, bits, preempt, sub);
  }

  /** How the architecture splits a priority byte under a group (section B1.5.4): the preemption part is
      what lies above bit PRIGROUP, the subpriority what lies at and below it. */
  function PreemptionPart(priority: nat, priorityGroup: u32): nat { Shr(priority, priorityGroup % 8 + 1) }

  function SubpriorityPart(priority: nat, priorityGroup: u32): nat { Low(priority, priorityGroup % 8 + 1) }

  /** The encoding agrees with the hardware's own split of the stored byte: its two parts are the two
      fields, each left-aligned in what is implemented of it. */
  lemma HardwareSplit(priorityGroup: u32, bits: nat, preempt: u32, sub: u32)
    requires 1 <= bits <= 8
    ensures var p, s := PreemptBits(priorityGroup, bits), SubBits(priorityGroup, bits);
            var e := Encode(priorityGroup, bits, preempt, sub);
            && p + priorityGroup % 8 <= 7
            && e < 0x1_0000_0000
            && PreemptionPart(NvicPacked.Stored(bits, e), priorityGroup)
               == preempt % Pow2(p) * Pow2(7 - p - priorityGroup % 8)
            && SubpriorityPart(NvicPacked.Stored(bits, e), priorityGroup) == sub % Pow2(s) * Pow2(8 - bits)
  {
    hide Encode, Shl, Shr, Low, PreemptBits, SubBits, Pow2, NvicPacked.Stored;
    var p, s, g := PreemptBits(priorityGroup, bits), SubBits(priorityGroup, bits), priorityGroup % 8;
    FieldWidths(priorityGroup, bits);
    EncodeIsFields(priorityGroup, bits, preempt, sub);
    var h, l := preempt % Pow2(p), sub % Pow2(s);
    ShlIsMul(h, s);
    StoredIsProduct(bits, h * Pow2(s) + l);
    SplitStored(h, l, p, s, bits, g);
    ShrIsDiv((h * Pow2(s) + l) * Pow2(8 - bits), g + 1);
  }

  lemma StoredIsProduct(bits: nat, e: nat)
    requires 1 <= bits <= 8 && e < Pow2(bits)
    ensures e < 0x1_0000_0000 && NvicPacked.Stored(bits, e) == e * Pow2(8 - bits)
  {
    hide Shl, Pow2, U32;
    assert Pow2(8) == 0x100 by { Pow2Values(); }
    Pow2Mono(bits, 8);
    ShlIsMul(e, 8 - bits);
    Pow2Add(bits, 8 - bits);
    Squeeze(Pow2(8 - bits), 0, e, Pow2(bits));
    U32Exact(e * Pow2(8 - bits));
  }

  lemma SplitStored(h: nat, l: nat, p: nat, s: nat, bits: nat, g: nat)
    requires p + s == bits <= 8 && p + g <= 7 && (s > 0 ==> p + g == 7) && l < Pow2(s)
    ensures var b := (h * Pow2(s) + l) * Pow2(8 - bits);
            b / Pow2(g + 1) == h * Pow2(7 - p - g) && b % Pow2(g + 1) == l * Pow2(8 - bits)
  {
    Pow2Add(s, 8 - bits);
    Pow2Add(7 - p - g, g + 1);
    assert s == 0 ==> l == 0;
    assert p + g == 7 ==> Pow2(7 - p - g) == 1;
    hide Pow2;
    SplitProduct(h, l, Pow2(s), Pow2(8 - bits), Pow2(7 - p - g), Pow2(g + 1));
  }

  lemma SplitProduct(h: nat, l: nat, t: nat, u: nat, v: nat, w: nat)
    requires t * u == v * w && w > 0 && u > 0 && l < t && (l == 0 || v == 1)
    ensures (h * t + l) * u / w == h * v && (h * t + l) * u % w == l * u
  {
    Squeeze(u, 0, l, t);
    assert (h * t + l) * u == h * (t * u) + l * u;
    assert h * (v * w) == w * (h * v);
    DivModUnique((h * t + l) * u, w, h * v, l * u);
  }

  // ---------------------------------------------------------------- the grouping register

  /** The key and group fields, to be cleared before they are replaced. */
  function ReplacedBits(): u32 { U32(Or(0xFFFF_0000, 0x700)) }

  lemma ReplacedBitsValue()
    ensures ReplacedBits() == 0xFFFF_0700
  {
    hide Or;
    Pow2Values();
    OrAlignedMul(0xFFFF, 0x700, 16);
  }

  /** AIRCR after NVIC_SetPriorityGrouping: the key and the group replaced, the rest kept. */
  function Regrouped(aircr: u32, priorityGroup: u32): u32 {
    U32(Or(Or(And(aircr, Not32(ReplacedBits())), Shl(0x5FA, 16)), Shl(Group(priorityGroup), 8)))
  }

  function GroupingOf(aircr: nat): nat { Shr(And(aircr, 0x700), 8) }

  lemma ClearedRegister(aircr: u32)
    ensures And(aircr, Not32(ReplacedBits())) == aircr % 0x1_0000 - aircr / 0x100 % 8 * 0x100
  {
    hide And, Or, ReplacedBits;
    ReplacedBitsValue();
    Pow2Values();
    AndComplement(aircr, 0xFFFF_0700, 32);
    ShlIsMul(0xFFFF, 16);
    AndTwoMasks(aircr, 0xFFFF, 0x700, 16);
    MaskIsField(aircr, 16, 16, 0xFFFF_0000, 0x1_0000);
    MaskIsField(aircr, 3, 8, 0x700, 0x100);
  }

  /** The register written, field by field: key, upper flags, group, lower flags. */
  lemma RegroupedIs(aircr: u32, priorityGroup: u32)
    ensures Regrouped(aircr, priorityGroup)
            == 0x5FA_0000 + aircr / 0x800 % 0x20 * 0x800 + priorityGroup % 8 * 0x100 + aircr % 0x100
  {
    hide And, Or, Shl, Group, ReplacedBits;
    var g, c, l := Group(priorityGroup), aircr / 0x800 % 0x20, aircr % 0x100;
    GroupIsLowBits(priorityGroup);
    ClearedRegister(aircr);
    FlagsOf(aircr);
    var r0 := c * 0x800 + l;
    Pow2Values();
    ShlIsMul(0x5FA, 16);
    OrAligned(0x5FA, r0, 16);
    KeyedFields(c, g, l);
    U32Exact(0x5FA_0000 + c * 0x800 + g * 0x100 + l);
  }

  lemma FlagsOf(a: u32)
    ensures a % 0x1_0000 - a / 0x100 % 8 * 0x100 == a / 0x800 % 0x20 * 0x800 + a % 0x100
  {
    var a1 := a / 0x100;
    var a2 := a1 / 8;
    var g, c, l := a1 % 8, a2 % 0x20, a % 0x100;
    DivTwice(a, 0x100, 8);
    DivModUnique(a, 0x1_0000, a2 / 0x20, c * 0x800 + g * 0x100 + l);
  }

  /** The register holds the write key, the requested group, and every other bit as before. */
  lemma RegroupedFields(aircr: u32, priorityGroup: u32)
    ensures var r := Regrouped(aircr, priorityGroup);
            && r / 0x1_0000 == 0x5FA
            && r / 0x100 % 8 == priorityGroup % 8
            && r % 0x100 == aircr % 0x100 && r / 0x800 % 0x20 == aircr / 0x800 % 0x20
            && GroupingOf(r) == priorityGroup % 8
  {
    hide And, Regrouped, Shr;
    RegroupedIs(aircr, priorityGroup);
    var r := Regrouped(aircr, priorityGroup);
    ReadFields(aircr / 0x800 % 0x20, priorityGroup % 8, aircr % 0x100);
    GroupingField(r);
  }

  lemma GroupingField(r: nat)
    ensures GroupingOf(r) == r / 0x100 % 8
  {
    hide And, Shr, Low;
    Pow2Values();
    MaskIsField(r, 3, 8, 0x700, 0x100);
    ShrIsDiv(r / 0x100 % 8 * 0x100, 8);
  }

  lemma ReadFields(c: nat, g: nat, l: nat)
    requires c < 0x20 && g < 8 && l < 0x100
    ensures var r := 0x5FA_0000 + c * 0x800 + g * 0x100 + l;
            r / 0x1_0000 == 0x5FA && r / 0x100 % 8 == g && r % 0x100 == l && r / 0x800 % 0x20 == c
  {
    var r := 0x5FA_0000 + c * 0x800 + g * 0x100 + l;
    DivModUnique(r, 0x1_0000, 0x5FA, c * 0x800 + g * 0x100 + l);
    DivModUnique(r, 0x100, 0x5_FA00 + c * 8 + g, l);
    DivModUnique(0x5_FA00 + c * 8 + g, 8, 0xBF40 + c, g);
    DivModUnique(r, 0x800, 0xBF40 + c, g * 0x100 + l);
    DivModUnique(0xBF40 + c, 0x20, 0x5FA, c);
  }

  lemma KeyedFields(c: nat, g: nat, l: nat)
    requires c < 0x20 && g < 8 && l < 0x100
    ensures Or(c * 0x800 + l + 0x5FA_0000, Shl(g, 8)) == 0x5FA_0000 + c * 0x800 + g * 0x100 + l
  {
    hide Or, Shl;
    Pow2Values();
    var h := 0xBF40 + c;
    ShlIsMul(h, 3);
    ShlIsMul(Shl(h, 3), 8);
    OrAbove(Shl(h, 3), g, l, 8);
    OrAligned(h, g, 3);
    ShlIsMul(Shl(h, 3) + g, 8);
  }

  /** The registers of the core: system handlers -12..-1 and device interrupts 0..239. */
  class Scb {
    var AIRCR: u32
    const SHP: array<u32>
    const IP: array<u32>
    const prioBits: nat

    constructor (bits: nat)
      requires 1 <= bits <= 8
      ensures fresh(this) && fresh(SHP) && fresh(IP) && Valid() && prioBits == bits
    {
      AIRCR := 0;
      SHP := new u32[12](_ => 0);
      IP := new u32[240](_ => 0);
      prioBits := bits;
    }

    predicate Valid() {
      SHP.Length == 12 && IP.Length == 240 && SHP != IP && 1 <= prioBits <= 8
    }

    method SetPriorityGrouping(priorityGroup: u32)
      modifies this
      ensures AIRCR == Regrouped(old(AIRCR), priorityGroup)
      ensures GroupingOf(AIRCR) == priorityGroup % 8
    {
      hide And, Or, Shl, GroupingOf, U32;
      RegroupedFields(AIRCR, priorityGroup);
      var group := And(priorityGroup, 0x07);
      var regValue: int := AIRCR;
      regValue := And(regValue, Not32(U32(Or(0xFFFF_0000, 0x700))));
      AIRCR := U32(Or(Or(regValue, Shl(0x5FA, 16)), Shl(group, 8)));
    }

    method GetPriorityGrouping() returns (group: nat)
      ensures group == GroupingOf(AIRCR) == AIRCR / 0x100 % 8
    {
      GroupingField(AIRCR);
      group := Shr(And(AIRCR, 0x700), 8);
    }

    function Byte(i: int): u32
      requires Valid() && -12 <= i < 240
      reads SHP, IP
    {
      if i < 0 then SHP[i + 12] else IP[i]
    }

    method SetPriority(i: int, priority: u32)
      requires Valid() && -12 <= i < 240
      modifies SHP, IP
      ensures forall j | -12 <= j < 240 ::
                Byte(j) == if j == i then NvicPacked.Stored(prioBits, priority) else old(Byte(j))
    {
      hide And, Shl, U32;
      var value := And(U32(Shl(priority, 8 - prioBits)), 0xFF);
      NvicPacked.ByteMask(U32(Shl(priority, 8 - prioBits)));
      if i < 0 {
        HandlerIndex(i);
        SHP[And(U32(i), 0xF) - 4] := value;
      } else {
        U32Exact(i);
        IP[U32(i)] := value;
      }
    }

    method GetPriority(i: int) returns (priority: nat)
      requires Valid() && -12 <= i < 240
      ensures priority == Shr(Byte(i), 8 - prioBits)
    {
      hide And, Shr, U32;
      if i < 0 {
        HandlerIndex(i);
        priority := Shr(SHP[And(U32(i), 0xF) - 4], 8 - prioBits);
      } else {
        U32Exact(i);
        priority := Shr(IP[U32(i)], 8 - prioBits);
      }
    }
  }

  lemma HandlerIndex(i: int)
    requires -12 <= i < 0
    ensures And(U32(i), 0xF) - 4 == i + 12
  {
    hide And, Low, Shr;
    assert Pow2(4) == 16;
    AndMask(U32(i), 4);
    ShrIsDiv(U32(i), 4);
  }
}
