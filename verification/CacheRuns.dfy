/** The five maintenance calls as a whole, and runs that interleave them with loads and stores: the
    cached system against a flat memory. */
module CacheRuns {
  import opened CInt
  import opened CacheGeometry
  import opened DataCache
  import opened CacheCoherence

  // ---------------------------------------------------------------- the enable bit

  lemma Bit16Set(ccr: u32)
    ensures var r := SetBit16(ccr);
            r / 0x1_0000 % 2 == 1 && r % 0x1_0000 == ccr % 0x1_0000 && r / 0x2_0000 == ccr / 0x2_0000
  {
    hide Or, Shl, U32;
    var x, l := ccr / 0x1_0000, ccr % 0x1_0000;
    assert Pow2(16) == 0x1_0000 by { Pow2Values(); }
    ShlIsMul(x, 16);
    ShlIsMul(1, 16);
    ShlIsMul(Or(x, 1), 16);
    OrAbove(x, 1, l, 16);
    OrOne(x);
    OddAbove(x, l);
    U32Exact((if x % 2 == 1 then x else x + 1) * 0x1_0000 + l);
  }

  lemma OddAbove(x: nat, l: nat)
    requires x < 0x1_0000 && l < 0x1_0000
    ensures var r := (if x % 2 == 1 then x else x + 1) * 0x1_0000 + l;
            r < 0x1_0000_0000 && r / 0x1_0000 % 2 == 1 && r % 0x1_0000 == l && r / 0x2_0000 == x / 2
  {
  }

  lemma OrOne(x: nat)
    ensures Or(x, 1) == if x % 2 == 1 then x else x + 1
  {
    OrZero(x / 2);
  }

  lemma Bit16Cleared(ccr: u32)
    ensures var r := ClearBit16(ccr);
            r / 0x1_0000 % 2 == 0 && r % 0x1_0000 == ccr % 0x1_0000 && r / 0x2_0000 == ccr / 0x2_0000
  {
    hide And;
    Pow2Values();
    AndComplement(ccr, 0x1_0000, 32);
    assert Pow2(1) == 2;
    MaskIsField(ccr, 1, 16, 0x1_0000, 0x1_0000);
  }

  // ---------------------------------------------------------------- the calls

  function Apply(ccsidr: u32, c: Core, call: Call): Core {
    Exec(ccsidr, c, Writes(ccsidr, call, c.ccr))
  }

  /** What the processor sees at an address: through the cache when it is enabled, memory when not. */
  function Seen(ccsidr: u32, c: Core, a: Addr): int {
    if Enabled(c) then View(ccsidr, c, a) else c.mem(a)
  }

  lemma ExecOne(ccsidr: u32, c: Core, e: Event)
    ensures Exec(ccsidr, c, [e]) == Step(ccsidr, c, e)
  {
    hide Step;
    ExecStep(ccsidr, c, [], e);
    assert [] + [e] == [e];
  }

  /** SCB_EnableDCache: when the enable bit is written every line is already invalid, and nothing
      else is written after it; memory is untouched, so the enabled cache starts out transparent.
      No other configuration bit changes. */
  lemma EnableStartsEmpty(ccsidr: u32, c: Core)
    requires FieldsFit(ccsidr)
    ensures var es, c' := Writes(ccsidr, EnableDCache, c.ccr), Apply(ccsidr, c, EnableDCache);
            && es != [] && es[|es| - 1] == WriteCCR(SetBit16(c.ccr))
            && NoValid(ccsidr, Exec(ccsidr, c, es[..|es| - 1]))
            && (forall i | 0 <= i < |es| - 1 :: es[i].Maintain?)
            && NoValid(ccsidr, c') && c'.mem == c.mem
            && Enabled(c') && c'.ccr % 0x1_0000 == c.ccr % 0x1_0000 && c'.ccr / 0x2_0000 == c.ccr / 0x2_0000
            && forall a: Addr | a.row <= Sets(ccsidr) :: Seen(ccsidr, c', a) == c.mem(a)
  {
    hide Sets, Sweep, FieldsFit, Exec, View, InCache, SetBit16, AllTargetsInCache;
    var sweep, e := Sweep(ccsidr, Invalidate), WriteCCR(SetBit16(c.ccr));
    SweepTargets(ccsidr, Invalidate);
    InvalidateSweepDropsLines(ccsidr, c);
    ExecStep(ccsidr, c, sweep, e);
    assert (sweep + [e])[..|sweep|] == sweep;
    Bit16Set(c.ccr);
    var c' := Apply(ccsidr, c, EnableDCache);
    EmptyIsCoherent(ccsidr, c');
    forall a: Addr | a.row <= Sets(ccsidr)
      ensures View(ccsidr, c', a) == c.mem(a)
    {
      ViewIsMemory(ccsidr, c', a);
    }
  }

  /** SCB_DisableDCache on a coherent cache: it ends disabled and empty, and memory is the coherent view
      from before. */
  lemma DisablePreservesMemory(ccsidr: u32, c: Core)
    requires FieldsFit(ccsidr) && Coherent(ccsidr, c)
    ensures var c' := Apply(ccsidr, c, DisableDCache);
            && !Enabled(c') && NoValid(ccsidr, c')
            && c'.ccr % 0x1_0000 == c.ccr % 0x1_0000 && c'.ccr / 0x2_0000 == c.ccr / 0x2_0000
            && forall a: Addr | a.row <= Sets(ccsidr) ::
                 c'.mem(a) == View(ccsidr, c, a) && Seen(ccsidr, c', a) == View(ccsidr, c, a)
  {
    hide Sets, Sweep, FieldsFit, Exec, View, ClearBit16, NoValid;
    var e := WriteCCR(ClearBit16(c.ccr));
    ExecConcat(ccsidr, c, [e], Sweep(ccsidr, CleanInvalidate));
    ExecOne(ccsidr, c, e);
    var d := c.(ccr := ClearBit16(c.ccr));
    assert Coherent(ccsidr, d);
    Bit16Cleared(c.ccr);
    CleanSweepPreservesMemory(ccsidr, d, CleanInvalidate);
    forall a: Addr | a.row <= Sets(ccsidr)
      ensures View(ccsidr, d, a) == View(ccsidr, c, a)
    {
      SameLinesSameView(c, d, a, Ways(ccsidr));
      ViewUnfolds(ccsidr, c, a);
      ViewUnfolds(ccsidr, d, a);
    }
  }

  lemma ViewUnfolds(ccsidr: u32, c: Core, a: Addr)
    ensures View(ccsidr, c, a) == Look(c, a, Ways(ccsidr))
  {
  }

  lemma {:induction false} SameLinesSameView(c: Core, d: Core, a: Addr, n: nat)
    requires c.lines == d.lines && c.mem == d.mem
    ensures Look(c, a, n) == Look(d, a, n)
  {
    if n != 0 {
      SameLinesSameView(c, d, a, n - 1);
    }
  }

  // ---------------------------------------------------------------- call by call

  lemma {:induction false} WaySweepAt(ccsidr: u32, kind: Kind, row: nat, way: nat, w: nat)
    requires w <= way
    ensures |WaySweep(ccsidr, kind, row, way)| == way + 1
    ensures WaySweep(ccsidr, kind, row, way)[way - w] == Maintain(kind, Word(ccsidr, row, w))
  {
    hide Word;
    if way != 0 {
      WaySweepAt(ccsidr, kind, row, way - 1, if w == way then 0 else w);
    }
  }

  /** Where in the list of writes a set and way has its turn, counted from the last set and way. */
  function Turn(ways: nat, row: nat, way: nat, r: nat, w: nat): int { (row - r) * (ways + 1) + way - w }

  lemma {:induction false} SetSweepAt(ccsidr: u32, kind: Kind, row: nat, r: nat, w: nat)
    requires r <= row && w <= Ways(ccsidr)
    ensures |SetSweep(ccsidr, kind, row)| == (row + 1) * (Ways(ccsidr) + 1)
    ensures 0 <= Turn(Ways(ccsidr), row, Ways(ccsidr), r, w) < |SetSweep(ccsidr, kind, row)|
    ensures SetSweep(ccsidr, kind, row)[Turn(Ways(ccsidr), row, Ways(ccsidr), r, w)]
            == Maintain(kind, Word(ccsidr, r, w))
  {
    hide Word, Ways, WaySweep;
    var n := Ways(ccsidr) + 1;
    WaySweepAt(ccsidr, kind, row, n - 1, if r == row then w else 0);
    if row != 0 {
      SetSweepAt(ccsidr, kind, row - 1, if r == row then 0 else r, if r == row then 0 else w);
      NextRow(row, r, n);
    }
  }

  lemma NextRow(row: int, r: int, n: int)
    ensures (row - r) * n == (row - 1 - r) * n + n && (row + 1) * n == row * n + n
  {
  }

  /** Every register write of each call, in order: one maintenance word per set and way, from the last set
      and way down to the first, of the call's own kind; a disable clears the enable bit before the
      first of them and an enable sets it after the last. */
  lemma CallWrites(ccsidr: u32, call: Call, ccr: u32, r: nat, w: nat)
    requires r <= Sets(ccsidr) && w <= Ways(ccsidr)
    ensures var es, n := Writes(ccsidr, call, ccr), (Sets(ccsidr) + 1) * (Ways(ccsidr) + 1);
            var turn := (Sets(ccsidr) - r) * (Ways(ccsidr) + 1) + (Ways(ccsidr) - w);
            && |es| == n + (if call == EnableDCache || call == DisableDCache then 1 else 0)
            && 0 <= turn < n
            && es[(if call == DisableDCache then 1 else 0) + turn]
               == Maintain(match call
                             case EnableDCache => Invalidate
                             case InvalidateDCache => Invalidate
                             case CleanDCache => Clean
                             case CleanInvalidateDCache => CleanInvalidate
                             case DisableDCache => CleanInvalidate,
                           Word(ccsidr, r, w))
            && (call == EnableDCache ==> es[n].WriteCCR? && OnlyEnables(ccr, es[n].value, 1))
            && (call == DisableDCache ==> es[0].WriteCCR? && OnlyEnables(ccr, es[0].value, 0))
  {
    hide Word, Ways, Sets, SetSweep, SetBit16, ClearBit16;
    var kind := match call
      case EnableDCache => Invalidate
      case InvalidateDCache => Invalidate
      case CleanDCache => Clean
      case CleanInvalidateDCache => CleanInvalidate
      case DisableDCache => CleanInvalidate;
    SetSweepAt(ccsidr, kind, Sets(ccsidr), r, w);
    Bit16Set(ccr);
    Bit16Cleared(ccr);
  }

  /** A configuration that differs from the old one in the enable bit at most, which it sets to bit. */
  predicate OnlyEnables(ccr: u32, ccr': u32, bit: nat) {
    ccr' / 0x1_0000 % 2 == bit && ccr' % 0x1_0000 == ccr % 0x1_0000 && ccr' / 0x2_0000 == ccr / 0x2_0000
  }

  /** SCB_CleanDCache on a coherent cache: nothing is dirty afterwards, memory is the coherent view from
      before, and nothing but dirty bits and memory changes. */
  lemma CleanCallCleans(ccsidr: u32, c: Core)
    requires FieldsFit(ccsidr) && Coherent(ccsidr, c)
    ensures var c' := Apply(ccsidr, c, CleanDCache);
            && NoDirty(ccsidr, c') && c'.ccr == c.ccr
            && (forall a: Addr | a.row <= Sets(ccsidr) :: c'.mem(a) == View(ccsidr, c, a))
            && (forall at: Loc | InCache(ccsidr, at) :: c'.lines(at) == c.lines(at).(dirty := false))
  {
    hide Sweep, FieldsFit, Sets, View, Exec, Coherent, NoDirty, InCache;
    CleanSweepPreservesMemory(ccsidr, c, Clean);
  }

  /** SCB_CleanInvalidateDCache: nothing is valid either. */
  lemma CleanInvalidateCallEmpties(ccsidr: u32, c: Core)
    requires FieldsFit(ccsidr) && Coherent(ccsidr, c)
    ensures var c' := Apply(ccsidr, c, CleanInvalidateDCache);
            && NoDirty(ccsidr, c') && NoValid(ccsidr, c') && c'.ccr == c.ccr
            && (forall a: Addr | a.row <= Sets(ccsidr) :: c'.mem(a) == View(ccsidr, c, a))
  {
    hide Sweep, FieldsFit, Sets, View, Exec, Coherent, NoDirty, NoValid;
    CleanSweepPreservesMemory(ccsidr, c, CleanInvalidate);
  }

  /** SCB_InvalidateDCache, coherent or not: nothing is valid, memory and configuration are as before. */
  lemma InvalidateCallEmpties(ccsidr: u32, c: Core)
    requires FieldsFit(ccsidr)
    ensures var c' := Apply(ccsidr, c, InvalidateDCache);
            NoValid(ccsidr, c') && c'.mem == c.mem && c'.ccr == c.ccr
  {
    hide Sweep, FieldsFit, Exec, NoValid;
    InvalidateSweepDropsLines(ccsidr, c);
  }

  // ---------------------------------------------------------------- loads and stores

  /** The way in 0..n that holds an address, or none. */
  datatype Found = Missed | At(way: nat)

  function Find(c: Core, a: Addr, n: nat): (f: Found)
    ensures f.At? ==> f.way <= n && Hit(c, a, f.way)
    ensures f.Missed? ==> forall w: nat | w <= n :: !Hit(c, a, w)
  {
    if Hit(c, a, n) then At(n) else if n == 0 then Missed else Find(c, a, n - 1)
  }

  /** Bringing an address into a way: the line there is written back if dirty, then replaced. */
  function Fill(c: Core, a: Addr, way: nat): Core {
    var at := Loc(a.row, way);
    var evicted := MaintainLine(c, CleanInvalidate, at);
    evicted.(lines := WithLine(evicted.lines, at, Line(true, false, a.tag, evicted.mem(a))))
  }

  function PutData(c: Core, at: Loc, data: int): Core {
    c.(lines := WithLine(c.lines, at, c.lines(at).(data := data, dirty := true)))
  }

  /** A load or store, write-back and write-allocate when the cache is enabled; `way` is where a miss
      allocates, the replacement policy's choice. */
  datatype Op =
    | Load(a: Addr, way: nat)
    | Store(a: Addr, data: int, way: nat)
    | Maintenance(call: Call)

  function Allocate(ccsidr: u32, c: Core, a: Addr, way: nat): Core {
    if Find(c, a, Ways(ccsidr)).At? then c else Fill(c, a, way)
  }

  function StoreThrough(ccsidr: u32, c: Core, a: Addr, data: int, way: nat): Core {
    var c1 := Allocate(ccsidr, c, a, way);
    match Find(c1, a, Ways(ccsidr))
    case At(w) => PutData(c1, Loc(a.row, w), data)
    case Missed => c1
  }

  function Perform(ccsidr: u32, c: Core, op: Op): Core {
    match op
    case Load(a, way) => if Enabled(c) then Allocate(ccsidr, c, a, way) else c
    case Store(a, data, way) =>
      if Enabled(c) then StoreThrough(ccsidr, c, a, data, way) else c.(mem := WithWord(c.mem, a, data))
    case Maintenance(call) => Apply(ccsidr, c, call)
  }

  lemma FillKeepsView(ccsidr: u32, c: Core, a: Addr, way: nat)
    requires Coherent(ccsidr, c) && a.row <= Sets(ccsidr) && way <= Ways(ccsidr)
    requires forall w: nat | w <= Ways(ccsidr) :: !Hit(c, a, w)
    ensures var c' := Fill(c, a, way);
            Coherent(ccsidr, c') && Hit(c', a, way)
            && forall b: Addr | b.row <= Sets(ccsidr) :: View(ccsidr, c', b) == View(ccsidr, c, b)
  {
    hide Ways, Sets, View;
    var at := Loc(a.row, way);
    var d, c' := MaintainLine(c, CleanInvalidate, at), Fill(c, a, way);
    CleanKeepsCoherent(ccsidr, c, CleanInvalidate, at);
    forall w: nat | w <= Ways(ccsidr)
      ensures !Hit(d, a, w)
    {
      assert !Hit(c, a, w);
    }
    FillCoherent(ccsidr, d, a, way);
    forall b: Addr | b.row <= Sets(ccsidr)
      ensures View(ccsidr, c', b) == View(ccsidr, c, b)
    {
      CleanKeepsView(ccsidr, c, CleanInvalidate, at, b);
      FillView(ccsidr, d, a, way, b);
    }
  }

  /** Filling an empty line with a copy of memory. */
  function Filled(d: Core, a: Addr, way: nat): Core {
    d.(lines := WithLine(d.lines, Loc(a.row, way), Line(true, false, a.tag, d.mem(a))))
  }

  lemma FillCoherent(ccsidr: u32, d: Core, a: Addr, way: nat)
    requires Coherent(ccsidr, d) && a.row <= Sets(ccsidr) && way <= Ways(ccsidr)
    requires forall w: nat | w <= Ways(ccsidr) :: !Hit(d, a, w)
    ensures Coherent(ccsidr, Filled(d, a, way))
  {
    hide Ways, Sets;
    forall at: Loc | InCache(ccsidr, at) && at.row == a.row && d.lines(at).valid
      ensures d.lines(at).tag != a.tag
    {
      assert at == Loc(a.row, at.way) && !Hit(d, a, at.way);
    }
  }

  lemma FillView(ccsidr: u32, d: Core, a: Addr, way: nat, b: Addr)
    requires Coherent(ccsidr, d) && a.row <= Sets(ccsidr) && way <= Ways(ccsidr) && b.row <= Sets(ccsidr)
    requires forall w: nat | w <= Ways(ccsidr) :: !Hit(d, a, w)
    requires !d.lines(Loc(a.row, way)).valid
    ensures View(ccsidr, Filled(d, a, way), b) == View(ccsidr, d, b)
  {
    hide Ways, Sets, View;
    var c' := Filled(d, a, way);
    FillCoherent(ccsidr, d, a, way);
    ViewIs(ccsidr, d, b);
    ViewIs(ccsidr, c', b);
    if b == a {
      assert Hit(c', a, way);
    } else if w: nat :| w <= Ways(ccsidr) && Hit(d, b, w) {
      assert Hit(c', b, w);
    } else {
      forall w: nat | w <= Ways(ccsidr)
        ensures !Hit(c', b, w)
      {
        assert !Hit(d, b, w);
      }
    }
  }

  /** Writing a line in place changes the view of its address only. */
  lemma PutDataView(ccsidr: u32, c: Core, a: Addr, way: nat, data: int)
    requires Coherent(ccsidr, c) && a.row <= Sets(ccsidr) && way <= Ways(ccsidr) && Hit(c, a, way)
    ensures var c' := PutData(c, Loc(a.row, way), data);
            Coherent(ccsidr, c')
            && forall b: Addr | b.row <= Sets(ccsidr) ::
                 View(ccsidr, c', b) == if b == a then data else View(ccsidr, c, b)
  {
    hide Ways, Sets, View;
    var c' := PutData(c, Loc(a.row, way), data);
    assert Coherent(ccsidr, c');
    forall b: Addr | b.row <= Sets(ccsidr)
      ensures View(ccsidr, c', b) == if b == a then data else View(ccsidr, c, b)
    {
      ViewIs(ccsidr, c, b);
      ViewIs(ccsidr, c', b);
      if b == a {
        assert Hit(c', a, way);
      } else if w: nat :| w <= Ways(ccsidr) && Hit(c, b, w) {
        assert Hit(c', b, w);
        assert Loc(b.row, w) != Loc(a.row, way);
      } else {
        forall w: nat | w <= Ways(ccsidr)
          ensures !Hit(c', b, w)
        {
          assert !Hit(c, b, w);
        }
      }
    }
  }

  // ---------------------------------------------------------------- runs

  function Run(ccsidr: u32, c: Core, ops: seq<Op>): Core {
    if ops == [] then c else Perform(ccsidr, Run(ccsidr, c, ops[..|ops| - 1]), ops[|ops| - 1])
  }

  /** The flat memory: stores write, loads and maintenance do nothing. */
  function Flat(initial: Addr -> int, ops: seq<Op>): Addr -> int {
    if ops == [] then initial
    else
      var m := Flat(initial, ops[..|ops| - 1]);
      match ops[|ops| - 1]
      case Store(a, data, _) => WithWord(m, a, data)
      case _ => m
  }

  /** The discipline: accesses name a set and a way of the cache; the calls that write dirty lines back
      are made on an enabled cache, or an empty one; the calls that drop lines are made on a disabled
      cache, or one with nothing dirty. */
  ghost predicate Allowed(ccsidr: u32, c: Core, op: Op) {
    match op
    case Load(a, way) => a.row <= Sets(ccsidr) && way <= Ways(ccsidr)
    case Store(a, _, way) => a.row <= Sets(ccsidr) && way <= Ways(ccsidr)
    case Maintenance(call) =>
      if call == EnableDCache || call == InvalidateDCache then !Enabled(c) || NoDirty(ccsidr, c)
      else Enabled(c) || NoValid(ccsidr, c)
  }

  ghost predicate Disciplined(ccsidr: u32, c: Core, ops: seq<Op>) {
    ops == []
    || (Disciplined(ccsidr, c, ops[..|ops| - 1])
        && Allowed(ccsidr, Run(ccsidr, c, ops[..|ops| - 1]), ops[|ops| - 1]))
  }

  /** Coherence is only asked of a working cache: a disabled one may hold anything, as at power-up. */
  ghost predicate Good(ccsidr: u32, c: Core) {
    Enabled(c) ==> Coherent(ccsidr, c)
  }

  /** What an operation does to the memory the processor sees. */
  function Intended(before: int, a: Addr, op: Op): int {
    if op.Store? && op.a == a then op.data else before
  }

  lemma AccessRefines(ccsidr: u32, c: Core, op: Op)
    requires Good(ccsidr, c) && Allowed(ccsidr, c, op) && !op.Maintenance?
    ensures Good(ccsidr, Perform(ccsidr, c, op))
    ensures forall a: Addr | a.row <= Sets(ccsidr) ::
              Seen(ccsidr, Perform(ccsidr, c, op), a) == Intended(Seen(ccsidr, c, a), a, op)
  {
    hide Ways, Sets, View, Coherent, Fill, PutData, Hit;
    if Enabled(c) {
      var a, way := op.a, op.way;
      var found := Find(c, a, Ways(ccsidr));
      if found.Missed? {
        FillKeepsView(ccsidr, c, a, way);
        FillKeepsCcr(c, a, way);
      }
      var c1 := Allocate(ccsidr, c, a, way);
      if op.Store? {
        var again := Find(c1, a, Ways(ccsidr));
        assert again.At?;
        PutDataView(ccsidr, c1, a, again.way, op.data);
        PutKeepsCcr(c1, Loc(a.row, again.way), op.data);
      }
    }
  }

  lemma FillKeepsCcr(c: Core, a: Addr, way: nat)
    ensures Fill(c, a, way).ccr == c.ccr
  {
  }

  lemma PutKeepsCcr(c: Core, at: Loc, data: int)
    ensures PutData(c, at, data).ccr == c.ccr
  {
  }

  lemma CallRefines(ccsidr: u32, c: Core, call: Call)
    requires FieldsFit(ccsidr) && Good(ccsidr, c) && Allowed(ccsidr, c, Maintenance(call))
    ensures Good(ccsidr, Apply(ccsidr, c, call))
    ensures forall a: Addr | a.row <= Sets(ccsidr) ::
              Seen(ccsidr, Apply(ccsidr, c, call), a) == Seen(ccsidr, c, a)
  {
    hide Sweep, FieldsFit, Sets, View, Exec, Coherent;
    var c' := Apply(ccsidr, c, call);
    if call == EnableDCache || call == InvalidateDCache {
      if call == EnableDCache {
        EnableStartsEmpty(ccsidr, c);
      } else {
        InvalidateSweepDropsLines(ccsidr, c);
      }
      EmptyIsCoherent(ccsidr, c');
      forall a: Addr | a.row <= Sets(ccsidr)
        ensures Seen(ccsidr, c', a) == Seen(ccsidr, c, a)
      {
        ViewIsMemory(ccsidr, c', a);
        if Enabled(c) {
          ViewIsMemory(ccsidr, c, a);
        }
      }
    } else {
      if !Enabled(c) {
        EmptyIsCoherent(ccsidr, c);
      }
      if call == DisableDCache {
        DisablePreservesMemory(ccsidr, c);
      } else {
        CleanSweepPreservesMemory(ccsidr, c, if call == CleanDCache then Clean else CleanInvalidate);
      }
      forall a: Addr | a.row <= Sets(ccsidr)
        ensures Seen(ccsidr, c', a) == Seen(ccsidr, c, a)
      {
        if !Enabled(c) {
          ViewIsMemory(ccsidr, c, a);
        }
      }
    }
  }

  /** Every disciplined run, from any state that is coherent if enabled (so also from power-up garbage
      behind a disabled cache): after it the processor sees, at every address, what a flat memory
      would hold, so every load returns the last value stored. */
  lemma {:induction false} RunRefinesFlatMemory(ccsidr: u32, c: Core, ops: seq<Op>, initial: Addr -> int)
    requires FieldsFit(ccsidr) && Good(ccsidr, c) && Disciplined(ccsidr, c, ops)
    requires forall a: Addr | a.row <= Sets(ccsidr) :: initial(a) == Seen(ccsidr, c, a)
    ensures Good(ccsidr, Run(ccsidr, c, ops))
    ensures forall a: Addr | a.row <= Sets(ccsidr) ::
              Seen(ccsidr, Run(ccsidr, c, ops), a) == Flat(initial, ops)(a)
  {
    hide FieldsFit, Sets, Seen, Perform, Good, Allowed;
    if ops != [] {
      var m, op := ops[..|ops| - 1], ops[|ops| - 1];
      RunRefinesFlatMemory(ccsidr, c, m, initial);
      var d := Run(ccsidr, c, m);
      OpRefines(ccsidr, d, op);
    }
  }

  lemma OpRefines(ccsidr: u32, c: Core, op: Op)
    requires FieldsFit(ccsidr) && Good(ccsidr, c) && Allowed(ccsidr, c, op)
    ensures Good(ccsidr, Perform(ccsidr, c, op))
    ensures forall a: Addr | a.row <= Sets(ccsidr) ::
              Seen(ccsidr, Perform(ccsidr, c, op), a) == Intended(Seen(ccsidr, c, a), a, op)
  {
    hide FieldsFit, Sets, Seen, Good, Allowed, Apply;
    match op
    case Maintenance(call) => CallRefines(ccsidr, c, call);
    case _ => AccessRefines(ccsidr, c, op);
  }
}
