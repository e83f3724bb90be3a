/** The data cache as a state machine driven by register writes, and what the maintenance functions
    do to it: a set-associative write-back cache, one value per line, in front of a flat memory. */
module DataCache {
  import opened CInt
  import opened CacheGeometry

  datatype Addr = Addr(tag: nat, row: nat)

  datatype Loc = Loc(row: nat, way: nat)

  datatype Line = Line(valid: bool, dirty: bool, tag: nat, data: int)

  /** Cache lines, memory, and the configuration register whose bit 16 enables the cache. */
  datatype Core = Core(lines: Loc -> Line, mem: Addr -> int, ccr: u32)

  predicate Enabled(c: Core) { c.ccr / 0x1_0000 % 2 == 1 }

  function WithLine(lines: Loc -> Line, at: Loc, line: Line): Loc -> Line {
    l => if l == at then line else lines(l)
  }

  function WithWord(mem: Addr -> int, at: Addr, data: int): Addr -> int {
    a => if a == at then data else mem(a)
  }

  // ---------------------------------------------------------------- register writes

  /** The three maintenance operations by set and way. */
  datatype Kind = Invalidate | Clean | CleanInvalidate

  datatype Event = Maintain(kind: Kind, word: nat) | WriteCCR(value: u32)

  function Target(ccsidr: u32, word: nat): Loc { Loc(DecodedSet(ccsidr, word), DecodedWay(ccsidr, word)) }

  /** One line maintained: written back if a clean finds it dirty, dropped by an invalidate. */
  function MaintainLine(c: Core, kind: Kind, at: Loc): Core {
    var line := c.lines(at);
    var written := if kind != Invalidate && line.valid && line.dirty
                   then WithWord(c.mem, Addr(line.tag, at.row), line.data) else c.mem;
    var line' := match kind
      case Clean => line.(dirty := false)
      case _ => line.(valid := false);
    c.(lines := WithLine(c.lines, at, line'), mem := written)
  }

  function Step(ccsidr: u32, c: Core, e: Event): Core {
    match e
    case Maintain(kind, word) => MaintainLine(c, kind, Target(ccsidr, word))
    case WriteCCR(value) => c.(ccr := value)
  }

  function Exec(ccsidr: u32, c: Core, es: seq<Event>): Core {
    if es == [] then c else Step(ccsidr, Exec(ccsidr, c, es[..|es| - 1]), es[|es| - 1])
  }

  // ---------------------------------------------------------------- the sweep

  /** The writes of the inner loop, from the given way down to 0. */
  function WaySweep(ccsidr: u32, kind: Kind, row: nat, way: nat): seq<Event> {
    [Maintain(kind, Word(ccsidr, row, way))] + if way == 0 then [] else WaySweep(ccsidr, kind, row, way - 1)
  }

  /** The writes of the outer loop, from the given set down to 0. */
  function SetSweep(ccsidr: u32, kind: Kind, row: nat): seq<Event> {
    WaySweep(ccsidr, kind, row, Ways(ccsidr)) + if row == 0 then [] else SetSweep(ccsidr, kind, row - 1)
  }

  function Sweep(ccsidr: u32, kind: Kind): seq<Event> { SetSweep(ccsidr, kind, Sets(ccsidr)) }

  const DC_BIT: u32 := 0x1_0000

  function SetBit16(ccr: u32): u32 { U32(Or(ccr, DC_BIT)) }

  function ClearBit16(ccr: u32): u32 { U32(And(ccr, Not32(DC_BIT))) }

  /** The register writes of each function. */
  datatype Call = EnableDCache | DisableDCache | InvalidateDCache | CleanDCache | CleanInvalidateDCache

  function Writes(ccsidr: u32, call: Call, ccr: u32): seq<Event> {
    match call
    case EnableDCache => Sweep(ccsidr, Invalidate) + [WriteCCR(SetBit16(ccr))]
    case DisableDCache => [WriteCCR(ClearBit16(ccr))] + Sweep(ccsidr, CleanInvalidate)
    case InvalidateDCache => Sweep(ccsidr, Invalidate)
    case CleanDCache => Sweep(ccsidr, Clean)
    case CleanInvalidateDCache => Sweep(ccsidr, CleanInvalidate)
  }

  /** The system control block: the registers the functions access, the core behind them, and the
      history of what was written. */
  class Scb {
    const CCSIDR: u32
    var core: Core
    ghost var written: seq<Event>

    constructor (ccsidr: u32, c: Core)
      ensures CCSIDR == ccsidr && core == c && written == []
    {
      CCSIDR, core, written := ccsidr, c, [];
    }

    method Write(e: Event)
      modifies this
      ensures core == Step(CCSIDR, old(core), e) && written == old(written) + [e]
    {
      core := Step(CCSIDR, core, e);
      written := written + [e];
    }

    /** The inner post-decrement loop: one word per way, from the last way to way 0. */
    method WayLoop(kind: Kind, row: u32, ways: u32)
      requires row <= Sets(CCSIDR) && ways == Ways(CCSIDR)
      modifies this
      ensures core == Exec(CCSIDR, old(core), WaySweep(CCSIDR, kind, row, ways))
      ensures written == old(written) + WaySweep(CCSIDR, kind, row, ways)
    {
      hide Step, Exec, WaySweep, Word, Sets, Ways, SetShift, WayShift, Or, Shl, U32;
      ExecNothing(CCSIDR, core);
      var tmpways: int := ways;
      ghost var done: seq<Event> := [];
      ghost var all := WaySweep(CCSIDR, kind, row, ways);
      var more := true;
      while more
        invariant more ==> 0 <= tmpways <= ways
        invariant more ==> done + WaySweep(CCSIDR, kind, row, tmpways) == all
        invariant !more ==> done == all
        invariant core == Exec(CCSIDR, old(core), done) && written == old(written) + done
        decreases more, tmpways
      {
        var sw := Or(U32(Shl(tmpways, WayShift(CCSIDR))), U32(Shl(row, SetShift(CCSIDR))));
        WordIs(CCSIDR, row, tmpways);
        Write(Maintain(kind, sw));
        ExecStep(CCSIDR, old(core), done, Maintain(kind, sw));
        WaySweepFrom(CCSIDR, kind, row, tmpways, done);
        done := done + [Maintain(kind, sw)];
        more := tmpways != 0;
        tmpways := tmpways - 1;
      }
    }

    /** The nested loops all five functions share: every way of every set, from the last set to 0. */
    method SweepLoop(kind: Kind)
      modifies this
      ensures core == Exec(CCSIDR, old(core), Sweep(CCSIDR, kind))
      ensures written == old(written) + Sweep(CCSIDR, kind)
      ensures core.ccr == old(core.ccr)
    {
      hide Step, Exec, WaySweep, SetSweep, Sets, Ways;
      var sets: int := SetsInRange(CCSIDR);
      var ways := WaysInRange(CCSIDR);
      ghost var done: seq<Event> := [];
      ghost var all := Sweep(CCSIDR, kind);
      ExecNothing(CCSIDR, core);
      var more := true;
      while more
        invariant more ==> 0 <= sets <= Sets(CCSIDR)
        invariant more ==> done + SetSweep(CCSIDR, kind, sets) == all
        invariant !more ==> done == all
        invariant core == Exec(CCSIDR, old(core), done) && written == old(written) + done
        decreases more, sets
      {
        WayLoop(kind, sets, ways);
        ghost var now := WaySweep(CCSIDR, kind, sets, Ways(CCSIDR));
        ExecConcat(CCSIDR, old(core), done, now);
        assert written == old(written) + (done + now);
        SetSweepFrom(CCSIDR, kind, sets, done);
        done := done + now;
        more := sets != 0;
        sets := sets - 1;
      }
      SweepKeepsCcr(CCSIDR, old(core), kind, Sets(CCSIDR));
    }

    method EnableDCache()
      modifies this
      ensures core == Exec(CCSIDR, old(core), Writes(CCSIDR, Call.EnableDCache, old(core.ccr)))
      ensures written == old(written) + Writes(CCSIDR, Call.EnableDCache, old(core.ccr))
    {
      SweepLoop(Invalidate);
      Write(WriteCCR(SetBit16(core.ccr)));
    }

    method DisableDCache()
      modifies this
      ensures core == Exec(CCSIDR, old(core), Writes(CCSIDR, Call.DisableDCache, old(core.ccr)))
      ensures written == old(written) + Writes(CCSIDR, Call.DisableDCache, old(core.ccr))
    {
      Write(WriteCCR(ClearBit16(core.ccr)));
      SweepLoop(CleanInvalidate);
      ExecConcat(CCSIDR, old(core), [WriteCCR(ClearBit16(old(core.ccr)))], Sweep(CCSIDR, CleanInvalidate));
    }

    method InvalidateDCache()
      modifies this
      ensures core == Exec(CCSIDR, old(core), Writes(CCSIDR, Call.InvalidateDCache, old(core.ccr)))
      ensures written == old(written) + Writes(CCSIDR, Call.InvalidateDCache, old(core.ccr))
    {
      SweepLoop(Invalidate);
    }

    method CleanDCache()
      modifies this
      ensures core == Exec(CCSIDR, old(core), Writes(CCSIDR, Call.CleanDCache, old(core.ccr)))
      ensures written == old(written) + Writes(CCSIDR, Call.CleanDCache, old(core.ccr))
    {
      SweepLoop(Clean);
    }

    method CleanInvalidateDCache()
      modifies this
      ensures core == Exec(CCSIDR, old(core), Writes(CCSIDR, Call.CleanInvalidateDCache, old(core.ccr)))
      ensures written == old(written) + Writes(CCSIDR, Call.CleanInvalidateDCache, old(core.ccr))
    {
      SweepLoop(CleanInvalidate);
    }
  }

  function SetsInRange(ccsidr: u32): (r: u32)
    ensures r == Sets(ccsidr)
  {
    Shifts(ccsidr);
    Sets(ccsidr)
  }

  function WaysInRange(ccsidr: u32): (r: u32)
    ensures r == Ways(ccsidr)
  {
    Shifts(ccsidr);
    Ways(ccsidr)
  }

  lemma WordIs(ccsidr: u32, row: nat, way: nat)
    ensures Word(ccsidr, row, way) == Or(U32(Shl(way, WayShift(ccsidr))), U32(Shl(row, SetShift(ccsidr))))
  {
  }

  lemma ExecStep(ccsidr: u32, c: Core, es: seq<Event>, e: Event)
    ensures Exec(ccsidr, c, es + [e]) == Step(ccsidr, Exec(ccsidr, c, es), e)
  {
    assert (es + [e])[..|es|] == es;
  }

  lemma WaySweepFrom(ccsidr: u32, kind: Kind, row: nat, way: nat, done: seq<Event>)
    ensures var next := done + [Maintain(kind, Word(ccsidr, row, way))];
            done + WaySweep(ccsidr, kind, row, way)
            == if way == 0 then next else next + WaySweep(ccsidr, kind, row, way - 1)
  {
  }

  lemma SetSweepFrom(ccsidr: u32, kind: Kind, row: nat, done: seq<Event>)
    ensures var next := done + WaySweep(ccsidr, kind, row, Ways(ccsidr));
            done + SetSweep(ccsidr, kind, row)
            == if row == 0 then next else next + SetSweep(ccsidr, kind, row - 1)
  {
    hide WaySweep, Ways;
  }

  lemma ExecNothing(ccsidr: u32, c: Core)
    ensures Exec(ccsidr, c, []) == c
  {
  }

  /** A list of maintenance writes, all of one kind. */
  predicate AllOf(kind: Kind, es: seq<Event>) {
    forall i | 0 <= i < |es| :: es[i].Maintain? && es[i].kind == kind
  }

  lemma {:induction false} MaintenanceKeepsCcr(ccsidr: u32, c: Core, kind: Kind, es: seq<Event>)
    requires AllOf(kind, es)
    ensures Exec(ccsidr, c, es).ccr == c.ccr
  {
    if es != [] {
      MaintenanceKeepsCcr(ccsidr, c, kind, es[..|es| - 1]);
    }
  }

  lemma {:induction false} WaySweepOf(ccsidr: u32, kind: Kind, row: nat, way: nat)
    ensures AllOf(kind, WaySweep(ccsidr, kind, row, way))
  {
    if way != 0 {
      WaySweepOf(ccsidr, kind, row, way - 1);
    }
  }

  lemma {:induction false} SetSweepOf(ccsidr: u32, kind: Kind, row: nat)
    ensures AllOf(kind, SetSweep(ccsidr, kind, row))
  {
    hide WaySweep, Ways;
    WaySweepOf(ccsidr, kind, row, Ways(ccsidr));
    if row != 0 {
      SetSweepOf(ccsidr, kind, row - 1);
    }
  }

  lemma SweepKeepsCcr(ccsidr: u32, c: Core, kind: Kind, row: nat)
    ensures Exec(ccsidr, c, SetSweep(ccsidr, kind, row)).ccr == c.ccr
  {
    SetSweepOf(ccsidr, kind, row);
    MaintenanceKeepsCcr(ccsidr, c, kind, SetSweep(ccsidr, kind, row));
  }

  lemma {:induction false} ExecConcat(ccsidr: u32, c: Core, es: seq<Event>, fs: seq<Event>)
    ensures Exec(ccsidr, c, es + fs) == Exec(ccsidr, Exec(ccsidr, c, es), fs)
  {
    if fs == [] {
      assert es + fs == es;
    } else {
      var gs := es + fs;
      assert gs[..|gs| - 1] == es + fs[..|fs| - 1];
      ExecConcat(ccsidr, c, es, fs[..|fs| - 1]);
    }
  }
}
