/** What the maintenance functions do to memory and to the coherent view of it, call by call and over
    whole runs of loads, stores and maintenance. */
module CacheCoherence {
  import opened CInt
  import opened CacheGeometry
  import opened DataCache

  // ---------------------------------------------------------------- the enumeration

  /** Every word of a sweep is one of the set/way words, and every set and way occurs. */
  lemma {:induction false} WaySweepCovers(ccsidr: u32, kind: Kind, row: nat, way: nat, e: Event)
    ensures e in WaySweep(ccsidr, kind, row, way)
            <==> exists w: nat :: w <= way && e == Maintain(kind, Word(ccsidr, row, w))
    ensures |WaySweep(ccsidr, kind, row, way)| == way + 1
  {
    hide Word;
    if way != 0 {
      WaySweepCovers(ccsidr, kind, row, way - 1, e);
    }
  }

  lemma {:induction false} SetSweepCovers(ccsidr: u32, kind: Kind, row: nat, e: Event)
    ensures e in SetSweep(ccsidr, kind, row)
            <==> exists r: nat, w: nat :: r <= row && w <= Ways(ccsidr) && e == Maintain(kind, Word(ccsidr, r, w))
    ensures |SetSweep(ccsidr, kind, row)| == (row + 1) * (Ways(ccsidr) + 1)
  {
    hide Word, Ways, WaySweep;
    WaySweepCovers(ccsidr, kind, row, Ways(ccsidr), e);
    if row != 0 {
      SetSweepCovers(ccsidr, kind, row - 1, e);
      assert (row + 1) * (Ways(ccsidr) + 1) == row * (Ways(ccsidr) + 1) + (Ways(ccsidr) + 1);
    }
  }

  ghost predicate Distinct<T>(s: seq<T>) {
    forall i, j | 0 <= i < j < |s| :: s[i] != s[j]
  }

  lemma DistinctConcat<T>(a: seq<T>, b: seq<T>)
    requires Distinct(a) && Distinct(b) && forall x | x in a :: x !in b
    ensures Distinct(a + b)
  {
    forall i, j | 0 <= i < j < |a + b|
      ensures (a + b)[i] != (a + b)[j]
    {
      if i < |a| <= j {
        assert a[i] in a && b[j - |a|] in b;
      }
    }
  }

  lemma WaysDiffer(ccsidr: u32, kind: Kind, row: nat, way: nat)
    requires FieldsFit(ccsidr) && row <= Sets(ccsidr) && 0 < way <= Ways(ccsidr)
    ensures Maintain(kind, Word(ccsidr, row, way)) !in WaySweep(ccsidr, kind, row, way - 1)
  {
    hide Word, Ways, Sets, FieldsFit, DecodedWay, DecodedSet, WaySweep;
    var e := Maintain(kind, Word(ccsidr, row, way));
    WaySweepCovers(ccsidr, kind, row, way - 1, e);
    WordDecodes(ccsidr, row, way);
    if e in WaySweep(ccsidr, kind, row, way - 1) {
      var w: nat :| w <= way - 1 && e == Maintain(kind, Word(ccsidr, row, w));
      WordDecodes(ccsidr, row, w);
      assert false;
    }
  }

  lemma {:induction false} WaySweepDistinct(ccsidr: u32, kind: Kind, row: nat, way: nat)
    requires FieldsFit(ccsidr) && row <= Sets(ccsidr) && way <= Ways(ccsidr)
    ensures Distinct(WaySweep(ccsidr, kind, row, way))
  {
    hide Word, Ways, Sets, FieldsFit;
    if way != 0 {
      WaySweepDistinct(ccsidr, kind, row, way - 1);
      WaysDiffer(ccsidr, kind, row, way);
      DistinctConcat([Maintain(kind, Word(ccsidr, row, way))], WaySweep(ccsidr, kind, row, way - 1));
    }
  }

  lemma {:induction false} SetSweepDistinct(ccsidr: u32, kind: Kind, row: nat)
    requires FieldsFit(ccsidr) && row <= Sets(ccsidr)
    ensures Distinct(SetSweep(ccsidr, kind, row))
  {
    hide Word, Ways, Sets, FieldsFit, DecodedWay, DecodedSet, WaySweep;
    WaySweepDistinct(ccsidr, kind, row, Ways(ccsidr));
    if row != 0 {
      SetSweepDistinct(ccsidr, kind, row - 1);
      var a, b := WaySweep(ccsidr, kind, row, Ways(ccsidr)), SetSweep(ccsidr, kind, row - 1);
      forall e | e in a
        ensures e !in b
      {
        RowsDiffer(ccsidr, kind, row, e);
      }
      DistinctConcat(a, b);
    }
  }

  lemma RowsDiffer(ccsidr: u32, kind: Kind, row: nat, e: Event)
    requires FieldsFit(ccsidr) && 0 < row <= Sets(ccsidr) && e in WaySweep(ccsidr, kind, row, Ways(ccsidr))
    ensures e !in SetSweep(ccsidr, kind, row - 1)
  {
    hide Word, Ways, Sets, FieldsFit, DecodedWay, DecodedSet, WaySweep, SetSweep;
    WaySweepCovers(ccsidr, kind, row, Ways(ccsidr), e);
    SetSweepCovers(ccsidr, kind, row - 1, e);
    var w: nat :| w <= Ways(ccsidr) && e == Maintain(kind, Word(ccsidr, row, w));
    WordDecodes(ccsidr, row, w);
    if e in SetSweep(ccsidr, kind, row - 1) {
      var r: nat, v: nat :| r <= row - 1 && v <= Ways(ccsidr) && e == Maintain(kind, Word(ccsidr, r, v));
      WordDecodes(ccsidr, r, v);
      assert false;
    }
  }

  /** The sweep writes exactly one word per set and way: (sets + 1) * (ways + 1) of them, pairwise
      distinct, and a location is the target of one of them exactly when it is in the cache. */
  lemma SweepEnumerates(ccsidr: u32, kind: Kind)
    requires FieldsFit(ccsidr)
    ensures |Sweep(ccsidr, kind)| == (Sets(ccsidr) + 1) * (Ways(ccsidr) + 1)
    ensures Distinct(Sweep(ccsidr, kind))
    ensures forall at: Loc :: Visited(ccsidr, Sweep(ccsidr, kind), at) <==> InCache(ccsidr, at)
  {
    hide Word, Ways, Sets, FieldsFit, DecodedWay, DecodedSet, SetSweep;
    SetSweepCovers(ccsidr, kind, Sets(ccsidr), WriteCCR(0));
    SetSweepDistinct(ccsidr, kind, Sets(ccsidr));
    forall at: Loc
      ensures Visited(ccsidr, Sweep(ccsidr, kind), at) <==> InCache(ccsidr, at)
    {
      SweepVisits(ccsidr, kind, at);
    }
  }

  predicate InCache(ccsidr: u32, at: Loc) { at.row <= Sets(ccsidr) && at.way <= Ways(ccsidr) }

  /** A location some maintenance write of the list is aimed at. */
  predicate Visited(ccsidr: u32, es: seq<Event>, at: Loc) {
    exists i | 0 <= i < |es| :: es[i].Maintain? && Target(ccsidr, es[i].word) == at
  }

  lemma SweepVisits(ccsidr: u32, kind: Kind, at: Loc)
    requires FieldsFit(ccsidr)
    ensures Visited(ccsidr, Sweep(ccsidr, kind), at) <==> InCache(ccsidr, at)
  {
    hide Word, Ways, Sets, FieldsFit, DecodedWay, DecodedSet, SetSweep;
    var es := Sweep(ccsidr, kind);
    if InCache(ccsidr, at) {
      var e := Maintain(kind, Word(ccsidr, at.row, at.way));
      SetSweepCovers(ccsidr, kind, Sets(ccsidr), e);
      assert e in es;
      var i :| 0 <= i < |es| && es[i] == e;
      WordDecodes(ccsidr, at.row, at.way);
    }
    if Visited(ccsidr, es, at) {
      var i :| 0 <= i < |es| && es[i].Maintain? && Target(ccsidr, es[i].word) == at;
      SetSweepCovers(ccsidr, kind, Sets(ccsidr), es[i]);
      var r: nat, w: nat :| r <= Sets(ccsidr) && w <= Ways(ccsidr) && es[i] == Maintain(kind, Word(ccsidr, r, w));
      WordDecodes(ccsidr, r, w);
    }
  }

  // ---------------------------------------------------------------- the coherent view

  predicate Hit(c: Core, a: Addr, way: nat) {
    c.lines(Loc(a.row, way)).valid && c.lines(Loc(a.row, way)).tag == a.tag
  }

  /** What an access through the cache sees: the line that holds the address in ways 0..n, if any,
      otherwise memory. */
  function Look(c: Core, a: Addr, n: nat): int {
    if Hit(c, a, n) then c.lines(Loc(a.row, n)).data
    else if n == 0 then c.mem(a)
    else Look(c, a, n - 1)
  }

  function View(ccsidr: u32, c: Core, a: Addr): int { Look(c, a, Ways(ccsidr)) }

  /** The hardware invariant of a working cache: no address is in two ways, and a line that is not
      dirty agrees with memory. */
  ghost predicate Coherent(ccsidr: u32, c: Core) {
    && (forall at: Loc, bt: Loc |
          InCache(ccsidr, at) && InCache(ccsidr, bt) && at.row == bt.row
          && c.lines(at).valid && c.lines(bt).valid && c.lines(at).tag == c.lines(bt).tag :: at == bt)
    && (forall at: Loc | InCache(ccsidr, at) && c.lines(at).valid && !c.lines(at).dirty ::
          c.mem(Addr(c.lines(at).tag, at.row)) == c.lines(at).data)
  }

  lemma {:induction false} LookHit(c: Core, a: Addr, n: nat, way: nat)
    requires way <= n && Hit(c, a, way)
    requires forall w: nat | w <= n && Hit(c, a, w) :: w == way
    ensures Look(c, a, n) == c.lines(Loc(a.row, way)).data
  {
    if way != n {
      LookHit(c, a, n - 1, way);
    }
  }

  lemma {:induction false} LookMiss(c: Core, a: Addr, n: nat)
    requires forall w: nat | w <= n :: !Hit(c, a, w)
    ensures Look(c, a, n) == c.mem(a)
  {
    if n != 0 {
      LookMiss(c, a, n - 1);
    }
  }

  /** In a coherent cache the view is determined by any hit, or by there being none. */
  lemma ViewIs(ccsidr: u32, c: Core, a: Addr)
    requires Coherent(ccsidr, c) && a.row <= Sets(ccsidr)
    ensures forall w: nat | w <= Ways(ccsidr) && Hit(c, a, w) ::
              View(ccsidr, c, a) == c.lines(Loc(a.row, w)).data
    ensures (forall w: nat | w <= Ways(ccsidr) :: !Hit(c, a, w)) ==> View(ccsidr, c, a) == c.mem(a)
  {
    hide Look, Ways, Sets;
    forall w: nat | w <= Ways(ccsidr) && Hit(c, a, w)
      ensures View(ccsidr, c, a) == c.lines(Loc(a.row, w)).data
    {
      forall v: nat | v <= Ways(ccsidr) && Hit(c, a, v)
        ensures v == w
      {
        assert Loc(a.row, v) == Loc(a.row, w);
      }
      LookHit(c, a, Ways(ccsidr), w);
    }
    if forall w: nat | w <= Ways(ccsidr) :: !Hit(c, a, w) {
      LookMiss(c, a, Ways(ccsidr));
    }
  }

  /** Maintaining one line by a clean keeps the cache coherent and the view of every address. */
  lemma CleanKeepsCoherent(ccsidr: u32, c: Core, kind: Kind, at: Loc)
    requires Coherent(ccsidr, c) && InCache(ccsidr, at) && kind != Invalidate
    ensures Coherent(ccsidr, MaintainLine(c, kind, at))
  {
    hide Ways, Sets;
  }

  lemma CleanKeepsView(ccsidr: u32, c: Core, kind: Kind, at: Loc, a: Addr)
    requires Coherent(ccsidr, c) && InCache(ccsidr, at) && kind != Invalidate && a.row <= Sets(ccsidr)
    ensures View(ccsidr, MaintainLine(c, kind, at), a) == View(ccsidr, c, a)
  {
    hide Ways, Sets, View;
    var c' := MaintainLine(c, kind, at);
    CleanKeepsCoherent(ccsidr, c, kind, at);
    ViewIs(ccsidr, c, a);
    ViewIs(ccsidr, c', a);
    if w: nat :| w <= Ways(ccsidr) && Hit(c, a, w) {
      if Loc(a.row, w) == at && kind == CleanInvalidate {
        forall v: nat | v <= Ways(ccsidr)
          ensures !Hit(c', a, v)
        {
          OneHit(ccsidr, c, a, v, w);
        }
      } else {
        assert Hit(c', a, w);
      }
    } else {
      forall v: nat | v <= Ways(ccsidr)
        ensures !Hit(c', a, v)
      {
        assert !Hit(c, a, v);
      }
      assert !Hit(c, a, at.way);
    }
  }

  lemma OneHit(ccsidr: u32, c: Core, a: Addr, v: nat, w: nat)
    requires Coherent(ccsidr, c) && a.row <= Sets(ccsidr) && v <= Ways(ccsidr) && w <= Ways(ccsidr)
    requires Hit(c, a, w)
    ensures Hit(c, a, v) <==> v == w
  {
    hide Ways, Sets;
    if Hit(c, a, v) {
      assert Loc(a.row, v) == Loc(a.row, w);
    }
  }

  // ---------------------------------------------------------------- whole sweeps

  ghost predicate AllTargetsInCache(ccsidr: u32, es: seq<Event>) {
    forall i | 0 <= i < |es| :: es[i].Maintain? && InCache(ccsidr, Target(ccsidr, es[i].word))
  }

  function Maintained(kind: Kind, line: Line): Line {
    match kind
    case Clean => line.(dirty := false)
    case _ => line.(valid := false)
  }

  /** What a list of maintenance writes does to each line: the targets are maintained, the others left
      alone; an invalidate leaves memory alone. */
  lemma {:induction false} ExecLines(ccsidr: u32, c: Core, kind: Kind, es: seq<Event>, at: Loc)
    requires AllOf(kind, es)
    ensures Exec(ccsidr, c, es).lines(at)
            == if Visited(ccsidr, es, at) then Maintained(kind, c.lines(at)) else c.lines(at)
    ensures kind == Invalidate ==> Exec(ccsidr, c, es).mem == c.mem
  {
    hide Target;
    if es != [] {
      var m, n := es[..|es| - 1], |es| - 1;
      ExecLines(ccsidr, c, kind, m, at);
      assert Visited(ccsidr, es, at) <==> Visited(ccsidr, m, at) || Target(ccsidr, es[n].word) == at by {
        VisitedLast(ccsidr, es, at);
      }
    }
  }

  lemma VisitedLast(ccsidr: u32, es: seq<Event>, at: Loc)
    requires es != [] && es[|es| - 1].Maintain?
    ensures Visited(ccsidr, es, at)
            <==> Visited(ccsidr, es[..|es| - 1], at) || Target(ccsidr, es[|es| - 1].word) == at
  {
    hide Target;
    var m, n := es[..|es| - 1], |es| - 1;
    if Visited(ccsidr, m, at) {
      var i :| 0 <= i < |m| && m[i].Maintain? && Target(ccsidr, m[i].word) == at;
      assert es[i] == m[i];
    }
    if Visited(ccsidr, es, at) {
      var i :| 0 <= i < |es| && es[i].Maintain? && Target(ccsidr, es[i].word) == at;
      if i < n {
        assert m[i] == es[i];
      }
    }
  }

  lemma {:induction false} ExecCoherent(ccsidr: u32, c: Core, kind: Kind, es: seq<Event>)
    requires Coherent(ccsidr, c) && kind != Invalidate
    requires AllOf(kind, es) && AllTargetsInCache(ccsidr, es)
    ensures Coherent(ccsidr, Exec(ccsidr, c, es))
    ensures forall a: Addr | a.row <= Sets(ccsidr) ::
              View(ccsidr, Exec(ccsidr, c, es), a) == View(ccsidr, c, a)
  {
    hide Target, Coherent, View, Sets, InCache, MaintainLine;
    if es != [] {
      var m, e := es[..|es| - 1], es[|es| - 1];
      ExecCoherent(ccsidr, c, kind, m);
      var before := Exec(ccsidr, c, m);
      CleanKeepsCoherent(ccsidr, before, kind, Target(ccsidr, e.word));
      forall a: Addr | a.row <= Sets(ccsidr)
        ensures View(ccsidr, Exec(ccsidr, c, es), a) == View(ccsidr, c, a)
      {
        CleanKeepsView(ccsidr, before, kind, Target(ccsidr, e.word), a);
      }
    }
  }

  lemma SweepTargets(ccsidr: u32, kind: Kind)
    requires FieldsFit(ccsidr)
    ensures AllOf(kind, Sweep(ccsidr, kind)) && AllTargetsInCache(ccsidr, Sweep(ccsidr, kind))
  {
    hide Target, SetSweep, InCache, FieldsFit, Sets;
    SetSweepOf(ccsidr, kind, Sets(ccsidr));
    var es := Sweep(ccsidr, kind);
    forall i | 0 <= i < |es|
      ensures es[i].Maintain? && InCache(ccsidr, Target(ccsidr, es[i].word))
    {
      SweepVisits(ccsidr, kind, Target(ccsidr, es[i].word));
    }
  }

  ghost predicate NoValid(ccsidr: u32, c: Core) {
    forall at: Loc | InCache(ccsidr, at) :: !c.lines(at).valid
  }

  ghost predicate NoDirty(ccsidr: u32, c: Core) {
    forall at: Loc | InCache(ccsidr, at) && c.lines(at).valid :: !c.lines(at).dirty
  }

  /** With nothing dirty, the coherent view is memory. */
  lemma ViewIsMemory(ccsidr: u32, c: Core, a: Addr)
    requires Coherent(ccsidr, c) && NoDirty(ccsidr, c) && a.row <= Sets(ccsidr)
    ensures View(ccsidr, c, a) == c.mem(a)
  {
    hide Ways, Sets, View;
    ViewIs(ccsidr, c, a);
    if w: nat :| w <= Ways(ccsidr) && Hit(c, a, w) {
      assert InCache(ccsidr, Loc(a.row, w));
    }
  }

  lemma EmptyIsCoherent(ccsidr: u32, c: Core)
    requires NoValid(ccsidr, c)
    ensures Coherent(ccsidr, c) && NoDirty(ccsidr, c)
  {
  }

  /** A clean or clean-and-invalidate sweep of a coherent cache loses nothing: afterwards nothing is
      dirty (nothing valid, if it invalidates), and memory itself is the coherent view from before. */
  lemma CleanSweepPreservesMemory(ccsidr: u32, c: Core, kind: Kind)
    requires FieldsFit(ccsidr) && Coherent(ccsidr, c) && kind != Invalidate
    ensures var c' := Exec(ccsidr, c, Sweep(ccsidr, kind));
            && Coherent(ccsidr, c') && NoDirty(ccsidr, c') && c'.ccr == c.ccr
            && (kind == CleanInvalidate ==> NoValid(ccsidr, c'))
            && (forall a: Addr | a.row <= Sets(ccsidr) ::
                  c'.mem(a) == View(ccsidr, c, a) && View(ccsidr, c', a) == View(ccsidr, c, a))
            && (kind == Clean ==> forall at: Loc | InCache(ccsidr, at) ::
                  c'.lines(at) == c.lines(at).(dirty := false))
  {
    hide Target, SetSweep, FieldsFit, Sets, Ways, View, Coherent, Exec, Visited;
    var es, c' := Sweep(ccsidr, kind), Exec(ccsidr, c, Sweep(ccsidr, kind));
    SweepTargets(ccsidr, kind);
    ExecCoherent(ccsidr, c, kind, es);
    SweepKeepsCcr(ccsidr, c, kind, Sets(ccsidr));
    forall at: Loc | InCache(ccsidr, at)
      ensures c'.lines(at) == Maintained(kind, c.lines(at))
    {
      SweepVisits(ccsidr, kind, at);
      ExecLines(ccsidr, c, kind, es, at);
    }
    forall a: Addr | a.row <= Sets(ccsidr)
      ensures c'.mem(a) == View(ccsidr, c, a)
    {
      ViewIsMemory(ccsidr, c', a);
    }
  }

  /** An invalidate sweep drops every line and touches neither memory nor the configuration. */
  lemma InvalidateSweepDropsLines(ccsidr: u32, c: Core)
    requires FieldsFit(ccsidr)
    ensures var c' := Exec(ccsidr, c, Sweep(ccsidr, Invalidate));
            NoValid(ccsidr, c') && c'.mem == c.mem && c'.ccr == c.ccr
  {
    hide Target, SetSweep, FieldsFit, Sets, Ways, Exec, Visited;
    var es, c' := Sweep(ccsidr, Invalidate), Exec(ccsidr, c, Sweep(ccsidr, Invalidate));
    SweepTargets(ccsidr, Invalidate);
    SweepKeepsCcr(ccsidr, c, Invalidate, Sets(ccsidr));
    ExecLines(ccsidr, c, Invalidate, es, Loc(0, 0));
    forall at: Loc | InCache(ccsidr, at)
      ensures !c'.lines(at).valid
    {
      SweepVisits(ccsidr, Invalidate, at);
      ExecLines(ccsidr, c, Invalidate, es, at);
    }
  }

  /** Invalidating a coherent cache keeps the view of every address exactly when no valid line held
      anything memory did not. */
  lemma InvalidatePreservesViewExactlyWhen(ccsidr: u32, c: Core)
    requires FieldsFit(ccsidr) && Coherent(ccsidr, c)
    ensures (forall a: Addr | a.row <= Sets(ccsidr) ::
               View(ccsidr, Exec(ccsidr, c, Sweep(ccsidr, Invalidate)), a) == View(ccsidr, c, a))
            <==> (forall at: Loc | InCache(ccsidr, at) && c.lines(at).valid ::
                    c.mem(Addr(c.lines(at).tag, at.row)) == c.lines(at).data)
  {
    hide Target, Sweep, FieldsFit, Sets, Ways, View, Exec;
    var c' := Exec(ccsidr, c, Sweep(ccsidr, Invalidate));
    InvalidateSweepDropsLines(ccsidr, c);
    EmptyIsCoherent(ccsidr, c');
    forall a: Addr | a.row <= Sets(ccsidr)
      ensures View(ccsidr, c', a) == c.mem(a)
    {
      ViewIsMemory(ccsidr, c', a);
    }
    forall at: Loc | InCache(ccsidr, at) && c.lines(at).valid
      ensures View(ccsidr, c, Addr(c.lines(at).tag, at.row)) == c.lines(at).data
    {
      var a := Addr(c.lines(at).tag, at.row);
      assert Hit(c, a, at.way);
      ViewIs(ccsidr, c, a);
    }
    if forall at: Loc | InCache(ccsidr, at) && c.lines(at).valid ::
         c.mem(Addr(c.lines(at).tag, at.row)) == c.lines(at).data {
      forall a: Addr | a.row <= Sets(ccsidr)
        ensures View(ccsidr, c, a) == c.mem(a)
      {
        ViewIs(ccsidr, c, a);
        if w: nat :| w <= Ways(ccsidr) && Hit(c, a, w) {
          assert InCache(ccsidr, Loc(a.row, w));
        }
      }
    } else {
      var at: Loc :| && InCache(ccsidr, at) && c.lines(at).valid
                     && c.mem(Addr(c.lines(at).tag, at.row)) != c.lines(at).data;
      var a := Addr(c.lines(at).tag, at.row);
      assert View(ccsidr, c', a) != View(ccsidr, c, a);
    }
  }
}
