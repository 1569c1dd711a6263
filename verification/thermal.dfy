/** The simulation object: the marker grid, the thermal masses, the
    temperature field, the source and exhaust lists, and the operations
    that build it, toggle sources and exhausts, advance one tick and read
    it back. */
module Thermal {
  import opened Grid
  import opened Lists
  import opened Heat

  /** Temperature added to every source cell per tick. */
  const Rate: real := 10.0
  /** Initial temperature of every cell. */
  const Base: real := 5.0

  /** Marker values of the marker grid. */
  const SourceMark: int := 1
  const SinkMark: int := -1
  const Unmarked: int := 0

  /** Thermal mass of an ordinary cell, and what the wall band adds. */
  const DefaultMass: real := 1.0
  const WallMass: real := 100.0
  /** The wall band starts this many cells in from every edge ... */
  const WallMargin: nat := 5
  /** ... and the room inside it this many. */
  const RoomMargin: nat := 6

  /** The initial source cell, and how far the initial sink sits from the
      far edges (the source indexes it as [-3][-3]). */
  const InitialSource: Coord := (8, 8)
  const SinkInset: nat := 3

  datatype System = System(
    rows: nat,
    cols: nat,
    model: seq<seq<int>>,
    thermalMass: Field,
    rate: real,
    base: real,
    state: Field,
    sources: seq<Coord>,
    exhausts: seq<Coord>)

  /** What holds between operations: every grid has the system's shape,
      every mass is positive, and the two lists hold distinct in-bounds
      coordinates. */
  predicate Valid(s: System) {
    && s.rows > 0 && s.cols > 0
    && IsGrid(s.model, s.rows, s.cols)
    && IsGrid(s.thermalMass, s.rows, s.cols) && Positive(s.thermalMass)
    && IsGrid(s.state, s.rows, s.cols)
    && AllInBounds(s.sources, s.rows, s.cols) && NoDup(s.sources)
    && AllInBounds(s.exhausts, s.rows, s.cols) && NoDup(s.exhausts)
  }

  // ---------------------------------------------------------------------
  // Construction

  /** (r, c) lies in the block `margin` cells in from every edge: numpy's
      `a[margin:-margin, margin:-margin]`. */
  predicate InBox(rows: nat, cols: nat, r: int, c: int, margin: nat) {
    margin <= r < rows - margin && margin <= c < cols - margin
  }

  /** (r, c) lies in the wall ring: inside the wall block, outside the room. */
  predicate InRing(rows: nat, cols: nat, r: int, c: int) {
    InBox(rows, cols, r, c, WallMargin) && !InBox(rows, cols, r, c, RoomMargin)
  }

  /** Thermal masses: 1 everywhere, plus 100 on the wall block, minus 100
      on the room block; so 101 on the ring and 1 elsewhere. */
  function MassLayout(rows: nat, cols: nat): (m: Field)
    ensures IsGrid(m, rows, cols) && Positive(m)
    ensures forall r, c :: 0 <= r < rows && 0 <= c < cols ==>
              m[r][c] == if InRing(rows, cols, r, c) then 101.0 else 1.0
  {
    seq(rows, r requires 0 <= r < rows =>
      seq(cols, c requires 0 <= c < cols =>
        DefaultMass
        + (if InBox(rows, cols, r, c, WallMargin) then WallMass else 0.0)
        - (if InBox(rows, cols, r, c, RoomMargin) then WallMass else 0.0)))
  }

  /** The initial marker grid: zero, a source marker at (8, 8), then a sink
      marker at (rows - 3, cols - 3), which overwrites the source marker
      when the two coincide. */
  function InitialMarkers(rows: nat, cols: nat): (m: seq<seq<int>>)
    requires rows > InitialSource.0 && cols > InitialSource.1
    ensures IsGrid(m, rows, cols)
    ensures forall r, c :: 0 <= r < rows && 0 <= c < cols ==>
              m[r][c] == if (r, c) == (rows - SinkInset, cols - SinkInset) then SinkMark
                         else if (r, c) == InitialSource then SourceMark
                         else Unmarked
  {
    var m0 := Fill(rows, cols, Unmarked);
    var m1 := Update(m0, InitialSource, SourceMark);
    Update(m1, (rows - SinkInset, cols - SinkInset), SinkMark)
  }

  /** The cells of `cells`, in order, whose marker equals `mark`. */
  function Marked(model: seq<seq<int>>, rows: nat, cols: nat, cells: seq<Coord>, mark: int): (ps: seq<Coord>)
    requires IsGrid(model, rows, cols) && AllInBounds(cells, rows, cols)
    ensures forall p :: p in ps <==> p in cells && At(model, p) == mark
    ensures NoDup(cells) ==> NoDup(ps)
  {
    if |cells| == 0 then []
    else
      var rest := Marked(model, rows, cols, cells[1..], mark);
      assert cells == [cells[0]] + cells[1..];
      if At(model, cells[0]) == mark then [cells[0]] + rest else rest
  }

  /** A duplicate-free list whose only member is `x` is `[x]`. */
  lemma SingletonList(xs: seq<Coord>, x: Coord)
    requires NoDup(xs) && forall y :: y in xs <==> y == x
    ensures xs == [x]
  {
    assert x in xs;
    var i :| 0 <= i < |xs| && xs[i] == x;
    MultisetCountNoDup(xs, i);
    forall y ensures multiset(xs)[y] == multiset{x}[y] {
      if y != x {
        assert y !in xs;
      }
    }
    assert multiset(xs) == multiset{x};
    assert |xs| == |multiset(xs)| == 1;
    assert xs[0] in xs;
  }

  /** A list with no members is empty. */
  lemma EmptyList(xs: seq<Coord>)
    requires forall y :: y !in xs
    ensures xs == []
  {
    forall y ensures multiset(xs)[y] == 0 {
      assert y !in xs;
    }
    assert multiset(xs) == multiset{};
    assert |xs| == |multiset(xs)|;
  }

  /** The constructor: baseline temperature everywhere, the wall ring of
      thermal masses, and the source and exhaust lists read off the marker
      grid in row-major order. */
  function Create(rows: nat, cols: nat): (s: System)
    requires rows > InitialSource.0 && cols > InitialSource.1
    ensures Valid(s)
    ensures s.rows == rows && s.cols == cols && s.rate == Rate && s.base == Base
    ensures s.model == InitialMarkers(rows, cols)
    ensures forall r, c :: 0 <= r < rows && 0 <= c < cols ==> s.state[r][c] == Base
    ensures forall r, c :: 0 <= r < rows && 0 <= c < cols ==>
              s.thermalMass[r][c] == if InRing(rows, cols, r, c) then 101.0 else 1.0
    ensures (rows - SinkInset, cols - SinkInset) != InitialSource ==>
              s.sources == [InitialSource] && s.exhausts == [(rows - SinkInset, cols - SinkInset)]
    ensures (rows - SinkInset, cols - SinkInset) == InitialSource ==>
              s.sources == [] && s.exhausts == [InitialSource]
  {
    var model := InitialMarkers(rows, cols);
    var cells := Cells(rows, cols);
    var sources := Marked(model, rows, cols, cells, SourceMark);
    var exhausts := Marked(model, rows, cols, cells, SinkMark);
    var sink := (rows - SinkInset, cols - SinkInset);
    if sink != InitialSource then
      SingletonList(sources, InitialSource);
      SingletonList(exhausts, sink);
      System(rows, cols, model, MassLayout(rows, cols), Rate, Base,
             Fill(rows, cols, Base), sources, exhausts)
    else
      EmptyList(sources);
      SingletonList(exhausts, sink);
      System(rows, cols, model, MassLayout(rows, cols), Rate, Base,
             Fill(rows, cols, Base), sources, exhausts)
  }

  // ---------------------------------------------------------------------
  // Source and exhaust bookkeeping

  /** Flips membership of (r, c) in the source list and changes nothing else. */
  function ToggleSourceEntry(s: System, r: int, c: int): (s': System)
    ensures s'.(sources := s.sources) == s
    ensures forall q :: q != (r, c) ==> (q in s'.sources <==> q in s.sources)
    ensures NoDup(s.sources) ==> NoDup(s'.sources) && ((r, c) in s'.sources <==> (r, c) !in s.sources)
  {
    var s' := s.(sources := Toggle(s.sources, (r, c)));
    if NoDup(s.sources) then
      ToggleKeepsNoDup(s.sources, (r, c));
      s'
    else
      s'
  }

  /** Flips membership of (r, c) in the exhaust list and changes nothing else. */
  function ToggleExhaustEntry(s: System, r: int, c: int): (s': System)
    ensures s'.(exhausts := s.exhausts) == s
    ensures forall q :: q != (r, c) ==> (q in s'.exhausts <==> q in s.exhausts)
    ensures NoDup(s.exhausts) ==> NoDup(s'.exhausts) && ((r, c) in s'.exhausts <==> (r, c) !in s.exhausts)
  {
    var s' := s.(exhausts := Toggle(s.exhausts, (r, c)));
    if NoDup(s.exhausts) then
      ToggleKeepsNoDup(s.exhausts, (r, c));
      s'
    else
      s'
  }

  /** The marker grid after a toggle with marker `mark`: the cell becomes
      `mark` unless it already was, in which case it is cleared. */
  function ToggleMarker(model: seq<seq<int>>, rows: nat, cols: nat, p: Coord, mark: int): (m: seq<seq<int>>)
    requires IsGrid(model, rows, cols) && InBounds(p, rows, cols) && mark != Unmarked
    ensures IsGrid(m, rows, cols)
    ensures At(m, p) == mark <==> At(model, p) != mark
    ensures At(m, p) == mark || At(m, p) == Unmarked
    ensures forall r, c :: 0 <= r < rows && 0 <= c < cols && (r, c) != p ==> m[r][c] == model[r][c]
  {
    Update(model, p, if At(model, p) != mark then mark else Unmarked)
  }

  /** Marks (r, c) as a source (or clears its marker if it was one) and
      flips its membership in the source list; the exhausts, temperatures
      and masses are untouched. */
  function ToggleSource(s: System, r: int, c: int): (s': System)
    requires Valid(s) && InBounds((r, c), s.rows, s.cols)
    ensures Valid(s')
    ensures s'.(model := s.model, sources := s.sources) == s
    ensures s'.model[r][c] == SourceMark <==> s.model[r][c] != SourceMark
    ensures s'.model[r][c] == SourceMark || s'.model[r][c] == Unmarked
    ensures forall i, j :: 0 <= i < s.rows && 0 <= j < s.cols && (i, j) != (r, c) ==>
              s'.model[i][j] == s.model[i][j]
    ensures (r, c) in s'.sources <==> (r, c) !in s.sources
    ensures forall q :: q != (r, c) ==> (q in s'.sources <==> q in s.sources)
  {
    var marked := s.(model := ToggleMarker(s.model, s.rows, s.cols, (r, c), SourceMark));
    ToggleSourceEntry(marked, r, c)
  }

  /** Marks (r, c) as a sink (or clears its marker if it was one) and
      flips its membership in the exhaust list; the sources, temperatures
      and masses are untouched. */
  function ToggleExhaust(s: System, r: int, c: int): (s': System)
    requires Valid(s) && InBounds((r, c), s.rows, s.cols)
    ensures Valid(s')
    ensures s'.(model := s.model, exhausts := s.exhausts) == s
    ensures s'.model[r][c] == SinkMark <==> s.model[r][c] != SinkMark
    ensures s'.model[r][c] == SinkMark || s'.model[r][c] == Unmarked
    ensures forall i, j :: 0 <= i < s.rows && 0 <= j < s.cols && (i, j) != (r, c) ==>
              s'.model[i][j] == s.model[i][j]
    ensures (r, c) in s'.exhausts <==> (r, c) !in s.exhausts
    ensures forall q :: q != (r, c) ==> (q in s'.exhausts <==> q in s.exhausts)
  {
    var marked := s.(model := ToggleMarker(s.model, s.rows, s.cols, (r, c), SinkMark));
    ToggleExhaustEntry(marked, r, c)
  }

  /** Toggling a source twice restores every cell's membership in the
      source list, restores the list itself when (r, c) was absent, leaves
      exhausts and temperatures alone, and leaves the marker at 1 if it was
      1 and at 0 otherwise (a sink marker is cleared). */
  lemma ToggleSourceTwice(s: System, r: int, c: int)
    requires Valid(s) && InBounds((r, c), s.rows, s.cols)
    ensures var s2 := ToggleSource(ToggleSource(s, r, c), r, c);
            && (forall q :: q in s2.sources <==> q in s.sources)
            && multiset(s2.sources) == multiset(s.sources)
            && ((r, c) !in s.sources ==> s2.sources == s.sources)
            && s2.exhausts == s.exhausts && s2.state == s.state
            && s2.model[r][c] == (if s.model[r][c] == SourceMark then SourceMark else Unmarked)
  {
    var p := (r, c);
    if p in s.sources {
      ToggleTwicePresent(s.sources, p);
    } else {
      ToggleTwiceAbsent(s.sources, p);
    }
  }

  /** The same for exhausts. */
  lemma ToggleExhaustTwice(s: System, r: int, c: int)
    requires Valid(s) && InBounds((r, c), s.rows, s.cols)
    ensures var s2 := ToggleExhaust(ToggleExhaust(s, r, c), r, c);
            && (forall q :: q in s2.exhausts <==> q in s.exhausts)
            && multiset(s2.exhausts) == multiset(s.exhausts)
            && ((r, c) !in s.exhausts ==> s2.exhausts == s.exhausts)
            && s2.sources == s.sources && s2.state == s.state
            && s2.model[r][c] == (if s.model[r][c] == SinkMark then SinkMark else Unmarked)
  {
    var p := (r, c);
    if p in s.exhausts {
      ToggleTwicePresent(s.exhausts, p);
    } else {
      ToggleTwiceAbsent(s.exhausts, p);
    }
  }

  /** The roles are independent: a cell in neither list ends up in both
      after one source toggle and one exhaust toggle. */
  lemma SourceAndSinkIndependent(s: System, r: int, c: int)
    requires Valid(s) && InBounds((r, c), s.rows, s.cols)
    requires (r, c) !in s.sources && (r, c) !in s.exhausts
    ensures var s2 := ToggleExhaust(ToggleSource(s, r, c), r, c);
            (r, c) in s2.sources && (r, c) in s2.exhausts
  {
  }

  // ---------------------------------------------------------------------
  // The tick and the accessors

  /** One tick of the simulation; only the temperature field changes. */
  function Iterate(s: System): (s': System)
    requires Valid(s)
    ensures Valid(s')
    ensures s'.(state := s.state) == s
  {
    s.(state := Tick(s.state, s.thermalMass, s.rows, s.cols, s.sources, s.exhausts, s.rate))
  }

  /** With no sources, no exhausts and a uniform field, a tick leaves the
      system unchanged. */
  lemma IterateUniform(s: System)
    requires Valid(s) && s.sources == [] && s.exhausts == [] && Uniform(s.state)
    ensures Iterate(s) == s
  {
    TickUniform(s.state, s.thermalMass, s.rows, s.cols, s.rate);
  }

  /** With no sources and no exhausts, a tick preserves the total of mass
      times temperature over the grid. */
  lemma IterateConserves(s: System)
    requires Valid(s) && s.sources == [] && s.exhausts == []
    ensures Weighted(s.thermalMass, Iterate(s).state) == Weighted(s.thermalMass, s.state)
  {
    TickConservesClosed(s.state, s.thermalMass, s.rows, s.cols, s.rate);
  }

  /** The flow step reads a cell that is both a source and an exhaust at
      (v + rate) / 2, where v is its temperature before the tick. */
  lemma IterateSourceThenSink(s: System, p: Coord)
    requires Valid(s) && InBounds(p, s.rows, s.cols) && p in s.sources && p in s.exhausts
    ensures At(PreFlow(s.state, s.rows, s.cols, s.sources, s.exhausts, s.rate), p)
            == (At(s.state, p) + s.rate) / 2.0
  {
    InjectThenExtract(s.state, s.rows, s.cols, s.sources, s.exhausts, s.rate, p);
  }

  /** The temperature field. */
  function GetState(s: System): (g: Field)
    requires Valid(s)
    ensures IsGrid(g, s.rows, s.cols)
  {
    s.state
  }

  /** The thermal masses, all positive. */
  function GetThermalMass(s: System): (m: Field)
    requires Valid(s)
    ensures IsGrid(m, s.rows, s.cols) && Positive(m)
  {
    s.thermalMass
  }

  /** The shape of the temperature field: the construction dimensions. */
  function Shape(s: System): (d: (nat, nat))
    requires Valid(s)
    ensures d == (s.rows, s.cols)
  {
    (|s.state|, |s.state[0]|)
  }
}
