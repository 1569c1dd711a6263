/** The configuration the program actually builds (a 40 x 40 room) and two
    small worked ticks that pin down the order of the steps and the size of
    each transfer. */
module Reference {
  import opened Grid
  import opened Lists
  import opened Topology
  import opened Heat
  import opened Thermal

  /** The grid size the program constructs. */
  const Size: nat := 40

  /** Toggling the initial source of the 40 x 40 system clears its marker
      and empties the source list; toggling it again restores both. */
  lemma ReferenceToggleInitialSource()
    ensures var s := Create(Size, Size);
            var s1 := ToggleSource(s, 8, 8);
            var s2 := ToggleSource(s1, 8, 8);
            && s1.model[8][8] == Unmarked && s1.sources == []
            && s2.model[8][8] == SourceMark && s2.sources == [(8, 8)]
  {
    var s := Create(Size, Size);
    assert (Size - SinkInset, Size - SinkInset) == (37, 37);
    assert s.sources == [(8, 8)];
    var s1 := ToggleSource(s, 8, 8);
    assert s1.sources == [] by {
      assert IndexOf(s.sources, (8, 8)) == 0;
    }
    assert ToggleSource(s1, 8, 8).sources == [] + [(8, 8)];
  }

  /** The 40 x 40 system: one source at (8, 8), one sink at (37, 37), every
      cell at 5.0, and mass 101 exactly on the ring rows/columns 5..34
      outside rows/columns 6..33. */
  lemma ReferenceLayout()
    ensures var s := Create(Size, Size);
            && Valid(s)
            && s.sources == [(8, 8)] && s.exhausts == [(37, 37)]
            && (forall r, c :: 0 <= r < 40 && 0 <= c < 40 ==>
                  s.model[r][c] == if (r, c) == (37, 37) then -1 else if (r, c) == (8, 8) then 1 else 0)
            && s.rate == 10.0
            && (forall r, c :: 0 <= r < 40 && 0 <= c < 40 ==> s.state[r][c] == 5.0)
            && (forall r, c :: 0 <= r < 40 && 0 <= c < 40 ==>
                  s.thermalMass[r][c]
                  == if 5 <= r <= 34 && 5 <= c <= 34 && !(6 <= r <= 33 && 6 <= c <= 33)
                     then 101.0 else 1.0)
  {
    var s := Create(Size, Size);
    assert (Size - SinkInset, Size - SinkInset) == (37, 37);
    forall r, c | 0 <= r < 40 && 0 <= c < 40
      ensures s.thermalMass[r][c]
              == if 5 <= r <= 34 && 5 <= c <= 34 && !(6 <= r <= 33 && 6 <= c <= 33) then 101.0 else 1.0
    {
      assert InRing(Size, Size, r, c) <==> 5 <= r <= 34 && 5 <= c <= 34 && !(6 <= r <= 33 && 6 <= c <= 33);
    }
  }

  /** On an 11 x 11 grid the sink marker lands on the source marker, so the
      constructor finds no source and one sink at (8, 8). */
  lemma ElevenByElevenLayout()
    ensures Create(11, 11).sources == [] && Create(11, 11).exhausts == [(8, 8)]
  {
    assert (11 - SinkInset, 11 - SinkInset) == InitialSource;
  }

  /** Injection comes before extraction: a lone cell that is both a source
      and a sink ends the tick at (v + rate) / 2, not v / 2 + rate. */
  lemma SingleCellSourceAndSink(g: Field, mass: Field, rate: real)
    requires IsGrid(g, 1, 1) && IsGrid(mass, 1, 1) && Positive(mass)
    ensures Tick(g, mass, 1, 1, [(0, 0)], [(0, 0)], rate) == [[(g[0][0] + rate) / 2.0]]
  {
    var c: Coord := (0, 0);
    var pre := PreFlow(g, 1, 1, [c], [c], rate);
    SingleCellNoFlow(g, mass, [c], [c], rate);
    SingleCellPreFlow(g, rate);
    OneByOne(pre, (g[0][0] + rate) / 2.0);
  }

  /** The injected-then-extracted value of a lone source-and-sink cell. */
  lemma SingleCellPreFlow(g: Field, rate: real)
    requires IsGrid(g, 1, 1)
    ensures PreFlow(g, 1, 1, [(0, 0)], [(0, 0)], rate)[0][0] == (g[0][0] + rate) / 2.0
  {
    var c: Coord := (0, 0);
    assert c in [c];
    InjectThenExtract(g, 1, 1, [c], [c], rate, c);
  }

  /** A 1 x 1 grid is determined by its one cell. */
  lemma OneByOne(f: Field, v: real)
    requires IsGrid(f, 1, 1) && f[0][0] == v
    ensures f == [[v]]
  {
    assert f[0] == [v];
  }

  /** A lone cell has no neighbour, so its tick is injection and
      extraction only. */
  lemma SingleCellNoFlow(g: Field, mass: Field, sources: seq<Coord>, exhausts: seq<Coord>, rate: real)
    requires IsGrid(g, 1, 1) && IsGrid(mass, 1, 1) && Positive(mass)
    requires AllInBounds(sources, 1, 1) && AllInBounds(exhausts, 1, 1)
    ensures Tick(g, mass, 1, 1, sources, exhausts, rate) == PreFlow(g, 1, 1, sources, exhausts, rate)
  {
    var pre := PreFlow(g, 1, 1, sources, exhausts, rate);
    var zero := Fill(1, 1, 0.0);
    assert FlowState(pre, mass, 1, 1) == zero by {
      FlowStateUniform(pre, mass, 1, 1);
    }
    assert Add(pre, zero) == pre by {
      assert Add(pre, zero)[0] == pre[0];
    }
  }

  /** When every cell of `cells` other than `p` contributes nothing to `x`
      and `p` occurs at most once, the summed contributions are those of `p`. */
  lemma {:induction false} SumSingleSender(g: Field, mass: Field, rows: nat, cols: nat,
                                           cells: seq<Coord>, p: Coord, x: Coord)
    requires IsGrid(g, rows, cols) && IsGrid(mass, rows, cols) && Positive(mass)
    requires AllInBounds(cells, rows, cols) && InBounds(x, rows, cols) && InBounds(p, rows, cols)
    requires forall i :: 0 <= i < |cells| && cells[i] != p ==> Contribution(g, mass, rows, cols, cells[i], x) == 0.0
    requires multiset(cells)[p] <= 1
    ensures SumContributions(g, mass, rows, cols, cells, x)
            == if p in cells then Contribution(g, mass, rows, cols, p, x) else 0.0
  {
    if |cells| > 0 {
      var h, t := cells[0], cells[1..];
      assert cells == [h] + t;
      CountCons(h, t, p);
      assert forall i :: 0 <= i < |t| ==> t[i] == cells[i + 1];
      SumSingleSender(g, mass, rows, cols, t, p, x);
      assert SumContributions(g, mass, rows, cols, cells, x)
             == Contribution(g, mass, rows, cols, h, x) + SumContributions(g, mass, rows, cols, t, x);
      if h == p {
        assert p !in t by {
          assert multiset(t)[p] == 0;
        }
      } else {
        assert Contribution(g, mass, rows, cols, h, x) == 0.0;
      }
    }
  }

  /** The worked tick on a 3 x 3 grid at 10 with unit masses, one source
      at the corner (0, 0) and rate 4: the corner reaches 14, has two
      colder neighbours, and sends each of them (14 - 10) / 3, so the three
      cells end at 34/3 and the rest stay at 10. */
  lemma CornerSourceTick()
    ensures Tick(Fill(3, 3, 10.0), Fill(3, 3, 1.0), 3, 3, [(0, 0)], [], 4.0)
            == [[34.0 / 3.0, 34.0 / 3.0, 10.0], [34.0 / 3.0, 10.0, 10.0], [10.0, 10.0, 10.0]]
  {
    var g := Fill(3, 3, 10.0);
    var mass := Fill(3, 3, 1.0);
    assert UnitMass(mass);
    var pre := PreFlow(g, 3, 3, [(0, 0)], [], 4.0);
    assert CornerHot(pre) by {
      CornerPreFlow();
    }
    var flow := FlowState(pre, mass, 3, 3);
    assert CornerSpread(flow) by {
      CornerFlowState(pre, mass);
    }
    CornerSum(pre, flow);
  }

  /** Unit thermal mass on every cell of the 3 x 3 example. */
  predicate UnitMass(mass: Field) {
    IsGrid(mass, 3, 3) && forall r, c :: 0 <= r < 3 && 0 <= c < 3 ==> mass[r][c] == 1.0
  }

  /** The corner of the 3 x 3 example after injection: 14 there, 10 elsewhere. */
  predicate CornerHot(pre: Field) {
    IsGrid(pre, 3, 3)
    && forall r, c :: 0 <= r < 3 && 0 <= c < 3 ==> pre[r][c] == if (r, c) == (0, 0) then 14.0 else 10.0
  }

  /** The flow buffer the example should produce at (r, c). */
  function CornerDelta(x: Coord): real {
    if x == (0, 0) then -8.0 / 3.0
    else if x == (0, 1) || x == (1, 0) then 4.0 / 3.0
    else 0.0
  }

  /** The example's flow buffer: -8/3 at the corner, 4/3 at its two
      neighbours, 0 elsewhere. */
  predicate CornerSpread(flow: Field) {
    IsGrid(flow, 3, 3) && forall r, c :: 0 <= r < 3 && 0 <= c < 3 ==> flow[r][c] == CornerDelta((r, c))
  }

  /** The tick's final sum for the example: injected field plus flow buffer. */
  lemma CornerSum(pre: Field, flow: Field)
    requires CornerHot(pre) && CornerSpread(flow)
    ensures Add(pre, flow)
            == [[34.0 / 3.0, 34.0 / 3.0, 10.0], [34.0 / 3.0, 10.0, 10.0], [10.0, 10.0, 10.0]]
  {
    var t := Add(pre, flow);
    var expected := [[34.0 / 3.0, 34.0 / 3.0, 10.0], [34.0 / 3.0, 10.0, 10.0], [10.0, 10.0, 10.0]];
    assert forall r, c :: 0 <= r < 3 && 0 <= c < 3 ==> t[r][c] == expected[r][c];
    assert forall r :: 0 <= r < 3 ==> t[r] == expected[r];
  }

  /** Injection raises only the source cell, by the rate. */
  lemma CornerPreFlow()
    ensures CornerHot(PreFlow(Fill(3, 3, 10.0), 3, 3, [(0, 0)], [], 4.0))
  {
    var g := Fill(3, 3, 10.0);
    var pre := PreFlow(g, 3, 3, [(0, 0)], [], 4.0);
    forall r, c | 0 <= r < 3 && 0 <= c < 3
      ensures pre[r][c] == if (r, c) == (0, 0) then 14.0 else 10.0
    {
      InjectThenExtract(g, 3, 3, [(0, 0)], [], 4.0, (r, c));
    }
  }

  /** The corner's downhill list in the example: right, then down. */
  const CornerFlowList: seq<Flow> := [Flow((0, 1), 4.0), Flow((1, 0), 4.0)]

  /** In the example only the corner has colder neighbours, and its flows
      are the right and the down neighbour with drop 4 each. */
  lemma CornerFlows(pre: Field)
    requires CornerHot(pre)
    ensures CellFlows(pre, 3, 3, (0, 0)) == CornerFlowList
    ensures forall q :: InBounds(q, 3, 3) && q != (0, 0) ==> CellFlows(pre, 3, 3, q) == []
  {
    CornerNeighbours();
    CornerDownhill(pre);
    CornerOthers(pre);
  }

  /** The corner's neighbours: right, then down. */
  lemma CornerNeighbours()
    ensures Neighbours(3, 3, 0, 0) == [(0, 1), (1, 0)]
  {
  }

  /** The corner's downhill list over its two neighbours. */
  lemma CornerDownhill(pre: Field)
    requires CornerHot(pre)
    ensures Downhill(pre, 3, 3, (0, 0), [(0, 1), (1, 0)]) == CornerFlowList
  {
    var ns: seq<Coord> := [(0, 1), (1, 0)];
    assert ns[0] == (0, 1) && ns[1..] == [(1, 0)];
    CornerDownhillTail(pre);
  }

  /** The last step of the corner's downhill list. */
  lemma CornerDownhillTail(pre: Field)
    requires CornerHot(pre)
    ensures Downhill(pre, 3, 3, (0, 0), [(1, 0)]) == [Flow((1, 0), 4.0)]
  {
    var ns: seq<Coord> := [(1, 0)];
    assert ns[0] == (1, 0) && ns[1..] == [];
  }

  /** No cell of the example other than the corner has a colder neighbour. */
  lemma CornerOthers(pre: Field)
    requires CornerHot(pre)
    ensures forall q :: InBounds(q, 3, 3) && q != (0, 0) ==> CellFlows(pre, 3, 3, q) == []
  {
    forall q | InBounds(q, 3, 3) && q != (0, 0)
      ensures CellFlows(pre, 3, 3, q) == []
    {
      CornerOthersStill(pre, q);
    }
  }

  /** A cell of the example other than the corner has no colder neighbour. */
  lemma CornerOthersStill(pre: Field, q: Coord)
    requires CornerHot(pre) && InBounds(q, 3, 3) && q != (0, 0)
    ensures CellFlows(pre, 3, 3, q) == []
  {
    var ns := Neighbours(3, 3, q.0, q.1);
    assert At(pre, q) == 10.0;
    forall n | n in ns
      ensures At(pre, n) >= At(pre, q)
    {
      assert InBounds(n, 3, 3);
    }
    DownhillNone(pre, 3, 3, q, ns);
  }

  /** Each of the two transfers is 4 / 3, so the corner sends 8 / 3. */
  lemma CornerShares()
    ensures Sent(CornerFlowList, 2) == 8.0 / 3.0
    ensures forall x :: Received(CornerFlowList, 2, x)
                        == if x == (0, 1) || x == (1, 0) then 4.0 / 3.0 else 0.0
  {
    var fl := CornerFlowList;
    assert Share(4.0, 2) == 4.0 / 3.0;
    assert fl[1..] == [Flow((1, 0), 4.0)];
    assert fl[1..][1..] == [];
    assert Sent(fl[1..], 2) == 4.0 / 3.0;
    forall x
      ensures Received(fl, 2, x) == if x == (0, 1) || x == (1, 0) then 4.0 / 3.0 else 0.0
    {
      assert Received(fl[1..][1..], 2, x) == 0.0;
      assert Received(fl[1..], 2, x) == if x == (1, 0) then 4.0 / 3.0 else 0.0;
    }
  }

  /** The corner occurs once in the row-major cell list. */
  lemma CornerOnce()
    ensures multiset(Cells(3, 3))[(0, 0)] == 1
  {
    var cells := Cells(3, 3);
    assert (0, 0) in cells;
    var i :| 0 <= i < |cells| && cells[i] == (0, 0);
    MultisetCountNoDup(cells, i);
  }

  /** The example's flow buffer, cell by cell. */
  lemma CornerFlowState(pre: Field, mass: Field)
    requires CornerHot(pre) && UnitMass(mass)
    ensures CornerSpread(FlowState(pre, mass, 3, 3))
  {
    var flow := FlowState(pre, mass, 3, 3);
    forall r, c | 0 <= r < 3 && 0 <= c < 3
      ensures flow[r][c] == CornerDelta((r, c))
    {
      CornerFlowAt(pre, mass, (r, c));
    }
  }

  lemma CornerFlowAt(pre: Field, mass: Field, x: Coord)
    requires CornerHot(pre) && UnitMass(mass) && InBounds(x, 3, 3)
    ensures At(FlowState(pre, mass, 3, 3), x) == CornerDelta(x)
  {
    var cells := Cells(3, 3);
    var zero := Fill(3, 3, 0.0);
    assert At(FlowState(pre, mass, 3, 3), x) == SumContributions(pre, mass, 3, 3, cells, x) by {
      SweepAt(pre, mass, 3, 3, zero, cells, x);
    }
    assert SumContributions(pre, mass, 3, 3, cells, x) == Contribution(pre, mass, 3, 3, (0, 0), x) by {
      CornerFlows(pre);
      CornerOnce();
      forall i | 0 <= i < |cells| && cells[i] != (0, 0)
        ensures Contribution(pre, mass, 3, 3, cells[i], x) == 0.0
      {
        assert CellFlows(pre, 3, 3, cells[i]) == [];
      }
      SumSingleSender(pre, mass, 3, 3, cells, (0, 0), x);
    }
    CornerContribution(pre, mass, x);
  }

  /** What the corner alone adds to cell `x` in the example. */
  lemma CornerContribution(pre: Field, mass: Field, x: Coord)
    requires CornerHot(pre) && UnitMass(mass) && InBounds(x, 3, 3)
    ensures Contribution(pre, mass, 3, 3, (0, 0), x) == CornerDelta(x)
  {
    CornerFlows(pre);
    CornerShares();
    assert At(mass, x) == 1.0;
    assert Contribution(pre, mass, 3, 3, (0, 0), x)
           == Received(CornerFlowList, 2, x) / 1.0
              - (if x == (0, 0) then Sent(CornerFlowList, 2) / 1.0 else 0.0);
  }
}
