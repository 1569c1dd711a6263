/** The tick of the simulation over real-valued fields: injection at the
    sources, halving at the exhausts, the downhill flow buffer computed
    from a snapshot, and the elementwise commit.  Temperatures and thermal
    masses are idealised as reals. */
module Heat {
  import opened Grid
  import opened Lists
  import opened Topology

  /** A real-valued field: temperatures, thermal masses or a change buffer. */
  type Field = seq<seq<real>>

  /** `a` and `b` have the same number of rows, row for row of equal length. */
  predicate SameShape(a: Field, b: Field) {
    |a| == |b| && forall r :: 0 <= r < |a| ==> |a[r]| == |b[r]|
  }

  /** Every thermal mass is strictly positive, so dividing by it is safe. */
  predicate Positive(m: Field) {
    forall r, c :: 0 <= r < |m| && 0 <= c < |m[r]| ==> m[r][c] > 0.0
  }

  /** Every entry is zero. */
  predicate AllZero(g: Field) {
    forall r, c :: 0 <= r < |g| && 0 <= c < |g[r]| ==> g[r][c] == 0.0
  }

  // ---------------------------------------------------------------------
  // Mass-weighted sums

  /** Sum over one row of mass times value. */
  function RowWeighted(m: seq<real>, g: seq<real>): real
    requires |m| == |g|
  {
    if |g| == 0 then 0.0 else m[0] * g[0] + RowWeighted(m[1..], g[1..])
  }

  /** Sum over the grid of mass times value: the heat content of a field. */
  function Weighted(m: Field, g: Field): real
    requires SameShape(m, g)
  {
    if |g| == 0 then 0.0
    else
      assert SameShape(m[1..], g[1..]) by {
        assert forall r :: 0 <= r < |g| - 1 ==> m[1..][r] == m[r + 1] && g[1..][r] == g[r + 1];
      }
      RowWeighted(m[0], g[0]) + Weighted(m[1..], g[1..])
  }

  /** Raising one entry of a row by `d` raises the row's weighted sum by
      that entry's mass times `d`. */
  lemma {:induction false} RowWeightedBump(m: seq<real>, g: seq<real>, c: nat, d: real)
    requires |m| == |g| && c < |g|
    ensures RowWeighted(m, g[c := g[c] + d]) == RowWeighted(m, g) + m[c] * d
  {
    var g' := g[c := g[c] + d];
    if c == 0 {
      assert g'[1..] == g[1..];
      assert m[0] * g'[0] == m[0] * g[0] + m[0] * d;
    } else {
      assert g'[1..] == g[1..][c - 1 := g[c] + d];
      RowWeightedBump(m[1..], g[1..], c - 1, d);
    }
  }

  /** Adding `d` at one cell changes the heat content by mass times `d`. */
  lemma WeightedAddAt(m: Field, g: Field, p: Coord, d: real)
    requires SameShape(m, g) && InGrid(g, p)
    ensures SameShape(m, AddAt(g, p, d))
    ensures Weighted(m, AddAt(g, p, d)) == Weighted(m, g) + m[p.0][p.1] * d
  {
    var i, c := p.0, p.1;
    var row := g[i][c := g[i][c] + d];
    assert AddAt(g, p, d) == g[i := row];
    RowWeightedBump(m[i], g[i], c, d);
    WeightedRowUpdate(m, g, i, row);
    ShiftBy(Weighted(m, g[i := row]), Weighted(m, g), RowWeighted(m[i], row), RowWeighted(m[i], g[i]), m[i][c] * d);
  }

  lemma ShiftBy(w': real, w: real, a: real, b: real, x: real)
    requires w' == w + (a - b) && a == b + x
    ensures w' == w + x
  {
  }

  /** Replacing one row changes the weighted sum by that row's change. */
  lemma {:induction false} WeightedRowUpdate(m: Field, g: Field, i: nat, row: seq<real>)
    requires SameShape(m, g) && i < |g| && |row| == |g[i]|
    ensures SameShape(m, g[i := row])
    ensures Weighted(m, g[i := row]) == Weighted(m, g) + (RowWeighted(m[i], row) - RowWeighted(m[i], g[i]))
  {
    assert SameShape(m[1..], g[1..]);
    if i == 0 {
      assert g[i := row][1..] == g[1..];
    } else {
      assert g[i := row][1..] == g[1..][i - 1 := row];
      WeightedRowUpdate(m[1..], g[1..], i - 1, row);
    }
  }

  lemma {:induction false} RowWeightedSum(m: seq<real>, a: seq<real>, b: seq<real>, s: seq<real>)
    requires |m| == |a| == |b| == |s|
    requires forall j :: 0 <= j < |s| ==> s[j] == a[j] + b[j]
    ensures RowWeighted(m, s) == RowWeighted(m, a) + RowWeighted(m, b)
  {
    if |s| > 0 {
      RowWeightedSum(m[1..], a[1..], b[1..], s[1..]);
      assert m[0] * s[0] == m[0] * a[0] + m[0] * b[0];
    }
  }

  /** Heat content is additive over elementwise sums of fields. */
  lemma {:induction false} WeightedSum(m: Field, a: Field, b: Field, s: Field)
    requires SameShape(m, a) && SameShape(a, b) && SameShape(a, s)
    requires forall r, c :: 0 <= r < |s| && 0 <= c < |s[r]| ==> s[r][c] == a[r][c] + b[r][c]
    ensures SameShape(m, b) && SameShape(m, s)
    ensures Weighted(m, s) == Weighted(m, a) + Weighted(m, b)
  {
    if |s| > 0 {
      RowWeightedSum(m[0], a[0], b[0], s[0]);
      assert SameShape(m[1..], a[1..]) && SameShape(a[1..], b[1..]) && SameShape(a[1..], s[1..]);
      WeightedSum(m[1..], a[1..], b[1..], s[1..]);
    }
  }

  lemma {:induction false} RowWeightedZero(m: seq<real>, g: seq<real>)
    requires |m| == |g| && forall j :: 0 <= j < |g| ==> g[j] == 0.0
    ensures RowWeighted(m, g) == 0.0
  {
    if |g| > 0 {
      RowWeightedZero(m[1..], g[1..]);
    }
  }

  /** A zero field has no heat content. */
  lemma {:induction false} WeightedZero(m: Field, g: Field)
    requires SameShape(m, g) && AllZero(g)
    ensures Weighted(m, g) == 0.0
  {
    if |g| > 0 {
      RowWeightedZero(m[0], g[0]);
      assert SameShape(m[1..], g[1..]);
      WeightedZero(m[1..], g[1..]);
    }
  }

  // ---------------------------------------------------------------------
  // Steps 1 and 2: injection, then extraction

  /** Every listed coordinate addresses a cell of the grid. */
  predicate AllInBounds(ps: seq<Coord>, rows: nat, cols: nat) {
    forall i :: 0 <= i < |ps| ==> InBounds(ps[i], rows, cols)
  }

  /** `x` added to itself `n` times. */
  function Times(n: nat, x: real): real {
    if n == 0 then 0.0 else Times(n - 1, x) + x
  }

  /** `v` halved `n` times. */
  function Halved(v: real, n: nat): real
    decreases n
  {
    if n == 0 then v else Halved(v / 2.0, n - 1)
  }

  /** The multiplicity of `x` in a list with head `h`. */
  lemma CountCons<T>(h: T, t: seq<T>, x: T)
    ensures multiset([h] + t)[x] == multiset(t)[x] + if h == x then 1 else 0
  {
  }

  /** Adds `rate` to the cell of every list entry, one entry after another;
      a cell listed j times gains `rate` j times. */
  function Inject(g: Field, rows: nat, cols: nat, sources: seq<Coord>, rate: real): (g': Field)
    requires IsGrid(g, rows, cols) && AllInBounds(sources, rows, cols)
    ensures IsGrid(g', rows, cols)
    ensures forall r, c :: 0 <= r < rows && 0 <= c < cols ==>
              g'[r][c] == g[r][c] + Times(multiset(sources)[(r, c)], rate)
    decreases |sources|
  {
    if |sources| == 0 then g
    else
      var s := sources[0];
      var g1 := AddAt(g, s, rate);
      var g' := Inject(g1, rows, cols, sources[1..], rate);
      assert sources == [s] + sources[1..];
      assert forall r, c :: 0 <= r < rows && 0 <= c < cols ==>
               g'[r][c] == g[r][c] + Times(multiset(sources)[(r, c)], rate) by {
        forall r, c | 0 <= r < rows && 0 <= c < cols
          ensures g'[r][c] == g[r][c] + Times(multiset(sources)[(r, c)], rate)
        {
          CountCons(s, sources[1..], (r, c));
          InjectCell(g[r][c], g1[r][c], g'[r][c], multiset(sources[1..])[(r, c)], s == (r, c), rate);
        }
      }
      g'
  }

  /** One cell's arithmetic in one step of `Inject`. */
  lemma InjectCell(before: real, mid: real, after: real, n: nat, hit: bool, rate: real)
    requires mid == before + (if hit then rate else 0.0)
    requires after == mid + Times(n, rate)
    ensures after == before + Times(n + (if hit then 1 else 0), rate)
  {
    if hit {
      assert Times(n + 1, rate) == Times(n, rate) + rate;
    }
  }

  /** Halves the cell of every list entry, one entry after another; a cell
      listed j times is halved j times. */
  function Extract(g: Field, rows: nat, cols: nat, exhausts: seq<Coord>): (g': Field)
    requires IsGrid(g, rows, cols) && AllInBounds(exhausts, rows, cols)
    ensures IsGrid(g', rows, cols)
    ensures forall r, c :: 0 <= r < rows && 0 <= c < cols ==>
              g'[r][c] == Halved(g[r][c], multiset(exhausts)[(r, c)])
    decreases |exhausts|
  {
    if |exhausts| == 0 then g
    else
      var e := exhausts[0];
      var g1 := Update(g, e, At(g, e) / 2.0);
      var g' := Extract(g1, rows, cols, exhausts[1..]);
      assert exhausts == [e] + exhausts[1..];
      assert forall r, c :: 0 <= r < rows && 0 <= c < cols ==>
               g'[r][c] == Halved(g[r][c], multiset(exhausts)[(r, c)]) by {
        forall r, c | 0 <= r < rows && 0 <= c < cols
          ensures g'[r][c] == Halved(g[r][c], multiset(exhausts)[(r, c)])
        {
          CountCons(e, exhausts[1..], (r, c));
          ExtractCell(g[r][c], g1[r][c], g'[r][c], multiset(exhausts[1..])[(r, c)], e == (r, c));
        }
      }
      g'
  }

  /** One cell's arithmetic in one step of `Extract`. */
  lemma ExtractCell(before: real, mid: real, after: real, n: nat, hit: bool)
    requires mid == if hit then before / 2.0 else before
    requires after == Halved(mid, n)
    ensures after == Halved(before, n + (if hit then 1 else 0))
  {
  }

  // ---------------------------------------------------------------------
  // Step 3: the flow buffer

  /** One downhill edge out of a cell: the lower neighbour and the
      temperature difference to it. */
  datatype Flow = Flow(to: Coord, drop: real)

  /** The neighbours a flow list sends heat to, in order. */
  function Targets(fl: seq<Flow>): (ts: seq<Coord>)
    ensures |ts| == |fl| && forall i :: 0 <= i < |fl| ==> ts[i] == fl[i].to
  {
    seq(|fl|, i requires 0 <= i < |fl| => fl[i].to)
  }

  /** `fl` is the downhill list of `p` over the candidates `ns`: each flow
      goes to a member of `ns` and carries the positive temperature
      difference to it, and a member of `ns` is a target exactly when it is
      strictly colder than `p`. */
  predicate FlowsFrom(g: Field, rows: nat, cols: nat, p: Coord, ns: seq<Coord>, fl: seq<Flow>)
    requires IsGrid(g, rows, cols) && InBounds(p, rows, cols) && AllInBounds(ns, rows, cols)
  {
    && |fl| <= |ns|
    && (forall i :: 0 <= i < |fl| ==> fl[i].to in ns)
    && (forall i :: 0 <= i < |fl| ==> fl[i].drop == At(g, p) - At(g, fl[i].to))
    && (forall i :: 0 <= i < |fl| ==> fl[i].drop > 0.0)
    && (forall n :: n in ns ==> (n in Targets(fl) <==> At(g, n) < At(g, p)))
    && (NoDup(ns) ==> NoDup(Targets(fl)))
  }

  /** The neighbours in `ns` strictly colder than `p`, in order, each with
      its temperature difference. */
  function Downhill(g: Field, rows: nat, cols: nat, p: Coord, ns: seq<Coord>): seq<Flow>
    requires IsGrid(g, rows, cols) && InBounds(p, rows, cols) && AllInBounds(ns, rows, cols)
  {
    if |ns| == 0 then []
    else if At(g, ns[0]) < At(g, p) then
      [Flow(ns[0], At(g, p) - At(g, ns[0]))] + Downhill(g, rows, cols, p, ns[1..])
    else
      Downhill(g, rows, cols, p, ns[1..])
  }

  /** `Downhill` computes the downhill list: see `FlowsFrom`. */
  lemma {:induction false} DownhillFacts(g: Field, rows: nat, cols: nat, p: Coord, ns: seq<Coord>)
    requires IsGrid(g, rows, cols) && InBounds(p, rows, cols) && AllInBounds(ns, rows, cols)
    ensures FlowsFrom(g, rows, cols, p, ns, Downhill(g, rows, cols, p, ns))
  {
    if |ns| > 0 {
      DownhillFacts(g, rows, cols, p, ns[1..]);
      var rest := Downhill(g, rows, cols, p, ns[1..]);
      if At(g, ns[0]) < At(g, p) {
        DownhillKeep(g, rows, cols, p, ns, rest);
      } else {
        DownhillSkip(g, rows, cols, p, ns, rest);
      }
    }
  }

  /** A colder head candidate is prepended to the tail's downhill list. */
  lemma DownhillKeep(g: Field, rows: nat, cols: nat, p: Coord, ns: seq<Coord>, rest: seq<Flow>)
    requires IsGrid(g, rows, cols) && InBounds(p, rows, cols) && AllInBounds(ns, rows, cols)
    requires |ns| > 0 && At(g, ns[0]) < At(g, p)
    requires FlowsFrom(g, rows, cols, p, ns[1..], rest)
    ensures FlowsFrom(g, rows, cols, p, ns, [Flow(ns[0], At(g, p) - At(g, ns[0]))] + rest)
  {
    var n := ns[0];
    var fl := [Flow(n, At(g, p) - At(g, n))] + rest;
    assert ns == [n] + ns[1..];
    forall i | 0 <= i < |fl|
      ensures fl[i].to in ns && fl[i].drop == At(g, p) - At(g, fl[i].to) && fl[i].drop > 0.0
    {
      if i > 0 {
        assert fl[i] == rest[i - 1];
        assert rest[i - 1].to in ns[1..];
      }
    }
    DownhillKeepTargets(g, rows, cols, p, ns, rest);
  }

  /** The target facts of `DownhillKeep`: membership and distinctness. */
  lemma DownhillKeepTargets(g: Field, rows: nat, cols: nat, p: Coord, ns: seq<Coord>, rest: seq<Flow>)
    requires IsGrid(g, rows, cols) && InBounds(p, rows, cols) && AllInBounds(ns, rows, cols)
    requires |ns| > 0 && At(g, ns[0]) < At(g, p)
    requires FlowsFrom(g, rows, cols, p, ns[1..], rest)
    ensures var ts := [ns[0]] + Targets(rest);
            && (forall q :: q in ns ==> (q in ts <==> At(g, q) < At(g, p)))
            && (NoDup(ns) ==> NoDup(ts))
    ensures Targets([Flow(ns[0], At(g, p) - At(g, ns[0]))] + rest) == [ns[0]] + Targets(rest)
  {
    var n := ns[0];
    var ts := [n] + Targets(rest);
    assert ns == [n] + ns[1..];
    forall q | q in ns
      ensures q in ts <==> At(g, q) < At(g, p)
    {
      if q != n {
        assert q in ns[1..];
      }
    }
    if NoDup(ns) {
      assert NoDup(ns[1..]);
      assert n !in ns[1..];
      assert n !in Targets(rest);
    }
  }

  /** A head candidate that is not colder contributes nothing. */
  lemma DownhillSkip(g: Field, rows: nat, cols: nat, p: Coord, ns: seq<Coord>, rest: seq<Flow>)
    requires IsGrid(g, rows, cols) && InBounds(p, rows, cols) && AllInBounds(ns, rows, cols)
    requires |ns| > 0 && At(g, ns[0]) >= At(g, p)
    requires FlowsFrom(g, rows, cols, p, ns[1..], rest)
    ensures FlowsFrom(g, rows, cols, p, ns, rest)
  {
    var n := ns[0];
    assert ns == [n] + ns[1..];
    forall q | q in ns
      ensures q in Targets(rest) <==> At(g, q) < At(g, p)
    {
      if q != n {
        assert q in ns[1..];
      } else {
        assert forall i :: 0 <= i < |rest| ==> Targets(rest)[i] != n;
      }
    }
    if NoDup(ns) {
      assert NoDup(ns[1..]);
    }
  }

  /** The amount moved across one downhill edge of a cell with `k` downhill
      neighbours: the difference divided by `k + 1`. */
  function Share(drop: real, k: nat): real {
    drop / ((k + 1) as real)
  }

  /** Sum of the shares a flow list delivers to `x`. */
  function Received(fl: seq<Flow>, k: nat, x: Coord): real {
    if |fl| == 0 then 0.0
    else (if fl[0].to == x then Share(fl[0].drop, k) else 0.0) + Received(fl[1..], k, x)
  }

  /** Sum of all the shares of a flow list: what the sending cell gives up. */
  function Sent(fl: seq<Flow>, k: nat): real {
    if |fl| == 0 then 0.0 else Share(fl[0].drop, k) + Sent(fl[1..], k)
  }

  lemma DivAdd(a: real, b: real, m: real)
    requires m != 0.0
    ensures a / m + b / m == (a + b) / m
  {
  }

  lemma SpreadStepArith(v0: real, v1: real, v2: real, got: real, rest: real,
                        change: real, restSent: real, m: real, isP: bool)
    requires m != 0.0
    requires v1 == v0 + got / m - (if isP then change / m else 0.0)
    requires v2 == v1 + rest / m - (if isP then restSent / m else 0.0)
    ensures v2 == v0 + (got + rest) / m - (if isP then (change + restSent) / m else 0.0)
  {
    DivAdd(got, rest, m);
    DivAdd(change, restSent, m);
  }

  /** Posts one flow of cell `p`: the target gains the share over its own
      mass, then `p` loses the share over its own mass. */
  function Post(buf: Field, mass: Field, rows: nat, cols: nat, p: Coord, f: Flow, k: nat): (b': Field)
    requires IsGrid(buf, rows, cols) && IsGrid(mass, rows, cols) && Positive(mass)
    requires InBounds(p, rows, cols) && InBounds(f.to, rows, cols)
    ensures IsGrid(b', rows, cols)
  {
    var change := Share(f.drop, k);
    var b1 := AddAt(buf, f.to, change / At(mass, f.to));
    AddAt(b1, p, -(change / At(mass, p)))
  }

  /** One posted flow moves its share into the target (scaled by the
      target's mass) and out of the sender (scaled by the sender's mass),
      and touches no other cell. */
  lemma PostAt(buf: Field, mass: Field, rows: nat, cols: nat, p: Coord, f: Flow, k: nat, x: Coord)
    requires IsGrid(buf, rows, cols) && IsGrid(mass, rows, cols) && Positive(mass)
    requires InBounds(p, rows, cols) && InBounds(f.to, rows, cols) && InBounds(x, rows, cols)
    ensures At(Post(buf, mass, rows, cols, p, f, k), x)
            == At(buf, x) + (if f.to == x then Share(f.drop, k) else 0.0) / At(mass, x)
               - (if x == p then Share(f.drop, k) / At(mass, x) else 0.0)
  {
  }

  /** Posts every flow of cell `p` to the buffer, one after another. */
  function Spread(buf: Field, mass: Field, rows: nat, cols: nat, p: Coord, fl: seq<Flow>, k: nat): (b': Field)
    requires IsGrid(buf, rows, cols) && IsGrid(mass, rows, cols) && Positive(mass)
    requires InBounds(p, rows, cols) && AllInBounds(Targets(fl), rows, cols)
    ensures IsGrid(b', rows, cols)
    decreases |fl|
  {
    if |fl| == 0 then buf
    else
      assert Targets(fl[1..]) == Targets(fl)[1..];
      Spread(Post(buf, mass, rows, cols, p, fl[0], k), mass, rows, cols, p, fl[1..], k)
  }

  /** After spreading, each cell holds its old value plus everything it
      received over its mass, minus (for the sender) everything sent over
      the sender's mass. */
  lemma {:induction false} SpreadAt(buf: Field, mass: Field, rows: nat, cols: nat, p: Coord,
                                    fl: seq<Flow>, k: nat, x: Coord)
    requires IsGrid(buf, rows, cols) && IsGrid(mass, rows, cols) && Positive(mass)
    requires InBounds(p, rows, cols) && AllInBounds(Targets(fl), rows, cols)
    requires InBounds(x, rows, cols)
    ensures At(Spread(buf, mass, rows, cols, p, fl, k), x)
            == At(buf, x) + Received(fl, k, x) / At(mass, x)
               - (if x == p then Sent(fl, k) / At(mass, x) else 0.0)
    decreases |fl|
  {
    if |fl| > 0 {
      assert Targets(fl[1..]) == Targets(fl)[1..];
      var b1 := Post(buf, mass, rows, cols, p, fl[0], k);
      PostAt(buf, mass, rows, cols, p, fl[0], k, x);
      SpreadAt(b1, mass, rows, cols, p, fl[1..], k, x);
      SpreadStepArith(At(buf, x), At(b1, x), At(Spread(buf, mass, rows, cols, p, fl, k), x),
                      if fl[0].to == x then Share(fl[0].drop, k) else 0.0, Received(fl[1..], k, x),
                      Share(fl[0].drop, k), Sent(fl[1..], k), At(mass, x), x == p);
    }
  }

  /** The downhill flows of cell `p` in field `g`. */
  function CellFlows(g: Field, rows: nat, cols: nat, p: Coord): (fl: seq<Flow>)
    requires IsGrid(g, rows, cols) && InBounds(p, rows, cols)
    ensures FlowsFrom(g, rows, cols, p, Neighbours(rows, cols, p.0, p.1), fl)
    ensures AllInBounds(Targets(fl), rows, cols)
  {
    DownhillFacts(g, rows, cols, p, Neighbours(rows, cols, p.0, p.1));
    Downhill(g, rows, cols, p, Neighbours(rows, cols, p.0, p.1))
  }

  /** Everything cell `p` posts to the buffer: nothing when no neighbour is
      strictly colder, otherwise every downhill edge, with `k` the number of
      such neighbours. */
  function CellStep(g: Field, mass: Field, rows: nat, cols: nat, buf: Field, p: Coord): (b': Field)
    requires IsGrid(g, rows, cols) && IsGrid(mass, rows, cols) && IsGrid(buf, rows, cols)
    requires Positive(mass) && InBounds(p, rows, cols)
    ensures IsGrid(b', rows, cols)
  {
    var fl := CellFlows(g, rows, cols, p);
    if |fl| > 0 then Spread(buf, mass, rows, cols, p, fl, |fl|) else buf
  }

  /** Visits `cells` in order, each posting its flows to the buffer; every
      visit reads the same temperature snapshot `g`. */
  function Sweep(g: Field, mass: Field, rows: nat, cols: nat, buf: Field, cells: seq<Coord>): (b': Field)
    requires IsGrid(g, rows, cols) && IsGrid(mass, rows, cols) && IsGrid(buf, rows, cols)
    requires Positive(mass) && AllInBounds(cells, rows, cols)
    ensures IsGrid(b', rows, cols)
    decreases |cells|
  {
    if |cells| == 0 then buf
    else Sweep(g, mass, rows, cols, CellStep(g, mass, rows, cols, buf, cells[0]), cells[1..])
  }

  /** The change buffer of one tick: a zero field swept over every cell in
      row-major order. */
  function FlowState(g: Field, mass: Field, rows: nat, cols: nat): (f: Field)
    requires IsGrid(g, rows, cols) && IsGrid(mass, rows, cols) && Positive(mass)
    ensures IsGrid(f, rows, cols)
  {
    Sweep(g, mass, rows, cols, Fill(rows, cols, 0.0), Cells(rows, cols))
  }

  // ---------------------------------------------------------------------
  // The whole tick

  /** The field after injection and extraction, which the flow step reads. */
  function PreFlow(g: Field, rows: nat, cols: nat, sources: seq<Coord>, exhausts: seq<Coord>, rate: real): (pre: Field)
    requires IsGrid(g, rows, cols)
    requires AllInBounds(sources, rows, cols) && AllInBounds(exhausts, rows, cols)
    ensures IsGrid(pre, rows, cols)
  {
    Extract(Inject(g, rows, cols, sources, rate), rows, cols, exhausts)
  }

  /** One tick: inject, extract, compute the flow buffer from that snapshot,
      then add the buffer to the field. */
  function Tick(g: Field, mass: Field, rows: nat, cols: nat,
                sources: seq<Coord>, exhausts: seq<Coord>, rate: real): (g': Field)
    requires IsGrid(g, rows, cols) && IsGrid(mass, rows, cols) && Positive(mass)
    requires AllInBounds(sources, rows, cols) && AllInBounds(exhausts, rows, cols)
    ensures IsGrid(g', rows, cols)
  {
    var pre := PreFlow(g, rows, cols, sources, exhausts, rate);
    Add(pre, FlowState(pre, mass, rows, cols))
  }

  // ---------------------------------------------------------------------
  // Properties of the tick

  /** Each transferred amount is positive and at most half the difference;
      with a single downhill neighbour it is exactly half. */
  lemma ShareBounds(drop: real, k: nat)
    requires drop > 0.0 && k >= 1
    ensures 0.0 < Share(drop, k) <= drop / 2.0
    ensures k == 1 ==> Share(drop, k) == drop / 2.0
  {
    var d := (k + 1) as real;
    assert d >= 2.0;
    assert Share(drop, k) * d == drop;
    assert Share(drop, k) * 2.0 <= Share(drop, k) * d;
  }

  lemma MassTimesQuotient(m: real, x: real)
    requires m != 0.0
    ensures m * (x / m) == x
    ensures m * -(x / m) == -x
  {
  }

  /** Adding `x` over the cell's own mass adds exactly `x` to the heat content. */
  lemma WeightedAddQuotient(m: Field, g: Field, rows: nat, cols: nat, p: Coord, x: real, neg: bool)
    requires IsGrid(m, rows, cols) && IsGrid(g, rows, cols) && Positive(m) && InBounds(p, rows, cols)
    ensures var d := if neg then -(x / At(m, p)) else x / At(m, p);
            Weighted(m, AddAt(g, p, d)) == Weighted(m, g) + (if neg then -x else x)
  {
    var mp := m[p.0][p.1];
    var d := if neg then -(x / At(m, p)) else x / At(m, p);
    WeightedAddAt(m, g, p, d);
    MassTimesQuotient(mp, x);
  }

  /** Posting one flow leaves the mass-weighted heat content unchanged:
      what the target gains times its mass equals what the sender loses
      times its mass. */
  lemma PostConserves(buf: Field, mass: Field, rows: nat, cols: nat, p: Coord, f: Flow, k: nat)
    requires IsGrid(buf, rows, cols) && IsGrid(mass, rows, cols) && Positive(mass)
    requires InBounds(p, rows, cols) && InBounds(f.to, rows, cols)
    ensures Weighted(mass, Post(buf, mass, rows, cols, p, f, k)) == Weighted(mass, buf)
  {
    var change := Share(f.drop, k);
    var b1 := AddAt(buf, f.to, change / At(mass, f.to));
    WeightedAddQuotient(mass, buf, rows, cols, f.to, change, false);
    WeightedAddQuotient(mass, b1, rows, cols, p, change, true);
  }

  lemma {:induction false} SpreadConserves(buf: Field, mass: Field, rows: nat, cols: nat, p: Coord,
                                           fl: seq<Flow>, k: nat)
    requires IsGrid(buf, rows, cols) && IsGrid(mass, rows, cols) && Positive(mass)
    requires InBounds(p, rows, cols) && AllInBounds(Targets(fl), rows, cols)
    ensures Weighted(mass, Spread(buf, mass, rows, cols, p, fl, k)) == Weighted(mass, buf)
    decreases |fl|
  {
    if |fl| > 0 {
      assert Targets(fl[1..]) == Targets(fl)[1..];
      PostConserves(buf, mass, rows, cols, p, fl[0], k);
      SpreadConserves(Post(buf, mass, rows, cols, p, fl[0], k), mass, rows, cols, p, fl[1..], k);
    }
  }

  lemma {:induction false} SweepConserves(g: Field, mass: Field, rows: nat, cols: nat, buf: Field,
                                          cells: seq<Coord>)
    requires IsGrid(g, rows, cols) && IsGrid(mass, rows, cols) && IsGrid(buf, rows, cols)
    requires Positive(mass) && AllInBounds(cells, rows, cols)
    ensures Weighted(mass, Sweep(g, mass, rows, cols, buf, cells)) == Weighted(mass, buf)
    decreases |cells|
  {
    if |cells| > 0 {
      var p := cells[0];
      var fl := CellFlows(g, rows, cols, p);
      if |fl| > 0 {
        SpreadConserves(buf, mass, rows, cols, p, fl, |fl|);
      }
      SweepConserves(g, mass, rows, cols, CellStep(g, mass, rows, cols, buf, p), cells[1..]);
    }
  }

  /** The flow buffer carries no net heat: the sum over all cells of mass
      times change is zero. */
  lemma FlowStateConserves(g: Field, mass: Field, rows: nat, cols: nat)
    requires IsGrid(g, rows, cols) && IsGrid(mass, rows, cols) && Positive(mass)
    ensures Weighted(mass, FlowState(g, mass, rows, cols)) == 0.0
  {
    var z := Fill(rows, cols, 0.0);
    WeightedZero(mass, z);
    SweepConserves(g, mass, rows, cols, z, Cells(rows, cols));
  }

  /** Committing the flow buffer preserves the mass-weighted heat content
      the field had after injection and extraction. */
  lemma TickConserves(g: Field, mass: Field, rows: nat, cols: nat,
                      sources: seq<Coord>, exhausts: seq<Coord>, rate: real)
    requires IsGrid(g, rows, cols) && IsGrid(mass, rows, cols) && Positive(mass)
    requires AllInBounds(sources, rows, cols) && AllInBounds(exhausts, rows, cols)
    ensures Weighted(mass, Tick(g, mass, rows, cols, sources, exhausts, rate))
            == Weighted(mass, PreFlow(g, rows, cols, sources, exhausts, rate))
  {
    var pre := PreFlow(g, rows, cols, sources, exhausts, rate);
    var f := FlowState(pre, mass, rows, cols);
    FlowStateConserves(pre, mass, rows, cols);
    WeightedSum(mass, pre, f, Add(pre, f));
  }

  /** Without sources or exhausts a tick conserves mass-weighted heat. */
  lemma TickConservesClosed(g: Field, mass: Field, rows: nat, cols: nat, rate: real)
    requires IsGrid(g, rows, cols) && IsGrid(mass, rows, cols) && Positive(mass)
    ensures Weighted(mass, Tick(g, mass, rows, cols, [], [], rate)) == Weighted(mass, g)
  {
    TickConserves(g, mass, rows, cols, [], [], rate);
  }

  /** With duplicate-free lists, injection fully precedes extraction: a cell
      holds its value plus `rate` if it is a source, and that sum is then
      halved if it is an exhaust. */
  lemma InjectThenExtract(g: Field, rows: nat, cols: nat, sources: seq<Coord>, exhausts: seq<Coord>,
                          rate: real, x: Coord)
    requires IsGrid(g, rows, cols) && InBounds(x, rows, cols)
    requires AllInBounds(sources, rows, cols) && AllInBounds(exhausts, rows, cols)
    requires NoDup(sources) && NoDup(exhausts)
    ensures At(PreFlow(g, rows, cols, sources, exhausts, rate), x)
            == (At(g, x) + (if x in sources then rate else 0.0))
               / (if x in exhausts then 2.0 else 1.0)
  {
    if x in sources {
      MultisetCountNoDup(sources, IndexOf(sources, x));
    }
    if x in exhausts {
      MultisetCountNoDup(exhausts, IndexOf(exhausts, x));
    }
  }

  /** The share `fl` delivers to one of its targets, when targets are distinct. */
  lemma {:induction false} ReceivedUnique(fl: seq<Flow>, k: nat, i: nat)
    requires NoDup(Targets(fl)) && i < |fl|
    ensures Received(fl, k, fl[i].to) == Share(fl[i].drop, k)
  {
    assert Targets(fl[1..]) == Targets(fl)[1..];
    if i == 0 {
      ReceivedAbsent(fl[1..], k, fl[0].to);
    } else {
      assert Targets(fl)[0] != Targets(fl)[i];
      ReceivedUnique(fl[1..], k, i - 1);
    }
  }

  /** A cell that is no target of `fl` receives nothing from it. */
  lemma {:induction false} ReceivedAbsent(fl: seq<Flow>, k: nat, x: Coord)
    requires x !in Targets(fl)
    ensures Received(fl, k, x) == 0.0
  {
    if |fl| > 0 {
      assert Targets(fl[1..]) == Targets(fl)[1..];
      assert Targets(fl)[0] == fl[0].to;
      ReceivedAbsent(fl[1..], k, x);
    }
  }

  /** What cell `p` adds to cell `x` of the buffer in one tick (negative
      when it is `p` itself giving heat away). */
  function Contribution(g: Field, mass: Field, rows: nat, cols: nat, p: Coord, x: Coord): real
    requires IsGrid(g, rows, cols) && IsGrid(mass, rows, cols) && Positive(mass)
    requires InBounds(p, rows, cols) && InBounds(x, rows, cols)
  {
    var fl := CellFlows(g, rows, cols, p);
    var k := |fl|;
    if k == 0 then 0.0
    else Received(fl, k, x) / At(mass, x) - (if x == p then Sent(fl, k) / At(mass, x) else 0.0)
  }

  lemma CellStepAt(g: Field, mass: Field, rows: nat, cols: nat, buf: Field, p: Coord, x: Coord)
    requires IsGrid(g, rows, cols) && IsGrid(mass, rows, cols) && IsGrid(buf, rows, cols)
    requires Positive(mass) && InBounds(p, rows, cols) && InBounds(x, rows, cols)
    ensures At(CellStep(g, mass, rows, cols, buf, p), x)
            == At(buf, x) + Contribution(g, mass, rows, cols, p, x)
  {
    var fl := CellFlows(g, rows, cols, p);
    if |fl| > 0 {
      SpreadAt(buf, mass, rows, cols, p, fl, |fl|, x);
    }
  }

  /** A neighbour strictly colder than `p` is among `p`'s downhill flows,
      so `p` has at least one. */
  lemma ColderNeighbourFlows(g: Field, rows: nat, cols: nat, p: Coord, n: Coord)
    requires IsGrid(g, rows, cols) && InBounds(p, rows, cols)
    requires n in Neighbours(rows, cols, p.0, p.1) && At(g, n) < At(g, p)
    ensures n in Targets(CellFlows(g, rows, cols, p))
    ensures |CellFlows(g, rows, cols, p)| >= 1
  {
  }

  /** The per-transfer amount: a neighbour `n` strictly colder than `p`
      gains (T - Tn)/(k+1) over its own mass from `p`'s flow step, where k
      is the number of strictly colder neighbours of `p`. */
  lemma TransferAmount(g: Field, mass: Field, rows: nat, cols: nat, buf: Field, p: Coord, n: Coord)
    requires IsGrid(g, rows, cols) && IsGrid(mass, rows, cols) && IsGrid(buf, rows, cols)
    requires Positive(mass) && InBounds(p, rows, cols)
    requires n in Neighbours(rows, cols, p.0, p.1) && At(g, n) < At(g, p)
    ensures At(CellStep(g, mass, rows, cols, buf, p), n)
            == At(buf, n) + Share(At(g, p) - At(g, n), |CellFlows(g, rows, cols, p)|) / At(mass, n)
  {
    var fl := CellFlows(g, rows, cols, p);
    var k := |fl|;
    ColderNeighbourFlows(g, rows, cols, p, n);
    CellStepAt(g, mass, rows, cols, buf, p, n);
    var i :| 0 <= i < k && Targets(fl)[i] == n;
    ReceivedUnique(fl, k, i);
    assert fl[i].to == n;
    var drop := fl[i].drop;
    assert drop == At(g, p) - At(g, n);
    assert Received(fl, k, n) == Share(drop, k);
    assert n != p;
  }

  /** The transferred amount is positive and at most half the difference;
      with exactly one colder neighbour it is exactly half. */
  lemma TransferBounds(g: Field, rows: nat, cols: nat, p: Coord, n: Coord)
    requires IsGrid(g, rows, cols) && InBounds(p, rows, cols)
    requires n in Neighbours(rows, cols, p.0, p.1) && At(g, n) < At(g, p)
    ensures var k := |CellFlows(g, rows, cols, p)|;
            var amount := Share(At(g, p) - At(g, n), k);
            && 0.0 < amount <= (At(g, p) - At(g, n)) / 2.0
            && (k == 1 ==> amount == (At(g, p) - At(g, n)) / 2.0)
  {
    ColderNeighbourFlows(g, rows, cols, p, n);
    ShareBounds(At(g, p) - At(g, n), |CellFlows(g, rows, cols, p)|);
  }

  lemma SpreadSender(buf: Field, mass: Field, rows: nat, cols: nat, p: Coord, fl: seq<Flow>, k: nat)
    requires IsGrid(buf, rows, cols) && IsGrid(mass, rows, cols) && Positive(mass)
    requires InBounds(p, rows, cols) && AllInBounds(Targets(fl), rows, cols) && p !in Targets(fl)
    ensures At(Spread(buf, mass, rows, cols, p, fl, k), p) == At(buf, p) - Sent(fl, k) / At(mass, p)
  {
    ReceivedAbsent(fl, k, p);
    SpreadAt(buf, mass, rows, cols, p, fl, k, p);
    NothingReceived(At(buf, p), At(Spread(buf, mass, rows, cols, p, fl, k), p),
                    Received(fl, k, p), Sent(fl, k), At(mass, p));
  }

  lemma NothingReceived(before: real, after: real, got: real, sent: real, m: real)
    requires m != 0.0 && got == 0.0
    requires after == before + got / m - sent / m
    ensures after == before - sent / m
  {
  }

  /** The sending cell loses the sum of its shares over its own mass (and
      nothing when it has no colder neighbour). */
  lemma SenderLoses(g: Field, mass: Field, rows: nat, cols: nat, buf: Field, p: Coord)
    requires IsGrid(g, rows, cols) && IsGrid(mass, rows, cols) && IsGrid(buf, rows, cols)
    requires Positive(mass) && InBounds(p, rows, cols)
    ensures At(CellStep(g, mass, rows, cols, buf, p), p)
            == At(buf, p) - Sent(CellFlows(g, rows, cols, p), |CellFlows(g, rows, cols, p)|) / At(mass, p)
  {
    var fl := CellFlows(g, rows, cols, p);
    if |fl| > 0 {
      assert p !in Targets(fl);
      SpreadSender(buf, mass, rows, cols, p, fl, |fl|);
    } else {
      assert Sent(fl, |fl|) / At(mass, p) == 0.0;
    }
  }

  lemma CellStepElsewhere(g: Field, mass: Field, rows: nat, cols: nat, buf: Field, p: Coord, x: Coord)
    requires IsGrid(g, rows, cols) && IsGrid(mass, rows, cols) && IsGrid(buf, rows, cols)
    requires Positive(mass) && InBounds(p, rows, cols) && InBounds(x, rows, cols)
    requires x != p
    requires x !in Neighbours(rows, cols, p.0, p.1) || At(g, x) >= At(g, p)
    ensures At(CellStep(g, mass, rows, cols, buf, p), x) == At(buf, x)
  {
    var fl := CellFlows(g, rows, cols, p);
    var k := |fl|;
    CellStepAt(g, mass, rows, cols, buf, p, x);
    if k > 0 {
      assert x !in Targets(fl) by {
        if x in Neighbours(rows, cols, p.0, p.1) {
          assert At(g, x) >= At(g, p);
        } else {
          assert forall i :: 0 <= i < k ==> Targets(fl)[i] in Neighbours(rows, cols, p.0, p.1);
        }
      }
      ReceivedAbsent(fl, k, x);
      assert Contribution(g, mass, rows, cols, p, x) == 0.0 / At(mass, x);
    }
  }

  /** A cell with no strictly colder neighbour posts nothing at all. */
  lemma NoDownhillNoFlow(g: Field, mass: Field, rows: nat, cols: nat, buf: Field, p: Coord)
    requires IsGrid(g, rows, cols) && IsGrid(mass, rows, cols) && IsGrid(buf, rows, cols)
    requires Positive(mass) && InBounds(p, rows, cols)
    requires forall n :: n in Neighbours(rows, cols, p.0, p.1) ==> At(g, n) >= At(g, p)
    ensures CellFlows(g, rows, cols, p) == []
    ensures CellStep(g, mass, rows, cols, buf, p) == buf
  {
    DownhillNone(g, rows, cols, p, Neighbours(rows, cols, p.0, p.1));
  }

  lemma {:induction false} DownhillNone(g: Field, rows: nat, cols: nat, p: Coord, ns: seq<Coord>)
    requires IsGrid(g, rows, cols) && InBounds(p, rows, cols) && AllInBounds(ns, rows, cols)
    requires forall n :: n in ns ==> At(g, n) >= At(g, p)
    ensures Downhill(g, rows, cols, p, ns) == []
  {
    if |ns| > 0 {
      assert ns[0] in ns;
      DownhillNone(g, rows, cols, p, ns[1..]);
    }
  }

  /** Sum of the contributions of `cells` to cell `x`. */
  function SumContributions(g: Field, mass: Field, rows: nat, cols: nat, cells: seq<Coord>, x: Coord): real
    requires IsGrid(g, rows, cols) && IsGrid(mass, rows, cols) && Positive(mass)
    requires AllInBounds(cells, rows, cols) && InBounds(x, rows, cols)
  {
    if |cells| == 0 then 0.0
    else Contribution(g, mass, rows, cols, cells[0], x) + SumContributions(g, mass, rows, cols, cells[1..], x)
  }

  /** Snapshot semantics: every cell's flows are computed from the same
      field `g`, so the swept buffer is the starting buffer plus the sum of
      the independent per-cell contributions, whatever the visiting order. */
  lemma {:induction false} SweepAt(g: Field, mass: Field, rows: nat, cols: nat, buf: Field,
                                   cells: seq<Coord>, x: Coord)
    requires IsGrid(g, rows, cols) && IsGrid(mass, rows, cols) && IsGrid(buf, rows, cols)
    requires Positive(mass) && AllInBounds(cells, rows, cols) && InBounds(x, rows, cols)
    ensures At(Sweep(g, mass, rows, cols, buf, cells), x)
            == At(buf, x) + SumContributions(g, mass, rows, cols, cells, x)
    decreases |cells|
  {
    if |cells| > 0 {
      CellStepAt(g, mass, rows, cols, buf, cells[0], x);
      SweepAt(g, mass, rows, cols, CellStep(g, mass, rows, cols, buf, cells[0]), cells[1..], x);
    }
  }

  /** Every cell of `g` holds the same temperature. */
  predicate Uniform(g: Field) {
    forall r, c, r', c' :: 0 <= r < |g| && 0 <= c < |g[r]| && 0 <= r' < |g| && 0 <= c' < |g[r']|
                           ==> g[r][c] == g[r'][c']
  }

  lemma {:induction false} SweepUniform(g: Field, mass: Field, rows: nat, cols: nat, buf: Field,
                                        cells: seq<Coord>)
    requires IsGrid(g, rows, cols) && IsGrid(mass, rows, cols) && IsGrid(buf, rows, cols)
    requires Positive(mass) && AllInBounds(cells, rows, cols) && Uniform(g)
    ensures Sweep(g, mass, rows, cols, buf, cells) == buf
    decreases |cells|
  {
    if |cells| > 0 {
      var p := cells[0];
      forall n | n in Neighbours(rows, cols, p.0, p.1)
        ensures At(g, n) >= At(g, p)
      {
        assert g[n.0][n.1] == g[p.0][p.1];
      }
      NoDownhillNoFlow(g, mass, rows, cols, buf, p);
      SweepUniform(g, mass, rows, cols, buf, cells[1..]);
    }
  }

  /** A uniform field has no strictly colder neighbour anywhere, so its
      flow buffer is zero everywhere. */
  lemma FlowStateUniform(g: Field, mass: Field, rows: nat, cols: nat)
    requires IsGrid(g, rows, cols) && IsGrid(mass, rows, cols) && Positive(mass) && Uniform(g)
    ensures FlowState(g, mass, rows, cols) == Fill(rows, cols, 0.0)
  {
    SweepUniform(g, mass, rows, cols, Fill(rows, cols, 0.0), Cells(rows, cols));
  }

  /** With no sources, no exhausts and a uniform field, a tick changes
      nothing. */
  lemma TickUniform(g: Field, mass: Field, rows: nat, cols: nat, rate: real)
    requires IsGrid(g, rows, cols) && IsGrid(mass, rows, cols) && Positive(mass) && Uniform(g)
    ensures Tick(g, mass, rows, cols, [], [], rate) == g
  {
    var pre := PreFlow(g, rows, cols, [], [], rate);
    assert pre == g by {
      assert forall r, c :: 0 <= r < rows && 0 <= c < cols ==> pre[r][c] == g[r][c];
    }
    FlowStateUniform(g, mass, rows, cols);
    var t := Tick(g, mass, rows, cols, [], [], rate);
    assert forall r, c :: 0 <= r < rows && 0 <= c < cols ==> t[r][c] == g[r][c];
    assert forall r :: 0 <= r < rows ==> t[r] == g[r];
  }
}
