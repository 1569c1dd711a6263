/** Dense rectangular grids addressed by (row, column), and the row-major
    enumeration of their cells.  The simulation keeps every per-cell field
    (temperature, thermal mass, source/sink markers) in such a grid. */
module Grid {

  /** A cell address: (row, column). */
  type Coord = (int, int)

  /** `p` addresses a cell of a `rows` x `cols` grid. */
  predicate InBounds(p: Coord, rows: int, cols: int) {
    0 <= p.0 < rows && 0 <= p.1 < cols
  }

  /** `g` has exactly `rows` rows of exactly `cols` cells each. */
  predicate IsGrid<T>(g: seq<seq<T>>, rows: nat, cols: nat) {
    |g| == rows && forall r :: 0 <= r < rows ==> |g[r]| == cols
  }

  /** `p` addresses a cell of `g`. */
  predicate InGrid<T>(g: seq<seq<T>>, p: Coord) {
    0 <= p.0 < |g| && 0 <= p.1 < |g[p.0]|
  }

  /** The value held at `p`. */
  function At<T>(g: seq<seq<T>>, p: Coord): T
    requires InGrid(g, p)
  {
    g[p.0][p.1]
  }

  /** A `rows` x `cols` grid holding `v` everywhere. */
  function Fill<T>(rows: nat, cols: nat, v: T): (g: seq<seq<T>>)
    ensures IsGrid(g, rows, cols)
    ensures forall r, c :: 0 <= r < rows && 0 <= c < cols ==> g[r][c] == v
  {
    seq(rows, _ => seq(cols, _ => v))
  }

  /** `g` with the cell at `p` replaced by `v`. */
  function Update<T>(g: seq<seq<T>>, p: Coord, v: T): (g': seq<seq<T>>)
    requires InGrid(g, p)
    ensures |g'| == |g| && forall r :: 0 <= r < |g| ==> |g'[r]| == |g[r]|
    ensures forall r, c :: 0 <= r < |g| && 0 <= c < |g[r]| ==>
              g'[r][c] == if (r, c) == p then v else g[r][c]
  {
    g[p.0 := g[p.0][p.1 := v]]
  }

  /** `g` with `d` added to the cell at `p` (numpy's `a[r][c] += d`). */
  function AddAt(g: seq<seq<real>>, p: Coord, d: real): (g': seq<seq<real>>)
    requires InGrid(g, p)
    ensures |g'| == |g| && forall r :: 0 <= r < |g| ==> |g'[r]| == |g[r]|
    ensures forall r, c :: 0 <= r < |g| && 0 <= c < |g[r]| ==>
              g'[r][c] == if (r, c) == p then g[r][c] + d else g[r][c]
  {
    Update(g, p, At(g, p) + d)
  }

  /** Elementwise sum of two grids of one shape (numpy's `np.add`). */
  function Add(a: seq<seq<real>>, b: seq<seq<real>>): (s: seq<seq<real>>)
    requires |a| == |b| && forall r :: 0 <= r < |a| ==> |a[r]| == |b[r]|
    ensures |s| == |a| && forall r :: 0 <= r < |a| ==> |s[r]| == |a[r]|
    ensures forall r, c :: 0 <= r < |a| && 0 <= c < |a[r]| ==> s[r][c] == a[r][c] + b[r][c]
  {
    seq(|a|, r requires 0 <= r < |a| => seq(|a[r]|, c requires 0 <= c < |a[r]| => a[r][c] + b[r][c]))
  }

  /** The cells (r, 0), (r, 1), ..., (r, cols - 1). */
  function RowCells(r: int, cols: nat): seq<Coord> {
    seq(cols, c => (r, c))
  }

  /** Rows `r` .. `rows - 1`, each row left to right. */
  function CellsFrom(r: nat, rows: nat, cols: nat): seq<Coord>
    decreases rows - r
  {
    if r >= rows then [] else RowCells(r, cols) + CellsFrom(r + 1, rows, cols)
  }

  /** Every cell once, in the row-major order of a nested
      `for r ... for c ...` loop. */
  function Cells(rows: nat, cols: nat): (cs: seq<Coord>)
    ensures forall p :: p in cs <==> InBounds(p, rows, cols)
    ensures forall i, j :: 0 <= i < j < |cs| ==> cs[i] != cs[j]
    ensures forall i, j :: 0 <= i < j < |cs| ==>
              cs[i].0 < cs[j].0 || (cs[i].0 == cs[j].0 && cs[i].1 < cs[j].1)
  {
    CellsFromFacts(0, rows, cols);
    CellsFrom(0, rows, cols)
  }

  lemma {:induction false} CellsFromFacts(r: nat, rows: nat, cols: nat)
    ensures forall p :: p in CellsFrom(r, rows, cols) <==> r <= p.0 < rows && 0 <= p.1 < cols
    ensures forall i, j :: 0 <= i < j < |CellsFrom(r, rows, cols)| ==>
              CellsFrom(r, rows, cols)[i].0 < CellsFrom(r, rows, cols)[j].0
              || (CellsFrom(r, rows, cols)[i].0 == CellsFrom(r, rows, cols)[j].0
                  && CellsFrom(r, rows, cols)[i].1 < CellsFrom(r, rows, cols)[j].1)
    decreases rows - r
  {
    if r < rows {
      CellsFromFacts(r + 1, rows, cols);
      var row := RowCells(r, cols);
      var rest := CellsFrom(r + 1, rows, cols);
      assert CellsFrom(r, rows, cols) == row + rest;
      forall p: Coord
        ensures p in row + rest <==> r <= p.0 < rows && 0 <= p.1 < cols
      {
        if p.0 == r && 0 <= p.1 < cols {
          assert row[p.1] == p;
        }
      }
      forall i, j | 0 <= i < j < |row + rest|
        ensures (row + rest)[i].0 < (row + rest)[j].0
                || ((row + rest)[i].0 == (row + rest)[j].0 && (row + rest)[i].1 < (row + rest)[j].1)
      {
        if j >= |row| && i < |row| {
          assert (row + rest)[j] in rest;
        }
      }
    }
  }
}
