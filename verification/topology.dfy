/** The neighbour topology: for every cell, its in-bounds axis-aligned
    neighbours, without diagonals and without wrap-around. */
module Topology {
  import opened Grid
  import opened Lists

  /** `p` and `q` differ by exactly 1 in exactly one coordinate. */
  predicate Adjacent(p: Coord, q: Coord) {
    (p.0 == q.0 && (p.1 - q.1 == 1 || q.1 - p.1 == 1))
    || (p.1 == q.1 && (p.0 - q.0 == 1 || q.0 - p.0 == 1))
  }

  /** 1 if `b` holds, 0 otherwise. */
  function Ind(b: bool): nat {
    if b then 1 else 0
  }

  /** The neighbour list of (r, c), tried in the order right, left, down, up,
      each kept only when it lies inside the grid. */
  function Neighbours(rows: nat, cols: nat, r: int, c: int): (ns: seq<Coord>)
    requires InBounds((r, c), rows, cols)
    ensures forall q :: q in ns <==> InBounds(q, rows, cols) && Adjacent((r, c), q)
    ensures (r, c) !in ns
    ensures NoDup(ns)
    ensures |ns| == Ind(c + 1 < cols) + Ind(c > 0) + Ind(r + 1 < rows) + Ind(r > 0)
  {
    (if c + 1 < cols then [(r, c + 1)] else [])
    + (if c - 1 >= 0 then [(r, c - 1)] else [])
    + (if r + 1 < rows then [(r + 1, c)] else [])
    + (if r - 1 >= 0 then [(r - 1, c)] else [])
  }

  /** The four candidates of (r, c) in the source's order: right, left, down, up. */
  function Candidates(r: int, c: int): seq<Coord> {
    [(r, c + 1), (r, c - 1), (r + 1, c), (r - 1, c)]
  }

  /** The elements of `cands` inside the grid, in their original order. */
  function KeepInBounds(cands: seq<Coord>, rows: nat, cols: nat): seq<Coord>
  {
    if |cands| == 0 then []
    else (if InBounds(cands[0], rows, cols) then [cands[0]] else [])
         + KeepInBounds(cands[1..], rows, cols)
  }

  /** The neighbour list is exactly the candidate list right, left, down, up
      filtered by the grid bounds, in that order. */
  lemma NeighbourOrder(rows: nat, cols: nat, r: int, c: int)
    requires InBounds((r, c), rows, cols)
    ensures Neighbours(rows, cols, r, c) == KeepInBounds(Candidates(r, c), rows, cols)
  {
    var a := if c + 1 < cols then [(r, c + 1)] else [];
    var b := if c - 1 >= 0 then [(r, c - 1)] else [];
    var d := if r + 1 < rows then [(r + 1, c)] else [];
    var u := if r - 1 >= 0 then [(r - 1, c)] else [];
    var s3 := [(r - 1, c)];
    var s2 := [(r + 1, c)] + s3;
    var s1 := [(r, c - 1)] + s2;
    var s0 := [(r, c + 1)] + s1;
    assert Candidates(r, c) == s0;
    KeepCons((r - 1, c), [], rows, cols);
    assert s3 == [(r - 1, c)] + [];
    assert KeepInBounds(s3, rows, cols) == u;
    KeepCons((r + 1, c), s3, rows, cols);
    assert KeepInBounds(s2, rows, cols) == d + u;
    KeepCons((r, c - 1), s2, rows, cols);
    assert KeepInBounds(s1, rows, cols) == b + (d + u);
    KeepCons((r, c + 1), s1, rows, cols);
    assert KeepInBounds(s0, rows, cols) == a + (b + (d + u));
    assert a + (b + (d + u)) == a + b + d + u;
  }

  /** Filtering a list with a head is the head's verdict followed by the
      filtered tail. */
  lemma KeepCons(x: Coord, rest: seq<Coord>, rows: nat, cols: nat)
    ensures KeepInBounds([x] + rest, rows, cols)
            == (if InBounds(x, rows, cols) then [x] else []) + KeepInBounds(rest, rows, cols)
  {
    assert ([x] + rest)[1..] == rest;
  }

  /** Interior cells have four neighbours, edge cells three and corner cells
      two (for grids at least two cells wide and tall). */
  lemma NeighbourCount(rows: nat, cols: nat, r: int, c: int)
    requires InBounds((r, c), rows, cols) && rows >= 2 && cols >= 2
    ensures var onRowEdge := r == 0 || r == rows - 1;
            var onColEdge := c == 0 || c == cols - 1;
            |Neighbours(rows, cols, r, c)|
            == if onRowEdge && onColEdge then 2
               else if onRowEdge || onColEdge then 3
               else 4
  {
  }

  /** Adjacency is symmetric: q is a neighbour of p exactly when p is a
      neighbour of q. */
  lemma NeighbourSymmetric(rows: nat, cols: nat, p: Coord, q: Coord)
    requires InBounds(p, rows, cols) && InBounds(q, rows, cols)
    ensures q in Neighbours(rows, cols, p.0, p.1) <==> p in Neighbours(rows, cols, q.0, q.1)
  {
  }

  /** The table `neighbours[r][c]` that the simulation consults. */
  function NeighbourTable(rows: nat, cols: nat): (t: seq<seq<seq<Coord>>>)
    ensures IsGrid(t, rows, cols)
    ensures forall r, c :: 0 <= r < rows && 0 <= c < cols ==>
              t[r][c] == Neighbours(rows, cols, r, c)
  {
    seq(rows, r requires 0 <= r < rows =>
      seq(cols, c requires 0 <= c < cols => Neighbours(rows, cols, r, c)))
  }

  /** Builds the neighbour table row by row, one cell at a time, appending
      right, left, down and up neighbours when they are inside the grid. */
  method GenNeighbours(rows: nat, cols: nat) returns (table: seq<seq<seq<Coord>>>)
    ensures table == NeighbourTable(rows, cols)
  {
    table := [];
    var r := 0;
    while r < rows
      invariant 0 <= r <= rows
      invariant |table| == r
      invariant forall i :: 0 <= i < r ==> table[i] == NeighbourTable(rows, cols)[i]
    {
      var row: seq<seq<Coord>> := [];
      var c := 0;
      while c < cols
        invariant 0 <= c <= cols
        invariant |row| == c
        invariant forall j :: 0 <= j < c ==> row[j] == Neighbours(rows, cols, r, j)
      {
        var ns: seq<Coord> := [];
        if c + 1 < cols {
          ns := ns + [(r, c + 1)];
        }
        if c - 1 >= 0 {
          ns := ns + [(r, c - 1)];
        }
        if r + 1 < rows {
          ns := ns + [(r + 1, c)];
        }
        if r - 1 >= 0 {
          ns := ns + [(r - 1, c)];
        }
        row := row + [ns];
        c := c + 1;
      }
      table := table + [row];
      r := r + 1;
    }
  }
}
