/**
 * The grid generator of app.py (`create_grid`): an extent (minx, miny, maxx, maxy)
 * is tiled by squares of side g. The outer loop steps x from minx, the inner loop
 * steps y from miny, and each loop keeps going while the cell's ORIGIN lies
 * strictly below the far edge, so the last column and row may overshoot the extent.
 *
 * Coordinates are exact reals: the floating-point drift of repeated `x += g`
 * is not modelled.
 */
module Grid {

  datatype Point = Point(x: real, y: real)

  /** The bounding box (minx, miny, maxx, maxy) handed to the generator. */
  datatype Extent = Extent(minX: real, minY: real, maxX: real, maxY: real)

  /** A square grid cell: its lower-left corner and its side length. */
  datatype Cell = Cell(origin: Point, side: real)

  /** A polygon given by its vertex ring, as the source hands it to `Polygon([...])`. */
  type Ring = seq<Point>

  /** The least integer that is not below r. */
  function Ceil(r: real): (n: int)
    ensures n as real >= r && (n - 1) as real < r
  {
    if r.Floor as real == r then r.Floor else r.Floor + 1
  }

  /**
   * The number of iterations of a loop that starts at lo and steps by g while the
   * counter is strictly below hi: ceil((hi - lo) / g) for a non-empty range, else 0.
   */
  function Steps(lo: real, hi: real, g: real): nat
    requires g > 0.0
  {
    if hi <= lo then 0 else Ceil((hi - lo) / g)
  }

  lemma MulMono(a: real, b: real, g: real)
    requires g > 0.0
    ensures a * g < b * g <==> a < b
  {
    if a < b {
      assert (b - a) * g > 0.0;
    } else {
      assert (a - b) * g >= 0.0;
    }
  }

  /**
   * The k-th value of a loop counter that starts at lo and is stepped by `+= g`.
   * Written as repeated addition, as the loop computes it; CoordIsProduct shows it is lo + k*g.
   */
  function Coord(lo: real, g: real, k: nat): real
  {
    if k == 0 then lo else Coord(lo, g, k - 1) + g
  }

  lemma {:induction false} CoordIsProduct(lo: real, g: real, k: nat)
    ensures Coord(lo, g, k) == lo + k as real * g
  {
    if k > 0 {
      CoordIsProduct(lo, g, k - 1);
    }
  }

  /** Counter values are strictly increasing, at least g apart. */
  lemma {:induction false} CoordMono(lo: real, g: real, k: nat, l: nat)
    requires g > 0.0 && k < l
    ensures Coord(lo, g, k) + g <= Coord(lo, g, l)
  {
    if k + 1 < l {
      CoordMono(lo, g, k, l - 1);
    }
  }

  /** The k-th counter value passes the loop test exactly when k < Steps(lo, hi, g). */
  lemma StepsExact(lo: real, hi: real, g: real, k: nat)
    requires g > 0.0
    ensures Coord(lo, g, k) < hi <==> k < Steps(lo, hi, g)
  {
    CoordIsProduct(lo, g, k);
    if hi <= lo {
      MulMono(0.0, k as real, g);
    } else {
      ScaledBelow(hi - lo, g, k);
    }
  }

  /** k steps of g stay below a positive distance d exactly when k < Ceil(d / g). */
  lemma ScaledBelow(d: real, g: real, k: nat)
    requires g > 0.0 && d > 0.0
    ensures k as real * g < d <==> k < Ceil(d / g)
  {
    var q := d / g;
    DivScale(d, g);
    assert q * g == d;
    StepsBelow(q, g, k);
    assert k as real * g < q * g <==> k as real * g < d;
  }

  /** k steps of g stay below q steps exactly when k < Ceil(q). */
  lemma StepsBelow(q: real, g: real, k: nat)
    requires g > 0.0
    ensures k as real * g < q * g <==> k < Ceil(q)
  {
    MulMono(k as real, q, g);
    CeilBound(q, k);
  }

  lemma DivScale(d: real, g: real)
    requires g > 0.0
    ensures (d / g) * g == d
  {
  }

  /** An integer is below q exactly when it is below Ceil(q). */
  lemma CeilBound(q: real, k: int)
    ensures k as real < q <==> k < Ceil(q)
  {
  }

  /** Number of columns (outer-loop iterations) and rows (inner-loop iterations). */
  function Cols(e: Extent, g: real): nat
    requires g > 0.0
  {
    Steps(e.minX, e.maxX, g)
  }

  function Rows(e: Extent, g: real): nat
    requires g > 0.0
  {
    Steps(e.minY, e.maxY, g)
  }

  /** The lattice cell in column i and row j: origin (minx + i*g, miny + j*g), side g. */
  function CellAt(e: Extent, g: real, i: nat, j: nat): Cell
  {
    Cell(Point(Coord(e.minX, g, i), Coord(e.minY, g, j)), g)
  }

  /** Column i of the lattice: one cell for every row the inner loop visits. */
  function Column(e: Extent, g: real, i: nat): seq<Cell>
    requires g > 0.0
  {
    seq(Rows(e, g), j requires 0 <= j => CellAt(e, g, i, j))
  }

  /** The first n columns, in the order the outer loop visits them. */
  function Columns(e: Extent, g: real, n: nat): seq<Cell>
    requires g > 0.0
  {
    if n == 0 then [] else Columns(e, g, n - 1) + Column(e, g, n - 1)
  }

  /** All cells that `create_grid` emits, outer x then inner y. */
  function Cells(e: Extent, g: real): seq<Cell>
    requires g > 0.0
  {
    Columns(e, g, Cols(e, g))
  }

  /** The vertex ring of a cell: (x,y), (x+s,y), (x+s,y+s), (x,y+s). */
  function Square(c: Cell): (r: Ring)
    ensures |r| == 4 && r[0] == c.origin
    ensures r[1].x - r[0].x == c.side && r[1].y == r[0].y
    ensures r[2].y - r[1].y == c.side && r[2].x == r[1].x
    ensures r[3].x - r[2].x == -c.side && r[3].y == r[2].y
    ensures r[0].y - r[3].y == -c.side && r[3].x == r[0].x
  {
    var x, y, s := c.origin.x, c.origin.y, c.side;
    [Point(x, y), Point(x + s, y), Point(x + s, y + s), Point(x, y + s)]
  }

  function Squares(cs: seq<Cell>): (r: seq<Ring>)
    ensures |r| == |cs|
  {
    seq(|cs|, k requires 0 <= k < |cs| => Square(cs[k]))
  }

  lemma SquaresSnoc(cs: seq<Cell>, c: Cell)
    ensures Squares(cs + [c]) == Squares(cs) + [Square(c)]
  {
    assert forall k :: 0 <= k < |cs| ==> (cs + [c])[k] == cs[k];
  }

  /**
   * `create_grid`: nested loops over x and y that append one square per cell.
   * The loops terminate exactly when g > 0 or the extent has no width (then the
   * outer test fails at once, whatever g is). The rings produced are the squares
   * of Cells(e, g), in that order; with no width there are none.
   */
  method CreateGrid(e: Extent, g: real) returns (polygons: seq<Ring>)
    requires g > 0.0 || e.maxX <= e.minX
    ensures g > 0.0 ==> polygons == Squares(Cells(e, g))
    ensures e.maxX <= e.minX ==> polygons == []
  {
    ghost var cols := if g > 0.0 then Cols(e, g) else 0;
    polygons := [];
    ghost var done: seq<Cell> := [];
    var x := e.minX;
    ghost var i: nat := 0;
    while x < e.maxX
      invariant i <= cols
      invariant x == Coord(e.minX, g, i)
      invariant g > 0.0 ==> done == Columns(e, g, i)
      invariant g <= 0.0 ==> i == 0 && done == []
      invariant polygons == Squares(done)
      decreases cols - i
    {
      assert g > 0.0;
      StepsExact(e.minX, e.maxX, g, i);
      ghost var rows := Rows(e, g);
      ghost var column := Column(e, g, i);
      var y := e.minY;
      ghost var j: nat := 0;
      while y < e.maxY
        invariant j <= rows
        invariant y == Coord(e.minY, g, j)
        invariant done == Columns(e, g, i) + column[..j]
        invariant polygons == Squares(done)
        decreases rows - j
      {
        StepsExact(e.minY, e.maxY, g, j);
        var ring := [Point(x, y), Point(x + g, y), Point(x + g, y + g), Point(x, y + g)];
        assert column[j] == Cell(Point(x, y), g);
        assert ring == Square(column[j]);
        SquaresSnoc(done, column[j]);
        polygons := polygons + [ring];
        done := done + [column[j]];
        assert column[..j + 1] == column[..j] + [column[j]];
        y := y + g;
        j := j + 1;
      }
      StepsExact(e.minY, e.maxY, g, j);
      assert column[..j] == column;
      x := x + g;
      i := i + 1;
    }
    if g > 0.0 {
      StepsExact(e.minX, e.maxX, g, i);
    }
    if e.maxX <= e.minX && g > 0.0 {
      CellCount(e, g);
    }
  }

  // ---------------------------------------------------------------------------
  // Properties of the emitted lattice
  // ---------------------------------------------------------------------------

  /** A point in the closed square of a cell. */
  predicate InClosed(p: Point, c: Cell)
  {
    c.origin.x <= p.x <= c.origin.x + c.side && c.origin.y <= p.y <= c.origin.y + c.side
  }

  /** A point in the open interior of a cell. */
  predicate InInterior(p: Point, c: Cell)
  {
    c.origin.x < p.x < c.origin.x + c.side && c.origin.y < p.y < c.origin.y + c.side
  }

  lemma MulLe(a: nat, b: nat, d: nat)
    requires a <= b
    ensures a * d <= b * d
  {
    assert (b - a) * d >= 0;
  }

  lemma MulPred(n: nat, d: nat)
    requires n > 0
    ensures (n - 1) * d + d == n * d
  {
  }

  /** (q*d + r) / d == q and (q*d + r) % d == r for 0 <= r < d. */
  lemma DivModUnique(q: nat, r: nat, d: nat)
    requires r < d
    ensures (q * d + r) / d == q && (q * d + r) % d == r
  {
    var a := q * d + r;
    var q', r' := a / d, a % d;
    assert a == q' * d + r' && 0 <= r' < d;
    if q' > q {
      MulLe(q + 1, q', d);
    } else if q' < q {
      MulLe(q' + 1, q, d);
    }
  }

  lemma {:induction false} ColumnsLength(e: Extent, g: real, n: nat)
    requires g > 0.0
    ensures |Columns(e, g, n)| == n * Rows(e, g)
  {
    if n > 0 {
      ColumnsLength(e, g, n - 1);
    }
  }

  lemma {:induction false} ColumnsAt(e: Extent, g: real, n: nat, k: nat)
    requires g > 0.0 && Rows(e, g) > 0
    requires k < n * Rows(e, g)
    ensures |Columns(e, g, n)| == n * Rows(e, g)
    ensures Columns(e, g, n)[k] == CellAt(e, g, k / Rows(e, g), k % Rows(e, g))
  {
    var rows := Rows(e, g);
    ColumnsLength(e, g, n);
    ColumnsLength(e, g, n - 1);
    if k < (n - 1) * rows {
      ColumnsAt(e, g, n - 1, k);
    } else {
      var j := k - (n - 1) * rows;
      MulPred(n, rows);
      DivModUnique(n - 1, j, rows);
      assert Columns(e, g, n)[k] == Column(e, g, n - 1)[j];
    }
  }

  /**
   * Count: the generator emits cols * rows cells, where cols = ceil((maxx - minx) / g)
   * and rows = ceil((maxy - miny) / g); an extent of zero (or negative) width or height
   * yields no cell at all.
   */
  lemma CellCount(e: Extent, g: real)
    requires g > 0.0
    ensures |Cells(e, g)| == Cols(e, g) * Rows(e, g)
    ensures e.maxX <= e.minX || e.maxY <= e.minY ==> Cells(e, g) == []
    ensures e.minX < e.maxX && e.minY < e.maxY ==>
              |Cells(e, g)| == Ceil((e.maxX - e.minX) / g) * Ceil((e.maxY - e.minY) / g)
  {
    ColumnsLength(e, g, Cols(e, g));
  }

  /** Column-major order: cell k is the one in column k / rows and row k % rows. */
  lemma CellIndex(e: Extent, g: real, k: nat)
    requires g > 0.0 && k < |Cells(e, g)|
    ensures Rows(e, g) > 0
    ensures k / Rows(e, g) < Cols(e, g) && k % Rows(e, g) < Rows(e, g)
    ensures Cells(e, g)[k] == CellAt(e, g, k / Rows(e, g), k % Rows(e, g))
  {
    var i, j := Decompose(e, g, k);
  }

  /** Cell k as column i and row j with k == i * rows + j. */
  lemma Decompose(e: Extent, g: real, k: nat) returns (i: nat, j: nat)
    requires g > 0.0 && k < |Cells(e, g)|
    ensures Rows(e, g) > 0 && i < Cols(e, g) && j < Rows(e, g)
    ensures i == k / Rows(e, g) && j == k % Rows(e, g) && k == i * Rows(e, g) + j
    ensures Cells(e, g)[k] == CellAt(e, g, i, j)
  {
    var cols, rows := Cols(e, g), Rows(e, g);
    CellCount(e, g);
    DivModSplit(k, cols, rows);
    ColumnsAt(e, g, cols, k);
    i, j := k / rows, k % rows;
  }

  /** An index below cols * rows splits into a column below cols and a row below rows. */
  lemma DivModSplit(k: nat, cols: nat, rows: nat)
    requires k < cols * rows
    ensures rows > 0 && k / rows < cols && k % rows < rows
    ensures k == (k / rows) * rows + k % rows
  {
    MulZero(cols, rows);
    if k / rows >= cols {
      MulLe(cols, k / rows, rows);
    }
  }

  lemma MulZero(a: nat, b: nat)
    ensures b == 0 ==> a * b == 0
  {
  }

  /** Positions i * rows + j compare lexicographically on (i, j). */
  lemma LexOfIndex(i: nat, j: nat, i': nat, j': nat, rows: nat)
    requires j < rows && j' < rows && i * rows + j < i' * rows + j'
    ensures i < i' || (i == i' && j < j')
  {
    if i' < i {
      MulLe(i' + 1, i, rows);
    }
  }

  /** The position of column i, row j in the emitted sequence is i * rows + j. */
  lemma CellPosition(e: Extent, g: real, i: nat, j: nat)
    requires g > 0.0 && i < Cols(e, g) && j < Rows(e, g)
    ensures i * Rows(e, g) + j < |Cells(e, g)|
    ensures Cells(e, g)[i * Rows(e, g) + j] == CellAt(e, g, i, j)
  {
    var rows := Rows(e, g);
    CellCount(e, g);
    MulLe(i + 1, Cols(e, g), rows);
    DivModUnique(i, j, rows);
    CellIndex(e, g, i * rows + j);
  }

  /**
   * Membership: a cell is emitted exactly when it is the lattice cell (minx + i*g, miny + j*g)
   * of some column i and row j whose origin lies strictly below (maxx, maxy).
   */
  lemma CellMembership(e: Extent, g: real, c: Cell)
    requires g > 0.0
    ensures c in Cells(e, g) <==>
              exists i: nat, j: nat :: c == CellAt(e, g, i, j)
                                       && Coord(e.minX, g, i) < e.maxX
                                       && Coord(e.minY, g, j) < e.maxY
  {
    if c in Cells(e, g) {
      var k :| 0 <= k < |Cells(e, g)| && Cells(e, g)[k] == c;
      var i, j := Decompose(e, g, k);
      StepsExact(e.minX, e.maxX, g, i);
      StepsExact(e.minY, e.maxY, g, j);
    }
    if exists i: nat, j: nat :: c == CellAt(e, g, i, j)
                                && Coord(e.minX, g, i) < e.maxX
                                && Coord(e.minY, g, j) < e.maxY {
      var i: nat, j: nat :| c == CellAt(e, g, i, j)
                            && Coord(e.minX, g, i) < e.maxX
                            && Coord(e.minY, g, j) < e.maxY;
      EmittedAt(e, g, i, j);
    }
  }

  /** A lattice cell whose column and row pass the loop tests is emitted. */
  lemma EmittedAt(e: Extent, g: real, i: nat, j: nat)
    requires g > 0.0 && Coord(e.minX, g, i) < e.maxX && Coord(e.minY, g, j) < e.maxY
    ensures CellAt(e, g, i, j) in Cells(e, g)
  {
    StepsExact(e.minX, e.maxX, g, i);
    StepsExact(e.minY, e.maxY, g, j);
    CellPosition(e, g, i, j);
  }

  /**
   * Order: cells come out with x strictly increasing from column to column and, within a
   * column, y strictly increasing (outer loop on x, inner loop on y). In particular no
   * cell is emitted twice.
   */
  lemma CellOrder(e: Extent, g: real, k: nat, l: nat)
    requires g > 0.0 && k < l < |Cells(e, g)|
    ensures var a, b := Cells(e, g)[k].origin, Cells(e, g)[l].origin;
            a.x < b.x || (a.x == b.x && a.y < b.y)
  {
    var i, j := Decompose(e, g, k);
    var i', j' := Decompose(e, g, l);
    LexOfIndex(i, j, i', j', Rows(e, g));
    if i == i' {
      CoordMono(e.minY, g, j, j');
    } else {
      CoordMono(e.minX, g, i, i');
    }
  }

  /**
   * Overshoot bound: every emitted origin lies in [minx, maxx) x [miny, maxy), so every
   * far corner is below (maxx + g, maxy + g); every cell has side g.
   */
  lemma CellBounds(e: Extent, g: real, k: nat)
    requires g > 0.0 && k < |Cells(e, g)|
    ensures var c := Cells(e, g)[k];
            && c.side == g
            && e.minX <= c.origin.x < e.maxX && e.minY <= c.origin.y < e.maxY
            && c.origin.x + c.side < e.maxX + g && c.origin.y + c.side < e.maxY + g
  {
    var rows := Rows(e, g);
    CellIndex(e, g, k);
    StepsExact(e.minX, e.maxX, g, k / rows);
    StepsExact(e.minY, e.maxY, g, k % rows);
    CoordIsProduct(e.minX, g, k / rows);
    CoordIsProduct(e.minY, g, k % rows);
    assert (k / rows) as real * g >= 0.0 && (k % rows) as real * g >= 0.0;
  }

  /** Counter value i is at most v when i <= (v - lo) / g. */
  lemma CoordAtMost(lo: real, g: real, v: real, i: nat)
    requires g > 0.0 && i as real <= (v - lo) / g
    ensures Coord(lo, g, i) <= v
  {
    var q := (v - lo) / g;
    assert q * g == v - lo;
    MulMono(q, i as real, g);
    CoordIsProduct(lo, g, i);
  }

  /** Counter value i is above v when (v - lo) / g < i. */
  lemma CoordAbove(lo: real, g: real, v: real, i: nat)
    requires g > 0.0 && (v - lo) / g < i as real
    ensures v < Coord(lo, g, i)
  {
    var q := (v - lo) / g;
    assert q * g == v - lo;
    MulMono(q, i as real, g);
    CoordIsProduct(lo, g, i);
  }

  /** The lattice index i with lo + i*g <= v <= lo + (i+1)*g and i < Steps(lo, hi, g). */
  lemma CoveringStep(lo: real, hi: real, g: real, v: real) returns (i: nat)
    requires g > 0.0 && lo < hi && lo <= v <= hi
    ensures i < Steps(lo, hi, g)
    ensures Coord(lo, g, i) <= v <= Coord(lo, g, i) + g
  {
    var n := Steps(lo, hi, g);
    StepsExact(lo, hi, g, 0);
    var f := ((v - lo) / g).Floor;
    if f < n {
      i := f;
      CoordAtMost(lo, g, v, i);
      CoordAbove(lo, g, v, i + 1);
    } else {
      i := n - 1;
      CoordAtMost(lo, g, v, i);
      StepsExact(lo, hi, g, n);
    }
  }

  /** Coverage: for a non-degenerate extent, every point of the closed extent lies in some closed cell. */
  lemma CoveringCell(e: Extent, g: real, p: Point) returns (k: nat)
    requires g > 0.0 && e.minX < e.maxX && e.minY < e.maxY
    requires e.minX <= p.x <= e.maxX && e.minY <= p.y <= e.maxY
    ensures k < |Cells(e, g)| && InClosed(p, Cells(e, g)[k])
  {
    var i := CoveringStep(e.minX, e.maxX, g, p.x);
    var j := CoveringStep(e.minY, e.maxY, g, p.y);
    CellPosition(e, g, i, j);
    k := i * Rows(e, g) + j;
  }

  /** Non-overlap: two distinct emitted cells have disjoint interiors. */
  lemma InteriorsDisjoint(e: Extent, g: real, k: nat, l: nat, p: Point)
    requires g > 0.0 && k < |Cells(e, g)| && l < |Cells(e, g)| && k != l
    ensures !(InInterior(p, Cells(e, g)[k]) && InInterior(p, Cells(e, g)[l]))
  {
    var i, j := Decompose(e, g, k);
    var i', j' := Decompose(e, g, l);
    if i < i' {
      CoordMono(e.minX, g, i, i');
    } else if i' < i {
      CoordMono(e.minX, g, i', i);
    } else if j < j' {
      CoordMono(e.minY, g, j, j');
    } else {
      CoordMono(e.minY, g, j', j);
    }
  }

  /**
   * Worked example: the extent (0, 0, 250, 250) with g = 100 gives the 3 x 3 lattice with
   * origins {0, 100, 200}^2, column by column; the last column and row reach 300.
   */
  lemma ExampleLattice()
    ensures Cells(Extent(0.0, 0.0, 250.0, 250.0), 100.0) ==
      [ Cell(Point(0.0, 0.0), 100.0), Cell(Point(0.0, 100.0), 100.0), Cell(Point(0.0, 200.0), 100.0),
        Cell(Point(100.0, 0.0), 100.0), Cell(Point(100.0, 100.0), 100.0), Cell(Point(100.0, 200.0), 100.0),
        Cell(Point(200.0, 0.0), 100.0), Cell(Point(200.0, 100.0), 100.0), Cell(Point(200.0, 200.0), 100.0) ]
  {
    var e, g := Extent(0.0, 0.0, 250.0, 250.0), 100.0;
    assert Steps(0.0, 250.0, g) == 3 by {
      assert (2.5).Floor == 2;
    }
    assert Coord(0.0, g, 1) == 100.0 && Coord(0.0, g, 2) == 200.0;
    assert Column(e, g, 0) == [Cell(Point(0.0, 0.0), g), Cell(Point(0.0, 100.0), g), Cell(Point(0.0, 200.0), g)];
    assert Column(e, g, 1) == [Cell(Point(100.0, 0.0), g), Cell(Point(100.0, 100.0), g), Cell(Point(100.0, 200.0), g)];
    assert Column(e, g, 2) == [Cell(Point(200.0, 0.0), g), Cell(Point(200.0, 100.0), g), Cell(Point(200.0, 200.0), g)];
  }
}
