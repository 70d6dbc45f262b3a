/**
 * A rectangular grid stored row-major in one sequence (src/grid.rs).
 * Points are (row, column) pairs of unbounded integers.
 */
module Grids {

  type Point = (int, int)

  /** Componentwise addition of points. */
  function AddPoints(a: Point, b: Point): Point {
    (a.0 + b.0, a.1 + b.1)
  }

  /** Addition of points is commutative, associative and undone by adding the negation. */
  lemma AddPointsLaws(a: Point, b: Point, c: Point)
    ensures AddPoints(a, b) == AddPoints(b, a)
    ensures AddPoints(AddPoints(a, b), c) == AddPoints(a, AddPoints(b, c))
    ensures AddPoints(AddPoints(a, b), (-b.0, -b.1)) == a
  {
  }

  /** The rows, one after the other. */
  function Flatten<T>(rows: seq<seq<T>>): seq<T> {
    if rows == [] then [] else Flatten(rows[..|rows| - 1]) + rows[|rows| - 1]
  }

  /** Every row has `width` cells. */
  predicate Rectangular<T>(rows: seq<seq<T>>, width: nat) {
    forall i :: 0 <= i < |rows| ==> |rows[i]| == width
  }

  /** Position i of the cells exists and holds v. */
  ghost predicate HasCell<T>(cells: seq<T>, i: int, v: T) {
    0 <= i < |cells| && cells[i] == v
  }

  /**
   * The row-major layout: flattening `height` rows of `width` cells gives
   * `height * width` cells, and cell (r, c) is at position r * width + c.
   */
  lemma {:induction false} FlattenRowMajor<T>(rows: seq<seq<T>>, width: nat)
    requires Rectangular(rows, width)
    ensures |Flatten(rows)| == |rows| * width
    ensures forall r, c :: 0 <= r < |rows| && 0 <= c < width ==> HasCell(Flatten(rows), r * width + c, rows[r][c])
  {
    FlattenLength(rows, width);
    if rows != [] {
      var n := |rows|;
      var front, last := rows[..n - 1], rows[n - 1];
      assert Rectangular(front, width);
      FlattenRowMajor(front, width);
      assert Flatten(rows) == Flatten(front) + last;
      forall r, c | 0 <= r < n && 0 <= c < width
        ensures HasCell(Flatten(rows), r * width + c, rows[r][c])
      {
        if r < n - 1 {
          RowMajorBounds(r, c, width, n - 1);
          assert rows[r] == front[r];
        }
      }
    }
  }

  lemma {:induction false} FlattenLength<T>(rows: seq<seq<T>>, width: nat)
    requires Rectangular(rows, width)
    ensures |Flatten(rows)| == |rows| * width
  {
    if rows != [] {
      var front := rows[..|rows| - 1];
      assert Rectangular(front, width);
      FlattenLength(front, width);
      MulSucc(|rows| - 1, width);
    }
  }

  /** The offsets of the 3x3 block around a point, row by row: k = 3 * (dr + 1) + (dc + 1). */
  function Around(k: nat): Point
    requires k < 9
  {
    (k / 3 - 1, k % 3 - 1)
  }

  /** The block cells are the offsets -1..=1 in each coordinate; cell 4 is the centre. */
  lemma AroundRange(k: nat)
    requires k < 9
    ensures -1 <= Around(k).0 <= 1 && -1 <= Around(k).1 <= 1
    ensures k == 3 * (Around(k).0 + 1) + (Around(k).1 + 1)
    ensures Around(k) == (0, 0) <==> k == 4
  {
  }

  /** `a` comes before `b` in row-major order. */
  predicate RowMajorBefore(a: Point, b: Point) {
    a.0 < b.0 || (a.0 == b.0 && a.1 < b.1)
  }

  /** Distinct points in strictly increasing row-major order. */
  predicate RowMajorSorted(ps: seq<Point>) {
    forall i, j :: 0 <= i < j < |ps| ==> RowMajorBefore(ps[i], ps[j])
  }

  class Grid<T> {
    var items: seq<T>
    const width: nat
    const height: nat

    /** The grid is rectangular: it has exactly `width * height` cells. */
    ghost predicate Valid()
      reads this
    {
      |items| == width * height
    }

    /**
     * Builds a grid from its rows: the width is the length of the first row,
     * the height the number of rows and the cells the rows concatenated;
     * rectangular rows give a valid grid.
     */
    constructor (rows: seq<seq<T>>)
      requires |rows| > 0
      ensures width == |rows[0]| && height == |rows|
      ensures items == Flatten(rows)
      ensures Rectangular(rows, |rows[0]|) ==> Valid()
    {
      width := |rows[0]|;
      height := |rows|;
      items := Flatten(rows);
      if Rectangular(rows, |rows[0]|) {
        FlattenRowMajor(rows, |rows[0]|);
      }
    }

    predicate InBounds(p: Point) {
      0 <= p.0 < height && 0 <= p.1 < width
    }

    /** The position of a point in `items`. */
    function Offset(p: Point): int {
      p.0 * width + p.1
    }

    /** Distinct in-bounds points have distinct positions, all within a valid grid's cells. */
    lemma OffsetInRange(p: Point, q: Point)
      requires InBounds(p) && InBounds(q)
      ensures 0 <= Offset(p) < width * height
      ensures Offset(p) == Offset(q) ==> p == q
    {
      RowMajorBounds(p.0, p.1, width, height);
      assert width * height == height * width;
      if Offset(p) == Offset(q) {
        RowMajorUnique(p.0, p.1, q.0, q.1, width);
      }
    }

    /** The cell at a point, as `index` reads it. */
    function Get(p: Point): T
      reads this
      requires 0 <= Offset(p) < |items|
    {
      items[Offset(p)]
    }

    /** Overwrites the cell at a point, as a write through `index_mut`; no other cell changes. */
    method Put(p: Point, v: T)
      requires 0 <= Offset(p) < |items|
      modifies this
      ensures items == old(items)[Offset(p) := v]
      ensures |items| == |old(items)|
      ensures old(Valid()) ==> Valid()
    {
      items := items[Offset(p) := v];
    }

    /** Every point of the grid, row by row. */
    function IndexIter(): (ps: seq<Point>)
      ensures |ps| == height * width
    {
      seq(height * width, k requires 0 <= k < height * width => (k / width, k % width))
    }

    /**
     * `index_iter` yields exactly the in-bounds points, each once, in
     * row-major order: the k-th point is the one at position k.
     */
    lemma IndexIterSpec(p: Point)
      ensures forall k :: 0 <= k < |IndexIter()| ==> InBounds(IndexIter()[k]) && Offset(IndexIter()[k]) == k
      ensures p in IndexIter() <==> InBounds(p)
      ensures RowMajorSorted(IndexIter())
    {
      IndexIterPositions();
      IndexIterMembers(p);
      IndexIterSorted();
    }

    lemma IndexIterPositions()
      ensures forall k :: 0 <= k < |IndexIter()| ==> InBounds(IndexIter()[k]) && Offset(IndexIter()[k]) == k
    {
      var ps := IndexIter();
      forall k | 0 <= k < |ps|
        ensures InBounds(ps[k]) && Offset(ps[k]) == k
      {
        RowMajorDivMod(k, width, height);
      }
    }

    lemma IndexIterMembers(p: Point)
      ensures p in IndexIter() <==> InBounds(p)
    {
      IndexIterPositions();
      var ps := IndexIter();
      if InBounds(p) {
        OffsetInRange(p, p);
        var k := Offset(p);
        assert width * height == height * width;
        OffsetInRange(p, ps[k]);
      }
    }

    lemma IndexIterSorted()
      ensures RowMajorSorted(IndexIter())
    {
      IndexIterPositions();
      var ps := IndexIter();
      forall i, j | 0 <= i < j < |ps|
        ensures RowMajorBefore(ps[i], ps[j])
      {
        if ps[i].0 > ps[j].0 {
          MulMonotone(ps[j].0 + 1, ps[i].0, width);
        }
      }
    }

    /** The in-bounds neighbours among the first k cells of the 3x3 block, the centre skipped. */
    function NeighborsUpTo(p: Point, k: nat): (ns: seq<Point>)
      requires k <= 9
    {
      if k == 0 then []
      else
        var q := AddPoints(p, Around(k - 1));
        if k - 1 != 4 && InBounds(q) then NeighborsUpTo(p, k - 1) + [q] else NeighborsUpTo(p, k - 1)
    }

    /** The in-bounds 8-neighbours of a point in the order `neighbor_indices8` pushes them. */
    function Neighbors(p: Point): seq<Point> {
      NeighborsUpTo(p, 9)
    }

    /** `neighbor_indices8`, with its two nested loops over the offsets -1..=1. */
    method NeighborIndices8(p: Point) returns (ns: seq<Point>)
      ensures ns == Neighbors(p)
    {
      ns := [];
      for dr := -1 to 2
        invariant ns == NeighborsUpTo(p, 3 * (dr + 1))
      {
        for dc := -1 to 2
          invariant ns == NeighborsUpTo(p, 3 * (dr + 1) + (dc + 1))
        {
          NeighborsStep(p, dr, dc);
          if dr == 0 && dc == 0 {
            continue;
          }
          var q := AddPoints(p, (dr, dc));
          if InBounds(q) {
            ns := ns + [q];
          }
        }
      }
    }

    /** Block cell 3 * (dr + 1) + (dc + 1) is offset (dr, dc); it adds the moved point when that is not the centre and in bounds. */
    lemma NeighborsStep(p: Point, dr: int, dc: int)
      requires -1 <= dr <= 1 && -1 <= dc <= 1
      ensures var k := 3 * (dr + 1) + (dc + 1);
        var q := AddPoints(p, (dr, dc));
        NeighborsUpTo(p, k + 1) ==
          if (dr != 0 || dc != 0) && InBounds(q) then NeighborsUpTo(p, k) + [q] else NeighborsUpTo(p, k)
    {
      var k := 3 * (dr + 1) + (dc + 1);
      assert Around(k) == (dr, dc);
    }

    /** The neighbours among the first k cells are exactly the in-bounds non-centre ones. */
    lemma {:induction false} NeighborsUpToMembers(p: Point, k: nat)
      requires k <= 9
      ensures forall q :: q in NeighborsUpTo(p, k) <==>
        exists j :: 0 <= j < k && j != 4 && q == AddPoints(p, Around(j)) && InBounds(q)
    {
      if k > 0 {
        NeighborsUpToMembers(p, k - 1);
      }
    }

    /** The neighbours among the first k cells are sorted and all come before block cell k. */
    lemma {:induction false} NeighborsUpToSorted(p: Point, k: nat)
      requires k <= 9
      ensures RowMajorSorted(NeighborsUpTo(p, k))
      ensures k < 9 ==> forall q :: q in NeighborsUpTo(p, k) ==> RowMajorBefore(q, AddPoints(p, Around(k)))
    {
      if k > 0 {
        NeighborsUpToSorted(p, k - 1);
        if k < 9 {
          var next := AddPoints(p, Around(k));
          var last := AddPoints(p, Around(k - 1));
          assert RowMajorBefore(last, next);
          forall q | q in NeighborsUpTo(p, k)
            ensures RowMajorBefore(q, next)
          {
            if q != last {
              assert q in NeighborsUpTo(p, k - 1);
            }
          }
        }
      }
    }

    /** At most one neighbour per non-centre block cell, and exactly one when all of them are in bounds. */
    lemma {:induction false} NeighborsUpToCount(p: Point, k: nat)
      requires k <= 9
      ensures |NeighborsUpTo(p, k)| <= (if k > 4 then k - 1 else k)
      ensures (forall j :: 0 <= j < k && j != 4 ==> InBounds(AddPoints(p, Around(j)))) ==>
        |NeighborsUpTo(p, k)| == (if k > 4 then k - 1 else k)
    {
      if k > 0 {
        NeighborsUpToCount(p, k - 1);
      }
    }

    /**
     * A point is among the `neighbor_indices8` of `p` exactly when it is in
     * bounds, differs from `p` and is at most 1 away in each coordinate.
     */
    lemma NeighborsSpec(p: Point, q: Point)
      ensures q in Neighbors(p) <==>
        InBounds(q) && q != p && -1 <= q.0 - p.0 <= 1 && -1 <= q.1 - p.1 <= 1
    {
      NeighborsUpToMembers(p, 9);
      if q in Neighbors(p) {
        var j :| 0 <= j < 9 && j != 4 && q == AddPoints(p, Around(j)) && InBounds(q);
        AroundRange(j);
      }
      if InBounds(q) && q != p && -1 <= q.0 - p.0 <= 1 && -1 <= q.1 - p.1 <= 1 {
        var j := 3 * (q.0 - p.0 + 1) + (q.1 - p.1 + 1);
        AroundRange(j);
      }
    }

    /**
     * `neighbor_indices8` returns at most 8 points, sorted by row then
     * column; an interior point has all 8.
     */
    lemma NeighborsCount(p: Point)
      ensures |Neighbors(p)| <= 8
      ensures RowMajorSorted(Neighbors(p))
      ensures 1 <= p.0 < height - 1 && 1 <= p.1 < width - 1 ==> |Neighbors(p)| == 8
    {
      NeighborsUpToSorted(p, 9);
      NeighborsUpToCount(p, 9);
      if 1 <= p.0 < height - 1 && 1 <= p.1 < width - 1 {
        forall j | 0 <= j < 9 && j != 4
          ensures InBounds(AddPoints(p, Around(j)))
        {
          AroundRange(j);
        }
      }
    }

    /** The cells of a row-major cell sequence at the given points, in order. */
    function CellsAt(cells: seq<T>, ps: seq<Point>): (vs: seq<T>)
      requires forall q :: q in ps ==> 0 <= Offset(q) < |cells|
      ensures |vs| == |ps| && forall i :: 0 <= i < |ps| ==> vs[i] == cells[Offset(ps[i])]
    {
      seq(|ps|, i requires 0 <= i < |ps| => cells[Offset(ps[i])])
    }

    /** Every neighbour is in bounds, so its position is below `width * height`. */
    lemma NeighborsInRange(p: Point)
      ensures forall q :: q in Neighbors(p) ==> InBounds(q) && 0 <= Offset(q) < width * height
    {
      forall q | q in Neighbors(p)
        ensures InBounds(q) && 0 <= Offset(q) < width * height
      {
        NeighborsSpec(p, q);
        OffsetInRange(q, q);
      }
    }

    /** The cells of the in-bounds 8-neighbours, as `neighbors8` yields them. */
    function Neighbors8(p: Point): (vs: seq<T>)
      reads this
      requires Valid()
      ensures |vs| == |Neighbors(p)| <= 8
    {
      NeighborsInRange(p);
      NeighborsCount(p);
      CellsAt(items, Neighbors(p))
    }
  }

  // ----- Arithmetic of the row-major layout -----

  lemma MulMonotone(a: int, b: int, w: nat)
    requires a <= b
    ensures a * w <= b * w
  {
    assert b * w - a * w == (b - a) * w;
  }

  lemma MulSucc(a: nat, w: nat)
    ensures (a + 1) * w == a * w + w
  {
  }

  /** Cell (r, c) of an h-by-w grid is at a position below h * w. */
  lemma RowMajorBounds(r: int, c: int, w: nat, h: nat)
    requires 0 <= r < h && 0 <= c < w
    ensures 0 <= r * w + c < h * w
  {
    MulMonotone(0, r, w);
    MulMonotone(r + 1, h, w);
    assert (r + 1) * w == r * w + w;
  }

  /** Position r * w + c with 0 <= c < w determines r and c. */
  lemma RowMajorUnique(r1: int, c1: int, r2: int, c2: int, w: nat)
    requires 0 <= c1 < w && 0 <= c2 < w && r1 * w + c1 == r2 * w + c2
    ensures r1 == r2 && c1 == c2
  {
    if r1 < r2 {
      MulMonotone(r1 + 1, r2, w);
    } else if r2 < r1 {
      MulMonotone(r2 + 1, r1, w);
    }
  }

  /** Position k of an h-by-w grid is cell (k / w, k % w). */
  lemma RowMajorDivMod(k: int, w: nat, h: nat)
    requires 0 <= k < h * w
    ensures w > 0 && 0 <= k / w < h && (k / w) * w + k % w == k
  {
    if w > 0 && k / w >= h {
      MulMonotone(h, k / w, w);
    }
  }
}
