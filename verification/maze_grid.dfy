/** The maze as the grid routines see it: a `width` by `height` array of
    bytes in row-major order (the cell of point (x, y) is at `y * width + x`),
    and the table of the eight neighbour offsets. */
module MazeGrid {
  /** `unsigned char`. */
  type Byte = x: int | 0 <= x < 256

  datatype Point = Point(x: int, y: int)

  datatype Offset = Offset(xDiff: int, yDiff: int)

  /** The `neighbours` table in its order: the four straight directions
      first, then the four diagonals. */
  const Neighbours: seq<Offset> := [
    Offset(-1, 0), Offset(0, 1), Offset(1, 0), Offset(0, -1),
    Offset(-1, -1), Offset(1, 1), Offset(-1, 1), Offset(1, -1)
  ]

  function Neighbour(p: Point, d: nat): Point
    requires d < |Neighbours|
  {
    Point(p.x + Neighbours[d].xDiff, p.y + Neighbours[d].yDiff)
  }

  /** `b` is the neighbour of `a` through one of the first `dirs` entries. */
  predicate Adjacent(a: Point, b: Point, dirs: nat)
    requires dirs <= |Neighbours|
  {
    exists d :: 0 <= d < dirs && b == Neighbour(a, d)
  }

  /** The entry of the table pointing back the other way. */
  function Opposite(d: nat): (e: nat)
    requires d < |Neighbours|
    ensures e < |Neighbours|
  {
    [2, 3, 0, 1, 5, 4, 7, 6][d]
  }

  /** The table is symmetric, and its straight half on its own is symmetric
      too: stepping to a neighbour and back through the opposite entry
      returns to the start. */
  lemma NeighbourOpposite(p: Point, d: nat)
    requires d < |Neighbours|
    ensures Neighbour(Neighbour(p, d), Opposite(d)) == p
    ensures d < 4 <==> Opposite(d) < 4
  {
  }

  /** The grid buffer; `width` and `height` are `N` and `M`. */
  datatype Grid = Grid(width: int, height: int, cells: seq<Byte>)

  predicate WellFormed(g: Grid) {
    0 <= g.width && 0 <= g.height && |g.cells| == g.width * g.height
  }

  /** The bounds test every routine makes before touching a cell. */
  predicate InBounds(g: Grid, p: Point) {
    0 <= p.x < g.width && 0 <= p.y < g.height
  }

  function Index(g: Grid, p: Point): int {
    p.y * g.width + p.x
  }

  lemma MulMono(a: int, b: int, n: int)
    requires a <= b && 0 <= n
    ensures a * n <= b * n
  {
    assert b * n - a * n == (b - a) * n;
  }

  /** Every point within bounds has its cell inside the buffer. */
  lemma IndexInRange(g: Grid, p: Point)
    requires WellFormed(g) && InBounds(g, p)
    ensures 0 <= Index(g, p) < |g.cells|
  {
    MulMono(0, p.y, g.width);
    MulMono(p.y + 1, g.height, g.width);
  }

  /** Distinct points within bounds have distinct cells. */
  lemma IndexInjective(g: Grid, p: Point, q: Point)
    requires InBounds(g, p) && InBounds(g, q)
    ensures Index(g, p) == Index(g, q) ==> p == q
  {
    if p.y < q.y {
      MulMono(p.y + 1, q.y, g.width);
    } else if q.y < p.y {
      MulMono(q.y + 1, p.y, g.width);
    }
  }

  function Cell(g: Grid, p: Point): Byte
    requires WellFormed(g) && InBounds(g, p)
  {
    IndexInRange(g, p);
    g.cells[Index(g, p)]
  }

  /** `pData[curId] = v`. */
  function SetCell(g: Grid, p: Point, v: Byte): (r: Grid)
    requires WellFormed(g) && InBounds(g, p)
    ensures WellFormed(r) && r.width == g.width && r.height == g.height
    ensures Cell(r, p) == v
    ensures forall q :: InBounds(g, q) && q != p ==> Cell(r, q) == Cell(g, q)
  {
    IndexInRange(g, p);
    var r := Grid(g.width, g.height, g.cells[Index(g, p) := v]);
    forall q | InBounds(g, q) && q != p
      ensures Cell(r, q) == Cell(g, q)
    {
      IndexInjective(g, p, q);
      IndexInRange(g, q);
    }
    r
  }

  /** `SetCell` seen on the buffer: one byte written, at the point's index. */
  lemma SetCellIndex(g: Grid, p: Point, v: Byte)
    requires WellFormed(g) && InBounds(g, p)
    ensures 0 <= Index(g, p) < |g.cells|
    ensures SetCell(g, p, v).cells == g.cells[Index(g, p) := v]
  {
    IndexInRange(g, p);
  }

  // ---------------------------------------------------------------------
  // Counting cells, the measure that makes the recursions terminate
  // ---------------------------------------------------------------------

  /** The number of cells holding a byte in `[lo, hi]`. */
  function CountIn(s: seq<Byte>, lo: int, hi: int): (c: nat)
    ensures c <= |s|
  {
    if |s| == 0 then 0
    else CountIn(s[..|s| - 1], lo, hi) + (if lo <= s[|s| - 1] <= hi then 1 else 0)
  }

  /** Overwriting a cell that lies in `[lo, hi]` with a byte outside it
      removes exactly one such cell, and the converse adds one. */
  lemma {:induction false} CountInUpdate(s: seq<Byte>, j: nat, v: Byte, lo: int, hi: int)
    requires j < |s|
    ensures lo <= s[j] <= hi && !(lo <= v <= hi) ==> CountIn(s[j := v], lo, hi) + 1 == CountIn(s, lo, hi)
    ensures !(lo <= s[j] <= hi) && lo <= v <= hi ==> CountIn(s[j := v], lo, hi) == CountIn(s, lo, hi) + 1
    decreases |s|
  {
    var t := s[j := v];
    if j < |s| - 1 {
      assert t[..|t| - 1] == s[..|s| - 1][j := v];
      CountInUpdate(s[..|s| - 1], j, v, lo, hi);
    } else {
      assert t[..|t| - 1] == s[..|s| - 1];
    }
  }

  /** When every changed cell leaves `[lo, hi]`, the count does not grow. */
  lemma {:induction false} CountInShrinks(s: seq<Byte>, t: seq<Byte>, lo: int, hi: int)
    requires |s| == |t|
    requires forall j :: 0 <= j < |s| ==> t[j] == s[j] || !(lo <= t[j] <= hi)
    ensures CountIn(t, lo, hi) <= CountIn(s, lo, hi)
    decreases |s|
  {
    if |s| > 0 {
      CountInShrinks(s[..|s| - 1], t[..|t| - 1], lo, hi);
    }
  }

  /** When every changed cell enters `[lo, hi]`, the count does not shrink. */
  lemma {:induction false} CountInGrows(s: seq<Byte>, t: seq<Byte>, lo: int, hi: int)
    requires |s| == |t|
    requires forall j :: 0 <= j < |s| ==> t[j] == s[j] || lo <= t[j] <= hi
    ensures CountIn(s, lo, hi) <= CountIn(t, lo, hi)
    decreases |s|
  {
    if |s| > 0 {
      CountInGrows(s[..|s| - 1], t[..|t| - 1], lo, hi);
    }
  }
}
