/** `SearchForPath`: a depth-first search for a path from a point to an end
    point through the four straight directions. Each cell's low bit marks a
    wall, and the bits above it hold the number of the last search run that
    entered the cell; entering a cell stores the run number shifted left by
    one, which also clears the wall bit, and reaching the end point stores
    255 there. The search reports whether it reached the end point. */
module MazeSearch {
  import opened MazeGrid

  /** The `int` result (1 or 0) and the grid after the call. */
  datatype SearchResult = SearchResult(found: bool, grid: Grid)

  /** `(unsigned char)curFillVal << 1`, stored back into a byte. */
  function Stamp(curFillVal: int): Byte {
    (curFillVal % 256) * 2 % 256
  }

  /** `curFillVal == (cell >> 1)`: the cell was entered by this run. */
  predicate Visited(b: Byte, curFillVal: int) {
    b / 2 == curFillVal
  }

  /** `cell & 0x01`. */
  predicate IsWall(b: Byte) {
    b % 2 == 1
  }

  /** The stamp a run stores is recognised as "entered by this run" exactly
      when the run number fits in seven bits. Otherwise a cell the run has
      entered still looks unvisited to it, and the search can go round in
      circles without end. */
  lemma StampRecognised(curFillVal: int)
    ensures Visited(Stamp(curFillVal), curFillVal) <==> 0 <= curFillVal < 128
  {
  }

  /** Entering a cell erases its wall bit. */
  lemma StampClearsWall(curFillVal: int)
    ensures !IsWall(Stamp(curFillVal))
  {
  }

  /** The number of cells this run has not entered, the measure that makes
      the search terminate. */
  function Unvisited(g: Grid, curFillVal: int): nat {
    |g.cells| - CountIn(g.cells, 2 * curFillVal, 2 * curFillVal + 1)
  }

  /** What the search may write: every cell is unchanged or holds the stamp,
      except that a successful search may store 255 at the end point. */
  predicate Marks(g: Grid, r: Grid, curFillVal: int, end: Point, found: bool) {
    && r.width == g.width && r.height == g.height && |r.cells| == |g.cells|
    && forall j :: 0 <= j < |g.cells| ==>
         || r.cells[j] == g.cells[j]
         || r.cells[j] == Stamp(curFillVal)
         || (found && InBounds(g, end) && j == Index(g, end) && r.cells[j] == 255)
  }

  /** Entering a cell writes the stamp there and nothing else. */
  lemma EnterStamps(g: Grid, p: Point, end: Point, curFillVal: int)
    requires WellFormed(g) && InBounds(g, p)
    ensures Marks(g, SetCell(g, p, Stamp(curFillVal)), curFillVal, end, false)
  {
    SetCellIndex(g, p, Stamp(curFillVal));
  }

  /** A byte was entered by run `curFillVal` exactly when it lies in the
      two-value range the run's stamps occupy, and a seven-bit run number's
      stamp lies at the bottom of that range. */
  lemma VisitedRange(b: Byte, curFillVal: int)
    ensures Visited(b, curFillVal) <==> 2 * curFillVal <= b <= 2 * curFillVal + 1
    ensures 0 <= curFillVal < 128 ==> Stamp(curFillVal) == 2 * curFillVal
  {
    assert b == 2 * (b / 2) + b % 2;
  }

  /** Entering an unvisited cell leaves one cell fewer unvisited. */
  lemma EnterCounts(g: Grid, p: Point, curFillVal: int)
    requires WellFormed(g) && InBounds(g, p) && 0 <= curFillVal < 128
    requires !Visited(Cell(g, p), curFillVal)
    ensures Unvisited(SetCell(g, p, Stamp(curFillVal)), curFillVal) < Unvisited(g, curFillVal)
  {
    var j := Index(g, p);
    SetCellIndex(g, p, Stamp(curFillVal));
    VisitedRange(g.cells[j], curFillVal);
    CountInUpdate(g.cells, j, Stamp(curFillVal), 2 * curFillVal, 2 * curFillVal + 1);
  }

  /** Reaching the end point: the stamp and then 255 written there. */
  lemma ReachMarks(g: Grid, end: Point, curFillVal: int)
    requires WellFormed(g) && InBounds(g, end)
    ensures Marks(g, SetCell(SetCell(g, end, Stamp(curFillVal)), end, 255), curFillVal, end, true)
  {
    var g1 := SetCell(g, end, Stamp(curFillVal));
    SetCellIndex(g, end, Stamp(curFillVal));
    SetCellIndex(g1, end, 255);
  }

  /** Entering an unvisited cell, in the three facts the search needs. */
  lemma EnterMarks(g: Grid, p: Point, end: Point, curFillVal: int)
    requires WellFormed(g) && InBounds(g, p) && 0 <= curFillVal < 128
    requires !Visited(Cell(g, p), curFillVal)
    ensures var g1 := SetCell(g, p, Stamp(curFillVal));
            && Marks(g, g1, curFillVal, end, false)
            && Unvisited(g1, curFillVal) < Unvisited(g, curFillVal)
            && (p == end ==> Marks(g, SetCell(g1, p, 255), curFillVal, end, true))
  {
    EnterStamps(g, p, end, curFillVal);
    EnterCounts(g, p, curFillVal);
    if p == end {
      ReachMarks(g, end, curFillVal);
    }
  }

  /** What one search writes followed by what the next writes. */
  lemma MarksTrans(g: Grid, g1: Grid, r: Grid, curFillVal: int, end: Point, found: bool)
    requires Marks(g, g1, curFillVal, end, false) && Marks(g1, r, curFillVal, end, found)
    ensures Marks(g, r, curFillVal, end, found)
  {
  }

  /** An unsuccessful search only adds stamps, so it leaves no more cells
      unvisited than there were. */
  lemma MarksUnvisited(g: Grid, r: Grid, curFillVal: int, end: Point)
    requires 0 <= curFillVal < 128 && Marks(g, r, curFillVal, end, false)
    ensures Unvisited(r, curFillVal) <= Unvisited(g, curFillVal)
  {
    CountInGrows(g.cells, r.cells, 2 * curFillVal, 2 * curFillVal + 1);
  }

  function SearchForPath(g: Grid, p: Point, end: Point, curFillVal: int): (r: SearchResult)
    requires WellFormed(g) && 0 <= curFillVal < 128
    ensures WellFormed(r.grid) && Marks(g, r.grid, curFillVal, end, r.found)
    ensures !InBounds(g, p) ==> r == SearchResult(false, g)
    ensures InBounds(g, p) && Visited(Cell(g, p), curFillVal) ==> r == SearchResult(false, g)
    ensures InBounds(g, p) && !Visited(Cell(g, p), curFillVal) && IsWall(Cell(g, p))
            ==> r == SearchResult(false, SetCell(g, p, Stamp(curFillVal)))
    ensures r.found ==> InBounds(g, end) && Cell(r.grid, end) == 255
    decreases Unvisited(g, curFillVal), 0, 0
  {
    if p.y < 0 || p.x < 0 then
      SearchResult(false, g)
    else if p.y >= g.height || p.x >= g.width then
      SearchResult(false, g)
    else
      var isWall := IsWall(Cell(g, p));
      if curFillVal == Cell(g, p) / 2 then
        SearchResult(false, g)
      else
        var g1 := SetCell(g, p, Stamp(curFillVal));
        EnterMarks(g, p, end, curFillVal);
        if isWall then
          SearchResult(false, g1)
        else if p == end then
          SearchResult(true, SetCell(g1, p, 255))
        else
          var r := SearchNeighbours(g1, p, end, curFillVal, 0);
          MarksTrans(g, g1, r.grid, curFillVal, end, r.found);
          r
  }

  /** The loop over the four straight neighbours, from entry `i` on; it
      returns as soon as one of them reports success. */
  function SearchNeighbours(g: Grid, p: Point, end: Point, curFillVal: int, i: nat): (r: SearchResult)
    requires WellFormed(g) && 0 <= curFillVal < 128 && i <= 4
    ensures WellFormed(r.grid) && Marks(g, r.grid, curFillVal, end, r.found)
    ensures r.found ==> InBounds(g, end) && Cell(r.grid, end) == 255
    decreases Unvisited(g, curFillVal), 1, 4 - i
  {
    if i == 4 then
      SearchResult(false, g)
    else
      var r := SearchForPath(g, Neighbour(p, i), end, curFillVal);
      if r.found then
        r
      else
        MarksUnvisited(g, r.grid, curFillVal, end);
        var r2 := SearchNeighbours(r.grid, p, end, curFillVal, i + 1);
        MarksTrans(g, r.grid, r2.grid, curFillVal, end, r2.found);
        r2
  }

  // ---------------------------------------------------------------------
  // An unsuccessful search has explored everything it could reach
  // ---------------------------------------------------------------------

  /** `Marks`, read at a point, for an unsuccessful search. */
  lemma MarksAt(g: Grid, r: Grid, curFillVal: int, end: Point, q: Point)
    requires WellFormed(g) && 0 <= curFillVal < 128 && Marks(g, r, curFillVal, end, false) && InBounds(g, q)
    ensures WellFormed(r) && InBounds(r, q)
    ensures Cell(r, q) == Cell(g, q) || Cell(r, q) == Stamp(curFillVal)
    ensures Visited(Cell(g, q), curFillVal) ==> Visited(Cell(r, q), curFillVal)
  {
    IndexInRange(g, q);
  }

  /** The search entered `q`, which was an open cell it had not entered
      before. */
  predicate Opened(g: Grid, r: Grid, q: Point, curFillVal: int)
    requires WellFormed(g) && WellFormed(r) && r.width == g.width && r.height == g.height
  {
    && InBounds(g, q)
    && !Visited(Cell(g, q), curFillVal) && !IsWall(Cell(g, q))
    && Visited(Cell(r, q), curFillVal)
  }

  /** Every straight neighbour of `q` has been entered. */
  predicate Explored(r: Grid, q: Point, curFillVal: int)
    requires WellFormed(r)
  {
    forall d :: 0 <= d < 4 && InBounds(r, Neighbour(q, d)) ==> Visited(Cell(r, Neighbour(q, d)), curFillVal)
  }

  /** Every open cell the search entered is not the end point and has had
      all its neighbours entered. */
  ghost predicate Exhausted(g: Grid, r: Grid, end: Point, curFillVal: int)
    requires WellFormed(g) && WellFormed(r) && r.width == g.width && r.height == g.height
  {
    forall q :: Opened(g, r, q, curFillVal) ==> q != end && Explored(r, q, curFillVal)
  }

  lemma ExploredPersists(g: Grid, r: Grid, curFillVal: int, end: Point, q: Point)
    requires WellFormed(g) && 0 <= curFillVal < 128 && Marks(g, r, curFillVal, end, false)
    requires Explored(g, q, curFillVal)
    ensures WellFormed(r) && Explored(r, q, curFillVal)
  {
    forall d | 0 <= d < 4 && InBounds(r, Neighbour(q, d))
      ensures Visited(Cell(r, Neighbour(q, d)), curFillVal)
    {
      MarksAt(g, r, curFillVal, end, Neighbour(q, d));
    }
  }

  /** Two unsuccessful searches in a row: what each exhausted stays so. */
  lemma ExhaustedTrans(g: Grid, g1: Grid, r: Grid, end: Point, curFillVal: int)
    requires WellFormed(g) && 0 <= curFillVal < 128
    requires Marks(g, g1, curFillVal, end, false) && Marks(g1, r, curFillVal, end, false)
    requires Marks(g, r, curFillVal, end, false)
    requires WellFormed(g1) && WellFormed(r)
    requires Exhausted(g, g1, end, curFillVal) && Exhausted(g1, r, end, curFillVal)
    ensures Exhausted(g, r, end, curFillVal)
  {
    forall q | Opened(g, r, q, curFillVal)
      ensures q != end && Explored(r, q, curFillVal)
    {
      MarksAt(g, g1, curFillVal, end, q);
      MarksAt(g1, r, curFillVal, end, q);
      StampRecognised(curFillVal);
      StampClearsWall(curFillVal);
      if Visited(Cell(g1, q), curFillVal) {
        assert Opened(g, g1, q, curFillVal);
        ExploredPersists(g1, r, curFillVal, end, q);
      } else {
        assert Opened(g1, r, q, curFillVal);
      }
    }
  }

  lemma {:induction false} SearchExhausts(g: Grid, p: Point, end: Point, curFillVal: int)
    requires WellFormed(g) && 0 <= curFillVal < 128
    ensures var r := SearchForPath(g, p, end, curFillVal);
            !r.found ==>
              && Exhausted(g, r.grid, end, curFillVal)
              && (InBounds(g, p) ==> Visited(Cell(r.grid, p), curFillVal))
    decreases Unvisited(g, curFillVal), 0, 0
  {
    var r := SearchForPath(g, p, end, curFillVal);
    StampRecognised(curFillVal);
    StampClearsWall(curFillVal);
    if !r.found && InBounds(g, p) && !Visited(Cell(g, p), curFillVal) {
      var g1 := SetCell(g, p, Stamp(curFillVal));
      EnterMarks(g, p, end, curFillVal);
      if !IsWall(Cell(g, p)) {
        assert p != end;
        SearchNeighboursExhausts(g1, p, end, curFillVal, 0);
        MarksAt(g1, r.grid, curFillVal, end, p);
        forall q | Opened(g, r.grid, q, curFillVal)
          ensures q != end && Explored(r.grid, q, curFillVal)
        {
          if q != p {
            assert Cell(g1, q) == Cell(g, q);
            assert Opened(g1, r.grid, q, curFillVal);
          }
        }
      }
    } else if !r.found && InBounds(g, p) {
      MarksAt(g, r.grid, curFillVal, end, p);
    }
  }

  lemma {:induction false} SearchNeighboursExhausts(g: Grid, p: Point, end: Point, curFillVal: int, i: nat)
    requires WellFormed(g) && 0 <= curFillVal < 128 && i <= 4
    ensures var r := SearchNeighbours(g, p, end, curFillVal, i);
            !r.found ==>
              && Exhausted(g, r.grid, end, curFillVal)
              && (forall d :: i <= d < 4 && InBounds(g, Neighbour(p, d)) ==> Visited(Cell(r.grid, Neighbour(p, d)), curFillVal))
    decreases Unvisited(g, curFillVal), 1, 4 - i
  {
    if i < 4 {
      var q := Neighbour(p, i);
      var r1 := SearchForPath(g, q, end, curFillVal);
      if !r1.found {
        var r := SearchNeighbours(r1.grid, p, end, curFillVal, i + 1);
        MarksUnvisited(g, r1.grid, curFillVal, end);
        SearchExhausts(g, q, end, curFillVal);
        SearchNeighboursExhausts(r1.grid, p, end, curFillVal, i + 1);
        if !r.found {
          NeighboursStep(g, r1.grid, r.grid, p, end, curFillVal, i);
        }
      }
    }
  }

  /** One round of the neighbour loop: the search from neighbour `i` and then
      the rest of the loop, both unsuccessful, leave everything they opened
      explored and the neighbours from `i` on entered. */
  lemma NeighboursStep(g: Grid, r1: Grid, r: Grid, p: Point, end: Point, curFillVal: int, i: nat)
    requires WellFormed(g) && WellFormed(r1) && WellFormed(r) && 0 <= curFillVal < 128 && i < 4
    requires Marks(g, r1, curFillVal, end, false) && Marks(r1, r, curFillVal, end, false)
    requires Exhausted(g, r1, end, curFillVal) && Exhausted(r1, r, end, curFillVal)
    requires InBounds(g, Neighbour(p, i)) ==> Visited(Cell(r1, Neighbour(p, i)), curFillVal)
    requires forall d :: i + 1 <= d < 4 && InBounds(r1, Neighbour(p, d)) ==> Visited(Cell(r, Neighbour(p, d)), curFillVal)
    ensures Exhausted(g, r, end, curFillVal)
    ensures forall d :: i <= d < 4 && InBounds(g, Neighbour(p, d)) ==> Visited(Cell(r, Neighbour(p, d)), curFillVal)
  {
    MarksTrans(g, r1, r, curFillVal, end, false);
    ExhaustedTrans(g, r1, r, end, curFillVal);
    if InBounds(g, Neighbour(p, i)) {
      MarksAt(r1, r, curFillVal, end, Neighbour(p, i));
    }
  }

  // ---------------------------------------------------------------------
  // Completeness
  // ---------------------------------------------------------------------

  /** A walk through open cells this run has not entered, in the four
      straight directions. */
  predicate IsOpenPath(g: Grid, path: seq<Point>, curFillVal: int)
    requires WellFormed(g)
  {
    && (forall k :: 0 <= k < |path| ==>
          InBounds(g, path[k]) && !IsWall(Cell(g, path[k])) && !Visited(Cell(g, path[k]), curFillVal))
    && (forall k :: 0 < k < |path| ==> Adjacent(path[k - 1], path[k], 4))
  }

  /** On an unsuccessful search, every cell of an open walk from the start
      was entered. */
  lemma {:induction false} OpenPathOpened(g: Grid, p: Point, end: Point, curFillVal: int, path: seq<Point>)
    requires WellFormed(g) && 0 <= curFillVal < 128
    requires |path| > 0 && path[0] == p && IsOpenPath(g, path, curFillVal)
    requires !SearchForPath(g, p, end, curFillVal).found
    ensures var r := SearchForPath(g, p, end, curFillVal).grid;
            forall k :: 0 <= k < |path| ==> Opened(g, r, path[k], curFillVal)
    decreases |path|
  {
    var r := SearchForPath(g, p, end, curFillVal).grid;
    SearchExhausts(g, p, end, curFillVal);
    if |path| > 1 {
      var prefix := path[..|path| - 1];
      assert IsOpenPath(g, prefix, curFillVal);
      OpenPathOpened(g, p, end, curFillVal, prefix);
      var n := |path| - 1;
      assert Opened(g, r, prefix[n - 1], curFillVal);
      assert Explored(r, path[n - 1], curFillVal);
      var d :| 0 <= d < 4 && path[n] == Neighbour(path[n - 1], d);
      assert forall k :: 0 <= k < n ==> prefix[k] == path[k];
    }
  }

  /** The search finds the end point whenever an open walk leads there from
      the start through cells this run has not entered. */
  lemma SearchFindsPath(g: Grid, p: Point, end: Point, curFillVal: int, path: seq<Point>)
    requires WellFormed(g) && 0 <= curFillVal < 128
    requires |path| > 0 && path[0] == p && path[|path| - 1] == end && IsOpenPath(g, path, curFillVal)
    ensures SearchForPath(g, p, end, curFillVal).found
  {
    var r := SearchForPath(g, p, end, curFillVal);
    if !r.found {
      OpenPathOpened(g, p, end, curFillVal, path);
      SearchExhausts(g, p, end, curFillVal);
    }
  }
}
