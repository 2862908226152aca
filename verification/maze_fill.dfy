/** `Fill` and `FillObj`: recursive flood fills over the maze grid. Both
    have the same shape, so both are one `Flood` from one byte value to
    another over the first `dirs` entries of the neighbour table: `Fill`
    turns the 0 cells reachable through the four straight directions into 1,
    `FillObj` turns the 1 cells reachable through all eight directions into
    the object number truncated to a byte. */
module MazeFill {
  import opened MazeGrid

  /** Every cell of `r` is the cell of `g`, or a `from` cell of `g` turned
      into `to`. */
  predicate Changes(g: Grid, r: Grid, from: Byte, to: Byte) {
    && r.width == g.width && r.height == g.height && |r.cells| == |g.cells|
    && forall j :: 0 <= j < |g.cells| ==> r.cells[j] == g.cells[j] || (g.cells[j] == from && r.cells[j] == to)
  }

  /** `Changes`, read at a point. */
  lemma ChangesAt(g: Grid, r: Grid, from: Byte, to: Byte, q: Point)
    requires WellFormed(g) && Changes(g, r, from, to) && InBounds(g, q)
    ensures WellFormed(r) && InBounds(r, q)
    ensures Cell(r, q) == Cell(g, q) || (Cell(g, q) == from && Cell(r, q) == to)
  {
    IndexInRange(g, q);
  }

  /** Turning one `from` cell into `to` is such a change, and leaves one
      `from` cell fewer. */
  lemma EnterFlood(g: Grid, p: Point, from: Byte, to: Byte)
    requires WellFormed(g) && InBounds(g, p) && Cell(g, p) == from && from != to
    ensures Changes(g, SetCell(g, p, to), from, to)
    ensures CountIn(SetCell(g, p, to).cells, from, from) < CountIn(g.cells, from, from)
  {
    SetCellIndex(g, p, to);
    CountInUpdate(g.cells, Index(g, p), to, from, from);
  }

  /** Such a change never adds a `from` cell. */
  lemma ChangesCount(g: Grid, r: Grid, from: Byte, to: Byte)
    requires Changes(g, r, from, to) && from != to
    ensures CountIn(r.cells, from, from) <= CountIn(g.cells, from, from)
  {
    CountInShrinks(g.cells, r.cells, from, from);
  }

  /** Two such changes in a row make one. */
  lemma ChangesTrans(g: Grid, g1: Grid, r: Grid, from: Byte, to: Byte)
    requires Changes(g, g1, from, to) && Changes(g1, r, from, to)
    ensures Changes(g, r, from, to)
  {
  }

  /** The recursion of `Fill` and `FillObj`: outside the grid, or on a cell
      that does not hold `from`, nothing happens; otherwise the cell becomes
      `to` and the call recurses on the neighbours in table order. */
  function Flood(g: Grid, p: Point, from: Byte, to: Byte, dirs: nat): (r: Grid)
    requires WellFormed(g) && from != to && dirs <= |Neighbours|
    ensures WellFormed(r) && Changes(g, r, from, to)
    decreases CountIn(g.cells, from, from), 0, 0
  {
    if p.y < 0 || p.x < 0 then
      g
    else if p.y >= g.height || p.x >= g.width then
      g
    else if Cell(g, p) == from then
      var g1 := SetCell(g, p, to);
      EnterFlood(g, p, from, to);
      var r := FloodNeighbours(g1, p, from, to, dirs, 0);
      ChangesTrans(g, g1, r, from, to);
      r
    else
      g
  }

  /** The loop over the neighbour table, from entry `i` on. */
  function FloodNeighbours(g: Grid, p: Point, from: Byte, to: Byte, dirs: nat, i: nat): (r: Grid)
    requires WellFormed(g) && from != to && i <= dirs <= |Neighbours|
    ensures WellFormed(r) && Changes(g, r, from, to)
    decreases CountIn(g.cells, from, from), 1, dirs - i
  {
    if i == dirs then
      g
    else
      var g1 := Flood(g, Neighbour(p, i), from, to, dirs);
      ChangesCount(g, g1, from, to);
      var r := FloodNeighbours(g1, p, from, to, dirs, i + 1);
      ChangesTrans(g, g1, r, from, to);
      r
  }

  /** `Fill(pPoint, pData, N, M)`. */
  function Fill(g: Grid, p: Point): (r: Grid)
    requires WellFormed(g)
    ensures WellFormed(r) && Changes(g, r, 0, 1)
    ensures !InBounds(g, p) ==> r == g
  {
    Flood(g, p, 0, 1, 4)
  }

  /** The inputs on which `FillObj` returns: an object number whose low byte
      is not 1, or a start outside the grid, on a cell other than 1, or on a 1
      cell none of whose eight neighbours holds 1. On every other input the
      recursion never returns (see `FillObjCycle`). */
  predicate FillObjReturns(g: Grid, p: Point, nrObj: int)
    requires WellFormed(g)
  {
    nrObj % 256 != 1 || !InBounds(g, p) || Cell(g, p) != 1 || Settled(g, p, 1, 8)
  }

  /** `FillObj(pPoint, pData, nrObj, N, M)`. The store into the byte array
      truncates `nrObj` to its low byte. When that byte is 1 a returning call
      changes nothing: the store rewrites 1 over 1 (`FillObjNoProgress`) and
      every neighbour call returns at once, as no neighbour holds 1. */
  function FillObj(g: Grid, p: Point, nrObj: int): (r: Grid)
    requires WellFormed(g) && FillObjReturns(g, p, nrObj)
    ensures WellFormed(r) && Changes(g, r, 1, nrObj % 256)
    ensures !InBounds(g, p) ==> r == g
    ensures nrObj % 256 == 1 ==> r == g
  {
    if nrObj % 256 == 1 then
      g
    else
      Flood(g, p, 1, nrObj % 256, 8)
  }

  // ---------------------------------------------------------------------
  // No `from` cell is left next to a filled one
  // ---------------------------------------------------------------------

  /** No neighbour of `q` within the first `dirs` entries holds `from`. */
  predicate Settled(r: Grid, q: Point, from: Byte, dirs: nat)
    requires WellFormed(r) && dirs <= |Neighbours|
  {
    forall d :: 0 <= d < dirs && InBounds(r, Neighbour(q, d)) ==> Cell(r, Neighbour(q, d)) != from
  }

  /** Every cell the fill turned from `from` into `to` is settled. */
  ghost predicate Closed(g: Grid, r: Grid, from: Byte, to: Byte, dirs: nat)
    requires WellFormed(g) && Changes(g, r, from, to) && dirs <= |Neighbours|
  {
    forall q :: InBounds(g, q) && Cell(g, q) == from && Cell(r, q) == to
      ==> Settled(r, q, from, dirs)
  }

  /** Later fills only remove `from` cells, so a settled cell stays settled. */
  lemma SettledPersists(g: Grid, r: Grid, from: Byte, to: Byte, dirs: nat, q: Point)
    requires WellFormed(g) && Changes(g, r, from, to) && dirs <= |Neighbours|
    requires Settled(g, q, from, dirs)
    ensures WellFormed(r) && Settled(r, q, from, dirs)
  {
    forall d | 0 <= d < dirs && InBounds(r, Neighbour(q, d))
      ensures Cell(r, Neighbour(q, d)) != from
    {
      ChangesAt(g, r, from, to, Neighbour(q, d));
    }
  }

  lemma {:induction false} FloodClosed(g: Grid, p: Point, from: Byte, to: Byte, dirs: nat)
    requires WellFormed(g) && from != to && dirs <= |Neighbours|
    ensures var r := Flood(g, p, from, to, dirs);
            && Closed(g, r, from, to, dirs)
            && (InBounds(g, p) && Cell(g, p) == from ==> Cell(r, p) == to)
    decreases CountIn(g.cells, from, from), 0, 0
  {
    var r := Flood(g, p, from, to, dirs);
    if InBounds(g, p) && Cell(g, p) == from {
      var g1 := SetCell(g, p, to);
      EnterFlood(g, p, from, to);
      FloodNeighboursClosed(g1, p, from, to, dirs, 0);
      ChangesAt(g1, r, from, to, p);
      forall q | InBounds(g, q) && Cell(g, q) == from && Cell(r, q) == to
        ensures Settled(r, q, from, dirs)
      {
        if q != p {
          assert Cell(g1, q) == from;
        }
      }
    }
  }

  lemma {:induction false} FloodNeighboursClosed(g: Grid, p: Point, from: Byte, to: Byte, dirs: nat, i: nat)
    requires WellFormed(g) && from != to && i <= dirs <= |Neighbours|
    ensures var r := FloodNeighbours(g, p, from, to, dirs, i);
            && Closed(g, r, from, to, dirs)
            && (forall d :: i <= d < dirs && InBounds(g, Neighbour(p, d)) ==> Cell(r, Neighbour(p, d)) != from)
    decreases CountIn(g.cells, from, from), 1, dirs - i
  {
    if i < dirs {
      var r := FloodNeighbours(g, p, from, to, dirs, i);
      var q := Neighbour(p, i);
      var g1 := Flood(g, q, from, to, dirs);
      ChangesCount(g, g1, from, to);
      FloodClosed(g, q, from, to, dirs);
      FloodNeighboursClosed(g1, p, from, to, dirs, i + 1);
      if InBounds(g, q) {
        ChangesAt(g, g1, from, to, q);
        ChangesAt(g1, r, from, to, q);
      }
      ClosedTrans(g, g1, r, from, to, dirs);
    }
  }

  /** Two fills in a row: what each settled stays settled. */
  lemma ClosedTrans(g: Grid, g1: Grid, r: Grid, from: Byte, to: Byte, dirs: nat)
    requires WellFormed(g) && dirs <= |Neighbours|
    requires Changes(g, g1, from, to) && Changes(g1, r, from, to) && Changes(g, r, from, to)
    requires Closed(g, g1, from, to, dirs) && Closed(g1, r, from, to, dirs)
    ensures Closed(g, r, from, to, dirs)
  {
    forall s | InBounds(g, s) && Cell(g, s) == from && Cell(r, s) == to
      ensures Settled(r, s, from, dirs)
    {
      ChangesAt(g, g1, from, to, s);
      ChangesAt(g1, r, from, to, s);
      if Cell(g1, s) == to {
        SettledPersists(g1, r, from, to, dirs, s);
      }
    }
  }

  // ---------------------------------------------------------------------
  // Reachability
  // ---------------------------------------------------------------------

  /** A walk through cells holding `v`, each step one of the first `dirs`
      entries of the neighbour table. */
  predicate IsPath(g: Grid, path: seq<Point>, v: Byte, dirs: nat)
    requires WellFormed(g) && dirs <= |Neighbours|
  {
    && (forall k :: 0 <= k < |path| ==> InBounds(g, path[k]) && Cell(g, path[k]) == v)
    && (forall k :: 0 < k < |path| ==> Adjacent(path[k - 1], path[k], dirs))
  }

  /** A `from` cell next to a cell the fill turned into `to` was filled too. */
  lemma FillsNext(g: Grid, r: Grid, from: Byte, to: Byte, dirs: nat, a: Point, b: Point)
    requires WellFormed(g) && Changes(g, r, from, to) && dirs <= |Neighbours| && Closed(g, r, from, to, dirs)
    requires InBounds(g, a) && InBounds(g, b) && Adjacent(a, b, dirs)
    requires Cell(g, a) == from && Cell(r, a) == to
    requires Cell(g, b) == from
    ensures Cell(r, b) == to
  {
    ChangesAt(g, r, from, to, b);
    assert Settled(r, a, from, dirs);
  }

  /** The fill reaches every cell on a walk of `from` cells from its start. */
  lemma {:induction false} FloodFillsPath(g: Grid, p: Point, from: Byte, to: Byte, dirs: nat, path: seq<Point>)
    requires WellFormed(g) && from != to && dirs <= |Neighbours|
    requires |path| > 0 && path[0] == p && IsPath(g, path, from, dirs)
    ensures var r := Flood(g, p, from, to, dirs);
            forall k :: 0 <= k < |path| ==> InBounds(r, path[k]) && Cell(r, path[k]) == to
    decreases |path|
  {
    var r := Flood(g, p, from, to, dirs);
    FloodClosed(g, p, from, to, dirs);
    if |path| > 1 {
      var prefix := path[..|path| - 1];
      assert IsPath(g, prefix, from, dirs);
      FloodFillsPath(g, p, from, to, dirs, prefix);
      var n := |path| - 1;
      assert prefix[n - 1] == path[n - 1];
      FillsNext(g, r, from, to, dirs, path[n - 1], path[n]);
      assert forall k :: 0 <= k < n ==> prefix[k] == path[k];
    }
  }

  /** After `Fill` from a point, every 0 cell joined to it by a walk of 0
      cells in the four straight directions holds 1. */
  lemma FillReaches(g: Grid, p: Point, path: seq<Point>)
    requires WellFormed(g)
    requires |path| > 0 && path[0] == p && IsPath(g, path, 0, 4)
    ensures forall k :: 0 <= k < |path| ==> InBounds(Fill(g, p), path[k]) && Cell(Fill(g, p), path[k]) == 1
  {
    FloodFillsPath(g, p, 0, 1, 4, path);
  }

  /** After `FillObj` from a point, every 1 cell joined to it by a walk of 1
      cells in any of the eight directions holds the object number's byte. */
  lemma FillObjReaches(g: Grid, p: Point, nrObj: int, path: seq<Point>)
    requires WellFormed(g) && FillObjReturns(g, p, nrObj)
    requires |path| > 0 && path[0] == p && IsPath(g, path, 1, 8)
    ensures forall k :: 0 <= k < |path| ==>
              InBounds(FillObj(g, p, nrObj), path[k]) && Cell(FillObj(g, p, nrObj), path[k]) == nrObj % 256
  {
    if nrObj % 256 != 1 {
      FloodFillsPath(g, p, 1, nrObj % 256, 8, path);
    }
  }

  /** On a cell holding 1, the store of `FillObj` leaves the grid exactly as
      it was precisely when the object number's byte is 1. */
  lemma FillObjNoProgress(g: Grid, p: Point, nrObj: int)
    requires WellFormed(g) && InBounds(g, p) && Cell(g, p) == 1
    ensures SetCell(g, p, nrObj % 256) == g <==> nrObj % 256 == 1
  {
    IndexInRange(g, p);
    if nrObj % 256 == 1 {
      assert SetCell(g, p, nrObj % 256).cells == g.cells;
    }
  }

  /** Why `FillObj` does not return outside `FillObjReturns`: the store changes
      nothing, and every neighbour holding 1, in particular the first one the
      loop recurses into after the neighbours before it return at once, is
      again a start outside `FillObjReturns` on the same grid, because the
      table is symmetric (`NeighbourOpposite`) and leads straight back. */
  lemma FillObjCycle(g: Grid, p: Point, nrObj: int)
    requires WellFormed(g) && !FillObjReturns(g, p, nrObj)
    ensures InBounds(g, p) && SetCell(g, p, nrObj % 256) == g
    ensures exists d :: 0 <= d < 8 && InBounds(g, Neighbour(p, d)) && Cell(g, Neighbour(p, d)) == 1
    ensures forall d :: 0 <= d < 8 && InBounds(g, Neighbour(p, d)) && Cell(g, Neighbour(p, d)) == 1
              ==> !FillObjReturns(g, Neighbour(p, d), nrObj)
  {
    FillObjNoProgress(g, p, nrObj);
    forall d | 0 <= d < 8 && InBounds(g, Neighbour(p, d)) && Cell(g, Neighbour(p, d)) == 1
      ensures !FillObjReturns(g, Neighbour(p, d), nrObj)
    {
      NeighbourBack(g, p, d);
    }
  }

  /** A 1 cell next to the 1 cell `p` has `p` among its own neighbours. */
  lemma NeighbourBack(g: Grid, p: Point, d: nat)
    requires WellFormed(g) && InBounds(g, p) && Cell(g, p) == 1 && d < 8
    requires InBounds(g, Neighbour(p, d)) && Cell(g, Neighbour(p, d)) == 1
    ensures !Settled(g, Neighbour(p, d), 1, 8)
  {
    NeighbourOpposite(p, d);
    assert Neighbour(Neighbour(p, d), Opposite(d)) == p;
  }
}
