/** The zigzag traversal of a grid, diagonal by diagonal in alternating direction. */
module ZigZag {
  datatype Cell = Cell(x: nat, y: nat)

  ghost predicate InGrid(c: Cell, width: nat, height: nat) {
    c.x < width && c.y < height
  }

  /** The order of the traversal: by diagonal; rightwards on even diagonals, downwards on odd ones. */
  ghost predicate Before(a: Cell, b: Cell) {
    || a.x + a.y < b.x + b.y
    || (a.x + a.y == b.x + b.y && if (a.x + a.y) % 2 == 0 then a.x < b.x else a.y < b.y)
  }

  lemma Total(a: Cell, b: Cell)
    ensures Before(a, b) || Before(b, a) || a == b
    ensures !(Before(a, b) && Before(b, a)) && !Before(a, a)
  {
  }

  /** `zigzag_pair`, stepped in place. */
  class ZigZagPair {
    var x: nat
    var y: nat

    constructor (x: nat, y: nat)
      ensures this.x == x && this.y == y
    {
      this.x, this.y := x, y;
    }

    ghost function At(): Cell
      reads this
    {
      Cell(x, y)
    }

    /** From a cell of the grid to the next one in the traversal's order, with none in between; from
        the last cell to the end sentinel. */
    method Next(width: nat, height: nat)
      requires InGrid(At(), width, height)
      modifies this
      ensures old(At()) == Cell(width - 1, height - 1) ==> At() == Cell(width, height)
      ensures old(At()) != Cell(width - 1, height - 1) ==>
        && InGrid(At(), width, height) && Before(old(At()), At())
        && forall c :: InGrid(c, width, height) && Before(old(At()), c) ==> c == At() || Before(At(), c)
    {
      var ymax := height - 1;
      var xmax := width - 1;
      if x >= xmax && y >= ymax {
        x := width;
        y := height;
        return;
      }
      if (x + y) % 2 == 1 {
        if y == ymax {
          x := x + 1;
          return;
        }
        if x == 0 {
          y := y + 1;
          return;
        }
        y := y + 1;
        x := x - 1;
      } else {
        if x == xmax {
          y := y + 1;
          return;
        }
        if y == 0 {
          x := x + 1;
          return;
        }
        x := x + 1;
        y := y - 1;
      }
    }
  }

  // ----- The whole traversal -----

  ghost function Grid(width: nat, height: nat): (g: set<Cell>)
    ensures forall c :: c in g <==> InGrid(c, width, height)
  {
    var g := set x: nat, y: nat | 0 <= x < width && 0 <= y < height :: Cell(x, y);
    assert forall c: Cell :: InGrid(c, width, height) ==> c == Cell(c.x, c.y);
    g
  }

  ghost function Row(width: nat, y: nat): (r: set<Cell>)
    ensures forall c :: c in r <==> c.x < width && c.y == y
  {
    var r := set x: nat | 0 <= x < width :: Cell(x, y);
    assert forall c: Cell :: c.y == y ==> c == Cell(c.x, y);
    r
  }

  lemma {:induction false} RowSize(width: nat, y: nat)
    ensures |Row(width, y)| == width
  {
    if width > 0 {
      RowSize(width - 1, y);
      assert Row(width, y) == Row(width - 1, y) + {Cell(width - 1, y)};
    } else {
      assert Row(width, y) == {};
    }
  }

  lemma GridSplit(width: nat, height: nat)
    requires height > 0
    ensures Grid(width, height) == Grid(width, height - 1) + Row(width, height - 1)
    ensures Grid(width, height - 1) !! Row(width, height - 1)
  {
    hide Grid, Row;
  }

  lemma {:induction false} GridSize(width: nat, height: nat)
    ensures |Grid(width, height)| == width * height
  {
    hide Grid, Row;
    if height > 0 {
      GridSize(width, height - 1);
      RowSize(width, height - 1);
      GridSplit(width, height);
      OneMore(width, height);
    } else {
      assert Grid(width, height) == {};
    }
  }

  lemma OneMore(width: nat, height: nat)
    requires height > 0
    ensures width * height == width * (height - 1) + width
  {
  }

  lemma ProperSize(a: set<Cell>, b: set<Cell>, c: Cell)
    requires a <= b && c in b && c !in a
    ensures |a| < |b|
  {
    assert b == a + (b - a);
    assert c in b - a;
  }

  /** The cells already visited when the traversal stands at c. */
  ghost function Visited(width: nat, height: nat, c: Cell): set<Cell> {
    set d | d in Grid(width, height) && Before(d, c)
  }

  lemma VisitedBefore(width: nat, height: nat, c: Cell)
    ensures c !in Visited(width, height, c)
    ensures forall d :: d in Visited(width, height, c) ==> d in Grid(width, height) && Before(d, c)
  {
  }

  ghost predicate Ascending(cells: seq<Cell>) {
    forall i, j :: 0 <= i < j < |cells| ==> Before(cells[i], cells[j])
  }

  lemma AscendingSnoc(cells: seq<Cell>, c: Cell)
    requires Ascending(cells) && forall d :: d in cells ==> Before(d, c)
    ensures Ascending(cells + [c])
  {
    hide Before;
  }

  lemma AscendingDistinct(cells: seq<Cell>)
    requires Ascending(cells)
    ensures forall i, j :: 0 <= i < j < |cells| ==> cells[i] != cells[j]
  {
  }

  lemma NothingVisited(width: nat, height: nat)
    ensures Visited(width, height, Cell(0, 0)) == {}
  {
  }

  /** Walking from begin to end meets every cell of the grid exactly once, in width * height steps. */
  method Traverse(width: nat, height: nat) returns (cells: seq<Cell>)
    requires width >= 1 && height >= 1
    ensures |cells| == width * height
    ensures forall c :: c in cells <==> InGrid(c, width, height)
    ensures forall i, j :: 0 <= i < j < |cells| ==> cells[i] != cells[j]
    ensures Ascending(cells)
  {
    hide Before, Visited;
    var p := new ZigZagPair(0, 0);
    cells := [];
    ghost var grid: set<Cell>, seen: set<Cell> := Grid(width, height), {};
    NothingVisited(width, height);
    while p.x != width || p.y != height
      invariant fresh(p)
      invariant p.At() == Cell(width, height) ||
                (InGrid(p.At(), width, height) && seen == Visited(width, height, p.At()))
      invariant p.At() == Cell(width, height) ==> seen == grid
      invariant seen <= grid && |seen| == |cells|
      invariant forall c :: c in seen <==> c in cells
      invariant Ascending(cells)
      decreases |grid| - |seen|
    {
      ghost var c := p.At();
      VisitedBefore(width, height, c);
      ProperSize(seen, grid, c);
      AscendingSnoc(cells, c);
      cells := cells + [Cell(p.x, p.y)];
      seen := seen + {c};
      p.Next(width, height);
      if p.At() != Cell(width, height) {
        NextVisited(width, height, c, p.At());
      } else {
        LastVisited(width, height);
      }
    }
    GridSize(width, height);
    AscendingDistinct(cells);
  }

  lemma NextVisited(width: nat, height: nat, c: Cell, n: Cell)
    requires InGrid(c, width, height) && Before(c, n)
    requires forall d :: InGrid(d, width, height) && Before(c, d) ==> d == n || Before(n, d)
    ensures Visited(width, height, n) == Visited(width, height, c) + {c}
  {
    forall d | d in Grid(width, height) ensures Before(d, n) <==> Before(d, c) || d == c {
      Total(d, c);
      Total(d, n);
    }
  }

  lemma LastVisited(width: nat, height: nat)
    requires width >= 1 && height >= 1
    ensures Visited(width, height, Cell(width - 1, height - 1)) + {Cell(width - 1, height - 1)} == Grid(width, height)
  {
  }

  /** Nothing lies between two cells that are this close. */
  lemma NextIs(a: Cell, b: Cell)
    requires Before(a, b)
    requires a.x + a.y == b.x + b.y ==> if (a.x + a.y) % 2 == 0 then b.x == a.x + 1 else b.y == a.y + 1
    requires a.x + a.y != b.x + b.y ==> a.x + a.y + 1 == b.x + b.y
    requires a.x + a.y != b.x + b.y ==> if (a.x + a.y) % 2 == 0 then a.y == 0 && b.y == 0 else a.x == 0 && b.x == 0
    ensures forall c :: Before(a, c) ==> c == b || Before(b, c)
  {
  }

  /** Steps to the cell that comes next. */
  method StepTo(p: ZigZagPair, width: nat, height: nat, c: Cell)
    requires InGrid(p.At(), width, height) && InGrid(c, width, height) && Before(p.At(), c)
    requires forall e :: Before(p.At(), e) ==> e == c || Before(c, e)
    modifies p
    ensures p.At() == c
  {
    Total(c, Cell(width - 1, height - 1));
    p.Next(width, height);
    Total(p.At(), c);
  }

  /** The first steps in any grid that has room for them: right, down to the left edge, down, up to the
      upper edge. */
  method FirstSteps(width: nat, height: nat) returns (cells: seq<Cell>)
    requires width >= 3 && height >= 3
    ensures cells == [Cell(0, 0), Cell(1, 0), Cell(0, 1), Cell(0, 2), Cell(1, 1), Cell(2, 0)]
  {
    var p := new ZigZagPair(0, 0);
    var next := [Cell(1, 0), Cell(0, 1), Cell(0, 2), Cell(1, 1), Cell(2, 0)];
    cells := [Cell(p.x, p.y)];
    for k := 0 to 5
      invariant p.At() == (if k == 0 then Cell(0, 0) else next[k - 1]) && cells == [Cell(0, 0)] + next[..k]
    {
      NextIs(p.At(), next[k]);
      StepTo(p, width, height, next[k]);
      cells := cells + [Cell(p.x, p.y)];
    }
  }
}
