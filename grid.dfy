/** The Lights Out board as a value: a rows x cols grid of cells that are
    lit (1) or unlit (0), the plus-shaped toggle, the all-off test, and the
    effect of a whole sequence of toggles. */
module GridModel {

  /** A board state. The solver keys its visited set by this value too:
      two grids are the same key exactly when they are equal. */
  type Grid = seq<seq<int>>

  /** A toggle position (row, column). Any integers are accepted; the
      toggle skips whatever part of the plus shape falls off the board. */
  datatype Move = Move(row: int, col: int)

  /** `g` has `rows` rows of `cols` cells each. */
  predicate IsGrid(g: Grid, rows: nat, cols: nat)
  {
    |g| == rows && forall i :: 0 <= i < rows ==> |g[i]| == cols
  }

  /** Every cell of `g` is 0 or 1. */
  predicate IsBinary(g: Grid)
  {
    forall i, j :: 0 <= i < |g| && 0 <= j < |g[i]| ==> g[i][j] == 0 || g[i][j] == 1
  }

  predicate InBounds(m: Move, rows: nat, cols: nat)
  {
    0 <= m.row < rows && 0 <= m.col < cols
  }

  predicate AllInBounds(ms: seq<Move>, rows: nat, cols: nat)
  {
    forall k :: 0 <= k < |ms| ==> InBounds(ms[k], rows, cols)
  }

  function Abs(x: int): nat
  {
    if x < 0 then -x else x
  }

  /** Cell (i, j) is hit by a toggle at `m`: it is `m` itself or one of its
      four orthogonal neighbours, i.e. at Manhattan distance at most 1. */
  predicate Near(i: int, j: int, m: Move)
  {
    Abs(i - m.row) + Abs(j - m.col) <= 1
  }

  /** The cells the source's toggle visits, in its order: the cell, then
      up, down, left and right. */
  function Neighbourhood(m: Move): seq<Move>
  {
    [m, Move(m.row - 1, m.col), Move(m.row + 1, m.col), Move(m.row, m.col - 1), Move(m.row, m.col + 1)]
  }

  /** Reference meaning of a toggle: every in-bounds cell near `m` is
      flipped (x becomes 1 - x), every other cell keeps its value. */
  function Toggle(rows: nat, cols: nat, g: Grid, m: Move): (t: Grid)
    requires IsGrid(g, rows, cols)
    ensures IsGrid(t, rows, cols)
  {
    seq(rows, i requires 0 <= i < rows =>
      seq(cols, j requires 0 <= j < cols =>
        if Near(i, j, m) then 1 - g[i][j] else g[i][j]))
  }

  /** The toggle as the source performs it: walk the five listed cells and
      flip, in place, each one that lies inside the board. */
  method ToggleCell(rows: nat, cols: nat, grid: Grid, r: int, c: int) returns (g: Grid)
    requires IsGrid(grid, rows, cols)
    ensures IsGrid(g, rows, cols)
    ensures g == Toggle(rows, cols, grid, Move(r, c))
  {
    g := grid;
    var cells := Neighbourhood(Move(r, c));
    for k := 0 to |cells|
      invariant IsGrid(g, rows, cols)
      invariant forall i, j :: 0 <= i < rows && 0 <= j < cols ==>
                  g[i][j] == if Move(i, j) in cells[..k] then 1 - grid[i][j] else grid[i][j]
    {
      var i, j := cells[k].row, cells[k].col;
      assert cells[k] !in cells[..k];
      assert cells[..k + 1] == cells[..k] + [cells[k]];
      if 0 <= i < rows && 0 <= j < cols {
        g := g[i := g[i][j := 1 - g[i][j]]];
      }
    }
    assert cells[..|cells|] == cells;
    NearIsNeighbourhood(r, c);
    GridExt(rows, cols, g, Toggle(rows, cols, grid, Move(r, c)));
  }

  /** The Manhattan-distance reading of `Near` and the source's five-cell
      list describe the same cells. */
  lemma NearIsNeighbourhood(r: int, c: int)
    ensures forall i, j :: Near(i, j, Move(r, c)) <==> Move(i, j) in Neighbourhood(Move(r, c))
  {
  }

  /** Two grids of the same shape with the same cells are equal. */
  lemma GridExt(rows: nat, cols: nat, a: Grid, b: Grid)
    requires IsGrid(a, rows, cols) && IsGrid(b, rows, cols)
    requires forall i, j :: 0 <= i < rows && 0 <= j < cols ==> a[i][j] == b[i][j]
    ensures a == b
  {
    forall i | 0 <= i < rows
      ensures a[i] == b[i]
    {
      assert forall j :: 0 <= j < cols ==> a[i][j] == b[i][j];
    }
  }

  /** A toggle flips cells only in place, so it keeps every cell in {0, 1}. */
  lemma TogglePreservesBinary(rows: nat, cols: nat, g: Grid, m: Move)
    requires IsGrid(g, rows, cols) && IsBinary(g)
    ensures IsBinary(Toggle(rows, cols, g, m))
  {
  }

  /** Toggling the same cell twice restores the grid, since 1 - (1 - x) = x. */
  lemma ToggleInvolution(rows: nat, cols: nat, g: Grid, m: Move)
    requires IsGrid(g, rows, cols)
    ensures Toggle(rows, cols, Toggle(rows, cols, g, m), m) == g
  {
    var t := Toggle(rows, cols, Toggle(rows, cols, g, m), m);
    GridExt(rows, cols, t, g);
  }

  /** The all-off board of the given shape. */
  function AllOff(rows: nat, cols: nat): (g: Grid)
    ensures IsGrid(g, rows, cols) && IsBinary(g)
    ensures forall i, j :: 0 <= i < rows && 0 <= j < cols ==> g[i][j] == 0
  {
    seq(rows, _ => seq(cols, _ => 0))
  }

  /** The game is over: every cell is unlit, i.e. every row is a row of
      zeros. */
  predicate IsSolved(g: Grid)
    ensures IsSolved(g) <==> forall i :: 0 <= i < |g| ==> g[i] == seq(|g[i]|, _ => 0)
  {
    forall i, j :: 0 <= i < |g| && 0 <= j < |g[i]| ==> g[i][j] == 0
  }

  /** A grid is solved exactly when it is the all-off grid of its shape. */
  lemma SolvedIffAllOff(rows: nat, cols: nat, g: Grid)
    requires IsGrid(g, rows, cols)
    ensures IsSolved(g) <==> g == AllOff(rows, cols)
  {
  }

  /** The grid reached by toggling at each move of `ms`, in order. */
  function Apply(rows: nat, cols: nat, g: Grid, ms: seq<Move>): (r: Grid)
    requires IsGrid(g, rows, cols)
    ensures IsGrid(r, rows, cols)
    decreases ms
  {
    if ms == [] then g else Apply(rows, cols, Toggle(rows, cols, g, ms[0]), ms[1..])
  }

  /** Applying `a ++ b` is applying `a` and then `b`. */
  lemma {:induction false} ApplyAppend(rows: nat, cols: nat, g: Grid, a: seq<Move>, b: seq<Move>)
    requires IsGrid(g, rows, cols)
    ensures Apply(rows, cols, g, a + b) == Apply(rows, cols, Apply(rows, cols, g, a), b)
    decreases a
  {
    if a == [] {
      assert a + b == b;
    } else {
      assert (a + b)[0] == a[0];
      assert (a + b)[1..] == a[1..] + b;
      ApplyAppend(rows, cols, Toggle(rows, cols, g, a[0]), a[1..], b);
    }
  }

  /** Toggling preserves binary cells along any move sequence. */
  lemma {:induction false} ApplyPreservesBinary(rows: nat, cols: nat, g: Grid, ms: seq<Move>)
    requires IsGrid(g, rows, cols) && IsBinary(g)
    ensures IsBinary(Apply(rows, cols, g, ms))
    decreases ms
  {
    if ms != [] {
      TogglePreservesBinary(rows, cols, g, ms[0]);
      ApplyPreservesBinary(rows, cols, Toggle(rows, cols, g, ms[0]), ms[1..]);
    }
  }

  /** How many moves of `ms` hit cell (i, j). */
  function CountNear(ms: seq<Move>, i: int, j: int): nat
  {
    if ms == [] then 0 else (if Near(i, j, ms[0]) then 1 else 0) + CountNear(ms[1..], i, j)
  }

  lemma {:induction false} CountNearAppend(a: seq<Move>, b: seq<Move>, i: int, j: int)
    ensures CountNear(a + b, i, j) == CountNear(a, i, j) + CountNear(b, i, j)
  {
    if a == [] {
      assert a + b == b;
    } else {
      assert (a + b)[0] == a[0];
      assert (a + b)[1..] == a[1..] + b;
      CountNearAppend(a[1..], b, i, j);
    }
  }

  /** Taking the move at index k out of a sequence: what is left, and the
      count it leaves. */
  lemma RemoveAt(b: seq<Move>, k: nat, i: int, j: int)
    requires k < |b|
    ensures multiset(b[..k] + b[k + 1..]) == multiset(b) - multiset{b[k]}
    ensures CountNear(b, i, j) == (if Near(i, j, b[k]) then 1 else 0) + CountNear(b[..k] + b[k + 1..], i, j)
  {
    assert b == b[..k] + [b[k]] + b[k + 1..];
    CountNearAppend(b[..k] + [b[k]], b[k + 1..], i, j);
    CountNearAppend(b[..k], [b[k]], i, j);
    CountNearAppend(b[..k], b[k + 1..], i, j);
  }

  /** The count depends only on which moves occur, not on their order. */
  lemma {:induction false} CountNearPermutation(a: seq<Move>, b: seq<Move>, i: int, j: int)
    requires multiset(a) == multiset(b)
    ensures CountNear(a, i, j) == CountNear(b, i, j)
    decreases |a|
  {
    if a != [] {
      assert a[0] in multiset(b);
      var k :| 0 <= k < |b| && b[k] == a[0];
      RemoveAt(b, k, i, j);
      assert a == [a[0]] + a[1..];
      assert multiset(a[1..]) == multiset(a) - multiset{a[0]};
      CountNearPermutation(a[1..], b[..k] + b[k + 1..], i, j);
    }
  }

  /** A cell's value after a move sequence: flipped iff an odd number of
      the moves hit it. */
  lemma {:induction false} ApplyCell(rows: nat, cols: nat, g: Grid, ms: seq<Move>, i: int, j: int)
    requires IsGrid(g, rows, cols) && 0 <= i < rows && 0 <= j < cols
    ensures Apply(rows, cols, g, ms)[i][j] ==
            if CountNear(ms, i, j) % 2 == 0 then g[i][j] else 1 - g[i][j]
    decreases ms
  {
    if ms != [] {
      ApplyCell(rows, cols, Toggle(rows, cols, g, ms[0]), ms[1..], i, j);
    }
  }

  /** Toggles commute: reordering a move sequence does not change the
      grid it produces. */
  lemma ApplyPermutation(rows: nat, cols: nat, g: Grid, a: seq<Move>, b: seq<Move>)
    requires IsGrid(g, rows, cols) && multiset(a) == multiset(b)
    ensures Apply(rows, cols, g, a) == Apply(rows, cols, g, b)
  {
    forall i, j | 0 <= i < rows && 0 <= j < cols
      ensures Apply(rows, cols, g, a)[i][j] == Apply(rows, cols, g, b)[i][j]
    {
      ApplyCell(rows, cols, g, a, i, j);
      ApplyCell(rows, cols, g, b, i, j);
      CountNearPermutation(a, b, i, j);
    }
    GridExt(rows, cols, Apply(rows, cols, g, a), Apply(rows, cols, g, b));
  }

  /** Replaying a move sequence, in the same or any other order, undoes it. */
  lemma ApplyReplay(rows: nat, cols: nat, g: Grid, ms: seq<Move>, replay: seq<Move>)
    requires IsGrid(g, rows, cols) && multiset(replay) == multiset(ms)
    ensures Apply(rows, cols, Apply(rows, cols, g, ms), replay) == g
  {
    ApplyAppend(rows, cols, g, ms, replay);
    var both := Apply(rows, cols, g, ms + replay);
    forall i, j | 0 <= i < rows && 0 <= j < cols
      ensures both[i][j] == g[i][j]
    {
      ApplyCell(rows, cols, g, ms + replay, i, j);
      CountNearAppend(ms, replay, i, j);
      CountNearPermutation(replay, ms, i, j);
    }
    GridExt(rows, cols, both, g);
  }
}
