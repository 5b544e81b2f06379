/** The game object around the grid: its size, its live board, the
    rows/cols clamp applied when the size is changed, and puzzle
    generation by toggling an all-off board. The random draws of the
    original become an explicit sequence of moves. */
module Game {
  import opened GridModel
  import opened BoundedSolver

  /** Default number of rows and columns of a new game. */
  const GridSize: nat := 3

  /** Smallest and largest board dimension the size control accepts. */
  const MinDimension: nat := 1
  const MaxDimension: nat := 12

  function Min(a: int, b: int): int
  {
    if a <= b then a else b
  }

  function Max(a: int, b: int): int
  {
    if a >= b then a else b
  }

  /** The clamp applied to a requested number of rows or columns. */
  function ClampDimension(v: int): (d: nat)
    ensures MinDimension <= d <= MaxDimension
    ensures MinDimension <= v <= MaxDimension ==> d == v
    ensures v < MinDimension ==> d == MinDimension
    ensures v > MaxDimension ==> d == MaxDimension
  {
    Max(MinDimension, Min(MaxDimension, v))
  }

  /** The inclusive range from which a random puzzle draws its number of
      moves: at least three moves once the board has three cells, at least
      one on a smaller board, and never more moves than cells. */
  function RandomMoveCountRange(rows: nat, cols: nat): (range: (nat, nat))
    ensures 1 <= range.0 <= range.1 && range.0 <= 3
    ensures range.1 == Max(1, rows * cols)
    ensures range.1 >= 3 ==> range.0 == 3
    ensures range.1 < 3 ==> range.0 == 1
  {
    var maxCells := Max(1, rows * cols);
    if maxCells >= 3 then (3, maxCells) else (1, maxCells)
  }

  /** `draws` is what the random generator can produce for a board of this
      size: an admissible number of moves, each inside the board. */
  predicate RandomDraws(rows: nat, cols: nat, draws: seq<Move>)
  {
    var range := RandomMoveCountRange(rows, cols);
    range.0 <= |draws| <= range.1 && AllInBounds(draws, rows, cols)
  }

  class Board {
    var rows: nat
    var cols: nat
    var state: Grid

    /** The board always has a size in the accepted range, a state of
        that shape, and cells that are 0 or 1. */
    ghost predicate Valid()
      reads this
    {
      MinDimension <= rows <= MaxDimension && MinDimension <= cols <= MaxDimension &&
      IsGrid(state, rows, cols) && IsBinary(state)
    }

    /** A new game: the default size and a first generated puzzle. */
    constructor (draws: seq<Move>)
      ensures Valid() && rows == GridSize && cols == GridSize
      ensures state == Apply(rows, cols, AllOff(rows, cols), draws)
    {
      rows, cols := GridSize, GridSize;
      state := AllOff(GridSize, GridSize);
      new;
      GeneratePuzzle(draws);
    }

    /** Toggle (r, c) on the live board. */
    method ToggleState(r: int, c: int)
      requires Valid()
      modifies this
      ensures Valid() && rows == old(rows) && cols == old(cols)
      ensures state == Toggle(rows, cols, old(state), Move(r, c))
    {
      TogglePreservesBinary(rows, cols, state, Move(r, c));
      state := ToggleCell(rows, cols, state, r, c);
    }

    /** The game is over when the live board is all off. */
    function IsGameOver(): (over: bool)
      reads this
      requires Valid()
      ensures over <==> state == AllOff(rows, cols)
    {
      SolvedIffAllOff(rows, cols, state);
      IsSolved(state)
    }

    /** Reset the board to all off and toggle each drawn move in turn. */
    method GeneratePuzzle(draws: seq<Move>)
      requires Valid()
      modifies this
      ensures Valid() && rows == old(rows) && cols == old(cols)
      ensures state == Apply(rows, cols, AllOff(rows, cols), draws)
    {
      state := AllOff(rows, cols);
      for k := 0 to |draws|
        invariant Valid() && rows == old(rows) && cols == old(cols)
        invariant state == Apply(rows, cols, AllOff(rows, cols), draws[..k])
      {
        ApplyAppend(rows, cols, AllOff(rows, cols), draws[..k], [draws[k]]);
        assert draws[..k + 1] == draws[..k] + [draws[k]];
        ToggleState(draws[k].row, draws[k].col);
      }
      assert draws[..|draws|] == draws;
    }

    /** Resize to the clamped request, then generate a fresh puzzle. */
    method SetGrid(r: int, c: int, draws: seq<Move>)
      requires Valid()
      modifies this
      ensures Valid() && rows == ClampDimension(r) && cols == ClampDimension(c)
      ensures state == Apply(rows, cols, AllOff(rows, cols), draws)
    {
      rows := ClampDimension(r);
      cols := ClampDimension(c);
      state := AllOff(rows, cols);
      GeneratePuzzle(draws);
    }
  }

  /** A generated puzzle is solved by replaying its moves, in their own
      order or in any other. */
  lemma GeneratedPuzzleSolvedByReplay(rows: nat, cols: nat, draws: seq<Move>, replay: seq<Move>)
    requires multiset(replay) == multiset(draws)
    ensures IsSolved(Apply(rows, cols, Apply(rows, cols, AllOff(rows, cols), draws), replay))
  {
    ApplyReplay(rows, cols, AllOff(rows, cols), draws, replay);
  }

  /** The solver never reports "not found" on a generated puzzle: its
      draws are themselves a solution within the rows * cols bound, so the
      depth loop returns a solution, and one no longer than the draws. */
  lemma GeneratedPuzzleIsSolvable(rows: nat, cols: nat, draws: seq<Move>)
    requires RandomDraws(rows, cols, draws)
    ensures var puzzle := Apply(rows, cols, AllOff(rows, cols), draws);
            var res := Deepen(rows, cols, puzzle, 0, rows * cols);
            res.Some? && Solves(rows, cols, puzzle, res.value) && |res.value| <= |draws|
  {
    var puzzle := Apply(rows, cols, AllOff(rows, cols), draws);
    GeneratedPuzzleSolvedByReplay(rows, cols, draws, draws);
    assert Solves(rows, cols, puzzle, draws);
    assert rows * cols >= 1 by {
      assert |draws| >= 1;
      assert InBounds(draws[0], rows, cols);
    }
    DeepenOptimal(rows, cols, puzzle, 0, rows * cols, draws);
    DeepenSound(rows, cols, puzzle, 0, rows * cols);
  }
}
