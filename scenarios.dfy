/** Worked examples of the solver's depth loop on small boards, showing
    the row-major enumeration order and the shortest-first search. */
module SolverScenarios {
  import opened GridModel
  import opened BoundedSolver

  /** A single lit cell on a 1 x 1 board: bound 0 fails, bound 1 finds the
      one move (0, 0). */
  lemma SingleLitCell()
    ensures Deepen(1, 1, [[1]], 0, 1) == Some([Move(0, 0)])
  {
    var g: Grid := [[1]];
    assert !IsSolved(g) by { assert g[0][0] == 1; }
    var t := Toggle(1, 1, g, Move(0, 0));
    assert t[0][0] == 0;
    assert IsSolved(t);
    assert t != g by { assert t[0][0] != g[0][0]; }
    assert [] + [Move(0, 0)] == [Move(0, 0)];
    assert Dfs(1, 1, t, 0, [] + [Move(0, 0)], {g} + {t}) == Some([Move(0, 0)]);
    assert Scan(1, 1, g, 1, [], {g}, 0, 0) == Some([Move(0, 0)]);
    assert Dfs(1, 1, g, 0, [], {g}) == None;
    assert Deepen(1, 1, g, 1, 1) == Some([Move(0, 0)]);
  }

  /** At budget 1, a move that leaves some cell (i, j) lit fails, and the
      scan moves on to the next cell. */
  lemma DeadEndSkipped(rows: nat, cols: nat, s: Grid, path: seq<Move>, visited: set<Grid>,
                       r: nat, c: nat, i: nat, j: nat)
    requires IsGrid(s, rows, cols) && r < rows && c < cols && i < rows && j < cols
    requires Toggle(rows, cols, s, Move(r, c))[i][j] != 0
    ensures Scan(rows, cols, s, 1, path, visited, r, c) == Scan(rows, cols, s, 1, path, visited, r, c + 1)
  {
  }

  /** The 3 x 3 board with only the centre toggled. */
  function CentreBoard(): (g: Grid)
    ensures IsGrid(g, 3, 3)
  {
    Toggle(3, 3, AllOff(3, 3), Move(1, 1))
  }

  /** The four moves before the centre in row-major order each leave a lit
      cell, so at budget 1 the scan reaches the centre. */
  lemma CentreDeadEnds(V: set<Grid>)
    ensures Scan(3, 3, CentreBoard(), 1, [], V, 0, 0) == Scan(3, 3, CentreBoard(), 1, [], V, 1, 1)
  {
    var g := CentreBoard();
    DeadEndSkipped(3, 3, g, [], V, 0, 0, 1, 1);
    DeadEndSkipped(3, 3, g, [], V, 0, 1, 2, 1);
    DeadEndSkipped(3, 3, g, [], V, 0, 2, 1, 1);
    DeadEndSkipped(3, 3, g, [], V, 1, 0, 0, 1);
  }

  /** The centre toggle itself solves the board. */
  lemma CentreMoveSolves()
    ensures Scan(3, 3, CentreBoard(), 1, [], {CentreBoard()}, 1, 1) == Some([Move(1, 1)])
  {
    var off := AllOff(3, 3);
    var g := CentreBoard();
    var t := Toggle(3, 3, g, Move(1, 1));
    ToggleInvolution(3, 3, off, Move(1, 1));
    assert t != g by {
      assert t[1][1] != g[1][1];
    }
    assert [] + [Move(1, 1)] == [Move(1, 1)];
    assert Dfs(3, 3, t, 0, [] + [Move(1, 1)], {g} + {t}) == Some([Move(1, 1)]);
  }

  /** The 3 x 3 puzzle made by toggling the centre: bound 0 fails, and at
      bound 1 the search returns exactly the centre toggle. */
  lemma CentrePuzzle()
    ensures Deepen(3, 3, CentreBoard(), 0, 9) == Some([Move(1, 1)])
  {
    var g := CentreBoard();
    assert Dfs(3, 3, g, 0, [], {g}) == None by {
      assert g[1][1] == 1;
    }
    CentreDeadEnds({g});
    CentreMoveSolves();
    assert Deepen(3, 3, g, 1, 9) == Some([Move(1, 1)]);
  }
}
