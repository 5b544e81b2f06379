/** The bounded solver: a depth-limited depth-first search over board
    states that tries moves in row-major order and prunes states already on
    the current path, driven by an iterative-deepening loop over depth
    bounds 0 .. rows * cols. */
module BoundedSolver {
  import opened GridModel

  datatype Option<T> = None | Some(value: T)

  /** `ms` is an in-bounds move sequence that turns `s` all-off. */
  predicate Solves(rows: nat, cols: nat, s: Grid, ms: seq<Move>)
    requires IsGrid(s, rows, cols)
  {
    AllInBounds(ms, rows, cols) && IsSolved(Apply(rows, cols, s, ms))
  }

  /** The states passed through after each move of `ms` from `s` (not `s`
      itself). */
  function StatesAlong(rows: nat, cols: nat, s: Grid, ms: seq<Move>): set<Grid>
    requires IsGrid(s, rows, cols)
    decreases ms
  {
    if ms == [] then {}
    else
      var t := Toggle(rows, cols, s, ms[0]);
      {t} + StatesAlong(rows, cols, t, ms[1..])
  }

  /** No state repeats on the walk from `s` along `ms`, `s` included. */
  predicate Simple(rows: nat, cols: nat, s: Grid, ms: seq<Move>)
    requires IsGrid(s, rows, cols)
    decreases ms
  {
    s !in StatesAlong(rows, cols, s, ms) &&
    (ms == [] || Simple(rows, cols, Toggle(rows, cols, s, ms[0]), ms[1..]))
  }

  /** What the recursive search returns for `state` with `depthLeft` moves
      of budget, given the current `path` and the set `visited` of states on
      it: the path itself if `state` is solved, nothing if the budget is
      spent, otherwise the outcome of trying every move in row-major order.
      A solved state is reported even when no budget is left, and a result
      is longer than `path` by at most `depthLeft` moves, and by at least
      one when `state` is unsolved. */
  function Dfs(rows: nat, cols: nat, state: Grid, depthLeft: nat,
               path: seq<Move>, visited: set<Grid>): (res: Option<seq<Move>>)
    requires IsGrid(state, rows, cols)
    ensures IsSolved(state) ==> res == Some(path)
    ensures res.Some? ==> |res.value| <= |path| + depthLeft
    ensures res.Some? && !IsSolved(state) ==> |path| < |res.value|
    decreases depthLeft, rows + 1, 0
  {
    if IsSolved(state) then Some(path)
    else if depthLeft == 0 then None
    else Scan(rows, cols, state, depthLeft, path, visited, 0, 0)
  }

  /** The move loop of the search, from cell (r, c) on: a move whose
      resulting state is on the path is skipped; otherwise the search
      recurses on it, and the first success is returned. Every move tried
      is committed to the path, so a result is longer than `path` by
      between one and `depthLeft` moves. */
  function Scan(rows: nat, cols: nat, state: Grid, depthLeft: nat,
                path: seq<Move>, visited: set<Grid>, r: nat, c: nat): (res: Option<seq<Move>>)
    requires IsGrid(state, rows, cols) && 0 < depthLeft && r <= rows && c <= cols
    ensures res.Some? ==> |path| < |res.value| <= |path| + depthLeft
    decreases depthLeft, rows - r, cols - c
  {
    if r == rows then None
    else if c == cols then Scan(rows, cols, state, depthLeft, path, visited, r + 1, 0)
    else
      var m := Move(r, c);
      var t := Toggle(rows, cols, state, m);
      if t in visited then Scan(rows, cols, state, depthLeft, path, visited, r, c + 1)
      else match Dfs(rows, cols, t, depthLeft - 1, path + [m], visited + {t})
        case Some(p) => Some(p)
        case None => Scan(rows, cols, state, depthLeft, path, visited, r, c + 1)
  }

  /** A result of the search extends `path` by at most `depthLeft` in-bounds
      moves that solve `state`, and passes through no state of `visited`. */
  lemma {:induction false} DfsSound(rows: nat, cols: nat, state: Grid, depthLeft: nat,
                                    path: seq<Move>, visited: set<Grid>)
    requires IsGrid(state, rows, cols)
    ensures var res := Dfs(rows, cols, state, depthLeft, path, visited);
            res.Some? ==>
              path <= res.value && |res.value| <= |path| + depthLeft &&
              Solves(rows, cols, state, res.value[|path|..]) &&
              StatesAlong(rows, cols, state, res.value[|path|..]) !! visited
    decreases depthLeft, rows + 1, 0
  {
    if IsSolved(state) {
      assert path[|path|..] == [];
    } else if depthLeft > 0 {
      ScanSound(rows, cols, state, depthLeft, path, visited, 0, 0);
    }
  }

  lemma {:induction false} ScanSound(rows: nat, cols: nat, state: Grid, depthLeft: nat,
                                     path: seq<Move>, visited: set<Grid>, r: nat, c: nat)
    requires IsGrid(state, rows, cols) && 0 < depthLeft && r <= rows && c <= cols
    ensures var res := Scan(rows, cols, state, depthLeft, path, visited, r, c);
            res.Some? ==>
              path <= res.value && |res.value| <= |path| + depthLeft &&
              Solves(rows, cols, state, res.value[|path|..]) &&
              StatesAlong(rows, cols, state, res.value[|path|..]) !! visited
    decreases depthLeft, rows - r, cols - c
  {
    if r == rows {
    } else if c == cols {
      ScanSound(rows, cols, state, depthLeft, path, visited, r + 1, 0);
    } else {
      var m := Move(r, c);
      var t := Toggle(rows, cols, state, m);
      if t in visited {
        ScanSound(rows, cols, state, depthLeft, path, visited, r, c + 1);
      } else {
        var sub := Dfs(rows, cols, t, depthLeft - 1, path + [m], visited + {t});
        DfsSound(rows, cols, t, depthLeft - 1, path + [m], visited + {t});
        if sub.Some? {
          var p := sub.value;
          var rest := p[|path| + 1..];
          assert p[|path|] == m;
          assert p[|path|..] == [m] + rest;
          assert p[|path|..][1..] == rest;
          assert path <= p;
        } else {
          ScanSound(rows, cols, state, depthLeft, path, visited, r, c + 1);
        }
      }
    }
  }

  /** Conversely, the search succeeds whenever some in-bounds solution of
      length at most `depthLeft` walks through distinct states, none of
      them in `visited`. */
  lemma {:induction false} DfsComplete(rows: nat, cols: nat, state: Grid, depthLeft: nat,
                                       path: seq<Move>, visited: set<Grid>, ext: seq<Move>)
    requires IsGrid(state, rows, cols)
    requires Solves(rows, cols, state, ext) && |ext| <= depthLeft
    requires Simple(rows, cols, state, ext)
    requires StatesAlong(rows, cols, state, ext) !! visited
    ensures Dfs(rows, cols, state, depthLeft, path, visited).Some?
    decreases depthLeft, rows + 1, 0
  {
    if !IsSolved(state) {
      assert ext != [];
      assert InBounds(ext[0], rows, cols);
      ScanComplete(rows, cols, state, depthLeft, path, visited, ext, 0, 0);
    }
  }

  lemma {:induction false} ScanComplete(rows: nat, cols: nat, state: Grid, depthLeft: nat,
                                        path: seq<Move>, visited: set<Grid>, ext: seq<Move>,
                                        r: nat, c: nat)
    requires IsGrid(state, rows, cols) && 0 < depthLeft && r <= rows && c <= cols
    requires ext != [] && Solves(rows, cols, state, ext) && |ext| <= depthLeft
    requires Simple(rows, cols, state, ext)
    requires StatesAlong(rows, cols, state, ext) !! visited
    requires r < ext[0].row || (r == ext[0].row && c <= ext[0].col)
    ensures Scan(rows, cols, state, depthLeft, path, visited, r, c).Some?
    decreases depthLeft, rows - r, cols - c
  {
    assert InBounds(ext[0], rows, cols);
    if c == cols {
      ScanComplete(rows, cols, state, depthLeft, path, visited, ext, r + 1, 0);
    } else {
      var m := Move(r, c);
      var t := Toggle(rows, cols, state, m);
      if m == ext[0] {
        var rest := ext[1..];
        assert t in StatesAlong(rows, cols, state, ext);
        assert StatesAlong(rows, cols, t, rest) <= StatesAlong(rows, cols, state, ext);
        assert AllInBounds(rest, rows, cols) by {
          assert forall k :: 0 <= k < |rest| ==> rest[k] == ext[k + 1];
        }
        DfsComplete(rows, cols, t, depthLeft - 1, path + [m], visited + {t}, rest);
      } else if t in visited {
        ScanComplete(rows, cols, state, depthLeft, path, visited, ext, r, c + 1);
      } else if Dfs(rows, cols, t, depthLeft - 1, path + [m], visited + {t}).None? {
        ScanComplete(rows, cols, state, depthLeft, path, visited, ext, r, c + 1);
      }
    }
  }

  /** Every state on the walk is reached by some prefix of it. */
  lemma {:induction false} StateOnWalk(rows: nat, cols: nat, s: Grid, ms: seq<Move>, x: Grid)
    returns (k: nat)
    requires IsGrid(s, rows, cols) && x in StatesAlong(rows, cols, s, ms)
    ensures 1 <= k <= |ms| && Apply(rows, cols, s, ms[..k]) == x
    decreases ms
  {
    var t := Toggle(rows, cols, s, ms[0]);
    assert ms[..1][1..] == [];
    if x == t {
      k := 1;
    } else {
      var k' := StateOnWalk(rows, cols, t, ms[1..], x);
      k := k' + 1;
      assert ms[..k][0] == ms[0];
      assert ms[..k][1..] == ms[1..][..k'];
    }
  }

  /** A walk that is not simple visits some state twice. */
  lemma {:induction false} FindRepeat(rows: nat, cols: nat, s: Grid, ms: seq<Move>)
    returns (i: nat, j: nat)
    requires IsGrid(s, rows, cols) && !Simple(rows, cols, s, ms)
    ensures i < j <= |ms| && Apply(rows, cols, s, ms[..i]) == Apply(rows, cols, s, ms[..j])
    decreases ms
  {
    if s in StatesAlong(rows, cols, s, ms) {
      j := StateOnWalk(rows, cols, s, ms, s);
      i := 0;
      assert ms[..0] == [];
    } else {
      var t := Toggle(rows, cols, s, ms[0]);
      var i', j' := FindRepeat(rows, cols, t, ms[1..]);
      i, j := i' + 1, j' + 1;
      assert ms[..i][0] == ms[0] && ms[..i][1..] == ms[1..][..i'];
      assert ms[..j][0] == ms[0] && ms[..j][1..] == ms[1..][..j'];
    }
  }

  /** Cutting out the loops of a solution leaves a simple solution that is
      no longer. */
  lemma {:induction false} Shorten(rows: nat, cols: nat, s: Grid, ms: seq<Move>)
    returns (q: seq<Move>)
    requires IsGrid(s, rows, cols) && Solves(rows, cols, s, ms)
    ensures Solves(rows, cols, s, q) && Simple(rows, cols, s, q) && |q| <= |ms|
    decreases |ms|
  {
    if Simple(rows, cols, s, ms) {
      q := ms;
    } else {
      var i, j := FindRepeat(rows, cols, s, ms);
      var cut := ms[..i] + ms[j..];
      ApplyAppend(rows, cols, s, ms[..i], ms[j..]);
      ApplyAppend(rows, cols, s, ms[..j], ms[j..]);
      assert ms[..j] + ms[j..] == ms;
      assert AllInBounds(cut, rows, cols) by {
        forall k | 0 <= k < |cut|
          ensures InBounds(cut[k], rows, cols)
        {
          if k < i { assert cut[k] == ms[k]; } else { assert cut[k] == ms[k - i + j]; }
        }
      }
      q := Shorten(rows, cols, s, cut);
    }
  }

  /** A depth-`d` search from the start (path empty, visited holding only
      the start) that fails rules out every solution `q` of length at most
      `d`. */
  lemma FailureExcludesShortSolution(rows: nat, cols: nat, start: Grid, d: nat, q: seq<Move>)
    requires IsGrid(start, rows, cols) && Solves(rows, cols, start, q)
    requires Dfs(rows, cols, start, d, [], {start}).None?
    ensures |q| > d
  {
    if |q| <= d {
      var q' := Shorten(rows, cols, start, q);
      DfsComplete(rows, cols, start, d, [], {start}, q');
    }
  }

  /** The outcome of the depth loop from bound `depth` up to `maxDepth`:
      each bound starts a fresh search, and the first success is returned.
      A result never exceeds the last bound, and an already-solved start
      gives the empty solution. */
  function Deepen(rows: nat, cols: nat, start: Grid, depth: nat, maxDepth: nat): (res: Option<seq<Move>>)
    requires IsGrid(start, rows, cols)
    ensures res.Some? ==> |res.value| <= maxDepth
    ensures IsSolved(start) && depth <= maxDepth ==> res == Some([])
    decreases maxDepth + 1 - depth
  {
    if depth > maxDepth then None
    else match Dfs(rows, cols, start, depth, [], {start})
      case Some(p) => Some(p)
      case None => Deepen(rows, cols, start, depth + 1, maxDepth)
  }

  /** What the depth loop returns solves the start in at most `maxDepth`
      moves. */
  lemma {:induction false} DeepenSound(rows: nat, cols: nat, start: Grid, depth: nat, maxDepth: nat)
    requires IsGrid(start, rows, cols)
    ensures var res := Deepen(rows, cols, start, depth, maxDepth);
            res.Some? ==> Solves(rows, cols, start, res.value) && |res.value| <= maxDepth
    decreases maxDepth + 1 - depth
  {
    if depth <= maxDepth {
      var found := Dfs(rows, cols, start, depth, [], {start});
      DfsSound(rows, cols, start, depth, [], {start});
      if found.Some? {
        assert found.value[0..] == found.value;
      } else {
        DeepenSound(rows, cols, start, depth + 1, maxDepth);
      }
    }
  }

  /** Iterative deepening returns a shortest solution. Given any solution
      `q` no shorter than `depth` (the bounds below `depth` having failed),
      the result is no longer than `q`, and "not found" can only happen when
      `q` is longer than `maxDepth`. */
  lemma {:induction false} DeepenOptimal(rows: nat, cols: nat, start: Grid, depth: nat, maxDepth: nat,
                                         q: seq<Move>)
    requires IsGrid(start, rows, cols) && Solves(rows, cols, start, q) && depth <= |q|
    ensures var res := Deepen(rows, cols, start, depth, maxDepth);
            (res.Some? ==> |res.value| <= |q|) && (res.None? ==> |q| > maxDepth)
    decreases maxDepth + 1 - depth
  {
    if depth <= maxDepth {
      var found := Dfs(rows, cols, start, depth, [], {start});
      DfsSound(rows, cols, start, depth, [], {start});
      if found.None? {
        FailureExcludesShortSolution(rows, cols, start, depth, q);
        DeepenOptimal(rows, cols, start, depth + 1, maxDepth, q);
      }
    }
  }

  /** One step of the move loop at an in-bounds cell (r, c). */
  lemma ScanAt(rows: nat, cols: nat, state: Grid, depthLeft: nat,
               path: seq<Move>, visited: set<Grid>, r: nat, c: nat)
    requires IsGrid(state, rows, cols) && 0 < depthLeft && r < rows && c < cols
    ensures var t := Toggle(rows, cols, state, Move(r, c));
            var next := Scan(rows, cols, state, depthLeft, path, visited, r, c + 1);
            Scan(rows, cols, state, depthLeft, path, visited, r, c) ==
              if t in visited then next
              else if Dfs(rows, cols, t, depthLeft - 1, path + [Move(r, c)], visited + {t}).Some?
              then Dfs(rows, cols, t, depthLeft - 1, path + [Move(r, c)], visited + {t})
              else next
  {
  }

  /** A path that extends `path + [m]` adds `m` and then the moves after it;
      the states along the first are the state after `m` and those after. */
  lemma ExtendAlong(rows: nat, cols: nat, state: Grid, path: seq<Move>, m: Move, p: seq<Move>)
    requires IsGrid(state, rows, cols) && path + [m] <= p
    ensures path <= p
    ensures StatesAlong(rows, cols, state, p[|path|..]) ==
            {Toggle(rows, cols, state, m)} +
            StatesAlong(rows, cols, Toggle(rows, cols, state, m), p[|path| + 1..])
  {
  }

  /** The list `path` and the set `visited` that the search shares across
      its recursive calls and updates in place. */
  class SearchTrail {
    var path: seq<Move>
    var visited: set<Grid>

    /** A fresh trail for one depth bound: no moves yet, only the start
        state visited. */
    constructor (start: Grid)
      ensures path == [] && visited == {start}
    {
      path := [];
      visited := {start};
    }
  }

  /** The recursive search. It returns what `Dfs` specifies. When it fails,
      every append and add it made has been undone; when it succeeds, the
      trail holds the returned path and the states along its new moves. */
  method DfsSolve(rows: nat, cols: nat, state: Grid, depthLeft: nat, trail: SearchTrail)
    returns (res: Option<seq<Move>>)
    requires IsGrid(state, rows, cols)
    modifies trail
    ensures res == Dfs(rows, cols, state, depthLeft, old(trail.path), old(trail.visited))
    ensures res.None? ==> trail.path == old(trail.path) && trail.visited == old(trail.visited)
    ensures res.Some? ==> old(trail.path) <= res.value && trail.path == res.value
    ensures res.Some? ==>
              trail.visited == old(trail.visited) +
                               StatesAlong(rows, cols, state, res.value[|old(trail.path)|..])
    decreases depthLeft, 1
  {
    if IsSolved(state) {
      assert trail.path[|trail.path|..] == [];
      return Some(trail.path);
    }
    if depthLeft == 0 {
      return None;
    }
    ghost var path0, visited0 := trail.path, trail.visited;
    for r := 0 to rows
      invariant trail.path == path0 && trail.visited == visited0
      invariant Dfs(rows, cols, state, depthLeft, path0, visited0) ==
                Scan(rows, cols, state, depthLeft, path0, visited0, r, 0)
    {
      for c := 0 to cols
        invariant trail.path == path0 && trail.visited == visited0
        invariant Dfs(rows, cols, state, depthLeft, path0, visited0) ==
                  Scan(rows, cols, state, depthLeft, path0, visited0, r, c)
      {
        res := TryMove(rows, cols, state, depthLeft, trail, r, c);
        if res.Some? {
          return;
        }
      }
    }
    return None;
  }

  /** One turn of the search's move loop: toggle (r, c) on a copy of
      `state`, skip it if the result is on the path, otherwise push it,
      recurse, and pop it again if the recursion fails. A success is what
      the rest of the loop from (r, c) returns; a failure leaves the trail
      as it was and hands over to the next cell. */
  method TryMove(rows: nat, cols: nat, state: Grid, depthLeft: nat, trail: SearchTrail,
                 r: nat, c: nat) returns (res: Option<seq<Move>>)
    requires IsGrid(state, rows, cols) && 0 < depthLeft && r < rows && c < cols
    modifies trail
    ensures res.Some? ==>
              res == Scan(rows, cols, state, depthLeft, old(trail.path), old(trail.visited), r, c)
    ensures res.None? ==>
              Scan(rows, cols, state, depthLeft, old(trail.path), old(trail.visited), r, c) ==
              Scan(rows, cols, state, depthLeft, old(trail.path), old(trail.visited), r, c + 1)
    ensures res.None? ==> trail.path == old(trail.path) && trail.visited == old(trail.visited)
    ensures res.Some? ==> old(trail.path) <= res.value && trail.path == res.value
    ensures res.Some? ==>
              trail.visited == old(trail.visited) +
                               StatesAlong(rows, cols, state, res.value[|old(trail.path)|..])
    decreases depthLeft, 0
  {
    ghost var path0, visited0 := trail.path, trail.visited;
    var temp := ToggleCell(rows, cols, state, r, c);
    ScanAt(rows, cols, state, depthLeft, path0, visited0, r, c);
    if temp in trail.visited {
      return None;
    }
    trail.visited := trail.visited + {temp};
    trail.path := trail.path + [Move(r, c)];
    res := DfsSolve(rows, cols, temp, depthLeft - 1, trail);
    if res.Some? {
      ExtendAlong(rows, cols, state, path0, Move(r, c), res.value);
      return;
    }
    trail.path := trail.path[..|trail.path| - 1];
    trail.visited := trail.visited - {temp};
  }

  /** The solver's depth loop on a snapshot `start` of the board: bounds
      0 .. rows * cols, each with a fresh trail, stopping at the first
      success. */
  method RunSolver(rows: nat, cols: nat, start: Grid) returns (found: Option<seq<Move>>)
    requires IsGrid(start, rows, cols)
    ensures found == Deepen(rows, cols, start, 0, rows * cols)
    ensures found.Some? ==> Solves(rows, cols, start, found.value) && |found.value| <= rows * cols
    ensures found.Some? ==> forall q :: Solves(rows, cols, start, q) ==> |found.value| <= |q|
    ensures found.None? ==> forall q :: Solves(rows, cols, start, q) ==> |q| > rows * cols
    ensures IsSolved(start) ==> found == Some([])
  {
    var maxDepth := rows * cols;
    DeepenSound(rows, cols, start, 0, maxDepth);
    forall q | Solves(rows, cols, start, q)
      ensures Deepen(rows, cols, start, 0, maxDepth).Some? ==> |Deepen(rows, cols, start, 0, maxDepth).value| <= |q|
      ensures Deepen(rows, cols, start, 0, maxDepth).None? ==> |q| > maxDepth
    {
      DeepenOptimal(rows, cols, start, 0, maxDepth, q);
    }
    for depth := 0 to maxDepth + 1
      invariant Deepen(rows, cols, start, 0, maxDepth) == Deepen(rows, cols, start, depth, maxDepth)
    {
      var trail := new SearchTrail(start);
      found := DfsSolve(rows, cols, start, depth, trail);
      if found.Some? {
        return;
      }
    }
    found := None;
  }
}
