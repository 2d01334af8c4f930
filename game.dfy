/** The `Game` object of the path game: its fields change in place as the
    board is built, as each frame's `update` runs and when the game is reset. */
module PathGame {
  import opened Board
  import opened Rules

  /** (i, j) comes before (x, y) in the row-major order of the source's
      `for y ...: for x ...` loops. */
  predicate Earlier(i: int, j: int, x: int, y: int) {
    j < y || (j == y && i < x)
  }

  class Game {
    /** The draws the random stream yields for a fixed seed (the script
        constructs the game with seed 12345). `reset_game` reseeds with that
        seed, so every reset replays them; with no seed a restart would draw
        afresh, which this class does not model. */
    const draws: Draws
    var board: Grid
    var playerPos: Pos
    var score: int
    var gameOver: bool
    var visited: map<Pos, bool>
    var multiplierUsed: set<Pos>

    /** The fields as a value. */
    function Snapshot(): Session
      reads this
    {
      Session(board, playerPos, score, visited, multiplierUsed, gameOver)
    }

    /** The board is the one the draws generate, and the session invariant holds. */
    ghost predicate Valid()
      reads this
    {
      Generates(draws) && board == Generate(draws).value && Inv(Snapshot())
    }

    /** `__init__` without the window: sets the start and goal and resets. */
    constructor (d: Draws)
      requires Generates(d)
      ensures draws == d && Valid() && FreshOn(Snapshot(), Generate(d).value)
    {
      draws := d;
      board := [];
      playerPos := StartPos;
      score := 0;
      gameOver := false;
      visited := map[];
      multiplierUsed := {};
      new;
      var ok := ResetGame();
      ResetSpec(d, Snapshot());
    }

    /** `reset_game`: the player back on start, score 0, nothing visited or
        used, then `init_game`. `ok` is false when the placement draws run
        out, where the source would keep drawing. */
    method ResetGame() returns (ok: bool)
      requires WellFormedDraws(draws)
      modifies this
      ensures ok <==> Generate(draws).Some?
      ensures ok ==> FreshOn(Snapshot(), Generate(draws).value)
    {
      playerPos := StartPos;
      score := 0;
      gameOver := false;
      visited := map[];
      multiplierUsed := {};
      ok := InitGame();
    }

    /** `init_game`: walls, then one score draw per scored intersection,
        then the three shuffled multipliers by rejection sampling, then every
        cell unvisited, then start and goal, with start visited. */
    method InitGame() returns (ok: bool)
      requires WellFormedDraws(draws)
      modifies this`board, this`visited
      ensures ok <==> Generate(draws).Some?
      ensures ok ==> board == Generate(draws).value
      ensures ok ==> forall p :: p in visited <==> p in old(visited) || InRange(p.0, p.1)
      ensures ok ==> forall p :: p in visited ==>
        visited[p] == if InRange(p.0, p.1) then p == StartPos else old(visited)[p]
      ensures !ok ==> visited == old(visited)
    {
      BuildWalls();
      PlaceScores();
      assert InRangeAll(draws.cells);
      ok := PlaceMultipliers();
      if !ok {
        return;
      }
      ClearVisited();
      board := board[StartPos.1 := board[StartPos.1][StartPos.0 := Start]];
      board := board[GoalPos.1 := board[GoalPos.1][GoalPos.0 := Goal]];
      visited := visited[StartPos := true];
    }

    /** A blank 9x9 board, then the outer ring and the even/even lattice
        become walls. */
    method BuildWalls()
      modifies this`board
      ensures IsGrid(board)
      ensures forall x, y :: InRange(x, y) ==> board[y][x] == LayoutCell(x, y)
    {
      board := seq(Size, _ => seq(Size, _ => Blank));
      var y := 0;
      while y < Size
        invariant 0 <= y <= Size && IsGrid(board)
        invariant forall i, j :: InRange(i, j) ==>
          board[j][i] == if Earlier(i, j, 0, y) then LayoutCell(i, j) else Blank
      {
        var x := 0;
        while x < Size
          invariant 0 <= x <= Size && IsGrid(board)
          invariant forall i, j :: InRange(i, j) ==>
            board[j][i] == if Earlier(i, j, x, y) then LayoutCell(i, j) else Blank
        {
          if x == 0 || x == Size - 1 || y == 0 || y == Size - 1 {
            board := board[y := board[y][x := Wall]];
          } else if y % 2 == 0 && x % 2 == 0 {
            board := board[y := board[y][x := Wall]];
          }
          x := x + 1;
        }
        y := y + 1;
      }
    }

    /** Every intersection but start and goal takes the next score draw. */
    method PlaceScores()
      requires |draws.scores| == ScoreDrawCount
      requires IsGrid(board) && forall x, y :: InRange(x, y) ==> board[y][x] == LayoutCell(x, y)
      modifies this`board
      ensures board == ScoredBoard(draws.scores)
    {
      var k := 0;
      var y := 1;
      while y < Size - 1
        invariant y in {1, 3, 5, 7, 9} && IsGrid(board)
        invariant k == DrawsBefore(1, y)
        invariant ScoredUpTo(board, draws.scores, 1, y)
      {
        var x := 1;
        while x < Size
          invariant x in {1, 3, 5, 7, 9} && IsGrid(board)
          invariant k == DrawsBefore(x, y)
          invariant ScoredUpTo(board, draws.scores, x, y)
        {
          DrawStep(x, y);
          if (x, y) != StartPos && (x, y) != GoalPos {
            FillStep(board, draws.scores, x, y);
            board := board[y := board[y][x := Points(draws.scores[k])]];
            k := k + 1;
          } else {
            SkipStep(board, draws.scores, x, y);
          }
          x := x + 2;
        }
        NextRow(board, draws.scores, y);
        y := y + 2;
      }
      ScoredAll(board, draws.scores);
    }

    /** Each shuffled factor goes to the first drawn cell that is neither
        start nor goal and still holds points. */
    method PlaceMultipliers() returns (ok: bool)
      requires IsGrid(board) && InRangeAll(draws.cells)
      modifies this`board
      ensures var r := Place(old(board), draws.order, draws.cells, []);
        (ok <==> r.Some?) && (ok ==> board == r.value.0)
    {
      var order := draws.order;
      var cells := draws.cells;
      ghost var placed: seq<Pos> := [];
      ghost var target := Place(board, order, cells, placed);
      var k := 0;
      var i := 0;
      while i < |order|
        invariant 0 <= i <= |order| && 0 <= k <= |cells| && IsGrid(board)
        invariant Place(board, order[i..], cells[k..], placed) == target
      {
        while true
          invariant 0 <= k <= |cells| && IsGrid(board)
          invariant Place(board, order[i..], cells[k..], placed) == target
          decreases |cells| - k
        {
          if k == |cells| {
            PlaceExhausted(board, order[i..], placed);
            return false;
          }
          PlaceDraw(board, order[i..], cells[k..], placed);
          var (x, y) := cells[k];
          assert cells[k..][1..] == cells[k + 1..];
          k := k + 1;
          if (x, y) != StartPos && (x, y) != GoalPos && board[y][x].Points? {
            assert order[i..][1..] == order[i + 1..];
            board := board[y := board[y][x := Multiplier(order[i])]];
            placed := placed + [(x, y)];
            assert Place(board, order[i + 1..], cells[k..], placed) == target;
            break;
          }
        }
        i := i + 1;
      }
      return true;
    }

    /** Every cell of the board gets a visited entry, false. */
    method ClearVisited()
      modifies this`visited
      ensures forall p :: p in visited <==> p in old(visited) || InRange(p.0, p.1)
      ensures forall p :: p in visited ==> visited[p] == if InRange(p.0, p.1) then false else old(visited)[p]
    {
      var y := 0;
      while y < Size
        invariant 0 <= y <= Size
        invariant forall p :: p in visited <==>
          p in old(visited) || (InRange(p.0, p.1) && Earlier(p.0, p.1, 0, y))
        invariant forall p :: p in visited ==>
          visited[p] == if InRange(p.0, p.1) && Earlier(p.0, p.1, 0, y) then false else old(visited)[p]
      {
        var x := 0;
        while x < Size
          invariant 0 <= x <= Size
          invariant forall p :: p in visited <==>
            p in old(visited) || (InRange(p.0, p.1) && Earlier(p.0, p.1, x, y))
          invariant forall p :: p in visited ==>
            visited[p] == if InRange(p.0, p.1) && Earlier(p.0, p.1, x, y) then false else old(visited)[p]
        {
          visited := visited[(x, y) := false];
          x := x + 1;
        }
        y := y + 1;
      }
    }

    /** `get_valid_moves`: the directions, in the order up, down, left,
        right, whose neighbouring cell is neither a wall nor visited. */
    method GetValidMoves() returns (moves: seq<(int, int)>)
      requires Shaped(Snapshot())
      ensures moves == ValidMoves(Snapshot())
    {
      ghost var s := Snapshot();
      var directions := [(0, -1), (0, 1), (-1, 0), (1, 0)];
      moves := [];
      var i := 0;
      while i < |directions|
        invariant 0 <= i <= |directions| && directions == Directions
        invariant moves + OpenAmong(s, directions[i..]) == ValidMoves(s)
      {
        var (dx, dy) := directions[i];
        var x, y := playerPos.0 + dx, playerPos.1 + dy;
        OpenAmongStep(s, i, moves);
        if board[y][x] != Wall && !visited[(x, y)] {
          moves := moves + [(dx, dy)];
        }
        i := i + 1;
      }
    }

    /** `move_player`: steps by (dx, dy) and scores the cell arrived on. */
    method MovePlayer(dx: int, dy: int)
      requires IsGrid(board) && InRange(playerPos.0 + dx, playerPos.1 + dy)
      modifies this`playerPos, this`score, this`multiplierUsed
      ensures playerPos == Next(old(playerPos), (dx, dy))
      ensures (score, multiplierUsed) ==
        Arrive(board[playerPos.1][playerPos.0], old(score), old(multiplierUsed), playerPos, (dx, dy))
    {
      var nextPos := (playerPos.0 + dx, playerPos.1 + dy);
      var cell := board[nextPos.1][nextPos.0];
      if (dx != 0 || dy != 0) && cell.Points? {
        score := score + cell.value;
      } else if cell.Multiplier? && nextPos !in multiplierUsed {
        score := score * cell.factor;
        multiplierUsed := multiplierUsed + {nextPos};
      }
      playerPos := nextPos;
    }

    /** `update` for one frame, given the arrow keys and the Space flag the
        frame reports: once over, only Space acts, and it restarts; otherwise
        the frame plays. Together these are `Tick` with `reset_game`'s
        session, on the board of the same draws, as the restart
        (`UpdateIsTick`). */
    method Update(keys: set<Key>, space: bool)
      requires Valid()
      modifies this
      ensures Valid()
      ensures old(gameOver) && space ==> FreshOn(Snapshot(), Generate(draws).value)
      ensures old(gameOver) && !space ==> Snapshot() == old(Snapshot())
      ensures !old(gameOver) ==> Snapshot() == Rules.Play(old(Snapshot()), keys)
    {
      if gameOver {
        if space {
          var ok := ResetGame();
          assert ok;
          ResetSpec(draws, Snapshot());
        }
      } else {
        ghost var s0 := Snapshot();
        Play(keys);
        PlayPreservesInv(s0, keys);
      }
    }

    /** The rest of `update`, while the game is not over: end on the goal;
        end when no move is valid; then try the move of the first pressed
        arrow. */
    method Play(keys: set<Key>)
      requires Shaped(Snapshot()) && !gameOver
      modifies this`playerPos, this`score, this`gameOver, this`visited, this`multiplierUsed
      ensures Snapshot() == Rules.Play(old(Snapshot()), keys)
    {
      if playerPos == GoalPos {
        gameOver := true;
        return;
      }
      var moves := GetValidMoves();
      if moves == [] {
        gameOver := true;
      }
      var dx, dy := 0, 0;
      if Up in keys {
        dy := -2;
      } else if Down in keys {
        dy := 2;
      } else if Left in keys {
        dx := -2;
      } else if Right in keys {
        dx := 2;
      }
      TryMove(dx, dy);
    }

    /** The move test of `update` and the move: the destination must be on
        the board and not a wall, and the passage to it unvisited; then both
        are marked visited and `move_player` runs. */
    method TryMove(dx: int, dy: int)
      requires Shaped(Snapshot()) && (dx, dy) in Deltas
      modifies this`playerPos, this`score, this`visited, this`multiplierUsed
      ensures Snapshot() == Attempt(old(Snapshot()), (dx, dy))
    {
      ghost var s := Snapshot();
      var nextX, nextY := playerPos.0 + dx, playerPos.1 + dy;
      var midX, midY := (playerPos.0 + nextX) / 2, (playerPos.1 + nextY) / 2;
      MoveTest(s, (dx, dy));
      if 0 <= nextX < Size && 0 <= nextY < Size && board[nextY][nextX] != Wall && !visited[(midX, midY)] {
        MoveAccepted(s, (dx, dy));
        visited := visited[(nextX, nextY) := true];
        visited := visited[(midX, midY) := true];
        MovePlayer(dx, dy);
        assert board == s.board && gameOver == s.over;
      }
    }
  }

  /** What `Update` does is one `Tick` with `reset_game`'s session as the
      restart. */
  lemma UpdateIsTick(s: Session, t: Session, restart: Session, keys: set<Key>, space: bool)
    requires Shaped(s) && FreshOn(restart, restart.board)
    requires s.over && space ==> FreshOn(t, restart.board)
    requires s.over && !space ==> t == s
    requires !s.over ==> t == Play(s, keys)
    ensures t == Tick(s, restart, keys, space)
  {
    if s.over && space {
      FreshUnique(t, restart, restart.board);
    }
  }

  /** One step of the direction loop: the open directions from the i-th on
      are the i-th, when open, followed by the open ones after it. */
  lemma OpenAmongStep(s: Session, i: int, moves: seq<(int, int)>)
    requires Shaped(s) && 0 <= i < |Directions|
    ensures var u := Directions[i]; var a := Next(s.pos, u);
      && (Open(s, u) <==> s.board[a.1][a.0] != Wall && !s.visited[a])
      && moves + OpenAmong(s, Directions[i..])
         == (if Open(s, u) then moves + [u] else moves) + OpenAmong(s, Directions[i + 1..])
  {
    var ds := Directions[i..];
    assert ds[0] == Directions[i] && ds[1..] == Directions[i + 1..];
    var rest := OpenAmong(s, Directions[i + 1..]);
    assert OpenAmong(s, ds) == (if Open(s, ds[0]) then [ds[0]] else []) + rest;
    if Open(s, ds[0]) {
      assert moves + ([ds[0]] + rest) == (moves + [ds[0]]) + rest;
    } else {
      assert moves + ([] + rest) == moves + rest;
    }
  }

  /** The board of the score loop when it reaches odd (x, y): the
      scored intersections before (x, y) hold their draws, every other cell
      is as the wall loop left it. */
  ghost predicate ScoredUpTo(g: Grid, scores: seq<int>, x: int, y: int) {
    && IsGrid(g) && |scores| == ScoreDrawCount
    && forall i, j :: InRange(i, j) ==>
         g[j][i] == if IsScoredSlot(i, j) && Earlier(i, j, x, y)
           then Points(scores[DrawsBefore(i, j)]) else LayoutCell(i, j)
  }

  /** The score loop's draw counter at odd (x, y): within the 14 draws on
      a scored slot, and advancing by one there and by none on start or goal. */
  lemma DrawStep(x: int, y: int)
    requires IsOddCoord(x) && IsOddCoord(y)
    ensures IsScoredSlot(x, y) ==> 0 <= DrawsBefore(x, y) < ScoreDrawCount
    ensures DrawsBefore(x + 2, y) == if IsScoredSlot(x, y) then DrawsBefore(x, y) + 1 else DrawsBefore(x, y)
  {
    assert (x + 2) / 2 == x / 2 + 1;
    assert 0 <= x / 2 <= 3 && 0 <= y / 2 <= 3;
  }

  /** Passing start or goal leaves the board as it is. */
  lemma SkipStep(g: Grid, scores: seq<int>, x: int, y: int)
    requires ScoredUpTo(g, scores, x, y) && IsOddCoord(x) && IsOddCoord(y) && !IsScoredSlot(x, y)
    ensures ScoredUpTo(g, scores, x + 2, y)
  {
  }

  /** Writing the next draw on a scored slot advances the board to (x + 2, y). */
  lemma FillStep(g: Grid, scores: seq<int>, x: int, y: int)
    requires ScoredUpTo(g, scores, x, y) && IsScoredSlot(x, y)
    requires 0 <= DrawsBefore(x, y) < |scores|
    ensures ScoredUpTo(g[y := g[y][x := Points(scores[DrawsBefore(x, y)])]], scores, x + 2, y)
  {
    var g' := g[y := g[y][x := Points(scores[DrawsBefore(x, y)])]];
    forall i, j | InRange(i, j)
      ensures g'[j][i] == if IsScoredSlot(i, j) && Earlier(i, j, x + 2, y)
        then Points(scores[DrawsBefore(i, j)]) else LayoutCell(i, j)
    {
      if (i, j) != (x, y) {
        assert g'[j][i] == g[j][i];
      }
    }
  }

  /** Past the last row, the score loop's board is the scored board. */
  lemma ScoredAll(g: Grid, scores: seq<int>)
    requires ScoredUpTo(g, scores, 1, 9)
    ensures g == ScoredBoard(scores)
  {
    var target := ScoredBoard(scores);
    forall j | 0 <= j < Size
      ensures g[j] == target[j]
    {
      forall i | 0 <= i < Size
        ensures g[j][i] == target[j][i]
      {
        ScoredBoardCells(scores, i, j);
      }
    }
  }

  /** The end of a row of the score loop is the start of the next odd row. */
  lemma NextRow(g: Grid, scores: seq<int>, y: int)
    requires ScoredUpTo(g, scores, 9, y) && IsOddCoord(y)
    ensures DrawsBefore(9, y) == DrawsBefore(1, y + 2)
    ensures ScoredUpTo(g, scores, 1, y + 2)
  {
    assert (y + 2) / 2 == y / 2 + 1 && 0 <= y / 2 <= 3;
  }

  /** The test `update` writes out is `MoveOk`; when it passes, the
      attempt marks both cells, moves and scores as `move_player` does. */
  lemma MoveTest(s: Session, d: (int, int))
    requires Shaped(s) && d in Deltas
    ensures var n := Next(s.pos, d); var m := Mid(s.pos, d);
      && InRange(m.0, m.1) && m in s.visited
      && m == ((s.pos.0 + n.0) / 2, (s.pos.1 + n.1) / 2)
      && (MoveOk(s, d) <==> InRange(n.0, n.1) && s.board[n.1][n.0] != Wall && !s.visited[m])
      && (!MoveOk(s, d) ==> Attempt(s, d) == s)
  {
    MidHalfway(s.pos, d);
  }

  /** An accepted attempt as the method performs it: two visited entries
      set, then `move_player`. */
  lemma MoveAccepted(s: Session, d: (int, int))
    requires Shaped(s) && MoveOk(s, d)
    ensures var n := Next(s.pos, d);
      var (score, used) := Arrive(s.board[n.1][n.0], s.score, s.used, n, d);
      Attempt(s, d) == s.(pos := n, visited := s.visited[n := true][Mid(s.pos, d) := true], score := score, used := used)
  {
  }
}
