/** The traversal rules of the path game, stated on a value `Session` that
    holds the game's fields: one `update` tick is `Tick`. */
module Rules {
  import opened Board

  /** The arrow keys the source polls. */
  datatype Key = Up | Down | Left | Right

  /** Place of a key in the source's if/elif chain: lower is tested first. */
  function Priority(k: Key): (r: nat) {
    match k
    case Up => 0
    case Down => 1
    case Left => 2
    case Right => 3
  }

  /** The (dx, dy) a key asks for: one intersection, two cells. */
  function Step(k: Key): (r: (int, int)) {
    match k
    case Up => (0, -2)
    case Down => (0, 2)
    case Left => (-2, 0)
    case Right => (2, 0)
  }

  /** Every move a tick can attempt. */
  const Deltas: set<(int, int)> := {(0, 0), (0, -2), (0, 2), (-2, 0), (2, 0)}

  /** The move of one tick: the step of the pressed arrow that comes first
      in the order Up, Down, Left, Right; (0, 0) when no arrow is pressed. */
  function KeyDelta(keys: set<Key>): (d: (int, int))
    ensures d in Deltas
    ensures keys == {} <==> d == (0, 0)
    ensures keys != {} ==>
      exists k :: k in keys && d == Step(k) && forall k' :: k' in keys ==> Priority(k) <= Priority(k')
  {
    if Up in keys then (0, -2)
    else if Down in keys then (0, 2)
    else if Left in keys then (-2, 0)
    else if Right in keys then (2, 0)
    else
      assert forall k :: k in keys ==> k == Up || k == Down || k == Left || k == Right;
      (0, 0)
  }

  /** The game's fields: `board`, `player_pos`, `score`, `visited`,
      `multiplier_used` and `game_over`. */
  datatype Session = Session(
    board: Grid,
    pos: Pos,
    score: int,
    visited: map<Pos, bool>,
    used: set<Pos>,
    over: bool)

  /** The visited map has one entry per cell of the board, as `init_game` leaves it. */
  ghost predicate FullVisited(v: map<Pos, bool>) {
    forall p :: p in v <==> InRange(p.0, p.1)
  }

  /** What the source's lookups need: a 9x9 board, a position with all four
      neighbours on the board, a visited entry per cell. */
  ghost predicate Shaped(s: Session) {
    IsGrid(s.board) && 1 <= s.pos.0 < Size - 1 && 1 <= s.pos.1 < Size - 1 && FullVisited(s.visited)
  }

  function Next(p: Pos, d: (int, int)): (r: Pos) {
    (p.0 + d.0, p.1 + d.1)
  }

  /** The passage between p and p + d, by the source's floor division
      (Dafny's `/` by 2 agrees with Python's `//` on every int). */
  function Mid(p: Pos, d: (int, int)): (r: Pos) {
    ((p.0 + (p.0 + d.0)) / 2, (p.1 + (p.1 + d.1)) / 2)
  }

  /** The test `update` applies before moving: the destination is on the
      board and not a wall, and the passage to it is unvisited. */
  predicate MoveOk(s: Session, d: (int, int))
    requires Shaped(s)
  {
    var n := Next(s.pos, d);
    InRange(n.0, n.1) && s.board[n.1][n.0] != Wall && !s.visited[Mid(s.pos, d)]
  }

  /** Scoring on arrival at `p` holding `cell` (`move_player`): points are
      added on a real move; an unused multiplier multiplies the score and is
      recorded as used; anything else leaves both unchanged. */
  function Arrive(cell: Cell, score: int, used: set<Pos>, p: Pos, d: (int, int)): (r: (int, set<Pos>)) {
    if d != (0, 0) && cell.Points? then (score + cell.value, used)
    else if cell.Multiplier? && p !in used then (score * cell.factor, used + {p})
    else (score, used)
  }

  /** One move attempt of `update`: accepted, it marks the destination and
      the passage visited and scores the destination; rejected, it changes
      nothing. */
  function Attempt(s: Session, d: (int, int)): (r: Session)
    requires Shaped(s)
    ensures r.board == s.board && r.over == s.over
    ensures r.visited.Keys == s.visited.Keys
  {
    if MoveOk(s, d) then
      var n := Next(s.pos, d);
      var (score, used) := Arrive(s.board[n.1][n.0], s.score, s.used, n, d);
      s.(pos := n, visited := s.visited[n := true][Mid(s.pos, d) := true], score := score, used := used)
    else s
  }

  /** The deltas `get_valid_moves` tries, in its order. */
  const Directions: seq<(int, int)> := [(0, -1), (0, 1), (-1, 0), (1, 0)]

  /** The neighbour in direction u is neither a wall nor visited. */
  predicate Open(s: Session, u: (int, int))
    requires Shaped(s) && u in Directions
  {
    var a := Next(s.pos, u);
    s.board[a.1][a.0] != Wall && !s.visited[a]
  }

  /** The directions among `dirs` whose neighbour is open, in order. */
  function OpenAmong(s: Session, dirs: seq<(int, int)>): (r: seq<(int, int)>)
    requires Shaped(s) && forall u :: u in dirs ==> u in Directions
  {
    if dirs == [] then []
    else (if Open(s, dirs[0]) then [dirs[0]] else []) + OpenAmong(s, dirs[1..])
  }

  /** `get_valid_moves`. */
  function ValidMoves(s: Session): (r: seq<(int, int)>)
    requires Shaped(s)
  {
    OpenAmong(s, Directions)
  }

  /** A session as `reset_game` leaves it on board `b`: the player on start
      with score 0, nothing used, not over, and a visited entry for every
      cell that is true on start only. */
  ghost predicate FreshOn(s: Session, b: Grid) {
    && s.board == b && s.pos == StartPos && s.score == 0 && s.used == {} && !s.over
    && FullVisited(s.visited)
    && forall p :: p in s.visited ==> (s.visited[p] <==> p == StartPos)
  }

  /** The part of `update` that runs while the game is not over: standing
      on the goal ends the game and returns before reading input; otherwise
      the stuck check sets `over` and the input is still processed. */
  function Play(s: Session, keys: set<Key>): (r: Session)
    requires Shaped(s)
  {
    if s.pos == GoalPos then s.(over := true)
    else
      var s' := if ValidMoves(s) == [] then s.(over := true) else s;
      Attempt(s', KeyDelta(keys))
  }

  /** One `update` tick with the given arrow keys and Space flag; `restart`
      is the session `reset_game` would build. */
  function Tick(s: Session, restart: Session, keys: set<Key>, space: bool): (r: Session)
    requires Shaped(s)
  {
    if s.over then (if space then restart else s) else Play(s, keys)
  }

  /** What holds of every session: the board has the generated layout,
      the player stands on a visited intersection, every used multiplier is
      a visited multiplier cell, and the score is not negative. */
  ghost predicate Inv(s: Session) {
    && WellFormedBoard(s.board) && Shaped(s)
    && IsIntersection(s.pos.0, s.pos.1) && s.visited[s.pos]
    && (forall p :: p in s.used ==>
          InRange(p.0, p.1) && s.board[p.1][p.0].Multiplier? && s.visited[p])
    && s.score >= 0
  }

  // ---------------------------------------------------------------------------
  // Lemmas

  /** `reset_game` determines the session from the board alone. */
  lemma FreshUnique(s: Session, t: Session, b: Grid)
    requires FreshOn(s, b) && FreshOn(t, b)
    ensures s == t
  {
    assert forall p :: p in s.visited <==> p in t.visited;
    assert forall p :: p in s.visited ==> s.visited[p] == t.visited[p];
  }

  /** A session fresh on a generated board satisfies the invariant. */
  lemma ResetSpec(d: Draws, s: Session)
    requires Generates(d) && FreshOn(s, Generate(d).value)
    ensures IsFresh(s)
  {
    GenerateWellFormed(d);
    assert StartPos in s.visited;
  }

  /** The passage of a move lies halfway between the two positions. */
  lemma MidHalfway(p: Pos, d: (int, int))
    requires d in Deltas
    ensures var m := Mid(p, d); 2 * m.0 == 2 * p.0 + d.0 && 2 * m.1 == 2 * p.1 + d.1
  {
  }

  /** No arrow key pressed: the attempt stays in place and is rejected,
      since the player's own cell is visited. */
  lemma NullMoveRejected(s: Session)
    requires Inv(s)
    ensures !MoveOk(s, KeyDelta({}))
  {
    MidHalfway(s.pos, (0, 0));
  }

  /** An accepted move goes to another intersection through an in-range
      passage; when the destination scores, it holds 1 to 3 points or a
      factor of 2 or 3. */
  lemma AcceptedTarget(s: Session, delta: (int, int))
    requires Inv(s) && delta in Deltas && MoveOk(s, delta)
    ensures var n := Next(s.pos, delta); var m := Mid(s.pos, delta); var c := s.board[n.1][n.0];
      && delta != (0, 0) && n != s.pos && m != s.pos && m != n
      && IsIntersection(n.0, n.1) && InRange(m.0, m.1)
      && (c.Points? ==> c.value >= 1)
      && (c.Multiplier? ==> c.factor >= 2)
  {
    assert delta != (0, 0) by {
      MidHalfway(s.pos, (0, 0));
    }
    StepTarget(s.pos, delta);
    var n := Next(s.pos, delta);
    assert Fits(s.board[n.1][n.0], RoleAt(n.0, n.1));
  }

  /** A step of two cells from an intersection that stays on the board
      lands on another intersection, across an in-range passage between them. */
  lemma StepTarget(p: Pos, delta: (int, int))
    requires IsIntersection(p.0, p.1) && delta in Deltas && delta != (0, 0)
    requires var n := Next(p, delta); InRange(n.0, n.1)
    ensures var n := Next(p, delta); var m := Mid(p, delta);
      && n != p && m != p && m != n
      && IsIntersection(n.0, n.1) && InRange(m.0, m.1)
  {
    MidHalfway(p, delta);
  }

  /** `OpenAmong` keeps exactly the open directions of `dirs`, in order, so
      it is a subsequence: never longer, and a filter of `dirs`. */
  lemma {:induction false} OpenAmongMembers(s: Session, dirs: seq<(int, int)>)
    requires Shaped(s) && forall u :: u in dirs ==> u in Directions
    ensures |OpenAmong(s, dirs)| <= |dirs|
    ensures forall u :: u in OpenAmong(s, dirs) <==> u in dirs && Open(s, u)
  {
    if dirs != [] {
      OpenAmongMembers(s, dirs[1..]);
    }
  }

  /** A direction is in `get_valid_moves` exactly when its neighbour is open. */
  lemma ValidMovesOpen(s: Session)
    requires Shaped(s)
    ensures forall u :: u in ValidMoves(s) <==> u in Directions && Open(s, u)
  {
    OpenAmongMembers(s, Directions);
  }

  /** Around an intersection: the neighbour in direction u is the passage
      of the two-cell step, it is on the board and not an intersection, and
      it is a wall exactly when the step leaves the board. */
  lemma NeighbourOfIntersection(p: Pos, u: (int, int))
    requires IsIntersection(p.0, p.1) && u in Directions
    ensures var a := Next(p, u); var n := Next(p, (2 * u.0, 2 * u.1));
      && Mid(p, (2 * u.0, 2 * u.1)) == a && (2 * u.0, 2 * u.1) in Deltas
      && InRange(a.0, a.1) && !IsIntersection(a.0, a.1)
      && (IsWallCoord(a.0, a.1) <==> !InRange(n.0, n.1))
      && (InRange(n.0, n.1) ==> IsIntersection(n.0, n.1))
  {
    MidHalfway(p, (2 * u.0, 2 * u.1));
  }

  /** Move acceptance agrees with `get_valid_moves`: a neighbour is open
      exactly when the step of two cells in that direction is accepted. */
  lemma ValidMovesMatchMoves(s: Session, u: (int, int))
    requires Inv(s) && u in Directions
    ensures u in ValidMoves(s) <==> MoveOk(s, (2 * u.0, 2 * u.1))
  {
    var a := Next(s.pos, u);
    var n := Next(s.pos, (2 * u.0, 2 * u.1));
    ValidMovesOpen(s);
    NeighbourOfIntersection(s.pos, u);
    assert Fits(s.board[a.1][a.0], RoleAt(a.0, a.1));
    if InRange(n.0, n.1) {
      assert Fits(s.board[n.1][n.0], RoleAt(n.0, n.1));
    }
  }

  /** When `get_valid_moves` is empty, every move attempt is rejected. */
  lemma StuckRejectsEveryMove(s: Session, keys: set<Key>)
    requires Inv(s) && ValidMoves(s) == []
    ensures !MoveOk(s, KeyDelta(keys))
  {
    var delta := KeyDelta(keys);
    if delta == (0, 0) {
      NullMoveRejected(s);
    } else {
      var u := (delta.0 / 2, delta.1 / 2);
      assert u in Directions && delta == (2 * u.0, 2 * u.1);
      ValidMovesMatchMoves(s, u);
    }
  }

  /** An attempt keeps the invariant. */
  lemma AttemptPreservesInv(s: Session, delta: (int, int))
    requires Inv(s) && delta in Deltas
    ensures Inv(Attempt(s, delta))
  {
    if MoveOk(s, delta) {
      AcceptedTarget(s, delta);
      var n := Next(s.pos, delta);
      var t := Attempt(s, delta);
      assert FullVisited(t.visited);
      var c := s.board[n.1][n.0];
      if c.Multiplier? && n !in s.used {
        assert s.score * c.factor >= 0;
      }
    }
  }

  /** A tick keeps the invariant, so the position stays on a visited
      intersection, the board keeps its layout, every used multiplier is a
      visited multiplier cell and the score stays non-negative. */
  lemma TickPreservesInv(s: Session, restart: Session, keys: set<Key>, space: bool)
    requires Inv(s) && Inv(restart)
    ensures Inv(Tick(s, restart, keys, space))
  {
    if !s.over {
      PlayPreservesInv(s, keys);
    }
  }

  /** The play part of a tick keeps the invariant. */
  lemma PlayPreservesInv(s: Session, keys: set<Key>)
    requires Inv(s)
    ensures Inv(Play(s, keys))
  {
    if s.pos != GoalPos {
      var s' := if ValidMoves(s) == [] then s.(over := true) else s;
      AttemptPreservesInv(s', KeyDelta(keys));
    }
  }

  /** A tick without a restart never clears a visited entry, never forgets
      a used multiplier, and keeps the board. */
  lemma VisitedOnlyGrows(s: Session, restart: Session, keys: set<Key>, space: bool)
    requires Shaped(s) && !(s.over && space)
    ensures var t := Tick(s, restart, keys, space);
      && t.board == s.board
      && t.visited.Keys == s.visited.Keys
      && (forall p :: p in s.visited && s.visited[p] ==> t.visited[p])
      && s.used <= t.used
  {
    if !s.over && s.pos != GoalPos {
      var s' := if ValidMoves(s) == [] then s.(over := true) else s;
      AttemptGrows(s', KeyDelta(keys));
    }
  }

  /** An attempt only sets visited entries and only adds used cells. */
  lemma AttemptGrows(s: Session, d: (int, int))
    requires Shaped(s)
    ensures var t := Attempt(s, d);
      && (forall p :: p in s.visited && s.visited[p] ==> t.visited[p])
      && s.used <= t.used
  {
  }

  /** A rejected move changes nothing but the game-over flag, which is then
      set exactly when `get_valid_moves` was empty. */
  lemma RejectedMoveChangesNothing(s: Session, restart: Session, keys: set<Key>, space: bool)
    requires Inv(s) && !s.over && s.pos != GoalPos
    requires !MoveOk(s, KeyDelta(keys))
    ensures var t := Tick(s, restart, keys, space);
      && t.pos == s.pos && t.score == s.score && t.visited == s.visited && t.used == s.used
      && (t.over <==> ValidMoves(s) == [])
  {
  }

  /** An accepted move marks the destination and the passage visited, puts
      the player on the destination, and scores it: points add, an unused
      multiplier multiplies and becomes used, anything else scores nothing.
      The board is kept and the game is not over after the move, even on the
      goal: only the next tick's goal check ends it. */
  lemma AcceptedMove(s: Session, restart: Session, keys: set<Key>, space: bool)
    requires Inv(s) && !s.over && s.pos != GoalPos
    requires MoveOk(s, KeyDelta(keys))
    ensures var t := Tick(s, restart, keys, space); var n := Next(s.pos, KeyDelta(keys)); var c := s.board[n.1][n.0];
      && t.pos == n && n != s.pos
      && t.visited == s.visited[n := true][Mid(s.pos, KeyDelta(keys)) := true]
      && (c.Points? ==> t.score == s.score + c.value && t.used == s.used)
      && (c.Multiplier? && n !in s.used ==> t.score == s.score * c.factor && t.used == s.used + {n})
      && (c.Multiplier? && n in s.used ==> t.score == s.score && t.used == s.used)
      && (c in {Start, Goal} ==> t.score == s.score && t.used == s.used)
      && !t.over && t.board == s.board
  {
    var d := KeyDelta(keys);
    AcceptedTarget(s, d);
    if ValidMoves(s) == [] {
      StuckRejectsEveryMove(s, keys);
    }
    var s' := if ValidMoves(s) == [] then s.(over := true) else s;
    assert MoveOk(s', d);
    AttemptAccepted(s', d);
  }

  /** An accepted attempt, scored as `move_player` scores. */
  lemma AttemptAccepted(s: Session, d: (int, int))
    requires Shaped(s) && d != (0, 0) && MoveOk(s, d)
    ensures var t := Attempt(s, d); var n := Next(s.pos, d); var c := s.board[n.1][n.0];
      && t.pos == n
      && t.visited == s.visited[n := true][Mid(s.pos, d) := true]
      && (c.Points? ==> t.score == s.score + c.value && t.used == s.used)
      && (c.Multiplier? && n !in s.used ==> t.score == s.score * c.factor && t.used == s.used + {n})
      && (c.Multiplier? && n in s.used ==> t.score == s.score && t.used == s.used)
      && (c in {Start, Goal} ==> t.score == s.score && t.used == s.used)
  {
  }

  /** A multiplier is applied at most once: a tick only adds the cell it
      arrives on to the used set, only when that cell was an unused
      multiplier, and that is the tick that multiplies the score. */
  lemma MultiplierAppliedOnce(s: Session, restart: Session, keys: set<Key>, space: bool)
    requires Shaped(s) && !(s.over && space)
    ensures var t := Tick(s, restart, keys, space);
      t.used == s.used || (t.used == s.used + {t.pos} && t.pos !in s.used
        && s.board[t.pos.1][t.pos.0].Multiplier?
        && t.score == s.score * s.board[t.pos.1][t.pos.0].factor)
  {
    if !s.over && s.pos != GoalPos {
      var s' := if ValidMoves(s) == [] then s.(over := true) else s;
      AttemptUsed(s', KeyDelta(keys));
    }
  }

  /** An attempt adds to the used set only the unused multiplier cell it
      arrives on, multiplying the score by its factor. */
  lemma AttemptUsed(s: Session, d: (int, int))
    requires Shaped(s)
    ensures var t := Attempt(s, d);
      t.used == s.used || (t.used == s.used + {t.pos} && t.pos !in s.used
        && s.board[t.pos.1][t.pos.0].Multiplier?
        && t.score == s.score * s.board[t.pos.1][t.pos.0].factor)
  {
  }

  /** While the game is over, a tick only restarts on Space. */
  lemma GameOverGate(s: Session, restart: Session, keys: set<Key>, space: bool)
    requires Inv(s) && s.over
    ensures Tick(s, restart, keys, space) == if space then restart else s
  {
  }

  /** Standing on the goal, the tick ends the game and does nothing else. */
  lemma GoalEndsGame(s: Session, restart: Session, keys: set<Key>, space: bool)
    requires Inv(s) && !s.over && s.pos == GoalPos
    ensures Tick(s, restart, keys, space) == s.(over := true)
  {
  }

  /** When no neighbour is open the tick ends the game and moves nowhere. */
  lemma StuckEndsGame(s: Session, restart: Session, keys: set<Key>, space: bool)
    requires Inv(s) && !s.over && s.pos != GoalPos && ValidMoves(s) == []
    ensures Tick(s, restart, keys, space) == s.(over := true)
  {
    StuckRejectsEveryMove(s, keys);
  }

  /** No backtracking: right after a move, the move straight back is
      rejected, because it crosses the passage just marked visited. */
  lemma NoBacktrack(s: Session, k: Key)
    requires Inv(s) && MoveOk(s, Step(k))
    ensures var t := Attempt(s, Step(k));
      Shaped(t) && !MoveOk(t, (-Step(k).0, -Step(k).1))
  {
    var d := Step(k);
    AttemptPreservesInv(s, d);
    AttemptMarksPassage(s, d);
    StepBackCrossesSamePassage(s.pos, d);
    var t := Attempt(s, d);
    assert t.visited[Mid(t.pos, (-d.0, -d.1))];
  }

  /** An accepted attempt moves to the destination and marks the passage. */
  lemma AttemptMarksPassage(s: Session, d: (int, int))
    requires Shaped(s) && MoveOk(s, d)
    ensures var t := Attempt(s, d); t.pos == Next(s.pos, d) && Mid(s.pos, d) in t.visited && t.visited[Mid(s.pos, d)]
  {
  }

  /** Stepping back from p + d crosses the passage of the step from p. */
  lemma StepBackCrossesSamePassage(p: Pos, d: (int, int))
    requires d in Deltas
    ensures Mid(Next(p, d), (-d.0, -d.1)) == Mid(p, d)
  {
    MidHalfway(p, d);
    MidHalfway(Next(p, d), (-d.0, -d.1));
  }

  /** A session as `reset_game` leaves it, on a board of the generated layout. */
  ghost predicate IsFresh(s: Session) {
    Inv(s) && FreshOn(s, s.board)
  }

  /** From a fresh game, Right is accepted: the player reaches (3, 1) and
      exactly (1, 1), (2, 1) and (3, 1) are visited. */
  lemma FirstMoveRight(s: Session)
    requires IsFresh(s)
    ensures var t := Play(s, {Right});
      && t.pos == (3, 1) && !t.over
      && forall x, y :: InRange(x, y) ==> (t.visited[(x, y)] <==> (x, y) in {(1, 1), (2, 1), (3, 1)})
  {
    assert Fits(s.board[1][2], RoleAt(2, 1));
    assert Fits(s.board[1][3], RoleAt(3, 1));
    ValidMovesOpen(s);
    assert (1, 0) in ValidMoves(s);
    assert MoveOk(s, (2, 0));
  }

  /** From a fresh game, Up is rejected: (1, -1) is off the board. */
  lemma FirstMoveUpRejected(s: Session)
    requires IsFresh(s)
    ensures var t := Play(s, {Up});
      t.pos == s.pos && t.score == 0 && t.visited == s.visited && t.used == {}
  {
    assert !MoveOk(s, (0, -2));
  }
}
