/** The 9x9 board of the path game and how it is generated.

    A board is a list of rows, indexed `board[y][x]` as in the source. The
    random draws that the source takes from Python's `random` module are
    passed in as a `Draws` value, so generation is a function of them. */
module Board {

  datatype Option<T> = None | Some(value: T)

  /** A cell: the source stores ' ', 'wall', an int, 'x2'/'x3', 'start' and 'goal'. */
  datatype Cell = Blank | Wall | Points(value: int) | Multiplier(factor: int) | Start | Goal

  /** A coordinate (x, y). */
  type Pos = (int, int)

  /** Rows of cells, indexed [y][x]. */
  type Grid = seq<seq<Cell>>

  const Size: int := 9
  const StartPos: Pos := (1, 1)
  const GoalPos: Pos := (7, 7)
  /** Number of intersections that receive a score draw (16 minus start and goal). */
  const ScoreDrawCount: int := 14

  predicate InRange(x: int, y: int) {
    0 <= x < Size && 0 <= y < Size
  }

  predicate IsGrid(g: Grid) {
    |g| == Size && forall y :: 0 <= y < Size ==> |g[y]| == Size
  }

  /** Outer ring, or the even/even lattice inside it. */
  predicate IsWallCoord(x: int, y: int) {
    x == 0 || x == Size - 1 || y == 0 || y == Size - 1 || (x % 2 == 0 && y % 2 == 0)
  }

  /** An odd coordinate of the range the source draws from: 1, 3, 5 or 7. */
  predicate IsOddCoord(n: int) {
    n in {1, 3, 5, 7}
  }

  predicate IsIntersection(x: int, y: int) {
    IsOddCoord(x) && IsOddCoord(y)
  }

  /** An intersection that is neither start nor goal, i.e. one that gets a score draw. */
  predicate IsScoredSlot(x: int, y: int) {
    IsIntersection(x, y) && (x, y) != StartPos && (x, y) != GoalPos
  }

  /** The random draws one call of `init_game` consumes, in stream order:
      one `random.choice([1, 2, 3])` per scored intersection, the outcome of
      `random.shuffle(['x2', 'x2', 'x3'])` as factors, then the (x, y) pairs
      drawn by the placement loop. */
  datatype Draws = Draws(scores: seq<int>, order: seq<int>, cells: seq<Pos>)

  /** What the draws of Python's `random` module can be. */
  predicate WellFormedDraws(d: Draws) {
    && |d.scores| == ScoreDrawCount
    && (forall i :: 0 <= i < |d.scores| ==> d.scores[i] in {1, 2, 3})
    && multiset(d.order) == multiset{2, 2, 3}
    && (forall i :: 0 <= i < |d.cells| ==> IsIntersection(d.cells[i].0, d.cells[i].1))
  }

  /** The cell the wall loop leaves at (x, y). */
  function LayoutCell(x: int, y: int): (r: Cell) {
    if IsWallCoord(x, y) then Wall else Blank
  }

  /** How many score draws the score loop has consumed when it reaches odd
      (x, y); x may be 9, one past the last column. Start (rank 0) and goal
      (rank 15) consume none. */
  function DrawsBefore(x: int, y: int): (r: int) {
    var rank := (y / 2) * 4 + x / 2;
    if rank == 0 then 0 else if rank > 15 then 14 else rank - 1
  }

  /** The board after the wall loop and the score loop. */
  function ScoredBoard(scores: seq<int>): (g: Grid)
    requires |scores| == ScoreDrawCount
    ensures IsGrid(g)
  {
    seq(Size, y => seq(Size, x =>
      if IsScoredSlot(x, y) then Points(scores[DrawsBefore(x, y)]) else LayoutCell(x, y)))
  }

  /** The placement loop's acceptance test. */
  predicate Accepts(g: Grid, x: int, y: int)
    requires IsGrid(g) && InRange(x, y)
  {
    (x, y) != StartPos && (x, y) != GoalPos && g[y][x].Points?
  }

  function Put(g: Grid, x: int, y: int, c: Cell): (r: Grid)
    requires IsGrid(g) && InRange(x, y)
    ensures IsGrid(r)
  {
    g[y := g[y][x := c]]
  }

  predicate InRangeAll(cells: seq<Pos>) {
    forall i :: 0 <= i < |cells| ==> InRange(cells[i].0, cells[i].1)
  }

  /** Rejection sampling: each factor of `order` goes to the first remaining
      drawn cell that still holds points. `placed` accumulates the chosen
      cells. None when the draws run out first (the source would loop on). */
  function Place(g: Grid, order: seq<int>, cells: seq<Pos>, placed: seq<Pos>): (r: Option<(Grid, seq<Pos>)>)
    requires IsGrid(g) && InRangeAll(cells)
    ensures r.Some? ==> IsGrid(r.value.0) && |r.value.1| == |placed| + |order|
    decreases |cells|
  {
    if order == [] then Some((g, placed))
    else if cells == [] then None
    else
      var (x, y) := cells[0];
      if Accepts(g, x, y) then
        Place(Put(g, x, y, Multiplier(order[0])), order[1..], cells[1..], placed + [(x, y)])
      else
        Place(g, order, cells[1..], placed)
  }

  /** The placement draws run out while a factor remains to be placed. */
  lemma PlaceExhausted(g: Grid, order: seq<int>, placed: seq<Pos>)
    requires IsGrid(g) && order != []
    ensures Place(g, order, [], placed) == None
  {
  }

  /** One draw of the placement loop, while factors remain to be placed:
      an accepting cell takes the next factor, any other is skipped. */
  lemma PlaceDraw(g: Grid, order: seq<int>, cells: seq<Pos>, placed: seq<Pos>)
    requires IsGrid(g) && InRangeAll(cells) && order != [] && cells != []
    ensures var (x, y) := cells[0];
      Place(g, order, cells, placed) ==
        if Accepts(g, x, y) then Place(Put(g, x, y, Multiplier(order[0])), order[1..], cells[1..], placed + [(x, y)])
        else Place(g, order, cells[1..], placed)
  {
  }

  /** Start and goal are written last, over whatever was there. */
  function Stamp(g: Grid): (r: Grid)
    requires IsGrid(g)
    ensures IsGrid(r)
  {
    Put(Put(g, StartPos.0, StartPos.1, Start), GoalPos.0, GoalPos.1, Goal)
  }

  function Placement(d: Draws): (r: Option<(Grid, seq<Pos>)>)
    requires WellFormedDraws(d)
    ensures r.Some? ==> IsGrid(r.value.0) && |r.value.1| == 3
  {
    assert |d.order| == |multiset(d.order)|;
    assert InRangeAll(d.cells);
    Place(ScoredBoard(d.scores), d.order, d.cells, [])
  }

  /** The board `init_game` builds from the draws; None when the placement
      draws run out. */
  function Generate(d: Draws): (r: Option<Grid>)
    requires WellFormedDraws(d)
    ensures r.Some? <==> Placement(d).Some?
    ensures r.Some? ==> IsGrid(r.value)
  {
    match Placement(d)
    case None => None
    case Some((g, _)) => Some(Stamp(g))
  }

  predicate Generates(d: Draws) {
    WellFormedDraws(d) && Generate(d).Some?
  }

  /** What a cell at a given coordinate may hold. */
  datatype Role = WallRole | PassageRole | StartRole | GoalRole | SlotRole

  function RoleAt(x: int, y: int): (r: Role) {
    if IsWallCoord(x, y) then WallRole
    else if !IsIntersection(x, y) then PassageRole
    else if (x, y) == StartPos then StartRole
    else if (x, y) == GoalPos then GoalRole
    else SlotRole
  }

  predicate Fits(c: Cell, r: Role) {
    match r
    case WallRole => c == Wall
    case PassageRole => c == Blank
    case StartRole => c == Start
    case GoalRole => c == Goal
    case SlotRole => (c.Points? && c.value in {1, 2, 3}) || (c.Multiplier? && c.factor in {2, 3})
  }

  /** The board layout `init_game` promises: walls exactly on the outer
      ring and the even/even lattice, blank passages, start and goal tagged,
      every other intersection 1, 2 or 3 points or a x2/x3 multiplier. */
  ghost predicate WellFormedBoard(b: Grid) {
    IsGrid(b) && forall x, y {:trigger Fits(b[y][x], RoleAt(x, y))} :: InRange(x, y) ==> Fits(b[y][x], RoleAt(x, y))
  }

  // ---------------------------------------------------------------------------
  // Lemmas about generation

  /** What the placement loop does to the board: the chosen cells are
      distinct, each held points when chosen, each now holds its factor, and
      every other cell is untouched. */
  lemma {:induction false} PlaceSpec(g: Grid, order: seq<int>, cells: seq<Pos>, placed: seq<Pos>)
    requires IsGrid(g) && InRangeAll(cells)
    requires Place(g, order, cells, placed).Some?
    ensures var (g', ps) := Place(g, order, cells, placed).value;
      && IsGrid(g') && |ps| == |placed| + |order| && ps[..|placed|] == placed
      && (forall i :: |placed| <= i < |ps| ==>
            InRange(ps[i].0, ps[i].1) && Accepts(g, ps[i].0, ps[i].1)
            && g'[ps[i].1][ps[i].0] == Multiplier(order[i - |placed|]))
      && (forall i, j :: |placed| <= i < j < |ps| ==> ps[i] != ps[j])
      && (forall x, y :: InRange(x, y) && (x, y) !in ps[|placed|..] ==> g'[y][x] == g[y][x])
    decreases |cells|
  {
    if order == [] {
    } else {
      var (x, y) := cells[0];
      if Accepts(g, x, y) {
        var g1 := Put(g, x, y, Multiplier(order[0]));
        var placed1 := placed + [(x, y)];
        PlaceSpec(g1, order[1..], cells[1..], placed1);
        var (g', ps) := Place(g, order, cells, placed).value;
        assert ps[..|placed1|] == placed1;
        assert ps[|placed|] == (x, y);
        assert ps[..|placed|] == placed1[..|placed|];
        assert ps[|placed|..] == [(x, y)] + ps[|placed1|..];
        forall i | |placed1| <= i < |ps|
          ensures ps[i] != (x, y) && Accepts(g, ps[i].0, ps[i].1)
        {
        }
        assert g'[y][x] == Multiplier(order[0]);
      } else {
        PlaceSpec(g, order, cells[1..], placed);
      }
    }
  }

  /** The cells of a score-loop board. */
  lemma ScoredBoardCells(scores: seq<int>, x: int, y: int)
    requires |scores| == ScoreDrawCount && InRange(x, y)
    ensures IsScoredSlot(x, y) ==> 0 <= DrawsBefore(x, y) < ScoreDrawCount
    ensures ScoredBoard(scores)[y][x] ==
      if IsScoredSlot(x, y) then Points(scores[DrawsBefore(x, y)]) else LayoutCell(x, y)
  {
  }

  /** After generation, (x, y) is a wall exactly on the outer ring and the
      even/even lattice. */
  lemma GenerateWalls(d: Draws)
    requires Generates(d)
    ensures var b := Generate(d).value;
      forall x, y :: InRange(x, y) ==> (b[y][x] == Wall <==> IsWallCoord(x, y))
  {
    var (g, ps) := Placement(d).value;
    PlaceSpec(ScoredBoard(d.scores), d.order, d.cells, []);
    var b: Grid := Generate(d).value;
    forall x, y | InRange(x, y)
      ensures b[y][x] == Wall <==> IsWallCoord(x, y)
    {
      ScoredBoardCells(d.scores, x, y);
      if (x, y) in ps {
        var i :| 0 <= i < |ps| && ps[i] == (x, y);
        assert Accepts(ScoredBoard(d.scores), x, y);
      }
    }
  }

  /** Every odd/odd cell after generation: start and goal hold their tags,
      every other one holds 1, 2 or 3 points or a x2/x3 multiplier; the
      passage cells between them are blank. */
  lemma GenerateCells(d: Draws)
    requires Generates(d)
    ensures var b := Generate(d).value;
      && b[StartPos.1][StartPos.0] == Start
      && b[GoalPos.1][GoalPos.0] == Goal
      && (forall x, y :: IsScoredSlot(x, y) ==>
            (b[y][x].Points? && b[y][x].value in {1, 2, 3})
            || (b[y][x].Multiplier? && b[y][x].factor in {2, 3}))
      && (forall x, y :: InRange(x, y) && !IsWallCoord(x, y) && !IsIntersection(x, y) ==> b[y][x] == Blank)
  {
    var (g, ps) := Placement(d).value;
    var g0 := ScoredBoard(d.scores);
    PlaceSpec(g0, d.order, d.cells, []);
    var b: Grid := Generate(d).value;
    forall x, y | InRange(x, y)
      ensures IsScoredSlot(x, y) ==>
        (b[y][x].Points? && b[y][x].value in {1, 2, 3})
        || (b[y][x].Multiplier? && b[y][x].factor in {2, 3})
      ensures !IsWallCoord(x, y) && !IsIntersection(x, y) ==> b[y][x] == Blank
    {
      ScoredBoardCells(d.scores, x, y);
      if (x, y) in ps {
        var i :| 0 <= i < |ps| && ps[i] == (x, y);
        assert Accepts(g0, x, y);
        assert d.order[i] in multiset(d.order);
      }
    }
  }

  /** The generated board has the promised layout. */
  lemma GenerateWellFormed(d: Draws)
    requires Generates(d)
    ensures WellFormedBoard(Generate(d).value)
  {
    GenerateWalls(d);
    GenerateCells(d);
    var b: Grid := Generate(d).value;
    forall x, y | InRange(x, y)
      ensures Fits(b[y][x], RoleAt(x, y))
    {
      if !IsWallCoord(x, y) && IsIntersection(x, y) && (x, y) != StartPos && (x, y) != GoalPos {
        assert IsScoredSlot(x, y);
      }
    }
  }

  /** The placement loop chose three distinct scored intersections, and
      the i-th holds the i-th shuffled factor. */
  lemma GenerateMultipliers(d: Draws)
    requires Generates(d)
    ensures var b := Generate(d).value; var ps := Placement(d).value.1;
      && |ps| == 3
      && (forall i, j :: 0 <= i < j < 3 ==> ps[i] != ps[j])
      && (forall i :: 0 <= i < 3 ==>
            IsScoredSlot(ps[i].0, ps[i].1) && b[ps[i].1][ps[i].0] == Multiplier(d.order[i]))
  {
    var (g, ps) := Placement(d).value;
    var g0 := ScoredBoard(d.scores);
    PlaceSpec(g0, d.order, d.cells, []);
    var b: Grid := Generate(d).value;
    assert b == Stamp(g);
    forall i | 0 <= i < 3
      ensures IsScoredSlot(ps[i].0, ps[i].1) && b[ps[i].1][ps[i].0] == Multiplier(d.order[i])
    {
      ScoredBoardCells(d.scores, ps[i].0, ps[i].1);
    }
  }

  /** The three placed factors are a permutation of 2, 2, 3. */
  lemma MultiplierFactors(d: Draws)
    requires Generates(d)
    ensures var b := Generate(d).value; var ps := Placement(d).value.1;
      && |ps| == 3
      && (forall i :: 0 <= i < 3 ==> InRange(ps[i].0, ps[i].1) && b[ps[i].1][ps[i].0].Multiplier?)
      && multiset{b[ps[0].1][ps[0].0].factor, b[ps[1].1][ps[1].0].factor, b[ps[2].1][ps[2].0].factor}
         == multiset{2, 2, 3}
  {
    GenerateMultipliers(d);
    FactorsOfOrder(d.order);
    var b: Grid := Generate(d).value;
    var ps: seq<Pos> := Placement(d).value.1;
    assert b[ps[0].1][ps[0].0].factor == d.order[0];
    assert b[ps[1].1][ps[1].0].factor == d.order[1];
    assert b[ps[2].1][ps[2].0].factor == d.order[2];
  }

  /** No cell but the three placed ones holds a multiplier. */
  lemma MultipliersOnlyPlaced(d: Draws)
    requires Generates(d)
    ensures var b := Generate(d).value; var ps := Placement(d).value.1;
      forall x, y :: InRange(x, y) && b[y][x].Multiplier? ==> (x, y) in ps
  {
    var (g, ps) := Placement(d).value;
    var g0 := ScoredBoard(d.scores);
    PlaceSpec(g0, d.order, d.cells, []);
    var b: Grid := Generate(d).value;
    assert b == Stamp(g);
    forall x, y | InRange(x, y) && b[y][x].Multiplier?
      ensures (x, y) in ps
    {
      ScoredBoardCells(d.scores, x, y);
      assert g[y][x].Multiplier?;
    }
  }

  lemma FactorsOfOrder(order: seq<int>)
    requires multiset(order) == multiset{2, 2, 3}
    ensures |order| == 3 && multiset{order[0], order[1], order[2]} == multiset{2, 2, 3}
  {
    assert |order| == |multiset(order)|;
    assert order == [order[0], order[1], order[2]];
  }
}
