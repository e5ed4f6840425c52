/**
 * The rules of the Life board as values: a board is an N-by-N matrix of
 * integer cell states (0 dead, 1 alive), g[x][y] being the state of the cell
 * in column x and row y. Everything here is a pure function of the board;
 * the App class in module LifeApp keeps the board in an array and is proved
 * against these definitions.
 */
module LifeRules {

  /** CellCount: the board is always 13 by 13. */
  const N: nat := 13

  type Grid = seq<seq<int>>

  /** The board has exactly N columns of N cells each. */
  predicate WellFormed(g: Grid) {
    |g| == N && forall x :: 0 <= x < N ==> |g[x]| == N
  }

  predicate InBounds(x: int, y: int) {
    0 <= x < N && 0 <= y < N
  }

  /** Every cell holds 0 or 1. */
  ghost predicate IsBinary(g: Grid)
    requires WellFormed(g)
  {
    forall x, y :: InBounds(x, y) ==> g[x][y] == 0 || g[x][y] == 1
  }

  ghost predicate AllDead(g: Grid)
    requires WellFormed(g)
  {
    forall x, y :: InBounds(x, y) ==> g[x][y] == 0
  }

  /** The board in which exactly the positions in `alive` hold 1. */
  function Pattern(alive: set<(int, int)>): (r: Grid)
    ensures WellFormed(r) && IsBinary(r)
    ensures forall x, y :: InBounds(x, y) ==> (r[x][y] == 1 <==> (x, y) in alive)
  {
    seq(N, x => seq(N, y => if (x, y) in alive then 1 else 0))
  }

  /** The board every cell starts on: all dead. */
  function Dead(): (r: Grid)
    ensures WellFormed(r) && AllDead(r)
  {
    Pattern({})
  }

  // ---------------------------------------------------------------------------
  // Neighbour counting
  // ---------------------------------------------------------------------------

  /** 1 for a position on the board holding a live cell, 0 for anything else,
      including positions off the board: there is no wrap-around. */
  function LiveAt(g: Grid, x: int, y: int): int
    requires WellFormed(g)
  {
    if InBounds(x, y) && g[x][y] == 1 then 1 else 0
  }

  /** Number of live cells among the eight Moore neighbours of (x, y). */
  function NeighborCount(g: Grid, x: int, y: int): int
    requires WellFormed(g)
  {
    LiveAt(g, x - 1, y - 1) + LiveAt(g, x - 1, y) + LiveAt(g, x - 1, y + 1) +
    LiveAt(g, x, y - 1) + LiveAt(g, x, y + 1) +
    LiveAt(g, x + 1, y - 1) + LiveAt(g, x + 1, y) + LiveAt(g, x + 1, y + 1)
  }

  function OnBoard(x: int, y: int): int {
    if InBounds(x, y) then 1 else 0
  }

  /** Number of Moore neighbour positions of (x, y) that lie on the board. */
  function NeighborSlots(x: int, y: int): int {
    OnBoard(x - 1, y - 1) + OnBoard(x - 1, y) + OnBoard(x - 1, y + 1) +
    OnBoard(x, y - 1) + OnBoard(x, y + 1) +
    OnBoard(x + 1, y - 1) + OnBoard(x + 1, y) + OnBoard(x + 1, y + 1)
  }

  predicate OnBorder(v: int) {
    v == 0 || v == N - 1
  }

  /** A cell has 8 neighbour positions inside the board, 5 on an edge and 3 in a corner. */
  lemma NeighborSlotsByPosition(x: int, y: int)
    requires InBounds(x, y)
    ensures !OnBorder(x) && !OnBorder(y) ==> NeighborSlots(x, y) == 8
    ensures OnBorder(x) != OnBorder(y) ==> NeighborSlots(x, y) == 5
    ensures OnBorder(x) && OnBorder(y) ==> NeighborSlots(x, y) == 3
  {
  }

  /** The count never exceeds the number of neighbour positions on the board
      (so at most 8, 5 on an edge, 3 in a corner), and reaches it when every cell is alive. */
  lemma NeighborCountBounds(g: Grid, x: int, y: int)
    requires WellFormed(g) && InBounds(x, y)
    ensures 0 <= NeighborCount(g, x, y) <= NeighborSlots(x, y) <= 8
    ensures (forall i, j :: InBounds(i, j) ==> g[i][j] == 1) ==> NeighborCount(g, x, y) == NeighborSlots(x, y)
  {
  }

  /** The count depends only on the on-board Moore neighbourhood of (x, y). */
  lemma NeighborCountIsLocal(g: Grid, h: Grid, x: int, y: int)
    requires WellFormed(g) && WellFormed(h) && InBounds(x, y)
    requires forall i, j :: InBounds(i, j) && x - 1 <= i <= x + 1 && y - 1 <= j <= y + 1 ==> g[i][j] == h[i][j]
    ensures NeighborCount(g, x, y) == NeighborCount(h, x, y)
  {
  }

  /** No wrap-around: a cell in row 0 never sees row N-1, and a cell in
      column 0 never sees column N-1. */
  lemma NoWraparound(g: Grid, h: Grid, x: int, y: int)
    requires WellFormed(g) && WellFormed(h) && InBounds(x, y)
    requires y == 0 ==> forall i, j :: InBounds(i, j) && j != N - 1 ==> g[i][j] == h[i][j]
    requires x == 0 ==> forall i, j :: InBounds(i, j) && i != N - 1 ==> g[i][j] == h[i][j]
    requires x == 0 || y == 0
    ensures NeighborCount(g, x, y) == NeighborCount(h, x, y)
  {
  }

  // ---------------------------------------------------------------------------
  // The B3/S23 rule and the synchronous step
  // ---------------------------------------------------------------------------

  /** The next state of cell (x, y), branch for branch as JudgeNextLife decides it. */
  function NextLife(g: Grid, x: int, y: int): (r: int)
    requires WellFormed(g) && InBounds(x, y)
    ensures r == 0 || r == 1
    ensures r == 1 <==> NeighborCount(g, x, y) == 3 || (g[x][y] == 1 && NeighborCount(g, x, y) == 2)
  {
    var count := NeighborCount(g, x, y);
    if g[x][y] == 1 then
      (if count == 3 || count == 2 then 1 else 0)
    else
      (if count == 3 then 1 else 0)
  }

  /** The rule case by case: a live cell survives with 2 or 3 neighbours,
      a dead one is born with exactly 3, and every other cell is dead next. */
  lemma RuleCases(g: Grid, x: int, y: int)
    requires WellFormed(g) && InBounds(x, y)
    ensures NeighborCount(g, x, y) == 3 ==> NextLife(g, x, y) == 1
    ensures NeighborCount(g, x, y) == 2 ==> NextLife(g, x, y) == (if g[x][y] == 1 then 1 else 0)
    ensures NeighborCount(g, x, y) < 2 || NeighborCount(g, x, y) > 3 ==> NextLife(g, x, y) == 0
  {
  }

  /** One generation: every cell's next state, all computed from `g`. */
  function Next(g: Grid): (r: Grid)
    requires WellFormed(g)
    ensures WellFormed(r) && IsBinary(r)
    ensures forall x, y :: InBounds(x, y) ==> r[x][y] == NextLife(g, x, y)
  {
    seq(N, x requires 0 <= x < N => seq(N, y requires 0 <= y < N => NextLife(g, x, y)))
  }

  /** The board after k generations. */
  function Generations(g: Grid, k: nat): (r: Grid)
    requires WellFormed(g)
    ensures WellFormed(r)
    decreases k
  {
    if k == 0 then g else Next(Generations(g, k - 1))
  }

  /** Two boards agreeing cell by cell are equal. */
  lemma GridExt(g: Grid, h: Grid)
    requires WellFormed(g) && WellFormed(h)
    requires forall x, y :: InBounds(x, y) ==> g[x][y] == h[x][y]
    ensures g == h
  {
    forall x | 0 <= x < N
      ensures g[x] == h[x]
    {
      assert forall y :: 0 <= y < N ==> g[x][y] == h[x][y];
    }
  }

  /** An all-dead board stays all-dead: no dead cell ever has 3 live neighbours. */
  lemma AllDeadIsStill(g: Grid)
    requires WellFormed(g) && AllDead(g)
    ensures Next(g) == g
  {
    GridExt(Next(g), g);
  }

  /** ... and so it stays all-dead for any number of generations. */
  lemma {:induction false} AllDeadForever(g: Grid, k: nat)
    requires WellFormed(g) && AllDead(g)
    ensures Generations(g, k) == g
  {
    if k > 0 {
      AllDeadForever(g, k - 1);
      AllDeadIsStill(g);
    }
  }

  /** 1 for an on-board position listed in `alive`, 0 otherwise. */
  function Member(alive: set<(int, int)>, x: int, y: int): int {
    if InBounds(x, y) && (x, y) in alive then 1 else 0
  }

  /** Number of Moore neighbour positions of (x, y) listed in `alive`. */
  function CountIn(alive: set<(int, int)>, x: int, y: int): int {
    Member(alive, x - 1, y - 1) + Member(alive, x - 1, y) + Member(alive, x - 1, y + 1) +
    Member(alive, x, y - 1) + Member(alive, x, y + 1) +
    Member(alive, x + 1, y - 1) + Member(alive, x + 1, y) + Member(alive, x + 1, y + 1)
  }

  /** On a board given by a set of live positions, the count is a count of set members. */
  lemma PatternCount(alive: set<(int, int)>, x: int, y: int)
    ensures NeighborCount(Pattern(alive), x, y) == CountIn(alive, x, y)
  {
    var g := Pattern(alive);
    forall i, j ensures LiveAt(g, i, j) == Member(alive, i, j) {
      if InBounds(i, j) {
        assert g[i][j] == 1 <==> (i, j) in alive;
      }
    }
  }

  /** The positions of a 2-by-2 block whose top-left cell is (a, b). */
  function BlockCells(a: int, b: int): set<(int, int)> {
    {(a, b), (a + 1, b), (a, b + 1), (a + 1, b + 1)}
  }

  lemma BlockCount(a: int, b: int, x: int, y: int)
    requires 0 <= a < N - 1 && 0 <= b < N - 1 && InBounds(x, y)
    ensures (x, y) in BlockCells(a, b) ==> CountIn(BlockCells(a, b), x, y) == 3
    ensures (x, y) !in BlockCells(a, b) ==> CountIn(BlockCells(a, b), x, y) <= 2
  {
  }

  /** A 2-by-2 block anywhere on the board, edges and corners included, is a still life. */
  lemma BlockIsStill(a: int, b: int)
    requires 0 <= a < N - 1 && 0 <= b < N - 1
    ensures Next(Pattern(BlockCells(a, b))) == Pattern(BlockCells(a, b))
  {
    var g := Pattern(BlockCells(a, b));
    forall x, y | InBounds(x, y)
      ensures Next(g)[x][y] == g[x][y]
    {
      PatternCount(BlockCells(a, b), x, y);
      BlockCount(a, b, x, y);
    }
    GridExt(Next(g), g);
  }

  // ---------------------------------------------------------------------------
  // Editing the board
  // ---------------------------------------------------------------------------

  /** The tapped cell flips between dead and alive; nothing else changes. */
  function Toggle(g: Grid, x: int, y: int): (r: Grid)
    requires WellFormed(g) && InBounds(x, y)
    ensures WellFormed(r)
    ensures r[x][y] == (if g[x][y] == 0 then 1 else 0)
    ensures forall i, j :: InBounds(i, j) && (i != x || j != y) ==> r[i][j] == g[i][j]
  {
    g[x := g[x][y := if g[x][y] == 0 then 1 else 0]]
  }

  /** Toggling keeps a 0/1 board a 0/1 board, and toggling twice undoes it. */
  lemma ToggleInvolution(g: Grid, x: int, y: int)
    requires WellFormed(g) && IsBinary(g) && InBounds(x, y)
    ensures IsBinary(Toggle(g, x, y))
    ensures Toggle(g, x, y) != g
    ensures Toggle(Toggle(g, x, y), x, y) == g
  {
    GridExt(Toggle(Toggle(g, x, y), x, y), g);
  }

  function SetAlive(g: Grid, x: int, y: int): Grid
    requires WellFormed(g) && InBounds(x, y)
  {
    g[x := g[x][y := 1]]
  }

  /** The positions initializeCell brings to life. */
  const SeedCells: set<(int, int)> :=
    {(4, 6), (5, 5), (6, 5), (7, 5), (8, 5), (9, 6), (5, 7), (6, 7), (7, 7), (8, 7)}

  /** initializeCell's ten assignments in order; exactly the seed positions become 1. */
  function Seed(g: Grid): (r: Grid)
    requires WellFormed(g)
    ensures WellFormed(r)
    ensures forall x, y :: InBounds(x, y) ==> r[x][y] == if (x, y) in SeedCells then 1 else g[x][y]
  {
    var g1 := SetAlive(g, 4, 6);
    var g2 := SetAlive(g1, 5, 5);
    var g3 := SetAlive(g2, 6, 5);
    var g4 := SetAlive(g3, 7, 5);
    var g5 := SetAlive(g4, 8, 5);
    var g6 := SetAlive(g5, 9, 6);
    var g7 := SetAlive(g6, 5, 7);
    var g8 := SetAlive(g7, 6, 7);
    var g9 := SetAlive(g8, 7, 7);
    SetAlive(g9, 8, 7)
  }

  /** The positions alive one generation after the seed on an otherwise dead board. */
  const SeedSuccessorCells: set<(int, int)> :=
    {(4, 6), (5, 5), (5, 7), (6, 4), (6, 5), (6, 7), (6, 8),
     (7, 4), (7, 5), (7, 7), (7, 8), (8, 5), (8, 7), (9, 6)}

  /** SeedCells drawn as a shape: rows 5 and 7 of columns 5 to 8, plus (4, 6) and (9, 6). */
  predicate SeedShape(x: int, y: int) {
    (x == 4 && y == 6) || (x == 9 && y == 6) || (5 <= x <= 8 && (y == 5 || y == 7))
  }

  /** SeedSuccessorCells drawn as a shape. */
  predicate SeedSuccessorShape(x: int, y: int) {
    (x == 4 && y == 6) || (x == 9 && y == 6) || ((x == 5 || x == 8) && (y == 5 || y == 7)) ||
    (6 <= x <= 7 && (y == 4 || y == 5 || y == 7 || y == 8))
  }

  lemma SeedShapes(x: int, y: int)
    ensures (x, y) in SeedCells <==> SeedShape(x, y)
    ensures (x, y) in SeedSuccessorCells <==> SeedSuccessorShape(x, y)
  {
  }

  /** Cell by cell, the rule applied to the seed picks out exactly the successor positions. */
  lemma SeedRule(x: int, y: int)
    requires InBounds(x, y)
    ensures (CountIn(SeedCells, x, y) == 3 || ((x, y) in SeedCells && CountIn(SeedCells, x, y) == 2))
        <==> (x, y) in SeedSuccessorCells
  {
    SeedShapes(x, y);
    SeedShapes(x - 1, y - 1);
    SeedShapes(x - 1, y);
    SeedShapes(x - 1, y + 1);
    SeedShapes(x, y - 1);
    SeedShapes(x, y + 1);
    SeedShapes(x + 1, y - 1);
    SeedShapes(x + 1, y);
    SeedShapes(x + 1, y + 1);
  }

  /** Golden generation: seeding the dead board and stepping once gives SeedSuccessorCells. */
  lemma SeedFirstGeneration()
    ensures Next(Seed(Dead())) == Pattern(SeedSuccessorCells)
  {
    var g := Pattern(SeedCells);
    GridExt(Seed(Dead()), g);
    var h := Pattern(SeedSuccessorCells);
    forall x, y | InBounds(x, y)
      ensures Next(g)[x][y] == h[x][y]
    {
      PatternCount(SeedCells, x, y);
      SeedRule(x, y);
    }
    GridExt(Next(g), h);
  }
}
