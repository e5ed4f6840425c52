/**
 * The application object: the board of cell states, kept in place in a
 * two-dimensional array, and the single flag that tells whether the run loop
 * is active. Each method is proved against the pure definitions of LifeRules
 * through the ghost value `board`, which Valid() ties to the array.
 */
module LifeApp {
  import opened LifeRules

  class App {
    /** Cells[x, y].State: the state of every cell, 0 or 1. */
    const cells: array2<int>
    /** isExecuted: true from START until STOP. */
    var isExecuted: bool
    /** The board as a value. */
    ghost var board: Grid

    ghost predicate Valid()
      reads this, cells
    {
      cells.Length0 == N && cells.Length1 == N &&
      WellFormed(board) && IsBinary(board) &&
      forall x, y :: InBounds(x, y) ==> cells[x, y] == board[x][y]
    }

    /** A fresh board with every cell dead and the loop not running. */
    constructor ()
      ensures Valid() && fresh(cells)
      ensures board == Dead() && !isExecuted
    {
      cells := new int[N, N]((x, y) => 0);
      isExecuted := false;
      board := Dead();
    }

    /** The next state of cell (x, y), counting neighbours one direction at a time. */
    method JudgeNextLife(x: int, y: int) returns (newLife: int)
      requires Valid() && InBounds(x, y)
      ensures newLife == NextLife(board, x, y)
    {
      var neighborsCount := 0;
      if x > 0 {
        if cells[x - 1, y] == 1 {
          neighborsCount := neighborsCount + 1;
        }
        if y > 0 && cells[x - 1, y - 1] == 1 {
          neighborsCount := neighborsCount + 1;
        }
        if y < N - 1 && cells[x - 1, y + 1] == 1 {
          neighborsCount := neighborsCount + 1;
        }
      }
      assert neighborsCount == LiveAt(board, x - 1, y) + LiveAt(board, x - 1, y - 1) + LiveAt(board, x - 1, y + 1);
      if x < N - 1 {
        if cells[x + 1, y] == 1 {
          neighborsCount := neighborsCount + 1;
        }
        if y > 0 && cells[x + 1, y - 1] == 1 {
          neighborsCount := neighborsCount + 1;
        }
        if y < N - 1 && cells[x + 1, y + 1] == 1 {
          neighborsCount := neighborsCount + 1;
        }
      }
      assert neighborsCount == LiveAt(board, x - 1, y) + LiveAt(board, x - 1, y - 1) + LiveAt(board, x - 1, y + 1) +
                               LiveAt(board, x + 1, y) + LiveAt(board, x + 1, y - 1) + LiveAt(board, x + 1, y + 1);
      if y > 0 {
        if cells[x, y - 1] == 1 {
          neighborsCount := neighborsCount + 1;
        }
      }
      if y < N - 1 {
        if cells[x, y + 1] == 1 {
          neighborsCount := neighborsCount + 1;
        }
      }
      assert neighborsCount == NeighborCount(board, x, y);

      var life := cells[x, y];
      newLife := 0;
      if life == 1 {
        if neighborsCount == 3 || neighborsCount == 2 {
          newLife := 1;
        }
      } else {
        if neighborsCount == 3 {
          newLife := 1;
        }
      }
    }

    /** The first half of UpdateCells: every cell's next state, judged on the
        unchanged board and written into a fresh scratch array. */
    method JudgeAll() returns (temp: array2<int>)
      requires Valid()
      ensures fresh(temp) && temp.Length0 == N && temp.Length1 == N
      ensures forall a, b :: InBounds(a, b) ==> temp[a, b] == NextLife(board, a, b)
    {
      temp := new int[N, N];
      for i := 0 to N
        modifies temp
        invariant forall a, b :: 0 <= a < i && 0 <= b < N ==> temp[a, b] == NextLife(board, a, b)
      {
        for j := 0 to N
          modifies temp
          invariant forall a, b :: 0 <= a < i && 0 <= b < N ==> temp[a, b] == NextLife(board, a, b)
          invariant forall b :: 0 <= b < j ==> temp[i, b] == NextLife(board, i, b)
        {
          temp[i, j] := JudgeNextLife(i, j);
        }
      }
    }

    /** The second half of UpdateCells: every state in the scratch array is
        copied onto the board. */
    method CommitAll(temp: array2<int>)
      requires cells.Length0 == N && cells.Length1 == N
      requires temp.Length0 == N && temp.Length1 == N && temp != cells
      modifies cells
      ensures forall a, b :: InBounds(a, b) ==> cells[a, b] == temp[a, b]
    {
      for i := 0 to N
        invariant forall a, b :: 0 <= a < i && 0 <= b < N ==> cells[a, b] == temp[a, b]
      {
        for j := 0 to N
          invariant forall a, b :: 0 <= a < i && 0 <= b < N ==> cells[a, b] == temp[a, b]
          invariant forall b :: 0 <= b < j ==> cells[i, b] == temp[i, b]
        {
          cells[i, j] := temp[i, j];
        }
      }
    }

    /** One generation: all next states go into a scratch array first, then
        are copied back, so no cell is judged on a half-updated board. */
    method UpdateCells()
      requires Valid()
      modifies this, cells
      ensures Valid() && isExecuted == old(isExecuted)
      ensures board == Next(old(board))
    {
      var temp := JudgeAll();
      CommitAll(temp);
      board := Next(board);
    }

    /** A tap on cell (x, y): ignored while running, otherwise flips that cell. */
    method CellClicked(x: int, y: int)
      requires Valid() && InBounds(x, y)
      modifies this, cells
      ensures Valid() && isExecuted == old(isExecuted)
      ensures board == if old(isExecuted) then old(board) else Toggle(old(board), x, y)
    {
      if isExecuted {
        return;
      }
      if cells[x, y] == 0 {
        cells[x, y] := 1;
      } else {
        cells[x, y] := 0;
      }
      ToggleInvolution(board, x, y);
      board := Toggle(board, x, y);
    }

    /** One delivery of START: sets the flag unless it is already set.
        `launched` says whether this delivery goes on to run the loop. */
    method Start() returns (launched: bool)
      requires Valid()
      modifies this`isExecuted
      ensures Valid() && isExecuted
      ensures launched == !old(isExecuted)
    {
      if isExecuted {
        launched := false;
        return;
      }
      isExecuted := true;
      launched := true;
    }

    /** One press of START: the handler is subscribed twice, so it is delivered
        twice in a row, and the second delivery finds the flag set. */
    method StartButtonPressed() returns (launches: nat)
      requires Valid()
      modifies this`isExecuted
      ensures Valid() && isExecuted
      ensures launches == if old(isExecuted) then 0 else 1
    {
      var first := Start();
      var second := Start();
      launches := (if first then 1 else 0) + (if second then 1 else 0);
    }

    /** STOP: always clears the flag. */
    method Stop()
      requires Valid()
      modifies this`isExecuted
      ensures Valid() && !isExecuted
    {
      isExecuted := false;
    }

    /** The run loop of StartGame: while the flag is set, step the board.
        The STOP press that ends it arrives after `ticksBeforeStop` generations. */
    method StartGame(ticksBeforeStop: nat)
      requires Valid()
      modifies this, cells
      ensures Valid() && !isExecuted
      ensures board == if old(isExecuted) then Generations(old(board), ticksBeforeStop) else old(board)
    {
      ghost var start := board;
      ghost var running := isExecuted;
      var ticks := 0;
      while isExecuted
        invariant Valid() && ticks <= ticksBeforeStop
        invariant isExecuted ==> running
        invariant running && !isExecuted ==> ticks == ticksBeforeStop
        invariant board == if running then Generations(start, ticks) else start
        decreases ticksBeforeStop - ticks, isExecuted
      {
        if ticks == ticksBeforeStop {
          Stop();
        } else {
          UpdateCells();
          ticks := ticks + 1;
        }
      }
    }

    /** The fixed starting pattern: ten assignments of state 1. */
    method InitializeCell()
      requires Valid()
      modifies this, cells
      ensures Valid() && isExecuted == old(isExecuted)
      ensures board == Seed(old(board))
    {
      cells[4, 6] := 1;
      cells[5, 5] := 1;
      cells[6, 5] := 1;
      cells[7, 5] := 1;
      cells[8, 5] := 1;

      cells[9, 6] := 1;
      cells[5, 7] := 1;
      cells[6, 7] := 1;
      cells[7, 7] := 1;
      cells[8, 7] := 1;
      forall x, y | InBounds(x, y)
        ensures cells[x, y] == Seed(board)[x][y]
      {
        SeedShapes(x, y);
      }
      board := Seed(board);
    }
  }
}
