/** The grid component itself: a 5x5 array of cells updated in place by
    clicks, proved against the rules of the BingoRules module. */
module BingoManagerModel {
  import opened BingoGrid
  import opened WinCheck
  import opened BingoRules

  class BingoManager {
    /** grid[row, col] is the button laid out at that row and column. */
    const grid: array2<Cell>
    var isPlaced: map<int, bool>
    var currentNumber: int
    var placementDone: bool
    var instruction: Instruction

    /** The grid as a value. */
    ghost function Board(): (b: Board)
      requires grid.Length0 == Size && grid.Length1 == Size
      reads grid
      ensures IsBoard(b)
      ensures forall r, c | InGrid(r, c) :: b[r][c] == grid[r, c]
    {
      seq(Size, r requires 0 <= r < Size reads grid =>
        seq(Size, c requires 0 <= c < Size reads grid => grid[r, c]))
    }

    /** The whole state of the component as a value. */
    ghost function State(): GameState
      requires grid.Length0 == Size && grid.Length1 == Size
      reads this, grid
    {
      GameState(Board(), isPlaced, currentNumber, placementDone, instruction)
    }

    ghost predicate Valid()
      reads this, grid
    {
      grid.Length0 == Size && grid.Length1 == Size && Inv(State())
    }

    /** The field initialisers: counter at 1, placement not done, an empty
        isPlaced and an empty 5x5 grid. */
    constructor ()
      ensures fresh(grid) && grid.Length0 == Size && grid.Length1 == Size
      ensures currentNumber == 1 && !placementDone && isPlaced == map[]
      ensures instruction == Unset
    {
      grid := new Cell[Size, Size];
      isPlaced := map[];
      currentNumber := 1;
      placementDone := false;
      instruction := Unset;
    }

    /** Builds the grid: button i of the list goes to row i / 5, column i % 5
        and is marked not placed. */
    method Start()
      requires grid.Length0 == Size && grid.Length1 == Size
      requires currentNumber == 1 && !placementDone && isPlaced == map[]
      modifies this, grid
      ensures Valid() && State() == Initial()
    {
      instruction := StartPlacing;
      for i := 0 to ButtonCount
        invariant isPlaced == Unplaced(i)
        invariant currentNumber == 1 && !placementDone && instruction == StartPlacing
        invariant forall j | 0 <= j < i :: grid[RowOf(j), ColOf(j)] == Cell(j, None, true)
      {
        isPlaced := isPlaced[i := false];
        var row := i / Size;
        var col := i % Size;
        LayoutPlacesEveryButton(i);
        forall j | 0 <= j < i ensures RowOf(j) != row || ColOf(j) != col {
          LayoutInjective(j, i);
        }
        grid[row, col] := Cell(i, None, true);
      }
      forall r, c | InGrid(r, c) ensures grid[r, c] == Cell(IndexOf(r, c), None, true) {
        LayoutFillsEveryCell(r, c);
        var j := IndexOf(r, c);
        assert grid[RowOf(j), ColOf(j)] == Cell(j, None, true);
      }
      BoardExtensionality(Board(), InitialBoard());
      assert State() == Initial();
      InitialSatisfiesInv();
    }

    /** A click on the button at (row, col). */
    method OnButtonClick(row: int, col: int)
      requires Valid() && InGrid(row, col)
      modifies this, grid
      ensures Valid()
      ensures State() == Click(old(State()), row, col)
    {
      ghost var before := State();
      var btn := grid[row, col];
      if !placementDone && !isPlaced[btn.button] {
        grid[row, col] := btn.(number := Some(currentNumber));
        isPlaced := isPlaced[btn.button := true];
        currentNumber := currentNumber + 1;
        if currentNumber <= ButtonCount {
          instruction := NextNumber(currentNumber);
        } else {
          placementDone := true;
          instruction := CheckTheNumber;
        }
        BoardExtensionality(Board(), SetCell(before.board, row, col, btn.(number := Some(before.currentNumber))));
        assert State() == Click(before, row, col);
      } else if placementDone && btn.interactable {
        grid[row, col] := btn.(interactable := false);
        BoardExtensionality(Board(), SetCell(before.board, row, col, btn.(interactable := false)));
        instruction := NumberCut(btn.number);
        var won := CheckForWin();
        if won {
          instruction := YouWin;
        }
        assert State() == Click(before, row, col);
      }
      ClickPreservesInv(before, row, col);
    }

    /** Counts the complete lines row by row, column by column, then the
        two diagonals, and reports whether at least five are complete. */
    method CheckForWin() returns (won: bool)
      requires grid.Length0 == Size && grid.Length1 == Size
      ensures won == HasWon(Board())
    {
      var completedLines := 0;
      completedLines := CheckRows(completedLines);
      completedLines := CheckColumns(completedLines);
      completedLines := CheckMainDiagonal(completedLines);
      completedLines := CheckAntiDiagonal(completedLines);
      CompletedAmongAll(Board());
      won := completedLines >= WinningLines;
    }

    /** Adds the number of complete rows to the running count. */
    method CheckRows(completedLines: int) returns (total: int)
      requires grid.Length0 == Size && grid.Length1 == Size
      requires completedLines == CompletedAmong(Board(), 0)
      ensures total == CompletedAmong(Board(), Size)
    {
      ghost var b := Board();
      total := completedLines;
      for row := 0 to Size
        invariant total == CompletedAmong(b, row)
      {
        var count := 0;
        for col := 0 to Size
          invariant count == CutCount(b, Row(row), col)
        {
          assert IsCut(b, row, col) == !grid[row, col].interactable;
          if !grid[row, col].interactable {
            count := count + 1;
          }
        }
        AllLinesAt(row);
        CompletedAmongStep(b, row);
        CompleteIsFiveCut(b, Row(row));
        if count == Size {
          total := total + 1;
        }
      }
    }

    /** Adds the number of complete columns to the running count. */
    method CheckColumns(completedLines: int) returns (total: int)
      requires grid.Length0 == Size && grid.Length1 == Size
      requires completedLines == CompletedAmong(Board(), Size)
      ensures total == CompletedAmong(Board(), 2 * Size)
    {
      ghost var b := Board();
      total := completedLines;
      for col := 0 to Size
        invariant total == CompletedAmong(b, Size + col)
      {
        var count := 0;
        for row := 0 to Size
          invariant count == CutCount(b, Column(col), row)
        {
          assert IsCut(b, row, col) == !grid[row, col].interactable;
          if !grid[row, col].interactable {
            count := count + 1;
          }
        }
        AllLinesAt(Size + col);
        CompletedAmongStep(b, Size + col);
        CompleteIsFiveCut(b, Column(col));
        if count == Size {
          total := total + 1;
        }
      }
    }

    /** Adds one to the running count if the main diagonal is complete. */
    method CheckMainDiagonal(completedLines: int) returns (total: int)
      requires grid.Length0 == Size && grid.Length1 == Size
      requires completedLines == CompletedAmong(Board(), 2 * Size)
      ensures total == CompletedAmong(Board(), 2 * Size + 1)
    {
      ghost var b := Board();
      var diag1 := 0;
      for i := 0 to Size
        invariant diag1 == CutCount(b, MainDiagonal, i)
      {
        assert IsCut(b, i, i) == !grid[i, i].interactable;
        if !grid[i, i].interactable {
          diag1 := diag1 + 1;
        }
      }
      AllLinesAt(2 * Size);
      CompletedAmongStep(b, 2 * Size);
      CompleteIsFiveCut(b, MainDiagonal);
      total := if diag1 == Size then completedLines + 1 else completedLines;
    }

    /** Adds one to the running count if the anti-diagonal is complete. */
    method CheckAntiDiagonal(completedLines: int) returns (total: int)
      requires grid.Length0 == Size && grid.Length1 == Size
      requires completedLines == CompletedAmong(Board(), 2 * Size + 1)
      ensures total == CompletedAmong(Board(), 2 * Size + 2)
    {
      ghost var b := Board();
      var diag2 := 0;
      for i := 0 to Size
        invariant diag2 == CutCount(b, AntiDiagonal, i)
      {
        assert IsCut(b, i, Size - 1 - i) == !grid[i, Size - 1 - i].interactable;
        if !grid[i, Size - 1 - i].interactable {
          diag2 := diag2 + 1;
        }
      }
      AllLinesAt(2 * Size + 1);
      CompletedAmongStep(b, 2 * Size + 1);
      CompleteIsFiveCut(b, AntiDiagonal);
      total := if diag2 == Size then completedLines + 1 else completedLines;
    }
  }
}
