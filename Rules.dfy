/** The single-player rules of the grid as a state machine on values:
    the placement phase writes 1, 2, 3, ... into unplaced cells, and once
    the 25th number is placed every click on an active cell cuts it. */
module BingoRules {
  import opened BingoGrid
  import opened WinCheck

  /** The text of the instruction label, abstracted from its wording. */
  datatype Instruction =
    | Unset                         // the label as it was before the grid is built
    | StartPlacing                  // asks the player to begin placing
    | NextNumber(next: int)         // announces the number the next click writes
    | CheckTheNumber                // placement is over; cutting begins
    | NumberCut(cut: Option<int>)   // reports the number of the cell just cut
    | YouWin                        // announces the win

  datatype GameState = GameState(
    board: Board,
    isPlaced: map<int, bool>,  // keyed by the button's inspector index
    currentNumber: int,
    placementDone: bool,
    instruction: Instruction)

  /** The shape the grid has once it is built: 5x5 cells, the button at
      (row, col) is number 5 * row + col of the list, and every button has
      an entry in isPlaced. */
  ghost predicate WellFormed(s: GameState) {
    && IsBoard(s.board)
    && (forall r, c | InGrid(r, c) :: s.board[r][c].button == IndexOf(r, c))
    && (forall i :: i in s.isPlaced <==> 0 <= i < ButtonCount)
  }

  /** isPlaced with an entry false for each of the first n buttons, as the
      grid construction leaves it. */
  function Unplaced(n: nat): (m: map<int, bool>)
    ensures forall i :: i in m <==> 0 <= i < n
    ensures forall i | i in m :: !m[i]
  {
    if n == 0 then map[] else Unplaced(n - 1)[n - 1 := false]
  }

  /** The grid just after it is built: no number written, nothing cut. */
  ghost function InitialBoard(): (b: Board)
    ensures IsBoard(b)
    ensures forall r, c | InGrid(r, c) :: b[r][c] == Cell(IndexOf(r, c), None, true)
    ensures forall i | 0 <= i < ButtonCount :: b[RowOf(i)][ColOf(i)] == Cell(i, None, true)
  {
    var b := seq(Size, r => seq(Size, c => Cell(IndexOf(r, c), None, true)));
    assert forall i | 0 <= i < ButtonCount :: b[RowOf(i)][ColOf(i)] == Cell(i, None, true) by {
      forall i | 0 <= i < ButtonCount ensures b[RowOf(i)][ColOf(i)] == Cell(i, None, true) {
        LayoutPlacesEveryButton(i);
      }
    }
    b
  }

  /** The state once the grid is built: every button in its cell and
      marked not placed, nothing written and nothing cut. */
  ghost function Initial(): (s: GameState)
    ensures WellFormed(s)
    ensures forall i | 0 <= i < ButtonCount :: !s.isPlaced[i]
    ensures forall r, c | InGrid(r, c) :: s.board[r][c].number == None && !IsCut(s.board, r, c)
  {
    GameState(InitialBoard(), Unplaced(ButtonCount), 1, false, StartPlacing)
  }

  /** One click on the button at (row, col). */
  ghost function Click(s: GameState, row: int, col: int): (s': GameState)
    requires WellFormed(s) && InGrid(row, col)
    ensures WellFormed(s')
  {
    var btn := s.board[row][col];
    if !s.placementDone && !s.isPlaced[btn.button] then
      var next := s.currentNumber + 1;
      GameState(
        SetCell(s.board, row, col, btn.(number := Some(s.currentNumber))),
        s.isPlaced[btn.button := true],
        next,
        next > ButtonCount,
        if next <= ButtonCount then NextNumber(next) else CheckTheNumber)
    else if s.placementDone && btn.interactable then
      var b := SetCell(s.board, row, col, btn.(interactable := false));
      s.(board := b, instruction := if HasWon(b) then YouWin else NumberCut(btn.number))
    else
      s
  }

  /** The state after a sequence of clicks, the last one applied last. */
  ghost function Run(s: GameState, clicks: seq<(int, int)>): (s': GameState)
    requires WellFormed(s)
    requires forall k | 0 <= k < |clicks| :: InGrid(clicks[k].0, clicks[k].1)
    ensures WellFormed(s')
    decreases |clicks|
  {
    if clicks == [] then s
    else
      var last := clicks[|clicks| - 1];
      Click(Run(s, clicks[..|clicks| - 1]), last.0, last.1)
  }

  // ---------------------------------------------------------------------
  // The invariant of the state machine

  /** How many of the buttons 0 .. k-1 are placed. */
  ghost function PlacedCount(m: map<int, bool>, k: nat): (n: nat)
    requires forall i | 0 <= i < k :: i in m
    ensures n <= k
  {
    if k == 0 then 0 else PlacedCount(m, k - 1) + (if m[k - 1] then 1 else 0)
  }

  /** Some cell of the board shows the number n. */
  ghost predicate NumberShown(b: Board, n: int)
    requires IsBoard(b)
  {
    exists r, c :: InGrid(r, c) && b[r][c].number == Some(n)
  }

  /** No number is shown by two different cells. */
  ghost predicate NumbersDistinct(b: Board)
    requires IsBoard(b)
  {
    forall r1, c1, r2, c2 | InGrid(r1, c1) && InGrid(r2, c2)
      && b[r1][c1].number.Some? && b[r1][c1].number == b[r2][c2].number
      :: r1 == r2 && c1 == c2
  }

  ghost predicate Inv(s: GameState) {
    && WellFormed(s)
    && 1 <= s.currentNumber <= ButtonCount + 1
    && (s.placementDone <==> s.currentNumber == ButtonCount + 1)
    // a button is marked placed exactly when a number is written on it
    && (forall r, c | InGrid(r, c) :: s.isPlaced[IndexOf(r, c)] <==> s.board[r][c].number.Some?)
    // currentNumber - 1 buttons are placed, showing the numbers 1 .. currentNumber - 1
    && PlacedCount(s.isPlaced, ButtonCount) == s.currentNumber - 1
    && (forall r, c | InGrid(r, c) && s.board[r][c].number.Some? ::
          1 <= s.board[r][c].number.value < s.currentNumber)
    && (forall n | 1 <= n < s.currentNumber :: NumberShown(s.board, n))
    && NumbersDistinct(s.board)
    // nothing is cut before placement is done
    && (!s.placementDone ==> forall r, c | InGrid(r, c) :: !IsCut(s.board, r, c))
  }

  lemma {:induction false} PlacedCountFull(m: map<int, bool>, k: nat)
    requires forall i | 0 <= i < k :: i in m
    requires PlacedCount(m, k) == k
    ensures forall i | 0 <= i < k :: m[i]
  {
    if k > 0 {
      PlacedCountFull(m, k - 1);
    }
  }

  lemma {:induction false} PlacedCountNone(m: map<int, bool>, k: nat)
    requires forall i | 0 <= i < k :: i in m && !m[i]
    ensures PlacedCount(m, k) == 0
  {
    if k > 0 {
      PlacedCountNone(m, k - 1);
    }
  }

  /** Marking one unplaced button raises the count by one, if it is counted. */
  lemma {:induction false} PlacedCountMark(m: map<int, bool>, k: nat, j: int)
    requires forall i | 0 <= i < k :: i in m
    requires j in m && !m[j]
    ensures PlacedCount(m[j := true], k) == PlacedCount(m, k) + (if 0 <= j < k then 1 else 0)
  {
    if k > 0 {
      PlacedCountMark(m, k - 1, j);
    }
  }

  // ---------------------------------------------------------------------
  // Properties

  /** The freshly built grid satisfies the invariant and has no line. */
  lemma InitialSatisfiesInv()
    ensures Inv(Initial())
    ensures Initial().currentNumber == 1 && !Initial().placementDone
    ensures forall r, c | InGrid(r, c) :: Initial().board[r][c].number == None
    ensures CompletedLines(Initial().board) == 0
  {
    var s := Initial();
    PlacedCountNone(s.isPlaced, ButtonCount);
    NoCutsNoLines(s.board);
  }

  /** Placement: a click on an unplaced button writes currentNumber on it,
      marks it placed and advances the counter by one; placement is done
      exactly when the 25th number has been written. */
  lemma ClickPlacesNextNumber(s: GameState, row: int, col: int)
    requires Inv(s) && InGrid(row, col)
    requires !s.placementDone && !s.isPlaced[IndexOf(row, col)]
    ensures var s' := Click(s, row, col);
      && s'.board == SetCell(s.board, row, col, s.board[row][col].(number := Some(s.currentNumber)))
      && s'.isPlaced == s.isPlaced[IndexOf(row, col) := true]
      && s'.currentNumber == s.currentNumber + 1
      && (s'.placementDone <==> s.currentNumber == ButtonCount)
      && s'.instruction == if s.currentNumber < ButtonCount then NextNumber(s'.currentNumber) else CheckTheNumber
  {
  }

  /** Placement: a click on a button already placed changes nothing. */
  lemma ClickOnPlacedIsNoOp(s: GameState, row: int, col: int)
    requires WellFormed(s) && InGrid(row, col)
    requires !s.placementDone && s.isPlaced[IndexOf(row, col)]
    ensures Click(s, row, col) == s
  {
  }

  /** Cut phase: a click on an active cell cuts that cell and nothing else;
      the counter, the phase and the placed marks stay as they were. */
  lemma ClickCutsActiveCell(s: GameState, row: int, col: int)
    requires WellFormed(s) && InGrid(row, col)
    requires s.placementDone && s.board[row][col].interactable
    ensures var s' := Click(s, row, col);
      && IsCut(s'.board, row, col)
      && s'.board[row][col].number == s.board[row][col].number
      && (forall r, c | InGrid(r, c) && (r != row || c != col) :: s'.board[r][c] == s.board[r][c])
      && s'.isPlaced == s.isPlaced
      && s'.currentNumber == s.currentNumber
      && s'.placementDone
      && s'.instruction == if HasWon(s'.board) then YouWin else NumberCut(s.board[row][col].number)
  {
  }

  /** Cut phase: a click on a cell that is already cut changes nothing. */
  lemma ClickOnCutIsNoOp(s: GameState, row: int, col: int)
    requires WellFormed(s) && InGrid(row, col)
    requires s.placementDone && IsCut(s.board, row, col)
    ensures Click(s, row, col) == s
  {
  }

  /** Cut phase: clicking the same cell twice is the same as clicking it once. */
  lemma ClickTwiceIsOnce(s: GameState, row: int, col: int)
    requires WellFormed(s) && InGrid(row, col) && s.placementDone
    ensures Click(Click(s, row, col), row, col) == Click(s, row, col)
  {
    var s' := Click(s, row, col);
    assert s'.placementDone && IsCut(s'.board, row, col);
  }

  /** The last placement click is different: the click that writes the 25th
      number ends placement, so a second click on that button cuts it. */
  lemma LastPlacementThenCut(s: GameState, row: int, col: int)
    requires Inv(s) && InGrid(row, col)
    requires s.currentNumber == ButtonCount && !s.isPlaced[IndexOf(row, col)]
    ensures Click(s, row, col).placementDone
    ensures IsCut(Click(Click(s, row, col), row, col).board, row, col)
  {
  }

  /** No click during placement cuts a cell. */
  lemma NoCutDuringPlacement(s: GameState, row: int, col: int)
    requires Inv(s) && InGrid(row, col) && !s.placementDone
    ensures forall r, c | InGrid(r, c) :: !IsCut(Click(s, row, col).board, r, c)
  {
  }

  /** A cut is never undone. */
  lemma CutsNeverUndone(s: GameState, row: int, col: int)
    requires WellFormed(s) && InGrid(row, col)
    ensures CutsIncluded(s.board, Click(s, row, col).board)
  {
  }

  /** Once the grid is a win, it stays a win after any click. */
  lemma WinIsMonotone(s: GameState, row: int, col: int)
    requires WellFormed(s) && InGrid(row, col)
    requires HasWon(s.board)
    ensures HasWon(Click(s, row, col).board)
  {
    CutsNeverUndone(s, row, col);
    CompletedLinesMonotone(s.board, Click(s, row, col).board);
  }

  lemma ClickPlacePreservesInv(s: GameState, row: int, col: int)
    requires Inv(s) && InGrid(row, col)
    requires !s.placementDone && !s.isPlaced[IndexOf(row, col)]
    ensures Inv(Click(s, row, col))
  {
    var s' := Click(s, row, col);
    var n := s.currentNumber;
    assert s.board[row][col].number == None;
    PlacedCountMark(s.isPlaced, ButtonCount, IndexOf(row, col));
    forall k | 1 <= k < s'.currentNumber ensures NumberShown(s'.board, k) {
      if k == n {
        assert s'.board[row][col].number == Some(n);
      } else {
        assert NumberShown(s.board, k);
        var r, c :| InGrid(r, c) && s.board[r][c].number == Some(k);
        assert s'.board[r][c].number == Some(k);
      }
    }
  }

  lemma ClickCutPreservesInv(s: GameState, row: int, col: int)
    requires Inv(s) && InGrid(row, col)
    requires s.placementDone && s.board[row][col].interactable
    ensures Inv(Click(s, row, col))
  {
    var s' := Click(s, row, col);
    forall k | 1 <= k < s'.currentNumber ensures NumberShown(s'.board, k) {
      assert NumberShown(s.board, k);
      var r, c :| InGrid(r, c) && s.board[r][c].number == Some(k);
      assert s'.board[r][c].number == Some(k);
    }
  }

  /** Every click keeps the invariant: in particular currentNumber stays
      within 1 .. 26 and placementDone holds exactly when it is 26. */
  lemma ClickPreservesInv(s: GameState, row: int, col: int)
    requires Inv(s) && InGrid(row, col)
    ensures Inv(Click(s, row, col))
  {
    var btn := s.board[row][col];
    if !s.placementDone && !s.isPlaced[btn.button] {
      ClickPlacePreservesInv(s, row, col);
    } else if s.placementDone && btn.interactable {
      ClickCutPreservesInv(s, row, col);
    }
  }

  /** When placement is done the grid is a bijection between the 25 cells
      and the numbers 1 .. 25: every cell shows a number in 1 .. 25, every
      such number is shown, and no two cells show the same one. */
  lemma PlacementDoneIsBijection(s: GameState)
    requires Inv(s) && s.placementDone
    ensures forall r, c | InGrid(r, c) ::
      s.board[r][c].number.Some? && 1 <= s.board[r][c].number.value <= ButtonCount
    ensures forall n | 1 <= n <= ButtonCount :: NumberShown(s.board, n)
    ensures NumbersDistinct(s.board)
  {
    PlacedCountFull(s.isPlaced, ButtonCount);
    forall r, c | InGrid(r, c) ensures s.board[r][c].number.Some? {
      LayoutFillsEveryCell(r, c);
    }
  }

  /** The invariant holds after any sequence of clicks. */
  lemma {:induction false} RunPreservesInv(s: GameState, clicks: seq<(int, int)>)
    requires Inv(s)
    requires forall k | 0 <= k < |clicks| :: InGrid(clicks[k].0, clicks[k].1)
    ensures Inv(Run(s, clicks))
  {
    if clicks != [] {
      var init := clicks[..|clicks| - 1];
      RunPreservesInv(s, init);
      ClickPreservesInv(Run(s, init), clicks[|clicks| - 1].0, clicks[|clicks| - 1].1);
    }
  }

  /** Cuts only accumulate over any sequence of clicks, and so does a win. */
  lemma {:induction false} RunKeepsCutsAndWin(s: GameState, clicks: seq<(int, int)>)
    requires WellFormed(s)
    requires forall k | 0 <= k < |clicks| :: InGrid(clicks[k].0, clicks[k].1)
    ensures CutsIncluded(s.board, Run(s, clicks).board)
    ensures HasWon(s.board) ==> HasWon(Run(s, clicks).board)
  {
    if clicks != [] {
      var init := clicks[..|clicks| - 1];
      var last := clicks[|clicks| - 1];
      RunKeepsCutsAndWin(s, init);
      CutsNeverUndone(Run(s, init), last.0, last.1);
      CompletedLinesMonotone(s.board, Run(s, clicks).board);
    }
  }

  /** Clicking the first k buttons in list order (row by row). */
  function RowMajor(k: nat): (clicks: seq<(int, int)>)
    requires k <= ButtonCount
    ensures |clicks| == k
    ensures forall j | 0 <= j < k :: clicks[j] == (RowOf(j), ColOf(j)) && InGrid(RowOf(j), ColOf(j))
  {
    seq(k, j requires 0 <= j < k => (RowOf(j), ColOf(j)))
  }

  /** The state after the first k buttons have been clicked in list order
      from the freshly built grid: button i shows i + 1 when i < k. */
  ghost predicate PlacedInListOrder(s: GameState, k: int)
    requires WellFormed(s)
  {
    && s.currentNumber == k + 1
    && (s.placementDone <==> k == ButtonCount)
    && (forall i | 0 <= i < ButtonCount :: s.isPlaced[i] == (i < k))
    && (forall r, c | InGrid(r, c) ::
          s.board[r][c] == Cell(IndexOf(r, c), if IndexOf(r, c) < k then Some(IndexOf(r, c) + 1) else None, true))
  }

  lemma PlaceNextInListOrder(s: GameState, k: int)
    requires WellFormed(s) && 0 < k <= ButtonCount && PlacedInListOrder(s, k - 1)
    ensures InGrid(RowOf(k - 1), ColOf(k - 1))
    ensures PlacedInListOrder(Click(s, RowOf(k - 1), ColOf(k - 1)), k)
  {
    var row, col := RowOf(k - 1), ColOf(k - 1);
    LayoutPlacesEveryButton(k - 1);
    var s' := Click(s, row, col);
    assert s.board[row][col] == Cell(k - 1, None, true);
    forall r, c | InGrid(r, c)
      ensures s'.board[r][c]
           == Cell(IndexOf(r, c), if IndexOf(r, c) < k then Some(IndexOf(r, c) + 1) else None, true)
    {
      LayoutFillsEveryCell(r, c);
    }
  }

  lemma InitialInListOrder()
    ensures PlacedInListOrder(Initial(), 0)
  {
  }

  lemma {:induction false} RowMajorPlacement(k: nat)
    requires k <= ButtonCount
    ensures PlacedInListOrder(Run(Initial(), RowMajor(k)), k)
  {
    if k == 0 {
      InitialInListOrder();
    } else {
      RowMajorPlacement(k - 1);
      assert RowMajor(k)[..k - 1] == RowMajor(k - 1);
      PlaceNextInListOrder(Run(Initial(), RowMajor(k - 1)), k);
    }
  }

  /** Scenario: placing 1 .. 25 row by row ends placement with the button at
      (row, col) showing 5 * row + col + 1. */
  lemma RowMajorPlacementComplete()
    ensures var s := Run(Initial(), RowMajor(ButtonCount));
      && s.placementDone && s.currentNumber == ButtonCount + 1
      && forall r, c | InGrid(r, c) :: s.board[r][c].number == Some(IndexOf(r, c) + 1)
  {
    RowMajorPlacement(ButtonCount);
    forall r, c | InGrid(r, c) ensures IndexOf(r, c) < ButtonCount {
      LayoutFillsEveryCell(r, c);
    }
  }
}
