/** The 5x5 grid of buttons: how the inspector's button list is laid out in
    rows and columns, what each button carries, and a value view of the grid. */
module BingoGrid {

  /** Rows and columns of the grid. */
  const Size := 5

  /** The inspector list is assumed to hold exactly this many buttons. */
  const ButtonCount := 25

  datatype Option<T> = None | Some(value: T)

  /** What one button of the grid carries: its index in the inspector list,
      the number shown as its text (None while the text is not yet set) and
      whether it can still be clicked (false once it has been cut). */
  datatype Cell = Cell(button: int, number: Option<int>, interactable: bool)

  predicate InGrid(row: int, col: int) {
    0 <= row < Size && 0 <= col < Size
  }

  /** Row and column of the button with inspector index i: a row of the
      grid for each index of the list. */
  function RowOf(i: int): (row: int)
    ensures 0 <= i < ButtonCount ==> 0 <= row < Size
  {
    i / Size
  }

  function ColOf(i: int): (col: int)
    ensures 0 <= i < ButtonCount ==> 0 <= col < Size
  {
    i % Size
  }

  /** The inspector index of the button in a given row and column: an index
      of the list for each cell of the grid. */
  function IndexOf(row: int, col: int): (i: int)
    ensures InGrid(row, col) ==> 0 <= i < ButtonCount
  {
    Size * row + col
  }

  /** Every index of the list lands in exactly one cell of the grid ... */
  lemma LayoutPlacesEveryButton(i: int)
    requires 0 <= i < ButtonCount
    ensures InGrid(RowOf(i), ColOf(i))
    ensures IndexOf(RowOf(i), ColOf(i)) == i
  {
  }

  /** ... and every cell of the grid receives exactly one index. */
  lemma LayoutFillsEveryCell(row: int, col: int)
    requires InGrid(row, col)
    ensures 0 <= IndexOf(row, col) < ButtonCount
    ensures RowOf(IndexOf(row, col)) == row && ColOf(IndexOf(row, col)) == col
  {
  }

  /** Two different indices never share a cell. */
  lemma LayoutInjective(i: int, j: int)
    requires 0 <= i < ButtonCount && 0 <= j < ButtonCount && i != j
    ensures RowOf(i) != RowOf(j) || ColOf(i) != ColOf(j)
  {
    LayoutPlacesEveryButton(i);
    LayoutPlacesEveryButton(j);
  }

  /** A value view of the grid: five rows of five cells. */
  type Board = seq<seq<Cell>>

  ghost predicate IsBoard(b: Board) {
    |b| == Size && forall r | 0 <= r < Size :: |b[r]| == Size
  }

  predicate IsCut(b: Board, row: int, col: int)
    requires IsBoard(b) && InGrid(row, col)
  {
    !b[row][col].interactable
  }

  /** Two boards with the same cells are the same board. */
  lemma BoardExtensionality(b: Board, b': Board)
    requires IsBoard(b) && IsBoard(b')
    requires forall r, c | InGrid(r, c) :: b[r][c] == b'[r][c]
    ensures b == b'
  {
    forall r | 0 <= r < Size ensures b[r] == b'[r] {
      assert forall c | 0 <= c < Size :: b[r][c] == b'[r][c];
    }
  }

  /** The board with one cell replaced. */
  ghost function SetCell(b: Board, row: int, col: int, x: Cell): (b': Board)
    requires IsBoard(b) && InGrid(row, col)
    ensures IsBoard(b')
    ensures b'[row][col] == x
    ensures forall r, c | InGrid(r, c) && (r != row || c != col) :: b'[r][c] == b[r][c]
  {
    b[row := b[row][col := x]]
  }

  /** Every cut of b is also a cut of b'. */
  ghost predicate CutsIncluded(b: Board, b': Board)
    requires IsBoard(b) && IsBoard(b')
  {
    forall r, c | InGrid(r, c) :: IsCut(b, r, c) ==> IsCut(b', r, c)
  }
}
