/** The win check: the twelve lines of the grid, which of them are complete,
    and how many complete lines make a win. */
module WinCheck {
  import opened BingoGrid

  /** A player wins with at least this many complete lines. */
  const WinningLines := 5

  datatype Line = Row(r: int) | Column(c: int) | MainDiagonal | AntiDiagonal

  ghost predicate ValidLine(l: Line) {
    match l
    case Row(r) => 0 <= r < Size
    case Column(c) => 0 <= c < Size
    case _ => true
  }

  /** The lines in the order the win check visits them: rows, columns,
      the main diagonal, the anti-diagonal. */
  function AllLines(): (ls: seq<Line>)
    ensures |ls| == 12
  {
    seq(Size, r => Row(r)) + seq(Size, c => Column(c)) + [MainDiagonal, AntiDiagonal]
  }

  lemma AllLinesAt(k: int)
    requires 0 <= k < 12
    ensures k < Size ==> AllLines()[k] == Row(k)
    ensures Size <= k < 2 * Size ==> AllLines()[k] == Column(k - Size)
    ensures k == 2 * Size ==> AllLines()[k] == MainDiagonal
    ensures k == 2 * Size + 1 ==> AllLines()[k] == AntiDiagonal
  {
  }

  ghost predicate ValidLines(ls: seq<Line>) {
    forall k | 0 <= k < |ls| :: ValidLine(ls[k])
  }

  lemma AllLinesValid()
    ensures ValidLines(AllLines())
  {
    forall k | 0 <= k < 12 ensures ValidLine(AllLines()[k]) {
      AllLinesAt(k);
    }
  }

  /** A line is complete when all five of its cells are cut. */
  ghost predicate Complete(b: Board, l: Line)
    requires IsBoard(b) && ValidLine(l)
  {
    match l
    case Row(r) => forall c | 0 <= c < Size :: IsCut(b, r, c)
    case Column(c) => forall r | 0 <= r < Size :: IsCut(b, r, c)
    case MainDiagonal => forall i | 0 <= i < Size :: IsCut(b, i, i)
    case AntiDiagonal => forall r, c | InGrid(r, c) && r + c == Size - 1 :: IsCut(b, r, c)
  }

  /** Cell i of a line, in the order the win check walks it: along a row,
      down a column, down the main diagonal, down the anti-diagonal. */
  function LineCell(l: Line, i: int): (cell: (int, int))
    ensures ValidLine(l) && 0 <= i < Size ==> InGrid(cell.0, cell.1)
  {
    match l
    case Row(r) => (r, i)
    case Column(c) => (i, c)
    case MainDiagonal => (i, i)
    case AntiDiagonal => (i, Size - 1 - i)
  }

  /** How many of the first n cells of a line are cut: the win check's
      per-line counter after n steps. */
  ghost function CutCount(b: Board, l: Line, n: int): (count: nat)
    requires IsBoard(b) && ValidLine(l) && 0 <= n <= Size
    ensures count <= n
  {
    if n == 0 then 0
    else CutCount(b, l, n - 1) + (if IsCut(b, LineCell(l, n - 1).0, LineCell(l, n - 1).1) then 1 else 0)
  }

  /** The counter reaches n exactly when each of the first n cells is cut. */
  lemma {:induction false} CutCountFull(b: Board, l: Line, n: int)
    requires IsBoard(b) && ValidLine(l) && 0 <= n <= Size
    ensures CutCount(b, l, n) == n <==>
      forall i | 0 <= i < n :: IsCut(b, LineCell(l, i).0, LineCell(l, i).1)
  {
    if n > 0 {
      CutCountFull(b, l, n - 1);
    }
  }

  /** A line is complete exactly when the counter over its five cells
      reaches five, the test the win check makes for each line. */
  lemma CompleteIsFiveCut(b: Board, l: Line)
    requires IsBoard(b) && ValidLine(l)
    ensures Complete(b, l) <==> CutCount(b, l, Size) == Size
  {
    CutCountFull(b, l, Size);
    CompleteIsAllCellsCut(b, l);
  }

  /** A line is complete exactly when each of its five cells is cut. */
  lemma CompleteIsAllCellsCut(b: Board, l: Line)
    requires IsBoard(b) && ValidLine(l)
    ensures Complete(b, l) <==>
      forall i | 0 <= i < Size :: IsCut(b, LineCell(l, i).0, LineCell(l, i).1)
  {
    if Complete(b, l) {
      forall i | 0 <= i < Size ensures IsCut(b, LineCell(l, i).0, LineCell(l, i).1) {
        if l.AntiDiagonal? {
          assert InGrid(i, Size - 1 - i);
        }
      }
    }
    if forall i | 0 <= i < Size :: IsCut(b, LineCell(l, i).0, LineCell(l, i).1) {
      match l
      case Row(r) =>
        forall c | 0 <= c < Size ensures IsCut(b, r, c) {
          assert LineCell(l, c) == (r, c);
        }
      case Column(c) =>
        forall r | 0 <= r < Size ensures IsCut(b, r, c) {
          assert LineCell(l, r) == (r, c);
        }
      case MainDiagonal =>
        forall k | 0 <= k < Size ensures IsCut(b, k, k) {
          assert LineCell(l, k) == (k, k);
        }
      case AntiDiagonal =>
        forall r, c | InGrid(r, c) && r + c == Size - 1 ensures IsCut(b, r, c) {
          assert LineCell(l, r) == (r, c);
        }
    }
  }

  /** How many of the lines ls are complete on b. */
  ghost function CountComplete(b: Board, ls: seq<Line>): (n: nat)
    requires IsBoard(b) && ValidLines(ls)
    ensures n <= |ls|
    decreases |ls|
  {
    if ls == [] then 0
    else CountComplete(b, ls[..|ls| - 1]) + (if Complete(b, ls[|ls| - 1]) then 1 else 0)
  }

  /** The number of complete lines among the twelve; it never exceeds 12. */
  ghost function CompletedLines(b: Board): (n: nat)
    requires IsBoard(b)
    ensures n <= 12
  {
    AllLinesValid();
    CountComplete(b, AllLines())
  }

  /** A win: at least five of the twelve lines have all their cells cut. */
  ghost function HasWon(b: Board): (won: bool)
    requires IsBoard(b)
    ensures won <==> |CompleteLines(b)| >= WinningLines
  {
    CompleteLinesCount(b);
    CompletedLines(b) >= WinningLines
  }

  /** The positions, among the twelve lines, of the complete ones. */
  ghost function CompleteLines(b: Board): set<int>
    requires IsBoard(b)
  {
    AllLinesValid();
    set k | 0 <= k < 12 && Complete(b, AllLines()[k])
  }

  /** The count of complete lines is the size of the set of complete lines. */
  lemma CompleteLinesCount(b: Board)
    requires IsBoard(b)
    ensures CompletedLines(b) == |CompleteLines(b)|
  {
    AllLinesValid();
    CountCompleteIsCardinality(b, AllLines());
  }

  /** Counting lines one at a time: the prefix of the first k + 1 lines
      counts one more than the prefix of k exactly when line k is complete. */
  lemma CountCompletePrefix(b: Board, ls: seq<Line>, k: int)
    requires IsBoard(b) && ValidLines(ls) && 0 <= k < |ls|
    ensures ValidLines(ls[..k]) && ValidLines(ls[..k + 1])
    ensures CountComplete(b, ls[..k + 1])
         == CountComplete(b, ls[..k]) + (if Complete(b, ls[k]) then 1 else 0)
  {
    assert ls[..k + 1][..k] == ls[..k];
  }

  /** How many of the first k lines, in the order the win check visits them, are complete. */
  ghost function CompletedAmong(b: Board, k: int): (n: nat)
    requires IsBoard(b) && 0 <= k <= 12
    ensures n <= k
  {
    AllLinesValid();
    CountComplete(b, AllLines()[..k])
  }

  /** The count of complete lines grows by one with each complete line visited. */
  lemma CompletedAmongStep(b: Board, k: int)
    requires IsBoard(b) && 0 <= k < 12
    ensures ValidLine(AllLines()[k])
    ensures CompletedAmong(b, k + 1) == CompletedAmong(b, k) + (if Complete(b, AllLines()[k]) then 1 else 0)
  {
    AllLinesValid();
    CountCompletePrefix(b, AllLines(), k);
  }

  lemma CompletedAmongAll(b: Board)
    requires IsBoard(b)
    ensures CompletedAmong(b, 12) == CompletedLines(b)
  {
    assert AllLines()[..12] == AllLines();
  }

  /** The count is the number of positions of ls that hold a complete line. */
  lemma {:induction false} CountCompleteIsCardinality(b: Board, ls: seq<Line>)
    requires IsBoard(b) && ValidLines(ls)
    ensures CountComplete(b, ls) == |set k | 0 <= k < |ls| && Complete(b, ls[k])|
  {
    if ls != [] {
      var n := |ls| - 1;
      var init := ls[..n];
      CountCompleteIsCardinality(b, init);
      var before := set k | 0 <= k < |init| && Complete(b, init[k]);
      var after := set k | 0 <= k < |ls| && Complete(b, ls[k]);
      if Complete(b, ls[n]) {
        assert after == before + {n};
      } else {
        assert after == before;
      }
    }
  }

  lemma {:induction false} CountNoneComplete(b: Board, ls: seq<Line>)
    requires IsBoard(b) && ValidLines(ls)
    requires forall k | 0 <= k < |ls| :: !Complete(b, ls[k])
    ensures CountComplete(b, ls) == 0
  {
    if ls != [] {
      CountNoneComplete(b, ls[..|ls| - 1]);
    }
  }

  lemma {:induction false} CountAllComplete(b: Board, ls: seq<Line>)
    requires IsBoard(b) && ValidLines(ls)
    requires forall k | 0 <= k < |ls| :: Complete(b, ls[k])
    ensures CountComplete(b, ls) == |ls|
  {
    if ls != [] {
      CountAllComplete(b, ls[..|ls| - 1]);
    }
  }

  /** A grid with no cut cell has no complete line. */
  lemma NoCutsNoLines(b: Board)
    requires IsBoard(b)
    requires forall r, c | InGrid(r, c) :: !IsCut(b, r, c)
    ensures CompletedLines(b) == 0
    ensures !HasWon(b)
  {
    AllLinesValid();
    forall k | 0 <= k < 12 ensures !Complete(b, AllLines()[k]) {
      AllLinesAt(k);
      if k < Size {
        assert !IsCut(b, k, 0);
      } else if k < 2 * Size {
        assert !IsCut(b, 0, k - Size);
      } else {
        assert !IsCut(b, 0, 0) && !IsCut(b, 0, Size - 1);
      }
    }
    CountNoneComplete(b, AllLines());
  }

  /** A grid whose every cell is cut has all twelve lines complete. */
  lemma AllCutAllLines(b: Board)
    requires IsBoard(b)
    requires forall r, c | InGrid(r, c) :: IsCut(b, r, c)
    ensures CompletedLines(b) == 12
    ensures HasWon(b)
  {
    AllLinesValid();
    forall k | 0 <= k < 12 ensures Complete(b, AllLines()[k]) {
      AllLinesAt(k);
    }
    CountAllComplete(b, AllLines());
  }

  lemma CompleteMonotone(b: Board, b': Board, l: Line)
    requires IsBoard(b) && IsBoard(b') && ValidLine(l) && CutsIncluded(b, b')
    requires Complete(b, l)
    ensures Complete(b', l)
  {
  }

  lemma {:induction false} CountCompleteMonotone(b: Board, b': Board, ls: seq<Line>)
    requires IsBoard(b) && IsBoard(b') && ValidLines(ls) && CutsIncluded(b, b')
    ensures CountComplete(b, ls) <= CountComplete(b', ls)
  {
    if ls != [] {
      CountCompleteMonotone(b, b', ls[..|ls| - 1]);
      if Complete(b, ls[|ls| - 1]) {
        CompleteMonotone(b, b', ls[|ls| - 1]);
      }
    }
  }

  /** More cuts never lose a line, so a win stays a win. */
  lemma CompletedLinesMonotone(b: Board, b': Board)
    requires IsBoard(b) && IsBoard(b') && CutsIncluded(b, b')
    ensures CompletedLines(b) <= CompletedLines(b')
    ensures HasWon(b) ==> HasWon(b')
  {
    AllLinesValid();
    CountCompleteMonotone(b, b', AllLines());
  }
}
