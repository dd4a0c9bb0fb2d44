/** Board creation, win detection and the free-cell filter.

    A board of side `size` is a flat row-major sequence of `size * size`
    cells; cell `r * size + c` is row `r`, column `c`. An empty cell holds
    its 1-based position as a decimal numeral, an occupied cell holds a
    player's mark.
 */
module GameFunctions {

  type Board = seq<string>

  // ---------------------------------------------------------------------
  // Decimal numerals, for the labels of empty cells.

  function DigitChar(d: nat): char
    requires d < 10
  {
    "0123456789"[d]
  }

  predicate IsDigit(ch: char) {
    '0' <= ch <= '9'
  }

  /** The decimal numeral of `n` without leading zeros (Python's `str`). */
  function Numeral(n: nat): (s: string)
    ensures |s| > 0
    ensures forall i :: 0 <= i < |s| ==> IsDigit(s[i])
    ensures n > 0 ==> s[0] != '0'
    decreases n
  {
    if n < 10 then [DigitChar(n)] else Numeral(n / 10) + [DigitChar(n % 10)]
  }

  function DigitValue(ch: char): nat
    requires IsDigit(ch)
  {
    (ch as int) - ('0' as int)
  }

  /** The value of a string of decimal digits (Python's `int`). */
  function NumeralValue(s: string): nat
    requires forall i :: 0 <= i < |s| ==> IsDigit(s[i])
  {
    if s == [] then 0
    else NumeralValue(s[..|s| - 1]) * 10 + DigitValue(s[|s| - 1])
  }

  /** Reading a numeral back gives the number it was written from. */
  lemma {:induction false} NumeralRoundTrip(n: nat)
    ensures NumeralValue(Numeral(n)) == n
    decreases n
  {
    var s := Numeral(n);
    if n >= 10 {
      NumeralRoundTrip(n / 10);
      assert s[..|s| - 1] == Numeral(n / 10);
    }
  }

  /** Each empty cell is labelled with its 1-based position. */
  function CreateBoard(size: nat): (b: Board)
    ensures |b| == size * size
  {
    seq(size * size, i requires 0 <= i < size * size => Numeral(i + 1))
  }

  /** A fresh board: every cell is a numeral without leading zero that
      reads back as its cell's 1-based position, and no cell holds the mark
      "X" or "O". */
  lemma CreateBoardLabels(size: nat)
    ensures forall i :: 0 <= i < size * size ==>
      var cell := CreateBoard(size)[i];
      && (forall j :: 0 <= j < |cell| ==> IsDigit(cell[j]))
      && cell[0] != '0'
      && NumeralValue(cell) == i + 1
      && cell != "X" && cell != "O"
  {
    forall i | 0 <= i < size * size
      ensures NumeralValue(CreateBoard(size)[i]) == i + 1
    {
      NumeralRoundTrip(i + 1);
    }
    forall i | 0 <= i < size * size
      ensures CreateBoard(size)[i] != "X" && CreateBoard(size)[i] != "O"
    {
      var cell := CreateBoard(size)[i];
      assert IsDigit(cell[0]);
      assert !IsDigit("X"[0]) && !IsDigit("O"[0]);
    }
  }

  // ---------------------------------------------------------------------
  // Free cells.

  /** The indices, in ascending order, of the cells holding neither `a`
      nor `b`. */
  function FreeCells(board: Board, a: string, b: string): (r: seq<int>)
    ensures forall j, k :: 0 <= j < k < |r| ==> r[j] < r[k]
    ensures forall i :: i in r <==> 0 <= i < |board| && board[i] != a && board[i] != b
    ensures |r| <= |board|
  {
    if board == [] then []
    else
      var n := |board| - 1;
      var prefix := FreeCells(board[..n], a, b);
      assert forall j :: 0 <= j < |prefix| ==> prefix[j] in prefix;
      if board[n] != a && board[n] != b then prefix + [n] else prefix
  }

  /** The free-spot list of the computer's random move. */
  function FreeSpots(board: Board): (r: seq<int>)
    ensures forall j, k :: 0 <= j < k < |r| ==> r[j] < r[k]
    ensures forall i :: i in r <==> 0 <= i < |board| && board[i] != "X" && board[i] != "O"
  {
    FreeCells(board, "X", "O")
  }

  /** Every cell of a fresh board is free. */
  lemma FreeSpotsOfNewBoard(size: nat)
    ensures FreeSpots(CreateBoard(size)) == seq(size * size, i => i)
  {
    var n := size * size;
    var b := CreateBoard(size);
    var r := FreeSpots(b);
    var all := seq(n, i => i);
    CreateBoardLabels(size);
    assert forall i :: i in r <==> 0 <= i < n;
    forall i ensures i in all <==> 0 <= i < n {
      if 0 <= i < n {
        assert all[i] == i;
      }
    }
    AscendingUnique(r, all);
  }

  /** Two strictly ascending sequences with the same elements are equal. */
  lemma {:induction false} AscendingUnique(x: seq<int>, y: seq<int>)
    requires forall j, k :: 0 <= j < k < |x| ==> x[j] < x[k]
    requires forall j, k :: 0 <= j < k < |y| ==> y[j] < y[k]
    requires forall i :: i in x <==> i in y
    ensures x == y
  {
    if x != [] {
      assert x[0] in x;
      var k :| 0 <= k < |y| && y[k] == x[0];
      assert y[0] <= x[0];
    }
    if y != [] {
      assert y[0] in y;
      var k :| 0 <= k < |x| && x[k] == y[0];
      assert x[0] <= y[0];
    }
    if x != [] {
      // the smallest elements agree, and so do the remaining ones
      forall i ensures i in x[1..] <==> i in y[1..] {
        if i in x[1..] {
          assert i in y;
        }
        if i in y[1..] {
          assert i in x;
        }
      }
      AscendingUnique(x[1..], y[1..]);
      assert x == [x[0]] + x[1..] && y == [y[0]] + y[1..];
    }
  }

  /** The computer's fallback move: some free spot, chosen arbitrarily (the
      source chooses at random). */
  method ComputerMove(board: Board) returns (idx: int)
    requires FreeSpots(board) != []
    ensures idx in FreeSpots(board)
    ensures 0 <= idx < |board| && board[idx] != "X" && board[idx] != "O"
  {
    var free := FreeSpots(board);
    assert free[0] in free;
    idx :| idx in free;
  }

  // ---------------------------------------------------------------------
  // Win detection.

  /** The four orientations of a run. */
  datatype Direction = Row | Column | Diagonal | AntiDiagonal

  /** Exclusive upper bound on the start row of a run. */
  function RowEnd(d: Direction, size: int, toWin: int): int {
    if d == Row then size else size - toWin + 1
  }

  /** Inclusive lower bound on the start column of a run. */
  function ColStart(d: Direction, toWin: int): int {
    if d == AntiDiagonal then toWin - 1 else 0
  }

  /** Exclusive upper bound on the start column of a run. */
  function ColEnd(d: Direction, size: int, toWin: int): int {
    if d == Row || d == Diagonal then size - toWin + 1 else size
  }

  /** (r, c) is where a run of direction d may start. */
  predicate IsStart(d: Direction, size: int, toWin: int, r: int, c: int) {
    0 <= r < RowEnd(d, size, toWin) && ColStart(d, toWin) <= c < ColEnd(d, size, toWin)
  }

  /** The board index of the k-th cell of the run starting at (r, c). */
  function CellIndex(d: Direction, size: int, r: int, c: int, k: int): int {
    match d
    case Row => r * size + c + k
    case Column => (r + k) * size + c
    case Diagonal => (r + k) * size + (c + k)
    case AntiDiagonal => (r + k) * size + (c - k)
  }

  lemma RowMajorBound(row: int, col: int, size: int)
    requires 0 <= row < size && 0 <= col < size
    ensures 0 <= row * size + col < size * size
  {
    assert row * size <= (size - 1) * size by {
      assert (size - 1) * size - row * size == (size - 1 - row) * size;
    }
  }

  /** Every cell of every run lies on the board. */
  lemma CellInBounds(d: Direction, size: nat, toWin: nat, r: int, c: int, k: int)
    requires IsStart(d, size, toWin, r, c) && 0 <= k < toWin
    ensures 0 <= CellIndex(d, size, r, c, k) < size * size
  {
    match d
    case Row => RowMajorBound(r, c + k, size);
    case Column => RowMajorBound(r + k, c, size);
    case Diagonal => RowMajorBound(r + k, c + k, size);
    case AntiDiagonal => RowMajorBound(r + k, c - k, size);
  }

  /** All `toWin` cells of the run starting at (r, c) hold `player`. */
  predicate Owned(board: Board, player: string, d: Direction, size: nat, toWin: nat, r: int, c: int)
    requires |board| == size * size && IsStart(d, size, toWin, r, c)
  {
    forall k | 0 <= k < toWin ::
      CellInBounds(d, size, toWin, r, c, k);
      board[CellIndex(d, size, r, c, k)] == player
  }

  /** Some run of direction `d` is owned by `player`. */
  predicate HasRun(board: Board, player: string, size: nat, toWin: nat, d: Direction)
    requires |board| == size * size
  {
    exists r, c | 0 <= r < RowEnd(d, size, toWin) && ColStart(d, toWin) <= c < ColEnd(d, size, toWin) ::
      Owned(board, player, d, size, toWin, r, c)
  }

  /** `player` has `toWin` marks in a row, in a column, on a diagonal or on
      an anti-diagonal. */
  predicate CheckWinner(board: Board, player: string, size: nat, toWin: nat)
    requires |board| == size * size
  {
    HasRun(board, player, size, toWin, Row)
    || HasRun(board, player, size, toWin, Column)
    || HasRun(board, player, size, toWin, Diagonal)
    || HasRun(board, player, size, toWin, AntiDiagonal)
  }

  lemma RunStart(board: Board, player: string, size: nat, toWin: nat, d: Direction)
    requires |board| == size * size && HasRun(board, player, size, toWin, d)
    ensures exists r, c :: IsStart(d, size, toWin, r, c) && Owned(board, player, d, size, toWin, r, c)
  {
  }

  /** A run longer than the side of the board fits nowhere. */
  lemma NoWinnerWhenRunTooLong(board: Board, player: string, size: nat, toWin: nat)
    requires |board| == size * size && toWin > size
    ensures !CheckWinner(board, player, size, toWin)
  {
  }

  lemma OwnedIgnoresOtherCells(board: Board, player: string, d: Direction, size: nat, toWin: nat,
                                r: int, c: int, i: int, v: string)
    requires |board| == size * size && 0 <= i < |board|
    requires board[i] != player && v != player
    requires IsStart(d, size, toWin, r, c)
    ensures Owned(board[i := v], player, d, size, toWin, r, c) == Owned(board, player, d, size, toWin, r, c)
  {
    var b := board[i := v];
    forall k | 0 <= k < toWin
      ensures var idx := CellIndex(d, size, r, c, k);
        0 <= idx < |board| && (b[idx] == player <==> board[idx] == player)
    {
      CellInBounds(d, size, toWin, r, c, k);
    }
  }

  /** The result depends only on which cells hold `player`: rewriting a cell
      that holds `player` neither before nor after leaves it unchanged. */
  lemma CheckWinnerIgnoresOtherCells(board: Board, player: string, size: nat, toWin: nat, i: int, v: string)
    requires |board| == size * size && 0 <= i < |board|
    requires board[i] != player && v != player
    ensures CheckWinner(board[i := v], player, size, toWin) == CheckWinner(board, player, size, toWin)
  {
    var b := board[i := v];
    forall d ensures HasRun(b, player, size, toWin, d) == HasRun(board, player, size, toWin, d) {
      if HasRun(b, player, size, toWin, d) {
        var r, c :| IsStart(d, size, toWin, r, c) && Owned(b, player, d, size, toWin, r, c);
        OwnedIgnoresOtherCells(board, player, d, size, toWin, r, c, i, v);
      }
      if HasRun(board, player, size, toWin, d) {
        var r, c :| IsStart(d, size, toWin, r, c) && Owned(board, player, d, size, toWin, r, c);
        OwnedIgnoresOtherCells(board, player, d, size, toWin, r, c, i, v);
      }
    }
  }
}
