/** The Tic-Tac-Toe binding of the generic minimax engine.

    An `Adapter` holds the game's fixed parameters: the side of the board,
    the run length needed to win, and the two marks. It supplies the four
    callbacks of the engine and picks the computer's move. The candidate
    winning lines are the same four families of windows that the win check
    scans, materialised as lists of board indices.
 */
module TicTacToeAdapter {
  import opened MinimaxLib
  import opened GameFunctions

  // ---------------------------------------------------------------------
  // Candidate lines.

  /** The indices of the run of direction `d` starting at (r, c). */
  function Window(d: Direction, size: nat, toWin: nat, r: int, c: int): (line: seq<int>)
    ensures |line| == toWin
  {
    seq(toWin, k => CellIndex(d, size, r, c, k))
  }

  /** Each family is generated by two nested loops; for columns the outer
      loop runs over the column and the inner one over the row. */
  function OuterEnd(d: Direction, size: nat, toWin: nat): int {
    if d == Column then ColEnd(d, size, toWin) else RowEnd(d, size, toWin)
  }

  function InnerEnd(d: Direction, size: nat, toWin: nat): int {
    if d == Column then RowEnd(d, size, toWin) else ColEnd(d, size, toWin)
  }

  /** The line produced by outer index `o` and inner index `i`. */
  function LineAt(d: Direction, size: nat, toWin: nat, o: int, i: int): seq<int> {
    if d == Column then Window(d, size, toWin, i, o) else Window(d, size, toWin, o, i)
  }

  /** The lines appended by the inner loop for outer index `o`, for inner
      indices below `hi`. */
  function InnerLines(d: Direction, size: nat, toWin: nat, o: int, hi: int): seq<seq<int>>
    decreases hi - ColStart(d, toWin)
  {
    if hi <= ColStart(d, toWin) then []
    else InnerLines(d, size, toWin, o, hi - 1) + [LineAt(d, size, toWin, o, hi - 1)]
  }

  /** The lines appended for the outer indices below `hi`. */
  function OuterLines(d: Direction, size: nat, toWin: nat, hi: int): seq<seq<int>>
    decreases hi
  {
    if hi <= 0 then []
    else OuterLines(d, size, toWin, hi - 1) + InnerLines(d, size, toWin, hi - 1, InnerEnd(d, size, toWin))
  }

  function Family(d: Direction, size: nat, toWin: nat): seq<seq<int>> {
    OuterLines(d, size, toWin, OuterEnd(d, size, toWin))
  }

  /** All candidate lines: rows, then columns, then diagonals, then
      anti-diagonals. */
  function Lines(size: nat, toWin: nat): seq<seq<int>> {
    Family(Row, size, toWin) + Family(Column, size, toWin)
      + Family(Diagonal, size, toWin) + Family(AntiDiagonal, size, toWin)
  }

  /** The number of integers in [lo, hi). */
  function Span(lo: int, hi: int): nat {
    if hi > lo then hi - lo else 0
  }

  lemma {:induction false} InnerLinesLength(d: Direction, size: nat, toWin: nat, o: int, hi: int)
    ensures |InnerLines(d, size, toWin, o, hi)| == Span(ColStart(d, toWin), hi)
    decreases hi - ColStart(d, toWin)
  {
    if hi > ColStart(d, toWin) {
      InnerLinesLength(d, size, toWin, o, hi - 1);
    }
  }

  lemma {:induction false} OuterLinesLength(d: Direction, size: nat, toWin: nat, hi: int)
    ensures |OuterLines(d, size, toWin, hi)|
      == Span(0, hi) * Span(ColStart(d, toWin), InnerEnd(d, size, toWin))
    decreases hi
  {
    if hi > 0 {
      OuterLinesLength(d, size, toWin, hi - 1);
      InnerLinesLength(d, size, toWin, hi - 1, InnerEnd(d, size, toWin));
      var w := Span(ColStart(d, toWin), InnerEnd(d, size, toWin));
      var p := Span(0, hi - 1);
      assert Span(0, hi) == p + 1;
      MulSuccLeft(p, w);
    }
  }

  lemma MulSuccLeft(n: nat, w: int)
    ensures (n + 1) * w == n * w + w
  {
  }

  /** For 1 <= toWin <= size there are 2·N·(N−K+1) + 2·(N−K+1)² lines. */
  lemma LinesCount(size: nat, toWin: nat)
    requires 1 <= toWin <= size
    ensures var m := size - toWin + 1;
      |Lines(size, toWin)| == 2 * size * m + 2 * m * m
  {
    FamilyLength(Row, size, toWin);
    FamilyLength(Column, size, toWin);
    FamilyLength(Diagonal, size, toWin);
    FamilyLength(AntiDiagonal, size, toWin);
  }

  /** Rows and columns have N·(N−K+1) windows each, the two diagonal
      directions (N−K+1)² each. */
  lemma FamilyLength(d: Direction, size: nat, toWin: nat)
    requires 1 <= toWin <= size
    ensures var m := size - toWin + 1;
      |Family(d, size, toWin)| == if d == Row || d == Column then size * m else m * m
  {
    var m := size - toWin + 1;
    OuterLinesLength(d, size, toWin, OuterEnd(d, size, toWin));
    var outer, inner := Span(0, OuterEnd(d, size, toWin)), Span(ColStart(d, toWin), InnerEnd(d, size, toWin));
    match d
    case Row => assert outer == size && inner == m;
    case Column => assert outer == size && inner == m;
    case Diagonal => assert outer == m && inner == m;
    case AntiDiagonal => assert outer == m && inner == m;
  }

  /** A run longer than the side of the board gives no lines at all. */
  lemma NoLinesWhenRunTooLong(size: nat, toWin: nat)
    requires toWin > size
    ensures Lines(size, toWin) == []
  {
    OuterLinesLength(Row, size, toWin, OuterEnd(Row, size, toWin));
    OuterLinesLength(Column, size, toWin, OuterEnd(Column, size, toWin));
    OuterLinesLength(Diagonal, size, toWin, OuterEnd(Diagonal, size, toWin));
    OuterLinesLength(AntiDiagonal, size, toWin, OuterEnd(AntiDiagonal, size, toWin));
  }

  lemma {:induction false} InnerLinesMembers(d: Direction, size: nat, toWin: nat, o: int, hi: int)
    ensures forall line :: line in InnerLines(d, size, toWin, o, hi) <==>
      exists i :: ColStart(d, toWin) <= i < hi && line == LineAt(d, size, toWin, o, i)
    decreases hi - ColStart(d, toWin)
  {
    if hi > ColStart(d, toWin) {
      InnerLinesMembers(d, size, toWin, o, hi - 1);
      forall line | line in InnerLines(d, size, toWin, o, hi)
        ensures exists i :: ColStart(d, toWin) <= i < hi && line == LineAt(d, size, toWin, o, i)
      {
        if line !in InnerLines(d, size, toWin, o, hi - 1) {
          assert line == LineAt(d, size, toWin, o, hi - 1);
        }
      }
    }
  }

  lemma {:induction false} OuterLinesMembers(d: Direction, size: nat, toWin: nat, hi: int)
    ensures forall line :: line in OuterLines(d, size, toWin, hi) <==>
      exists o, i :: 0 <= o < hi && ColStart(d, toWin) <= i < InnerEnd(d, size, toWin)
                     && line == LineAt(d, size, toWin, o, i)
    decreases hi
  {
    if hi > 0 {
      OuterLinesMembers(d, size, toWin, hi - 1);
      InnerLinesMembers(d, size, toWin, hi - 1, InnerEnd(d, size, toWin));
      forall line | line in OuterLines(d, size, toWin, hi)
        ensures exists o, i :: 0 <= o < hi && ColStart(d, toWin) <= i < InnerEnd(d, size, toWin)
                               && line == LineAt(d, size, toWin, o, i)
      {
        if line !in OuterLines(d, size, toWin, hi - 1) {
          var i :| ColStart(d, toWin) <= i < InnerEnd(d, size, toWin)
                   && line == LineAt(d, size, toWin, hi - 1, i);
        }
      }
      forall o, i | 0 <= o < hi && ColStart(d, toWin) <= i < InnerEnd(d, size, toWin)
        ensures LineAt(d, size, toWin, o, i) in OuterLines(d, size, toWin, hi)
      {
        if o == hi - 1 {
          assert LineAt(d, size, toWin, o, i) in InnerLines(d, size, toWin, hi - 1, InnerEnd(d, size, toWin));
        }
      }
    }
  }

  /** The lines of a family are exactly the windows starting where a run of
      that direction may start. */
  lemma FamilyMembers(d: Direction, size: nat, toWin: nat)
    ensures forall line :: line in Family(d, size, toWin) <==>
      exists r, c :: IsStart(d, size, toWin, r, c) && line == Window(d, size, toWin, r, c)
  {
    OuterLinesMembers(d, size, toWin, OuterEnd(d, size, toWin));
    forall line | line in Family(d, size, toWin)
      ensures exists r, c :: IsStart(d, size, toWin, r, c) && line == Window(d, size, toWin, r, c)
    {
      var o, i :| 0 <= o < OuterEnd(d, size, toWin) && ColStart(d, toWin) <= i < InnerEnd(d, size, toWin)
                  && line == LineAt(d, size, toWin, o, i);
      if d == Column {
        assert IsStart(d, size, toWin, i, o);
      } else {
        assert IsStart(d, size, toWin, o, i);
      }
    }
    forall r, c | IsStart(d, size, toWin, r, c)
      ensures Window(d, size, toWin, r, c) in Family(d, size, toWin)
    {
      if d == Column {
        assert Window(d, size, toWin, r, c) == LineAt(d, size, toWin, c, r);
      } else {
        assert Window(d, size, toWin, r, c) == LineAt(d, size, toWin, r, c);
      }
    }
  }

  lemma LinesMembers(size: nat, toWin: nat)
    ensures forall line :: line in Lines(size, toWin) <==>
      exists d, r, c :: IsStart(d, size, toWin, r, c) && line == Window(d, size, toWin, r, c)
  {
    FamilyMembers(Row, size, toWin);
    FamilyMembers(Column, size, toWin);
    FamilyMembers(Diagonal, size, toWin);
    FamilyMembers(AntiDiagonal, size, toWin);
    forall line | exists d, r, c :: IsStart(d, size, toWin, r, c) && line == Window(d, size, toWin, r, c)
      ensures line in Lines(size, toWin)
    {
      var d, r, c :| IsStart(d, size, toWin, r, c) && line == Window(d, size, toWin, r, c);
      assert line in Family(d, size, toWin);
    }
  }

  /** Every line has `toWin` indices, each on the board. */
  lemma LinesInBounds(size: nat, toWin: nat)
    ensures forall line :: line in Lines(size, toWin) ==>
      |line| == toWin && forall j :: 0 <= j < |line| ==> 0 <= line[j] < size * size
  {
    LinesMembers(size, toWin);
    forall line | line in Lines(size, toWin)
      ensures |line| == toWin && forall j :: 0 <= j < |line| ==> 0 <= line[j] < size * size
    {
      var d, r, c :| IsStart(d, size, toWin, r, c) && line == Window(d, size, toWin, r, c);
      forall j | 0 <= j < |line| ensures 0 <= line[j] < size * size {
        CellInBounds(d, size, toWin, r, c, j);
      }
    }
  }

  /** Every index of `line` lies on the board and holds `player`. */
  ghost predicate LineOwned(board: Board, line: seq<int>, player: string) {
    forall j :: 0 <= j < |line| ==> 0 <= line[j] < |board| && board[line[j]] == player
  }

  lemma WindowInLines(d: Direction, size: nat, toWin: nat, r: int, c: int)
    requires IsStart(d, size, toWin, r, c)
    ensures Window(d, size, toWin, r, c) in Lines(size, toWin)
  {
    LinesMembers(size, toWin);
  }

  lemma LineIsWindow(size: nat, toWin: nat, line: seq<int>)
    requires line in Lines(size, toWin)
    ensures exists d, r, c :: IsStart(d, size, toWin, r, c) && line == Window(d, size, toWin, r, c)
  {
    LinesMembers(size, toWin);
  }

  lemma WinnerOwnsLine(board: Board, player: string, size: nat, toWin: nat)
    requires |board| == size * size && CheckWinner(board, player, size, toWin)
    ensures exists line :: line in Lines(size, toWin) && LineOwned(board, line, player)
  {
    var d :| HasRun(board, player, size, toWin, d);
    RunStart(board, player, size, toWin, d);
    var r, c :| IsStart(d, size, toWin, r, c) && Owned(board, player, d, size, toWin, r, c);
    var line := Window(d, size, toWin, r, c);
    forall j | 0 <= j < |line| ensures 0 <= line[j] < |board| && board[line[j]] == player {
      CellInBounds(d, size, toWin, r, c, j);
      assert line[j] == CellIndex(d, size, r, c, j);
    }
    assert LineOwned(board, line, player);
    WindowInLines(d, size, toWin, r, c);
  }

  lemma OwnedLineWins(board: Board, player: string, size: nat, toWin: nat, line: seq<int>)
    requires |board| == size * size
    requires line in Lines(size, toWin) && LineOwned(board, line, player)
    ensures CheckWinner(board, player, size, toWin)
  {
    LineIsWindow(size, toWin, line);
    var d, r, c :| IsStart(d, size, toWin, r, c) && line == Window(d, size, toWin, r, c);
    forall k | 0 <= k < toWin
      ensures var idx := CellIndex(d, size, r, c, k); 0 <= idx < |board| && board[idx] == player
    {
      assert line[k] == CellIndex(d, size, r, c, k);
    }
    assert Owned(board, player, d, size, toWin, r, c);
    assert HasRun(board, player, size, toWin, d);
  }

  /** The win check and the materialised lines agree: `player` owns some
      generated line exactly when it has won. */
  lemma WinnerIffOwnsLine(board: Board, player: string, size: nat, toWin: nat)
    requires |board| == size * size
    ensures (exists line :: line in Lines(size, toWin) && LineOwned(board, line, player))
      <==> CheckWinner(board, player, size, toWin)
  {
    if CheckWinner(board, player, size, toWin) {
      WinnerOwnsLine(board, player, size, toWin);
    }
    if exists line :: line in Lines(size, toWin) && LineOwned(board, line, player) {
      var line :| line in Lines(size, toWin) && LineOwned(board, line, player);
      OwnedLineWins(board, player, size, toWin, line);
    }
  }

  /** Every generated line lies on a board of the right size... */
  lemma LinesOnBoard(board: Board, size: nat, toWin: nat)
    requires |board| == size * size
    ensures AllInBounds(board, Lines(size, toWin))
  {
    var lines := Lines(size, toWin);
    LinesInBounds(size, toWin);
    forall l, j | 0 <= l < |lines| && 0 <= j < |lines[l]| ensures 0 <= lines[l][j] < |board| {
      assert lines[l] in lines;
    }
  }

  /** ... and has length `toWin`. */
  lemma LinesLength(size: nat, toWin: nat)
    ensures forall l :: 0 <= l < |Lines(size, toWin)| ==> |Lines(size, toWin)[l]| == toWin
  {
    var lines := Lines(size, toWin);
    LinesInBounds(size, toWin);
    forall l | 0 <= l < |lines| ensures |lines[l]| == toWin {
      assert lines[l] in lines;
    }
  }

  /** A player who has not won owns none of the generated lines. */
  lemma NoOwnedLine(board: Board, player: string, size: nat, toWin: nat)
    requires |board| == size * size && !CheckWinner(board, player, size, toWin)
    ensures forall l :: 0 <= l < |Lines(size, toWin)| ==> !LineOwned(board, Lines(size, toWin)[l], player)
  {
    var lines := Lines(size, toWin);
    WinnerIffOwnsLine(board, player, size, toWin);
    forall l | 0 <= l < |lines| ensures !LineOwned(board, lines[l], player) {
      assert lines[l] in lines;
    }
  }

  // ---------------------------------------------------------------------
  // The heuristic.

  /** The number of indices of `line` whose cell holds `player`. */
  function Count(board: Board, line: seq<int>, player: string): (n: nat)
    requires forall j :: 0 <= j < |line| ==> 0 <= line[j] < |board|
    ensures n <= |line|
    ensures n == |line| <==> LineOwned(board, line, player)
  {
    if line == [] then 0
    else
      var rest := Count(board, line[1..], player);
      assert forall j :: 1 <= j < |line| ==> line[1..][j - 1] == line[j];
      if board[line[0]] == player then rest + 1 else rest
  }

  /** A line's contribution: the computer's count if the human has no mark
      on it, minus the human's count if the computer has none, else 0. */
  function LineScore(board: Board, line: seq<int>, computer: string, human: string): int
    requires forall j :: 0 <= j < |line| ==> 0 <= line[j] < |board|
  {
    var ai: int := Count(board, line, computer);
    var hu: int := Count(board, line, human);
    if hu == 0 && ai > 0 then ai
    else if ai == 0 && hu > 0 then -hu
    else 0
  }

  ghost predicate AllInBounds(board: Board, lines: seq<seq<int>>) {
    forall l, j :: 0 <= l < |lines| && 0 <= j < |lines[l]| ==> 0 <= lines[l][j] < |board|
  }

  /** The sum of the line scores of `lines`. */
  function Heuristic(board: Board, lines: seq<seq<int>>, computer: string, human: string): int
    requires AllInBounds(board, lines)
  {
    if lines == [] then 0
    else
      var n := |lines| - 1;
      Heuristic(board, lines[..n], computer, human) + LineScore(board, lines[n], computer, human)
  }

  /** Exchanging the two marks negates the heuristic. */
  lemma {:induction false} HeuristicAntisymmetric(board: Board, lines: seq<seq<int>>, computer: string, human: string)
    requires AllInBounds(board, lines)
    ensures Heuristic(board, lines, human, computer) == -Heuristic(board, lines, computer, human)
  {
    if lines != [] {
      HeuristicAntisymmetric(board, lines[..|lines| - 1], computer, human);
    }
  }

  /** A line of length `toWin` owned by neither player scores between
      -(toWin-1) and toWin-1. */
  lemma LineScoreBound(board: Board, line: seq<int>, computer: string, human: string, toWin: nat)
    requires forall j :: 0 <= j < |line| ==> 0 <= line[j] < |board|
    requires |line| == toWin
    requires !LineOwned(board, line, computer) && !LineOwned(board, line, human)
    ensures -(toWin - 1) <= LineScore(board, line, computer, human) <= toWin - 1
  {
  }

  /** When every line has length `toWin` and neither player owns one, the
      heuristic lies between -(toWin-1)·|lines| and (toWin-1)·|lines|. */
  lemma {:induction false} HeuristicBounds(board: Board, lines: seq<seq<int>>, computer: string, human: string, toWin: nat)
    requires AllInBounds(board, lines)
    requires forall l :: 0 <= l < |lines| ==> |lines[l]| == toWin
    requires forall l :: 0 <= l < |lines| ==>
               !LineOwned(board, lines[l], computer) && !LineOwned(board, lines[l], human)
    ensures var bound := Times(|lines|, toWin - 1);
      -bound <= Heuristic(board, lines, computer, human) <= bound
  {
    if lines != [] {
      var n := |lines| - 1;
      var prefix := lines[..n];
      assert forall l :: 0 <= l < n ==> prefix[l] == lines[l];
      HeuristicBounds(board, prefix, computer, human, toWin);
      LineScoreBound(board, lines[n], computer, human, toWin);
    }
  }

  /** `w` added `n` times; equal to n·w, and kept as a sum so that the
      bounds above need no nonlinear arithmetic. */
  function Times(n: nat, w: int): int {
    if n == 0 then 0 else Times(n - 1, w) + w
  }

  lemma {:induction false} TimesIsProduct(n: nat, w: int)
    ensures Times(n, w) == w * n
  {
    if n > 0 {
      TimesIsProduct(n - 1, w);
      MulSuccRight(w, n - 1);
    }
  }

  lemma MulSuccRight(w: int, n: nat)
    ensures w * (n + 1) == w * n + w
  {
  }

  lemma AppendAssociative<T>(a: seq<T>, b: seq<T>, c: seq<T>)
    ensures a + b + c == a + (b + c)
  {
  }

  // ---------------------------------------------------------------------
  // The adapter.

  datatype Adapter = Adapter(size: nat, toWin: nat, human: string := "X", computer: string := "O")
  {
    /** A board of the adapter's size. */
    predicate ValidBoard(state: Board) {
      |state| == size * size
    }

    /** The free cells, ascending; both sides have the same moves. */
    function GetMoves(state: Board, maximizing: bool): (moves: seq<int>)
      ensures forall j, k :: 0 <= j < k < |moves| ==> moves[j] < moves[k]
      ensures forall i :: i in moves <==> 0 <= i < |state| && state[i] != human && state[i] != computer
    {
      FreeCells(state, human, computer)
    }

    /** A copy of `state` with the computer's mark (maximising) or the
        human's mark at `move`. */
    function ApplyMove(state: Board, move: int, maximizing: bool): (next: Board)
      requires 0 <= move < |state|
      ensures |next| == |state|
      ensures next[move] == (if maximizing then computer else human)
      ensures forall i :: 0 <= i < |state| && i != move ==> next[i] == state[i]
    {
      state[move := if maximizing then computer else human]
    }

    /** Every cell holds one of the two marks. */
    predicate Full(state: Board) {
      forall i :: 0 <= i < |state| ==> state[i] == human || state[i] == computer
    }

    /** The static evaluation, from the computer's point of view. */
    function Evaluation(state: Board): (e: int)
      requires ValidBoard(state)
      ensures CheckWinner(state, computer, size, toWin) ==> e == 100
      ensures !CheckWinner(state, computer, size, toWin) && CheckWinner(state, human, size, toWin) ==> e == -100
    {
      if CheckWinner(state, computer, size, toWin) then 100
      else if CheckWinner(state, human, size, toWin) then -100
      else
        LinesOnBoard(state, size, toWin);
        Heuristic(state, Lines(size, toWin), computer, human)
    }

    /** The game is over: a player has won or the board is full. */
    predicate IsTerminal(state: Board)
      requires ValidBoard(state)
    {
      CheckWinner(state, human, size, toWin) || CheckWinner(state, computer, size, toWin) || Full(state)
    }

    /** The callbacks handed to the engine. Off the board's contract (a
        move off the board, a board of the wrong length) they return a fixed
        value; from a valid board the search never reaches those inputs. */
    function Callbacks(): Game<Board, int> {
      Game(
        (s: Board, maximizing: bool) => GetMoves(s, maximizing),
        (s: Board, m: int, maximizing: bool) => if 0 <= m < |s| then ApplyMove(s, m, maximizing) else s,
        (s: Board) => if ValidBoard(s) then Evaluation(s) else 0,
        (s: Board) => if ValidBoard(s) then IsTerminal(s) else true)
    }

    /** The computer's move: the move part of a maximising search. */
    function BestMove(board: Board, depth: nat): Option<int>
      requires ValidBoard(board)
    {
      Minimax(board, depth, true, Callbacks()).move
    }

    /** The lines of one family, appended to `lines` by two nested loops. */
    method AppendFamily(d: Direction, lines: seq<seq<int>>) returns (out: seq<seq<int>>)
      ensures out == lines + Family(d, size, toWin)
    {
      out := lines;
      var n := OuterEnd(d, size, toWin);
      var hi := if n > 0 then n else 0;
      assert OuterLines(d, size, toWin, hi) == OuterLines(d, size, toWin, n);
      assert lines + [] == lines;
      for o := 0 to hi
        invariant out == lines + OuterLines(d, size, toWin, o)
      {
        ghost var done := OuterLines(d, size, toWin, o);
        ghost var next := InnerLines(d, size, toWin, o, InnerEnd(d, size, toWin));
        out := AppendInner(d, o, out);
        AppendAssociative(lines, done, next);
      }
    }

    /** The inner loop: the lines for outer index `o`, appended to `lines`. */
    method AppendInner(d: Direction, o: int, lines: seq<seq<int>>) returns (out: seq<seq<int>>)
      ensures out == lines + InnerLines(d, size, toWin, o, InnerEnd(d, size, toWin))
    {
      out := lines;
      var i := ColStart(d, toWin);
      assert lines + [] == lines;
      while i < InnerEnd(d, size, toWin)
        invariant ColStart(d, toWin) <= i
        invariant i <= InnerEnd(d, size, toWin) || i == ColStart(d, toWin)
        invariant out == lines + InnerLines(d, size, toWin, o, i)
        decreases InnerEnd(d, size, toWin) - i
      {
        AppendAssociative(lines, InnerLines(d, size, toWin, o, i), [LineAt(d, size, toWin, o, i)]);
        out := out + [LineAt(d, size, toWin, o, i)];
        i := i + 1;
      }
    }

    /** All row, column, diagonal and anti-diagonal windows of length
        `toWin`. */
    method GenerateLines() returns (lines: seq<seq<int>>)
      ensures lines == Lines(size, toWin)
    {
      lines := [];
      lines := AppendFamily(Row, lines);
      assert lines == Family(Row, size, toWin);
      lines := AppendFamily(Column, lines);
      lines := AppendFamily(Diagonal, lines);
      lines := AppendFamily(AntiDiagonal, lines);
    }

    /** The evaluation as the source computes it: the two win checks, then
        the line scores of the generated lines. */
    method Evaluate(state: Board) returns (score: int)
      requires ValidBoard(state)
      ensures score == Evaluation(state)
    {
      if CheckWinner(state, computer, size, toWin) {
        return 100;
      }
      if CheckWinner(state, human, size, toWin) {
        return -100;
      }
      var lines := GenerateLines();
      LinesOnBoard(state, size, toWin);
      score := SumLineScores(state, lines);
    }

    /** The loop of the evaluation that accumulates the line scores. */
    method SumLineScores(state: Board, lines: seq<seq<int>>) returns (score: int)
      requires AllInBounds(state, lines)
      ensures score == Heuristic(state, lines, computer, human)
    {
      score := 0;
      for l := 0 to |lines|
        invariant score == Heuristic(state, lines[..l], computer, human)
      {
        var line := lines[l];
        var ai := Count(state, line, computer);
        var hu := Count(state, line, human);
        if hu == 0 && ai > 0 {
          score := score + ai;
        } else if ai == 0 && hu > 0 {
          score := score - hu;
        }
        assert lines[..l + 1][..l] == lines[..l];
      }
      assert lines[..|lines|] == lines;
    }
  }
}

/** Properties of the adapter and of the search it drives. */
module AdapterProperties {
  import opened MinimaxLib
  import opened GameFunctions
  import opened TicTacToeAdapter

  /** The move list does not depend on which side is to move. */
  lemma GetMovesIgnoresSide(a: Adapter, state: Board)
    ensures a.GetMoves(state, true) == a.GetMoves(state, false)
  {
  }

  /** The board is full exactly when there are no moves. */
  lemma FullIffNoMoves(a: Adapter, state: Board, maximizing: bool)
    ensures a.Full(state) <==> a.GetMoves(state, maximizing) == []
  {
    var moves := a.GetMoves(state, maximizing);
    if moves != [] {
      assert moves[0] in moves;
    }
    if !a.Full(state) {
      var i :| 0 <= i < |state| && state[i] != a.human && state[i] != a.computer;
      assert i in moves;
    }
  }

  /** The game is over exactly when there is no move left or either player
      has won; so a game that is not over always has a move. */
  lemma TerminalIff(a: Adapter, state: Board, maximizing: bool)
    requires a.ValidBoard(state)
    ensures a.IsTerminal(state) <==>
      a.GetMoves(state, maximizing) == []
      || CheckWinner(state, a.human, a.size, a.toWin)
      || CheckWinner(state, a.computer, a.size, a.toWin)
    ensures !a.IsTerminal(state) ==> a.GetMoves(state, maximizing) != []
  {
    FullIffNoMoves(a, state, maximizing);
  }

  /** A strictly ascending sequence has as many distinct elements as
      entries. */
  lemma {:induction false} AscendingCard(x: seq<int>)
    requires forall j, k :: 0 <= j < k < |x| ==> x[j] < x[k]
    ensures |(set i | i in x)| == |x|
  {
    if x != [] {
      var n := |x| - 1;
      AscendingCard(x[..n]);
      assert (set i | i in x) == (set i | i in x[..n]) + {x[n]} by {
        forall i ensures i in x <==> i in x[..n] || i == x[n] {
          if i in x {
            var j :| 0 <= j < |x| && x[j] == i;
            if j < n { assert x[..n][j] == i; }
          }
        }
      }
      assert x[n] !in x[..n] by {
        forall j | 0 <= j < n ensures x[..n][j] != x[n] {
          assert x[..n][j] == x[j];
        }
      }
    }
  }

  /** Playing a free cell occupies exactly that cell: the new move list is
      the old one without it, and it is one shorter. */
  lemma MoveFillsOneCell(a: Adapter, state: Board, move: int, maximizing: bool, side: bool)
    requires move in a.GetMoves(state, maximizing)
    ensures var next := a.ApplyMove(state, move, maximizing);
      && (forall i :: i in a.GetMoves(next, side) <==> i in a.GetMoves(state, side) && i != move)
      && |a.GetMoves(next, side)| + 1 == |a.GetMoves(state, side)|
  {
    var next := a.ApplyMove(state, move, maximizing);
    var before := a.GetMoves(state, side);
    var after := a.GetMoves(next, side);
    assert forall i :: i in after <==> i in before && i != move;
    AscendingCard(before);
    AscendingCard(after);
    assert (set i | i in after) == (set i | i in before) - {move};
  }

  /** A move never changes whether the OTHER player has won, provided the
      marks differ. */
  lemma MoveKeepsOtherWinner(a: Adapter, state: Board, move: int, maximizing: bool)
    requires a.ValidBoard(state) && move in a.GetMoves(state, maximizing)
    requires a.human != a.computer
    ensures var other := if maximizing then a.human else a.computer;
      CheckWinner(a.ApplyMove(state, move, maximizing), other, a.size, a.toWin)
        == CheckWinner(state, other, a.size, a.toWin)
  {
    var other := if maximizing then a.human else a.computer;
    var mark := if maximizing then a.computer else a.human;
    assert a.ApplyMove(state, move, maximizing) == state[move := mark];
    CheckWinnerIgnoresOtherCells(state, other, a.size, a.toWin, move, mark);
  }

  /** When neither player has won, every line scores between -(toWin-1) and
      toWin-1, so the evaluation is bounded by (toWin-1) times the number of
      lines (`Times`, which `TimesIsProduct` shows to be that product). */
  lemma EvaluationBounds(a: Adapter, state: Board)
    requires a.ValidBoard(state) && a.toWin >= 1
    requires !CheckWinner(state, a.computer, a.size, a.toWin)
    requires !CheckWinner(state, a.human, a.size, a.toWin)
    ensures var bound := Times(|Lines(a.size, a.toWin)|, a.toWin - 1);
      -bound <= a.Evaluation(state) <= bound
  {
    NeitherOwnsALine(a, state);
    EvaluationOfUndecided(a, state);
    LinesLength(a.size, a.toWin);
    HeuristicBounds(state, Lines(a.size, a.toWin), a.computer, a.human, a.toWin);
  }

  lemma NeitherOwnsALine(a: Adapter, state: Board)
    requires a.ValidBoard(state)
    requires !CheckWinner(state, a.computer, a.size, a.toWin)
    requires !CheckWinner(state, a.human, a.size, a.toWin)
    ensures forall l :: 0 <= l < |Lines(a.size, a.toWin)| ==> !LineOwned(state, Lines(a.size, a.toWin)[l], a.computer)
    ensures forall l :: 0 <= l < |Lines(a.size, a.toWin)| ==> !LineOwned(state, Lines(a.size, a.toWin)[l], a.human)
  {
    NoOwnedLine(state, a.computer, a.size, a.toWin);
    NoOwnedLine(state, a.human, a.size, a.toWin);
  }

  /** Without a winner the evaluation is the heuristic over all lines. */
  lemma EvaluationOfUndecided(a: Adapter, state: Board)
    requires a.ValidBoard(state)
    requires !CheckWinner(state, a.computer, a.size, a.toWin)
    requires !CheckWinner(state, a.human, a.size, a.toWin)
    ensures AllInBounds(state, Lines(a.size, a.toWin))
    ensures a.Evaluation(state) == Heuristic(state, Lines(a.size, a.toWin), a.computer, a.human)
  {
    LinesOnBoard(state, a.size, a.toWin);
  }

  /** With three in a row to win on boards of side 3 to 5, a position
      nobody has won scores strictly between the two win scores. */
  lemma WinsOutrankHeuristic(a: Adapter, state: Board)
    requires a.ValidBoard(state) && a.toWin == 3 && 3 <= a.size <= 5
    requires !CheckWinner(state, a.computer, a.size, a.toWin)
    requires !CheckWinner(state, a.human, a.size, a.toWin)
    ensures -100 < a.Evaluation(state) < 100
  {
    EvaluationBounds(a, state);
    FewLinesOnSmallBoards(a.size, a.toWin);
    WithinTwice(|Lines(a.size, a.toWin)|, a.Evaluation(state));
  }

  lemma WithinTwice(n: nat, e: int)
    requires n <= 48 && -Times(n, 2) <= e <= Times(n, 2)
    ensures -100 < e < 100
  {
    TimesIsProduct(n, 2);
  }

  /** Boards of side 3, 4 and 5 have 8, 24 and 48 lines of three. */
  lemma FewLinesOnSmallBoards(size: nat, toWin: nat)
    requires toWin == 3 && 3 <= size <= 5
    ensures |Lines(size, toWin)| <= 48
  {
    LinesCount(size, toWin);
    SmallLineCount(size, |Lines(size, toWin)|);
  }

  lemma SmallLineCount(size: nat, n: int)
    requires 3 <= size <= 5
    requires n == 2 * size * (size - 3 + 1) + 2 * (size - 3 + 1) * (size - 3 + 1)
    ensures n <= 48
  {
    if size == 3 {
      assert n == 8;
    } else if size == 4 {
      assert n == 24;
    } else {
      assert n == 48;
    }
  }

  /** Exchanging the two marks negates the evaluation of a position nobody
      has won. */
  lemma EvaluationAntisymmetric(a: Adapter, state: Board)
    requires a.ValidBoard(state)
    requires !CheckWinner(state, a.computer, a.size, a.toWin)
    requires !CheckWinner(state, a.human, a.size, a.toWin)
    ensures Adapter(a.size, a.toWin, a.computer, a.human).Evaluation(state) == -a.Evaluation(state)
  {
    LinesOnBoard(state, a.size, a.toWin);
    HeuristicAntisymmetric(state, Lines(a.size, a.toWin), a.computer, a.human);
  }

  /** No line contains a mark, so every line scores 0. */
  lemma {:induction false} HeuristicOfUnmarked(board: Board, lines: seq<seq<int>>, computer: string, human: string)
    requires AllInBounds(board, lines)
    requires forall l, j :: 0 <= l < |lines| && 0 <= j < |lines[l]| ==>
               board[lines[l][j]] != computer && board[lines[l][j]] != human
    ensures Heuristic(board, lines, computer, human) == 0
  {
    if lines != [] {
      var n := |lines| - 1;
      HeuristicOfUnmarked(board, lines[..n], computer, human);
      CountOfAbsent(board, lines[n], computer);
      CountOfAbsent(board, lines[n], human);
    }
  }

  lemma {:induction false} CountOfAbsent(board: Board, line: seq<int>, player: string)
    requires forall j :: 0 <= j < |line| ==> 0 <= line[j] < |board|
    requires forall j :: 0 <= j < |line| ==> board[line[j]] != player
    ensures Count(board, line, player) == 0
  {
    if line != [] {
      CountOfAbsent(board, line[1..], player);
    }
  }

  /** A mark that contains a character other than a decimal digit. */
  predicate NotNumeral(mark: string) {
    exists j :: 0 <= j < |mark| && !IsDigit(mark[j])
  }

  /** On a fresh board every cell is a move, nobody has won and, for a
      non-empty board, the game is not over, provided neither mark could
      be mistaken for a cell number. */
  lemma FreshBoard(a: Adapter)
    requires NotNumeral(a.human) && NotNumeral(a.computer) && a.toWin >= 1
    ensures var board := CreateBoard(a.size);
      && a.GetMoves(board, true) == seq(a.size * a.size, i => i)
      && !CheckWinner(board, a.human, a.size, a.toWin)
      && !CheckWinner(board, a.computer, a.size, a.toWin)
      && (a.size > 0 ==> !a.IsTerminal(board))
  {
    var board := CreateBoard(a.size);
    FreshBoardUnmarked(a.size, a.human);
    FreshBoardUnmarked(a.size, a.computer);
    NoWinnerWithoutMarks(board, a.size, a.toWin, a.human);
    NoWinnerWithoutMarks(board, a.size, a.toWin, a.computer);
    FreshBoardMoves(a);
    if a.size > 0 {
      assert a.GetMoves(board, true)[0] == 0;
      FullIffNoMoves(a, board, true);
    }
  }

  /** A fresh board evaluates to 0. */
  lemma FreshBoardEvaluation(a: Adapter)
    requires NotNumeral(a.human) && NotNumeral(a.computer) && a.toWin >= 1
    ensures a.Evaluation(CreateBoard(a.size)) == 0
  {
    var board := CreateBoard(a.size);
    FreshBoard(a);
    FreshBoardUnmarked(a.size, a.human);
    FreshBoardUnmarked(a.size, a.computer);
    NeutralWithoutMarks(board, a.size, a.toWin, a.computer, a.human);
  }

  /** No cell of a fresh board holds a mark that is not a numeral. */
  lemma FreshBoardUnmarked(size: nat, mark: string)
    requires NotNumeral(mark)
    ensures forall i :: 0 <= i < size * size ==> CreateBoard(size)[i] != mark
  {
    var j :| 0 <= j < |mark| && !IsDigit(mark[j]);
    forall i | 0 <= i < size * size ensures CreateBoard(size)[i] != mark {
      var cell := CreateBoard(size)[i];
      if j < |cell| {
        assert IsDigit(cell[j]) && cell[j] != mark[j];
      }
    }
  }

  lemma FreshBoardMoves(a: Adapter)
    requires NotNumeral(a.human) && NotNumeral(a.computer)
    ensures a.GetMoves(CreateBoard(a.size), true) == seq(a.size * a.size, i => i)
  {
    var n := a.size * a.size;
    FreshBoardUnmarked(a.size, a.human);
    FreshBoardUnmarked(a.size, a.computer);
    var moves := a.GetMoves(CreateBoard(a.size), true);
    var all := seq(n, i => i);
    forall i ensures i in all <==> 0 <= i < n {
      if 0 <= i < n {
        assert all[i] == i;
      }
    }
    AscendingUnique(moves, all);
  }

  /** A player none of whose marks is on the board has not won. */
  lemma NoWinnerWithoutMarks(board: Board, size: nat, toWin: nat, player: string)
    requires |board| == size * size && toWin >= 1
    requires forall i :: 0 <= i < |board| ==> board[i] != player
    ensures !CheckWinner(board, player, size, toWin)
  {
    LinesInBounds(size, toWin);
    forall line | line in Lines(size, toWin) ensures !LineOwned(board, line, player) {
      assert 0 <= line[0] < |board| && board[line[0]] != player;
    }
    WinnerIffOwnsLine(board, player, size, toWin);
  }

  /** A board with neither mark on it evaluates to 0. */
  lemma NeutralWithoutMarks(board: Board, size: nat, toWin: nat, computer: string, human: string)
    requires |board| == size * size
    requires forall i :: 0 <= i < |board| ==> board[i] != computer && board[i] != human
    ensures AllInBounds(board, Lines(size, toWin))
    ensures Heuristic(board, Lines(size, toWin), computer, human) == 0
  {
    LinesOnBoard(board, size, toWin);
    HeuristicOfUnmarked(board, Lines(size, toWin), computer, human);
  }

  // ---------------------------------------------------------------------
  // The search over Tic-Tac-Toe positions.

  /** On a board of the right size every search score is finite, and a
      search below a position that is not over returns a move. */
  lemma {:induction false} SearchFinite(a: Adapter, state: Board, depth: nat, maximizing: bool)
    requires a.ValidBoard(state)
    ensures Minimax(state, depth, maximizing, a.Callbacks()).score.Fin?
    ensures depth > 0 && !a.IsTerminal(state) ==> Minimax(state, depth, maximizing, a.Callbacks()).move.Some?
    decreases depth
  {
    var g := a.Callbacks();
    assert g.isTerminal(state) == a.IsTerminal(state);
    if depth > 0 && !a.IsTerminal(state) {
      TerminalIff(a, state, maximizing);
      assert g.getMoves(state, maximizing) == a.GetMoves(state, maximizing);
      forall m | m in g.getMoves(state, maximizing)
        ensures ChildScore(state, depth, maximizing, g, m).Fin?
      {
        var child := g.applyMove(state, m, maximizing);
        assert child == a.ApplyMove(state, m, maximizing);
        SearchFinite(a, child, depth - 1, !maximizing);
      }
      MinimaxFinite(state, depth, maximizing, g);
    }
  }

  /** No move is proposed exactly when the search depth is 0 or the game is
      already over. */
  lemma BestMoveDefined(a: Adapter, board: Board, depth: nat)
    requires a.ValidBoard(board)
    ensures a.BestMove(board, depth).None? <==> depth == 0 || a.IsTerminal(board)
  {
    var g := a.Callbacks();
    assert g.isTerminal(board) == a.IsTerminal(board);
    SearchFinite(a, board, depth, true);
  }

  /** The value to the computer of playing `move`: the minimising search of
      the position after it, one ply shallower. */
  function MoveValue(a: Adapter, board: Board, depth: nat, move: int): Score
    requires 0 <= move < |board| && depth > 0
  {
    Minimax(a.ApplyMove(board, move, true), depth - 1, false, a.Callbacks()).score
  }

  /** Otherwise the proposed move is a free cell; it achieves the search
      value, which is the best over all free cells, and every free cell of
      smaller index is strictly worse: ties go to the lowest index. */
  lemma BestMoveIsFirstOptimal(a: Adapter, board: Board, depth: nat)
    requires a.ValidBoard(board) && depth > 0 && !a.IsTerminal(board)
    ensures a.BestMove(board, depth).Some?
    ensures var m := a.BestMove(board, depth).value;
      var value := Minimax(board, depth, true, a.Callbacks()).score;
      && 0 <= m < |board| && board[m] != a.human && board[m] != a.computer
      && MoveValue(a, board, depth, m) == value
      && (forall m' :: m' in a.GetMoves(board, true) ==> LessEq(MoveValue(a, board, depth, m'), value))
      && (forall m' :: m' in a.GetMoves(board, true) && m' < m ==> Less(MoveValue(a, board, depth, m'), value))
  {
    BestMoveAchievesValue(a, board, depth);
    SearchValueIsBest(a, board, depth);
    BestMoveIsFirst(a, board, depth);
  }

  lemma BestMoveAchievesValue(a: Adapter, board: Board, depth: nat)
    requires a.ValidBoard(board) && depth > 0 && !a.IsTerminal(board)
    ensures a.BestMove(board, depth).Some?
    ensures var m := a.BestMove(board, depth).value;
      && 0 <= m < |board| && board[m] != a.human && board[m] != a.computer
      && MoveValue(a, board, depth, m) == Minimax(board, depth, true, a.Callbacks()).score
  {
    var g := a.Callbacks();
    assert g.isTerminal(board) == a.IsTerminal(board);
    SearchFinite(a, board, depth, true);
    MoveValues(a, board, depth);
    MinimaxMove(board, depth, true, g);
  }

  lemma SearchValueIsBest(a: Adapter, board: Board, depth: nat)
    requires a.ValidBoard(board) && depth > 0 && !a.IsTerminal(board)
    ensures forall m :: m in a.GetMoves(board, true) ==>
      LessEq(MoveValue(a, board, depth, m), Minimax(board, depth, true, a.Callbacks()).score)
  {
    var g := a.Callbacks();
    assert g.isTerminal(board) == a.IsTerminal(board);
    MoveValues(a, board, depth);
    MinimaxBoundsChildren(board, depth, true, g);
  }

  lemma BestMoveIsFirst(a: Adapter, board: Board, depth: nat)
    requires a.ValidBoard(board) && depth > 0
    requires a.BestMove(board, depth).Some?
    ensures var m := a.BestMove(board, depth).value;
      var value := Minimax(board, depth, true, a.Callbacks()).score;
      forall m' :: m' in a.GetMoves(board, true) && m' < m ==> Less(MoveValue(a, board, depth, m'), value)
  {
    MinimaxFirstOfAscending(board, depth, true, a.Callbacks());
    MoveValues(a, board, depth);
  }

  /** The value of a move is the score the engine assigns to its child. */
  lemma MoveValues(a: Adapter, board: Board, depth: nat)
    requires depth > 0
    ensures forall m :: m in a.Callbacks().getMoves(board, true) ==>
      0 <= m < |board| && MoveValue(a, board, depth, m) == ChildScore(board, depth, true, a.Callbacks(), m)
  {
  }
}
