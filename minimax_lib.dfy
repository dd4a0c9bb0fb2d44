/** Generic, depth-bounded, exhaustive minimax search without pruning.

    The engine knows nothing about the game: it is parameterised by a `Game`
    record holding the four callbacks of the source (move enumeration, move
    application, static evaluation and the terminal test). Scores are
    extended integers, because the running best of each level starts at
    minus or plus infinity.
 */
module MinimaxLib {

  datatype Option<T> = None | Some(value: T)

  /** An integer score extended with the two infinite sentinels. */
  datatype Score = NegInf | Fin(v: int) | PosInf

  /** Strict order on scores: NegInf < Fin(_) < PosInf, Fin ordered by value. */
  predicate Less(a: Score, b: Score) {
    match (a, b)
    case (NegInf, NegInf) => false
    case (NegInf, _) => true
    case (Fin(x), Fin(y)) => x < y
    case (Fin(_), PosInf) => true
    case (_, _) => false
  }

  predicate LessEq(a: Score, b: Score) {
    a == b || Less(a, b)
  }

  /** The four callbacks the engine is parameterised by. */
  datatype Game<!S, !M> = Game(
    getMoves: (S, bool) -> seq<M>,
    applyMove: (S, M, bool) -> S,
    evaluate: S -> int,
    isTerminal: S -> bool)

  /** A search result: the best score found and the move that reaches it. */
  datatype Choice<M> = Choice(score: Score, move: Option<M>)

  /** The starting value of the running best score of one level. */
  function Initial(maximizing: bool): Score {
    if maximizing then NegInf else PosInf
  }

  /** The strict comparison that decides whether `s` replaces `best`
      (`score > best_score` when maximizing, `score < best_score` otherwise). */
  predicate Improves(s: Score, best: Score, maximizing: bool) {
    if maximizing then Less(best, s) else Less(s, best)
  }

  /** The state of one level's loop after its first `k` iterations: the
      running best score and the move that first reached it. */
  function Pick<M>(moves: seq<M>, scores: seq<Score>, maximizing: bool, k: nat): Choice<M>
    requires |moves| == |scores| && k <= |moves|
  {
    if k == 0 then Choice(Initial(maximizing), None)
    else
      var prev := Pick(moves, scores, maximizing, k - 1);
      if Improves(scores[k - 1], prev.score, maximizing)
      then Choice(scores[k - 1], Some(moves[k - 1]))
      else prev
  }

  /** Minimax value and chosen move of `state`, searching `depth` plies. */
  function Minimax<S, M>(state: S, depth: nat, maximizing: bool, g: Game<S, M>): Choice<M>
    decreases depth, 1
  {
    if depth == 0 || g.isTerminal(state) then
      Choice(Fin(g.evaluate(state)), None)
    else
      var moves := g.getMoves(state, maximizing);
      Pick(moves, ChildScores(state, depth, maximizing, g, moves), maximizing, |moves|)
  }

  /** The scores of the children of `state`, one per move, searched one ply
      shallower with the other side to move. */
  function ChildScores<S, M>(state: S, depth: nat, maximizing: bool, g: Game<S, M>, moves: seq<M>)
    : (scores: seq<Score>)
    requires depth > 0
    ensures |scores| == |moves|
    decreases depth, 0
  {
    seq(|moves|, i requires 0 <= i < |moves| =>
      Minimax(g.applyMove(state, moves[i], maximizing), depth - 1, !maximizing, g).score)
  }

  /** The minimax value of the child reached by `move`. */
  function ChildScore<S, M>(state: S, depth: nat, maximizing: bool, g: Game<S, M>, move: M): Score
    requires depth > 0
  {
    Minimax(g.applyMove(state, move, maximizing), depth - 1, !maximizing, g).score
  }

  // ---------------------------------------------------------------------
  // Reference definitions: the largest and the smallest score of a list,
  // folded from the right (the loop folds from the left).

  function Max(a: Score, b: Score): Score {
    if Less(a, b) then b else a
  }

  function Min(a: Score, b: Score): Score {
    if Less(b, a) then b else a
  }

  /** The maximum of `scores`; NegInf for the empty list. */
  function Maximum(scores: seq<Score>): Score {
    if scores == [] then NegInf else Max(scores[0], Maximum(scores[1..]))
  }

  /** The minimum of `scores`; PosInf for the empty list. */
  function Minimum(scores: seq<Score>): Score {
    if scores == [] then PosInf else Min(scores[0], Minimum(scores[1..]))
  }

  lemma LessTransitive(a: Score, b: Score, c: Score)
    requires Less(a, b) && Less(b, c)
    ensures Less(a, c)
  {
  }

  lemma {:induction false} MaximumIsGreatest(scores: seq<Score>)
    ensures forall i :: 0 <= i < |scores| ==> LessEq(scores[i], Maximum(scores))
    ensures scores != [] ==> Maximum(scores) in scores
    ensures scores == [] ==> Maximum(scores) == NegInf
  {
    if scores != [] {
      MaximumIsGreatest(scores[1..]);
      forall i | 0 <= i < |scores| ensures LessEq(scores[i], Maximum(scores)) {
        if i > 0 {
          assert scores[i] == scores[1..][i - 1];
          if Less(scores[i], Maximum(scores[1..])) && Less(Maximum(scores[1..]), Maximum(scores)) {
            LessTransitive(scores[i], Maximum(scores[1..]), Maximum(scores));
          }
        }
      }
    }
  }

  lemma {:induction false} MinimumIsLeast(scores: seq<Score>)
    ensures forall i :: 0 <= i < |scores| ==> LessEq(Minimum(scores), scores[i])
    ensures scores != [] ==> Minimum(scores) in scores
    ensures scores == [] ==> Minimum(scores) == PosInf
  {
    if scores != [] {
      MinimumIsLeast(scores[1..]);
      forall i | 0 <= i < |scores| ensures LessEq(Minimum(scores), scores[i]) {
        if i > 0 {
          assert scores[i] == scores[1..][i - 1];
          if Less(Minimum(scores), Minimum(scores[1..])) && Less(Minimum(scores[1..]), scores[i]) {
            LessTransitive(Minimum(scores), Minimum(scores[1..]), scores[i]);
          }
        }
      }
    }
  }

  /** A score that is in the list and not below any element is its maximum. */
  lemma MaximumUnique(scores: seq<Score>, m: Score)
    requires m in scores
    requires forall i :: 0 <= i < |scores| ==> LessEq(scores[i], m)
    ensures m == Maximum(scores)
  {
    MaximumIsGreatest(scores);
    var j :| 0 <= j < |scores| && scores[j] == Maximum(scores);
    var i :| 0 <= i < |scores| && scores[i] == m;
    assert LessEq(scores[i], Maximum(scores)) && LessEq(scores[j], m);
  }

  lemma MinimumUnique(scores: seq<Score>, m: Score)
    requires m in scores
    requires forall i :: 0 <= i < |scores| ==> LessEq(m, scores[i])
    ensures m == Minimum(scores)
  {
    MinimumIsLeast(scores);
    var j :| 0 <= j < |scores| && scores[j] == Minimum(scores);
    var i :| 0 <= i < |scores| && scores[i] == m;
    assert LessEq(Minimum(scores), scores[i]) && LessEq(m, scores[j]);
  }

  // ---------------------------------------------------------------------
  // What one level's loop computes.

  /** After `k` iterations the running best is a best score of the first
      `k` scores (or the initial sentinel when none improved on it), and the
      move is the FIRST one that reached it: every earlier score is strictly
      worse, so later equal scores never replace it. */
  lemma {:induction false} PickSpec<M>(moves: seq<M>, scores: seq<Score>, maximizing: bool, k: nat)
    requires |moves| == |scores| && k <= |moves|
    ensures var r := Pick(moves, scores, maximizing, k);
      && (forall i :: 0 <= i < k ==> !Improves(scores[i], r.score, maximizing))
      && (r.move.None? <==> r.score == Initial(maximizing))
      && (r.move.None? ==> forall i :: 0 <= i < k ==> scores[i] == Initial(maximizing))
      && (r.move.Some? ==>
            exists j :: 0 <= j < k && r.move.value == moves[j] && scores[j] == r.score
                        && forall i :: 0 <= i < j ==> Improves(r.score, scores[i], maximizing))
  {
    if k > 0 {
      PickSpec(moves, scores, maximizing, k - 1);
      var prev := Pick(moves, scores, maximizing, k - 1);
      var r := Pick(moves, scores, maximizing, k);
      var s := scores[k - 1];
      if Improves(s, prev.score, maximizing) {
        assert r == Choice(s, Some(moves[k - 1]));
        forall i | 0 <= i < k ensures !Improves(scores[i], r.score, maximizing) {
          if i < k - 1 && Improves(scores[i], r.score, maximizing) {
            if maximizing {
              LessTransitive(prev.score, s, scores[i]);
            } else {
              LessTransitive(scores[i], s, prev.score);
            }
          }
        }
        forall i | 0 <= i < k - 1 ensures Improves(r.score, scores[i], maximizing) {
          if !Improves(prev.score, scores[i], maximizing) {
            // then scores[i] == prev.score, and s improves on it
          } else if maximizing {
            LessTransitive(scores[i], prev.score, s);
          } else {
            LessTransitive(s, prev.score, scores[i]);
          }
        }
      } else {
        assert r == prev;
        if prev.move.Some? {
          var j :| 0 <= j < k - 1 && prev.move.value == moves[j] && scores[j] == prev.score
                   && forall i :: 0 <= i < j ==> Improves(prev.score, scores[i], maximizing);
          assert 0 <= j < k;
        } else {
          assert s == Initial(maximizing);
        }
      }
    }
  }

  /** The loop's best score of a maximising level is the maximum of the
      scores; of a minimising level, the minimum. */
  lemma PickIsExtreme<M>(moves: seq<M>, scores: seq<Score>, maximizing: bool)
    requires |moves| == |scores|
    ensures maximizing ==> Pick(moves, scores, maximizing, |moves|).score == Maximum(scores)
    ensures !maximizing ==> Pick(moves, scores, maximizing, |moves|).score == Minimum(scores)
  {
    var r := Pick(moves, scores, maximizing, |moves|);
    PickSpec(moves, scores, maximizing, |moves|);
    if maximizing {
      MaximumIsGreatest(scores);
      if r.move.None? {
        if scores != [] {
          assert scores[0] == NegInf;
          MaximumUnique(scores, NegInf);
        }
      } else {
        forall i | 0 <= i < |scores| ensures LessEq(scores[i], r.score) {
          assert !Improves(scores[i], r.score, true);
        }
        MaximumUnique(scores, r.score);
      }
    } else {
      MinimumIsLeast(scores);
      if r.move.None? {
        if scores != [] {
          assert scores[0] == PosInf;
          MinimumUnique(scores, PosInf);
        }
      } else {
        forall i | 0 <= i < |scores| ensures LessEq(r.score, scores[i]) {
          assert !Improves(scores[i], r.score, false);
        }
        MinimumUnique(scores, r.score);
      }
    }
  }

  // ---------------------------------------------------------------------
  // Properties of the search.

  /** At depth 0 or on a terminal state the result is the static evaluation
      and no move. */
  lemma MinimaxBaseCase<S, M>(state: S, depth: nat, maximizing: bool, g: Game<S, M>)
    requires depth == 0 || g.isTerminal(state)
    ensures Minimax(state, depth, maximizing, g) == Choice(Fin(g.evaluate(state)), None)
  {
  }

  /** Otherwise the score is the maximum (maximising) or minimum
      (minimising) over the enumerated moves of the child's score, searched
      one ply shallower with the flag flipped. */
  lemma MinimaxScore<S, M>(state: S, depth: nat, maximizing: bool, g: Game<S, M>)
    requires depth > 0 && !g.isTerminal(state)
    ensures var moves := g.getMoves(state, maximizing);
      var scores := seq(|moves|, i requires 0 <= i < |moves| => ChildScore(state, depth, maximizing, g, moves[i]));
      Minimax(state, depth, maximizing, g).score
        == if maximizing then Maximum(scores) else Minimum(scores)
  {
    var moves := g.getMoves(state, maximizing);
    var scores := ChildScores(state, depth, maximizing, g, moves);
    PickIsExtreme(moves, scores, maximizing);
    assert scores == seq(|moves|, i requires 0 <= i < |moves| => ChildScore(state, depth, maximizing, g, moves[i]));
  }

  /** In the recursive case the score bounds every child's score: from
      above when maximising, from below when minimising. */
  lemma MinimaxBoundsChildren<S, M>(state: S, depth: nat, maximizing: bool, g: Game<S, M>)
    requires depth > 0 && !g.isTerminal(state)
    ensures forall m :: m in g.getMoves(state, maximizing) ==>
      var child := ChildScore(state, depth, maximizing, g, m);
      var score := Minimax(state, depth, maximizing, g).score;
      if maximizing then LessEq(child, score) else LessEq(score, child)
  {
    var moves := g.getMoves(state, maximizing);
    var scores := seq(|moves|, i requires 0 <= i < |moves| => ChildScore(state, depth, maximizing, g, moves[i]));
    MinimaxScore(state, depth, maximizing, g);
    MaximumIsGreatest(scores);
    MinimumIsLeast(scores);
    forall m | m in moves
      ensures var child := ChildScore(state, depth, maximizing, g, m);
        var score := Minimax(state, depth, maximizing, g).score;
        if maximizing then LessEq(child, score) else LessEq(score, child)
    {
      var i :| 0 <= i < |moves| && moves[i] == m;
      assert scores[i] == ChildScore(state, depth, maximizing, g, m);
    }
  }

  /** A returned move is the first move in enumeration order whose child
      reaches the returned score: it is one of the enumerated moves, its
      child's score equals the returned score, and the child of every
      earlier move scores strictly worse. */
  lemma MinimaxMove<S, M>(state: S, depth: nat, maximizing: bool, g: Game<S, M>)
    requires Minimax(state, depth, maximizing, g).move.Some?
    ensures depth > 0 && !g.isTerminal(state)
    ensures var moves := g.getMoves(state, maximizing);
      var r := Minimax(state, depth, maximizing, g);
      exists j :: 0 <= j < |moves| && r.move.value == moves[j]
        && ChildScore(state, depth, maximizing, g, moves[j]) == r.score
        && forall i :: 0 <= i < j ==>
             Improves(r.score, ChildScore(state, depth, maximizing, g, moves[i]), maximizing)
  {
    var moves := g.getMoves(state, maximizing);
    var scores := ChildScores(state, depth, maximizing, g, moves);
    PickSpec(moves, scores, maximizing, |moves|);
    var r := Minimax(state, depth, maximizing, g);
    var j :| 0 <= j < |moves| && r.move.value == moves[j] && scores[j] == r.score
             && forall i :: 0 <= i < j ==> Improves(r.score, scores[i], maximizing);
    assert ChildScore(state, depth, maximizing, g, moves[j]) == scores[j];
    forall i | 0 <= i < j
      ensures Improves(r.score, ChildScore(state, depth, maximizing, g, moves[i]), maximizing)
    {
      assert ChildScore(state, depth, maximizing, g, moves[i]) == scores[i];
    }
  }

  /** When moves are integers enumerated in ascending order, every move
      smaller than the returned one is strictly worse: ties go to the
      smallest move. */
  lemma MinimaxFirstOfAscending<S>(state: S, depth: nat, maximizing: bool, g: Game<S, int>)
    requires Minimax(state, depth, maximizing, g).move.Some?
    requires var moves := g.getMoves(state, maximizing);
      forall j, k :: 0 <= j < k < |moves| ==> moves[j] < moves[k]
    ensures var r := Minimax(state, depth, maximizing, g);
      forall m :: m in g.getMoves(state, maximizing) && m < r.move.value ==>
        Improves(r.score, ChildScore(state, depth, maximizing, g, m), maximizing)
  {
    var moves := g.getMoves(state, maximizing);
    var r := Minimax(state, depth, maximizing, g);
    MinimaxMove(state, depth, maximizing, g);
    var j :| 0 <= j < |moves| && r.move.value == moves[j]
             && forall i :: 0 <= i < j ==> Improves(r.score, ChildScore(state, depth, maximizing, g, moves[i]), maximizing);
    forall m | m in moves && m < moves[j]
      ensures Improves(r.score, ChildScore(state, depth, maximizing, g, m), maximizing)
    {
      var i :| 0 <= i < |moves| && moves[i] == m;
      assert i < j;
    }
  }

  /** In the recursive case no move is returned exactly when no child's
      score beats the initial sentinel; in particular a non-empty move list
      whose children all have finite scores always yields a move. */
  lemma MinimaxMovePresent<S, M>(state: S, depth: nat, maximizing: bool, g: Game<S, M>)
    requires depth > 0 && !g.isTerminal(state)
    ensures var moves := g.getMoves(state, maximizing);
      Minimax(state, depth, maximizing, g).move.Some? <==>
        exists i :: 0 <= i < |moves| && ChildScore(state, depth, maximizing, g, moves[i]) != Initial(maximizing)
  {
    var moves := g.getMoves(state, maximizing);
    var scores := ChildScores(state, depth, maximizing, g, moves);
    PickSpec(moves, scores, maximizing, |moves|);
    var r := Minimax(state, depth, maximizing, g);
    if r.move.Some? {
      var j :| 0 <= j < |moves| && r.move.value == moves[j] && scores[j] == r.score
               && forall i :: 0 <= i < j ==> Improves(r.score, scores[i], maximizing);
      assert ChildScore(state, depth, maximizing, g, moves[j]) == scores[j];
    } else {
      forall i | 0 <= i < |moves|
        ensures ChildScore(state, depth, maximizing, g, moves[i]) == Initial(maximizing)
      {
        assert ChildScore(state, depth, maximizing, g, moves[i]) == scores[i];
      }
    }
  }

  /** In the recursive case an empty move list gives the initial sentinel
      and no move: (-inf, None) when maximising, (+inf, None) otherwise. */
  lemma MinimaxNoMoves<S, M>(state: S, depth: nat, maximizing: bool, g: Game<S, M>)
    requires depth > 0 && !g.isTerminal(state) && g.getMoves(state, maximizing) == []
    ensures Minimax(state, depth, maximizing, g)
      == Choice(if maximizing then NegInf else PosInf, None)
  {
  }

  /** When every child has a finite score and there is at least one move,
      the score is finite and a move is returned. */
  lemma MinimaxFinite<S, M>(state: S, depth: nat, maximizing: bool, g: Game<S, M>)
    requires depth > 0 && !g.isTerminal(state)
    requires g.getMoves(state, maximizing) != []
    requires forall m :: m in g.getMoves(state, maximizing) ==>
               ChildScore(state, depth, maximizing, g, m).Fin?
    ensures Minimax(state, depth, maximizing, g).score.Fin?
    ensures Minimax(state, depth, maximizing, g).move.Some?
  {
    var moves := g.getMoves(state, maximizing);
    var scores := ChildScores(state, depth, maximizing, g, moves);
    PickIsExtreme(moves, scores, maximizing);
    MaximumIsGreatest(scores);
    MinimumIsLeast(scores);
    forall i | 0 <= i < |scores| ensures scores[i].Fin? {
      assert scores[i] == ChildScore(state, depth, maximizing, g, moves[i]);
      assert moves[i] in moves;
    }
    MinimaxMovePresent(state, depth, maximizing, g);
    assert ChildScore(state, depth, maximizing, g, moves[0]) == scores[0];
  }

  // ---------------------------------------------------------------------
  // Recursion depth.

  /** How deeply the search nests its recursive calls below `state`. */
  function Nesting<S, M>(state: S, depth: nat, maximizing: bool, g: Game<S, M>): int
    decreases depth
  {
    if depth == 0 || g.isTerminal(state) then 0
    else
      var moves := g.getMoves(state, maximizing);
      1 + Deepest(seq(|moves|, i requires 0 <= i < |moves| =>
                        Nesting(g.applyMove(state, moves[i], maximizing), depth - 1, !maximizing, g)))
  }

  /** The largest entry, or 0 for no entries. */
  function Deepest(xs: seq<int>): int {
    if xs == [] then 0 else if xs[0] < Deepest(xs[1..]) then Deepest(xs[1..]) else xs[0]
  }

  lemma {:induction false} DeepestBound(xs: seq<int>, b: int)
    requires 0 <= b
    requires forall i :: 0 <= i < |xs| ==> 0 <= xs[i] <= b
    ensures 0 <= Deepest(xs) <= b
  {
    if xs != [] {
      DeepestBound(xs[1..], b);
    }
  }

  /** Every recursive call lowers `depth` by one, so calls nest at most
      `depth` deep. */
  lemma {:induction false} NestingBound<S, M>(state: S, depth: nat, maximizing: bool, g: Game<S, M>)
    ensures 0 <= Nesting(state, depth, maximizing, g) <= depth
    ensures depth > 0 && !g.isTerminal(state) ==> Nesting(state, depth, maximizing, g) >= 1
    decreases depth
  {
    if depth > 0 && !g.isTerminal(state) {
      var moves := g.getMoves(state, maximizing);
      var xs := seq(|moves|, i requires 0 <= i < |moves| =>
                      Nesting(g.applyMove(state, moves[i], maximizing), depth - 1, !maximizing, g));
      forall i | 0 <= i < |xs| ensures 0 <= xs[i] <= depth - 1 {
        NestingBound(g.applyMove(state, moves[i], maximizing), depth - 1, !maximizing, g);
      }
      DeepestBound(xs, depth - 1);
    }
  }

  // ---------------------------------------------------------------------
  // The search as the source writes it: recursion plus, on each level, a
  // loop that keeps a running best score and best move.

  method Search<S, M>(state: S, depth: nat, maximizing: bool, g: Game<S, M>)
    returns (score: Score, move: Option<M>)
    ensures Choice(score, move) == Minimax(state, depth, maximizing, g)
    decreases depth
  {
    if depth == 0 || g.isTerminal(state) {
      return Fin(g.evaluate(state)), None;
    }
    var moves := g.getMoves(state, maximizing);
    ghost var scores := ChildScores(state, depth, maximizing, g, moves);
    score, move := Initial(maximizing), None;
    for i := 0 to |moves|
      invariant Choice(score, move) == Pick(moves, scores, maximizing, i)
    {
      var child := g.applyMove(state, moves[i], maximizing);
      var s, _ := Search(child, depth - 1, !maximizing, g);
      if Improves(s, score, maximizing) {
        score, move := s, Some(moves[i]);
      }
    }
  }
}
