/**
 * minimax of chess_board.py: depth-limited minimax with fail-soft
 * alpha-beta pruning over the shared board, and the unpruned minimax it is
 * measured against.
 */
module Search {
  import opened Game
  import opened Evaluator

  function Max(a: int, b: int): int { if a < b then b else a }
  function Min(a: int, b: int): int { if b < a then b else a }

  /** The value minimax returns, as a function of the position it searches from. */
  function AlphaBeta(n: Node, depth: nat, alpha: int, beta: int, isMax: bool): int
    decreases depth, 1, 0
  {
    if depth == 0 then -Score(n.pos)
    else if isMax then MaxFold(n, depth, 0, -MATE, alpha, beta)
    else MinFold(n, depth, 0, MATE, alpha, beta)
  }

  /** The max branch from the k-th legal move on, with the running best and alpha. */
  function MaxFold(n: Node, depth: nat, k: nat, best: int, alpha: int, beta: int): int
    requires 0 < depth && k <= |Moves(n)|
    decreases depth, 0, |Moves(n)| - k
  {
    if k == |Moves(n)| then best
    else
      var best' := Max(best, AlphaBeta(Play(n, Moves(n)[k]), depth - 1, alpha, beta, false));
      var alpha' := Max(alpha, best');
      if beta <= alpha' then best' else MaxFold(n, depth, k + 1, best', alpha', beta)
  }

  /** The min branch from the k-th legal move on, with the running best and beta. */
  function MinFold(n: Node, depth: nat, k: nat, best: int, alpha: int, beta: int): int
    requires 0 < depth && k <= |Moves(n)|
    decreases depth, 0, |Moves(n)| - k
  {
    if k == |Moves(n)| then best
    else
      var best' := Min(best, AlphaBeta(Play(n, Moves(n)[k]), depth - 1, alpha, beta, true));
      var beta' := Min(beta, best');
      if beta' <= alpha then best' else MinFold(n, depth, k + 1, best', alpha, beta')
  }

  /** Plain minimax with the same leaves and the same seeds, visiting every move. */
  function FullMinimax(n: Node, depth: nat, isMax: bool): int
    decreases depth, 1, 0
  {
    if depth == 0 then -Score(n.pos)
    else if isMax then MaxAll(n, depth, 0, -MATE)
    else MinAll(n, depth, 0, MATE)
  }

  function MaxAll(n: Node, depth: nat, k: nat, best: int): int
    requires 0 < depth && k <= |Moves(n)|
    decreases depth, 0, |Moves(n)| - k
  {
    if k == |Moves(n)| then best
    else MaxAll(n, depth, k + 1, Max(best, FullMinimax(Play(n, Moves(n)[k]), depth - 1, false)))
  }

  function MinAll(n: Node, depth: nat, k: nat, best: int): int
    requires 0 < depth && k <= |Moves(n)|
    decreases depth, 0, |Moves(n)| - k
  {
    if k == |Moves(n)| then best
    else MinAll(n, depth, k + 1, Min(best, FullMinimax(Play(n, Moves(n)[k]), depth - 1, true)))
  }

  /**
   * Fail-soft agreement of a pruned result r with the true value v in the
   * window (alpha, beta): exact inside it, on the same side outside it.
   */
  predicate FailSoft(r: int, v: int, alpha: int, beta: int)
  {
    && (v <= alpha ==> r <= alpha)
    && (beta <= v ==> beta <= r)
    && (alpha < v < beta ==> r == v)
  }

  lemma {:induction false} MaxFoldAtLeast(n: Node, depth: nat, k: nat, best: int, alpha: int, beta: int)
    requires 0 < depth && k <= |Moves(n)|
    ensures MaxFold(n, depth, k, best, alpha, beta) >= best
    decreases |Moves(n)| - k
  {
    if k < |Moves(n)| {
      var best' := Max(best, AlphaBeta(Play(n, Moves(n)[k]), depth - 1, alpha, beta, false));
      MaxFoldAtLeast(n, depth, k + 1, best', Max(alpha, best'), beta);
    }
  }

  lemma {:induction false} MinFoldAtMost(n: Node, depth: nat, k: nat, best: int, alpha: int, beta: int)
    requires 0 < depth && k <= |Moves(n)|
    ensures MinFold(n, depth, k, best, alpha, beta) <= best
    decreases |Moves(n)| - k
  {
    if k < |Moves(n)| {
      var best' := Min(best, AlphaBeta(Play(n, Moves(n)[k]), depth - 1, alpha, beta, true));
      MinFoldAtMost(n, depth, k + 1, best', alpha, Min(beta, best'));
    }
  }

  lemma {:induction false} MaxAllAtLeast(n: Node, depth: nat, k: nat, best: int)
    requires 0 < depth && k <= |Moves(n)|
    ensures MaxAll(n, depth, k, best) >= best
    decreases |Moves(n)| - k
  {
    if k < |Moves(n)| {
      MaxAllAtLeast(n, depth, k + 1, Max(best, FullMinimax(Play(n, Moves(n)[k]), depth - 1, false)));
    }
  }

  lemma {:induction false} MinAllAtMost(n: Node, depth: nat, k: nat, best: int)
    requires 0 < depth && k <= |Moves(n)|
    ensures MinAll(n, depth, k, best) <= best
    decreases |Moves(n)| - k
  {
    if k < |Moves(n)| {
      MinAllAtMost(n, depth, k + 1, Min(best, FullMinimax(Play(n, Moves(n)[k]), depth - 1, true)));
    }
  }

  /**
   * Above depth 0 a max node never returns less than -9999 and a min node
   * never more than 9999, pruned or not; with no legal moves each returns
   * its seed.
   */
  lemma SeedBounds(n: Node, depth: nat, alpha: int, beta: int, isMax: bool)
    requires depth > 0
    ensures isMax ==> AlphaBeta(n, depth, alpha, beta, isMax) >= -MATE && FullMinimax(n, depth, isMax) >= -MATE
    ensures !isMax ==> AlphaBeta(n, depth, alpha, beta, isMax) <= MATE && FullMinimax(n, depth, isMax) <= MATE
    ensures Moves(n) == [] ==> AlphaBeta(n, depth, alpha, beta, isMax) == FullMinimax(n, depth, isMax)
                                == if isMax then -MATE else MATE
  {
    if isMax {
      MaxFoldAtLeast(n, depth, 0, -MATE, alpha, beta);
      MaxAllAtLeast(n, depth, 0, -MATE);
    } else {
      MinFoldAtMost(n, depth, 0, MATE, alpha, beta);
      MinAllAtMost(n, depth, 0, MATE);
    }
  }

  /** At depth 0 the result is the negated evaluation, whatever the window and the side. */
  lemma DepthZeroIgnoresWindow(n: Node, alpha: int, beta: int, isMax: bool)
    ensures AlphaBeta(n, 0, alpha, beta, isMax) == -Score(n.pos)
  {
  }

  /**
   * Pruning soundness: for a window alpha < beta, the pruned value agrees
   * with the unpruned minimax value in the fail-soft sense.
   */
  lemma {:induction false} AlphaBetaSound(n: Node, depth: nat, alpha: int, beta: int, isMax: bool)
    requires alpha < beta
    ensures FailSoft(AlphaBeta(n, depth, alpha, beta, isMax), FullMinimax(n, depth, isMax), alpha, beta)
    decreases depth, 1, 0
  {
    if depth > 0 {
      if isMax {
        MaxFoldSound(n, depth, 0, -MATE, -MATE, alpha, beta);
      } else {
        MinFoldSound(n, depth, 0, MATE, MATE, alpha, beta);
      }
    }
  }

  /**
   * The max loop from move k on, where the pruned running best is best and
   * the unpruned one is best0: the two agree, or both are at most alpha.
   */
  lemma {:induction false} MaxFoldSound(n: Node, depth: nat, k: nat, best: int, best0: int, alpha: int, beta: int)
    requires 0 < depth && k <= |Moves(n)| && alpha < beta
    requires best == best0 || (best <= alpha && best0 <= alpha)
    ensures FailSoft(MaxFold(n, depth, k, best, alpha, beta), MaxAll(n, depth, k, best0), alpha, beta)
    decreases depth, 0, |Moves(n)| - k
  {
    if k < |Moves(n)| {
      var child := Play(n, Moves(n)[k]);
      var r := AlphaBeta(child, depth - 1, alpha, beta, false);
      var v := FullMinimax(child, depth - 1, false);
      AlphaBetaSound(child, depth - 1, alpha, beta, false);
      var best' := Max(best, r);
      var best0' := Max(best0, v);
      var alpha' := Max(alpha, best');
      MaxAllAtLeast(n, depth, k + 1, best0');
      if alpha' < beta {
        MaxFoldSound(n, depth, k + 1, best', best0', alpha', beta);
        MaxFoldAtLeast(n, depth, k + 1, best', alpha', beta);
      }
    }
  }

  /**
   * The min loop from move k on, where the pruned running best is best and
   * the unpruned one is best0: the two agree, or both are at least beta.
   */
  lemma {:induction false} MinFoldSound(n: Node, depth: nat, k: nat, best: int, best0: int, alpha: int, beta: int)
    requires 0 < depth && k <= |Moves(n)| && alpha < beta
    requires best == best0 || (beta <= best && beta <= best0)
    ensures FailSoft(MinFold(n, depth, k, best, alpha, beta), MinAll(n, depth, k, best0), alpha, beta)
    decreases depth, 0, |Moves(n)| - k
  {
    if k < |Moves(n)| {
      var child := Play(n, Moves(n)[k]);
      var r := AlphaBeta(child, depth - 1, alpha, beta, true);
      var v := FullMinimax(child, depth - 1, true);
      AlphaBetaSound(child, depth - 1, alpha, beta, true);
      var best' := Min(best, r);
      var best0' := Min(best0, v);
      var beta' := Min(beta, best');
      MinAllAtMost(n, depth, k + 1, best0');
      if alpha < beta' {
        MinFoldSound(n, depth, k + 1, best', best0', alpha, beta');
        MinFoldAtMost(n, depth, k + 1, best', alpha, beta');
      }
    }
  }

  /**
   * minimax(depth, board, alpha, beta, is_max), with the board given as the
   * shared Board: every push is undone by a pop before the next move or any
   * return, so the board is as it was when the call returns.
   */
  method Minimax(depth: nat, board: Board, alpha: int, beta: int, isMax: bool) returns (value: int)
    requires board.Valid()
    modifies board
    ensures board.Valid()
    ensures board.current == old(board.current)
    ensures board.moveStack == old(board.moveStack) && board.saved == old(board.saved)
    ensures value == AlphaBeta(old(board.current), depth, alpha, beta, isMax)
    decreases depth
  {
    if depth == 0 {
      var evaluation := Evaluation(board);
      return -evaluation;
    }
    var n := board.current;
    var possibleMoves := Moves(n);
    ghost var stack0, saved0 := board.moveStack, board.saved;
    var alpha', beta' := alpha, beta;
    if isMax {
      var bestMove := -9999;
      for k := 0 to |possibleMoves|
        invariant board.Valid() && board.current == n
        invariant beta' == beta
        invariant board.moveStack == stack0 && board.saved == saved0
        invariant MaxFold(n, depth, k, bestMove, alpha', beta) == AlphaBeta(n, depth, alpha, beta, true)
      {
        var move := possibleMoves[k];
        board.Push(move);
        var childValue := Minimax(depth - 1, board, alpha', beta', !isMax);
        assert childValue == AlphaBeta(Play(n, Moves(n)[k]), depth - 1, alpha', beta, false);
        bestMove := Max(bestMove, childValue);
        var _ := board.Pop();
        alpha' := Max(alpha', bestMove);
        if beta' <= alpha' {
          return bestMove;
        }
      }
      return bestMove;
    } else {
      var bestMove := 9999;
      for k := 0 to |possibleMoves|
        invariant board.Valid() && board.current == n
        invariant alpha' == alpha
        invariant board.moveStack == stack0 && board.saved == saved0
        invariant MinFold(n, depth, k, bestMove, alpha, beta') == AlphaBeta(n, depth, alpha, beta, false)
      {
        var move := possibleMoves[k];
        board.Push(move);
        var childValue := Minimax(depth - 1, board, alpha', beta', !isMax);
        assert childValue == AlphaBeta(Play(n, Moves(n)[k]), depth - 1, alpha, beta', true);
        bestMove := Min(bestMove, childValue);
        var _ := board.Pop();
        beta' := Min(beta', bestMove);
        if beta' <= alpha' {
          return bestMove;
        }
      }
      return bestMove;
    }
  }
}
