/**
 * minimaxRoot of chess_board.py: search every legal move with the full
 * window and keep the first move whose score strictly beats the best so far.
 */
module RootSearch {
  import opened Options
  import opened Pieces
  import opened Game
  import opened Evaluator
  import opened Search

  /** The window minimaxRoot opens for every child. */
  const ROOT_ALPHA := -10000
  const ROOT_BETA := 10000

  /** The score minimaxRoot's search gives each legal move, in legal_moves order. */
  function RootScores(n: Node, depth: nat, isMaximizing: bool): (s: seq<int>)
    requires depth >= 1
    ensures |s| == |Moves(n)|
  {
    seq(|Moves(n)|, k requires 0 <= k < |Moves(n)| => RootScore(n, depth, isMaximizing, k))
  }

  function RootScore(n: Node, depth: nat, isMaximizing: bool, k: nat): int
    requires depth >= 1 && k < |Moves(n)|
  {
    AlphaBeta(Play(n, Moves(n)[k]), depth - 1, ROOT_ALPHA, ROOT_BETA, !isMaximizing)
  }

  /** The same scores from unpruned minimax. */
  function FullRootScores(n: Node, depth: nat, isMaximizing: bool): (s: seq<int>)
    requires depth >= 1
    ensures |s| == |Moves(n)|
  {
    seq(|Moves(n)|, k requires 0 <= k < |Moves(n)| =>
      FullMinimax(Play(n, Moves(n)[k]), depth - 1, !isMaximizing))
  }

  /** The root loop from index k on, with the running best score and the index chosen so far. */
  function PickFrom(scores: seq<int>, k: nat, best: int, choice: Option<nat>): (r: Option<nat>)
    requires k <= |scores|
    requires choice.Some? ==> choice.value < |scores|
    ensures r.Some? ==> r.value < |scores|
    decreases |scores| - k
  {
    if k == |scores| then choice
    else
      var value := Max(best, scores[k]);
      if value > best then PickFrom(scores, k + 1, value, Some(k))
      else PickFrom(scores, k + 1, best, choice)
  }

  /** The index minimaxRoot settles on, starting from the seed -9999 and no move. */
  function FirstBest(scores: seq<int>): (r: Option<nat>)
    ensures r.Some? ==> r.value < |scores|
  {
    PickFrom(scores, 0, -MATE, None)
  }

  /** The move minimaxRoot returns. */
  function RootChoice(n: Node, depth: nat, isMaximizing: bool): Option<Move>
    requires depth >= 1
  {
    match FirstBest(RootScores(n, depth, isMaximizing))
    case None => None
    case Some(k) => Some(Moves(n)[k])
  }

  /**
   * r is the first index of a maximum score above -9999, or None when no
   * score is above -9999 (in particular when there are no scores).
   */
  predicate FirstStrictMax(s: seq<int>, r: Option<nat>)
  {
    match r
    case None => forall j :: 0 <= j < |s| ==> s[j] <= -MATE
    case Some(i) =>
      && i < |s|
      && s[i] > -MATE
      && (forall j :: 0 <= j < |s| ==> s[j] <= s[i])
      && (forall j :: 0 <= j < i ==> s[j] < s[i])
  }

  /** What the root loop knows after the first k scores. */
  predicate PickedSoFar(s: seq<int>, k: nat, best: int, choice: Option<nat>)
    requires k <= |s|
  {
    match choice
    case None => best == -MATE && forall j :: 0 <= j < k ==> s[j] <= -MATE
    case Some(i) =>
      && i < k
      && s[i] == best > -MATE
      && (forall j :: 0 <= j < k ==> s[j] <= best)
      && (forall j :: 0 <= j < i ==> s[j] < best)
  }

  lemma {:induction false} PickFromFirstStrictMax(s: seq<int>, k: nat, best: int, choice: Option<nat>)
    requires k <= |s| && PickedSoFar(s, k, best, choice)
    ensures FirstStrictMax(s, PickFrom(s, k, best, choice))
    decreases |s| - k
  {
    if k == |s| {
    } else if Max(best, s[k]) > best {
      PickFromFirstStrictMax(s, k + 1, s[k], Some(k));
    } else {
      PickFromFirstStrictMax(s, k + 1, best, choice);
    }
  }

  /**
   * Tie-break: the root picks the first move whose score is the maximum,
   * provided that maximum beats -9999; a later move with an equal score
   * never replaces it; with no such score it returns no move.
   */
  lemma FirstBestIsFirstStrictMax(s: seq<int>)
    ensures FirstStrictMax(s, FirstBest(s))
  {
    PickFromFirstStrictMax(s, 0, -MATE, None);
  }

  /** Scores that agree wherever one of them beats -9999 lead the root loop to the same choice. */
  lemma {:induction false} PickFromAgrees(s: seq<int>, t: seq<int>, k: nat, best: int, choice: Option<nat>)
    requires |s| == |t| && k <= |s| && best >= -MATE
    requires choice.Some? ==> choice.value < |s|
    requires forall j :: 0 <= j < |s| ==> s[j] == t[j] || (s[j] <= -MATE && t[j] <= -MATE)
    ensures PickFrom(s, k, best, choice) == PickFrom(t, k, best, choice)
    decreases |s| - k
  {
    if k < |s| {
      if Max(best, s[k]) > best {
        PickFromAgrees(s, t, k + 1, Max(best, s[k]), Some(k));
      } else {
        PickFromAgrees(s, t, k + 1, best, choice);
      }
    }
  }

  /**
   * When the root maximizes (as ai_player asks), pruning never changes the
   * move it returns: the choice is the one unpruned minimax scores give.
   */
  lemma RootMatchesUnpruned(n: Node, depth: nat)
    requires depth >= 1
    ensures FirstBest(RootScores(n, depth, true)) == FirstBest(FullRootScores(n, depth, true))
  {
    var s := RootScores(n, depth, true);
    var t := FullRootScores(n, depth, true);
    forall j | 0 <= j < |s|
      ensures s[j] == t[j] || (s[j] <= -MATE && t[j] <= -MATE)
    {
      var child := Play(n, Moves(n)[j]);
      if depth > 1 {
        SeedBounds(child, depth - 1, ROOT_ALPHA, ROOT_BETA, false);
        AlphaBetaSound(child, depth - 1, ROOT_ALPHA, ROOT_BETA, false);
      }
    }
    PickFromAgrees(s, t, 0, -MATE, None);
  }

  /** A position with one piece on square 1, the given piece on square 0, and White mated. */
  function MatedWhite(corner: Option<Piece>, piece: Option<Piece>): Position
  {
    Position(seq(64, s => if s == 0 then corner else if s == 1 then piece else None), true, true, false, false)
  }

  lemma MatedWhiteScore(corner: Option<Piece>, piece: Option<Piece>)
    ensures Score(MatedWhite(corner, piece))
         == (if RefWhite(MatedWhite(corner, piece)) then 1 else -1)
            * (match piece case None => 0 case Some(pc) => KindValue(pc.kind))
            + (match piece case None => 0 case Some(pc) => Table(pc.kind)[1])
            - 63 * MATE
  {
    var p := MatedWhite(corner, piece);
    ScoreDecomposition(p);
    LonePieceSums(p, 1, 63);
  }

  /** Three mated-White leaves: a white rook scores +100 or -100 as square 0 is empty or Black. */
  const LOW := MatedWhite(None, Some(Piece(Rook, White)))
  const HIGH := MatedWhite(Some(Piece(King, Black)), Some(Piece(Rook, White)))
  const MID := MatedWhite(None, None)

  /**
   * An abstract tree, not a line of play: the turn alternates (Black moves
   * at the two inner nodes), but the leaves need not be reachable chess
   * positions. CUT_NODE is a max node whose first leaf already reaches the
   * root window, and whose second is better.
   */
  const CUT_NODE := Node(MID.(checkmate := false, whiteToMove := false), [Edge(Move("a1"), Node(LOW, [])), Edge(Move("a2"), Node(HIGH, []))])
  const PLAIN_NODE := Node(MID.(checkmate := false, whiteToMove := false), [Edge(Move("b1"), Node(MID, []))])
  const EXAMPLE := Node(MID.(checkmate := false), [Edge(Move("a"), CUT_NODE), Edge(Move("b"), PLAIN_NODE)])

  lemma ExampleLeafScores()
    ensures Score(LOW) == 100 - 63 * MATE
    ensures Score(HIGH) == -100 - 63 * MATE
    ensures Score(MID) == -63 * MATE
  {
    MatedWhiteScore(None, Some(Piece(Rook, White)));
    MatedWhiteScore(Some(Piece(King, Black)), Some(Piece(Rook, White)));
    MatedWhiteScore(None, None);
  }

  lemma ExampleMoves()
    ensures Moves(CUT_NODE) == [Move("a1"), Move("a2")] && Play(CUT_NODE, Move("a2")) == Node(HIGH, [])
    ensures Moves(PLAIN_NODE) == [Move("b1")]
    ensures Moves(EXAMPLE) == [Move("a"), Move("b")] && Play(EXAMPLE, Move("b")) == PLAIN_NODE
  {
    assert MovesOf(CUT_NODE.edges[1..]) == [Move("a2")];
    assert MovesOf(EXAMPLE.edges[1..]) == [Move("b")];
    assert Move("a1") != Move("a2") && Move("a") != Move("b");
    assert ChildOf(CUT_NODE.edges[1..], Move("a2")) == Node(HIGH, []);
    assert ChildOf(EXAMPLE.edges[1..], Move("b")) == PLAIN_NODE;
  }

  lemma CutNodeValues()
    ensures AlphaBeta(CUT_NODE, 1, ROOT_ALPHA, ROOT_BETA, true) == -Score(LOW)
    ensures FullMinimax(CUT_NODE, 1, true) == -Score(HIGH)
  {
    ExampleLeafScores();
    ExampleMoves();
    assert Play(CUT_NODE, Move("a1")) == Node(LOW, []);
    assert MaxFold(CUT_NODE, 1, 0, -MATE, ROOT_ALPHA, ROOT_BETA) == -Score(LOW);
    assert MaxAll(CUT_NODE, 1, 2, -Score(HIGH)) == -Score(HIGH);
    assert MaxAll(CUT_NODE, 1, 1, -Score(LOW)) == -Score(HIGH);
  }

  lemma PlainNodeValues()
    ensures AlphaBeta(PLAIN_NODE, 1, ROOT_ALPHA, ROOT_BETA, true) == -Score(MID)
    ensures FullMinimax(PLAIN_NODE, 1, true) == -Score(MID)
  {
    ExampleLeafScores();
    ExampleMoves();
    assert Play(PLAIN_NODE, Move("b1")) == Node(MID, []);
  }

  lemma ExampleRootScores()
    ensures RootScores(EXAMPLE, 2, false) == [-Score(LOW), -Score(MID)]
  {
    ExampleMoves();
    CutNodeValues();
    PlainNodeValues();
    assert Play(EXAMPLE, Move("a")) == CUT_NODE;
    var s := RootScores(EXAMPLE, 2, false);
    assert s[0] == RootScore(EXAMPLE, 2, false, 0) == -Score(LOW);
    assert s[1] == RootScore(EXAMPLE, 2, false, 1) == -Score(MID);
  }

  lemma ExampleFullRootScores()
    ensures FullRootScores(EXAMPLE, 2, false) == [-Score(HIGH), -Score(MID)]
  {
    ExampleMoves();
    CutNodeValues();
    PlainNodeValues();
    assert Play(EXAMPLE, Move("a")) == CUT_NODE;
    var t := FullRootScores(EXAMPLE, 2, false);
    assert t[0] == -Score(HIGH);
    assert t[1] == -Score(MID);
  }

  /**
   * When the root does not maximize, its children are max nodes whose
   * scores may exceed the root window, where fail-soft values are only
   * bounds; then pruning can change the move returned. In EXAMPLE the
   * first child's first leaf cuts off its better second leaf.
   */
  lemma PruningCanChangeMinimizingRoot()
    ensures FirstBest(RootScores(EXAMPLE, 2, false)) == Some(1)
    ensures FirstBest(FullRootScores(EXAMPLE, 2, false)) == Some(0)
  {
    ExampleLeafScores();
    ExampleRootScores();
    ExampleFullRootScores();
    var s := RootScores(EXAMPLE, 2, false);
    var t := FullRootScores(EXAMPLE, 2, false);
    assert PickFrom(s, 1, s[0], Some(0)) == Some(1);
    assert PickFrom(t, 1, t[0], Some(0)) == Some(0);
  }

  /**
   * minimaxRoot(depth, board, isMaximizing): pushes each legal move,
   * searches it, pops it, and keeps the first move that strictly beats the
   * running best; the board is as it was when it returns.
   */
  method MinimaxRoot(depth: nat, board: Board, isMaximizing: bool) returns (bestMoveFinal: Option<Move>)
    requires depth >= 1 && board.Valid()
    modifies board
    ensures board.Valid()
    ensures board.current == old(board.current)
    ensures board.moveStack == old(board.moveStack) && board.saved == old(board.saved)
    ensures bestMoveFinal == RootChoice(old(board.current), depth, isMaximizing)
  {
    var n := board.current;
    var possibleMoves := Moves(n);
    ghost var stack0, saved0 := board.moveStack, board.saved;
    ghost var scores := RootScores(n, depth, isMaximizing);
    var bestMove := -9999;
    bestMoveFinal := None;
    ghost var chosen: Option<nat> := None;
    for k := 0 to |possibleMoves|
      invariant board.Valid() && board.current == n
      invariant board.moveStack == stack0 && board.saved == saved0
      invariant chosen.Some? ==> chosen.value < k
      invariant chosen.None? ==> bestMoveFinal.None?
      invariant chosen.Some? ==> bestMoveFinal == Some(possibleMoves[chosen.value])
      invariant PickFrom(scores, k, bestMove, chosen) == FirstBest(scores)
    {
      var move := possibleMoves[k];
      board.Push(move);
      assert board.current == Play(n, Moves(n)[k]);
      var childValue := Minimax(depth - 1, board, -10000, 10000, !isMaximizing);
      assert childValue == RootScore(n, depth, isMaximizing, k);
      assert childValue == scores[k];
      var value := Max(bestMove, childValue);
      var _ := board.Pop();
      assert board.current == n;
      if value > bestMove {
        bestMove := value;
        bestMoveFinal := Some(move);
        chosen := Some(k);
      }
    }
  }
}
