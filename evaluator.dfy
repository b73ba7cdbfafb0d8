/**
 * The static evaluation of chess_board.py: material and positional scores
 * summed over squares 1 to 63, with the terminal flags on top.
 */
module Evaluator {
  import opened Options
  import opened Pieces
  import opened Game

  /** The mate constant, also the search's seed value. */
  const MATE := 9999

  /**
   * The reference side: true (White) unless square 0 holds a Black piece.
   * An empty square 0 leaves it at its initial true.
   */
  function RefWhite(p: Position): bool
  {
    match p.squares[0]
    case None => true
    case Some(pc) => pc.color == White
  }

  /** What one loop iteration adds for checkmate: it favours the side not to move. */
  function MateTerm(p: Position): int
  {
    if !p.checkmate then 0 else if p.whiteToMove then -MATE else MATE
  }

  /** What square i adds: signed material plus unsigned positional bonus. */
  function SquareScore(p: Position, refWhite: bool, i: nat): int
    requires i < 64
  {
    var symbol := ToLower(Symbol(p.squares[i]));
    if symbol in PieceValues then
      var value := PieceValues[symbol];
      (if refWhite then value else -value) + EvalPosition(symbol, i)
    else 0
  }

  /** The running total after the iterations for squares 1..i. */
  function Scan(p: Position, refWhite: bool, i: nat): int
    requires i < 64
  {
    if i == 0 then 0 else Scan(p, refWhite, i - 1) + SquareScore(p, refWhite, i) + MateTerm(p)
  }

  /** evaluation(board), as a function of the position. */
  function Score(p: Position): int
  {
    if p.stalemate || p.insufficientMaterial then 0 else Scan(p, RefWhite(p), 63)
  }

  /** evaluation(board): scans squares 1..63, returning 0 at once on a draw flag. */
  method Evaluation(board: Board) returns (evaluation: int)
    ensures evaluation == Score(board.current.pos)
  {
    var p := board.current.pos;
    var i := 0;
    evaluation := 0;
    var x := true;
    match p.squares[0] {
      case Some(pc) => x := pc.color == White;
      case None =>
    }
    while i < 63
      invariant 0 <= i <= 63
      invariant x == RefWhite(p)
      invariant evaluation == Scan(p, x, i)
      invariant i > 0 ==> !p.stalemate && !p.insufficientMaterial
    {
      i := i + 1;
      var squarePiece := ToLower(Symbol(p.squares[i]));
      if squarePiece in PieceValues {
        var pieceVal := PieceValues[squarePiece];
        evaluation := evaluation + (if x then pieceVal else -pieceVal);
        var positionalVal := EvalPosition(squarePiece, i);
        evaluation := evaluation + positionalVal;
      }
      if p.checkmate {
        if p.whiteToMove {
          evaluation := evaluation + -9999;
        } else {
          evaluation := evaluation + 9999;
        }
      }
      if p.stalemate {
        return 0;
      }
      if p.insufficientMaterial {
        return 0;
      }
    }
  }

  /** Material value of the piece on a square, by kind, unsigned. */
  function SquareMaterial(p: Position, i: nat): int
    requires i < 64
  {
    match p.squares[i]
    case None => 0
    case Some(pc) => KindValue(pc.kind)
  }

  /** Positional bonus of the piece on a square, from its kind's table. */
  function SquareBonus(p: Position, i: nat): int
    requires i < 64
  {
    match p.squares[i]
    case None => 0
    case Some(pc) => Table(pc.kind)[i]
  }

  /** Material of the pieces on squares 1..i. */
  function Material(p: Position, i: nat): int
    requires i < 64
  {
    if i == 0 then 0 else Material(p, i - 1) + SquareMaterial(p, i)
  }

  /** Positional bonuses of the pieces on squares 1..i. */
  function Positional(p: Position, i: nat): int
    requires i < 64
  {
    if i == 0 then 0 else Positional(p, i - 1) + SquareBonus(p, i)
  }

  lemma {:induction false} ScanDecomposition(p: Position, refWhite: bool, i: nat)
    requires i < 64
    ensures Scan(p, refWhite, i)
         == (if refWhite then Material(p, i) else -Material(p, i)) + Positional(p, i) + i * MateTerm(p)
  {
    if i > 0 {
      ScanDecomposition(p, refWhite, i - 1);
      SquareDecomposition(p, refWhite, i);
      MateSteps(MateTerm(p), i);
    }
  }

  lemma MateSteps(m: int, i: nat)
    requires i > 0
    ensures i * m == (i - 1) * m + m
  {
  }

  lemma SquareDecomposition(p: Position, refWhite: bool, i: nat)
    requires i < 64
    ensures SquareScore(p, refWhite, i)
         == (if refWhite then SquareMaterial(p, i) else -SquareMaterial(p, i)) + SquareBonus(p, i)
  {
    SymbolKey(p.squares[i]);
  }

  /**
   * The evaluation is 0 on a draw flag; otherwise it is the material of
   * squares 1..63, signed by the colour on square 0, plus the unsigned
   * positional bonuses, plus the mate term once per iteration.
   */
  lemma ScoreDecomposition(p: Position)
    ensures Score(p) == if p.stalemate || p.insufficientMaterial then 0
                        else (if RefWhite(p) then Material(p, 63) else -Material(p, 63))
                             + Positional(p, 63) + 63 * MateTerm(p)
  {
    ScanDecomposition(p, RefWhite(p), 63);
  }

  /**
   * Square 0 is never scored: positions that agree on squares 1..63, on the
   * flags and on the turn, and whose square 0 gives the same reference
   * side, evaluate alike.
   */
  lemma SquareZeroOnlyPicksSign(p: Position, q: Position)
    requires p.squares[1..] == q.squares[1..]
    requires p.whiteToMove == q.whiteToMove && p.checkmate == q.checkmate
    requires p.stalemate == q.stalemate && p.insufficientMaterial == q.insufficientMaterial
    requires RefWhite(p) == RefWhite(q)
    ensures Score(p) == Score(q)
  {
    ScanAgrees(p, q, RefWhite(p), 63);
  }

  lemma {:induction false} ScanAgrees(p: Position, q: Position, refWhite: bool, i: nat)
    requires i < 64 && p.squares[1..] == q.squares[1..] && MateTerm(p) == MateTerm(q)
    ensures Scan(p, refWhite, i) == Scan(q, refWhite, i)
  {
    if i > 0 {
      assert p.squares[i] == p.squares[1..][i - 1] == q.squares[i];
      ScanAgrees(p, q, refWhite, i - 1);
    }
  }

  /**
   * On a board whose squares 1..63 hold at most one piece, on square j,
   * the sums up to square i see that piece alone.
   */
  lemma {:induction false} LonePieceSums(p: Position, j: nat, i: nat)
    requires 1 <= j < 64 && i < 64
    requires forall s :: 1 <= s < 64 && s != j ==> p.squares[s].None?
    ensures Material(p, i) == if i < j then 0 else SquareMaterial(p, j)
    ensures Positional(p, i) == if i < j then 0 else SquareBonus(p, j)
  {
    if i > 0 {
      LonePieceSums(p, j, i - 1);
    }
  }

  lemma {:induction false} MaterialBound(p: Position, i: nat)
    requires i < 64
    ensures 0 <= Material(p, i) <= 200 * i
    ensures -50 * i <= Positional(p, i) <= 50 * i
  {
    if i > 0 {
      MaterialBound(p, i - 1);
      if p.squares[i].Some? {
        TableBound(p.squares[i].value.kind, i);
      }
    }
  }

  /**
   * Checkmate outweighs every material and positional balance: without a
   * draw flag, a mated White to move scores negative and a mated Black to
   * move scores positive, each by at least 63 * 9999 - 63 * 250.
   */
  lemma MateDominates(p: Position)
    requires p.checkmate && !p.stalemate && !p.insufficientMaterial
    ensures p.whiteToMove ==> Score(p) <= -63 * MATE + 63 * 250
    ensures !p.whiteToMove ==> Score(p) >= 63 * MATE - 63 * 250
  {
    ScoreDecomposition(p);
    MaterialBound(p, 63);
  }
}
