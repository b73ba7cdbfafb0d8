# minimax-chess-ai search core in Dafny

This project models the chess engine in `chess_board.py`. The engine has four parts:

- a static evaluation, built from a piece-value dictionary and six 64-square piece-square tables;
- `evalPosition`, which looks a square up in the table of a piece;
- `minimax`, a depth-limited minimax search with fail-soft alpha-beta pruning. It pushes and pops moves on one shared board;
- `minimaxRoot`, which tries each legal move at the root. It keeps the first move whose score strictly beats the best so far.

The rules of chess come from the python-chess library, which is not part of this model. A position is a value (`Game.Position`). It holds its 64 squares, the side to move and the three terminal flags that python-chess would compute: checkmate, stalemate and insufficient material. The legal moves of a position and the positions they lead to form a finite game tree (`Game.Node`, `Game.Edge`). The board is a class (`Game.Board`) that records three things:

- the current node;
- the move stack;
- the nodes saved by each push.

So `push` and `pop` change it in place, as they do in python-chess. `Push` accepts a move and `Pop` restores the previous node.

The model follows the code as written, including behaviour that an idealised engine would not have:

- `evaluation` scans squares 1 to 63 only. Square 0 is never scored. Its piece only decides the sign of the material: `+` when it is empty or White, `-` when it is Black.
- Material is added with that one sign whatever the colour of each piece. Positional bonuses are added unsigned and never mirrored for Black.
- The checkmate term (`-9999` when White is to move, `+9999` otherwise) sits inside the loop, so it is added 63 times.
- A stalemate or insufficient-material flag makes the first iteration return 0.
- A search node with no legal moves returns its seed: `-9999` for a max node, `9999` for a min node.
- `minimaxRoot` seeds its best score with `-9999` and always keeps the larger value, whatever `isMaximizing` says. It returns no move when no score beats `-9999`.
- With `isMaximizing` true, as `ai_player` calls it, pruning never changes the root's choice (`RootSearch.RootMatchesUnpruned`). With `isMaximizing` false, the root's children are max nodes whose scores can exceed the window `(-10000, 10000)`. There the fail-soft value is only a bound, and a small abstract game tree (its leaves are not reachable chess positions) shows the choice changing (`RootSearch.PruningCanChangeMinimizingRoot`).

Modules:

- `Options` holds the option type.
- `Pieces` holds pieces, their symbols, `piece_val_dict` and the tables, and `evalPosition`.
- `Game` holds positions, the game tree and the board.
- `Evaluator` holds `evaluation`.
- `Search` holds `minimax` and its unpruned reference.
- `RootSearch` holds `minimaxRoot`.

## Model

| member | source | states |
|---|---|---|
| Pieces.EvalPosition | chess_board.py:205-218 | a kind's letter reads that kind's table, with a negative square counting from the end as a python list index does; a key outside `piece_val_dict` gets bonus 0; every bonus lies in -50..50 |
| Pieces.TableBound | chess_board.py:14-72 | every entry of each of the six tables lies in -50..50; it rests on one range lemma per table (pawn -20..50, knights -50..20, bishops -20..10, rooks -5..10, queens -20..5, kings -50..30), each of which holds by evaluating the table's constants |
| Pieces.SymbolKey | chess_board.py:187-191 | the lower-cased symbol of a square is a key of `piece_val_dict` exactly when the square holds a piece. The key is the kind's letter, its value is the kind's value, and `evalPosition` on it reads that kind's table |
| Game.Board.Push | chess_board.py:138 | pushing a legal move moves the board to the child position and extends both stacks, keeping the board consistent |
| Game.Board.Pop | chess_board.py:141 | popping returns the last move, restores the position it was played from and shortens both stacks; replaying the move leads back to the popped position |
| Evaluator.Evaluation | chess_board.py:176-203 | the loop computes `Score` of the board's position and leaves the board alone |
| Evaluator.ScoreDecomposition | chess_board.py:177-203 | the score is 0 on a draw flag; otherwise it is the material of squares 1..63 signed by square 0's colour, plus the unsigned positional bonuses, plus 63 times the mate term |
| Evaluator.SquareZeroOnlyPicksSign | chess_board.py:179-190 | two positions that agree on squares 1..63, the flags and the turn, and whose square 0 gives the same sign, score alike |
| Evaluator.LonePieceSums | chess_board.py:185-192 | with only one piece on squares 1..63, the material and positional sums are that piece's alone |
| Evaluator.MaterialBound | chess_board.py:7-72 | material over squares 1..i lies in 0..200i and positional bonus in -50i..50i |
| Evaluator.MateDominates | chess_board.py:193-197 | without a draw flag, a mated White to move scores at most -63*9999 + 63*250 and a mated Black to move at least 63*9999 - 63*250 |
| Search.Minimax | chess_board.py:149-174 | the method returns the pruned search value of the position it starts from, and leaves the board, its move stack and its saved positions as they were |
| Search.AlphaBetaSound | chess_board.py:149-174 | for a window alpha < beta, the pruned value equals unpruned minimax strictly inside the window and stays on the same side of it outside |
| Search.MaxFoldSound | chess_board.py:153-163 | the max loop, cut off when beta <= alpha, agrees fail-soft with the loop over every move |
| Search.MinFoldSound | chess_board.py:164-174 | the min loop, cut off when beta <= alpha, agrees fail-soft with the loop over every move |
| Search.MaxFoldAtLeast | chess_board.py:154-163 | the max loop never returns less than its seed |
| Search.MinFoldAtMost | chess_board.py:165-174 | the min loop never returns more than its seed |
| Search.MaxAllAtLeast | chess_board.py:154-163 | unpruned, the max loop never returns less than its seed |
| Search.MinAllAtMost | chess_board.py:165-174 | unpruned, the min loop never returns more than its seed |
| Search.SeedBounds | chess_board.py:152-174 | above depth 0 a max node returns at least -9999 and a min node at most 9999; with no legal moves both return their seed |
| Search.DepthZeroIgnoresWindow | chess_board.py:150-151 | at depth 0 the value is minus the evaluation, whatever the window and the side; this holds by definition of the depth-0 branch |
| RootSearch.MinimaxRoot | chess_board.py:131-147 | the method returns the move of the first strictly best score, computed from the children's pruned values in the window (-10000, 10000), and restores the board |
| RootSearch.PickFromFirstStrictMax | chess_board.py:135-146 | the root loop, from any consistent intermediate state, ends on the first index of the maximum score above -9999, or on no move |
| RootSearch.FirstBestIsFirstStrictMax | chess_board.py:133-147 | the root picks the first move whose score is the maximum and beats -9999; equal later scores never replace it; with no such score it returns no move |
| RootSearch.PickFromAgrees | chess_board.py:139-146 | score lists that agree wherever either beats -9999 lead the root loop to the same choice |
| RootSearch.RootMatchesUnpruned | chess_board.py:126-147 | when the root maximizes, the pruned search chooses the same move as unpruned minimax |
| RootSearch.MatedWhiteScore | chess_board.py:176-203 | a mated-White position with one piece on square 1 scores that piece's signed value plus its bonus minus 63*9999 |
| RootSearch.PruningCanChangeMinimizingRoot | chess_board.py:139 | on a concrete two-level tree, the minimizing root picks the second move while unpruned minimax would pick the first |

## Left out

- `play_game`, `display_board`, `who`, `human_player`, `get_move` and `main` are left out: they do display, keyboard input, timing and game-over reporting, not search.
- The `print` calls in `minimaxRoot` are left out because they only write output.
- `ai_player` is left out because it only calls `minimaxRoot(3, board, True)` and turns the move into UCI text. `RootSearch.RootMatchesUnpruned` covers that call.
- The round trip `chess.Move.from_uci(str(x))` is taken to return the same move, so moves are pushed as they are listed.
- The python-chess library is not part of this model: move generation, legality, and the checkmate, stalemate and insufficient-material tests. A position carries those flags as fields, and its legal moves are a snapshot taken when the loop starts.
- Game.Board.Push: requires a legal move. python-chess pushes any move without checking it.
- Game.Board.Pop: requires a non-empty move stack. On an empty stack python-chess raises an error.
- Pieces.EvalPosition: requires a square in -64..63 only when the piece is one of the six letters, where Python raises `IndexError` outside it; any other string returns 0 on any square, as in Python. The evaluation only passes squares 1..63.
- Search.Minimax: takes depth as a natural number. With a negative depth, Python never reaches the depth-0 branch. It recurses until it reaches positions with no legal moves, and because chess lines can go on forever, in practice it stops with a `RecursionError`.
- RootSearch.MinimaxRoot: requires depth >= 1. With depth 0, Python searches each child at depth -1, which never reaches the depth-0 branch and in practice stops with a `RecursionError`.
