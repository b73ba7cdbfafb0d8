/**
 * The slice of python-chess's Board that the search core uses, modelled
 * abstractly: a finite game tree whose nodes carry the queries the core
 * makes (piece_at, turn, is_checkmate, is_stalemate,
 * is_insufficient_material, legal_moves), and a mutable board that walks
 * that tree through push and pop.
 */
module Game {
  import opened Options
  import opened Pieces

  /** The 64 cells of a board, indexed by square number. */
  type Squares = s: seq<Option<Piece>> | |s| == 64 witness seq(64, _ => None)

  /** What the core can ask of a board position. */
  datatype Position = Position(
    squares: Squares,
    whiteToMove: bool,
    checkmate: bool,
    stalemate: bool,
    insufficientMaterial: bool)

  /** An opaque move; the uci round trip of the source is the identity on it. */
  datatype Move = Move(uci: string)

  /** A position with its legal moves, in legal_moves order, and where each leads. */
  datatype Node = Node(pos: Position, edges: seq<Edge>)
  datatype Edge = Edge(move: Move, child: Node)

  function MovesOf(edges: seq<Edge>): (ms: seq<Move>)
    ensures |ms| == |edges|
  {
    if edges == [] then [] else [edges[0].move] + MovesOf(edges[1..])
  }

  /** board.legal_moves */
  function Moves(n: Node): seq<Move>
  {
    MovesOf(n.edges)
  }

  function ChildOf(edges: seq<Edge>, m: Move): Node
    requires m in MovesOf(edges)
  {
    if edges[0].move == m then edges[0].child else ChildOf(edges[1..], m)
  }

  /**
   * The position reached by pushing a legal move. A move listed on two
   * edges resolves to its first edge; python-chess never lists a legal
   * move twice.
   */
  function Play(n: Node, m: Move): Node
    requires m in Moves(n)
  {
    ChildOf(n.edges, m)
  }

  /**
   * A python-chess Board as the search uses it: the position shown now,
   * the move stack, and the saved positions that pop restores.
   */
  class Board {
    var current: Node
    var moveStack: seq<Move>
    var saved: seq<Node>

    /** Each saved position, with the move pushed from it, leads to the next one. */
    ghost predicate Valid()
      reads this
    {
      && |saved| == |moveStack|
      && forall i :: 0 <= i < |saved| ==>
           && moveStack[i] in Moves(saved[i])
           && Play(saved[i], moveStack[i]) == (saved + [current])[i + 1]
    }

    constructor (start: Node)
      ensures Valid()
      ensures current == start && moveStack == [] && saved == []
    {
      current := start;
      moveStack := [];
      saved := [];
    }

    /** board.push(move): the move goes on the stack and the board shows its result. */
    method Push(m: Move)
      requires Valid() && m in Moves(current)
      modifies this
      ensures Valid()
      ensures current == Play(old(current), m)
      ensures moveStack == old(moveStack) + [m]
      ensures saved == old(saved) + [old(current)]
    {
      ghost var before := current;
      saved := saved + [current];
      moveStack := moveStack + [m];
      current := Play(current, m);
      forall i | 0 <= i < |saved|
        ensures moveStack[i] in Moves(saved[i])
        ensures Play(saved[i], moveStack[i]) == (saved + [current])[i + 1]
      {
        if i + 1 < |saved| {
          assert saved[i] == old(saved)[i] && moveStack[i] == old(moveStack)[i];
          assert (saved + [current])[i + 1] == (old(saved) + [before])[i + 1];
        }
      }
    }

    /** board.pop(): the last move comes off the stack and the board shows what it showed before it. */
    method Pop() returns (m: Move)
      requires Valid() && moveStack != []
      modifies this
      ensures Valid()
      ensures m == old(moveStack[|moveStack| - 1])
      ensures moveStack == old(moveStack[..|moveStack| - 1])
      ensures saved == old(saved[..|saved| - 1])
      ensures current == old(saved[|saved| - 1])
      ensures m in Moves(current) && Play(current, m) == old(current)
    {
      var last := |moveStack| - 1;
      assert Play(saved[last], moveStack[last]) == (saved + [current])[last + 1];
      m := moveStack[last];
      current := saved[last];
      moveStack := moveStack[..last];
      saved := saved[..last];
    }
  }
}
