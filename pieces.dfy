/**
 * Pieces, their one-letter symbols, the material table and the six
 * piece-square tables of chess_board.py.
 */
module Pieces {
  import opened Options

  datatype Color = White | Black
  datatype Kind = Pawn | Knight | Bishop | Rook | Queen | King
  datatype Piece = Piece(kind: Kind, color: Color)

  /** The lower-case letter python-chess uses for a kind. */
  function Letter(k: Kind): char
  {
    match k
    case Pawn => 'p'
    case Knight => 'n'
    case Bishop => 'b'
    case Rook => 'r'
    case Queen => 'q'
    case King => 'k'
  }

  function UpperChar(c: char): char
  {
    if 'a' <= c <= 'z' then (c as int - 32) as char else c
  }

  function LowerChar(c: char): char
  {
    if 'A' <= c <= 'Z' then (c as int + 32) as char else c
  }

  /** Python's str.lower() on ASCII text. */
  function ToLower(s: string): (r: string)
    ensures |r| == |s|
  {
    if s == [] then [] else [LowerChar(s[0])] + ToLower(s[1..])
  }

  /**
   * str(board.piece_at(i)): the piece's symbol, upper case for White and
   * lower case for Black; an empty square prints as "None".
   */
  function Symbol(cell: Option<Piece>): string
  {
    match cell
    case None => "None"
    case Some(p) => if p.color == White then [UpperChar(Letter(p.kind))] else [Letter(p.kind)]
  }

  /** piece_val_dict: material value keyed by lower-case symbol. */
  const PieceValues: map<string, int> :=
    map["p" := 20, "b" := 60, "k" := 0, "q" := 200, "n" := 60, "r" := 100]

  /** Base material value of each kind, stated per kind. */
  function KindValue(k: Kind): int
  {
    match k
    case Pawn => 20
    case Knight => 60
    case Bishop => 60
    case Rook => 100
    case Queen => 200
    case King => 0
  }

  const PawnTable: seq<int> :=
    [  0,   0,   0,   0,   0,   0,   0,   0] +
    [  5,  10,  10, -20, -20,  10,  10,   5] +
    [  5,  -5, -10,   0,   0, -10,  -5,   5] +
    [  0,   0,   0,  20,  20,   0,   0,   0] +
    [  5,   5,  10,  25,  25,  10,   5,   5] +
    [ 10,  10,  20,  30,  30,  20,  10,  10] +
    [ 50,  50,  50,  50,  50,  50,  50,  50] +
    [  0,   0,   0,   0,   0,   0,   0,   0]

  const KnightsTable: seq<int> :=
    [-50, -40, -30, -30, -30, -30, -40, -50] +
    [-40, -20,   0,   5,   5,   0, -20, -40] +
    [-30,   5,  10,  15,  15,  10,   5, -30] +
    [-30,   0,  15,  20,  20,  15,   0, -30] +
    [-30,   5,  15,  20,  20,  15,   5, -30] +
    [-30,   0,  10,  15,  15,  10,   0, -30] +
    [-40, -20,   0,   0,   0,   0, -20, -40] +
    [-50, -40, -30, -30, -30, -30, -40, -50]

  const BishopsTable: seq<int> :=
    [-20, -10, -10, -10, -10, -10, -10, -20] +
    [-10,   5,   0,   0,   0,   0,   5, -10] +
    [-10,  10,  10,  10,  10,  10,  10, -10] +
    [-10,   0,  10,  10,  10,  10,   0, -10] +
    [-10,   5,   5,  10,  10,   5,   5, -10] +
    [-10,   0,   5,  10,  10,   5,   0, -10] +
    [-10,   0,   0,   0,   0,   0,   0, -10] +
    [-20, -10, -10, -10, -10, -10, -10, -20]

  const RooksTable: seq<int> :=
    [  0,   0,   0,   5,   5,   0,   0,   0] +
    [ -5,   0,   0,   0,   0,   0,   0,  -5] +
    [ -5,   0,   0,   0,   0,   0,   0,  -5] +
    [ -5,   0,   0,   0,   0,   0,   0,  -5] +
    [ -5,   0,   0,   0,   0,   0,   0,  -5] +
    [ -5,   0,   0,   0,   0,   0,   0,  -5] +
    [  5,  10,  10,  10,  10,  10,  10,   5] +
    [  0,   0,   0,   0,   0,   0,   0,   0]

  const QueensTable: seq<int> :=
    [-20, -10, -10,  -5,  -5, -10, -10, -20] +
    [-10,   0,   0,   0,   0,   0,   0, -10] +
    [-10,   5,   5,   5,   5,   5,   0, -10] +
    [  0,   0,   5,   5,   5,   5,   0,  -5] +
    [ -5,   0,   5,   5,   5,   5,   0,  -5] +
    [-10,   0,   5,   5,   5,   5,   0, -10] +
    [-10,   0,   0,   0,   0,   0,   0, -10] +
    [-20, -10, -10,  -5,  -5, -10, -10, -20]

  const KingsTable: seq<int> :=
    [ 20,  30,  10,   0,   0,  10,  30,  20] +
    [ 20,  20,   0,   0,   0,   0,  20,  20] +
    [-10, -20, -20, -20, -20, -20, -20, -10] +
    [-20, -30, -30, -40, -40, -30, -30, -20] +
    [-30, -40, -40, -50, -50, -40, -40, -30] +
    [-30, -40, -40, -50, -50, -40, -40, -30] +
    [-30, -40, -40, -50, -50, -40, -40, -30] +
    [-30, -40, -40, -50, -50, -40, -40, -30]

  /** The piece-square table of each kind, stated per kind. */
  function Table(k: Kind): (t: seq<int>)
    ensures |t| == 64
  {
    match k
    case Pawn => PawnTable
    case Knight => KnightsTable
    case Bishop => BishopsTable
    case Rook => RooksTable
    case Queen => QueensTable
    case King => KingsTable
  }

  /**
   * evalPosition: the positional bonus of a lower-case symbol on a square.
   * A negative square counts from the end of the table, as a Python list
   * index does; only the six piece letters index a table, so any other
   * string gives 0 on any square.
   */
  function EvalPosition(piece: string, square: int): (r: int)
    requires piece in PieceValues ==> -64 <= square < 64
    ensures piece !in PieceValues ==> r == 0
    ensures forall k: Kind :: piece == [Letter(k)] ==> r == Table(k)[if square < 0 then square + 64 else square]
    ensures -50 <= r <= 50
  {
    var i := if square < 0 then square + 64 else square;
    if piece == "p" then PawnBound(i); PawnTable[i]
    else if piece == "n" then KnightBound(i); KnightsTable[i]
    else if piece == "b" then BishopBound(i); BishopsTable[i]
    else if piece == "r" then RookBound(i); RooksTable[i]
    else if piece == "q" then QueenBound(i); QueensTable[i]
    else if piece == "k" then KingBound(i); KingsTable[i]
    else 0
  }

  /** Every entry of every piece-square table lies within [-50, 50]. */
  lemma TableBound(k: Kind, i: int)
    requires 0 <= i < 64
    ensures -50 <= Table(k)[i] <= 50
  {
    match k
    case Pawn => PawnBound(i);
    case Knight => KnightBound(i);
    case Bishop => BishopBound(i);
    case Rook => RookBound(i);
    case Queen => QueenBound(i);
    case King => KingBound(i);
  }

  lemma PawnBound(i: int) requires 0 <= i < 64 ensures -20 <= PawnTable[i] <= 50 {}
  lemma KnightBound(i: int) requires 0 <= i < 64 ensures -50 <= KnightsTable[i] <= 20 {}
  lemma BishopBound(i: int) requires 0 <= i < 64 ensures -20 <= BishopsTable[i] <= 10 {}
  lemma RookBound(i: int) requires 0 <= i < 64 ensures -5 <= RooksTable[i] <= 10 {}
  lemma QueenBound(i: int) requires 0 <= i < 64 ensures -20 <= QueensTable[i] <= 5 {}
  lemma KingBound(i: int) requires 0 <= i < 64 ensures -50 <= KingsTable[i] <= 30 {}

  /**
   * The lower-cased symbol of a square is a key of the material table
   * exactly when the square holds a piece, and then it is the kind's letter:
   * the material value and the positional bonus it selects are the kind's.
   */
  lemma SymbolKey(cell: Option<Piece>)
    ensures ToLower(Symbol(cell)) in PieceValues <==> cell.Some?
    ensures cell.Some? ==> ToLower(Symbol(cell)) == [Letter(cell.value.kind)]
    ensures cell.Some? ==> PieceValues[ToLower(Symbol(cell))] == KindValue(cell.value.kind)
    ensures cell.Some? ==> forall sq :: 0 <= sq < 64 ==>
              EvalPosition(ToLower(Symbol(cell)), sq) == Table(cell.value.kind)[sq]
  {
    match cell
    case None =>
      assert ToLower("None") == "none";
    case Some(p) =>
      var s := ToLower(Symbol(cell));
      assert s == [LowerChar(Symbol(cell)[0])];
  }
}
