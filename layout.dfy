/** The starting position written by initialize_board: rows 0 and 8 get the
    back rank on columns 0..7 (column 8 stays empty), rows 1 and 7 get nine
    pawns each. */
module Layout {
  import opened Pieces
  import opened Position

  /** Rook, Knight, Bishop, Queen, King, Bishop, Knight, Rook. */
  function BackRank(c: int): Kind
    requires 0 <= c < 8
  {
    [Rook, Knight, Bishop, Queen, King, Bishop, Knight, Rook][c]
  }

  /** The occupant initialize_board writes on `s`, or None where it writes
      nothing. */
  function Placement(s: Square): Option<Cell> {
    if s.row == 0 && 0 <= s.col < 8 then Some(Piece(BackRank(s.col), White))
    else if s.row == 1 && 0 <= s.col < N then Some(Piece(Pawn, White))
    else if s.row == 7 && 0 <= s.col < N then Some(Piece(Pawn, Black))
    else if s.row == 8 && 0 <= s.col < 8 then Some(Piece(BackRank(s.col), Black))
    else None
  }

  /** `g` with the starting pieces written over it. */
  function Setup(g: Grid): (h: Grid)
    requires IsGrid(g)
    ensures IsGrid(h)
    ensures forall s :: InBounds(s) ==>
      At(h, s) == (if Placement(s).Some? then Placement(s).value else At(g, s))
  {
    seq(N, r requires 0 <= r < N =>
      seq(N, c requires 0 <= c < N =>
        var p := Placement(Square(r, c));
        if p.Some? then p.value else g[r][c]))
  }

  function EmptyGrid(): (g: Grid)
    ensures IsGrid(g)
    ensures forall s :: InBounds(s) ==> At(g, s) == Empty
  {
    seq(N, r => seq(N, c => Empty))
  }

  /** The position the constructor produces: the layout on an empty board. */
  function InitialGrid(): (g: Grid)
    ensures IsGrid(g)
  {
    Setup(EmptyGrid())
  }

  /** Each side has exactly one king, on column 4 of its back rank, and the
      king search finds it. */
  lemma InitialKings()
    ensures FirstKing(InitialGrid(), White) == Some(Square(0, 4))
    ensures FirstKing(InitialGrid(), Black) == Some(Square(8, 4))
    ensures forall s :: InBounds(s) && At(InitialGrid(), s) == Piece(King, White) ==> s == Square(0, 4)
    ensures forall s :: InBounds(s) && At(InitialGrid(), s) == Piece(King, Black) ==> s == Square(8, 4)
  {
    var g := InitialGrid();
    forall s | InBounds(s) && At(g, s).Piece? && At(g, s).kind == King ensures s.col == 4 && (s.row == 0 || s.row == 8) {
      assert Placement(s).Some?;
    }
    assert At(g, Square(0, 4)) == Piece(King, White);
    assert At(g, Square(8, 4)) == Piece(King, Black);
  }

  /** Column 8 of both back ranks is empty, the five middle rows are empty,
      and the pawn rows are full. */
  lemma InitialRows()
    ensures forall r :: 0 <= r < N && r != 1 && r != 7 ==> At(InitialGrid(), Square(r, 8)) == Empty
    ensures forall r, c :: 2 <= r <= 6 && 0 <= c < N ==> At(InitialGrid(), Square(r, c)) == Empty
    ensures forall c :: 0 <= c < N ==> At(InitialGrid(), Square(1, c)) == Piece(Pawn, White)
    ensures forall c :: 0 <= c < N ==> At(InitialGrid(), Square(7, c)) == Piece(Pawn, Black)
  {
  }

  /** Black pawns start on row 7 but the two-step is only allowed from row 6:
      no black pawn can make its two-step from the starting position, while
      every white pawn can. */
  lemma InitialDoubleSteps(c: int)
    requires 0 <= c < N
    ensures !ValidMove(Pawn, Black, Square(7, c), Square(5, c), InitialGrid())
    ensures ValidMove(Pawn, White, Square(1, c), Square(3, c), InitialGrid())
  {
    assert At(InitialGrid(), Square(3, c)) == Empty;
  }

  /** The checkmate verdict already holds for both colours in the starting
      position, since each side has its king. */
  lemma InitialVerdict()
    ensures CheckmateVerdict(InitialGrid(), White) && CheckmateVerdict(InitialGrid(), Black)
  {
    InitialKings();
    CheckmateIffKingPresent(InitialGrid(), White);
    CheckmateIffKingPresent(InitialGrid(), Black);
  }
}
