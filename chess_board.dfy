/** The mutable board of the game: a 9x9 array of cells and the turn flag.
    Every method is proved against the snapshot functions of module
    Position: it returns what they compute and leaves the board as they
    say. */
module Chess {
  import opened Pieces
  import opened Notation
  import opened Position
  import opened Layout

  class ChessBoard {
    var board: array2<Cell>
    var whiteTurn: bool

    ghost predicate Valid()
      reads this`board
    {
      board.Length0 == N && board.Length1 == N
    }

    /** The contents of the board as a value. */
    function Snapshot(): (g: Grid)
      reads this`board, board
      requires Valid()
      ensures IsGrid(g)
      ensures forall s :: InBounds(s) ==> At(g, s) == board[s.row, s.col]
    {
      var b := board;
      seq(N, r requires 0 <= r < N reads b =>
        seq(N, c requires 0 <= c < N reads b => b[r, c]))
    }

    /** A fresh board with the starting position, white to move. */
    constructor()
      ensures Valid() && fresh(board)
      ensures Snapshot() == InitialGrid()
      ensures whiteTurn
    {
      board := new Cell[N, N]((r, c) => Empty);
      new;
      SameCells(Snapshot(), EmptyGrid());
      InitializeBoard();
      whiteTurn := true;
    }

    /** Writes the starting pieces over the board, leaving every other
        square as it was. */
    method InitializeBoard()
      requires Valid()
      modifies board
      ensures Snapshot() == Setup(old(Snapshot()))
    {
      ghost var g := Snapshot();
      PlaceBackRank(0, White);
      FillPawns(1, White);
      PlaceBackRank(8, Black);
      FillPawns(7, Black);
      SameCells(Snapshot(), Setup(g));
    }

    /** Rook, knight, bishop, queen, king, bishop, knight, rook of `color`
        on columns 0..7 of `row`; column 8 is left as it was. */
    method PlaceBackRank(row: int, color: Color)
      requires Valid() && 0 <= row < N
      modifies board
      ensures forall r, c :: 0 <= r < N && 0 <= c < N ==>
        board[r, c] == if r == row && c < 8 then Piece(BackRank(c), color) else old(board[r, c])
    {
      board[row, 0] := Piece(Rook, color);
      board[row, 1] := Piece(Knight, color);
      board[row, 2] := Piece(Bishop, color);
      board[row, 3] := Piece(Queen, color);
      board[row, 4] := Piece(King, color);
      board[row, 5] := Piece(Bishop, color);
      board[row, 6] := Piece(Knight, color);
      board[row, 7] := Piece(Rook, color);
    }

    /** A pawn of `color` on every square of `row`. */
    method FillPawns(row: int, color: Color)
      requires Valid() && 0 <= row < N
      modifies board
      ensures forall r, c :: 0 <= r < N && 0 <= c < N ==>
        board[r, c] == if r == row then Piece(Pawn, color) else old(board[r, c])
    {
      for c := 0 to N
        invariant forall r, k :: 0 <= r < N && 0 <= k < N ==>
          board[r, k] == if r == row && k < c then Piece(Pawn, color) else old(board[r, k])
      {
        board[row, c] := Piece(Pawn, color);
      }
    }

    /** find_king: the first king of `color` in row-major order. */
    method FindKing(color: Color) returns (k: Option<Square>)
      requires Valid()
      ensures k == FirstKing(Snapshot(), color)
    {
      ghost var g := Snapshot();
      for row := 0 to N
        invariant FirstKingFrom(g, color, row, 0) == FirstKing(g, color)
      {
        for col := 0 to N
          invariant FirstKingFrom(g, color, row, col) == FirstKing(g, color)
        {
          if board[row, col] == Piece(King, color) {
            return Some(Square(row, col));
          }
        }
      }
      return None;
    }

    /** is_square_attacked: some piece of `attacker` passes its rule for a
        move onto `sq`. */
    method IsSquareAttacked(sq: Square, attacker: Color) returns (attacked: bool)
      requires Valid() && InBounds(sq)
      ensures attacked == Attacked(Snapshot(), sq, attacker)
    {
      var g := Snapshot();
      for row := 0 to N
        invariant forall x :: InBounds(x) && x.row < row ==> !Attacks(g, x, sq, attacker)
      {
        for col := 0 to N
          invariant forall x :: InBounds(x) && RowMajorLess(x, Square(row, col)) ==> !Attacks(g, x, sq, attacker)
        {
          var piece := board[row, col];
          if piece.Piece? && piece.color == attacker && ValidMove(piece.kind, piece.color, Square(row, col), sq, g) {
            assert Attacks(g, Square(row, col), sq, attacker);
            return true;
          }
        }
      }
      return false;
    }

    /** get_valid_moves: the moves of every piece of `color` that its
        rule accepts, in text form, scanning origins and then destinations
        row by row. Nothing is filtered for check. */
    method GetValidMoves(color: Color) returns (moves: seq<(string, string)>)
      requires Valid()
      ensures Formats(moves, MovePairs(Snapshot(), color))
    {
      var g := Snapshot();
      ghost var done: seq<(Square, Square)> := [];
      moves := [];
      for row := 0 to N
        invariant Formats(moves, done) && Ordered(done)
        invariant forall m :: m in done ==> RowMajorLess(m.0, Square(row, 0))
        invariant forall f, t :: InBounds(f) && InBounds(t) && RowMajorLess(f, Square(row, 0)) ==>
          ((f, t) in done <==> Attacks(g, f, t, color))
      {
        moves, done := ListRow(g, color, row, moves, done);
      }
      ListingIsMovePairs(g, color, done);
    }

    /** The middle loop of get_valid_moves: extends the listing of the rows
        before `row` with the moves of the pieces of `color` on `row`. */
    method ListRow(g: Grid, color: Color, row: int, moves0: seq<(string, string)>, ghost done0: seq<(Square, Square)>)
      returns (moves: seq<(string, string)>, ghost done: seq<(Square, Square)>)
      requires Valid() && g == Snapshot() && 0 <= row < N
      requires Formats(moves0, done0) && Ordered(done0)
      requires forall m :: m in done0 ==> RowMajorLess(m.0, Square(row, 0))
      requires forall f, t :: InBounds(f) && InBounds(t) && RowMajorLess(f, Square(row, 0)) ==>
        ((f, t) in done0 <==> Attacks(g, f, t, color))
      ensures Formats(moves, done) && Ordered(done)
      ensures forall m :: m in done ==> RowMajorLess(m.0, Square(row + 1, 0))
      ensures forall f, t :: InBounds(f) && InBounds(t) && RowMajorLess(f, Square(row + 1, 0)) ==>
        ((f, t) in done <==> Attacks(g, f, t, color))
    {
      moves, done := moves0, done0;
      for col := 0 to N
        invariant Formats(moves, done) && Ordered(done)
        invariant forall m :: m in done ==> RowMajorLess(m.0, Square(row, col))
        invariant forall f, t :: InBounds(f) && InBounds(t) && RowMajorLess(f, Square(row, col)) ==>
          ((f, t) in done <==> Attacks(g, f, t, color))
      {
        var f := Square(row, col);
        var piece := board[row, col];
        if piece.Piece? && piece.color == color {
          var texts, pairs := DestinationsOf(g, f, piece);
          ListingStep(g, color, done, pairs, row, col);
          FormatsAppend(moves, done, texts, pairs);
          moves := moves + texts;
          done := done + pairs;
        } else {
          ListingStep(g, color, done, [], row, col);
          assert done + [] == done;
        }
      }
    }

    /** The inner two loops of get_valid_moves for one origin `f` holding
        `piece`: every destination the piece's rule accepts, row-major. */
    method DestinationsOf(g: Grid, f: Square, piece: Cell) returns (texts: seq<(string, string)>, ghost pairs: seq<(Square, Square)>)
      requires IsGrid(g) && InBounds(f) && piece.Piece? && At(g, f) == piece
      ensures Formats(texts, pairs) && Ordered(pairs)
      ensures forall m :: m in pairs ==> m.0 == f
      ensures forall t :: InBounds(t) ==> ((f, t) in pairs <==> Attacks(g, f, t, piece.color))
    {
      texts, pairs := [], [];
      for r := 0 to N
        invariant Formats(texts, pairs) && Ordered(pairs)
        invariant forall m :: m in pairs ==> m.0 == f && RowMajorLess(m.1, Square(r, 0))
        invariant forall t :: InBounds(t) && RowMajorLess(t, Square(r, 0)) ==>
          ((f, t) in pairs <==> Attacks(g, f, t, piece.color))
      {
        for c := 0 to N
          invariant Formats(texts, pairs) && Ordered(pairs)
          invariant forall m :: m in pairs ==> m.0 == f && RowMajorLess(m.1, Square(r, c))
          invariant forall t :: InBounds(t) && RowMajorLess(t, Square(r, c)) ==>
            ((f, t) in pairs <==> Attacks(g, f, t, piece.color))
        {
          var t := Square(r, c);
          if ValidMove(piece.kind, piece.color, f, t, g) {
            ghost var next := pairs + [(f, t)];
            DestinationStep(g, piece.color, f, pairs, next, r, c);
            FormatsAppend(texts, pairs, [(FormatSquare(f), FormatSquare(t))], [(f, t)]);
            texts := texts + [(FormatSquare(f), FormatSquare(t))];
            pairs := next;
          } else {
            DestinationStep(g, piece.color, f, pairs, pairs, r, c);
          }
        }
      }
    }

    /** The two writes of a move, as make_move, is_in_check and
        is_checkmate perform them: the destination gets the origin's
        occupant, then the origin is emptied. */
    method Relocate(from: Square, to: Square)
      requires Valid() && InBounds(from) && InBounds(to)
      modifies board
      ensures Snapshot() == Apply(old(Snapshot()), from, to)
    {
      ghost var g := Snapshot();
      board[to.row, to.col] := board[from.row, from.col];
      board[from.row, from.col] := Empty;
      SameCells(Snapshot(), Apply(g, from, to));
    }

    /** The two writes that undo a relocation from `from` to `to`, given
        the occupants the two squares had before it. */
    method Restore(from: Square, to: Square, piece: Cell, target: Cell, ghost g: Grid)
      requires Valid() && IsGrid(g) && InBounds(from) && InBounds(to)
      requires Snapshot() == Apply(g, from, to) && piece == At(g, from) && target == At(g, to)
      modifies board
      ensures Snapshot() == g
    {
      board[from.row, from.col] := piece;
      board[to.row, to.col] := target;
      SameCells(Snapshot(), g);
    }

    /** is_in_check: makes the move on the board, asks whether the first
        king of `color` is attacked by the other colour, and puts the two
        squares back. */
    method IsInCheck(color: Color, from: Square, to: Square) returns (check: bool)
      requires Valid() && InBounds(from) && InBounds(to)
      requires CheckDefined(Snapshot(), color, from, to)
      modifies board
      ensures Snapshot() == old(Snapshot())
      ensures check == InCheckAfter(old(Snapshot()), color, from, to)
    {
      ghost var g := Snapshot();
      var piece := board[from.row, from.col];
      var target := board[to.row, to.col];
      assert piece == At(g, from) && target == At(g, to);
      Relocate(from, to);
      check := KingInCheck(color);
      Restore(from, to, piece, target, g);
    }

    /** The second half of is_in_check, on the board as it stands: the
        first king of `color` is asked about with the other colour as the
        attacker. */
    method KingInCheck(color: Color) returns (check: bool)
      requires Valid() && KingQueryDefined(Snapshot(), color)
      ensures check == KingAttacked(Snapshot(), color)
    {
      var kingPos := FindKing(color);
      if kingPos.Some? {
        check := IsSquareAttacked(kingPos.value, Opponent(color));
      } else {
        // No king: by the precondition the scan meets no piece of the other
        // colour, so it answers False.
        check := false;
      }
    }

    /** make_move: on a piece whose rule accepts the move and whose own
        king is not attacked afterwards, moves it and passes the turn;
        otherwise changes nothing. The turn flag is not consulted. */
    method MakeMove(fromSquare: string, toSquare: string) returns (ok: bool)
      requires Valid() && IsToken(fromSquare) && IsToken(toSquare)
      requires MoveDefined(Snapshot(), ParseSquare(fromSquare), ParseSquare(toSquare))
      modifies board, this`whiteTurn
      ensures ok == Accepts(old(Snapshot()), ParseSquare(fromSquare), ParseSquare(toSquare))
      ensures ok ==> Snapshot() == Apply(old(Snapshot()), ParseSquare(fromSquare), ParseSquare(toSquare))
                     && whiteTurn == !old(whiteTurn)
      ensures !ok ==> Snapshot() == old(Snapshot()) && whiteTurn == old(whiteTurn)
    {
      ghost var g := Snapshot();
      var from := ParseSquare(fromSquare);
      var to := ParseSquare(toSquare);
      var piece := board[from.row, from.col];
      if piece.Empty? || !ValidMove(piece.kind, piece.color, from, to, Snapshot()) {
        return false;
      }
      var check := IsInCheck(piece.color, from, to);
      if check {
        return false;
      }
      Relocate(from, to);
      whiteTurn := !whiteTurn;
      return true;
    }

    /** is_checkmate: for the side not to move, the first king is attacked
        and every king of that side is trapped, each neighbour being probed
        by moving the king there and asking is_square_attacked, always with
        that same side as the attacker. The board is restored after every
        probe. */
    method IsCheckmate() returns (mate: bool)
      requires Valid()
      modifies board
      ensures Snapshot() == old(Snapshot())
      ensures mate == CheckmateVerdict(old(Snapshot()), if whiteTurn then Black else White)
    {
      ghost var g := Snapshot();
      var color := if whiteTurn then Black else White;
      var kingPos := FindKing(color);
      if kingPos.None? {
        return false;
      }
      var attacked := IsSquareAttacked(kingPos.value, color);
      if !attacked {
        return false;
      }
      mate := ScanKings(color, g);
    }

    /** The two outer loops of is_checkmate's probe: every king of `color`
        on the board, in row-major order, until one has a safe neighbour. */
    method ScanKings(color: Color, ghost g: Grid) returns (all: bool)
      requires Valid() && Snapshot() == g
      modifies board
      ensures Snapshot() == g
      ensures all == AllTrapped(g, color)
    {
      for row := 0 to N
        invariant Snapshot() == g
        invariant KingsTrappedBefore(g, color, Square(row, 0))
      {
        for col := 0 to N
          invariant Snapshot() == g
          invariant KingsTrappedBefore(g, color, Square(row, col))
        {
          var piece := board[row, col];
          assert piece == At(g, Square(row, col));
          if piece == Piece(King, color) {
            var trapped := ProbeNeighbours(Square(row, col), color, g);
            if !trapped {
              KingEscapes(g, color, Square(row, col));
              return false;
            }
          }
          KingsStep(g, color, row, col);
        }
        KingsRowEnd(g, color, row);
      }
      KingsEnd(g, color);
      return true;
    }

    /** The two inner loops of is_checkmate for the king on `k`: each
        neighbour inside the board is tried in turn, and the first one not
        attacked by `attacker` ends the search. */
    method ProbeNeighbours(k: Square, attacker: Color, ghost g: Grid) returns (trapped: bool)
      requires Valid() && InBounds(k) && Snapshot() == g
      modifies board
      ensures Snapshot() == g
      ensures trapped == Trapped(g, k, attacker)
    {
      var lo, hi := Max(0, k.row - 1), Min(N, k.row + 2);
      var left, right := Max(0, k.col - 1), Min(N, k.col + 2);
      ProbeStart(g, k, attacker);
      for r := lo to hi
        invariant Snapshot() == g
        invariant ProbedBefore(g, k, attacker, Square(r, left))
      {
        for c := left to right
          invariant Snapshot() == g
          invariant ProbedBefore(g, k, attacker, Square(r, c))
        {
          var n := Square(r, c);
          if (r, c) != (k.row, k.col) {
            var attacked := ProbeSquare(k, n, attacker, g);
            if !attacked {
              ProbeEscape(g, k, attacker, n);
              return false;
            }
          }
          ProbeStep(g, k, attacker, r, c);
        }
        ProbeRowEnd(g, k, attacker, r);
      }
      ProbeEnd(g, k, attacker);
      return true;
    }

    /** One probe of is_checkmate: moves the occupant of `k` onto `n`, asks
        whether `n` is attacked by `attacker`, and puts both squares back. */
    method ProbeSquare(k: Square, n: Square, attacker: Color, ghost g: Grid) returns (attacked: bool)
      requires Valid() && InBounds(k) && InBounds(n) && Snapshot() == g
      modifies board
      ensures Snapshot() == g
      ensures attacked == Attacked(Apply(g, k, n), n, attacker)
    {
      var original := board[n.row, n.col];
      var king := board[k.row, k.col];
      Relocate(k, n);
      attacked := IsSquareAttacked(n, attacker);
      Restore(k, n, king, original, g);
    }
  }
}
