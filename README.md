# Nine-square chess engine, modelled in Dafny

The engine of `nine-square-chess-py` is a two-player console chess game on a
9x9 board. Rows 0..8 run from White's back rank to Black's. Columns 0..8
appear in move text as the letters `a`..`i`. A square is written as a letter
followed by the digit `8 - row`.

The engine has two parts, and this model covers both:

- **Piece rules.** Each of six piece classes answers `is_valid_move(start, end, board)`.
- **The `ChessBoard` class.** It holds the grid and the turn flag and sets up
  the starting position. It parses and formats squares, finds kings, tests
  whether a square is attacked and lists every move a colour's pieces accept.
  It validates and applies a move: a speculative move, a check test, then
  putting the board back. It also answers the checkmate question.

The model has five modules:

- `Pieces` (`pieces.dfy`): the piece kinds, colours and cells, and one rule
  per kind behind the `ValidMove` dispatch. Rook and Bishop scan the squares
  between origin and destination. That scan is written as a recursive
  predicate that follows the source's `range` loop. Lemmas prove it equal to
  an independent definition: every square strictly between is empty.
- `Notation` (`notation.dfy`): `parse_square` and `format_square`, and the
  round trip between them.
- `Position` (`position.dfy`): the board-level meaning of each `ChessBoard`
  method, as functions and predicates of a snapshot of the grid:
  - the two writes of a move (`Apply`);
  - "attacked" (`Attacked`);
  - the first king in scan order (`FirstKing`);
  - `make_move`'s verdict (`Accepts`);
  - the move list (`MovePairs`);
  - the checkmate verdict (`CheckmateVerdict`).

  It also holds the properties of these.
- `Layout` (`layout.dfy`): the starting position.
- `Chess` (`chess_board.dfy`): the class `ChessBoard`.
  - State: an `array2<Cell>` and a `bool` turn flag.
  - Each method has the loops of the source, and is proved to return, or to
    leave on the board, exactly what the `Position` functions say.
  - Methods that write speculatively are proved to leave the board as they
    found it.

The model keeps the behaviour of the code, including where it is surprising:

- Rook, Bishop, Queen, King and Knight never look at the destination square,
  so they accept captures of their own colour (`SlidersIgnoreDestination`,
  `KnightMoveIff`, `KingMoveIff`).
- Rook, Bishop, Queen and King accept the null move from a square to itself.
  When made, it deletes the piece, because the destination is written before
  the origin is emptied (`NullMoveAccepted`, `NullMoveDeletesPiece`).
- Pawns:
  - a pawn's two-step does not look at the square passed over
    (`PawnIgnoresPassedSquare`);
  - black pawns start on row 7 but may two-step only from row 6, so no black
    pawn can two-step from the start (`InitialDoubleSteps`).
- `make_move` does not consult the turn flag, so either colour may move at
  any time.
- `is_in_check` when no king is found after the speculative move:
  - it then asks `is_square_attacked` about the square `None`;
  - this raises an error as soon as one piece of the other colour is on the
    board, and returns False otherwise;
  - a null move of a king reaches this path (`KingNullMoveLosesKing`);
  - the model excludes exactly these crashing inputs: `KingQueryDefined` for
    the king query on its own, `CheckDefined` for `is_in_check` and
    `MoveDefined` for `make_move`. `InCheckAfter`, `KingAttacked` and
    `Accepts` are defined only on those inputs.
- `is_checkmate` uses one colour both for the king and for the attacker. A
  king accepts a move onto its own square, so every probe finds the king
  "attacked" by itself. The verdict is therefore true exactly when a king of
  the examined colour is on the board (`CheckmateIffKingPresent`), already in
  the starting position (`InitialVerdict`).

In each of these cases the model follows the code.

## Model

| member | source | states |
|---|---|---|
| Pieces.ValidMove | main.py:84-87 | the dispatch to the six rules, the queen accepting what the rook or the bishop accepts; every accepted move other than a knight's lies on a row, a column or a diagonal, and no knight move does |
| Pieces.PawnMove | main.py:14-31 | an accepted pawn move never stays on its square and never lands on a piece of the pawn's own colour |
| Pieces.RookMove | main.py:35-54 | an accepted rook move stays on the row or the column, and a step to an adjacent square of the row or column is always accepted, whatever stands there |
| Pieces.KnightMove | main.py:58-64 | an accepted knight move changes both row and column and is not diagonal |
| Pieces.BishopMove | main.py:68-82 | an accepted bishop move is the null move or changes both row and column, and a one-square diagonal step is always accepted, whatever stands there |
| Pieces.KingMove | main.py:91-95 | the king accepts its own square and never a knight's offset |
| Pieces.PawnDestinations | main.py:14-31 | every square the pawn accepts is one or two steps forward or one diagonal step forward, and never holds a piece of the pawn's own colour |
| Pieces.PawnForwardFromStart | main.py:20-25 | from the two-step row the forward squares the pawn accepts are exactly the one-step square if empty and the two-step square if empty, independently of each other |
| Pieces.PawnOneStep | main.py:20-21 | from any row, the one step forward is accepted exactly when that square is empty, so a pawn never captures straight ahead |
| Pieces.PawnDiagonalCapture | main.py:28-29 | a diagonal step forward is accepted exactly when the square holds a piece of the other colour |
| Pieces.PawnTwoStepOnlyFromStart | main.py:24-25 | the two-step is accepted exactly from row 1 (White) or row 6 (Black) onto an empty square, and refused from every other row |
| Pieces.PawnIgnoresPassedSquare | main.py:23-25 | the two-step verdict is the same whatever occupies the square passed over |
| Pieces.SpanClearIff | main.py:42-52 | the rook's early-return scan over `range(x, to, step)` succeeds exactly when every cell at the visited indices is empty |
| Pieces.RookMoveIff | main.py:35-54 | the rook accepts exactly the moves along its row or its column with every square strictly between empty, the destination not inspected |
| Pieces.KnightMoveIff | main.py:58-64 | the knight ignores colour and board and accepts exactly the eight L-shaped offsets |
| Pieces.DiagonalClearIff | main.py:78-80 | the bishop's early-return scan over `range(1, n)` succeeds exactly when every cell at those offsets along the diagonal is empty |
| Pieces.BishopMoveIff | main.py:68-82 | the bishop accepts exactly the moves with equal row and column distance with every square strictly between empty, the destination not inspected |
| Pieces.KingMoveIff | main.py:91-95 | the king accepts exactly the squares at distance at most one in both directions, its own square included, whatever is on them |
| Pieces.SlidersIgnoreDestination | main.py:35-87 | overwriting the destination square changes neither the rook's nor the bishop's verdict (so neither the queen's): own-colour captures pass |
| Pieces.SlidersBlocked | main.py:42-80 | any occupied square strictly between origin and destination makes the rook and the bishop reject |
| Pieces.NullMoveAccepted | main.py:35-95 | rook, bishop, queen and king accept a move from a square to itself |
| Notation.ParseSquare | main.py:166-169 | the row is 8 minus the digit, the column is the letter minus 'a', and the square is on the board |
| Notation.FormatSquare | main.py:143-144 | the token has two characters, is a well-formed token, and parses back to the square |
| Notation.FormatParse | main.py:143-169 | formatting a parsed token gives back its first two characters |
| Notation.FormatInjective | main.py:143-144 | distinct squares get distinct tokens |
| Layout.Setup | main.py:103-124 | the back-rank pieces on columns 0..7 of rows 0 and 8, pawns on all of rows 1 and 7, and every other square as it was |
| Layout.InitialKings | main.py:103-124 | each colour has exactly one king, on column 4 of its back rank, and the king search finds it |
| Layout.InitialRows | main.py:98-124 | column 8 of the back ranks and rows 2..6 are empty, rows 1 and 7 are full of pawns |
| Layout.InitialDoubleSteps | main.py:24-25 | from the start every white pawn may two-step and no black pawn may |
| Layout.InitialVerdict | main.py:205-226 | the checkmate verdict holds for both colours in the starting position |
| Position.Apply | main.py:161-162 | after the two writes of a move the origin is empty, the destination holds the mover when it differs from the origin, and nothing else changes |
| Position.FirstKing | main.py:188-194 | the result is a king of the colour with no such king before it in row-major order, and None exactly when the colour has no king |
| Position.AcceptedMoveLeavesKingSafe | main.py:155-158 | after an accepted move, if the mover has a king, the first one is not attacked by the other colour |
| Position.NullMoveDeletesPiece | main.py:146-164 | on boards where make_move does not crash, a null move of a rook, bishop or queen is accepted unless the mover's king is then attacked, and when made it empties the square and changes nothing else |
| Position.KingNullMoveLosesKing | main.py:171-180 | a null move of a colour's only king passes the king's rule and leaves no king of that colour for find_king |
| Position.Reach | main.py:137-139 | a square is a destination exactly when it is on the board and the rule of the piece on the origin accepts it |
| Position.MovePairsSound | main.py:133-140 | every listed pair starts on or after the scan position, on a square holding a piece of the colour, and ends on a destination the `reach` map gives for that origin (the squares its rule accepts when `reach` is `ReachMap(g)`, see `MovePairsIff`) |
| Position.MovePairsComplete | main.py:133-140 | for every origin on or after the scan position holding a piece of the colour, every destination the `reach` map gives for it is listed (the squares its rule accepts when `reach` is `ReachMap(g)`, see `MovePairsIff`) |
| Position.MovePairsIff | main.py:131-141 | a pair is listed exactly when both squares are on the board, the origin holds a piece of the colour and that piece's rule accepts the move |
| Position.MovePairsOrdered | main.py:133-140 | the list is in row-major order of origin, then destination, and holds no pair twice |
| Position.NullMovesListed | main.py:131-141 | every rook, bishop, queen and king of the colour has its null move listed |
| Position.ListingIsMovePairs | main.py:131-141 | any ordered list holding exactly the accepted pairs is the move list |
| Position.CheckmateIffKingPresent | main.py:205-226 | the checkmate verdict for a colour holds exactly when a king of that colour is on the board |
| Chess.ChessBoard.constructor | main.py:98-101 | the new board holds the starting position and White is to move |
| Chess.ChessBoard.InitializeBoard | main.py:103-124 | the board becomes the starting layout written over the previous contents |
| Chess.ChessBoard.PlaceBackRank | main.py:105-112 | columns 0..7 of the row get rook, knight, bishop, queen, king, bishop, knight, rook of the colour, every other square unchanged |
| Chess.ChessBoard.FillPawns | main.py:113 | the whole row gets pawns of the colour, every other square unchanged |
| Chess.ChessBoard.FindKing | main.py:188-194 | returns the first king of the colour in row-major order, or None |
| Chess.ChessBoard.IsSquareAttacked | main.py:196-203 | returns true exactly when some piece of the attacking colour has a rule that accepts a move onto the square |
| Chess.ChessBoard.GetValidMoves | main.py:131-141 | returns, in text form and in scan order, exactly the move list |
| Chess.ChessBoard.ListRow | main.py:134-140 | extends a listing of the rows before `row` to a listing of the rows up to and including it |
| Chess.ChessBoard.DestinationsOf | main.py:137-140 | returns, in order, exactly the destinations the piece's rule accepts from the origin |
| Chess.ChessBoard.Relocate | main.py:161-162 | the board becomes the two writes of the move applied to it |
| Chess.ChessBoard.Restore | main.py:183-184 | writing back the two saved occupants restores the board from before the move |
| Chess.ChessBoard.KingInCheck | main.py:179-180 | returns whether the first king of the colour is attacked by the other colour; false when there is no king, which the source answers only when the other colour has no piece either |
| Chess.ChessBoard.IsInCheck | main.py:171-186 | returns whether the mover's first king is attacked after the speculative move, and leaves the board unchanged |
| Chess.ChessBoard.MakeMove | main.py:146-164 | succeeds exactly when the origin holds a piece whose rule accepts the move and whose king is not attacked afterwards; on success the move is applied and the turn passes, otherwise nothing changes |
| Chess.ChessBoard.IsCheckmate | main.py:205-226 | returns the checkmate verdict for the side not to move, and leaves the board unchanged |
| Chess.ChessBoard.ScanKings | main.py:211-226 | returns whether every king of the colour has each neighbour attacked after moving there, and leaves the board unchanged |
| Chess.ChessBoard.ProbeNeighbours | main.py:213-224 | returns whether every neighbour of the square, clipped to the board, is attacked once the occupant is moved there, and leaves the board unchanged |
| Chess.ChessBoard.ProbeSquare | main.py:216-224 | returns whether the neighbour is attacked once the occupant is moved onto it, and puts both squares back |

## Left out

- The console loop `main` (main.py:228-258), `print_board` and the messages printed by `make_move` are input and output and are not modelled.
- The class hierarchy `ChessPiece`, its subclasses, `symbol` and `__str__` become the closed datatype `Cell`. The string `'.'` becomes `Empty`, and `isinstance` tests become constructor tests.
- Chess.ChessBoard.MakeMove: requires both tokens to start with a letter `a`..`i` followed by an ASCII digit `0`..`8`. On other tokens the source may raise an error, or read the wrong row or column through Python's negative indexing. A non-ASCII decimal digit in second place, such as `'３'`, is read by Python's `int` as its value, so such a token names the same square as the ASCII digit. None of these inputs is modelled.
- Chess.ChessBoard.MakeMove: requires `MoveDefined`. The source raises an error when the speculative move leaves no king of the mover's colour while the other colour still has a piece. That error path is not modelled.
- Chess.ChessBoard.IsInCheck: requires `CheckDefined`, which excludes the same error path.
- Chess.ChessBoard.KingInCheck: requires `KingQueryDefined`: with no king of the colour, the source raises an error as soon as it meets a piece of the other colour.
- Chess.ChessBoard.FillPawns: the source replaces the whole row list at once (main.py:113 and 124); the model writes the nine cells one by one, which gives the same board.
- Chess.ChessBoard.Relocate and Chess.ChessBoard.Restore: `make_move`, `is_in_check` and `is_checkmate` perform these two writes inline; the model factors them out as helper methods.
- The queen builds a fresh Rook and a fresh Bishop to ask them; the model takes the disjunction of the two rules directly.
- Chess.ChessBoard.GetValidMoves: the source returns a Python list of string pairs; the model returns a sequence of `string` pairs.
