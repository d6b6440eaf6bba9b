/** The six piece movement rules of the nine-square chess engine.

    The source gives every piece class an `is_valid_move(start, end, board)`
    method; here a piece is a value of the closed datatype `Cell` and one
    dispatch function, `ValidMove`, picks the rule. The rules only read the
    board. Rook and Bishop scan the squares between origin and destination
    with a loop that returns early; that scan is modelled by the recursive
    predicates `SpanClear` and `DiagonalClear`, and the lemmas below prove
    them equal to an independent definition ("every square strictly between
    is empty"). */
module Pieces {

  /** The board is a 9 by 9 grid: the source hard-codes 9 in every loop. */
  const N: int := 9

  datatype Color = White | Black

  datatype Kind = Pawn | Rook | Knight | Bishop | Queen | King

  /** An occupant: the source stores the string '.' for an empty square. */
  datatype Cell = Empty | Piece(kind: Kind, color: Color)

  datatype Square = Square(row: int, col: int)

  /** A snapshot of the board, row by row. */
  type Grid = seq<seq<Cell>>

  ghost predicate IsGrid(g: Grid) {
    |g| == N && forall r :: 0 <= r < N ==> |g[r]| == N
  }

  predicate InBounds(s: Square) {
    0 <= s.row < N && 0 <= s.col < N
  }

  /** The 81 squares of the board. */
  function Squares(): (squares: set<Square>)
    ensures forall s :: s in squares <==> InBounds(s)
  {
    set r, c | 0 <= r < N && 0 <= c < N :: Square(r, c)
  }

  function At(g: Grid, s: Square): Cell
    requires IsGrid(g) && InBounds(s)
  {
    g[s.row][s.col]
  }

  function Opponent(c: Color): (o: Color)
    ensures o != c
  {
    if c == White then Black else White
  }

  function Abs(x: int): nat {
    if x < 0 then -x else x
  }

  /** The loop step the source picks: 1 towards a larger index, -1 otherwise
      (also when the two indices are equal). */
  function Step(from: int, to: int): int {
    if from < to then 1 else -1
  }

  /** `x + i * step` for a step of 1 or -1. */
  function Along(x: int, i: int, step: int): int {
    if step == 1 then x + i else x - i
  }

  // ---------------------------------------------------------------------
  // Pawn
  // ---------------------------------------------------------------------

  /** White pawns move towards higher rows, black pawns towards lower rows. */
  function Direction(c: Color): int {
    if c == White then 1 else -1
  }

  /** The only row a two-step is allowed from. Black pawns are placed on
      row 7, so a black pawn never qualifies from its starting square. */
  function DoubleStepRow(c: Color): int {
    if c == White then 1 else 6
  }

  /** One step forward onto an empty square, two steps forward from the
      double-step row onto an empty square (the square passed over is not
      looked at), or one diagonal step forward onto an opposing piece. */
  predicate PawnMove(g: Grid, color: Color, s: Square, e: Square): (ok: bool)
    requires IsGrid(g) && InBounds(s) && InBounds(e)
    ensures ok ==> s != e && !(At(g, e).Piece? && At(g, e).color == color)
  {
    var dir := Direction(color);
    (s.col == e.col && At(g, e) == Empty && e.row == s.row + dir)
    || (s.col == e.col && At(g, e) == Empty && e.row == s.row + 2 * dir && s.row == DoubleStepRow(color))
    || (Abs(s.col - e.col) == 1 && e.row == s.row + dir && At(g, e).Piece? && At(g, e).color != color)
  }

  // ---------------------------------------------------------------------
  // Rook
  // ---------------------------------------------------------------------

  /** The loop `for x in range(x, to, step)` over one line of cells (a row,
      or a column), failing at the first non-empty cell. `x - step` is the
      origin square, which is never looked at. */
  predicate SpanClear(line: seq<Cell>, x: int, to: int, step: int)
    requires step == 1 || step == -1
    requires 0 <= x - step < |line| && 0 <= to < |line|
    decreases if step == 1 then to - x else x - to
  {
    if (step == 1 && x >= to) || (step == -1 && x <= to) then true
    else line[x] == Empty && SpanClear(line, x + step, to, step)
  }

  /** Column `col` of the grid, top to bottom. */
  function Column(g: Grid, col: int): (line: seq<Cell>)
    requires IsGrid(g) && 0 <= col < N
    ensures |line| == N
    ensures forall r :: 0 <= r < N ==> line[r] == g[r][col]
  {
    seq(N, r requires 0 <= r < N => g[r][col])
  }

  /** Same row or same column, scanning the squares in between. */
  predicate RookMove(g: Grid, s: Square, e: Square): (ok: bool)
    requires IsGrid(g) && InBounds(s) && InBounds(e)
    ensures ok ==> s.row == e.row || s.col == e.col
    ensures s.row == e.row && Abs(s.col - e.col) <= 1 ==> ok
    ensures s.col == e.col && Abs(s.row - e.row) <= 1 ==> ok
  {
    if s.row != e.row && s.col != e.col then false
    else
      (s.row == e.row ==> SpanClear(g[s.row], s.col + Step(s.col, e.col), e.col, Step(s.col, e.col)))
      && (s.col == e.col ==> SpanClear(Column(g, s.col), s.row + Step(s.row, e.row), e.row, Step(s.row, e.row)))
  }

  // ---------------------------------------------------------------------
  // Knight
  // ---------------------------------------------------------------------

  predicate KnightMove(s: Square, e: Square): (ok: bool)
    ensures ok ==> s.row != e.row && s.col != e.col && Abs(s.row - e.row) != Abs(s.col - e.col)
  {
    var dr, dc := Abs(s.row - e.row), Abs(s.col - e.col);
    (dr == 2 && dc == 1) || (dr == 1 && dc == 2)
  }

  // ---------------------------------------------------------------------
  // Bishop
  // ---------------------------------------------------------------------

  /** The loop `for i in range(i, n)` of the bishop rule: the cell at
      `s + i * (rs, cs)` must be empty. */
  predicate DiagonalClear(g: Grid, s: Square, rs: int, cs: int, i: int, n: int)
    requires IsGrid(g) && InBounds(s)
    requires (rs == 1 || rs == -1) && (cs == 1 || cs == -1)
    requires 1 <= i && 0 <= n
    requires InBounds(Square(Along(s.row, n, rs), Along(s.col, n, cs)))
    decreases n - i
  {
    if i >= n then true
    else At(g, Square(Along(s.row, i, rs), Along(s.col, i, cs))) == Empty
         && DiagonalClear(g, s, rs, cs, i + 1, n)
  }

  /** Equal row and column distance, scanning the squares in between.
      A null move (s == e) passes. */
  predicate BishopMove(g: Grid, s: Square, e: Square): (ok: bool)
    requires IsGrid(g) && InBounds(s) && InBounds(e)
    ensures ok ==> s == e || (s.row != e.row && s.col != e.col)
    ensures Abs(s.row - e.row) == 1 && Abs(s.col - e.col) == 1 ==> ok
  {
    Abs(s.row - e.row) == Abs(s.col - e.col)
    && DiagonalClear(g, s, Step(s.row, e.row), Step(s.col, e.col), 1, Abs(s.row - e.row))
  }

  // ---------------------------------------------------------------------
  // King and dispatch
  // ---------------------------------------------------------------------

  predicate KingMove(s: Square, e: Square): (ok: bool)
    ensures ok ==> !KnightMove(s, e)
    ensures s == e ==> ok
  {
    Abs(s.row - e.row) <= 1 && Abs(s.col - e.col) <= 1
  }

  /** The rule of a piece of `kind` and `color` standing on `s`, asked about
      a move to `e`. Queen is Rook or Bishop. */
  predicate ValidMove(kind: Kind, color: Color, s: Square, e: Square, g: Grid): (ok: bool)
    requires IsGrid(g) && InBounds(s) && InBounds(e)
    ensures ok && kind != Knight ==>
      s.row == e.row || s.col == e.col || Abs(s.row - e.row) == Abs(s.col - e.col)
    ensures ok && kind == Knight ==> !(s.row == e.row || s.col == e.col || Abs(s.row - e.row) == Abs(s.col - e.col))
  {
    match kind
    case Pawn => PawnMove(g, color, s, e)
    case Rook => RookMove(g, s, e)
    case Knight => KnightMove(s, e)
    case Bishop => BishopMove(g, s, e)
    case Queen => RookMove(g, s, e) || BishopMove(g, s, e)
    case King => KingMove(s, e)
  }

  // ---------------------------------------------------------------------
  // Reference definitions and the lemmas tying the rules to them
  // ---------------------------------------------------------------------

  /** `x` lies strictly between `a` and `b`. */
  predicate Between(a: int, x: int, b: int) {
    (a < x < b) || (b < x < a)
  }

  /** `x` lies strictly inside the straight segment from `s` to `e` along a
      row, a column or a diagonal. */
  predicate StrictlyBetween(s: Square, e: Square, x: Square) {
    (x.row == s.row == e.row && Between(s.col, x.col, e.col))
    || (x.col == s.col == e.col && Between(s.row, x.row, e.row))
    || (Between(s.row, x.row, e.row) && Between(s.col, x.col, e.col)
        && Abs(x.row - s.row) == Abs(x.col - s.col))
  }

  ghost predicate PathEmpty(g: Grid, s: Square, e: Square)
    requires IsGrid(g)
  {
    forall x :: InBounds(x) && StrictlyBetween(s, e, x) ==> At(g, x) == Empty
  }

  /** The grid with one square overwritten. */
  function Put(g: Grid, s: Square, c: Cell): (h: Grid)
    requires IsGrid(g) && InBounds(s)
    ensures IsGrid(h)
    ensures At(h, s) == c
    ensures forall x :: InBounds(x) && x != s ==> At(h, x) == At(g, x)
  {
    g[s.row := g[s.row][s.col := c]]
  }

  /** The indices the source's `range(x, to, step)` visits. */
  predicate InRange(y: int, x: int, to: int, step: int) {
    if step == 1 then x <= y < to else to < y <= x
  }

  lemma {:induction false} SpanClearIff(line: seq<Cell>, x: int, to: int, step: int)
    requires step == 1 || step == -1
    requires 0 <= x - step < |line| && 0 <= to < |line|
    ensures SpanClear(line, x, to, step)
        <==> forall y :: 0 <= y < |line| && InRange(y, x, to, step) ==> line[y] == Empty
    decreases if step == 1 then to - x else x - to
  {
    if (step == 1 && x >= to) || (step == -1 && x <= to) {
    } else {
      SpanClearIff(line, x + step, to, step);
    }
  }

  lemma {:induction false} DiagonalClearIff(g: Grid, s: Square, rs: int, cs: int, i: int, n: int)
    requires IsGrid(g) && InBounds(s)
    requires (rs == 1 || rs == -1) && (cs == 1 || cs == -1)
    requires 1 <= i && 0 <= n
    requires InBounds(Square(Along(s.row, n, rs), Along(s.col, n, cs)))
    ensures DiagonalClear(g, s, rs, cs, i, n)
        <==> forall k :: i <= k < n ==> At(g, Square(Along(s.row, k, rs), Along(s.col, k, cs))) == Empty
    decreases n - i
  {
    if i < n {
      DiagonalClearIff(g, s, rs, cs, i + 1, n);
    }
  }

  /** The rook accepts exactly the moves along its row or column whose
      in-between squares are all empty; the destination is not inspected. */
  lemma RookMoveIff(g: Grid, s: Square, e: Square)
    requires IsGrid(g) && InBounds(s) && InBounds(e)
    ensures RookMove(g, s, e) <==> (s.row == e.row || s.col == e.col) && PathEmpty(g, s, e)
  {
    if s.row == e.row {
      var step := Step(s.col, e.col);
      SpanClearIff(g[s.row], s.col + step, e.col, step);
      if SpanClear(g[s.row], s.col + step, e.col, step) {
        forall x | InBounds(x) && StrictlyBetween(s, e, x) ensures At(g, x) == Empty {
          assert x.row == s.row && InRange(x.col, s.col + step, e.col, step);
        }
      } else if PathEmpty(g, s, e) {
        forall y | 0 <= y < N && InRange(y, s.col + step, e.col, step) ensures g[s.row][y] == Empty {
          assert StrictlyBetween(s, e, Square(s.row, y));
        }
      }
    }
    if s.col == e.col {
      var step := Step(s.row, e.row);
      var line := Column(g, s.col);
      SpanClearIff(line, s.row + step, e.row, step);
      if SpanClear(line, s.row + step, e.row, step) {
        forall x | InBounds(x) && StrictlyBetween(s, e, x) ensures At(g, x) == Empty {
          assert x.col == s.col && InRange(x.row, s.row + step, e.row, step);
          assert line[x.row] == Empty;
        }
      } else if PathEmpty(g, s, e) {
        forall y | 0 <= y < N && InRange(y, s.row + step, e.row, step) ensures line[y] == Empty {
          assert StrictlyBetween(s, e, Square(y, s.col));
        }
      }
    }
  }

  /** The bishop accepts exactly the moves along a diagonal (or the null
      move) whose in-between squares are all empty; the destination is not
      inspected. */
  lemma BishopMoveIff(g: Grid, s: Square, e: Square)
    requires IsGrid(g) && InBounds(s) && InBounds(e)
    ensures BishopMove(g, s, e) <==> Abs(s.row - e.row) == Abs(s.col - e.col) && PathEmpty(g, s, e)
  {
    if Abs(s.row - e.row) == Abs(s.col - e.col) {
      var rs, cs, n := Step(s.row, e.row), Step(s.col, e.col), Abs(s.row - e.row);
      DiagonalClearIff(g, s, rs, cs, 1, n);
      forall x | InBounds(x) && StrictlyBetween(s, e, x)
        ensures var k := Abs(x.row - s.row); 1 <= k < n && x == Square(Along(s.row, k, rs), Along(s.col, k, cs))
      {
        DiagonalOffsetOf(s, e, x);
      }
      forall k | 1 <= k < n
        ensures var x := Square(Along(s.row, k, rs), Along(s.col, k, cs)); InBounds(x) && StrictlyBetween(s, e, x)
      {
        DiagonalSquareAt(s, e, k);
      }
    }
  }

  /** A square strictly inside the diagonal from `s` to `e` lies at offset
      `k` along it, for some `k` strictly between 0 and the distance. */
  lemma DiagonalOffsetOf(s: Square, e: Square, x: Square)
    requires InBounds(s) && InBounds(e) && Abs(s.row - e.row) == Abs(s.col - e.col)
    requires StrictlyBetween(s, e, x)
    ensures var k, rs, cs := Abs(x.row - s.row), Step(s.row, e.row), Step(s.col, e.col);
            1 <= k < Abs(s.row - e.row) && x == Square(Along(s.row, k, rs), Along(s.col, k, cs))
  {
  }

  /** The square at offset `k` along the diagonal from `s` to `e` lies on
      the board, strictly between them. */
  lemma DiagonalSquareAt(s: Square, e: Square, k: int)
    requires InBounds(s) && InBounds(e) && Abs(s.row - e.row) == Abs(s.col - e.col)
    requires 1 <= k < Abs(s.row - e.row)
    ensures var x := Square(Along(s.row, k, Step(s.row, e.row)), Along(s.col, k, Step(s.col, e.col)));
            InBounds(x) && StrictlyBetween(s, e, x)
  {
  }

  /** Neither the rook nor the bishop (hence nor the queen) looks at the
      destination square: own-colour captures pass. */
  lemma SlidersIgnoreDestination(g: Grid, s: Square, e: Square, c: Cell)
    requires IsGrid(g) && InBounds(s) && InBounds(e)
    ensures RookMove(Put(g, e, c), s, e) == RookMove(g, s, e)
    ensures BishopMove(Put(g, e, c), s, e) == BishopMove(g, s, e)
  {
    var h := Put(g, e, c);
    RookMoveIff(g, s, e);
    RookMoveIff(h, s, e);
    BishopMoveIff(g, s, e);
    BishopMoveIff(h, s, e);
    assert PathEmpty(h, s, e) == PathEmpty(g, s, e) by {
      forall x | InBounds(x) && StrictlyBetween(s, e, x) ensures At(h, x) == At(g, x) {
        assert x != e;
      }
    }
  }

  /** A blocker strictly between the endpoints makes the rook and the
      bishop (hence the queen) reject. */
  lemma SlidersBlocked(g: Grid, s: Square, e: Square, x: Square)
    requires IsGrid(g) && InBounds(s) && InBounds(e) && InBounds(x)
    requires StrictlyBetween(s, e, x) && At(g, x) != Empty
    ensures !RookMove(g, s, e) && !BishopMove(g, s, e)
  {
    RookMoveIff(g, s, e);
    BishopMoveIff(g, s, e);
  }

  /** The knight ignores the board: it accepts exactly the eight L-shaped
      offsets. */
  lemma KnightMoveIff(g: Grid, s: Square, e: Square)
    requires IsGrid(g) && InBounds(s) && InBounds(e)
    ensures ValidMove(Knight, White, s, e, g) == ValidMove(Knight, Black, s, e, g)
    ensures ValidMove(Knight, White, s, e, g)
        <==> (e.row - s.row, e.col - s.col) in
             {(2, 1), (2, -1), (-2, 1), (-2, -1), (1, 2), (1, -2), (-1, 2), (-1, -2)}
  {
  }

  /** The king accepts exactly the nine squares at distance at most one in
      both directions, its own square included, whatever is on them. */
  lemma KingMoveIff(g: Grid, color: Color, s: Square, e: Square)
    requires IsGrid(g) && InBounds(s) && InBounds(e)
    ensures ValidMove(King, color, s, e, g)
        <==> e.row - s.row in {-1, 0, 1} && e.col - s.col in {-1, 0, 1}
  {
  }

  /** Rook, Bishop, Queen and King all accept the null move `s == e`. */
  lemma NullMoveAccepted(g: Grid, kind: Kind, color: Color, s: Square)
    requires IsGrid(g) && InBounds(s)
    requires kind in {Rook, Bishop, Queen, King}
    ensures ValidMove(kind, color, s, s, g)
  {
    RookMoveIff(g, s, s);
    BishopMoveIff(g, s, s);
  }

  /** Every square the pawn accepts is one step forward, two steps forward
      or one diagonal step forward, and never holds a piece of the pawn's
      own colour. */
  lemma PawnDestinations(g: Grid, color: Color, s: Square, e: Square)
    requires IsGrid(g) && InBounds(s) && InBounds(e)
    requires ValidMove(Pawn, color, s, e, g)
    ensures var d := Direction(color);
            e in {Square(s.row + d, s.col), Square(s.row + 2 * d, s.col),
                  Square(s.row + d, s.col + 1), Square(s.row + d, s.col - 1)}
    ensures !(At(g, e).Piece? && At(g, e).color == color)
  {
  }

  /** From the two-step row the pawn's forward destinations are exactly the
      one-step square if it is empty and the two-step square if it is empty;
      neither depends on the other, so a piece on the passed square leaves
      the two-step open. */
  lemma PawnForwardFromStart(g: Grid, color: Color, s: Square)
    requires IsGrid(g) && InBounds(s) && s.row == DoubleStepRow(color)
    ensures var one, two := Square(s.row + Direction(color), s.col), Square(s.row + 2 * Direction(color), s.col);
            InBounds(one) && InBounds(two)
            && (set e | e in Squares() && e.col == s.col && ValidMove(Pawn, color, s, e, g))
               == (if At(g, one) == Empty then {one} else {}) + (if At(g, two) == Empty then {two} else {})
  {
    var one, two := Square(s.row + Direction(color), s.col), Square(s.row + 2 * Direction(color), s.col);
    var accepted := set e | e in Squares() && e.col == s.col && ValidMove(Pawn, color, s, e, g);
    var expected := (if At(g, one) == Empty then {one} else {}) + (if At(g, two) == Empty then {two} else {});
    forall e | e in accepted ensures e in expected {
      PawnDestinations(g, color, s, e);
    }
    forall e | e in expected ensures e in accepted {
      assert e in Squares();
    }
  }

  /** From any row, the one step forward is accepted exactly onto an empty
      square: a pawn never captures straight ahead. */
  lemma PawnOneStep(g: Grid, color: Color, s: Square)
    requires IsGrid(g) && InBounds(s)
    requires InBounds(Square(s.row + Direction(color), s.col))
    ensures var one := Square(s.row + Direction(color), s.col);
            ValidMove(Pawn, color, s, one, g) <==> At(g, one) == Empty
  {
  }

  /** A diagonal step forward is accepted exactly when it lands on a piece
      of the other colour: the only pawn test that reads a colour. */
  lemma PawnDiagonalCapture(g: Grid, color: Color, s: Square, e: Square)
    requires IsGrid(g) && InBounds(s) && InBounds(e)
    requires e.row == s.row + Direction(color) && Abs(e.col - s.col) == 1
    ensures ValidMove(Pawn, color, s, e, g) <==> At(g, e).Piece? && At(g, e).color == Opponent(color)
  {
  }

  /** The two-step is accepted exactly from the double-step row onto an
      empty square, and refused from every other row. */
  lemma PawnTwoStepOnlyFromStart(g: Grid, color: Color, s: Square)
    requires IsGrid(g) && InBounds(s)
    requires InBounds(Square(s.row + 2 * Direction(color), s.col))
    ensures var two := Square(s.row + 2 * Direction(color), s.col);
            ValidMove(Pawn, color, s, two, g) <==> s.row == DoubleStepRow(color) && At(g, two) == Empty
  {
  }

  lemma PawnIgnoresPassedSquare(g: Grid, color: Color, s: Square, c: Cell)
    requires IsGrid(g) && InBounds(s)
    requires InBounds(Square(s.row + 2 * Direction(color), s.col))
    ensures var passed := Square(s.row + Direction(color), s.col);
            var e := Square(s.row + 2 * Direction(color), s.col);
            ValidMove(Pawn, color, s, e, Put(g, passed, c)) == ValidMove(Pawn, color, s, e, g)
  {
  }
}
