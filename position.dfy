/** Board-level specifications: what the ChessBoard methods compute, stated
    as functions of a board snapshot, with the properties the engine's
    behaviour has. The class in module Chess is proved against these. */
module Position {
  import opened Pieces
  import opened Notation

  datatype Option<T> = None | Some(value: T)

  /** Row-major order of squares: the order of the source's `for row` /
      `for col` scans. */
  predicate RowMajorLess(a: Square, b: Square) {
    a.row < b.row || (a.row == b.row && a.col < b.col)
  }

  /** Two snapshots that agree on every square are the same snapshot. */
  lemma SameCells(g: Grid, h: Grid)
    requires IsGrid(g) && IsGrid(h)
    requires forall x :: InBounds(x) ==> At(g, x) == At(h, x)
    ensures g == h
  {
    forall r | 0 <= r < N ensures g[r] == h[r] {
      forall c | 0 <= c < N ensures g[r][c] == h[r][c] {
        assert At(g, Square(r, c)) == At(h, Square(r, c));
      }
    }
  }

  /** The two writes of a move, in the source's order: the destination gets
      the origin's occupant, then the origin is emptied. For `f == t` the
      second write wins and the square ends up empty. */
  function Apply(g: Grid, f: Square, t: Square): (h: Grid)
    requires IsGrid(g) && InBounds(f) && InBounds(t)
    ensures IsGrid(h)
    ensures At(h, f) == Empty
    ensures f != t ==> At(h, t) == At(g, f)
    ensures forall x :: InBounds(x) && x != f && x != t ==> At(h, x) == At(g, x)
  {
    Put(Put(g, t, At(g, f)), f, Empty)
  }

  // ---------------------------------------------------------------------
  // Attack and king search
  // ---------------------------------------------------------------------

  /** The piece on `from` is of colour `attacker` and its rule accepts a
      move onto `to`: the test of is_square_attacked, and also the test by
      which get_valid_moves lists the pair (from, to) for `attacker`. */
  predicate Attacks(g: Grid, from: Square, to: Square, attacker: Color)
    requires IsGrid(g) && InBounds(from) && InBounds(to)
  {
    At(g, from).Piece? && At(g, from).color == attacker
    && ValidMove(At(g, from).kind, attacker, from, to, g)
  }

  /** is_square_attacked: some piece of `attacker` may move onto `sq`. */
  ghost predicate Attacked(g: Grid, sq: Square, attacker: Color)
    requires IsGrid(g) && InBounds(sq)
  {
    exists x :: InBounds(x) && Attacks(g, x, sq, attacker)
  }

  /** The first king of `color` at or after (row, col) in row-major order. */
  function FirstKingFrom(g: Grid, color: Color, row: int, col: int): (k: Option<Square>)
    requires IsGrid(g) && 0 <= row <= N && 0 <= col <= N
    ensures k.Some? ==>
      InBounds(k.value) && At(g, k.value) == Piece(King, color)
      && !RowMajorLess(k.value, Square(row, col))
      && forall x :: InBounds(x) && !RowMajorLess(x, Square(row, col)) && RowMajorLess(x, k.value)
                     ==> At(g, x) != Piece(King, color)
    ensures k.None? ==>
      forall x :: InBounds(x) && !RowMajorLess(x, Square(row, col)) ==> At(g, x) != Piece(King, color)
    decreases N - row, N - col
  {
    if row == N then None
    else if col == N then FirstKingFrom(g, color, row + 1, 0)
    else if At(g, Square(row, col)) == Piece(King, color) then Some(Square(row, col))
    else FirstKingFrom(g, color, row, col + 1)
  }

  /** find_king: the first king of `color` in row-major order, if any. */
  function FirstKing(g: Grid, color: Color): (k: Option<Square>)
    requires IsGrid(g)
    ensures k.Some? ==>
      InBounds(k.value) && At(g, k.value) == Piece(King, color)
      && forall x :: InBounds(x) && RowMajorLess(x, k.value) ==> At(g, x) != Piece(King, color)
    ensures k.None? <==> forall x :: InBounds(x) ==> At(g, x) != Piece(King, color)
  {
    FirstKingFrom(g, color, 0, 0)
  }

  // ---------------------------------------------------------------------
  // make_move
  // ---------------------------------------------------------------------

  /** is_in_check: after the speculative move, the first king of `color` is
      attacked by the other colour. With no such king the source's scan
      returns False when the other colour has no piece, and crashes
      otherwise, which CheckDefined excludes. */
  ghost predicate InCheckAfter(g: Grid, color: Color, f: Square, t: Square)
    requires IsGrid(g) && InBounds(f) && InBounds(t) && CheckDefined(g, color, f, t)
  {
    KingAttacked(Apply(g, f, t), color)
  }

  /** The first king of `color` on `h` is attacked by the other colour;
      false when there is none (and so no piece of the other colour either). */
  ghost predicate KingAttacked(h: Grid, color: Color)
    requires IsGrid(h) && KingQueryDefined(h, color)
  {
    match FirstKing(h, color)
    case None => false
    case Some(k) => Attacked(h, k, Opponent(color))
  }

  /** The boards on which the king query of is_in_check does not crash: a
      king of `color` is found, or no piece of the other colour is left to
      be asked about the missing square. */
  ghost predicate KingQueryDefined(h: Grid, color: Color)
    requires IsGrid(h)
  {
    FirstKing(h, color).Some?
    || forall x :: InBounds(x) ==> !(At(h, x).Piece? && At(h, x).color == Opponent(color))
  }

  /** The inputs on which is_in_check does not crash: the king query is
      defined on the board after the speculative move. */
  ghost predicate CheckDefined(g: Grid, color: Color, f: Square, t: Square)
    requires IsGrid(g) && InBounds(f) && InBounds(t)
  {
    KingQueryDefined(Apply(g, f, t), color)
  }

  /** The piece on `f` passes its rule, so make_move goes on to is_in_check. */
  predicate RuleAccepts(g: Grid, f: Square, t: Square)
    requires IsGrid(g) && InBounds(f) && InBounds(t)
  {
    At(g, f).Piece? && ValidMove(At(g, f).kind, At(g, f).color, f, t, g)
  }

  /** make_move runs to an answer: it stops before is_in_check, or
      is_in_check does not crash. */
  ghost predicate MoveDefined(g: Grid, f: Square, t: Square)
    requires IsGrid(g) && InBounds(f) && InBounds(t)
  {
    RuleAccepts(g, f, t) ==> CheckDefined(g, At(g, f).color, f, t)
  }

  /** make_move's verdict: a piece on `f` whose rule accepts, and its own
      king not attacked afterwards. The turn is not consulted. */
  ghost predicate Accepts(g: Grid, f: Square, t: Square)
    requires IsGrid(g) && InBounds(f) && InBounds(t) && MoveDefined(g, f, t)
  {
    RuleAccepts(g, f, t) && !InCheckAfter(g, At(g, f).color, f, t)
  }

  /** After an accepted move the mover's king, when there is one, is not
      attacked by the other colour. */
  lemma AcceptedMoveLeavesKingSafe(g: Grid, f: Square, t: Square, k: Square)
    requires IsGrid(g) && InBounds(f) && InBounds(t) && MoveDefined(g, f, t) && Accepts(g, f, t)
    requires InBounds(k) && At(Apply(g, f, t), k) == Piece(King, At(g, f).color)
    ensures FirstKing(Apply(g, f, t), At(g, f).color).Some?
    ensures !Attacked(Apply(g, f, t), FirstKing(Apply(g, f, t), At(g, f).color).value, Opponent(At(g, f).color))
  {
  }

  /** A null move of a rook, bishop or queen passes its rule, and if made it
      deletes the piece: the square becomes empty and nothing else changes. */
  lemma NullMoveDeletesPiece(g: Grid, s: Square)
    requires IsGrid(g) && InBounds(s)
    requires At(g, s).Piece? && At(g, s).kind in {Rook, Bishop, Queen}
    requires MoveDefined(g, s, s)
    ensures Accepts(g, s, s) <==> !InCheckAfter(g, At(g, s).color, s, s)
    ensures Apply(g, s, s) == Put(g, s, Empty)
  {
    NullMoveAccepted(g, At(g, s).kind, At(g, s).color, s);
    SameCells(Apply(g, s, s), Put(g, s, Empty));
  }

  /** A null move of the only king of its colour removes it during the
      speculative move: find_king then finds nothing, which is the path
      on which the source crashes. */
  lemma KingNullMoveLosesKing(g: Grid, s: Square)
    requires IsGrid(g) && InBounds(s)
    requires At(g, s).Piece? && At(g, s).kind == King
    requires forall x :: InBounds(x) && x != s ==> At(g, x) != At(g, s)
    ensures RuleAccepts(g, s, s)
    ensures FirstKing(Apply(g, s, s), At(g, s).color).None?
  {
  }

  // ---------------------------------------------------------------------
  // get_valid_moves
  // ---------------------------------------------------------------------

  /** The squares the rule of the piece on `f` accepts as destinations. */
  function Reach(g: Grid, f: Square): (reach: set<Square>)
    requires IsGrid(g) && InBounds(f)
    ensures forall t :: t in reach <==> InBounds(t) && RuleAccepts(g, f, t)
  {
    set r, c | 0 <= r < N && 0 <= c < N && RuleAccepts(g, f, Square(r, c)) :: Square(r, c)
  }

  /** `Reach` of every square of the board. */
  function ReachMap(g: Grid): (reach: map<Square, set<Square>>)
    requires IsGrid(g)
    ensures forall s :: InBounds(s) ==> s in reach && reach[s] == Reach(g, s)
  {
    map s | s in Squares() :: Reach(g, s)
  }

  ghost predicate Covers(reach: map<Square, set<Square>>) {
    forall s :: InBounds(s) ==> s in reach
  }

  /** The moves from `f` to the squares of `dests` at or after (r, c), in
      row-major order of the destination. */
  function TargetsFrom(f: Square, dests: set<Square>, r: int, c: int): (ms: seq<(Square, Square)>)
    requires 0 <= r <= N && 0 <= c <= N
    ensures forall m :: m in ms ==>
      m.0 == f && InBounds(m.1) && m.1 in dests && !RowMajorLess(m.1, Square(r, c))
    decreases N - r, N - c
  {
    if r == N then []
    else if c == N then TargetsFrom(f, dests, r + 1, 0)
    else if Square(r, c) in dests then [(f, Square(r, c))] + TargetsFrom(f, dests, r, c + 1)
    else TargetsFrom(f, dests, r, c + 1)
  }

  /** The pairs listed for the origin `f`: every square `reach` gives for
      it when a piece of `color` stands there, none otherwise. */
  function OriginMoves(g: Grid, color: Color, reach: map<Square, set<Square>>, f: Square)
    : (ms: seq<(Square, Square)>)
    requires IsGrid(g) && Covers(reach) && InBounds(f)
    ensures forall m :: m in ms ==>
      m.0 == f && InBounds(m.1) && m.1 in reach[f] && At(g, f).Piece? && At(g, f).color == color
  {
    if At(g, f).Piece? && At(g, f).color == color then TargetsFrom(f, reach[f], 0, 0) else []
  }

  /** The (from, to) pairs listed for the origins (row, col) onwards,
      row-major. */
  function MovePairsFrom(g: Grid, color: Color, reach: map<Square, set<Square>>, row: int, col: int)
    : (ms: seq<(Square, Square)>)
    requires IsGrid(g) && Covers(reach) && 0 <= row <= N && 0 <= col <= N
    decreases N - row, N - col
  {
    if row == N then []
    else if col == N then MovePairsFrom(g, color, reach, row + 1, 0)
    else
      OriginMoves(g, color, reach, Square(row, col)) + MovePairsFrom(g, color, reach, row, col + 1)
  }

  /** get_valid_moves(color), as squares. */
  function MovePairs(g: Grid, color: Color): seq<(Square, Square)>
    requires IsGrid(g)
  {
    MovePairsFrom(g, color, ReachMap(g), 0, 0)
  }

  /** The text form of one listed move. */
  function FormatMove(m: (Square, Square)): (string, string)
    requires InBounds(m.0) && InBounds(m.1)
  {
    (FormatSquare(m.0), FormatSquare(m.1))
  }

  /** `texts` is `pairs` written square by square in the source's notation. */
  predicate Formats(texts: seq<(string, string)>, pairs: seq<(Square, Square)>) {
    |texts| == |pairs|
    && forall i :: 0 <= i < |pairs| ==>
         InBounds(pairs[i].0) && InBounds(pairs[i].1) && texts[i] == FormatMove(pairs[i])
  }

  /** Every listed pair starts on a square at or after (row, col) holding a
      piece of `color`, and goes to a square `reach` gives for it. */
  lemma {:induction false} MovePairsSound(g: Grid, color: Color, reach: map<Square, set<Square>>,
                                          row: int, col: int, m: (Square, Square))
    requires IsGrid(g) && Covers(reach) && 0 <= row <= N && 0 <= col <= N
    requires m in MovePairsFrom(g, color, reach, row, col)
    ensures InBounds(m.0) && InBounds(m.1) && !RowMajorLess(m.0, Square(row, col))
    ensures At(g, m.0).Piece? && At(g, m.0).color == color && m.1 in reach[m.0]
    decreases N - row, N - col
  {
    if col == N {
      MovePairsSound(g, color, reach, row + 1, 0, m);
    } else {
      var here := Square(row, col);
      assert MovePairsFrom(g, color, reach, row, col)
          == OriginMoves(g, color, reach, here) + MovePairsFrom(g, color, reach, row, col + 1);
      if m !in OriginMoves(g, color, reach, here) {
        MovePairsSound(g, color, reach, row, col + 1, m);
      }
    }
  }

  /** One step of the destination scan: the listing from (r, c) holds the
      pair for (r, c) when that square is in `dests`, and everything listed
      from (r, c + 1). */
  lemma TargetsStep(f: Square, dests: set<Square>, r: int, c: int)
    requires 0 <= r < N && 0 <= c < N
    ensures Square(r, c) in dests ==> (f, Square(r, c)) in TargetsFrom(f, dests, r, c)
    ensures forall m :: m in TargetsFrom(f, dests, r, c + 1) ==> m in TargetsFrom(f, dests, r, c)
  {
    var rest := TargetsFrom(f, dests, r, c + 1);
    if Square(r, c) in dests {
      assert TargetsFrom(f, dests, r, c) == [(f, Square(r, c))] + rest;
    } else {
      assert TargetsFrom(f, dests, r, c) == rest;
    }
  }

  /** Every square of `dests` at or after (r, c) is listed. */
  lemma {:induction false} TargetsComplete(f: Square, dests: set<Square>, r: int, c: int, t: Square)
    requires 0 <= r <= N && 0 <= c <= N
    requires InBounds(t) && t in dests && !RowMajorLess(t, Square(r, c))
    ensures (f, t) in TargetsFrom(f, dests, r, c)
    decreases N - r, N - c
  {
    if c == N {
      TargetsComplete(f, dests, r + 1, 0, t);
      assert TargetsFrom(f, dests, r, c) == TargetsFrom(f, dests, r + 1, 0);
    } else {
      TargetsStep(f, dests, r, c);
      if t != Square(r, c) {
        TargetsComplete(f, dests, r, c + 1, t);
      }
    }
  }

  /** Every square `reach` gives for an origin holding a piece of `color`
      is listed for that origin. */
  lemma OriginMovesComplete(g: Grid, color: Color, reach: map<Square, set<Square>>, f: Square, t: Square)
    requires IsGrid(g) && Covers(reach) && InBounds(f) && InBounds(t)
    requires At(g, f).Piece? && At(g, f).color == color && t in reach[f]
    ensures (f, t) in OriginMoves(g, color, reach, f)
  {
    TargetsComplete(f, reach[f], 0, 0, t);
  }

  lemma InConcat(a: seq<(Square, Square)>, b: seq<(Square, Square)>, m: (Square, Square))
    ensures m in a + b <==> m in a || m in b
  {
  }

  /** The listing from (row, col) is the origin's pairs followed by the
      listing from the next column. */
  lemma MovePairsSplit(g: Grid, color: Color, reach: map<Square, set<Square>>, row: int, col: int)
    requires IsGrid(g) && Covers(reach) && 0 <= row < N && 0 <= col < N
    ensures MovePairsFrom(g, color, reach, row, col)
         == OriginMoves(g, color, reach, Square(row, col)) + MovePairsFrom(g, color, reach, row, col + 1)
  {
  }

  /** Past the last column, the listing continues with the next row. */
  lemma MovePairsNextRow(g: Grid, color: Color, reach: map<Square, set<Square>>, row: int)
    requires IsGrid(g) && Covers(reach) && 0 <= row < N
    ensures MovePairsFrom(g, color, reach, row, N) == MovePairsFrom(g, color, reach, row + 1, 0)
  {
  }

  lemma {:induction false} MovePairsComplete(g: Grid, color: Color, reach: map<Square, set<Square>>,
                                             row: int, col: int, f: Square, t: Square)
    requires IsGrid(g) && Covers(reach) && 0 <= row <= N && 0 <= col <= N
    requires InBounds(f) && InBounds(t) && !RowMajorLess(f, Square(row, col))
    requires At(g, f).Piece? && At(g, f).color == color && t in reach[f]
    ensures (f, t) in MovePairsFrom(g, color, reach, row, col)
    decreases N - row, N - col
  {
    if col == N {
      MovePairsComplete(g, color, reach, row + 1, 0, f, t);
      MovePairsNextRow(g, color, reach, row);
    } else {
      var here := Square(row, col);
      MovePairsSplit(g, color, reach, row, col);
      if f == here {
        OriginMovesComplete(g, color, reach, f, t);
      } else {
        MovePairsComplete(g, color, reach, row, col + 1, f, t);
      }
      InConcat(OriginMoves(g, color, reach, here), MovePairsFrom(g, color, reach, row, col + 1), (f, t));
    }
  }

  /** get_valid_moves lists exactly the pairs where a piece of `color` on
      `f` passes its own rule for `t`; there is no check filtering. */
  lemma MovePairsIff(g: Grid, color: Color, f: Square, t: Square)
    requires IsGrid(g)
    ensures (f, t) in MovePairs(g, color) <==>
      InBounds(f) && InBounds(t) && At(g, f).Piece? && At(g, f).color == color
      && ValidMove(At(g, f).kind, color, f, t, g)
  {
    var reach := ReachMap(g);
    if InBounds(f) && InBounds(t) && At(g, f).Piece? && At(g, f).color == color
       && ValidMove(At(g, f).kind, color, f, t, g) {
      assert t in reach[f];
      MovePairsComplete(g, color, reach, 0, 0, f, t);
    }
    if (f, t) in MovePairs(g, color) {
      MovePairsSound(g, color, reach, 0, 0, (f, t));
    }
  }

  /** Null moves appear in the list for every rook, bishop, queen and king
      of the colour. */
  lemma NullMovesListed(g: Grid, color: Color, s: Square)
    requires IsGrid(g) && InBounds(s)
    requires At(g, s).Piece? && At(g, s).color == color && At(g, s).kind in {Rook, Bishop, Queen, King}
    ensures (s, s) in MovePairs(g, color)
  {
    NullMoveAccepted(g, At(g, s).kind, color, s);
    MovePairsIff(g, color, s, s);
  }

  /** Row-major order of the origin, then of the destination. */
  predicate MoveBefore(m: (Square, Square), n: (Square, Square)) {
    RowMajorLess(m.0, n.0) || (m.0 == n.0 && RowMajorLess(m.1, n.1))
  }

  ghost predicate Ordered(ms: seq<(Square, Square)>) {
    forall i, j :: 0 <= i < j < |ms| ==> MoveBefore(ms[i], ms[j])
  }

  lemma OrderedAppend(a: seq<(Square, Square)>, b: seq<(Square, Square)>)
    requires Ordered(a) && Ordered(b)
    requires forall m, n :: m in a && n in b ==> MoveBefore(m, n)
    ensures Ordered(a + b)
  {
    forall i, j | 0 <= i < j < |a + b| ensures MoveBefore((a + b)[i], (a + b)[j]) {
      if j < |a| {
        assert MoveBefore(a[i], a[j]);
      } else if i < |a| {
        assert a[i] in a && b[j - |a|] in b;
      } else {
        assert MoveBefore(b[i - |a|], b[j - |a|]);
      }
    }
  }

  lemma {:induction false} TargetsOrdered(f: Square, dests: set<Square>, r: int, c: int)
    requires 0 <= r <= N && 0 <= c <= N
    ensures Ordered(TargetsFrom(f, dests, r, c))
    decreases N - r, N - c
  {
    if r == N {
      assert TargetsFrom(f, dests, r, c) == [];
    } else if c == N {
      TargetsOrdered(f, dests, r + 1, 0);
      assert TargetsFrom(f, dests, r, c) == TargetsFrom(f, dests, r + 1, 0);
    } else {
      var rest := TargetsFrom(f, dests, r, c + 1);
      TargetsOrdered(f, dests, r, c + 1);
      if Square(r, c) in dests {
        var head := [(f, Square(r, c))];
        assert forall m, n :: m in head && n in rest ==> MoveBefore(m, n);
        OrderedAppend(head, rest);
        assert TargetsFrom(f, dests, r, c) == head + rest;
      } else {
        assert TargetsFrom(f, dests, r, c) == rest;
      }
    }
  }

  lemma OriginMovesOrdered(g: Grid, color: Color, reach: map<Square, set<Square>>, f: Square)
    requires IsGrid(g) && Covers(reach) && InBounds(f)
    ensures Ordered(OriginMoves(g, color, reach, f))
  {
    if At(g, f).Piece? && At(g, f).color == color {
      TargetsOrdered(f, reach[f], 0, 0);
    }
  }

  lemma OriginPairBefore(g: Grid, color: Color, reach: map<Square, set<Square>>, row: int, col: int,
                         m: (Square, Square), n: (Square, Square))
    requires IsGrid(g) && Covers(reach) && 0 <= row < N && 0 <= col < N
    requires m in OriginMoves(g, color, reach, Square(row, col))
    requires n in MovePairsFrom(g, color, reach, row, col + 1)
    ensures MoveBefore(m, n)
  {
    MovePairsSound(g, color, reach, row, col + 1, n);
  }

  /** The pairs of an origin come before those of every later origin. */
  lemma OriginBeforeRest(g: Grid, color: Color, reach: map<Square, set<Square>>, row: int, col: int)
    requires IsGrid(g) && Covers(reach) && 0 <= row < N && 0 <= col < N
    ensures forall m, n ::
      m in OriginMoves(g, color, reach, Square(row, col)) && n in MovePairsFrom(g, color, reach, row, col + 1)
      ==> MoveBefore(m, n)
  {
    forall m, n | m in OriginMoves(g, color, reach, Square(row, col))
                  && n in MovePairsFrom(g, color, reach, row, col + 1)
      ensures MoveBefore(m, n)
    {
      OriginPairBefore(g, color, reach, row, col, m, n);
    }
  }

  lemma MovePairsOrderedStep(g: Grid, color: Color, reach: map<Square, set<Square>>, row: int, col: int)
    requires IsGrid(g) && Covers(reach) && 0 <= row < N && 0 <= col < N
    requires Ordered(MovePairsFrom(g, color, reach, row, col + 1))
    ensures Ordered(MovePairsFrom(g, color, reach, row, col))
  {
    var mine := OriginMoves(g, color, reach, Square(row, col));
    var rest := MovePairsFrom(g, color, reach, row, col + 1);
    OriginMovesOrdered(g, color, reach, Square(row, col));
    OriginBeforeRest(g, color, reach, row, col);
    OrderedAppend(mine, rest);
    MovePairsSplit(g, color, reach, row, col);
  }

  /** The row-end step of the ordering proof. */
  lemma MovePairsRowEnd(g: Grid, color: Color, reach: map<Square, set<Square>>, row: int)
    requires IsGrid(g) && Covers(reach) && 0 <= row < N
    requires Ordered(MovePairsFrom(g, color, reach, row + 1, 0))
    ensures Ordered(MovePairsFrom(g, color, reach, row, N))
  {
    MovePairsNextRow(g, color, reach, row);
  }

  /** Past the last row, nothing is listed. */
  lemma MovePairsPastEnd(g: Grid, color: Color, reach: map<Square, set<Square>>, col: int)
    requires IsGrid(g) && Covers(reach) && 0 <= col <= N
    ensures Ordered(MovePairsFrom(g, color, reach, N, col))
  {
    assert MovePairsFrom(g, color, reach, N, col) == [];
  }

  lemma {:induction false} MovePairsOrderedFrom(g: Grid, color: Color, reach: map<Square, set<Square>>,
                                                row: int, col: int)
    requires IsGrid(g) && Covers(reach) && 0 <= row <= N && 0 <= col <= N
    ensures Ordered(MovePairsFrom(g, color, reach, row, col))
    decreases N - row, N - col
  {
    if row == N {
      MovePairsPastEnd(g, color, reach, col);
    } else if col == N {
      MovePairsOrderedFrom(g, color, reach, row + 1, 0);
      MovePairsRowEnd(g, color, reach, row);
    } else {
      MovePairsOrderedFrom(g, color, reach, row, col + 1);
      MovePairsOrderedStep(g, color, reach, row, col);
    }
  }

  /** The list is in row-major order of the origin and then of the
      destination; in particular no pair is listed twice. */
  lemma MovePairsOrdered(g: Grid, color: Color)
    requires IsGrid(g)
    ensures Ordered(MovePairs(g, color))
    ensures forall i, j :: 0 <= i < j < |MovePairs(g, color)| ==> MovePairs(g, color)[i] != MovePairs(g, color)[j]
  {
    MovePairsOrderedFrom(g, color, ReachMap(g), 0, 0);
  }

  lemma HeadIsMember(s: seq<(Square, Square)>)
    ensures s == [] || s[0] in s
  {
  }

  /** Appending the listing of origin `f` to the listing of every origin
      before `f` gives the listing of every origin up to and including `f`. */
  lemma ListingStep(g: Grid, color: Color, done: seq<(Square, Square)>, pairs: seq<(Square, Square)>, row: int, col: int)
    requires IsGrid(g) && InBounds(Square(row, col)) && Ordered(done) && Ordered(pairs)
    requires forall m :: m in done ==> RowMajorLess(m.0, Square(row, col))
    requires forall x, t :: InBounds(x) && InBounds(t) && RowMajorLess(x, Square(row, col)) ==>
      ((x, t) in done <==> Attacks(g, x, t, color))
    requires forall m :: m in pairs ==> m.0 == Square(row, col)
    requires forall t :: InBounds(t) ==> ((Square(row, col), t) in pairs <==> Attacks(g, Square(row, col), t, color))
    ensures Ordered(done + pairs)
    ensures forall m :: m in done + pairs ==> RowMajorLess(m.0, Square(row, col + 1))
    ensures forall x, t :: InBounds(x) && InBounds(t) && RowMajorLess(x, Square(row, col + 1)) ==>
      ((x, t) in done + pairs <==> Attacks(g, x, t, color))
  {
    OrderedAppend(done, pairs);
  }

  /** One more destination square of the scan for the origin `f`: `next`
      is `pairs`, extended with the pair for (r, c) when it is listed. */
  lemma DestinationStep(g: Grid, color: Color, f: Square, pairs: seq<(Square, Square)>,
                        next: seq<(Square, Square)>, r: int, c: int)
    requires IsGrid(g) && InBounds(f) && InBounds(Square(r, c)) && Ordered(pairs)
    requires forall m :: m in pairs ==> m.0 == f && RowMajorLess(m.1, Square(r, c))
    requires forall t :: InBounds(t) && RowMajorLess(t, Square(r, c)) ==>
      ((f, t) in pairs <==> Attacks(g, f, t, color))
    requires Attacks(g, f, Square(r, c), color) ==> next == pairs + [(f, Square(r, c))]
    requires !Attacks(g, f, Square(r, c), color) ==> next == pairs
    ensures Ordered(next)
    ensures forall m :: m in next ==> m.0 == f && RowMajorLess(m.1, Square(r, c + 1))
    ensures forall t :: InBounds(t) && RowMajorLess(t, Square(r, c + 1)) ==>
      ((f, t) in next <==> Attacks(g, f, t, color))
  {
    if Attacks(g, f, Square(r, c), color) {
      OrderedAppend(pairs, [(f, Square(r, c))]);
    }
  }

  /** Texts of two lists, concatenated, are the texts of the concatenation. */
  lemma FormatsAppend(t1: seq<(string, string)>, p1: seq<(Square, Square)>,
                      t2: seq<(string, string)>, p2: seq<(Square, Square)>)
    requires Formats(t1, p1) && Formats(t2, p2)
    ensures Formats(t1 + t2, p1 + p2)
  {
    forall i | 0 <= i < |p1 + p2|
      ensures InBounds((p1 + p2)[i].0) && InBounds((p1 + p2)[i].1) && (t1 + t2)[i] == FormatMove((p1 + p2)[i])
    {
      if i >= |p1| {
        assert (p1 + p2)[i] == p2[i - |p1|];
      }
    }
  }

  /** Two ordered lists with the same members are the same list. */
  lemma {:induction false} OrderedUnique(a: seq<(Square, Square)>, b: seq<(Square, Square)>)
    requires Ordered(a) && Ordered(b)
    requires forall m :: m in a <==> m in b
    ensures a == b
    decreases |a|
  {
    if a == [] {
      HeadIsMember(b);
    } else {
      assert a[0] in b && b != [] && b[0] in a;
      assert a[0] == b[0];
      forall m ensures m in a[1..] <==> m in b[1..] {
        if m in a[1..] {
          var k :| 1 <= k < |a| && a[k] == m;
          assert MoveBefore(a[0], a[k]) && m in a && m in b;
          var l :| 0 <= l < |b| && b[l] == m;
          assert l != 0 && b[1..][l - 1] == m;
        }
        if m in b[1..] {
          var k :| 1 <= k < |b| && b[k] == m;
          assert MoveBefore(b[0], b[k]) && m in b && m in a;
          var l :| 0 <= l < |a| && a[l] == m;
          assert l != 0 && a[1..][l - 1] == m;
        }
      }
      OrderedUnique(a[1..], b[1..]);
      assert a == [a[0]] + a[1..] && b == [b[0]] + b[1..];
    }
  }

  /** An ordered list holding exactly the listed pairs is the move list:
      order and membership determine get_valid_moves' result. */
  lemma ListingIsMovePairs(g: Grid, color: Color, ms: seq<(Square, Square)>)
    requires IsGrid(g) && Ordered(ms)
    requires forall m :: m in ms ==> InBounds(m.0) && InBounds(m.1)
    requires forall f, t :: InBounds(f) && InBounds(t) ==> ((f, t) in ms <==> Attacks(g, f, t, color))
    ensures ms == MovePairs(g, color)
  {
    MovePairsOrdered(g, color);
    forall m ensures m in ms <==> m in MovePairs(g, color) {
      MovePairsIff(g, color, m.0, m.1);
    }
    OrderedUnique(ms, MovePairs(g, color));
  }

  // ---------------------------------------------------------------------
  // is_checkmate
  // ---------------------------------------------------------------------

  /** `n` is one of the up to eight squares around `k` that the detector
      tries. */
  predicate Adjacent(k: Square, n: Square) {
    Abs(k.row - n.row) <= 1 && Abs(k.col - n.col) <= 1 && k != n
  }

  function Max(a: int, b: int): int { if a < b then b else a }

  function Min(a: int, b: int): int { if a < b then a else b }

  /** Every neighbour `n` of `k` is attacked by `color` once the occupant
      of `k` has been moved onto `n`. */
  ghost predicate Trapped(g: Grid, k: Square, color: Color)
    requires IsGrid(g) && InBounds(k)
  {
    forall n :: InBounds(n) && Adjacent(k, n) ==> Attacked(Apply(g, k, n), n, color)
  }

  /** Every king of `color` is trapped. */
  ghost predicate AllTrapped(g: Grid, color: Color)
    requires IsGrid(g)
  {
    forall k :: InBounds(k) && At(g, k) == Piece(King, color) ==> Trapped(g, k, color)
  }

  /** is_checkmate's verdict for the colour `color` it examines. The source
      uses that same colour both for the king and for the attacker: the
      first king of `color` is attacked by `color`, and every king of
      `color` is trapped, with `color` again as the attacker. */
  ghost predicate CheckmateVerdict(g: Grid, color: Color)
    requires IsGrid(g)
  {
    FirstKing(g, color).Some? && Attacked(g, FirstKing(g, color).value, color) && AllTrapped(g, color)
  }

  /** The neighbours of `k` before `s` in row-major order have been probed
      and found attacked. */
  ghost predicate ProbedBefore(g: Grid, k: Square, color: Color, s: Square)
    requires IsGrid(g) && InBounds(k)
  {
    forall n :: InBounds(n) && Adjacent(k, n) && RowMajorLess(n, s) ==> Attacked(Apply(g, k, n), n, color)
  }

  /** The probe starts at the upper-left corner of the 3x3 block around
      `k`, clipped to the board: no neighbour comes before it. */
  lemma ProbeStart(g: Grid, k: Square, color: Color)
    requires IsGrid(g) && InBounds(k)
    ensures ProbedBefore(g, k, color, Square(Max(0, k.row - 1), Max(0, k.col - 1)))
  {
  }

  /** One more square of the block. */
  lemma ProbeStep(g: Grid, k: Square, color: Color, r: int, c: int)
    requires IsGrid(g) && InBounds(k) && InBounds(Square(r, c))
    requires ProbedBefore(g, k, color, Square(r, c))
    requires Adjacent(k, Square(r, c)) ==> Attacked(Apply(g, k, Square(r, c)), Square(r, c), color)
    ensures ProbedBefore(g, k, color, Square(r, c + 1))
  {
  }

  /** Past the right edge of the block, the probe resumes on the next row
      at its left edge. */
  lemma ProbeRowEnd(g: Grid, k: Square, color: Color, r: int)
    requires IsGrid(g) && InBounds(k)
    requires ProbedBefore(g, k, color, Square(r, Min(N, k.col + 2)))
    ensures ProbedBefore(g, k, color, Square(r + 1, Max(0, k.col - 1)))
  {
  }

  /** Past the last row of the block, every neighbour has been probed. */
  lemma ProbeEnd(g: Grid, k: Square, color: Color)
    requires IsGrid(g) && InBounds(k)
    requires ProbedBefore(g, k, color, Square(Min(N, k.row + 2), Max(0, k.col - 1)))
    ensures Trapped(g, k, color)
  {
  }

  /** A neighbour found not attacked means the king is not trapped. */
  lemma ProbeEscape(g: Grid, k: Square, color: Color, n: Square)
    requires IsGrid(g) && InBounds(k) && InBounds(n) && Adjacent(k, n)
    requires !Attacked(Apply(g, k, n), n, color)
    ensures !Trapped(g, k, color)
  {
  }

  /** The kings of `color` before `s` in row-major order are trapped. */
  ghost predicate KingsTrappedBefore(g: Grid, color: Color, s: Square)
    requires IsGrid(g)
  {
    forall k :: InBounds(k) && RowMajorLess(k, s) && At(g, k) == Piece(King, color) ==> Trapped(g, k, color)
  }

  /** One more square of the scan over the kings of `color`. */
  lemma KingsStep(g: Grid, color: Color, row: int, col: int)
    requires IsGrid(g) && InBounds(Square(row, col))
    requires KingsTrappedBefore(g, color, Square(row, col))
    requires At(g, Square(row, col)) == Piece(King, color) ==> Trapped(g, Square(row, col), color)
    ensures KingsTrappedBefore(g, color, Square(row, col + 1))
  {
  }

  /** Past the last column, the scan resumes on the next row. */
  lemma KingsRowEnd(g: Grid, color: Color, row: int)
    requires IsGrid(g) && KingsTrappedBefore(g, color, Square(row, N))
    ensures KingsTrappedBefore(g, color, Square(row + 1, 0))
  {
  }

  /** Past the last row, every king has been scanned. */
  lemma KingsEnd(g: Grid, color: Color)
    requires IsGrid(g) && KingsTrappedBefore(g, color, Square(N, 0))
    ensures AllTrapped(g, color)
  {
  }

  /** Each king of `color` must be trapped for all of them to be: one with
      a safe neighbour settles the scan. */
  lemma KingEscapes(g: Grid, color: Color, k: Square)
    requires IsGrid(g) && InBounds(k) && At(g, k) == Piece(King, color)
    ensures AllTrapped(g, color) ==> Trapped(g, k, color)
  {
  }

  /** Because a king accepts a move onto its own square, every probe of the
      detector finds the king "attacked" by itself: the verdict is true
      exactly when a king of the examined colour is on the board. */
  lemma CheckmateIffKingPresent(g: Grid, color: Color)
    requires IsGrid(g)
    ensures CheckmateVerdict(g, color) <==> exists x :: InBounds(x) && At(g, x) == Piece(King, color)
  {
    var first := FirstKing(g, color);
    if first.Some? {
      assert Attacks(g, first.value, first.value, color);
      forall k, n | InBounds(k) && InBounds(n) && At(g, k) == Piece(King, color) && Adjacent(k, n)
        ensures Attacked(Apply(g, k, n), n, color)
      {
        assert Attacks(Apply(g, k, n), n, n, color);
      }
      assert AllTrapped(g, color);
    }
  }
}
