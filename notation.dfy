/** Square tokens such as "e7": a file letter 'a'..'i' for the column and a
    rank digit for the row, with row = 8 - digit. */
module Notation {
  import opened Pieces

  /** A token the source's parser reads without error and maps onto the
      board: at least two characters, a letter 'a'..'i' then a digit
      '0'..'8'. Characters after the second are ignored by the parser. */
  predicate IsToken(tok: string) {
    |tok| >= 2 && 'a' <= tok[0] <= 'i' && '0' <= tok[1] <= '8'
  }

  function ParseSquare(tok: string): (s: Square)
    requires IsToken(tok)
    ensures InBounds(s)
    ensures s.row == 8 - (tok[1] as int - '0' as int)
    ensures s.col == tok[0] as int - 'a' as int
  {
    Square(8 - (tok[1] as int - '0' as int), tok[0] as int - 'a' as int)
  }

  function FormatSquare(s: Square): (tok: string)
    requires InBounds(s)
    ensures |tok| == 2 && IsToken(tok)
    ensures ParseSquare(tok) == s
  {
    [(s.col + 'a' as int) as char, (8 - s.row + '0' as int) as char]
  }

  /** Formatting inverts parsing on the two characters the parser reads. */
  lemma FormatParse(tok: string)
    requires IsToken(tok)
    ensures FormatSquare(ParseSquare(tok)) == tok[..2]
  {
  }

  /** Distinct squares get distinct tokens. */
  lemma FormatInjective(s: Square, t: Square)
    requires InBounds(s) && InBounds(t)
    ensures FormatSquare(s) == FormatSquare(t) <==> s == t
  {
    if FormatSquare(s) == FormatSquare(t) {
      assert ParseSquare(FormatSquare(s)) == ParseSquare(FormatSquare(t));
    }
  }
}
