// The text rendering of a position (go4.go, String): six lines, top row first,
// one character per column: 'x' for a stone of the player to move, 'o' for a
// stone of the opponent, '.' for an empty cell.
module Text {
  import opened Bitboard

  /** 2^n as a 64-bit word, for n < 64. */
  function Pow2(n: nat): bv64
    requires n < 64
  {
    if n == 0 then 1 else Pow2(n - 1) << 1
  }

  /** The bit of column `x`, row `row` (row 0 at the bottom): bit 7 * x + row
      (Go: `uint64(1) << (x * (HEIGHT + 1) + y - 1)` with row = y - 1). */
  function CellBit(x: nat, row: nat): bv64
    requires x < 7 && row < 6
  {
    Pow2(7 * x + row)
  }

  /** The character shown for column `x`, row `row` of the board with stones
      `mask`, those of the player to move being `current`. */
  function CellChar(mask: bv64, current: bv64, x: nat, row: nat): char
    requires x < 7 && row < 6
  {
    if CellBit(x, row) & mask != 0 then
      if CellBit(x, row) & current == 0 then 'o' else 'x'
    else '.'
  }

  /** Row `row` of the board, left to right. */
  function Line(mask: bv64, current: bv64, row: nat): (s: string)
    requires row < 6
    ensures |s| == 7
  {
    seq(7, x requires 0 <= x < 7 => CellChar(mask, current, x, row))
  }

  /** Rows `rows - 1` down to 0, each followed by a newline. */
  function Rows(mask: bv64, current: bv64, rows: nat): (s: string)
    requires rows <= 6
    ensures |s| == 8 * rows
  {
    if rows == 0 then "" else Line(mask, current, rows - 1) + "\n" + Rows(mask, current, rows - 1)
  }

  /** The whole board, top row first. */
  function Board(p: Position): string
  {
    Rows(p.mask, p.currentPosition, 6)
  }

  /** The inner loop of String (go4.go): the cells of one row, left to right. */
  method LineText(mask: bv64, current: bv64, row: nat) returns (ret: string)
    requires row < 6
    ensures ret == Line(mask, current, row)
  {
    ret := "";
    ghost var line := Line(mask, current, row);
    var x: nat := 0;
    while x < 7
      invariant x <= 7
      invariant ret == line[..x]
    {
      var c := CellChar(mask, current, x, row);
      assert line[..x + 1] == line[..x] + [c];
      ret := ret + [c];
      x := x + 1;
    }
    assert line[..7] == line;
  }

  /** String (go4.go): for each row from the top, the cells from left to right,
      then a newline. */
  method ToString(p: Position) returns (ret: string)
    ensures ret == Board(p)
  {
    ret := "";
    var mask, current := p.mask, p.currentPosition;
    var y: nat := 6;
    ghost var top := y;
    while y > 0
      invariant y <= top == 6
      invariant ret + Rows(mask, current, y) == Rows(mask, current, top)
    {
      var line := LineText(mask, current, y - 1);
      ghost var before, y0 := ret, y;
      ret := ret + line + "\n";
      y := y - 1;
      PrintLine(before, line, ret, mask, current, y0, y, top);
    }
  }

  /** Moving a line and its newline from the rows still to print onto the text printed so far. */
  lemma {:induction false} AppendLine(ret: string, line: string, rows: string, rest: string)
    requires rows == line + "\n" + rest
    ensures ret + rows == ret + line + "\n" + rest
  {
  }

  /** One round of String's outer loop: printing row `y - 1` and its newline
      leaves the rows below it to print. */
  lemma {:induction false} PrintLine(before: string, line: string, after: string, mask: bv64, current: bv64, y0: nat, y: nat, top: nat)
    requires 0 < y0 <= top <= 6 && y == y0 - 1 && line == Line(mask, current, y0 - 1)
    requires before + Rows(mask, current, y0) == Rows(mask, current, top)
    requires after == before + line + "\n"
    ensures after + Rows(mask, current, y) == Rows(mask, current, top)
  {
    RowsUnfold(mask, current, y0);
    AppendLine(before, line, Rows(mask, current, y0), Rows(mask, current, y));
  }

  lemma {:induction false} RowsUnfold(mask: bv64, current: bv64, rows: nat)
    requires 0 < rows <= 6
    ensures Rows(mask, current, rows) == Line(mask, current, rows - 1) + "\n" + Rows(mask, current, rows - 1)
  {
  }

  /** Row `row` of the board is shown on line `rows - 1 - row` of Rows(mask, current, rows):
      the character at offset `8 * (rows - 1 - row) + x` is the cell in column `x`. */
  lemma {:induction false} RowsAt(mask: bv64, current: bv64, rows: nat, row: nat, x: nat)
    requires rows <= 6 && row < rows && x < 7
    ensures Rows(mask, current, rows)[8 * (rows - 1 - row) + x] == CellChar(mask, current, x, row)
    decreases rows
  {
    var rest := Rows(mask, current, rows - 1);
    var head := Line(mask, current, rows - 1) + "\n";
    RowsUnfold(mask, current, rows);
    if row < rows - 1 {
      RowsAt(mask, current, rows - 1, row, x);
      var i := 8 * (rows - 2 - row);
      assert 8 * (rows - 1 - row) == 8 + i;
      assert (head + rest)[8 + i + x] == rest[i + x];
    } else {
      assert (head + rest)[x] == Line(mask, current, row)[x];
    }
  }

  /** Every line of Rows(mask, current, rows) ends in a newline. */
  lemma {:induction false} RowsEnd(mask: bv64, current: bv64, rows: nat, row: nat)
    requires rows <= 6 && row < rows
    ensures Rows(mask, current, rows)[8 * (rows - 1 - row) + 7] == '\n'
    decreases rows
  {
    var rest := Rows(mask, current, rows - 1);
    var head := Line(mask, current, rows - 1) + "\n";
    RowsUnfold(mask, current, rows);
    if row < rows - 1 {
      RowsEnd(mask, current, rows - 1, row);
      var i := 8 * (rows - 2 - row);
      assert 8 * (rows - 1 - row) == 8 + i;
      assert (head + rest)[8 + i + 7] == rest[i + 7];
    } else {
      assert (head + rest)[7] == head[7];
    }
  }

  /** The board text has 48 characters; the cell in column `x`, row `row` is
      shown at line 5 - row, column x, and each line ends in a newline. */
  lemma {:induction false} BoardAt(p: Position, row: nat, x: nat)
    requires row < 6 && x < 7
    ensures |Board(p)| == 48
    ensures Board(p)[8 * (5 - row) + x] == CellChar(p.mask, p.currentPosition, x, row)
    ensures Board(p)[8 * (5 - row) + 7] == '\n'
  {
    RowsAt(p.mask, p.currentPosition, 6, row, x);
    RowsEnd(p.mask, p.currentPosition, 6, row);
  }
}
