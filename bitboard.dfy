// The Connect 4 position algebra of go4.go: a 7x6 board held in two 64-bit
// bitboards, one 7-bit group per column (six cells and an always-empty sentinel
// bit on top), bit 7*col + row for the cell in column col, row row (row 0 at the
// bottom).  Go's `uint` and `uint64` are modelled as bv64, so additions,
// multiplications and shifts wrap exactly as they do in Go.
module Bitboard {
  import opened Bits

  const WIDTH: bv64 := 7
  const HEIGHT: bv64 := 6
  /** Scores are stored in the transposition table shifted by MIN_SCORE. */
  const MIN_SCORE: int := -(7 * 6) / 2 + 3
  const MAX_SCORE: int := (7 * 6 + 1) / 2 - 3

  /** One bit at the bottom cell of every column. */
  const BOTTOM_MASK: bv64 := 1 | (1 << 7) | (1 << 14) | (1 << 21) | (1 << 28) | (1 << 35) | (1 << 42)
  /** The 42 cells of the board: six bits at the bottom of every 7-bit group. */
  const BOARD_MASK: bv64 := BOTTOM_MASK * ((1 << HEIGHT) - 1)

  /** The order in which negamax tries the columns: centre first. */
  const COLUMN_ORDER: seq<bv64> := [3, 2, 4, 1, 5, 0, 6]

  // ---------------------------------------------------------------- mask helpers

  /** Go's `x << n` on uint64: a shift by 64 or more gives 0. */
  function Shl(x: bv64, n: bv64): bv64
  {
    if n >= 64 then 0 else x << n
  }

  /** Index of the bottom bit of column `col`, `col*(HEIGHT+1)` computed in uint. */
  function ColumnShift(col: bv64): bv64
  {
    col * (HEIGHT + 1)
  }

  function TopMaskCol(col: bv64): bv64
  {
    Shl(1 << (HEIGHT - 1), ColumnShift(col))
  }

  function BottomMaskCol(col: bv64): bv64
  {
    Shl(1, ColumnShift(col))
  }

  function ColumnMask(col: bv64): bv64
  {
    Shl((1 << HEIGHT) - 1, ColumnShift(col))
  }

  /** The cell in column `col`, row `row` (row 0 at the bottom). */
  function Cell(col: bv64, row: bv64): bv64
    requires col < WIDTH && row < HEIGHT
  {
    1 << (col * 7 + row)
  }

  /** `b` has exactly one bit set. */
  predicate OneBit(b: bv64)
  {
    b != 0 && b & (b - 1) == 0
  }

  /** The constants spelled out, and the seven columns tiling the board. */
  lemma {:induction false} BoardMasks()
    ensures BOTTOM_MASK == 0x40810204081 && BOARD_MASK == 0xfdfbf7efdfbf
    ensures BOARD_MASK == ColumnMask(0) | ColumnMask(1) | ColumnMask(2) | ColumnMask(3)
                        | ColumnMask(4) | ColumnMask(5) | ColumnMask(6)
    ensures BitCount(BOARD_MASK) == 42
  {
    BoardCount();
  }

  /** For a column of the board, the top and bottom masks are the column's top
      and bottom cells, and the column mask holds six cells of the board and no
      two columns share a cell. */
  lemma {:induction false} ColumnMasks(col: bv64)
    requires col < WIDTH
    ensures TopMaskCol(col) == Cell(col, HEIGHT - 1) && BottomMaskCol(col) == Cell(col, 0)
    ensures ColumnMask(col) & !BOARD_MASK == 0
    ensures forall row :: row < HEIGHT ==> Cell(col, row) & ColumnMask(col) != 0
    ensures forall other :: other < WIDTH && other != col ==> ColumnMask(col) & ColumnMask(other) == 0
  {
  }

  // ---------------------------------------------------------------- four in a row

  /** alignment (go4.go): some four cells of `pos` in a row, horizontally,
      on either diagonal, or vertically. */
  predicate Alignment(pos: bv64)
  {
    var h := pos & (pos >> (HEIGHT + 1));
    var d1 := pos & (pos >> HEIGHT);
    var d2 := pos & (pos >> (HEIGHT + 2));
    var v := pos & (pos >> 1);
    h & (h >> (2 * (HEIGHT + 1))) != 0
    || d1 & (d1 >> (2 * HEIGHT)) != 0
    || d2 & (d2 >> (2 * (HEIGHT + 2))) != 0
    || v & (v >> 2) != 0
  }

  /** Four stacked stones, four along the bottom row and four on either
      diagonal from the bottom-left corner are alignments; three stacked stones,
      and a column holding its three lower and a neighbouring column's bottom
      stone, are not. */
  lemma {:induction false} AlignmentExamples()
    ensures Alignment(0xf)
    ensures Alignment(1 | (1 << 7) | (1 << 14) | (1 << 21))
    ensures Alignment(1 | (1 << 8) | (1 << 16) | (1 << 24))
    ensures Alignment((1 << 3) | (1 << 9) | (1 << 15) | (1 << 21))
    ensures !Alignment(0x7)
    ensures !Alignment(0x7 | (1 << 7))
  {
  }

  /** The lines of the winning-cell computation in direction `d`: a cell is
      marked when the three cells after it, the three before it, or two after and
      one before, or one after and two before, all hold stones of `position`. */
  function LineCells(position: bv64, d: bv64): bv64
    requires 0 < d < 16
  {
    var up2 := (position << d) & (position << (2 * d));
    var down2 := (position >> d) & (position >> (2 * d));
    (up2 & (position << (3 * d))) | (up2 & (position >> d))
    | (down2 & (position << d)) | (down2 & (position >> (3 * d)))
  }

  /** computeWinningPosition (go4.go): the empty cells of the board where a stone
      of `position` would complete four in a row. */
  function ComputeWinningPosition(position: bv64, mask: bv64): (r: bv64)
    ensures mask & !BOARD_MASK == 0 ==> r & !BOARD_MASK == 0 && r & mask == 0
  {
    var vertical := (position << 1) & (position << 2) & (position << 3);
    var r := vertical | LineCells(position, HEIGHT + 1) | LineCells(position, HEIGHT)
             | LineCells(position, HEIGHT + 2);
    r & (BOARD_MASK ^ mask)
  }

  /** The winning cells of concrete positions: on top of three stacked stones,
      and at both ends of three stones along the bottom row. */
  lemma {:induction false} WinningExamples()
    ensures ComputeWinningPosition(0x7, 0x7) == 0x8
    ensures ComputeWinningPosition((1 << 7) | (1 << 14) | (1 << 21), (1 << 7) | (1 << 14) | (1 << 21))
            == 1 | (1 << 28)
  {
  }

  // ---------------------------------------------------------------- positions

  /** A position relative to the player to move: `mask` holds every stone,
      `currentPosition` the stones of the player to move, `moves` the number of
      moves played.  Go's uint move counter is unbounded here (it never exceeds 42). */
  datatype Position = Position(mask: bv64, currentPosition: bv64, moves: nat)

  /** The empty board, Go's zero Position. */
  const EMPTY: Position := Position(0, 0, 0)

  /** Every column holds a contiguous stack of stones from its bottom cell up:
      adding the bottom row carries through each stack into the first empty
      cell and touches no stone. */
  predicate Stacked(m: bv64)
  {
    m & !BOARD_MASK == 0 && (m + BOTTOM_MASK) & m == 0
  }

  /** Every stone of `stones` is one of `mask`. */
  predicate Within(stones: bv64, mask: bv64)
  {
    stones & !mask == 0
  }

  /** The positions the solver works on: stacked stones, the player to move owns
      some of them, and `moves` counts them. */
  predicate Valid(p: Position)
  {
    Stacked(p.mask) && Within(p.currentPosition, p.mask) && p.moves == BitCount(p.mask)
  }

  /** The mask after a stone is dropped into column `col` (Go: `mask |= mask + bottomMaskCol(col)`):
      the bottom bit of the column carries through the stones of the column into
      its first empty cell. */
  function Drop(mask: bv64, col: bv64): bv64
  {
    mask | (mask + BottomMaskCol(col))
  }

  /** The cells a stone can drop into, as a function of the stones alone. */
  function PlayableCells(mask: bv64): (r: bv64)
    ensures r & !BOARD_MASK == 0
  {
    (mask + BOTTOM_MASK) & BOARD_MASK
  }

  /** The playable cell of column `col`, or 0 when the column is full. */
  function PlayableIn(mask: bv64, col: bv64): bv64
  {
    PlayableCells(mask) & ColumnMask(col)
  }

  /** `cell` is the lowest empty cell of column `col`: a single cell of that
      column, empty, with every cell of the column beneath it occupied. */
  predicate LowestEmpty(mask: bv64, col: bv64, cell: bv64)
  {
    OneBit(cell) && cell & !ColumnMask(col) == 0 && mask & cell == 0
    && mask & (cell - BottomMaskCol(col)) == cell - BottomMaskCol(col)
  }

  function Play(p: Position, col: bv64): Position
  {
    Position(Drop(p.mask, col), p.currentPosition ^ p.mask, p.moves + 1)
  }

  function WinningPosition(p: Position): (r: bv64)
    ensures p.mask & !BOARD_MASK == 0 ==> r & !BOARD_MASK == 0 && r & p.mask == 0
  {
    ComputeWinningPosition(p.currentPosition, p.mask)
  }

  function OpponentWinningPosition(p: Position): (r: bv64)
    ensures p.mask & !BOARD_MASK == 0 ==> r & !BOARD_MASK == 0 && r & p.mask == 0
  {
    ComputeWinningPosition(p.currentPosition ^ p.mask, p.mask)
  }

  /** The cells where a stone can be dropped: the lowest empty cell of every
      column that is not full. */
  function Possible(p: Position): bv64
  {
    PlayableCells(p.mask)
  }

  predicate CanWinNext(p: Position)
  {
    WinningPosition(p) & Possible(p) != 0
  }

  predicate IsWinningMove(p: Position, col: bv64)
  {
    WinningPosition(p) & Possible(p) & ColumnMask(col) != 0
  }

  predicate CanPlay(p: Position, col: bv64)
  {
    p.mask & TopMaskCol(col) == 0
  }

  function MoveCount(p: Position): nat
  {
    p.moves
  }

  /** A valid position has at most one move per cell of the board. */
  lemma {:induction false} MoveCountBound(p: Position)
    requires Valid(p)
    ensures MoveCount(p) <= 42
  {
    BoardMasks();
    Subset(p.mask, BOARD_MASK);
  }

  // ---------------------------------------------------------------- columns of a stacked mask

  // Facts about one column are proved for each of the seven columns with its masks
  // written out as literals (ColumnN), and carried over to a column given by its
  // index by a case split on the index.  Every fact is stated over named words
  // (Drop, PlayableIn) so that the lemmas that use it match it term for term.

  // The three masks of every column, as literals.

  lemma {:induction false} Column0Masks()
    ensures BottomMaskCol(0) == 0x1 && TopMaskCol(0) == 0x20 && ColumnMask(0) == 0x3f
  {
  }

  lemma {:induction false} Column1Masks()
    ensures BottomMaskCol(1) == 0x80 && TopMaskCol(1) == 0x1000 && ColumnMask(1) == 0x1f80
  {
  }

  lemma {:induction false} Column2Masks()
    ensures BottomMaskCol(2) == 0x4000 && TopMaskCol(2) == 0x80000 && ColumnMask(2) == 0xfc000
  {
  }

  lemma {:induction false} Column3Masks()
    ensures BottomMaskCol(3) == 0x200000 && TopMaskCol(3) == 0x4000000 && ColumnMask(3) == 0x7e00000
  {
  }

  lemma {:induction false} Column4Masks()
    ensures BottomMaskCol(4) == 0x10000000 && TopMaskCol(4) == 0x200000000 && ColumnMask(4) == 0x3f0000000
  {
  }

  lemma {:induction false} Column5Masks()
    ensures BottomMaskCol(5) == 0x800000000 && TopMaskCol(5) == 0x10000000000 && ColumnMask(5) == 0x1f800000000
  {
  }

  lemma {:induction false} Column6Masks()
    ensures BottomMaskCol(6) == 0x40000000000 && TopMaskCol(6) == 0x800000000000 && ColumnMask(6) == 0xfc0000000000
  {
  }

  lemma {:induction false} Column0Drop(mask: bv64, col: bv64)
    requires Stacked(mask) && col == 0
    ensures mask & TopMaskCol(col) == 0 ==> Drop(mask, col) == mask | PlayableIn(mask, col)
    ensures mask & TopMaskCol(col) == 0 ==> LowestEmpty(mask, col, PlayableIn(mask, col))
    ensures mask & TopMaskCol(col) == 0 ==> Stacked(mask | PlayableIn(mask, col))
    ensures mask & TopMaskCol(col) != 0 ==> PlayableIn(mask, col) == 0
    ensures (mask & TopMaskCol(col) == 0) == (ColumnMask(col) & !mask != 0)
  {
    Column0Masks();
  }

  lemma {:induction false} Column0Owners(mask: bv64, cp: bv64, col: bv64)
    requires Stacked(mask) && col == 0
    ensures (mask | PlayableIn(mask, col)) & !ColumnMask(col) == mask & !ColumnMask(col)
    ensures Within(cp, mask) ==> (mask | PlayableIn(mask, col)) & !(mask & !cp) == cp | PlayableIn(mask, col)
    ensures Within(mask & !cp, mask | PlayableIn(mask, col))
  {
    Column0Masks();
  }

  lemma {:induction false} Column1Drop(mask: bv64, col: bv64)
    requires Stacked(mask) && col == 1
    ensures mask & TopMaskCol(col) == 0 ==> Drop(mask, col) == mask | PlayableIn(mask, col)
    ensures mask & TopMaskCol(col) == 0 ==> LowestEmpty(mask, col, PlayableIn(mask, col))
    ensures mask & TopMaskCol(col) == 0 ==> Stacked(mask | PlayableIn(mask, col))
    ensures mask & TopMaskCol(col) != 0 ==> PlayableIn(mask, col) == 0
    ensures (mask & TopMaskCol(col) == 0) == (ColumnMask(col) & !mask != 0)
  {
    Column1Masks();
  }

  lemma {:induction false} Column1Owners(mask: bv64, cp: bv64, col: bv64)
    requires Stacked(mask) && col == 1
    ensures (mask | PlayableIn(mask, col)) & !ColumnMask(col) == mask & !ColumnMask(col)
    ensures Within(cp, mask) ==> (mask | PlayableIn(mask, col)) & !(mask & !cp) == cp | PlayableIn(mask, col)
    ensures Within(mask & !cp, mask | PlayableIn(mask, col))
  {
    Column1Masks();
  }

  lemma {:induction false} Column2Drop(mask: bv64, col: bv64)
    requires Stacked(mask) && col == 2
    ensures mask & TopMaskCol(col) == 0 ==> Drop(mask, col) == mask | PlayableIn(mask, col)
    ensures mask & TopMaskCol(col) == 0 ==> LowestEmpty(mask, col, PlayableIn(mask, col))
    ensures mask & TopMaskCol(col) == 0 ==> Stacked(mask | PlayableIn(mask, col))
    ensures mask & TopMaskCol(col) != 0 ==> PlayableIn(mask, col) == 0
    ensures (mask & TopMaskCol(col) == 0) == (ColumnMask(col) & !mask != 0)
  {
    Column2Masks();
  }

  lemma {:induction false} Column2Owners(mask: bv64, cp: bv64, col: bv64)
    requires Stacked(mask) && col == 2
    ensures (mask | PlayableIn(mask, col)) & !ColumnMask(col) == mask & !ColumnMask(col)
    ensures Within(cp, mask) ==> (mask | PlayableIn(mask, col)) & !(mask & !cp) == cp | PlayableIn(mask, col)
    ensures Within(mask & !cp, mask | PlayableIn(mask, col))
  {
    Column2Masks();
  }

  lemma {:induction false} Column3Drop(mask: bv64, col: bv64)
    requires Stacked(mask) && col == 3
    ensures mask & TopMaskCol(col) == 0 ==> Drop(mask, col) == mask | PlayableIn(mask, col)
    ensures mask & TopMaskCol(col) == 0 ==> LowestEmpty(mask, col, PlayableIn(mask, col))
    ensures mask & TopMaskCol(col) == 0 ==> Stacked(mask | PlayableIn(mask, col))
    ensures mask & TopMaskCol(col) != 0 ==> PlayableIn(mask, col) == 0
    ensures (mask & TopMaskCol(col) == 0) == (ColumnMask(col) & !mask != 0)
  {
    Column3Masks();
  }

  lemma {:induction false} Column3Owners(mask: bv64, cp: bv64, col: bv64)
    requires Stacked(mask) && col == 3
    ensures (mask | PlayableIn(mask, col)) & !ColumnMask(col) == mask & !ColumnMask(col)
    ensures Within(cp, mask) ==> (mask | PlayableIn(mask, col)) & !(mask & !cp) == cp | PlayableIn(mask, col)
    ensures Within(mask & !cp, mask | PlayableIn(mask, col))
  {
    Column3Masks();
  }

  lemma {:induction false} Column4Drop(mask: bv64, col: bv64)
    requires Stacked(mask) && col == 4
    ensures mask & TopMaskCol(col) == 0 ==> Drop(mask, col) == mask | PlayableIn(mask, col)
    ensures mask & TopMaskCol(col) == 0 ==> LowestEmpty(mask, col, PlayableIn(mask, col))
    ensures mask & TopMaskCol(col) == 0 ==> Stacked(mask | PlayableIn(mask, col))
    ensures mask & TopMaskCol(col) != 0 ==> PlayableIn(mask, col) == 0
    ensures (mask & TopMaskCol(col) == 0) == (ColumnMask(col) & !mask != 0)
  {
    Column4Masks();
  }

  lemma {:induction false} Column4Owners(mask: bv64, cp: bv64, col: bv64)
    requires Stacked(mask) && col == 4
    ensures (mask | PlayableIn(mask, col)) & !ColumnMask(col) == mask & !ColumnMask(col)
    ensures Within(cp, mask) ==> (mask | PlayableIn(mask, col)) & !(mask & !cp) == cp | PlayableIn(mask, col)
    ensures Within(mask & !cp, mask | PlayableIn(mask, col))
  {
    Column4Masks();
  }

  lemma {:induction false} Column5Drop(mask: bv64, col: bv64)
    requires Stacked(mask) && col == 5
    ensures mask & TopMaskCol(col) == 0 ==> Drop(mask, col) == mask | PlayableIn(mask, col)
    ensures mask & TopMaskCol(col) == 0 ==> LowestEmpty(mask, col, PlayableIn(mask, col))
    ensures mask & TopMaskCol(col) == 0 ==> Stacked(mask | PlayableIn(mask, col))
    ensures mask & TopMaskCol(col) != 0 ==> PlayableIn(mask, col) == 0
    ensures (mask & TopMaskCol(col) == 0) == (ColumnMask(col) & !mask != 0)
  {
    Column5Masks();
  }

  lemma {:induction false} Column5Owners(mask: bv64, cp: bv64, col: bv64)
    requires Stacked(mask) && col == 5
    ensures (mask | PlayableIn(mask, col)) & !ColumnMask(col) == mask & !ColumnMask(col)
    ensures Within(cp, mask) ==> (mask | PlayableIn(mask, col)) & !(mask & !cp) == cp | PlayableIn(mask, col)
    ensures Within(mask & !cp, mask | PlayableIn(mask, col))
  {
    Column5Masks();
  }

  lemma {:induction false} Column6Drop(mask: bv64, col: bv64)
    requires Stacked(mask) && col == 6
    ensures mask & TopMaskCol(col) == 0 ==> Drop(mask, col) == mask | PlayableIn(mask, col)
    ensures mask & TopMaskCol(col) == 0 ==> LowestEmpty(mask, col, PlayableIn(mask, col))
    ensures mask & TopMaskCol(col) == 0 ==> Stacked(mask | PlayableIn(mask, col))
    ensures mask & TopMaskCol(col) != 0 ==> PlayableIn(mask, col) == 0
    ensures (mask & TopMaskCol(col) == 0) == (ColumnMask(col) & !mask != 0)
  {
    Column6Masks();
  }

  lemma {:induction false} Column6Owners(mask: bv64, cp: bv64, col: bv64)
    requires Stacked(mask) && col == 6
    ensures (mask | PlayableIn(mask, col)) & !ColumnMask(col) == mask & !ColumnMask(col)
    ensures Within(cp, mask) ==> (mask | PlayableIn(mask, col)) & !(mask & !cp) == cp | PlayableIn(mask, col)
    ensures Within(mask & !cp, mask | PlayableIn(mask, col))
  {
    Column6Masks();
  }

  /** In a stacked mask: the stone Play drops into a column that is not full lands on the column's playable cell. */
  lemma {:induction false} DropIsPlayable(mask: bv64, col: bv64)
    requires Stacked(mask) && col < WIDTH
    ensures mask & TopMaskCol(col) == 0 ==> Drop(mask, col) == mask | PlayableIn(mask, col)
  {
    if col == 0 {
      Column0Drop(mask, col);
    } else if col == 1 {
      Column1Drop(mask, col);
    } else if col == 2 {
      Column2Drop(mask, col);
    } else if col == 3 {
      Column3Drop(mask, col);
    } else if col == 4 {
      Column4Drop(mask, col);
    } else if col == 5 {
      Column5Drop(mask, col);
    } else {
      assert col == 6;
      Column6Drop(mask, col);
    }
  }

  /** In a stacked mask: the playable cell of a column that is not full is its lowest empty cell. */
  lemma {:induction false} PlayableIsLowest(mask: bv64, col: bv64)
    requires Stacked(mask) && col < WIDTH
    ensures mask & TopMaskCol(col) == 0 ==> LowestEmpty(mask, col, PlayableIn(mask, col))
  {
    if col == 0 {
      Column0Drop(mask, col);
    } else if col == 1 {
      Column1Drop(mask, col);
    } else if col == 2 {
      Column2Drop(mask, col);
    } else if col == 3 {
      Column3Drop(mask, col);
    } else if col == 4 {
      Column4Drop(mask, col);
    } else if col == 5 {
      Column5Drop(mask, col);
    } else {
      assert col == 6;
      Column6Drop(mask, col);
    }
  }

  /** In a stacked mask: filling the playable cell of a column that is not full keeps the mask stacked. */
  lemma {:induction false} DropStacked(mask: bv64, col: bv64)
    requires Stacked(mask) && col < WIDTH
    ensures mask & TopMaskCol(col) == 0 ==> Stacked(mask | PlayableIn(mask, col))
  {
    if col == 0 {
      Column0Drop(mask, col);
    } else if col == 1 {
      Column1Drop(mask, col);
    } else if col == 2 {
      Column2Drop(mask, col);
    } else if col == 3 {
      Column3Drop(mask, col);
    } else if col == 4 {
      Column4Drop(mask, col);
    } else if col == 5 {
      Column5Drop(mask, col);
    } else {
      assert col == 6;
      Column6Drop(mask, col);
    }
  }

  /** In a stacked mask: a full column has no playable cell. */
  lemma {:induction false} FullNotPlayable(mask: bv64, col: bv64)
    requires Stacked(mask) && col < WIDTH
    ensures mask & TopMaskCol(col) != 0 ==> PlayableIn(mask, col) == 0
  {
    if col == 0 {
      Column0Drop(mask, col);
    } else if col == 1 {
      Column1Drop(mask, col);
    } else if col == 2 {
      Column2Drop(mask, col);
    } else if col == 3 {
      Column3Drop(mask, col);
    } else if col == 4 {
      Column4Drop(mask, col);
    } else if col == 5 {
      Column5Drop(mask, col);
    } else {
      assert col == 6;
      Column6Drop(mask, col);
    }
  }

  /** In a stacked mask: the top cell of a column is empty exactly when some cell of the column is. */
  lemma {:induction false} TopFree(mask: bv64, col: bv64)
    requires Stacked(mask) && col < WIDTH
    ensures (mask & TopMaskCol(col) == 0) == (ColumnMask(col) & !mask != 0)
  {
    if col == 0 {
      Column0Drop(mask, col);
    } else if col == 1 {
      Column1Drop(mask, col);
    } else if col == 2 {
      Column2Drop(mask, col);
    } else if col == 3 {
      Column3Drop(mask, col);
    } else if col == 4 {
      Column4Drop(mask, col);
    } else if col == 5 {
      Column5Drop(mask, col);
    } else {
      assert col == 6;
      Column6Drop(mask, col);
    }
  }

  /** In a stacked mask: filling the playable cell of a column changes no other column. */
  lemma {:induction false} DropKeepsOthers(mask: bv64, col: bv64)
    requires Stacked(mask) && col < WIDTH
    ensures (mask | PlayableIn(mask, col)) & !ColumnMask(col) == mask & !ColumnMask(col)
  {
    if col == 0 {
      Column0Owners(mask, 0, col);
    } else if col == 1 {
      Column1Owners(mask, 0, col);
    } else if col == 2 {
      Column2Owners(mask, 0, col);
    } else if col == 3 {
      Column3Owners(mask, 0, col);
    } else if col == 4 {
      Column4Owners(mask, 0, col);
    } else if col == 5 {
      Column5Owners(mask, 0, col);
    } else {
      assert col == 6;
      Column6Owners(mask, 0, col);
    }
  }

  /** In a stacked mask: the player who fills the playable cell owns their old stones and the new one. */
  lemma {:induction false} MoverOwns(mask: bv64, cp: bv64, col: bv64)
    requires Stacked(mask) && col < WIDTH
    ensures Within(cp, mask) ==> (mask | PlayableIn(mask, col)) & !(mask & !cp) == cp | PlayableIn(mask, col)
  {
    if col == 0 {
      Column0Owners(mask, cp, col);
    } else if col == 1 {
      Column1Owners(mask, cp, col);
    } else if col == 2 {
      Column2Owners(mask, cp, col);
    } else if col == 3 {
      Column3Owners(mask, cp, col);
    } else if col == 4 {
      Column4Owners(mask, cp, col);
    } else if col == 5 {
      Column5Owners(mask, cp, col);
    } else {
      assert col == 6;
      Column6Owners(mask, cp, col);
    }
  }

  /** In a stacked mask: the opponent's stones stay stones after the drop. */
  lemma {:induction false} OpponentWithin(mask: bv64, cp: bv64, col: bv64)
    requires Stacked(mask) && col < WIDTH
    ensures Within(mask & !cp, mask | PlayableIn(mask, col))
  {
    if col == 0 {
      Column0Owners(mask, cp, col);
    } else if col == 1 {
      Column1Owners(mask, cp, col);
    } else if col == 2 {
      Column2Owners(mask, cp, col);
    } else if col == 3 {
      Column3Owners(mask, cp, col);
    } else if col == 4 {
      Column4Owners(mask, cp, col);
    } else if col == 5 {
      Column5Owners(mask, cp, col);
    } else {
      assert col == 6;
      Column6Owners(mask, cp, col);
    }
  }

  /** The stones of a stacked mask plus the playable cell of a column that is not
      full: one stone more. */
  lemma {:induction false} AddPlayable(mask: bv64, col: bv64)
    requires LowestEmpty(mask, col, PlayableIn(mask, col))
    ensures BitCount(mask | PlayableIn(mask, col)) == BitCount(mask) + 1
  {
    AddCount(mask, PlayableIn(mask, col));
  }

  /** In a stacked mask: filling the playable cell of a column that is not full adds one stone. */
  lemma {:induction false} DropCount(mask: bv64, col: bv64)
    requires Stacked(mask) && col < WIDTH
    ensures mask & TopMaskCol(col) == 0 ==> BitCount(mask | PlayableIn(mask, col)) == BitCount(mask) + 1
  {
    PlayableIsLowest(mask, col);
    if mask & TopMaskCol(col) == 0 {
      AddPlayable(mask, col);
    }
  }

  // ---------------------------------------------------------------- Play

  lemma {:induction false} OwnerSwap(mask: bv64, cp: bv64)
    requires Within(cp, mask)
    ensures cp ^ mask == mask & !cp
  {
  }

  lemma {:induction false} AddCount(mask: bv64, added: bv64)
    requires OneBit(added) && mask & added == 0
    ensures BitCount(mask | added) == BitCount(mask) + 1
  {
    SingleBit(added);
    Union(mask, added);
  }

  lemma {:induction false} PlayLowest(p: Position, col: bv64)
    requires Valid(p) && col < WIDTH && CanPlay(p, col)
    ensures LowestEmpty(p.mask, col, PlayableIn(p.mask, col))
  {
    PlayableIsLowest(p.mask, col);
  }

  lemma {:induction false} PlayMask(p: Position, col: bv64)
    requires Valid(p) && col < WIDTH && CanPlay(p, col)
    ensures Play(p, col).mask == p.mask | PlayableIn(p.mask, col)
  {
    DropIsPlayable(p.mask, col);
  }

  lemma {:induction false} PlayKeepsOthers(p: Position, col: bv64)
    requires Valid(p) && col < WIDTH
    ensures (p.mask | PlayableIn(p.mask, col)) & !ColumnMask(col) == p.mask & !ColumnMask(col)
  {
    DropKeepsOthers(p.mask, col);
  }

  lemma {:induction false} PlayOwner(p: Position, col: bv64)
    requires Valid(p)
    ensures Play(p, col).currentPosition == p.mask & !p.currentPosition
  {
    OwnerSwap(p.mask, p.currentPosition);
  }

  lemma {:induction false} PlayMoverOwns(p: Position, col: bv64)
    requires Valid(p) && col < WIDTH
    ensures (p.mask | PlayableIn(p.mask, col)) & !(p.mask & !p.currentPosition) == p.currentPosition | PlayableIn(p.mask, col)
  {
    MoverOwns(p.mask, p.currentPosition, col);
  }

  lemma {:induction false} PlayMoves(p: Position, col: bv64)
    ensures Play(p, col).moves == p.moves + 1
  {
  }

  /** Play on a column that is not full of a valid position drops one stone onto
      the lowest empty cell of the column and changes no other column; the player
      to move becomes the opponent, who owns the stones the previous player to
      move did not, while the player who moved owns their stones plus the new
      one; and the move counter grows by one. */
  lemma {:induction false} PlayEffects(p: Position, col: bv64)
    requires Valid(p) && col < WIDTH && CanPlay(p, col)
    ensures LowestEmpty(p.mask, col, PlayableIn(p.mask, col))
    ensures Play(p, col).mask == p.mask | PlayableIn(p.mask, col)
    ensures (p.mask | PlayableIn(p.mask, col)) & !ColumnMask(col) == p.mask & !ColumnMask(col)
    ensures Play(p, col).currentPosition == p.mask & !p.currentPosition
    ensures (p.mask | PlayableIn(p.mask, col)) & !(p.mask & !p.currentPosition) == p.currentPosition | PlayableIn(p.mask, col)
    ensures Play(p, col).moves == p.moves + 1
  {
    PlayLowest(p, col);
    PlayMask(p, col);
    PlayKeepsOthers(p, col);
    PlayOwner(p, col);
    PlayMoverOwns(p, col);
    PlayMoves(p, col);
  }

  lemma {:induction false} PlayStacked(p: Position, col: bv64)
    requires Valid(p) && col < WIDTH && CanPlay(p, col)
    ensures Stacked(p.mask | PlayableIn(p.mask, col))
  {
    DropStacked(p.mask, col);
  }

  lemma {:induction false} PlayCount(p: Position, col: bv64)
    requires Valid(p) && col < WIDTH && CanPlay(p, col)
    ensures BitCount(p.mask | PlayableIn(p.mask, col)) == p.moves + 1
  {
    DropCount(p.mask, col);
  }

  lemma {:induction false} PlayWithin(p: Position, col: bv64)
    requires Valid(p) && col < WIDTH
    ensures Within(p.mask & !p.currentPosition, p.mask | PlayableIn(p.mask, col))
  {
    OpponentWithin(p.mask, p.currentPosition, col);
  }

  /** Play on a non-full column of a valid position gives a valid position. */
  lemma {:induction false} PlayValid(p: Position, col: bv64)
    requires Valid(p) && col < WIDTH && CanPlay(p, col)
    ensures Valid(Play(p, col))
  {
    PlayMask(p, col);
    PlayOwner(p, col);
    PlayMoves(p, col);
    PlayStacked(p, col);
    PlayCount(p, col);
    PlayWithin(p, col);
  }

  // ---------------------------------------------------------------- CanPlay, Possible

  /** In a valid position, a column can be played exactly when one of its cells is empty. */
  lemma {:induction false} CanPlayIff(p: Position, col: bv64)
    requires Valid(p) && col < WIDTH
    ensures CanPlay(p, col) <==> ColumnMask(col) & !p.mask != 0
  {
    TopFree(p.mask, col);
  }

  /** In a valid position, the possible cell of a column that can be played is its lowest empty cell. */
  lemma {:induction false} PossibleLowest(p: Position, col: bv64)
    requires Valid(p) && col < WIDTH && CanPlay(p, col)
    ensures LowestEmpty(p.mask, col, Possible(p) & ColumnMask(col))
  {
    PlayableIsLowest(p.mask, col);
    PossibleIn(p, col);
  }

  /** In a valid position, a full column has no possible cell. */
  lemma {:induction false} PossibleFull(p: Position, col: bv64)
    requires Valid(p) && col < WIDTH && !CanPlay(p, col)
    ensures Possible(p) & ColumnMask(col) == 0
  {
    FullNotPlayable(p.mask, col);
    PossibleIn(p, col);
  }

  /** The possible cell of a column is its playable cell. */
  lemma {:induction false} PossibleIn(p: Position, col: bv64)
    ensures Possible(p) & ColumnMask(col) == PlayableIn(p.mask, col)
  {
    assert Possible(p) == PlayableCells(p.mask);
  }

  /** Every possible cell is an empty cell of the board. */
  lemma {:induction false} PossibleOnBoard(p: Position)
    ensures Within(Possible(p), BOARD_MASK)
  {
  }
}
