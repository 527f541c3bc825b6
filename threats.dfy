// Threats in a position of go4.go: the immediate wins of the player to move
// (CanWinNext, IsWinningMove), the moves that do not hand the opponent one
// (NonLosingMoves) and the heuristic score used to order moves (Score).
module Threats {
  import opened Bits
  import opened Bitboard

  // ---------------------------------------------------------------- immediate wins

  /** The seven column masks cover the board: a non-empty set of board cells
      meets some column. */
  lemma {:induction false} SomeColumn(x: bv64)
    requires Within(x, BOARD_MASK) && x != 0
    ensures x & ColumnMask(0) != 0 || x & ColumnMask(1) != 0 || x & ColumnMask(2) != 0
         || x & ColumnMask(3) != 0 || x & ColumnMask(4) != 0 || x & ColumnMask(5) != 0
         || x & ColumnMask(6) != 0
  {
    BoardMasks();
    Column0Masks();
    Column1Masks();
    Column2Masks();
    Column3Masks();
    Column4Masks();
    Column5Masks();
    Column6Masks();
  }

  lemma {:induction false} PartNonZero(x: bv64, c: bv64)
    requires x & c != 0
    ensures x != 0
  {
  }

  lemma {:induction false} WinsOnBoard(w: bv64, q: bv64)
    requires Within(q, BOARD_MASK)
    ensures Within(w & q, BOARD_MASK)
  {
  }

  /** The immediate win of a position lies in one of the seven columns. */
  lemma {:induction false} WinInSomeColumn(p: Position)
    requires CanWinNext(p)
    ensures IsWinningMove(p, 0) || IsWinningMove(p, 1) || IsWinningMove(p, 2) || IsWinningMove(p, 3)
         || IsWinningMove(p, 4) || IsWinningMove(p, 5) || IsWinningMove(p, 6)
  {
    WinsOnBoard(WinningPosition(p), Possible(p));
    SomeColumn(WinningPosition(p) & Possible(p));
  }

  /** A winning move in some column is an immediate win. */
  lemma {:induction false} WinningMoveWins(p: Position, col: bv64)
    requires IsWinningMove(p, col)
    ensures CanWinNext(p)
  {
    PartNonZero(WinningPosition(p) & Possible(p), ColumnMask(col));
  }

  /** CanWinNext and IsWinningMove agree: the player to move can win at once
      exactly when one of the seven columns holds a winning move. */
  lemma {:induction false} CanWinNextIff(p: Position)
    ensures CanWinNext(p) <==> (IsWinningMove(p, 0) || IsWinningMove(p, 1) || IsWinningMove(p, 2)
                                || IsWinningMove(p, 3) || IsWinningMove(p, 4) || IsWinningMove(p, 5)
                                || IsWinningMove(p, 6))
  {
    if CanWinNext(p) {
      WinInSomeColumn(p);
    }
    if IsWinningMove(p, 0) {
      WinningMoveWins(p, 0);
    }
    if IsWinningMove(p, 1) {
      WinningMoveWins(p, 1);
    }
    if IsWinningMove(p, 2) {
      WinningMoveWins(p, 2);
    }
    if IsWinningMove(p, 3) {
      WinningMoveWins(p, 3);
    }
    if IsWinningMove(p, 4) {
      WinningMoveWins(p, 4);
    }
    if IsWinningMove(p, 5) {
      WinningMoveWins(p, 5);
    }
    if IsWinningMove(p, 6) {
      WinningMoveWins(p, 6);
    }
  }

  lemma {:induction false} AndRight(w: bv64, q: bv64, c: bv64)
    ensures (w & q) & c != 0 ==> q & c != 0
  {
  }

  /** A winning move is a move the column has room for. */
  lemma {:induction false} WinningMoveCanPlay(p: Position, col: bv64)
    requires Valid(p) && col < WIDTH && IsWinningMove(p, col)
    ensures CanPlay(p, col)
  {
    AndRight(WinningPosition(p), Possible(p), ColumnMask(col));
    PossibleIn(p, col);
    FullNotPlayable(p.mask, col);
  }

  lemma {:induction false} OneBitMeets(w: bv64, x: bv64)
    requires OneBit(x)
    ensures w & x != 0 ==> x & !w == 0
  {
  }

  lemma {:induction false} AndAssoc(w: bv64, q: bv64, c: bv64)
    ensures (w & q) & c == w & (q & c)
  {
  }

  lemma {:induction false} SingleCellMeets(w: bv64, q: bv64, c: bv64)
    requires OneBit(q & c)
    ensures (w & q) & c != 0 <==> Within(q & c, w)
  {
    AndAssoc(w, q, c);
    OneBitMeets(w, q & c);
  }

  /** A move into a column that can be played wins exactly when the cell it
      fills is one of the winning cells of the player to move. */
  lemma {:induction false} WinningMoveCell(p: Position, col: bv64)
    requires Valid(p) && col < WIDTH && CanPlay(p, col)
    ensures IsWinningMove(p, col) <==> Within(Possible(p) & ColumnMask(col), WinningPosition(p))
  {
    PossibleLowest(p, col);
    SingleCellMeets(WinningPosition(p), Possible(p), ColumnMask(col));
  }

  // ---------------------------------------------------------------- moves that do not lose

  /** NonLosingMoves (go4.go) on words: `possible` the playable cells and
      `opponentWin` the cells where the opponent would complete four in a row.
      With two forced moves (playable cells the opponent wins on) every move
      loses; with one, only the forced move is a candidate; a candidate directly
      beneath an opponent's winning cell is dropped. */
  function NonLosingCells(possible: bv64, opponentWin: bv64): bv64
  {
    var forcedMoves := possible & opponentWin;
    if forcedMoves != 0 && forcedMoves & (forcedMoves - 1) != 0 then 0
    else
      var candidates := if forcedMoves != 0 then forcedMoves else possible;
      candidates & !(opponentWin >> 1)
  }

  /** NonLosingMoves (go4.go). */
  function NonLosingMoves(p: Position): bv64
  {
    NonLosingCells(Possible(p), OpponentWinningPosition(p))
  }

  /** The playable cells the opponent would win on next: the moves forced on the player to move. */
  function ForcedMoves(p: Position): bv64
  {
    Possible(p) & OpponentWinningPosition(p)
  }

  // The three branches of NonLosingCells.

  lemma {:induction false} CellsManyForced(possible: bv64, opponentWin: bv64)
    ensures var f := possible & opponentWin;
            f != 0 && f & (f - 1) != 0 ==> NonLosingCells(possible, opponentWin) == 0
  {
  }

  lemma {:induction false} CellsSingleForced(possible: bv64, opponentWin: bv64)
    ensures var f := possible & opponentWin;
            f != 0 && f & (f - 1) == 0 ==> NonLosingCells(possible, opponentWin) == f & !(opponentWin >> 1)
  {
  }

  lemma {:induction false} CellsUnforced(possible: bv64, opponentWin: bv64)
    ensures possible & opponentWin == 0 ==> NonLosingCells(possible, opponentWin) == possible & !(opponentWin >> 1)
  {
  }

  lemma {:induction false} AndWithin(a: bv64, b: bv64)
    ensures Within(a & b, a)
  {
  }

  lemma {:induction false} WithinTrans(x: bv64, y: bv64, z: bv64)
    requires Within(x, y) && Within(y, z)
    ensures Within(x, z)
  {
  }

  lemma {:induction false} CellsWithin(possible: bv64, opponentWin: bv64)
    ensures Within(NonLosingCells(possible, opponentWin), possible)
  {
    CellsManyForced(possible, opponentWin);
    CellsSingleForced(possible, opponentWin);
    CellsUnforced(possible, opponentWin);
    var f := possible & opponentWin;
    var notBelow := !(opponentWin >> 1);
    assert Within(0, possible);
    AndWithin(f, notBelow);
    AndWithin(possible, opponentWin);
    WithinTrans(f & notBelow, f, possible);
    AndWithin(possible, notBelow);
  }

  lemma {:induction false} CellsTwoForced(possible: bv64, opponentWin: bv64)
    requires BitCount(possible & opponentWin) >= 2
    ensures NonLosingCells(possible, opponentWin) == 0
  {
    SingleBit(possible & opponentWin);
    CellsManyForced(possible, opponentWin);
  }

  lemma {:induction false} CellsOneForced(possible: bv64, opponentWin: bv64)
    requires BitCount(possible & opponentWin) == 1
    ensures Within(NonLosingCells(possible, opponentWin), possible & opponentWin)
  {
    SingleBit(possible & opponentWin);
    CellsSingleForced(possible, opponentWin);
    AndWithin(possible & opponentWin, !(opponentWin >> 1));
  }

  lemma {:induction false} CellsNotBelow(possible: bv64, opponentWin: bv64)
    ensures NonLosingCells(possible, opponentWin) & (opponentWin >> 1) == 0
  {
    CellsManyForced(possible, opponentWin);
    CellsSingleForced(possible, opponentWin);
    CellsUnforced(possible, opponentWin);
  }

  lemma {:induction false} CellsNoForced(possible: bv64, opponentWin: bv64)
    requires possible & opponentWin == 0
    ensures Within(possible & !(opponentWin >> 1), NonLosingCells(possible, opponentWin))
  {
    CellsUnforced(possible, opponentWin);
  }

  /** The moves that do not lose are possible moves. */
  lemma {:induction false} NonLosingPossible(p: Position)
    ensures Within(NonLosingMoves(p), Possible(p))
  {
    CellsWithin(Possible(p), OpponentWinningPosition(p));
  }

  /** With two or more forced moves every move loses. */
  lemma {:induction false} NonLosingTwoForced(p: Position)
    requires BitCount(ForcedMoves(p)) >= 2
    ensures NonLosingMoves(p) == 0
  {
    CellsTwoForced(Possible(p), OpponentWinningPosition(p));
  }

  /** With exactly one forced move, the forced move is the only candidate. */
  lemma {:induction false} NonLosingOneForced(p: Position)
    requires BitCount(ForcedMoves(p)) == 1
    ensures Within(NonLosingMoves(p), ForcedMoves(p))
  {
    CellsOneForced(Possible(p), OpponentWinningPosition(p));
  }

  /** No move that does not lose fills the cell beneath a cell the opponent wins on. */
  lemma {:induction false} NonLosingNotBelow(p: Position)
    ensures NonLosingMoves(p) & (OpponentWinningPosition(p) >> 1) == 0
  {
    CellsNotBelow(Possible(p), OpponentWinningPosition(p));
  }

  /** Without forced moves, every possible move not beneath an opponent's winning cell is kept. */
  lemma {:induction false} NonLosingNoForced(p: Position)
    requires ForcedMoves(p) == 0
    ensures Within(Possible(p) & !(OpponentWinningPosition(p) >> 1), NonLosingMoves(p))
  {
    CellsNoForced(Possible(p), OpponentWinningPosition(p));
  }

  lemma {:induction false} WithinMeets(x: bv64, y: bv64, c: bv64)
    requires Within(x, y) && x & c != 0
    ensures y & c != 0
  {
  }

  /** A column holding one of a set of possible cells (the moves negamax
      tries) can be played. */
  lemma {:induction false} ChosenCanPlay(p: Position, next: bv64, col: bv64)
    requires Valid(p) && col < WIDTH && Within(next, Possible(p)) && next & ColumnMask(col) != 0
    ensures CanPlay(p, col)
  {
    if !CanPlay(p, col) {
      PossibleFull(p, col);
      WithinMeets(next, Possible(p), ColumnMask(col));
      assert false;
    }
  }

  // ---------------------------------------------------------------- score

  /** The winning cells of the opponent number at most 64, and at most 42 when
      every stone is on the board. */
  lemma {:induction false} OpponentWinsBound(p: Position)
    ensures BitCount(OpponentWinningPosition(p)) <= 64
    ensures Within(p.mask, BOARD_MASK) ==> BitCount(OpponentWinningPosition(p)) <= 42
  {
    CountAtMost64(OpponentWinningPosition(p));
    if Within(p.mask, BOARD_MASK) {
      BoardMasks();
      Subset(OpponentWinningPosition(p), BOARD_MASK);
    }
  }

  /** Score (go4.go): the number of cells where the player who just moved (the
      opponent of the player to move) would complete four in a row; at most 64,
      and at most 42 when every stone is on the board. */
  method Score(p: Position) returns (s: int)
    ensures s == BitCount(OpponentWinningPosition(p))
    ensures 0 <= s <= 64
    ensures Within(p.mask, BOARD_MASK) ==> s <= 42
  {
    s := Popcount(OpponentWinningPosition(p));
    OpponentWinsBound(p);
  }
}
