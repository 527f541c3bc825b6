// The move-string driver of the solver (go4.go, play): the moves are read one
// byte at a time as column digits '1'..'7' and played from the empty board; the
// first byte that is not a column, names a full column or would win the game
// stops the replay.  A replay that passes is solved with a fresh table.
module Driver {
  import opened Bits
  import opened Bitboard
  import opened Threats
  import opened Table
  import opened Search

  /** The number of slots of the table play allocates (an odd number). */
  const TABLE_SIZE: nat := 16777259

  /** The bytes '1' (0x31) to '7' (0x37): the digits that name a column. */
  predicate Digit(b: bv8)
  {
    0x31 <= b <= 0x37
  }

  /** The column a move byte names (Go: `uint(moves[i] - '1')`): the byte
      subtraction wraps modulo 256, so every byte below '1' maps to a large
      column.  The column is on the board exactly for the digits '1'..'7',
      and is then the digit's value minus one. */
  function ColumnOf(c: bv8): (col: bv64)
    ensures col < 256
    ensures col < WIDTH <==> Digit(c)
    ensures col < WIDTH ==> col as int == c as int - 0x31
  {
    (c - 0x31) as bv64
  }

  /** How a replay ends: the position reached, or the index of the first move
      that is out of range, plays into a full column, or would end the game. */
  datatype Outcome = Ready(p: Position) | OutOfRange(i: nat) | ColumnFull(i: nat) | WouldWin(i: nat)

  /** The verdict on one move: off the board, into a full column, a winning
      move, or the position after it. */
  datatype Step = Off | Full | Wins | Moves(next: Position)

  /** One move of play (go4.go), checked in the order of the source: column
      range, then a free cell, then no win; only a move passing all three is
      played.  Exactly the columns off the board are refused as out of range. */
  function Move(p: Position, col: bv64): (s: Step)
    ensures s.Off? <==> col >= WIDTH
  {
    if col >= WIDTH then Off
    else if !CanPlay(p, col) then Full
    else if IsWinningMove(p, col) then Wins
    else Moves(Play(p, col))
  }

  /** The replay of `moves[i..]` from `p`, each byte judged by `step`; the first
      refused byte stops it. */
  function Run(step: (Position, bv64) -> Step, p: Position, moves: seq<bv8>, i: nat): Outcome
    requires i <= |moves|
    decreases |moves| - i
  {
    if i == |moves| then Ready(p)
    else
      match step(p, ColumnOf(moves[i]))
      case Off => OutOfRange(i)
      case Full => ColumnFull(i)
      case Wins => WouldWin(i)
      case Moves(q) => Run(step, q, moves, i + 1)
  }

  /** The replay play performs: every byte judged by Move, from the empty board. */
  function Replay(moves: seq<bv8>): Outcome
  {
    Run(Move, EMPTY, moves, 0)
  }

  /** The loop of play (go4.go) that replays the move string from the empty board. */
  method Parse(moves: seq<bv8>) returns (r: Outcome)
    ensures r == Replay(moves)
  {
    var p := EMPTY;
    var i := 0;
    while i < |moves|
      invariant i <= |moves|
      invariant Run(Move, p, moves, i) == Replay(moves)
    {
      var col := ColumnOf(moves[i]);
      if col >= WIDTH {
        return OutOfRange(i);
      } else if !CanPlay(p, col) {
        return ColumnFull(i);
      } else if IsWinningMove(p, col) {
        return WouldWin(i);
      }
      p := Play(p, col);
      i := i + 1;
    }
    return Ready(p);
  }

  /** What play reports: the error that stopped the replay, or the score and
      the number of explored positions of the position reached. */
  datatype Report = Rejected(error: Outcome) | Solved(score: int, states: nat)

  /** play (go4.go): replay the moves; if they pass, solve the position reached
      with a new table of TABLE_SIZE slots. */
  method PlayMoves(moves: seq<bv8>) returns (r: Report)
    ensures r.Solved? <==> Replay(moves).Ready?
    ensures r.Rejected? ==> r.error == Replay(moves)
    ensures r.Solved? && CanWinNext(Replay(moves).p) ==> r.score == (43 - |moves|) / 2 && r.states == 1
  {
    var outcome := Parse(moves);
    if !outcome.Ready? {
      return Rejected(outcome);
    }
    ReplayFromEmpty(moves);
    MoveCountBound(outcome.p);
    var table := new TranspositionTable(TABLE_SIZE);
    var score, states := Solve(table, outcome.p);
    return Solved(score, states);
  }

  // ---------------------------------------------------------------- properties

  /** A step that refuses exactly the columns off the board. */
  ghost predicate RangeChecked(step: (Position, bv64) -> Step)
  {
    forall q: Position, c: bv64 :: step(q, c).Off? <==> c >= WIDTH
  }

  /** A step that plays one stone on a valid position into a valid position. */
  ghost predicate KeepsValid(step: (Position, bv64) -> Step)
  {
    forall q: Position, c: bv64 :: Valid(q) && step(q, c).Moves? ==>
      Valid(step(q, c).next) && step(q, c).next.moves == q.moves + 1
  }

  /** A replay that passes read only column digits. */
  lemma {:induction false} ReadyDigits(step: (Position, bv64) -> Step, p: Position, moves: seq<bv8>, i: nat)
    requires RangeChecked(step) && i <= |moves|
    ensures Run(step, p, moves, i).Ready? ==>
              forall k :: i <= k < |moves| ==> Digit(moves[k])
    decreases |moves| - i
  {
    if i < |moves| && step(p, ColumnOf(moves[i])).Moves? {
      ReadyDigits(step, step(p, ColumnOf(moves[i])).next, moves, i + 1);
    }
  }

  /** A replay that stops names a move of the string, every move before it is a
      column digit, and the move it names is one exactly when the stop is not
      for range. */
  lemma {:induction false} StopIndex(step: (Position, bv64) -> Step, p: Position, moves: seq<bv8>, i: nat)
    requires RangeChecked(step) && i <= |moves|
    ensures !Run(step, p, moves, i).Ready? ==>
              var j := Run(step, p, moves, i).i;
              i <= j < |moves|
              && (forall k :: i <= k < j ==> Digit(moves[k]))
              && (Run(step, p, moves, i).OutOfRange? <==> !Digit(moves[j]))
    decreases |moves| - i
  {
    if i < |moves| && step(p, ColumnOf(moves[i])).Moves? {
      StopIndex(step, step(p, ColumnOf(moves[i])).next, moves, i + 1);
    }
  }

  /** A replay from a valid position that passes ends in a valid position with
      one more move for every remaining byte. */
  lemma {:induction false} RunValid(step: (Position, bv64) -> Step, p: Position, moves: seq<bv8>, i: nat)
    requires KeepsValid(step) && Valid(p) && i <= |moves|
    ensures Run(step, p, moves, i).Ready? ==>
              Valid(Run(step, p, moves, i).p) && Run(step, p, moves, i).p.moves == p.moves + |moves| - i
    decreases |moves| - i
  {
    if i < |moves| && step(p, ColumnOf(moves[i])).Moves? {
      RunValid(step, step(p, ColumnOf(moves[i])).next, moves, i + 1);
    }
  }

  /** A move play accepts keeps the position valid and adds one stone. */
  lemma {:induction false} MoveValid(p: Position, col: bv64)
    requires Valid(p)
    ensures Move(p, col).Moves? ==> Valid(Move(p, col).next) && Move(p, col).next.moves == p.moves + 1
  {
    if col < WIDTH && CanPlay(p, col) && !IsWinningMove(p, col) {
      PlayValid(p, col);
    }
  }

  lemma {:induction false} EmptyValid()
    ensures Valid(EMPTY) && EMPTY.moves == 0
  {
    assert BitCount(0) == 0;
  }

  /** The position play reaches is valid and has one stone per move. */
  lemma {:induction false} ReplayFromEmpty(moves: seq<bv8>)
    ensures Replay(moves).Ready? ==> Valid(Replay(moves).p) && Replay(moves).p.moves == |moves|
  {
    EmptyValid();
    forall q: Position, c: bv64 | Valid(q) && Move(q, c).Moves?
      ensures Valid(Move(q, c).next) && Move(q, c).next.moves == q.moves + 1
    {
      MoveValid(q, c);
    }
    RunValid(Move, EMPTY, moves, 0);
  }

  /** The moves of a replay play accepts are column digits; a rejected replay
      names the first byte that is not one, or a digit after digits only. */
  lemma {:induction false} ReplayBytes(moves: seq<bv8>)
    ensures Replay(moves).Ready? ==> forall k :: 0 <= k < |moves| ==> Digit(moves[k])
    ensures !Replay(moves).Ready? ==>
              var j := Replay(moves).i;
              j < |moves| && (forall k :: 0 <= k < j ==> Digit(moves[k]))
              && (Replay(moves).OutOfRange? <==> !Digit(moves[j]))
  {
    assert RangeChecked(Move);
    ReadyDigits(Move, EMPTY, moves, 0);
    StopIndex(Move, EMPTY, moves, 0);
  }

  /** A move into a column on the board is refused as full exactly when play's
      CanPlay test fails. */
  lemma {:induction false} MoveFullCanPlay(p: Position, col: bv64)
    requires col < WIDTH
    ensures Move(p, col).Full? <==> !CanPlay(p, col)
  {
  }

  /** In a valid position, a move into a column on the board is refused as full
      exactly when the column has no empty cell. */
  lemma {:induction false} MoveFull(p: Position, col: bv64)
    requires Valid(p) && col < WIDTH
    ensures Move(p, col).Full? <==> ColumnMask(col) & !p.mask == 0
  {
    MoveFullCanPlay(p, col);
    CanPlayIff(p, col);
  }

  /** A move into a playable column is refused as winning exactly when play's
      IsWinningMove test holds. */
  lemma {:induction false} MoveWinsTest(p: Position, col: bv64)
    requires col < WIDTH && CanPlay(p, col)
    ensures Move(p, col).Wins? <==> IsWinningMove(p, col)
  {
  }

  /** In a valid position, a move into a column with an empty cell is refused as
      winning exactly when the column's lowest empty cell lies in
      WinningPosition. */
  lemma {:induction false} MoveWins(p: Position, col: bv64)
    requires Valid(p) && col < WIDTH && ColumnMask(col) & !p.mask != 0
    ensures Move(p, col).Wins? <==> Within(Possible(p) & ColumnMask(col), WinningPosition(p))
  {
    CanPlayIff(p, col);
    MoveWinsTest(p, col);
    WinningMoveCell(p, col);
  }

  /** The reason a replay stopped is the verdict on the move it names. */
  predicate StoppedBy(o: Outcome, s: Step)
  {
    (o.OutOfRange? && s.Off?) || (o.ColumnFull? && s.Full?) || (o.WouldWin? && s.Wins?)
  }

  /** A replay that stops at move j stops for the verdict of `step` on that move
      in the position the replay of the moves before j reaches. */
  lemma {:induction false} StopAt(step: (Position, bv64) -> Step, p: Position, moves: seq<bv8>, i: nat)
    requires i <= |moves|
    ensures !Run(step, p, moves, i).Ready? ==>
              var j := Run(step, p, moves, i).i;
              i <= j < |moves| && Run(step, p, moves[..j], i).Ready?
              && StoppedBy(Run(step, p, moves, i), step(Run(step, p, moves[..j], i).p, ColumnOf(moves[j])))
    decreases |moves| - i
  {
    if i < |moves| {
      var s := step(p, ColumnOf(moves[i]));
      if s.Moves? {
        StopAt(step, s.next, moves, i + 1);
        if !Run(step, p, moves, i).Ready? {
          var j := Run(step, p, moves, i).i;
          assert moves[..j][i] == moves[i];
        }
      } else {
        assert |moves[..i]| == i;
      }
    }
  }

  /** Why move `col` is refused in position `q`, in terms of the board: out of
      range exactly when it names no column; into a full column exactly when
      the column has no empty cell; and would end the game exactly when the
      column has an empty cell lying in WinningPosition. */
  predicate RefusedFor(o: Outcome, q: Position, col: bv64)
  {
    (o.OutOfRange? <==> col >= WIDTH)
    && (o.ColumnFull? <==> col < WIDTH && ColumnMask(col) & !q.mask == 0)
    && (o.WouldWin? <==>
          col < WIDTH && ColumnMask(col) & !q.mask != 0
          && Within(Possible(q) & ColumnMask(col), WinningPosition(q)))
  }

  /** A replay play rejects names move j, and the position q reached by the
      moves before it is valid with j moves; the reason given is RefusedFor
      that move in q. */
  lemma {:induction false} ReplayStop(moves: seq<bv8>)
    ensures !Replay(moves).Ready? ==>
              var j := Replay(moves).i;
              j < |moves| && Replay(moves[..j]).Ready?
              && Valid(Replay(moves[..j]).p) && Replay(moves[..j]).p.moves == j
              && RefusedFor(Replay(moves), Replay(moves[..j]).p, ColumnOf(moves[j]))
  {
    if !Replay(moves).Ready? {
      var j := Replay(moves).i;
      StopAt(Move, EMPTY, moves, 0);
      ReplayFromEmpty(moves[..j]);
      StopReason(Replay(moves), Replay(moves[..j]).p, ColumnOf(moves[j]));
    }
  }

  /** The reason a replay stopped for the verdict of Move on a valid position,
      in terms of the board. */
  lemma {:induction false} StopReason(o: Outcome, q: Position, col: bv64)
    requires !o.Ready? && Valid(q) && StoppedBy(o, Move(q, col))
    ensures RefusedFor(o, q, col)
  {
    if col < WIDTH {
      MoveFull(q, col);
      if ColumnMask(col) & !q.mask != 0 {
        MoveWins(q, col);
      }
    }
  }
}
