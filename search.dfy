// The search of go4.go around the position algebra: the alpha-beta window of
// negamax, its move ordering (an insertion sort by score into a fixed array of
// WIDTH entries), the recursion with the transposition table, and the
// narrowing loop of solve.  The game value the search computes is not
// specified here; the model keeps to windows, ordering, bounds and termination.
module Search {
  import opened Bits
  import opened Bitboard
  import opened Threats
  import opened Keys
  import opened Table

  /** Go's `/` on int: the quotient truncated toward zero, so that the
      remainder `a - q * b` takes the sign of the dividend. */
  function GoDiv(a: int, b: int): (q: int)
    requires b > 0
    ensures a >= 0 ==> 0 <= a - q * b < b
    ensures a < 0 ==> -b < a - q * b <= 0
  {
    if a >= 0 then a / b else -((-a) / b)
  }

  /** Halving toward zero moves a number no further from 0: for a < 0,
      a <= GoDiv(a, 2) <= 0, and for a > 0, 0 <= GoDiv(a, 2) < a. */
  lemma {:induction false} HalfBetween(a: int)
    ensures a <= 0 ==> a <= GoDiv(a, 2) <= 0
    ensures a > 0 ==> 0 <= GoDiv(a, 2) < a
  {
  }

  // ---------------------------------------------------------------- the window

  /** The score of a position where every move loses at once:
      `-int(WIDTH*HEIGHT - moves) / 2`. */
  function LossScore(moves: nat): int
    requires moves <= 42
  {
    GoDiv(-(42 - moves), 2)
  }

  /** The lower bound of the score when the opponent cannot win next move:
      `-int(WIDTH*HEIGHT - 2 - moves) / 2`. */
  function LowerBound(moves: nat): int
    requires moves < 40
  {
    GoDiv(-(42 - 2 - moves), 2)
  }

  /** The upper bound of the score when the player to move cannot win next
      move: `int(WIDTH*HEIGHT - 1 - moves) / 2`. */
  function UpperBound(moves: nat): int
    requires moves < 40
  {
    (42 - 1 - moves) / 2
  }

  /** The table value for a score: `uint8(alpha - MIN_SCORE + 1)`, which wraps. */
  function Encode(score: int): u8
  {
    ((score - MIN_SCORE + 1) % 256) as u8
  }

  /** The upper bound a table value gives: `int(val) + MIN_SCORE - 1`. */
  function Decode(val: u8): int
  {
    val as int + MIN_SCORE - 1
  }

  /** The upper bound negamax uses: the table's value when Get succeeds with a
      value other than 0 (0 marks an unknown position), else UpperBound. */
  function Upper(moves: nat, val: u8, status: Status): int
    requires moves < 40
  {
    if status == Success && val != 0 then Decode(val) else UpperBound(moves)
  }

  function Max(a: int, b: int): int
  {
    if a < b then b else a
  }

  function Min(a: int, b: int): int
  {
    if a < b then a else b
  }

  /** The outcome of narrowing the window: a score returned at once, or the
      window the search goes on with. */
  datatype Window = Cut(score: int) | Open(alpha: int, beta: int)

  /** The window clamping of negamax (go4.go): alpha is raised to `lower` and,
      if that empties the window, alpha is returned; then beta is lowered to
      `upper` and, if that empties the window, beta is returned.  The window
      the search goes on with is the given one cut down to [lower, upper]; for
      a non-empty given window, the search goes on exactly when the cut-down
      window is non-empty. */
  function Clamp(alpha: int, beta: int, lower: int, upper: int): (w: Window)
    ensures w.Open? ==> w.alpha == Max(alpha, lower) && w.beta == Min(beta, upper)
    ensures alpha < beta ==> (w.Open? <==> Max(alpha, lower) < Min(beta, upper))
    ensures w.Cut? ==> (alpha < lower && w.score == lower && lower >= beta)
                       || (beta > upper && w.score == upper && Max(alpha, lower) >= upper)
  {
    var a := if alpha < lower then lower else alpha;
    if alpha < lower && a >= beta then Cut(a)
    else
      var b := if beta > upper then upper else beta;
      if beta > upper && a >= b then Cut(b) else Open(a, b)
  }

  /** A score in [MIN_SCORE, MIN_SCORE + 254] is stored as a non-zero value
      that gives the score back. */
  lemma {:induction false} EncodeDecode(score: int)
    requires MIN_SCORE <= score <= MIN_SCORE + 254
    ensures Encode(score) != 0 && Decode(Encode(score)) == score
  {
  }

  /** The scores below MIN_SCORE that negamax's lower bound allows near the
      start of the game are stored out of range: MIN_SCORE - 1 as 0 (read back
      as unknown), MIN_SCORE - 2 as 255 (read back as the bound 236). */
  lemma {:induction false} EncodeWraps()
    ensures LowerBound(1) == MIN_SCORE - 1 && Encode(MIN_SCORE - 1) == 0
    ensures LowerBound(0) == MIN_SCORE - 2 && Encode(MIN_SCORE - 2) == 255 && Decode(255) == 236
  {
  }

  // ---------------------------------------------------------------- move ordering

  /** An entry of the move list: a position and its score (Go: PositionListEntry). */
  datatype Entry<T> = Entry(p: T, s: int)

  /** Scores never increase along the list. */
  predicate NonIncreasing<T>(l: seq<Entry<T>>)
  {
    forall i, j :: 0 <= i < j < |l| ==> l[i].s >= l[j].s
  }

  /** The insertion of one entry as negamax does it: `e` goes after the last
      entry whose score is at least its own, the entries after it move up by one. */
  function InsertDesc<T>(l: seq<Entry<T>>, e: Entry<T>): (r: seq<Entry<T>>)
    ensures |r| == |l| + 1
  {
    if |l| == 0 || l[|l| - 1].s >= e.s then l + [e]
    else InsertDesc(l[..|l| - 1], e) + [l[|l| - 1]]
  }

  /** The list after inserting every entry of `l` in turn into an empty list. */
  function OrderOf<T>(l: seq<Entry<T>>): (r: seq<Entry<T>>)
    ensures |r| == |l|
  {
    if |l| == 0 then [] else InsertDesc(OrderOf(l[..|l| - 1]), l[|l| - 1])
  }

  /** InsertDesc puts `e` at the first position `i` from the end where every
      entry after `i` scores less than `e` and the entry before (if any) at
      least as much; the entries before and after keep their order. */
  lemma {:induction false} InsertDescAt<T>(l: seq<Entry<T>>, e: Entry<T>, i: nat)
    requires i <= |l| && (i == 0 || l[i - 1].s >= e.s)
    requires forall k :: i <= k < |l| ==> l[k].s < e.s
    ensures InsertDesc(l, e) == l[..i] + [e] + l[i..]
    decreases |l|
  {
    if i < |l| {
      var init := l[..|l| - 1];
      assert init[..i] == l[..i];
      InsertDescAt(init, e, i);
      assert init[i..] + [l[|l| - 1]] == l[i..];
    } else {
      assert l[..i] == l;
    }
  }

  /** InsertDesc adds `e` and keeps every entry. */
  lemma {:induction false} InsertDescPerm<T>(l: seq<Entry<T>>, e: Entry<T>)
    ensures multiset(InsertDesc(l, e)) == multiset(l) + multiset{e}
    decreases |l|
  {
    if |l| == 0 || l[|l| - 1].s >= e.s {
    } else {
      var init := l[..|l| - 1];
      InsertDescPerm(init, e);
      assert l == init + [l[|l| - 1]];
    }
  }

  /** Inserting into a list sorted by non-increasing score keeps it sorted. */
  lemma {:induction false} InsertDescSorted<T>(l: seq<Entry<T>>, e: Entry<T>)
    requires NonIncreasing(l)
    ensures NonIncreasing(InsertDesc(l, e))
    decreases |l|
  {
    if |l| == 0 || l[|l| - 1].s >= e.s {
    } else {
      var init := l[..|l| - 1];
      var last := l[|l| - 1];
      InsertDescSorted(init, e);
      InsertDescPerm(init, e);
      var r := InsertDesc(init, e);
      forall k | 0 <= k < |r|
        ensures r[k].s >= last.s
      {
        assert r[k] in multiset(r);
        if r[k] != e {
          assert r[k] in multiset(init);
          var j :| 0 <= j < |init| && init[j] == r[k];
          assert l[j] == r[k];
        }
      }
      assert InsertDesc(l, e) == r + [last];
    }
  }

  /** The move order is sorted by non-increasing score. */
  lemma {:induction false} OrderSorted<T>(l: seq<Entry<T>>)
    ensures NonIncreasing(OrderOf(l))
    decreases |l|
  {
    if |l| > 0 {
      OrderSorted(l[..|l| - 1]);
      InsertDescSorted(OrderOf(l[..|l| - 1]), l[|l| - 1]);
    }
  }

  /** The move order holds the same entries as the list it orders. */
  lemma {:induction false} OrderPerm<T>(l: seq<Entry<T>>)
    ensures multiset(OrderOf(l)) == multiset(l)
    decreases |l|
  {
    if |l| > 0 {
      OrderPerm(l[..|l| - 1]);
      InsertDescPerm(OrderOf(l[..|l| - 1]), l[|l| - 1]);
      assert l == l[..|l| - 1] + [l[|l| - 1]];
    }
  }

  /** The inner loop of the move ordering (go4.go): shifts the entries of
      `moves[..count]` scoring less than `move` up by one, from the end, and
      puts `move` into the gap at `idx`. */
  method InsertMove<T>(moves: array<Entry<T>>, count: nat, move: Entry<T>) returns (idx: nat)
    requires count < moves.Length
    modifies moves
    ensures idx <= count
    ensures moves[..count + 1] == old(moves[..idx]) + [move] + old(moves[idx..count])
    ensures moves[..count + 1] == InsertDesc(old(moves[..count]), move)
    ensures moves[count + 1..] == old(moves[count + 1..])
  {
    ghost var before, tail := moves[..count], moves[count + 1..];
    ghost var cur := moves[..];
    idx := count;
    while idx > 0 && moves[idx - 1].s < move.s
      invariant moves[..] == cur && |cur| == moves.Length
      invariant idx <= count
      invariant cur[..idx] == before[..idx]
      invariant cur[idx + 1..count + 1] == before[idx..count]
      invariant forall k :: idx <= k < count ==> before[k].s < move.s
      invariant cur[count + 1..] == tail
    {
      ShiftUp(cur, before, idx, count);
      moves[idx] := moves[idx - 1];
      cur := cur[idx := cur[idx - 1]];
      idx := idx - 1;
    }
    FillGap(cur, before, idx, count, move);
    moves[idx] := move;
    cur := cur[idx := move];
    assert moves[..count + 1] == cur[..count + 1] && moves[count + 1..] == cur[count + 1..];
    assert old(moves[..idx]) == before[..idx] && old(moves[idx..count]) == before[idx..count];
    InsertDescAt(before, move, idx);
  }

  /** One round of the inner loop: copying the entry below the gap at `idx`
      into it moves the gap down by one. */
  lemma {:induction false} ShiftUp<T>(prior: seq<Entry<T>>, before: seq<Entry<T>>, idx: nat, count: nat)
    requires 0 < idx <= count < |prior| && |before| == count
    requires prior[..idx] == before[..idx] && prior[idx + 1..count + 1] == before[idx..count]
    ensures prior[idx := prior[idx - 1]][..idx - 1] == before[..idx - 1]
    ensures prior[idx := prior[idx - 1]][idx..count + 1] == before[idx - 1..count]
    ensures prior[idx := prior[idx - 1]][count + 1..] == prior[count + 1..]
  {
    var next := prior[idx := prior[idx - 1]];
    assert next[idx..count + 1] == [prior[idx - 1]] + prior[idx + 1..count + 1];
    assert before[idx - 1..count] == [before[idx - 1]] + before[idx..count];
    assert prior[idx - 1] == prior[..idx][idx - 1];
  }

  /** Writing `move` into the gap at `idx` of the shifted entries gives the
      entries before the gap, `move`, then the shifted ones; nothing past
      `count` changes. */
  lemma {:induction false} FillGap<T>(shifted: seq<Entry<T>>, before: seq<Entry<T>>, idx: nat, count: nat, move: Entry<T>)
    requires idx <= count < |shifted| && |before| == count
    requires shifted[..idx] == before[..idx] && shifted[idx + 1..count + 1] == before[idx..count]
    ensures shifted[idx := move][..count + 1] == before[..idx] + [move] + before[idx..count]
    ensures shifted[idx := move][count + 1..] == shifted[count + 1..]
  {
    var filled := shifted[idx := move];
    assert filled[..count + 1] == filled[..idx] + [filled[idx]] + filled[idx + 1..count + 1];
    assert filled[..idx] == shifted[..idx];
    assert filled[idx + 1..count + 1] == shifted[idx + 1..count + 1];
  }

  /** The entries `child(i)` for the indices `i < x` that are `chosen`, in order. */
  function Picked<T>(chosen: nat -> bool, child: nat -> Entry<T>, x: nat): (l: seq<Entry<T>>)
    ensures |l| <= x
  {
    if x == 0 then []
    else Picked(chosen, child, x - 1) + (if chosen(x - 1) then [child(x - 1)] else [])
  }

  /** The move-ordering loop of negamax (go4.go), for any kind of entry: for
      x from 0 to WIDTH - 1, the entry `child(x)` of every chosen x is inserted
      into `moves[..count]`, which stays sorted by non-increasing score.  The
      array has WIDTH slots, first filled with `blank` (Go's zero entry). */
  method OrderBy<T>(chosen: nat -> bool, child: nat -> Entry<T>, blank: Entry<T>)
    returns (moves: array<Entry<T>>, count: nat)
    ensures fresh(moves) && moves.Length == 7 && count <= 7
    ensures moves[..count] == OrderOf(Picked(chosen, child, 7))
  {
    moves := new Entry<T>[7](_ => blank);
    count := 0;
    var x: nat := 0;
    while x < 7
      invariant x <= 7 && count <= x
      invariant moves[..count] == OrderOf(Picked(chosen, child, x))
    {
      if chosen(x) {
        var move := child(x);
        assert Picked(chosen, child, x + 1) == Picked(chosen, child, x) + [move];
        var _ := InsertMove(moves, count, move);
        count := count + 1;
      } else {
        assert Picked(chosen, child, x + 1) == Picked(chosen, child, x);
      }
      x := x + 1;
    }
  }

  /** The column tried x-th: COLUMN_ORDER, centre first. */
  function ColumnAt(x: nat): bv64
  {
    if x < 7 then COLUMN_ORDER[x] else 0
  }

  lemma {:induction false} ColumnAtInRange(x: nat)
    ensures ColumnAt(x) < WIDTH
  {
    if x == 0 {
    } else if x == 1 {
    } else if x == 2 {
    } else if x == 3 {
    } else if x == 4 {
    } else if x == 5 {
    } else if x == 6 {
    }
  }

  /** The columns negamax tries: those meeting the moves that do not lose
      (Go: `next & columnMask(COLUMN_ORDER[x]) != 0`). */
  function Chosen(next: bv64): nat -> bool
  {
    (x: nat) => next & ColumnMask(ColumnAt(x)) != 0
  }

  /** The child of `p` by a move in `col`, with its score (Go: `PositionListEntry{p2, p2.Score()}`). */
  function Child(p: Position, col: bv64): Entry<Position>
  {
    Entry(Play(p, col), BitCount(OpponentWinningPosition(Play(p, col))))
  }

  function ChildAt(p: Position): nat -> Entry<Position>
  {
    (x: nat) => Child(p, ColumnAt(x))
  }

  /** The entries of negamax's move list before ordering: the children of `p`
      for the first `x` columns of COLUMN_ORDER that meet `next`. */
  function Children(p: Position, next: bv64, x: nat): seq<Entry<Position>>
  {
    Picked(Chosen(next), ChildAt(p), x)
  }

  /** Every entry of `l` is a position one move after `p`. */
  predicate OneMoveOn(p: Position, l: seq<Entry<Position>>)
  {
    forall k :: 0 <= k < |l| ==> l[k].p.moves == p.moves + 1
  }

  /** Every entry of `l` is a valid position. */
  predicate AllValid(l: seq<Entry<Position>>)
  {
    forall k :: 0 <= k < |l| ==> Valid(l[k].p)
  }

  /** The children of the first `x` columns: those of the first `x - 1`, then
      the child of column x - 1 when it is chosen. */
  lemma {:induction false} ChildrenStep(p: Position, next: bv64, x: nat)
    requires x > 0
    ensures Children(p, next, x) == Children(p, next, x - 1) + Tried(p, next, x - 1)
  {
  }

  /** The list dropped into negamax's move list for column x: its child, or nothing. */
  function Tried(p: Position, next: bv64, x: nat): seq<Entry<Position>>
  {
    if Chosen(next)(x) then [Child(p, ColumnAt(x))] else []
  }

  lemma {:induction false} OneMoveOnAppend(p: Position, l: seq<Entry<Position>>, e: seq<Entry<Position>>, r: seq<Entry<Position>>)
    requires OneMoveOn(p, l) && OneMoveOn(p, e) && r == l + e
    ensures OneMoveOn(p, r)
  {
    forall k | 0 <= k < |r|
      ensures r[k].p.moves == p.moves + 1
    {
      if k >= |l| {
        assert r[k] == e[k - |l|];
      }
    }
  }

  lemma {:induction false} ChildrenMoves(p: Position, next: bv64, x: nat)
    ensures OneMoveOn(p, Children(p, next, x))
    decreases x
  {
    if x > 0 {
      ChildrenMoves(p, next, x - 1);
      ChildrenStep(p, next, x);
      assert OneMoveOn(p, Tried(p, next, x - 1));
      OneMoveOnAppend(p, Children(p, next, x - 1), Tried(p, next, x - 1), Children(p, next, x));
    }
  }

  /** A move into a column meeting the moves negamax may try gives a valid position. */
  lemma {:induction false} ChildValid(p: Position, next: bv64, col: bv64)
    requires Valid(p) && col < WIDTH && Within(next, Possible(p)) && next & ColumnMask(col) != 0
    ensures Valid(Child(p, col).p)
  {
    ChosenCanPlay(p, next, col);
    PlayValid(p, col);
  }

  lemma {:induction false} ChildrenValid(p: Position, next: bv64, x: nat)
    requires Valid(p) && Within(next, Possible(p))
    ensures AllValid(Children(p, next, x))
    decreases x
  {
    if x > 0 {
      ChildrenValid(p, next, x - 1);
      ChildrenStep(p, next, x);
      if Chosen(next)(x - 1) {
        ColumnAtInRange(x - 1);
        ChildValid(p, next, ColumnAt(x - 1));
      }
      assert AllValid(Tried(p, next, x - 1));
      AllValidAppend(Children(p, next, x - 1), Tried(p, next, x - 1), Children(p, next, x));
    }
  }

  lemma {:induction false} AllValidAppend(l: seq<Entry<Position>>, e: seq<Entry<Position>>, r: seq<Entry<Position>>)
    requires AllValid(l) && AllValid(e) && r == l + e
    ensures AllValid(r)
  {
    forall k | 0 <= k < |r|
      ensures Valid(r[k].p)
    {
      if k >= |l| {
        assert r[k] == e[k - |l|];
      }
    }
  }

  /** A permutation of a list of entries one move on is one move on. */
  lemma {:induction false} OneMoveOnPerm(p: Position, l: seq<Entry<Position>>, r: seq<Entry<Position>>)
    requires OneMoveOn(p, l) && multiset(r) == multiset(l)
    ensures OneMoveOn(p, r)
  {
    forall k | 0 <= k < |r|
      ensures r[k].p.moves == p.moves + 1
    {
      assert r[k] in multiset(l);
      var j :| 0 <= j < |l| && l[j] == r[k];
    }
  }

  /** A permutation of a list of valid entries is valid. */
  lemma {:induction false} AllValidPerm(l: seq<Entry<Position>>, r: seq<Entry<Position>>)
    requires AllValid(l) && multiset(r) == multiset(l)
    ensures AllValid(r)
  {
    forall k | 0 <= k < |r|
      ensures Valid(r[k].p)
    {
      assert r[k] in multiset(l);
      var j :| 0 <= j < |l| && l[j] == r[k];
    }
  }

  /** The entries negamax explores, in order: sorted by non-increasing score,
      the children of the chosen columns and nothing else, at most WIDTH of
      them, each one move on. */
  lemma {:induction false} OrderedChildren(p: Position, next: bv64)
    ensures NonIncreasing(OrderOf(Children(p, next, 7)))
    ensures multiset(OrderOf(Children(p, next, 7))) == multiset(Children(p, next, 7))
    ensures |OrderOf(Children(p, next, 7))| <= 7
    ensures OneMoveOn(p, OrderOf(Children(p, next, 7)))
  {
    OrderSorted(Children(p, next, 7));
    OrderPerm(Children(p, next, 7));
    ChildrenMoves(p, next, 7);
    OneMoveOnPerm(p, Children(p, next, 7), OrderOf(Children(p, next, 7)));
  }

  /** In a valid position, every entry negamax explores is a valid position. */
  lemma {:induction false} OrderedChildrenValid(p: Position)
    requires Valid(p)
    ensures AllValid(OrderOf(Children(p, NonLosingMoves(p), 7)))
  {
    NonLosingPossible(p);
    ChildrenValid(p, NonLosingMoves(p), 7);
    OrderPerm(Children(p, NonLosingMoves(p), 7));
    AllValidPerm(Children(p, NonLosingMoves(p), 7), OrderOf(Children(p, NonLosingMoves(p), 7)));
  }

  /** The entries of the ordered move list are one move on. */
  lemma {:induction false} OrderedMoves(p: Position, next: bv64, l: seq<Entry<Position>>)
    requires l == OrderOf(Children(p, next, 7))
    ensures OneMoveOn(p, l)
  {
    OrderPerm(Children(p, next, 7));
    ChildrenMoves(p, next, 7);
    OneMoveOnPerm(p, Children(p, next, 7), l);
  }

  // ---------------------------------------------------------------- negamax and solve

  /** The move list of negamax (go4.go): the children of `p` for the columns of
      COLUMN_ORDER whose bit is set in `next`, sorted by decreasing score, ties in
      column order; every child is one move on. */
  method OrderMoves(p: Position, next: bv64) returns (moves: array<Entry<Position>>, count: nat)
    ensures fresh(moves) && count <= moves.Length
    ensures moves[..count] == OrderOf(Children(p, next, 7))
    ensures forall k :: 0 <= k < count ==> moves[k].p.moves == p.moves + 1
  {
    moves, count := OrderBy(Chosen(next), ChildAt(p), Entry(EMPTY, 0));
    ghost var l := moves[..count];
    OrderedMoves(p, next, l);
    forall k | 0 <= k < count
      ensures moves[k].p.moves == p.moves + 1
    {
      assert l[k] == moves[k];
    }
  }

  /** negamax (go4.go): alpha-beta search of a position where the player to
      move cannot win at once, with the transposition table.  Terminates
      because every recursive call is on a position one move further; returns
      the number of positions explored, at least 1. */
  method Negamax(table: TranspositionTable, p: Position, alpha: int, beta: int)
    returns (score: int, states: nat)
    requires table.Valid() && p.moves <= 42
    modifies table.keys, table.values
    ensures table.Valid() && states >= 1
    ensures NonLosingMoves(p) == 0 ==> score == LossScore(p.moves) && states == 1
    ensures NonLosingMoves(p) != 0 && p.moves >= 40 ==> score == 0 && states == 1
    ensures NonLosingMoves(p) != 0 && p.moves < 40 && alpha < LowerBound(p.moves) && LowerBound(p.moves) >= beta ==>
              score == LowerBound(p.moves) && states == 1
    decreases 42 - p.moves, 1
  {
    var next := NonLosingMoves(p);
    if next == 0 {
      return LossScore(p.moves), 1;
    }
    if p.moves >= 40 {
      return 0, 1;
    }
    var val, status := table.Get(Key(p));
    var w := Clamp(alpha, beta, LowerBound(p.moves), Upper(p.moves, val, status));
    if w.Cut? {
      return w.score, 1;
    }
    var moves, count := OrderMoves(p, next);
    score, states := Explore(table, p, moves, count, w.alpha, w.beta);
  }

  /** The loop of negamax over the ordered moves (go4.go): each child is searched
      with the negated window; a child reaching beta cuts the search off, a child
      above alpha raises it, and the final alpha is stored as an upper bound for
      the position's key. */
  method Explore(table: TranspositionTable, p: Position, moves: array<Entry<Position>>,
                 count: nat, alpha: int, beta: int) returns (score: int, states: nat)
    requires table.Valid() && p.moves < 40 && count <= moves.Length
    requires forall k :: 0 <= k < count ==> moves[k].p.moves == p.moves + 1
    modifies table.keys, table.values
    ensures table.Valid() && states >= 1
    ensures score >= Min(alpha, beta)
    decreases 42 - p.moves, 0
  {
    var a := alpha;
    var totalStates: nat := 1;
    var x := 0;
    while x < count
      invariant x <= count && table.Valid() && a >= alpha
    {
      var s, st := Negamax(table, moves[x].p, -beta, -a);
      s := -s;
      totalStates := totalStates + st;
      if s >= beta {
        return s, totalStates;
      }
      if s > a {
        a := s;
      }
      x := x + 1;
    }
    var _ := table.Put(Key(p), Encode(a));
    return a, totalStates;
  }

  /** The choice of the null window in solve (go4.go): the middle of [min, max),
      moved toward 0 as far as half of the bound on that side.  It always lies
      in [min, max). */
  function Median(min: int, max: int): (med: int)
    requires min < max
    ensures min <= med < max
  {
    var med := min + (max - min) / 2;
    HalfBetween(min);
    HalfBetween(max);
    if med <= 0 && GoDiv(min, 2) < med then GoDiv(min, 2)
    else if med >= 0 && GoDiv(max, 2) > med then GoDiv(max, 2)
    else med
  }

  /** solve (go4.go): an immediate win is scored directly; otherwise the score
      interval [min, max] is narrowed by null-window searches at Median until it
      is empty.  Terminates because every step moves a bound past Median. */
  method Solve(table: TranspositionTable, p: Position) returns (score: int, states: nat)
    requires table.Valid() && p.moves <= 42
    modifies table.keys, table.values
    ensures table.Valid()
    ensures CanWinNext(p) ==> score == (43 - p.moves) / 2 && states == 1
  {
    if CanWinNext(p) {
      return (42 + 1 - p.moves) / 2, 1;
    }
    var min := LossScore(p.moves);
    var max := (42 + 1 - p.moves) / 2;
    var totalStates: nat := 0;
    while min < max
      invariant table.Valid()
      decreases max - min
    {
      var med := Median(min, max);
      var r, st := Negamax(table, p, med, med + 1);
      totalStates := totalStates + st;
      if r <= med {
        max := r;
      } else {
        min := r;
      }
    }
    return min, totalStates;
  }
}
