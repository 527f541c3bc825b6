// The transposition-table key of a position (go4.go, Key): the position code
// `currentPosition + mask`, folded with the code of the left-right mirror image
// of the board onto the smaller of the two.
module Keys {
  import opened Bits
  import opened Bitboard

  /** Codes of valid positions fit in 49 bits: seven 7-bit column groups. */
  const CODE_BITS: bv64 := 49

  /** The position code `currentPosition + mask`: a column of h stones has
      code (the mover's stones in it) + 2^h - 1, a value in [2^h - 1, 2^(h+1) - 2]
      that no other stack of that column reaches. */
  function KeyCode(p: Position): bv64
  {
    Code(p.currentPosition, p.mask)
  }

  /** The code of a mover's board cp over a mask. */
  function Code(cp: bv64, mask: bv64): bv64
  {
    cp + mask
  }

  /** A code with its seven 7-bit column groups in reverse order: the code of
      the position mirrored left to right. */
  function Mirror(k: bv64): (r: bv64)
    ensures r >> CODE_BITS == 0
  {
    ((k & 0x7f) << 42) | ((k & 0x3f80) << 28) | ((k & 0x1fc000) << 14) | (k & 0xfe00000)
    | ((k & 0x7f0000000) >> 14) | ((k & 0x3f800000000) >> 28) | ((k & 0x1fc0000000000) >> 42)
  }

  /** The smaller of two codes (Go: `if k2 > k { return k } else { return k2 }`).
      Go compares the uint64 values; the model compares them as numbers. */
  function Smaller(k: bv64, k2: bv64): (r: bv64)
    ensures r == k || r == k2
    ensures r as int <= k as int && r as int <= k2 as int
  {
    if k2 as int > k as int then k else k2
  }

  /** Key (go4.go): the smaller of the position code and the code of its mirror image. */
  function Key(p: Position): (r: bv64)
    ensures r == KeyCode(p) || r == Mirror(KeyCode(p))
    ensures r as int <= KeyCode(p) as int && r as int <= Mirror(KeyCode(p)) as int
  {
    Smaller(KeyCode(p), Mirror(KeyCode(p)))
  }

  /** The smaller of two codes does not depend on their order. */
  lemma {:induction false} SmallerSymmetric(a: bv64, b: bv64)
    ensures Smaller(a, b) == Smaller(b, a)
  {
    if b as int > a as int {
    } else if a as int > b as int {
    } else {
      SameValue(a, b);
    }
  }

  /** Mirroring twice gives back every code in 49 bits. */
  lemma {:induction false} MirrorInvolution(k: bv64)
    requires k >> CODE_BITS == 0
    ensures Mirror(Mirror(k)) == k
  {
  }

  /** A code and its mirror fold to the same key. */
  lemma {:induction false} FoldMirror(k: bv64)
    requires k >> CODE_BITS == 0
    ensures Smaller(Mirror(k), Mirror(Mirror(k))) == Smaller(k, Mirror(k))
  {
    MirrorInvolution(k);
    SmallerSymmetric(k, Mirror(k));
  }

  lemma {:induction false} CodeBound(cp: bv64, mask: bv64)
    requires Within(cp, mask) && Within(mask, BOARD_MASK)
    ensures (cp + mask) >> CODE_BITS == 0
  {
    BoardMasks();
  }

  /** The code of a valid position lies in 49 bits. */
  lemma {:induction false} KeyCodeBound(p: Position)
    requires Valid(p)
    ensures KeyCode(p) >> CODE_BITS == 0
  {
    CodeBound(p.currentPosition, p.mask);
  }

  /** A valid position and any position whose code is its mirror share a key. */
  lemma {:induction false} KeyMirrorCode(p: Position, q: Position)
    requires Valid(p) && KeyCode(q) == Mirror(KeyCode(p))
    ensures Key(q) == Key(p)
  {
    KeyCodeBound(p);
    FoldMirror(KeyCode(p));
  }

  lemma {:induction false} SameCode(a: bv64, b: bv64)
    requires a == b && b >> CODE_BITS == 0
    ensures a >> CODE_BITS == 0
  {
  }

  /** The key of a valid position lies in 49 bits. */
  lemma {:induction false} KeyBound(p: Position)
    requires Valid(p)
    ensures Key(p) >> CODE_BITS == 0
  {
    KeyCodeBound(p);
    if Key(p) == KeyCode(p) {
      SameCode(Key(p), KeyCode(p));
    } else {
      SameCode(Key(p), Mirror(KeyCode(p)));
    }
  }

  // ---------------------------------------------------------------- columns of a code

  /** A column of a stacked mask as a 7-bit group: h stones from the bottom up,
      that is 2^h - 1 for some h <= 6. */
  predicate Stack(m: bv64)
  {
    m == 0 || m == 1 || m == 3 || m == 7 || m == 15 || m == 31 || m == 63
  }

  /** Every column of a stacked mask is a stack. */
  lemma {:induction false} StackColumns(mask: bv64)
    requires Stacked(mask)
    ensures Stack(mask & 0x7f) && Stack((mask >> 7) & 0x7f) && Stack((mask >> 14) & 0x7f) && Stack((mask >> 21) & 0x7f)
    ensures Stack((mask >> 28) & 0x7f) && Stack((mask >> 35) & 0x7f) && Stack((mask >> 42) & 0x7f)
  {
    BoardMasks();
  }

  /** A stack of h stones plus any subset of it lies in [2^h - 1, 2^(h+1) - 2]. */
  lemma {:induction false} StackSum(m: bv64, c: bv64)
    requires Stack(m) && Within(c, m)
    ensures m <= Code(c, m) <= 2 * m && Code(c, m) < 128
  {
  }

  /** The stack of one column read back from its code: the codes of a stack
      of h stones fill [2^h - 1, 2^(h+1) - 2], so the stack is the largest
      2^h - 1 not above the code. */
  function DecodeColumn(g: bv64): (m: bv64)
    ensures Stack(m)
  {
    if g >= 63 then 63 else if g >= 31 then 31 else if g >= 15 then 15
    else if g >= 7 then 7 else if g >= 3 then 3 else if g >= 1 then 1 else 0
  }

  /** The mask of the n low columns read back from a code, column by column. */
  function Decode(k: bv64, n: nat): bv64
  {
    if n == 0 then 0 else DecodeColumn(k & 0x7f) | (Decode(k >> 7, n - 1) << 7)
  }

  /** The mover's stones of the n low columns read back from a code: in each
      column, the code less its stack. */
  function DecodeMover(k: bv64, n: nat): bv64
  {
    if n == 0 then 0 else ColumnMover(k & 0x7f) | (DecodeMover(k >> 7, n - 1) << 7)
  }

  /** The mover's stones of one column read back from its code. */
  function ColumnMover(g: bv64): bv64
  {
    g - DecodeColumn(g)
  }

  /** No bits of x lie above its n low columns. */
  predicate Fits(x: bv64, n: nat)
  {
    if n == 0 then x == 0 else Fits(x >> 7, n - 1)
  }

  /** One column: a stack and the mover's stones in it are read back from
      their code. */
  lemma {:induction false} DecodeColumnCode(m: bv64, c: bv64)
    requires Stack(m) && Within(c, m)
    ensures DecodeColumn(Code(c, m)) == m && ColumnMover(Code(c, m)) == c
  {
    StackSum(m, c);
  }

  /** A stacked mask loses its low column to a shift by 7 and stays stacked. */
  lemma {:induction false} PeelStacked(m: bv64)
    requires Stacked(m)
    ensures Stacked(m >> 7)
  {
    BoardMasks();
  }

  /** The low column of a stacked mask is a stack, and the mover's stones split
      with it. */
  lemma {:induction false} PeelWithin(m: bv64, c: bv64)
    requires Stacked(m) && Within(c, m)
    ensures Stack(m & 0x7f) && Within(c & 0x7f, m & 0x7f) && Within(c >> 7, m >> 7)
  {
    BoardMasks();
  }

  lemma {:induction false} PeelSum(m: bv64, c: bv64)
    requires Stacked(m) && Within(c, m)
    ensures (c + m) & 0x7f == (c & 0x7f) + (m & 0x7f) && (c + m) >> 7 == (c >> 7) + (m >> 7)
  {
    BoardMasks();
  }

  /** No carry leaves the low column of a code: its low column is the code of
      the low columns, and the rest is the code of the rest. */
  lemma {:induction false} PeelCode(m: bv64, c: bv64)
    requires Stacked(m) && Within(c, m)
    ensures Code(c, m) & 0x7f == Code(c & 0x7f, m & 0x7f) && Code(c, m) >> 7 == Code(c >> 7, m >> 7)
  {
    PeelSum(m, c);
  }

  lemma {:induction false} Rejoin(x: bv64, lo: bv64, hi: bv64)
    requires lo == x & 0x7f && hi == x >> 7
    ensures lo | (hi << 7) == x
  {
  }

  /** One step of Decode: a code whose low column reads back as the low column
      of m and whose rest reads back as the rest of m reads back as m. */
  lemma {:induction false} DecodeStep(k: bv64, lo: bv64, hi: bv64, n: nat, m: bv64)
    requires n > 0 && k & 0x7f == lo && k >> 7 == hi
    requires DecodeColumn(lo) == m & 0x7f && Decode(hi, n - 1) == m >> 7
    ensures Decode(k, n) == m
  {
    Rejoin(m, m & 0x7f, m >> 7);
  }

  lemma {:induction false} DecodeMoverStep(k: bv64, lo: bv64, hi: bv64, n: nat, m: bv64, c: bv64)
    requires n > 0 && k & 0x7f == lo && k >> 7 == hi
    requires DecodeColumn(lo) == m & 0x7f && ColumnMover(lo) == c & 0x7f && DecodeMover(hi, n - 1) == c >> 7
    ensures DecodeMover(k, n) == c
  {
    Rejoin(c, c & 0x7f, c >> 7);
  }

  /** DecodeMover inverts Code on the n low columns of a stacked position. */
  lemma {:induction false} DecodeMoverCode(m: bv64, c: bv64, n: nat)
    requires Stacked(m) && Within(c, m) && Fits(m, n)
    ensures DecodeMover(Code(c, m), n) == c
    decreases n
  {
    if n > 0 {
      PeelStacked(m);
      PeelWithin(m, c);
      PeelCode(m, c);
      DecodeColumnCode(m & 0x7f, c & 0x7f);
      DecodeMoverCode(m >> 7, c >> 7, n - 1);
      DecodeMoverStep(Code(c, m), Code(c & 0x7f, m & 0x7f), Code(c >> 7, m >> 7), n, m, c);
    }
  }

  /** Decode inverts Code on the n low columns of a stacked position. */
  lemma {:induction false} DecodeCode(m: bv64, c: bv64, n: nat)
    requires Stacked(m) && Within(c, m) && Fits(m, n)
    ensures Decode(Code(c, m), n) == m
    decreases n
  {
    if n > 0 {
      PeelStacked(m);
      PeelWithin(m, c);
      PeelCode(m, c);
      DecodeColumnCode(m & 0x7f, c & 0x7f);
      DecodeCode(m >> 7, c >> 7, n - 1);
      DecodeStep(Code(c, m), Code(c & 0x7f, m & 0x7f), Code(c >> 7, m >> 7), n, m);
    }
  }

  lemma {:induction false} OnBoard(mask: bv64, cp: bv64)
    requires Stacked(mask) && Within(cp, mask)
    ensures mask >> CODE_BITS == 0 && cp >> CODE_BITS == 0
  {
    BoardMasks();
  }

  /** A 49-bit word fits in seven columns. */
  lemma {:induction false} FitsBoard(m: bv64)
    requires m >> CODE_BITS == 0
    ensures Fits(m, 7)
  {
    var x1 := m >> 7;
    var x2 := x1 >> 7;
    var x3 := x2 >> 7;
    var x4 := x3 >> 7;
    var x5 := x4 >> 7;
    var x6 := x5 >> 7;
    assert x6 >> 7 == 0;
    assert Fits(x6, 1);
    assert Fits(x5, 2);
    assert Fits(x4, 3);
    assert Fits(x3, 4);
    assert Fits(x2, 5);
    assert Fits(x1, 6);
  }

  /** The stones and the mover's stones of a stacked position are read back
      from its code over the seven columns. */
  lemma {:induction false} DecodeBoards(m: bv64, c: bv64)
    requires Stacked(m) && Within(c, m)
    ensures Decode(Code(c, m), 7) == m && DecodeMover(Code(c, m), 7) == c
  {
    OnBoard(m, c);
    FitsBoard(m);
    DecodeCode(m, c, 7);
    DecodeMoverCode(m, c, 7);
  }

  /** KeyCode loses nothing: Decode and DecodeMover recover the stones and the
      mover's stones of a valid position from its code. */
  lemma {:induction false} DecodeKeyCode(p: Position)
    requires Valid(p)
    ensures Decode(KeyCode(p), 7) == p.mask
    ensures DecodeMover(KeyCode(p), 7) == p.currentPosition
  {
    DecodeBoards(p.mask, p.currentPosition);
  }

  /** The code is unambiguous: two valid positions with the same code are the
      same position. */
  lemma {:induction false} KeyCodeInjective(p: Position, q: Position)
    requires Valid(p) && Valid(q) && KeyCode(p) == KeyCode(q)
    ensures p == q
  {
    DecodeKeyCode(p);
    DecodeKeyCode(q);
  }

  /** Mirror reverses the order of the seven column groups: column c of the
      result is column 6 - c of the word, and nothing lies above them. */
  lemma {:induction false} MirrorColumns(k: bv64)
    ensures Mirror(k) & 0x7f == (k >> 42) & 0x7f && (Mirror(k) >> 7) & 0x7f == (k >> 35) & 0x7f
    ensures (Mirror(k) >> 14) & 0x7f == (k >> 28) & 0x7f && (Mirror(k) >> 21) & 0x7f == (k >> 21) & 0x7f
    ensures (Mirror(k) >> 28) & 0x7f == (k >> 14) & 0x7f && (Mirror(k) >> 35) & 0x7f == (k >> 7) & 0x7f
    ensures (Mirror(k) >> 42) & 0x7f == k & 0x7f
  {
  }

  /** The position mirrored left to right: the stones and the mover's stones
      both have their columns reversed. */
  function MirrorPosition(p: Position): Position
  {
    Position(Mirror(p.mask), Mirror(p.currentPosition), p.moves)
  }

  /** Mirroring the two boards of a stacked position mirrors its code. */
  lemma {:induction false} MirrorCode(mask: bv64, cp: bv64)
    requires Stacked(mask) && Within(cp, mask)
    ensures Mirror(Code(cp, mask)) == Code(Mirror(cp), Mirror(mask))
  {
    MirrorSum(mask, cp);
    CodeSum(cp, mask);
    CodeSum(Mirror(cp), Mirror(mask));
    MirrorEq(Code(cp, mask), cp + mask);
  }

  lemma {:induction false} MirrorSum(mask: bv64, cp: bv64)
    requires Stacked(mask) && Within(cp, mask)
    ensures Mirror(cp + mask) == Mirror(cp) + Mirror(mask)
  {
  }

  lemma {:induction false} CodeSum(c: bv64, m: bv64)
    ensures Code(c, m) == c + m
  {
  }

  lemma {:induction false} MirrorEq(x: bv64, y: bv64)
    requires x == y
    ensures Mirror(x) == Mirror(y)
  {
  }

  /** A 49-bit word whose seven columns are stacks is stacked. */
  lemma {:induction false} StackedColumns(m: bv64)
    requires m >> CODE_BITS == 0
    requires Stack(m & 0x7f) && Stack((m >> 7) & 0x7f) && Stack((m >> 14) & 0x7f) && Stack((m >> 21) & 0x7f)
    requires Stack((m >> 28) & 0x7f) && Stack((m >> 35) & 0x7f) && Stack((m >> 42) & 0x7f)
    ensures Stacked(m)
  {
    BoardMasks();
  }

  /** The mirror image of a stacked mask is stacked, and the mover's stones stay among the stones. */
  lemma {:induction false} MirrorStacked(mask: bv64, cp: bv64)
    requires Stacked(mask) && Within(cp, mask)
    ensures Stacked(Mirror(mask)) && Within(Mirror(cp), Mirror(mask))
  {
    StackColumns(mask);
    MirrorColumns(mask);
    StackedColumns(Mirror(mask));
    MirrorWithin(mask, cp);
  }

  lemma {:induction false} MirrorWithin(mask: bv64, cp: bv64)
    requires Within(cp, mask)
    ensures Within(Mirror(cp), Mirror(mask))
  {
  }

  lemma {:induction false} LowColumnFacts(x: bv64, lo: bv64, hi: bv64, up: bv64)
    requires lo == x & 0x7f && hi == x >> 7 && up == hi << 7
    ensures x == lo | up && lo & up == 0 && hi >> 57 == 0
  {
  }

  /** The low column of a word and the rest count separately. */
  lemma {:induction false} LowColumn(x: bv64, lo: bv64, hi: bv64)
    requires lo == x & 0x7f && hi == x >> 7
    ensures BitCount(x) == BitCount(lo) + BitCount(hi)
  {
    var up := hi << 7;
    LowColumnFacts(x, lo, hi, up);
    Union(lo, up);
    ShiftLeftSeven(hi, up);
  }

  lemma {:induction false} LadderFacts(x: bv64, x1: bv64, x2: bv64, x3: bv64, x4: bv64, x5: bv64, x6: bv64)
    requires x >> CODE_BITS == 0
    requires x1 == x >> 7 && x2 == x1 >> 7 && x3 == x2 >> 7 && x4 == x3 >> 7 && x5 == x4 >> 7 && x6 == x5 >> 7
    ensures x1 & 0x7f == (x >> 7) & 0x7f && x2 & 0x7f == (x >> 14) & 0x7f && x3 & 0x7f == (x >> 21) & 0x7f
    ensures x4 & 0x7f == (x >> 28) & 0x7f && x5 & 0x7f == (x >> 35) & 0x7f && x6 == (x >> 42) & 0x7f
  {
  }

  lemma {:induction false} ColumnsCountAt(x: bv64, x1: bv64, x2: bv64, x3: bv64, x4: bv64, x5: bv64, x6: bv64)
    requires x1 == x >> 7 && x2 == x1 >> 7 && x3 == x2 >> 7 && x4 == x3 >> 7 && x5 == x4 >> 7 && x6 == x5 >> 7
    ensures BitCount(x) == BitCount(x & 0x7f) + BitCount(x1 & 0x7f) + BitCount(x2 & 0x7f)
                         + BitCount(x3 & 0x7f) + BitCount(x4 & 0x7f) + BitCount(x5 & 0x7f) + BitCount(x6)
  {
    LowColumn(x, x & 0x7f, x1);
    LowColumn(x1, x1 & 0x7f, x2);
    LowColumn(x2, x2 & 0x7f, x3);
    LowColumn(x3, x3 & 0x7f, x4);
    LowColumn(x4, x4 & 0x7f, x5);
    LowColumn(x5, x5 & 0x7f, x6);
  }

  /** The bits of a 49-bit word are the bits of its seven columns. */
  lemma {:induction false} ColumnsCount(x: bv64)
    requires x >> CODE_BITS == 0
    ensures BitCount(x) == BitCount(x & 0x7f) + BitCount((x >> 7) & 0x7f) + BitCount((x >> 14) & 0x7f)
                         + BitCount((x >> 21) & 0x7f) + BitCount((x >> 28) & 0x7f) + BitCount((x >> 35) & 0x7f)
                         + BitCount((x >> 42) & 0x7f)
  {
    var x1 := x >> 7;
    var x2 := x1 >> 7;
    var x3 := x2 >> 7;
    var x4 := x3 >> 7;
    var x5 := x4 >> 7;
    var x6 := x5 >> 7;
    LadderFacts(x, x1, x2, x3, x4, x5, x6);
    ColumnsCountAt(x, x1, x2, x3, x4, x5, x6);
  }

  /** Mirroring a 49-bit word keeps its number of bits. */
  lemma {:induction false} MirrorCount(x: bv64)
    requires x >> CODE_BITS == 0
    ensures BitCount(Mirror(x)) == BitCount(x)
  {
    MirrorColumns(x);
    ColumnsCount(x);
    ColumnsCount(Mirror(x));
  }

  /** The mirror image of a valid position is valid. */
  lemma {:induction false} MirrorValid(p: Position)
    requires Valid(p)
    ensures Valid(MirrorPosition(p))
  {
    MirrorStacked(p.mask, p.currentPosition);
    OnBoard(p.mask, p.currentPosition);
    MirrorCount(p.mask);
  }

  /** The code of the mirror image is the mirror of the code. */
  lemma {:induction false} KeyCodeMirror(p: Position)
    requires Valid(p)
    ensures KeyCode(MirrorPosition(p)) == Mirror(KeyCode(p))
  {
    MirrorCode(p.mask, p.currentPosition);
  }

  /** Mirroring a valid position twice gives it back. */
  lemma {:induction false} MirrorPositionTwice(p: Position)
    requires Valid(p)
    ensures MirrorPosition(MirrorPosition(p)) == p
  {
    OnBoard(p.mask, p.currentPosition);
    MirrorInvolution(p.mask);
    MirrorInvolution(p.currentPosition);
  }

  /** A valid position and its left-right mirror image share a key: Key folds
      the two onto one table entry. */
  lemma {:induction false} KeyMirror(p: Position)
    requires Valid(p)
    ensures Valid(MirrorPosition(p)) && Key(MirrorPosition(p)) == Key(p)
  {
    MirrorValid(p);
    KeyCodeMirror(p);
    KeyMirrorCode(p, MirrorPosition(p));
  }
}
