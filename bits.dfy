// Population count of 64-bit words: the specification BitCount, the facts about it
// the solver relies on, and the `m &= m - 1` loop that computes it.
module Bits {

  /** The value of bit 0 of `m`, as a number. */
  function LowBit(m: bv64): nat
  {
    if m & 1 == 1 then 1 else 0
  }

  /** Number of set bits of `m` (the specification of popcount). */
  function BitCount(m: bv64): nat
    decreases m
  {
    if m == 0 then 0 else LowBit(m) + BitCount(m >> 1)
  }

  /** Position of the highest set bit plus one; a natural-number measure for induction. */
  function BitLength(m: bv64): nat
    decreases m
  {
    if m == 0 then 0 else 1 + BitLength(m >> 1)
  }

  // ----- one-step facts; every bit-vector subterm is a parameter, which keeps them cheap

  lemma {:induction false} ShiftSplit(m: bv64, h: bv64)
    requires h == m >> 1
    ensures BitCount(m) == LowBit(m) + BitCount(h)
    ensures m != 0 ==> BitLength(m) == 1 + BitLength(h)
  {
    if m == 0 {
      assert m >> 1 == 0;
    }
  }

  lemma {:induction false} OddFacts(m: bv64, c: bv64, h: bv64)
    requires m & 1 == 1 && c == m & (m - 1) && h == m >> 1
    ensures c & 1 == 0 && c >> 1 == h
  {
  }

  lemma {:induction false} EvenFacts(m: bv64, c: bv64, h: bv64)
    requires m & 1 == 0 && m != 0 && c == m & (m - 1) && h == m >> 1
    ensures c & 1 == 0 && h != 0 && c >> 1 == h & (h - 1)
  {
  }

  lemma {:induction false} ClearStep(m: bv64, c: bv64, h: bv64)
    requires m != 0 && c == m & (m - 1) && h == m >> 1
    ensures BitCount(m) == LowBit(m) + BitCount(h)
    ensures m & 1 == 1 ==> BitCount(c) == BitCount(h)
    ensures m & 1 == 0 ==> h != 0 && BitCount(c) == BitCount(h & (h - 1)) && BitLength(h) < BitLength(m)
  {
    ShiftSplit(m, h);
    if m & 1 == 1 {
      OddFacts(m, c, h);
      ShiftSplit(c, h);
    } else {
      EvenFacts(m, c, h);
      ShiftSplit(c, h & (h - 1));
    }
  }

  /** `m & (m - 1)` clears exactly one set bit: the lowest. */
  lemma {:induction false} ClearLowest(m: bv64)
    requires m != 0
    ensures BitCount(m & (m - 1)) + 1 == BitCount(m)
    decreases BitLength(m)
  {
    ClearStep(m, m & (m - 1), m >> 1);
    if m & 1 == 0 {
      ClearLowest(m >> 1);
    }
  }

  lemma {:induction false} NonZeroCount(m: bv64)
    ensures m != 0 <==> BitCount(m) >= 1
  {
    if m != 0 {
      ClearLowest(m);
    }
  }

  /** A word has at most one set bit exactly when clearing its lowest bit leaves 0:
      the test `forced & (forced - 1) != 0` means "two or more". */
  lemma {:induction false} SingleBit(m: bv64)
    ensures BitCount(m) >= 2 <==> m != 0 && m & (m - 1) != 0
    ensures BitCount(m) == 1 <==> m != 0 && m & (m - 1) == 0
  {
    NonZeroCount(m);
    if m != 0 {
      ClearLowest(m);
      NonZeroCount(m & (m - 1));
    }
  }

  // ----- counting a disjoint union

  lemma {:induction false} UnionBits(x: bv64, y: bv64, u: bv64, xh: bv64, yh: bv64, v: bv64)
    requires x & y == 0 && u == x | y && xh == x >> 1 && yh == y >> 1 && v == xh | yh
    ensures u >> 1 == v && xh & yh == 0
    ensures (u & 1 == 1) == (x & 1 == 1 || y & 1 == 1) && !(x & 1 == 1 && y & 1 == 1)
    ensures u == 0 ==> x == 0 && y == 0
    ensures u != 0 ==> BitLength(v) < BitLength(u)
  {
    if u != 0 {
      ShiftSplit(u, v);
    }
  }

  lemma {:induction false} UnionStep(x: bv64, y: bv64, u: bv64, xh: bv64, yh: bv64, v: bv64)
    requires x & y == 0 && u == x | y && xh == x >> 1 && yh == y >> 1 && v == xh | yh
    ensures xh & yh == 0
    ensures BitCount(v) == BitCount(xh) + BitCount(yh) ==> BitCount(u) == BitCount(x) + BitCount(y)
    ensures u != 0 ==> BitLength(v) < BitLength(u)
  {
    UnionBits(x, y, u, xh, yh, v);
    ShiftSplit(u, v);
    ShiftSplit(x, xh);
    ShiftSplit(y, yh);
  }

  /** The bits of two disjoint words add up. */
  lemma {:induction false} Union(x: bv64, y: bv64)
    requires x & y == 0
    ensures BitCount(x | y) == BitCount(x) + BitCount(y)
    decreases BitLength(x | y), 1
  {
    UnionAt(x, y, x | y, x >> 1, y >> 1, (x >> 1) | (y >> 1));
  }

  lemma {:induction false} UnionAt(x: bv64, y: bv64, u: bv64, xh: bv64, yh: bv64, v: bv64)
    requires x & y == 0 && u == x | y && xh == x >> 1 && yh == y >> 1 && v == xh | yh
    ensures BitCount(u) == BitCount(x) + BitCount(y)
    decreases BitLength(u), 0
  {
    UnionStep(x, y, u, xh, yh, v);
    if u != 0 {
      Union(xh, yh);
    }
  }

  lemma {:induction false} SubsetFacts(a: bv64, b: bv64, d: bv64)
    requires a & !b == 0 && d == b & !a
    ensures a & d == 0 && a | d == b
  {
  }

  lemma {:induction false} SubsetAt(a: bv64, b: bv64, d: bv64)
    requires a & !b == 0 && d == b & !a
    ensures BitCount(a) <= BitCount(b)
  {
    SubsetFacts(a, b, d);
    Union(a, d);
  }

  /** A word whose bits all lie inside `b` has no more bits than `b`. */
  lemma {:induction false} Subset(a: bv64, b: bv64)
    requires a & !b == 0
    ensures BitCount(a) <= BitCount(b)
  {
    SubsetAt(a, b, b & !a);
  }

  // ----- the count of a board-shaped mask

  lemma {:induction false} ShiftLeftOne(m: bv64, n: bv64)
    requires m >> 63 == 0 && n == m << 1
    ensures BitCount(n) == BitCount(m)
  {
    assert n >> 1 == m && n & 1 == 0;
    ShiftSplit(n, m);
  }

  lemma {:induction false} ShiftLeftSeven(m: bv64, n: bv64)
    requires m >> 57 == 0 && n == m << 7
    ensures BitCount(n) == BitCount(m)
  {
    var m1 := m << 1;
    var m2 := m1 << 1;
    var m3 := m2 << 1;
    var m4 := m3 << 1;
    var m5 := m4 << 1;
    var m6 := m5 << 1;
    assert n == m6 << 1;
    ShiftChain(m, m1, m2, m3, m4, m5, m6, n);
  }

  lemma {:induction false} ShiftChain(m: bv64, m1: bv64, m2: bv64, m3: bv64, m4: bv64, m5: bv64, m6: bv64, n: bv64)
    requires m >> 57 == 0
    requires m1 == m << 1 && m2 == m1 << 1 && m3 == m2 << 1 && m4 == m3 << 1 && m5 == m4 << 1
    requires m6 == m5 << 1 && n == m6 << 1
    ensures BitCount(n) == BitCount(m)
  {
    ShiftLeftOne(m, m1);
    ShiftLeftOne(m1, m2);
    ShiftLeftOne(m2, m3);
    ShiftLeftOne(m3, m4);
    ShiftLeftOne(m4, m5);
    ShiftLeftOne(m5, m6);
    ShiftLeftOne(m6, n);
  }

  lemma {:induction false} SixCells()
    ensures BitCount(0x3f) == 6
  {
    ShiftSplit(0x3f, 0x1f);
    ShiftSplit(0x1f, 0xf);
    ShiftSplit(0xf, 0x7);
    ShiftSplit(0x7, 0x3);
    ShiftSplit(0x3, 0x1);
    ShiftSplit(0x1, 0x0);
  }

  /** Shifting a prefix of columns up by one 7-bit column and adding a full bottom
      column of six cells adds six to the count. */
  lemma {:induction false} AddColumn(p: bv64, q: bv64)
    requires p >> 57 == 0 && q == (p << 7) | 0x3f
    ensures BitCount(q) == BitCount(p) + 6
  {
    SixCells();
    ShiftLeftSeven(p, p << 7);
    assert (p << 7) & 0x3f == 0;
    Union(p << 7, 0x3f);
  }

  /** The 7x6 board mask 0xfdfbf7efdfbf has 42 cells. */
  lemma {:induction false} BoardCount()
    ensures BitCount(0xfdfbf7efdfbf) == 42
  {
    assert BitCount(0) == 0;
    AddColumn(0x0, 0x3f);
    AddColumn(0x3f, 0x1fbf);
    AddColumn(0x1fbf, 0xfdfbf);
    AddColumn(0xfdfbf, 0x7efdfbf);
    AddColumn(0x7efdfbf, 0x3f7efdfbf);
    AddColumn(0x3f7efdfbf, 0x1fbf7efdfbf);
    AddColumn(0x1fbf7efdfbf, 0xfdfbf7efdfbf);
  }

  lemma {:induction false} ShiftLeftEight(m: bv64, n: bv64)
    requires m >> 56 == 0 && n == m << 8
    ensures BitCount(n) == BitCount(m)
  {
    ShiftLeftSeven(m, m << 7);
    assert n == (m << 7) << 1;
    ShiftLeftOne(m << 7, n);
  }

  /** Shifting a word up by one byte and filling the low byte adds eight bits. */
  lemma {:induction false} AddByte(p: bv64, q: bv64)
    requires p >> 56 == 0 && q == (p << 8) | 0xff
    ensures BitCount(q) == BitCount(p) + 8
  {
    SixCells();
    ShiftSplit(0xff, 0x7f);
    ShiftSplit(0x7f, 0x3f);
    ShiftLeftEight(p, p << 8);
    assert (p << 8) & 0xff == 0;
    Union(p << 8, 0xff);
  }

  /** A 64-bit word has at most 64 set bits. */
  lemma {:induction false} CountAtMost64(m: bv64)
    ensures BitCount(m) <= 64
  {
    assert BitCount(0) == 0;
    AddByte(0x0, 0xff);
    AddByte(0xff, 0xffff);
    AddByte(0xffff, 0xffffff);
    AddByte(0xffffff, 0xffffffff);
    AddByte(0xffffffff, 0xffffffffff);
    AddByte(0xffffffffff, 0xffffffffffff);
    AddByte(0xffffffffffff, 0xffffffffffffff);
    AddByte(0xffffffffffffff, 0xffffffffffffffff);
    Subset(m, 0xffffffffffffffff);
  }

  /** popcount (go4.go): repeatedly clear the lowest set bit and count the steps. */
  method Popcount(m: bv64) returns (c: int)
    ensures c == BitCount(m)
  {
    c := 0;
    var rest := m;
    while rest != 0
      invariant c + BitCount(rest) == BitCount(m)
      decreases BitCount(rest)
    {
      ClearLowest(rest);
      rest := rest & (rest - 1);
      c := c + 1;
    }
  }

  /** Words with the same value are the same word. */
  lemma {:induction false} SameValue(a: bv64, b: bv64)
    requires a as int == b as int
    ensures a == b
  {
    assert a == (a as int) as bv64;
    assert b == (b as int) as bv64;
  }
}
