// The transposition table of go4.go (TranspositionTable, Put, Get,
// NewTranspositionTable): two parallel arrays, a 32-bit key tag and an 8-bit
// value per slot; a 64-bit key goes to slot `key % len`, and only keys below
// `len * 2^32` (computed in unsigned 64-bit arithmetic) are accepted.
module Table {
  import opened Bits

  /** Go's uint32 and uint8, as the table stores them. */
  newtype u32 = x: int | 0 <= x < 0x1_0000_0000
  newtype u8 = x: int | 0 <= x < 0x100

  /** 2^32: the number of distinct 32-bit tags. */
  const TAG_RANGE: int := 0x1_0000_0000
  /** 2^64: the modulus of Go's uint64 arithmetic. */
  const WORD_RANGE: int := 0x1_0000_0000_0000_0000

  /** The error Put and Get report, or its absence. */
  datatype Status = Success | KeyOutOfRange

  /** The contents of a table: the key tags and the values, slot by slot. */
  datatype Entries = Entries(keys: seq<u32>, values: seq<u8>)

  predicate WellFormed(t: Entries)
  {
    |t.keys| == |t.values|
  }

  /** The bound of the range check: `uint64(len(t.keys)) * 0x100000000`,
      which wraps around modulo 2^64. */
  function Limit(len: nat): (r: int)
    ensures 0 <= r < WORD_RANGE
    ensures len == 0 ==> r == 0
  {
    (len * TAG_RANGE) % WORD_RANGE
  }

  /** The range check of Put and Get passes: the key, as an unsigned number, is below Limit. */
  predicate InRange(len: nat, key: bv64)
  {
    key as int < Limit(len)
  }

  /** The slot of a key that passes the range check: `key % len`. */
  function Slot(len: nat, key: bv64): (idx: nat)
    requires InRange(len, key)
    ensures idx < len
  {
    key as int % len
  }

  /** The tag stored for a key: its low 32 bits (Go: `uint32(key)`). */
  function Tag(key: bv64): u32
  {
    (key as int % TAG_RANGE) as u32
  }

  /** A table of `size` slots with every tag and every value zero (Go: `make`). */
  function Empty(size: nat): (t: Entries)
    ensures WellFormed(t) && |t.keys| == size
  {
    Entries(seq(size, _ => 0), seq(size, _ => 0))
  }

  /** Put (go4.go) on the contents: the new contents and the error. */
  function Insert(t: Entries, key: bv64, val: u8): (Entries, Status)
    requires WellFormed(t)
  {
    if !InRange(|t.keys|, key) then (t, KeyOutOfRange)
    else
      var idx := Slot(|t.keys|, key);
      (Entries(t.keys[idx := Tag(key)], t.values[idx := val]), Success)
  }

  /** Get (go4.go) on the contents: the value found (0 when the slot holds
      another tag) and the error. */
  function Lookup(t: Entries, key: bv64): (u8, Status)
    requires WellFormed(t)
  {
    if !InRange(|t.keys|, key) then (0, KeyOutOfRange)
    else
      var idx := Slot(|t.keys|, key);
      if t.keys[idx] != Tag(key) then (0, Success) else (t.values[idx], Success)
  }

  class TranspositionTable {
    var keys: array<u32>
    var values: array<u8>

    ghost predicate Valid()
      reads this
    {
      keys.Length == values.Length
    }

    /** The contents of the two arrays. */
    function Contents(): (t: Entries)
      reads this, keys, values
      requires Valid()
      ensures WellFormed(t)
    {
      Entries(keys[..], values[..])
    }

    /** NewTranspositionTable (go4.go): `size` slots, all zero. */
    constructor (size: nat)
      ensures Valid() && fresh(keys) && fresh(values)
      ensures Contents() == Empty(size)
    {
      keys := new u32[size](_ => 0);
      values := new u8[size](_ => 0);
    }

    /** Put (go4.go): rejects a key out of range and otherwise overwrites the
        key's slot with its tag and `val`. */
    method Put(key: bv64, val: u8) returns (status: Status)
      requires Valid()
      modifies keys, values
      ensures Valid()
      ensures (Contents(), status) == Insert(old(Contents()), key, val)
    {
      if key as int >= Limit(keys.Length) {
        return KeyOutOfRange;
      }
      var idx := key as int % keys.Length;
      keys[idx] := Tag(key);
      values[idx] := val;
      status := Success;
    }

    /** Get (go4.go): the value stored under the key, 0 when its slot holds
        another key's tag, and an error for a key out of range. */
    method Get(key: bv64) returns (val: u8, status: Status)
      requires Valid()
      ensures (val, status) == Lookup(Contents(), key)
    {
      if key as int >= Limit(keys.Length) {
        return 0, KeyOutOfRange;
      }
      var idx := key as int % keys.Length;
      if keys[idx] != Tag(key) {
        return 0, Success;
      }
      return values[idx], Success;
    }
  }

  // ---------------------------------------------------------------- properties

  /** A key in range reads back the value just put under it. */
  lemma {:induction false} PutGet(t: Entries, key: bv64, val: u8)
    requires WellFormed(t) && InRange(|t.keys|, key)
    ensures Insert(t, key, val).1 == Success
    ensures WellFormed(Insert(t, key, val).0)
    ensures Lookup(Insert(t, key, val).0, key) == (val, Success)
  {
  }

  /** A key out of range is rejected by both operations, and Put changes nothing. */
  lemma {:induction false} OutOfRange(t: Entries, key: bv64, val: u8)
    requires WellFormed(t) && !InRange(|t.keys|, key)
    ensures Insert(t, key, val) == (t, KeyOutOfRange)
    ensures Lookup(t, key) == (0, KeyOutOfRange)
  {
  }

  /** The range check passes exactly for keys below `len * 2^32` when that
      product does not wrap; a table of 2^32 slots or more (a multiple of 2^32
      when the product wraps to 0) accepts no key at all. */
  lemma {:induction false} RangeNoWrap(len: nat, key: bv64)
    requires len < TAG_RANGE
    ensures InRange(len, key) <==> key as int < len * TAG_RANGE
  {
    assert len * TAG_RANGE < WORD_RANGE;
  }

  /** A table of no slots, or of a multiple of 2^32 slots, rejects every key. */
  lemma {:induction false} RangeWrapsToZero(len: nat, key: bv64)
    requires len % TAG_RANGE == 0
    ensures !InRange(len, key)
  {
    var q := len / TAG_RANGE;
    assert len * TAG_RANGE == (q * TAG_RANGE) * TAG_RANGE;
    assert len * TAG_RANGE == q * WORD_RANGE;
  }

  /** Put writes one slot: the lengths stay, and every other slot keeps its tag and value. */
  lemma {:induction false} PutOneSlot(t: Entries, key: bv64, val: u8, j: nat)
    requires WellFormed(t) && InRange(|t.keys|, key)
    requires j < |t.keys| && j != Slot(|t.keys|, key)
    ensures |Insert(t, key, val).0.keys| == |t.keys|
    ensures |Insert(t, key, val).0.values| == |t.values|
    ensures Insert(t, key, val).0.keys[j] == t.keys[j]
    ensures Insert(t, key, val).0.values[j] == t.values[j]
  {
  }

  /** Put leaves every lookup of a key in another slot as it was. */
  lemma {:induction false} PutOtherSlot(t: Entries, key: bv64, val: u8, other: bv64)
    requires WellFormed(t) && InRange(|t.keys|, key) && InRange(|t.keys|, other)
    requires Slot(|t.keys|, other) != Slot(|t.keys|, key)
    ensures Lookup(Insert(t, key, val).0, other) == Lookup(t, other)
  {
  }

  /** An empty table finds 0 under every key in range. */
  lemma {:induction false} EmptyLookup(size: nat, key: bv64)
    requires InRange(size, key)
    ensures Lookup(Empty(size), key) == (0, Success)
  {
  }

  // ---------------------------------------------------------------- no collisions

  /** 2^k. */
  function Power2(k: nat): (r: int)
    ensures r > 0
  {
    if k == 0 then 1 else 2 * Power2(k - 1)
  }

  lemma {:induction false} OddTimesOdd(i: int, j: int)
    ensures (2 * i + 1) * (2 * j + 1) == 2 * (2 * i * j + i + j) + 1
  {
  }

  /** An odd factor of an even product leaves the other factor even. */
  lemma {:induction false} EvenFactor(n: int, m: int, s: int)
    requires n % 2 == 1 && n * m == 2 * s
    ensures m % 2 == 0
  {
    var a := n / 2;
    assert n == 2 * a + 1;
    assert n * m == 2 * (a * m) + m;
    assert m == 2 * (s - a * m);
  }

  /** n odd and n * m a multiple of 2^k: then m is a multiple of 2^k. */
  lemma {:induction false} OddCoprime(n: int, m: int, s: int, k: nat) returns (q: int)
    requires n % 2 == 1 && n * m == Power2(k) * s
    ensures m == Power2(k) * q
    decreases k
  {
    if k == 0 {
      q := m;
    } else {
      assert Power2(k) * s == 2 * (Power2(k - 1) * s);
      EvenFactor(n, m, Power2(k - 1) * s);
      var h := m / 2;
      assert m == 2 * h;
      assert 2 * (n * h) == 2 * (Power2(k - 1) * s) by {
        assert n * m == 2 * (n * h);
      }
      var q' := OddCoprime(n, h, s, k - 1);
      q := q';
      assert m == 2 * (Power2(k - 1) * q');
    }
  }

  lemma {:induction false} Power2Sum(i: nat, j: nat)
    ensures Power2(i + j) == Power2(i) * Power2(j)
    decreases i
  {
    if i > 0 {
      Power2Sum(i - 1, j);
      assert Power2(i + j) == 2 * Power2(i - 1 + j);
    }
  }

  lemma {:induction false} Power2Of32()
    ensures Power2(32) == TAG_RANGE
  {
    assert Power2(2) == 4;
    Power2Sum(2, 2);
    Power2Sum(4, 4);
    Power2Sum(8, 8);
    Power2Sum(16, 16);
  }

  /** A positive `b` times a nonzero `t` is at least `b` in size. */
  lemma {:induction false} MulAtLeast(b: int, t: int)
    requires b > 0
    ensures t >= 1 ==> b * t >= b
    ensures t <= -1 ==> b * t <= -b
  {
    if t >= 1 {
      assert b * t == b * (t - 1) + b;
    } else if t <= -1 {
      assert b * t == b * (t + 1) - b;
    }
  }

  /** A multiple of `b` strictly between `-b` and `b` is 0. */
  lemma {:induction false} SmallMultiple(b: int, t: int, d: int)
    requires b > 0 && d == b * t && -b < d < b
    ensures t == 0
  {
    MulAtLeast(b, t);
  }

  /** Numbers with the same remainder modulo n differ by a multiple of n. */
  lemma {:induction false} SameRemainder(n: int, a: nat, b: nat)
    requires n > 0 && a % n == b % n
    ensures a - b == n * (a / n - b / n)
  {
    assert a == n * (a / n) + a % n;
    assert b == n * (b / n) + b % n;
  }

  /** Two numbers below `n * 2^32`, n odd, with the same remainder modulo n and
      the same low 32 bits, are equal (the Chinese remainder theorem for the
      coprime moduli n and 2^32). */
  lemma {:induction false} SameSlotAndTag(n: nat, a: nat, b: nat)
    requires n % 2 == 1
    requires a < n * TAG_RANGE && b < n * TAG_RANGE
    requires a % n == b % n && a % TAG_RANGE == b % TAG_RANGE
    ensures a == b
  {
    var m := a / n - b / n;
    var s := a / TAG_RANGE - b / TAG_RANGE;
    SameRemainder(n, a, b);
    SameRemainder(TAG_RANGE, a, b);
    Power2Of32();
    var q := OddCoprime(n, m, s, 32);
    assert a - b == (n * TAG_RANGE) * q by {
      assert a - b == n * (TAG_RANGE * q);
    }
    SmallMultiple(n * TAG_RANGE, q, a - b);
  }

  /** Keys that pass the range check lie below `len * 2^32`, wrapped or not. */
  lemma {:induction false} InRangeBelow(len: nat, key: bv64)
    requires InRange(len, key)
    ensures key as int < len * TAG_RANGE
  {
  }

  /** With an odd number of slots, two different keys in range that share a
      slot have different tags. */
  lemma {:induction false} TagsDiffer(n: nat, key: bv64, other: bv64)
    requires n % 2 == 1 && InRange(n, key) && InRange(n, other) && other != key
    requires Slot(n, other) == Slot(n, key)
    ensures Tag(other) != Tag(key)
  {
    InRangeBelow(n, key);
    InRangeBelow(n, other);
    if Tag(other) == Tag(key) {
      SameSlotAndTag(n, key as int, other as int);
      SameValue(key, other);
    }
  }

  /** With an odd number of slots (the table built by go4.go has 16777259),
      keys in range are never confused: after Put of one key, any other key of
      the same slot reads 0, the value of an unknown position. */
  lemma {:induction false} PutOtherKey(t: Entries, key: bv64, val: u8, other: bv64)
    requires WellFormed(t) && |t.keys| % 2 == 1
    requires InRange(|t.keys|, key) && InRange(|t.keys|, other) && other != key
    requires Slot(|t.keys|, other) == Slot(|t.keys|, key)
    ensures Lookup(Insert(t, key, val).0, other) == (0, Success)
  {
    TagsDiffer(|t.keys|, key, other);
  }
}
