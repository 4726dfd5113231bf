/**
 Reading an integer in a range off the back of the data: the simple form that the provider's
 64-bit loop computes.
 */
module RangedIntegers {
  import opened Basics
  import opened Bytes
  import opened MachineIntegers

  /** How many bytes an integer with this range takes when `available` bytes are left. */
  function IntegerBytes(range: nat, available: nat): (k: nat)
    ensures k <= available
  {
    Min(available, ByteLen(range))
  }

  /** The integer of [min, max] at the back of `w`. */
  function ReadInteger(min: int, max: int, w: seq<byte>): (v: int)
    requires min <= max
    ensures min <= v <= max
  {
    min + LittleEndian(w[|w| - IntegerBytes(max - min, |w|)..]) % (max - min + 1)
  }

  /** The bytes at the back of the data that make a read of [min, max] give `v`. */
  function IntegerEncoding(min: int, max: int, v: int): (s: seq<byte>)
    requires min <= v <= max
    ensures |s| == ByteLen(max - min)
  {
    ToLittleEndian(v - min, ByteLen(max - min))
  }

  /** Every value of the range can be read, with any bytes in front of its encoding. */
  lemma {:induction false} IntegerRoundTrip(min: int, max: int, v: int, before: seq<byte>)
    requires min <= v <= max
    ensures ReadInteger(min, max, before + IntegerEncoding(min, max, v)) == v
  {
    var w := before + IntegerEncoding(min, max, v);
    var k := ByteLen(max - min);
    ByteLenLeast(max - min, k);
    assert w[|w| - k..] == IntegerEncoding(min, max, v);
    LittleEndianRoundTrip(v - min, k);
    SmallMod(v - min, max - min + 1);
  }

  lemma {:induction false} SmallMod(x: nat, m: nat)
    requires x < m
    ensures x % m == x
  {
  }

  /** A read depends only on the bytes it takes. */
  lemma {:induction false} ReadIntegerIsLocal(min: int, max: int, w: seq<byte>, w': seq<byte>)
    requires min <= max
    requires var k := IntegerBytes(max - min, |w|);
             && k <= |w'| && w'[|w'| - k..] == w[|w| - k..]
             && (k < |w| || k == |w'|)
    ensures IntegerBytes(max - min, |w'|) == IntegerBytes(max - min, |w|)
    ensures ReadInteger(min, max, w') == ReadInteger(min, max, w)
  {
  }

  // ------------------------------------------------------------------------
  // What is promised of a read
  // ------------------------------------------------------------------------

  /** `k` bytes are what the range asks for: the least number that can express it, or all if there are fewer. */
  ghost predicate AsksFor(range: nat, available: nat, k: nat) {
    && k <= available
    && (k == available || range < Pow256(k))
    && (k == 0 || range >= Pow256(k - 1))
  }

  ghost predicate Quotient(word: nat, m: nat, v: int, q: nat) {
    word == q * m + v
  }

  /** The word taken around a circle of `m` places comes to rest at `v`. */
  ghost predicate Reduces(word: nat, m: nat, v: int) {
    0 <= v < m && exists q: nat :: Quotient(word, m, v, q)
  }

  /** `v` is the integer of [min, max] that `k` bytes at the back of `w` stand for. */
  ghost predicate IsRangedRead(min: int, max: int, w: seq<byte>, k: nat, v: int) {
    min <= max && AsksFor(max - min, |w|, k) && Reduces(LittleEndian(w[|w| - k..]), max - min + 1, v - min)
  }

  lemma {:induction false} AsksForIff(range: nat, available: nat, k: nat)
    ensures AsksFor(range, available, k) <==> k == IntegerBytes(range, available)
  {
    ByteLenLeast(range, k);
    if k > 0 {
      ByteLenLeast(range, k - 1);
    }
  }

  lemma {:induction false} ReducesIff(word: nat, m: nat, v: int)
    requires m > 0
    ensures Reduces(word, m, v) <==> v == word % m
  {
    assert Quotient(word, m, word % m, word / m);
    forall q: nat | 0 <= v < m && Quotient(word, m, v, q)
      ensures v == word % m
    {
      RemainderIsUnique(m, q, v, word / m, word % m);
    }
  }

  lemma {:induction false} RemainderIsUnique(m: nat, q: nat, r: nat, q': nat, r': nat)
    requires r < m && r' < m && q * m + r == q' * m + r'
    ensures r == r'
  {
    if q < q' {
      NextMultiple(m, q, q');
    } else if q' < q {
      NextMultiple(m, q', q);
    }
  }

  lemma {:induction false} NextMultiple(m: nat, q: nat, q': nat)
    requires q < q'
    ensures q * m + m <= q' * m
    decreases q'
  {
    assert q' * m == (q' - 1) * m + m;
    if q < q' - 1 {
      NextMultiple(m, q, q' - 1);
    }
  }

  lemma {:induction false} TurnedReduces(word: nat, m: nat, v: int, turns: nat)
    requires Reduces(word, m, v)
    ensures Reduces(word + turns * m, m, v)
  {
    var q: nat :| Quotient(word, m, v, q);
    assert (q + turns) * m == q * m + turns * m;
    assert Quotient(word + turns * m, m, v, q + turns);
  }

  /** The range of a whole type asks for the bytes of the type. */
  lemma {:induction false} WholeType(t: IntType)
    ensures ByteLen(t.Max() - t.Min()) == t.bits / 8 && t.Max() - t.Min() + 1 == t.Card() == Pow256(t.bits / 8)
  {
    SmallPowers();
    ByteLenLeast(t.Card() - 1, t.bits / 8);
    ByteLenLeast(t.Card() - 1, t.bits / 8 - 1);
  }

  /** Reading a whole type adds the word to the least value. */
  lemma {:induction false} ReadWholeType(t: IntType, w: seq<byte>)
    ensures var k := Min(|w|, t.bits / 8);
            && IntegerBytes(t.Max() - t.Min(), |w|) == k
            && ReadInteger(t.Min(), t.Max(), w) == t.Min() + LittleEndian(w[|w| - k..])
  {
    var k := Min(|w|, t.bits / 8);
    var word := LittleEndian(w[|w| - k..]);
    WholeType(t);
    LittleEndianBound(w[|w| - k..]);
    Pow256Monotonic(k, t.bits / 8);
    SmallMod(word, t.Card());
  }

  lemma {:induction false} SmallPowers()
    ensures Pow256(0) == 1 && Pow256(1) == 0x100 && Pow256(2) == 0x1_0000 && Pow256(3) == 0x100_0000
    ensures Pow256(4) == 0x1_0000_0000 && Pow256(7) == 0x100_0000_0000_0000 && Pow256(8) == 0x1_0000_0000_0000_0000
  {
    assert Pow256(4) == 0x1_0000 * Pow256(2);
    assert Pow256(6) == 0x1_0000 * Pow256(4);
    assert Pow256(8) == 0x1_0000 * Pow256(6);
  }

  /** Exactly one integer, from exactly one number of bytes, is promised; it is the one read. */
  lemma {:induction false} RangedReadIff(min: int, max: int, w: seq<byte>, k: nat, v: int)
    requires min <= max
    ensures IsRangedRead(min, max, w, k, v) <==> k == IntegerBytes(max - min, |w|) && v == ReadInteger(min, max, w)
  {
    AsksForIff(max - min, |w|, k);
    if k <= |w| {
      ReducesIff(LittleEndian(w[|w| - k..]), max - min + 1, v - min);
    }
  }

  /** Reading a byte reads the last one. */
  lemma {:induction false} ReadByte(w: seq<byte>)
    ensures w != [] ==> IntegerBytes(UINT8.Max(), |w|) == 1 && ReadInteger(0, UINT8.Max(), w) == w[|w| - 1]
    ensures w == [] ==> IntegerBytes(UINT8.Max(), |w|) == 0 && ReadInteger(0, UINT8.Max(), w) == 0
  {
    ReadWholeType(UINT8, w);
    LastByte(w);
  }

  lemma {:induction false} LastByte(w: seq<byte>)
    ensures w != [] ==> LittleEndian(w[|w| - 1..]) == w[|w| - 1]
    ensures LittleEndian(w[|w|..]) == 0
  {
    if w != [] {
      assert w[|w| - 1..] == [w[|w| - 1]];
    }
  }

  // ------------------------------------------------------------------------
  // The 64-bit arithmetic around the loop
  // ------------------------------------------------------------------------

  /** The wrapped 64-bit difference is the true one, for bounds of any type and sign. */
  lemma {:induction false} RangeIsExact(t: IntType, min: int, max: int)
    requires t.Holds(min) && t.Holds(max) && min <= max
    ensures ToUint64(ToUint64(max) - ToUint64(min)) == max - min < t.Card()
  {
  }

  /** Adding an offset to `min` in 64 bits and converting back does not wrap. */
  lemma {:induction false} OffsetIsExact(t: IntType, min: int, max: int, offset: nat)
    requires t.Holds(min) && t.Holds(max) && min + offset <= max
    ensures t.Convert(ToUint64(ToUint64(min) + offset)) == min + offset
  {
    SumThroughUint64(min, offset);
    ThroughUint64(t, min + offset);
  }

  lemma {:induction false} SumThroughUint64(x: int, y: nat)
    ensures ToUint64(ToUint64(x) + y) == ToUint64(x + y)
  {
  }

  /** A value survives the conversion to 64 unsigned bits and back. */
  lemma {:induction false} ThroughUint64(t: IntType, x: int)
    requires t.Holds(x)
    ensures t.Convert(ToUint64(x)) == x
  {
    if x < 0 {
      assert ToUint64(x) == x + TWO_TO_THE_64;
      WordIsMultiple(t, x);
      ConvertNegative(t, x, ToUint64(x));
    }
  }

  lemma {:induction false} ConvertNegative(t: IntType, x: int, y: int)
    requires t.Holds(x) && x < 0 && y % t.Card() == x + t.Card()
    ensures t.Convert(y) == x
  {
  }

  lemma {:induction false} WordIsMultiple(t: IntType, x: int)
    requires x < 0 <= x + t.Card()
    ensures (x + TWO_TO_THE_64) % t.Card() == x + t.Card()
  {
    if t.bits == 8 {
    } else if t.bits == 16 {
    } else if t.bits == 32 {
    } else {
    }
  }

  /** No range of a type needs more bytes than the type has. */
  lemma {:induction false} RangeFitsType(t: IntType, range: nat)
    requires range < t.Card()
    ensures 8 * ByteLen(range) <= t.bits
  {
    SmallPowers();
    ByteLenLeast(range, t.bits / 8);
  }
}
