/**
 The C++ integer arithmetic that the provider relies on: fixed-width types, modular
 conversion between them, 64-bit shifts and the bitwise operators.
 */
module MachineIntegers {
  const TWO_TO_THE_64: nat := 0x1_0000_0000_0000_0000

  /** The largest `size_t`. */
  const SIZE_MAX: nat := TWO_TO_THE_64 - 1

  /** A built-in integer type, signed ones in two's complement. */
  datatype IntTypeBase = IntType(bits: nat, signed: bool) {
    predicate Supported() {
      bits == 8 || bits == 16 || bits == 32 || bits == 64
    }

    /** The number of values of the type. */
    function Card(): nat {
      if bits == 8 then 0x100
      else if bits == 16 then 0x1_0000
      else if bits == 32 then 0x1_0000_0000
      else TWO_TO_THE_64
    }

    function Min(): int {
      if signed then -(Card() / 2) else 0
    }

    function Max(): int {
      if signed then Card() / 2 - 1 else Card() - 1
    }

    predicate Holds(x: int) {
      Min() <= x <= Max()
    }

    /** Conversion to this type: the value of the type congruent to `x` modulo `Card()`. */
    function Convert(x: int): (r: int)
      ensures Holds(r)
      ensures r % Card() == x % Card()
      ensures Holds(x) ==> r == x
    {
      var low := x % Card();
      if low <= Max() then low else low - Card()
    }
  }

  type IntType = t: IntTypeBase | t.Supported() witness IntType(8, false)

  const UINT8: IntType := IntType(8, false)
  const UINT32: IntType := IntType(32, false)
  const SIZE_T: IntType := IntType(64, false)

  function ToUint64(x: int): (r: nat)
    ensures r < TWO_TO_THE_64
  {
    x % TWO_TO_THE_64
  }

  /** `x >> n` on an unsigned value. */
  function ShiftRight(x: nat, n: nat): nat {
    if n == 0 then x else ShiftRight(x / 2, n - 1)
  }

  /** `x << n` in 64 bits: bits above the top are lost. */
  function ShiftLeft64(x: nat, n: nat): nat
    decreases n
  {
    if n == 0 then x else ShiftLeft64(ToUint64(2 * x), n - 1)
  }

  function BitOr(x: nat, y: nat): nat
    decreases x + y
  {
    if x == 0 then y
    else if y == 0 then x
    else 2 * BitOr(x / 2, y / 2) + (if x % 2 == 1 || y % 2 == 1 then 1 else 0)
  }

  function BitAnd(x: nat, y: nat): nat
    decreases x + y
  {
    if x == 0 || y == 0 then 0
    else 2 * BitAnd(x / 2, y / 2) + (if x % 2 == 1 && y % 2 == 1 then 1 else 0)
  }

  lemma {:induction false} ShiftRightOnce(x: nat, n: nat)
    ensures ShiftRight(x, n + 1) == ShiftRight(x, n) / 2
  {
    if n > 0 {
      ShiftRightOnce(x / 2, n - 1);
    }
  }

  /** Eight more places of shift divide by 256 once more. */
  lemma {:induction false} ShiftRightByte(x: nat, n: nat)
    ensures ShiftRight(x, n + 8) == ShiftRight(x, n) / 256
  {
    ShiftRightOnce(x, n);
    ShiftRightOnce(x, n + 1);
    assert ShiftRight(x, n + 2) == ShiftRight(x, n) / 4;
    ShiftRightOnce(x, n + 2);
    ShiftRightOnce(x, n + 3);
    assert ShiftRight(x, n + 4) == ShiftRight(x, n) / 16;
    ShiftRightOnce(x, n + 4);
    ShiftRightOnce(x, n + 5);
    assert ShiftRight(x, n + 6) == ShiftRight(x, n) / 64;
    ShiftRightOnce(x, n + 6);
    ShiftRightOnce(x, n + 7);
  }

  lemma {:induction false} ScalingUp(x: nat, p: nat)
    requires p > 0
    ensures x <= x * p
  {
  }

  /** Shifting left multiplies as long as no bit leaves the word. */
  lemma {:induction false} ShiftLeftExact(x: nat, n: nat)
    requires x * Pow2(n) < TWO_TO_THE_64
    ensures ShiftLeft64(x, n) == x * Pow2(n)
    decreases n
  {
    if n > 0 {
      var p := Pow2(n - 1);
      assert x * (2 * p) == (2 * x) * p;
      ScalingUp(2 * x, p);
      ShiftLeftExact(2 * x, n - 1);
    }
  }

  function Pow2(n: nat): (p: nat)
    ensures p > 0
  {
    if n == 0 then 1 else 2 * Pow2(n - 1)
  }

  /** The types hold as many values as their bits can tell apart, in two's complement if signed. */
  lemma {:induction false} TypeRanges(t: IntType)
    ensures t.Card() == Pow2(t.bits) && t.Card() / 2 == Pow2(t.bits - 1)
    ensures t.signed ==> t.Min() + Pow2(t.bits - 1) == 0 && t.Max() == Pow2(t.bits - 1) - 1
    ensures !t.signed ==> t.Min() == 0 && t.Max() == Pow2(t.bits) - 1
  {
    WordPowers();
  }

  lemma {:induction false} WordPowers()
    ensures Pow2(7) == 0x80 && Pow2(8) == 0x100 && Pow2(15) == 0x8000 && Pow2(16) == 0x1_0000
    ensures Pow2(31) == 0x8000_0000 && Pow2(32) == 0x1_0000_0000
    ensures Pow2(63) == 0x8000_0000_0000_0000 && Pow2(64) == TWO_TO_THE_64
  {
    assert Pow2(7) == 8 * Pow2(4) == 128;
    Pow2Sum(8, 7);
    Pow2Sum(16, 15);
    Pow2Sum(32, 31);
  }

  lemma {:induction false} Pow2Sum(m: nat, n: nat)
    ensures Pow2(m + n) == Pow2(m) * Pow2(n)
    decreases m
  {
    if m > 0 {
      Pow2Sum(m - 1, n);
      assert Pow2(m - 1 + n) == Pow2(m - 1) * Pow2(n);
      DoubleProduct(Pow2(m - 1), Pow2(n));
    }
  }

  lemma {:induction false} DoubleProduct(a: nat, b: nat)
    ensures (2 * a) * b == 2 * (a * b)
  {
  }

  /** Or-ing into the bits that a shift has cleared adds. */
  lemma {:induction false} OrIntoShifted(x: nat, y: nat, n: nat)
    requires y < Pow2(n)
    ensures BitOr(x * Pow2(n), y) == x * Pow2(n) + y
    decreases n
  {
    if n > 0 && x > 0 && y > 0 {
      assert x * Pow2(n) == 2 * (x * Pow2(n - 1));
      OrIntoShifted(x, y / 2, n - 1);
    }
  }

  /** When the top byte of `x` is clear, `(x << 8) | b` loses nothing and appends the byte `b`. */
  lemma {:induction false} ShiftInByte(x: nat, b: nat)
    requires 256 * x < TWO_TO_THE_64
    requires b < 256
    ensures BitOr(ShiftLeft64(x, 8), b) == 256 * x + b
  {
    assert Pow2(8) == 256 by {
      assert Pow2(4) == 16;
    }
    ShiftLeftExact(x, 8);
    OrIntoShifted(x, b, 8);
  }

  /** The lowest bit. */
  lemma {:induction false} AndOne(x: nat)
    ensures BitAnd(1, x) == x % 2
  {
    if x != 0 {
      assert BitAnd(1, x) == 2 * BitAnd(0, x / 2) + x % 2;
    }
  }
}
