/**
 The public calls of `FuzzedDataProvider`, and what each one does to the bytes that remain.
 */
module Calls {
  import opened Basics
  import opened Bytes
  import opened MachineIntegers
  import opened Characters
  import opened EscapedStrings
  import opened RangedIntegers

  /** A call with its arguments. `PickValueInArray` picks from numbers standing for any values. */
  datatype CallBase =
    | ConsumeBytes(numBytes: nat)
    | ConsumeBytesWithTerminator(numBytes: nat, terminator: byte)
    | ConsumeRemainingBytes
    | ConsumeBytesAsString(numBytes: nat)
    | ConsumeRandomLengthString(maxLength: nat)
    | ConsumeAnyLengthString
    | ConsumeRemainingBytesAsString
    | ConsumeIntegral(t: IntType)
    | ConsumeIntegralInRange(t: IntType, min: int, max: int)
    | ConsumeBool
    | ConsumeEnum(maxValue: nat)
    | PickValueInArray(values: seq<int>)
    | ConsumeData(numBytes: nat)
    | RemainingBytes
  {
    /** The arguments are values of their C++ types. */
    predicate WellTyped() {
      match this
      case ConsumeBytes(n) => n <= SIZE_MAX
      case ConsumeBytesWithTerminator(n, _) => n <= SIZE_MAX
      case ConsumeBytesAsString(n) => n <= SIZE_MAX
      case ConsumeRandomLengthString(n) => n <= SIZE_MAX
      case ConsumeIntegralInRange(t, min, max) => t.Holds(min) && t.Holds(max)
      case ConsumeEnum(k) => UINT32.Holds(k)
      case PickValueInArray(values) => |values| <= SIZE_MAX
      case ConsumeData(n) => n <= SIZE_MAX
      case _ => true
    }

    /** The arguments on which the call aborts whatever the data. */
    predicate BadArguments() {
      match this
      case ConsumeIntegralInRange(_, min, max) => min > max
      case PickValueInArray(values) => values == []
      case _ => false
    }

    /** Calls that read from the front of the data. */
    predicate ReadsFront() {
      || ConsumeBytes? || ConsumeBytesWithTerminator? || ConsumeRemainingBytes?
      || ConsumeBytesAsString? || ConsumeRandomLengthString? || ConsumeAnyLengthString?
      || ConsumeRemainingBytesAsString? || ConsumeData?
    }

    /** Calls that read from the back. */
    predicate ReadsBack() {
      ConsumeIntegral? || ConsumeIntegralInRange? || ConsumeBool? || ConsumeEnum? || PickValueInArray?
    }
  }

  type Call = c: CallBase | c.WellTyped() witness ConsumeBool

  /** What a call returns. `ConsumeData` answers with the bytes it wrote to its destination. */
  datatype Answer =
    | Bytes(bytes: seq<byte>)
    | Text(chars: seq<int>)
    | Number(value: int)
    | Flag(truth: bool)
    | Size(size: nat)

  /** A call aborts, or answers after taking bytes off the front and off the back. */
  datatype Outcome = Aborted | Returned(answer: Answer, front: nat, back: nat)

  /** What is left of `w` after taking bytes off both ends. */
  function Inner(w: seq<byte>, front: nat, back: nat): (m: seq<byte>)
    requires front + back <= |w|
    ensures |m| == |w| - front - back
  {
    w[front..|w| - back]
  }

  /** One call on the remaining bytes `w`. */
  function Step(model: CharModel, c: Call, w: seq<byte>): (o: Outcome)
    ensures o.Returned? ==> o.front + o.back <= |w|
    ensures o.Returned? && !c.ReadsFront() ==> o.front == 0
    ensures o.Returned? && !c.ReadsBack() ==> o.back == 0
  {
    if c.ReadsBack() then
      if c.BadArguments() then Aborted
      else
        Returned(Meaning(c, ReadInteger(Low(c), High(c), w)), 0, IntegerBytes(High(c) - Low(c), |w|))
    else FrontStep(model, c, w)
  }

  /** The bounds of the ranged integer that a call asks for. */
  function Low(c: Call): int
    requires c.ReadsBack()
  {
    match c
    case ConsumeIntegral(t) => t.Min()
    case ConsumeIntegralInRange(_, min, _) => min
    case _ => 0
  }

  function High(c: Call): (max: int)
    requires c.ReadsBack() && !c.BadArguments()
    ensures Low(c) <= max
  {
    match c
    case ConsumeIntegral(t) => t.Max()
    case ConsumeIntegralInRange(_, _, max) => max
    case ConsumeBool => UINT8.Max()
    case ConsumeEnum(maxValue) => maxValue
    case PickValueInArray(values) => |values| - 1
  }

  /** What the call makes of the integer. */
  function Meaning(c: Call, v: int): Answer
    requires c.ReadsBack() && !c.BadArguments()
    requires Low(c) <= v <= High(c)
  {
    match c
    case ConsumeBool => Flag(BitAnd(1, v) == 1)
    case PickValueInArray(values) => Number(values[v])
    case _ => Number(v)
  }

  /** The calls that do not read from the back. */
  function FrontStep(model: CharModel, c: Call, w: seq<byte>): (o: Outcome)
    requires !c.ReadsBack()
    ensures o.Returned? ==> o.front <= |w| && o.back == 0
    ensures o.Returned? && !c.ReadsFront() ==> o.front == 0
  {
    match c
    case ConsumeBytes(n) =>
      var k := Min(n, |w|);
      Returned(Bytes(w[..k]), k, 0)
    case ConsumeBytesWithTerminator(n, terminator) =>
      var k := Min(n, |w|);
      if k == SIZE_MAX then Aborted else Returned(Bytes(w[..k] + [terminator]), k, 0)
    case ConsumeRemainingBytes =>
      Returned(Bytes(w), |w|, 0)
    case ConsumeBytesAsString(n) =>
      var k := Min(n, |w|);
      Returned(Text(Chars(model, w[..k])), k, 0)
    case ConsumeRandomLengthString(maxLength) =>
      var r := ReadString(w, maxLength);
      Returned(Text(Chars(model, r.text)), r.used, 0)
    case ConsumeAnyLengthString =>
      var r := ReadString(w, |w|);
      Returned(Text(Chars(model, r.text)), r.used, 0)
    case ConsumeRemainingBytesAsString =>
      Returned(Text(Chars(model, w)), |w|, 0)
    case ConsumeData(n) =>
      var k := Min(n, |w|);
      Returned(Bytes(w[..k]), k, 0)
    case RemainingBytes =>
      Returned(Size(|w|), 0, 0)
  }

  /**
   Exactly when a call aborts: on bad arguments, or when the terminator would make the result
   longer than a size can say.
   */
  lemma {:induction false} AbortsExactly(model: CharModel, c: Call, w: seq<byte>)
    ensures Step(model, c, w).Aborted? <==>
            c.BadArguments() || (c.ConsumeBytesWithTerminator? && Min(c.numBytes, |w|) == SIZE_MAX)
  {
  }

  /** The readers of a given number of bytes agree on what they read and take. */
  lemma {:induction false} FrontReadersAgree(model: CharModel, n: nat, terminator: byte, w: seq<byte>)
    requires n <= SIZE_MAX && |w| < SIZE_MAX
    ensures var o := Step(model, ConsumeBytes(n), w);
            && Step(model, ConsumeData(n), w) == o
            && Step(model, ConsumeBytesWithTerminator(n, terminator), w) == o.(answer := Bytes(o.answer.bytes + [terminator]))
            && var text := Step(model, ConsumeBytesAsString(n), w);
               text.Returned? && text.front == o.front && text.answer.Text? && CharBytes(text.answer.chars) == o.answer.bytes
  {
    CharsBijection(model, w[..Min(n, |w|)], []);
  }

  // ------------------------------------------------------------------------
  // What each call answers
  // ------------------------------------------------------------------------

  /** A call for an integer in a range answers and takes exactly what is promised, also when the data runs short. */
  lemma {:induction false} RangedCallIff(model: CharModel, t: IntType, min: int, max: int, w: seq<byte>, k: nat, v: int)
    requires t.Holds(min) && t.Holds(max)
    ensures Step(model, ConsumeIntegralInRange(t, min, max), w) == Returned(Number(v), 0, k) <==> IsRangedRead(min, max, w, k, v)
  {
    if min <= max {
      RangedReadIff(min, max, w, k, v);
    }
  }

  /** Words that differ by whole turns of the range are given the same answer. */
  lemma {:induction false} WholeTurnsMakeNoDifference(model: CharModel, t: IntType, min: int, max: int,
                                                      w: seq<byte>, w': seq<byte>, k: nat, turns: nat)
    requires t.Holds(min) && t.Holds(max) && min <= max
    requires |w'| == |w| && AsksFor(max - min, |w|, k)
    requires LittleEndian(w'[|w| - k..]) == LittleEndian(w[|w| - k..]) + turns * (max - min + 1)
    ensures Step(model, ConsumeIntegralInRange(t, min, max), w') == Step(model, ConsumeIntegralInRange(t, min, max), w)
  {
    AsksForIff(max - min, |w|, k);
    var v := ReadInteger(min, max, w);
    RangedReadIff(min, max, w, k, v);
    TurnedReduces(LittleEndian(w[|w| - k..]), max - min + 1, v - min, turns);
    RangedReadIff(min, max, w', k, v);
  }

  /** An integer of a whole type is the least value of the type plus the word. */
  lemma {:induction false} IntegralCall(model: CharModel, t: IntType, w: seq<byte>)
    ensures var k := Min(|w|, t.bits / 8);
            Step(model, ConsumeIntegral(t), w) == Returned(Number(t.Min() + LittleEndian(w[|w| - k..])), 0, k)
  {
    ReadWholeType(t, w);
  }

  /** It is the integer of the range of the type. */
  lemma {:induction false} WholeTypeIsRanged(model: CharModel, t: IntType, w: seq<byte>)
    ensures Step(model, ConsumeIntegral(t), w) == Step(model, ConsumeIntegralInRange(t, t.Min(), t.Max()), w)
  {
    SameRange(model, ConsumeIntegral(t), ConsumeIntegralInRange(t, t.Min(), t.Max()), w);
  }

  lemma {:induction false} SameRange(model: CharModel, c: Call, c': Call, w: seq<byte>)
    requires c.ConsumeIntegral? && c'.ConsumeIntegralInRange? && !c'.BadArguments()
    requires Low(c) == Low(c') && High(c) == High(c')
    ensures Step(model, c, w) == Step(model, c', w)
  {
  }

  /** A byte is the last one. */
  lemma {:induction false} ByteCall(model: CharModel, w: seq<byte>)
    ensures w != [] ==> Step(model, ConsumeIntegral(UINT8), w) == Returned(Number(w[|w| - 1]), 0, 1)
    ensures w == [] ==> Step(model, ConsumeIntegral(UINT8), w) == Returned(Number(0), 0, 0)
  {
    ReadByte(w);
    ByteAnswer(model, w, if w == [] then 0 else w[|w| - 1]);
  }

  lemma {:induction false} ByteAnswer(model: CharModel, w: seq<byte>, v: nat)
    requires ReadInteger(0, UINT8.Max(), w) == v
    ensures Step(model, ConsumeIntegral(UINT8), w) == Returned(Number(v), 0, IntegerBytes(UINT8.Max(), |w|))
  {
  }

  /** A flag is the lowest bit of the last byte. */
  lemma {:induction false} BoolCall(model: CharModel, w: seq<byte>)
    ensures w != [] ==> Step(model, ConsumeBool, w) == Returned(Flag(w[|w| - 1] % 2 == 1), 0, 1)
    ensures w == [] ==> Step(model, ConsumeBool, w) == Returned(Flag(false), 0, 0)
  {
    ReadByte(w);
    var v := if w == [] then 0 else w[|w| - 1];
    BoolAnswer(model, w, v);
    AndOne(v);
  }

  lemma {:induction false} BoolAnswer(model: CharModel, w: seq<byte>, v: nat)
    requires ReadInteger(0, UINT8.Max(), w) == v
    ensures Step(model, ConsumeBool, w) == Returned(Flag(BitAnd(1, v) == 1), 0, IntegerBytes(UINT8.Max(), |w|))
  {
  }

  /** An enumerator is the integer from zero to the largest. */
  lemma {:induction false} EnumCall(model: CharModel, maxValue: nat, w: seq<byte>)
    requires UINT32.Holds(maxValue)
    ensures Step(model, ConsumeEnum(maxValue), w) == Step(model, ConsumeIntegralInRange(UINT32, 0, maxValue), w)
  {
  }

  /** A value is picked by the integer that is its index. */
  lemma {:induction false} PickCallIff(model: CharModel, values: seq<int>, w: seq<byte>, k: nat, x: int)
    requires |values| <= SIZE_MAX
    ensures Step(model, PickValueInArray(values), w) == Returned(Number(x), 0, k) <==>
            exists i: nat :: i < |values| && values[i] == x && IsRangedRead(0, |values| - 1, w, k, i)
  {
    if values != [] {
      var i := ReadInteger(0, |values| - 1, w);
      RangedReadIff(0, |values| - 1, w, k, i);
      forall j: nat | j < |values| && values[j] == x && IsRangedRead(0, |values| - 1, w, k, j)
        ensures j == i
      {
        RangedReadIff(0, |values| - 1, w, k, j);
      }
    }
  }

  /** A string without a limit is one whose limit is what remains. */
  lemma {:induction false} AnyLengthCall(model: CharModel, w: seq<byte>)
    requires |w| <= SIZE_MAX
    ensures Step(model, ConsumeAnyLengthString, w) == Step(model, ConsumeRandomLengthString(|w|), w)
  {
  }

  /** A string call gives the text that the data spells, in `char`s, and takes its spelling. */
  lemma {:induction false} StringCallIff(model: CharModel, maxLength: nat, w: seq<byte>, text: seq<byte>, used: nat)
    requires maxLength <= SIZE_MAX
    ensures Step(model, ConsumeRandomLengthString(maxLength), w) == Returned(Text(Chars(model, text)), used, 0) <==>
            exists stop :: Spells(w, maxLength, text, used, stop)
  {
    var r := ReadString(w, maxLength);
    SpellsIff(w, maxLength, text, used);
    CharsBijection(model, text, []);
    CharsBijection(model, r.text, []);
  }

  /** Without a limit and without a terminator, a string goes on to the end of the data. */
  lemma {:induction false} UnterminatedStringCall(model: CharModel, s: seq<byte>)
    ensures Step(model, ConsumeAnyLengthString, Escape(s)) == Returned(Text(Chars(model, s)), |Escape(s)|, 0)
    ensures Step(model, ConsumeAnyLengthString, Escape(s) + [BACKSLASH]) ==
            Returned(Text(Chars(model, s + [BACKSLASH])), |Escape(s)| + 1, 0)
  {
    UnterminatedIsRead(s, |Escape(s)|);
    AnyLengthAnswer(model, Escape(s), s, |Escape(s)|);
    LoneBackslashIsRead(s, |Escape(s)| + 1);
    AnyLengthAnswer(model, Escape(s) + [BACKSLASH], s + [BACKSLASH], |Escape(s)| + 1);
  }

  lemma {:induction false} AnyLengthAnswer(model: CharModel, w: seq<byte>, text: seq<byte>, used: nat)
    requires ReadString(w, |w|) == Reading(text, used)
    ensures Step(model, ConsumeAnyLengthString, w) == Returned(Text(Chars(model, text)), used, 0)
  {
  }

  // ------------------------------------------------------------------------
  // What a call depends on
  // ------------------------------------------------------------------------

  /** The data `w'` agrees with `w` on the `front` first and `back` last bytes. */
  ghost predicate SameEnds(w: seq<byte>, w': seq<byte>, front: nat, back: nat) {
    && front + back <= |w|
    && front + back <= |w'|
    && w'[..front] == w[..front]
    && w'[|w'| - back..] == w[|w| - back..]
  }

  /**
   A call depends only on the bytes it takes. If it left bytes over, then with anything else, or
   nothing, in their place it does the same; if it took all there was, then it does the same on
   those bytes.
   */
  lemma {:induction false} StepIsLocal(model: CharModel, c: Call, w: seq<byte>, w': seq<byte>)
    requires !c.RemainingBytes?
    requires var o := Step(model, c, w);
             && o.Returned?
             && SameEnds(w, w', o.front, o.back)
             && (o.front + o.back < |w| || o.front + o.back == |w'|)
    ensures Step(model, c, w') == Step(model, c, w)
  {
    if c.ReadsBack() {
      ReadIntegerIsLocal(Low(c), High(c), w, w');
    } else if c.ConsumeRandomLengthString? {
      ReadingIsLocal(w, w', c.maxLength, c.maxLength);
    } else if c.ConsumeAnyLengthString? {
      AnyLengthIsLocal(w, w');
    } else if c.ConsumeRemainingBytes? || c.ConsumeRemainingBytesAsString? {
      assert w' == w'[..|w|] == w[..|w|] == w;
    }
  }

  /** The limit that grows with the data makes no difference to a string that ends before the data does. */
  lemma {:induction false} AnyLengthIsLocal(w: seq<byte>, w': seq<byte>)
    requires var r := ReadString(w, |w|);
             && r.used <= |w'| && w'[..r.used] == w[..r.used]
             && (r.used < |w| || r.used == |w'|)
    ensures ReadString(w', |w'|) == ReadString(w, |w|)
  {
    var r := ReadString(w, |w|);
    ReadingBounds(w, |w|);
    if r.used < |w| {
      ReadingIsLocal(w, w', |w|, |w'|);
    } else {
      assert w == w[..r.used] && w' == w'[..r.used];
    }
  }
}
