/**
 The inverse of a call: bytes that make it give a chosen answer.
 */
module Encoding {
  import opened Bytes
  import opened MachineIntegers
  import opened Characters
  import opened EscapedStrings
  import opened RangedIntegers
  import opened Calls

  /** The answers that a call can give when the data does not run short. */
  predicate Legal(model: CharModel, c: Call, a: Answer) {
    match c
    case ConsumeBytes(n) => a.Bytes? && |a.bytes| == n
    case ConsumeBytesWithTerminator(n, terminator) =>
      n < SIZE_MAX && a.Bytes? && |a.bytes| == n + 1 && a.bytes[n] == terminator
    case ConsumeRemainingBytes => false
    case ConsumeBytesAsString(n) => a.Text? && AreChars(model, a.chars) && |a.chars| == n
    case ConsumeRandomLengthString(maxLength) =>
      a.Text? && AreChars(model, a.chars) && |a.chars| <= maxLength
    case ConsumeAnyLengthString => a.Text? && AreChars(model, a.chars)
    case ConsumeRemainingBytesAsString => false
    case ConsumeIntegral(t) => a.Number? && t.Holds(a.value)
    case ConsumeIntegralInRange(_, min, max) => a.Number? && min <= a.value <= max
    case ConsumeBool => a.Flag?
    case ConsumeEnum(maxValue) => a.Number? && 0 <= a.value <= maxValue
    case PickValueInArray(values) => a.Number? && a.value in values
    case ConsumeData(n) => a.Bytes? && |a.bytes| == n
    case RemainingBytes => a.Size?
  }

  function IndexOf(values: seq<int>, x: int): (i: nat)
    requires x in values
    ensures i < |values| && values[i] == x
  {
    if values[0] == x then 0 else 1 + IndexOf(values[1..], x)
  }

  /** An integer that stands for the answer. */
  function Choose(model: CharModel, c: Call, a: Answer): (v: int)
    requires c.ReadsBack() && Legal(model, c, a)
    ensures !c.BadArguments()
    ensures Low(c) <= v <= High(c)
    ensures Meaning(c, v) == a
  {
    match c
    case ConsumeBool => AndOne(1); if a.truth then 1 else 0
    case PickValueInArray(values) => IndexOf(values, a.value)
    case ConsumeIntegral(_) => a.value
    case ConsumeIntegralInRange(_, _, _) => a.value
    case ConsumeEnum(_) => a.value
  }

  /** The bytes for the front; strings below their limit end in a backslash and `x`. */
  function FrontCode(model: CharModel, c: Call, a: Answer, x: byte): seq<byte>
    requires Legal(model, c, a)
  {
    match c
    case ConsumeBytes(_) => a.bytes
    case ConsumeBytesWithTerminator(n, _) => a.bytes[..n]
    case ConsumeBytesAsString(_) => CharBytes(a.chars)
    case ConsumeRandomLengthString(maxLength) =>
      var s := CharBytes(a.chars);
      if |s| < maxLength then Terminated(s, x, []) else Escape(s)
    case ConsumeAnyLengthString => Terminated(CharBytes(a.chars), x, [])
    case ConsumeData(_) => a.bytes
    case _ => []
  }

  /** The bytes for the back. */
  function BackCode(model: CharModel, c: Call, a: Answer): seq<byte>
    requires Legal(model, c, a)
  {
    if c.ReadsBack() then IntegerEncoding(Low(c), High(c), Choose(model, c, a)) else []
  }

  /** A string call reads its code back. */
  lemma {:induction false} TextRoundTrip(model: CharModel, chars: seq<int>, x: byte, rest: seq<byte>, maxLength: nat)
    requires AreChars(model, chars) && x != BACKSLASH && |chars| <= maxLength
    ensures var s := CharBytes(chars);
            var code := if |s| < maxLength then Terminated(s, x, []) else Escape(s);
            && ReadString(code + rest, maxLength) == Reading(s, |code|)
            && Chars(model, s) == chars
  {
    var s := CharBytes(chars);
    CharsBijection(model, s, chars);
    EscapeRoundTrip(s, x, rest, maxLength);
    assert Terminated(s, x, []) + rest == Terminated(s, x, rest);
  }

  /** Every legal answer is given on its code, whatever lies between the two ends. */
  lemma {:induction false} StepRoundTrip(model: CharModel, c: Call, a: Answer, x: byte, mid: seq<byte>)
    requires Legal(model, c, a) && !c.RemainingBytes? && x != BACKSLASH
    ensures var f, b := FrontCode(model, c, a, x), BackCode(model, c, a);
            Step(model, c, f + mid + b) == Returned(a, |f|, |b|)
  {
    var f, b := FrontCode(model, c, a, x), BackCode(model, c, a);
    var w := f + mid + b;
    if c.ReadsBack() {
      IntegerRoundTrip(Low(c), High(c), Choose(model, c, a), f + mid);
    } else {
      assert b == [] && w == f + mid && w[..|f|] == f;
      FrontRoundTrip(model, c, a, x, mid);
    }
  }

  lemma {:induction false} FrontRoundTrip(model: CharModel, c: Call, a: Answer, x: byte, rest: seq<byte>)
    requires Legal(model, c, a) && c.ReadsFront() && x != BACKSLASH
    ensures var f := FrontCode(model, c, a, x);
            Step(model, c, f + rest) == Returned(a, |f|, 0)
  {
    var f := FrontCode(model, c, a, x);
    var w := f + rest;
    assert w[..|f|] == f;
    match c
    case ConsumeBytesAsString(n) => CharsBijection(model, f, a.chars);
    case ConsumeRandomLengthString(maxLength) => TextRoundTrip(model, a.chars, x, rest, maxLength);
    case ConsumeAnyLengthString => TextRoundTrip(model, a.chars, x, rest, |w|);
    case ConsumeBytesWithTerminator(n, terminator) => assert a.bytes == a.bytes[..n] + [terminator];
    case _ =>
  }

  /** A call that leaves bytes over has given a legal answer. */
  lemma {:induction false} StepIsLegal(model: CharModel, c: Call, w: seq<byte>)
    requires var o := Step(model, c, w); o.Returned? && o.front + o.back < |w|
    ensures Legal(model, c, Step(model, c, w).answer)
  {
    match c
    case ConsumeRandomLengthString(maxLength) => ReadingBounds(w, maxLength);
    case _ =>
  }
}
