/**
 `FuzzedDataProvider` as it is written: an object that moves over a fixed buffer. Each method is
 proved to do what `Calls.Step` says of its call.
 */
module Provider {
  import opened Basics
  import opened Bytes
  import opened MachineIntegers
  import opened Characters
  import opened EscapedStrings
  import opened RangedIntegers
  import opened Calls
  import opened Runs

  /** What a method gives: a value, or a call of `abort`. */
  datatype Result<+T> = Ok(value: T) | Abort {
    predicate IsFailure() {
      Abort?
    }

    function PropagateFailure<U>(): Result<U>
      requires Abort?
    {
      Abort
    }

    function Extract(): T
      requires Ok?
    {
      value
    }
  }

  /** The call `c` answers `a` and takes the window from `n` bytes at `p` to `n'` bytes at `p'`. */
  ghost predicate Moved(model: CharModel, c: Call, a: Answer, data: seq<byte>, p: nat, n: nat, p': nat, n': nat)
    requires p + n <= |data|
  {
    && p <= p'
    && p' + n' <= p + n
    && Step(model, c, data[p..p + n]) == Returned(a, p' - p, p + n - (p' + n'))
  }

  /** The first of the calls does that, and the run goes on with the others. */
  ghost predicate MovedOn(model: CharModel, calls: seq<Call>, a: Answer, data: seq<byte>, p: nat, n: nat, p': nat, n': nat)
    requires calls != [] && p + n <= |data|
  {
    && p <= p'
    && p' + n' <= p + n
    && Reaches(model, calls, data[p..p + n], [a], p' - p, p + n - (p' + n'), calls[1..], data[p'..p' + n'])
  }

  /** The whole script does that. */
  ghost predicate MovedThrough(model: CharModel, calls: seq<Call>, answers: seq<Answer>, data: seq<byte>,
                               p: nat, n: nat, p': nat, n': nat)
    requires p + n <= |data|
  {
    && p <= p'
    && p' + n' <= p + n
    && Run(model, calls, data[p..p + n]) == Finished(answers, p' - p, p + n - (p' + n'))
  }

  /** The script is aborted. */
  ghost predicate CutShort(model: CharModel, calls: seq<Call>, data: seq<byte>, p: nat, n: nat)
    requires p + n <= |data|
  {
    Run(model, calls, data[p..p + n]) == Died
  }

  class FuzzedDataProvider {
    /** The array that the provider wraps. */
    const data: seq<byte>
    const model: CharModel
    /** `data_ptr_`, as an index into `data`. */
    var position: nat
    /** `remaining_bytes_`. */
    var remaining: nat

    ghost predicate Valid()
      reads this
    {
      position + remaining <= |data| <= SIZE_MAX
    }

    /** The bytes that have not been consumed. */
    ghost function Window(): (w: seq<byte>)
      requires Valid()
      reads this
      ensures |w| == remaining
    {
      data[position..position + remaining]
    }

    constructor (data: seq<byte>, model: CharModel)
      requires |data| <= SIZE_MAX
      ensures Valid() && Window() == data && position == 0
      ensures this.data == data && this.model == model
    {
      this.data, this.model := data, model;
      position, remaining := 0, |data|;
    }

    /** The object has gone through the call `c`, which answered `a`. */
    twostate predicate Performed(c: Call, a: Answer)
      requires old(Valid())
      reads this
    {
      && Valid()
      && Moved(model, c, a, data, old(position), old(remaining), position, remaining)
    }

    /** The call `c` aborts. */
    twostate predicate Refused(c: Call)
      requires old(Valid())
      reads this
    {
      Step(model, c, old(Window())) == Aborted
    }

    /** The object has gone through the script `calls`, which gave `answers`. */
    twostate predicate Ran(calls: seq<Call>, answers: seq<Answer>)
      requires old(Valid())
      reads this
    {
      Valid() && MovedThrough(model, calls, answers, data, old(position), old(remaining), position, remaining)
    }

    /** `k` bytes are gone from the front of the window, and nothing else has changed. */
    twostate predicate TookFront(k: nat)
      reads this
    {
      position == old(position) + k && remaining + k == old(remaining)
    }

    /** `k` bytes are gone from the back. */
    twostate predicate TookBack(k: nat)
      reads this
    {
      position == old(position) && remaining + k == old(remaining)
    }

    // ----------------------------------------------------------------------
    // Private methods
    // ----------------------------------------------------------------------

    method Advance(numBytes: nat) returns (r: Result<()>)
      requires Valid()
      modifies this
      ensures Valid()
      ensures r.Ok? <==> numBytes <= old(remaining)
      ensures r.Ok? ==> position == old(position) + numBytes && remaining == old(remaining) - numBytes
      ensures r.Abort? ==> unchanged(this)
    {
      if numBytes > remaining {
        return Abort;
      }
      position := position + numBytes;
      remaining := remaining - numBytes;
      return Ok(());
    }

    /** The copy comes before the check of `Advance`, so callers must not ask for more than remains. */
    method CopyAndAdvance(destination: array<byte>, numBytes: nat) returns (r: Result<()>)
      requires Valid()
      requires numBytes <= remaining && numBytes <= destination.Length
      modifies this, destination
      ensures Valid() && r.Ok?
      ensures position == old(position) + numBytes && remaining == old(remaining) - numBytes
      ensures destination[..numBytes] == old(Window()[..numBytes])
      ensures destination[numBytes..] == old(destination[numBytes..])
    {
      forall i | 0 <= i < numBytes {
        destination[i] := data[position + i];
      }
      r := Advance(numBytes);
    }

    /** A vector of `size` bytes of which the first `numBytes` are filled from the data. */
    method ConsumeIntoVector(size: nat, numBytes: nat) returns (r: Result<seq<byte>>)
      requires Valid()
      requires numBytes <= remaining && (size == 0 || numBytes <= size)
      modifies this
      ensures Valid()
      ensures r.Abort? <==> size == 0 && numBytes != 0
      ensures r.Ok? ==>
                && position == old(position) + numBytes && remaining == old(remaining) - numBytes
                && |r.value| == size
                && r.value[..numBytes] == old(Window()[..numBytes])
    {
      if size == 0 {
        if numBytes != 0 {
          return Abort;
        }
        return Ok([]);
      }
      var result := new byte[size](_ => 0);
      var copied := CopyAndAdvance(result, numBytes);
      assert copied.Ok?;
      return Ok(result[..]);
    }

    // ----------------------------------------------------------------------
    // Bytes
    // ----------------------------------------------------------------------

    method ConsumeBytes(numBytes: nat) returns (r: Result<seq<byte>>)
      requires Valid() && numBytes <= SIZE_MAX
      modifies this
      ensures r.Ok? && Performed(CallBase.ConsumeBytes(numBytes), Bytes(r.value))
      ensures var k := Min(numBytes, old(remaining)); TookFront(k) && r.value == old(Window())[..k]
    {
      var n := Min(numBytes, remaining);
      r := ConsumeIntoVector(n, n);
      assert r.value == r.value[..n];
    }

    /** `size_t` arithmetic wraps: this is the one place where an abort inside can be reached. */
    method ConsumeBytesWithTerminator(numBytes: nat, terminator: byte) returns (r: Result<seq<byte>>)
      requires Valid() && numBytes <= SIZE_MAX
      modifies this
      ensures r.Ok? ==> Performed(CallBase.ConsumeBytesWithTerminator(numBytes, terminator), Bytes(r.value))
      ensures r.Abort? ==> Refused(CallBase.ConsumeBytesWithTerminator(numBytes, terminator))
      ensures var k := Min(numBytes, old(remaining));
              && (r.Ok? <==> k < SIZE_MAX)
              && (r.Ok? ==> TookFront(k) && r.value == old(Window())[..k] + [terminator])
    {
      var n := Min(numBytes, remaining);
      var size := (n + 1) % TWO_TO_THE_64;
      assert size == if n == SIZE_MAX then 0 else n + 1;
      var result :- ConsumeIntoVector(size, n);
      ghost var taken := result[..n];
      result := result[|result| - 1 := terminator];
      assert result == taken + [terminator];
      return Ok(result);
    }

    method ConsumeRemainingBytes() returns (r: Result<seq<byte>>)
      requires Valid()
      modifies this
      ensures r.Ok? && Performed(CallBase.ConsumeRemainingBytes, Bytes(r.value))
      ensures TookFront(old(remaining)) && r.value == old(Window())
    {
      r := ConsumeBytes(remaining);
      assert old(Window())[..old(remaining)] == old(Window());
    }

    method ConsumeData(destination: array<byte>, numBytes: nat) returns (r: Result<nat>)
      requires Valid() && numBytes <= SIZE_MAX
      requires Min(numBytes, remaining) <= destination.Length
      modifies this, destination
      ensures r.Ok? && r.value <= destination.Length
      ensures Performed(CallBase.ConsumeData(numBytes), Bytes(destination[..r.value]))
      ensures r.value == Min(numBytes, old(remaining)) && TookFront(r.value)
      ensures destination[..r.value] == old(Window())[..r.value]
      ensures destination[r.value..] == old(destination[Min(numBytes, remaining)..])
    {
      var n := Min(numBytes, remaining);
      var copied := CopyAndAdvance(destination, n);
      assert copied.Ok?;
      return Ok(n);
    }

    // ----------------------------------------------------------------------
    // Strings
    // ----------------------------------------------------------------------

    method ConsumeBytesAsString(numBytes: nat) returns (r: Result<seq<int>>)
      requires Valid() && numBytes <= SIZE_MAX
      modifies this
      ensures r.Ok? && Performed(CallBase.ConsumeBytesAsString(numBytes), Text(r.value))
      ensures var k := Min(numBytes, old(remaining)); TookFront(k) && r.value == Chars(model, old(Window())[..k])
    {
      var n := Min(numBytes, remaining);
      assert data[position..position + n] == Window()[..n];
      var result := Chars(model, data[position..position + n]);
      var advanced := Advance(n);
      assert advanced.Ok?;
      return Ok(result);
    }

    /** One byte off the front, converted to a `char`: the two statements that open each read of the loop below. */
    method TakeChar() returns (next: int)
      requires Valid() && remaining > 0
      modifies this
      ensures Valid() && position == old(position) + 1 && remaining == old(remaining) - 1
      ensures Window() == old(Window()[1..])
      ensures next == model.Type().Convert(old(Window()[0]))
      ensures next == BACKSLASH <==> old(Window()[0]) == BACKSLASH
    {
      next := ConvertUnsignedToSigned(model.Type(), model.modulo, data[position]);
      ConversionReinterprets(model.Type(), model.modulo, data[position]);
      var advanced := Advance(1);
      assert advanced.Ok?;
    }

    method ConsumeRandomLengthString(maxLength: nat) returns (r: Result<seq<int>>)
      requires Valid() && maxLength <= SIZE_MAX
      modifies this
      ensures r.Ok? && Performed(CallBase.ConsumeRandomLengthString(maxLength), Text(r.value))
    {
      var result: seq<int> := [];
      ghost var text: seq<byte> := [];
      ghost var w := Window();
      ReadNothingYet(model, w, maxLength);
      var i := 0;
      ghost var used: nat := 0;
      while i < maxLength && remaining != 0
        invariant Valid() && i == |text| <= maxLength
        invariant position == old(position) + used && position + remaining == old(position + remaining)
        invariant ReadSoFar(model, w, maxLength, text, result, used, Window())
        decreases maxLength - i
      {
        ghost var before := Window();
        var next := TakeChar();
        if next == BACKSLASH && remaining != 0 {
          next := TakeChar();
          if next != BACKSLASH {
            ReadTerminator(model, w, maxLength, text, result, used, before);
            return Ok(result);
          }
        }
        ReadCharacter(model, w, maxLength, text, result, used, before, Window());
        result := result + [next];
        text, used := text + [before[0]], used + |before| - remaining;
        i := i + 1;
      }
      ReadToTheEnd(model, w, maxLength, text, result, used, Window());
      return Ok(result);
    }

    method ConsumeAnyLengthString() returns (r: Result<seq<int>>)
      requires Valid()
      modifies this
      ensures r.Ok? && Performed(CallBase.ConsumeAnyLengthString, Text(r.value))
    {
      r := ConsumeRandomLengthString(remaining);
      AnyLengthMoves(model, Text(r.value), data, old(position), old(remaining), position, remaining);
    }

    method ConsumeRemainingBytesAsString() returns (r: Result<seq<int>>)
      requires Valid()
      modifies this
      ensures r.Ok? && Performed(CallBase.ConsumeRemainingBytesAsString, Text(r.value))
      ensures TookFront(old(remaining)) && r.value == Chars(model, old(Window()))
    {
      r := ConsumeBytesAsString(remaining);
      assert old(Window())[..old(remaining)] == old(Window());
    }

    // ----------------------------------------------------------------------
    // Integers
    // ----------------------------------------------------------------------

    /** The loop of `ConsumeIntegralInRange`: as many bytes off the back as the range needs. */
    method TakeWord(t: IntType, range: nat) returns (result: nat)
      requires Valid() && range < t.Card()
      modifies this
      ensures Valid() && position == old(position)
      ensures remaining == old(remaining) - IntegerBytes(range, old(remaining))
      ensures result == LittleEndian(old(Window()[remaining - IntegerBytes(range, remaining)..]))
    {
      result := 0;
      var offset: nat := 0;
      ghost var w := Window();
      ghost var k: nat := 0;
      while offset < t.bits && ShiftRight(range, offset) > 0 && remaining != 0
        invariant Valid() && position == old(position) && remaining == |w| - k
        invariant Accumulated(w, range, k, result, offset)
        decreases remaining
      {
        AccumulateByte(w, range, k, result, offset);
        remaining := remaining - 1;
        result := BitOr(ShiftLeft64(result, 8), data[position + remaining]);
        offset := offset + 8;
        k := k + 1;
      }
      BytesAccumulated(t, w, range, k, result, offset);
    }

    method ConsumeIntegralInRange(t: IntType, min: int, max: int) returns (r: Result<int>)
      requires Valid() && t.Holds(min) && t.Holds(max)
      modifies this
      ensures r.Ok? <==> min <= max
      ensures r.Ok? ==> Performed(CallBase.ConsumeIntegralInRange(t, min, max), Number(r.value))
      ensures r.Ok? ==> min <= r.value <= max && position == old(position)
      ensures r.Abort? ==> Refused(CallBase.ConsumeIntegralInRange(t, min, max))
    {
      if min > max {
        return Abort;
      }
      var range := ToUint64(ToUint64(max) - ToUint64(min));
      RangeIsExact(t, min, max);
      var result := TakeWord(t, range);
      ResultIsExact(t, min, max, old(Window()), result);
      var value := RangedResult(t, min, range, result);
      RangedMoves(model, t, min, max, data, position, old(remaining), value);
      return Ok(value);
    }

    method ConsumeIntegral(t: IntType) returns (r: Result<int>)
      requires Valid()
      modifies this
      ensures r.Ok? && Performed(CallBase.ConsumeIntegral(t), Number(r.value))
      ensures t.Holds(r.value) && position == old(position)
    {
      r := ConsumeIntegralInRange(t, t.Min(), t.Max());
      WholeTypeMoves(model, t, r.value, data, old(position), old(remaining), position, remaining);
    }

    method ConsumeBool() returns (r: Result<bool>)
      requires Valid()
      modifies this
      ensures r.Ok? && Performed(CallBase.ConsumeBool, Flag(r.value))
      ensures old(remaining) > 0 ==> TookBack(1) && r.value == (old(Window())[old(remaining) - 1] % 2 == 1)
      ensures old(remaining) == 0 ==> TookBack(0) && !r.value
    {
      var v := ConsumeIntegral(UINT8);
      AndOne(v.value);
      ByteMoves(model, v.value, data, old(position), old(remaining), position, remaining);
      return Ok(BitAnd(1, v.value) != 0);
    }

    method ConsumeEnum(maxValue: nat) returns (r: Result<int>)
      requires Valid() && UINT32.Holds(maxValue)
      modifies this
      ensures r.Ok? && Performed(CallBase.ConsumeEnum(maxValue), Number(r.value))
      ensures 0 <= r.value <= maxValue && position == old(position)
    {
      r := ConsumeIntegralInRange(UINT32, 0, maxValue);
    }

    method PickValueInArray(values: seq<int>) returns (r: Result<int>)
      requires Valid() && |values| <= SIZE_MAX
      modifies this
      ensures r.Ok? <==> values != []
      ensures r.Ok? ==> Performed(CallBase.PickValueInArray(values), Number(r.value))
      ensures r.Abort? ==> Refused(CallBase.PickValueInArray(values))
      ensures r.Ok? ==> r.value in values && position == old(position)
    {
      if |values| == 0 {
        return Abort;
      }
      var index := ConsumeIntegralInRange(SIZE_T, 0, |values| - 1);
      PickMoves(model, values, index.value, data, old(position), old(remaining), position, remaining);
      return Ok(values[index.value]);
    }

    method RemainingBytes() returns (r: nat)
      requires Valid()
      ensures Performed(CallBase.RemainingBytes, Size(r))
      ensures r == remaining == |Window()|
    {
      return remaining;
    }

    // ----------------------------------------------------------------------
    // Scripts
    // ----------------------------------------------------------------------

    /** Any one call. `ConsumeData` gets a destination of the size that it can fill. */
    method Perform(c: Call) returns (r: Result<Answer>)
      requires Valid()
      modifies this
      ensures r.Ok? ==> Performed(c, r.value)
      ensures r.Abort? ==> Refused(c)
    {
      if c.ReadsBack() {
        r := PerformBack(c);
      } else if c.RemainingBytes? {
        var size := RemainingBytes();
        return Ok(Size(size));
      } else {
        r := PerformFront(c);
      }
    }

    method PerformFront(c: Call) returns (r: Result<Answer>)
      requires Valid() && c.ReadsFront()
      modifies this
      ensures r.Ok? ==> Performed(c, r.value)
      ensures r.Abort? ==> Refused(c)
    {
      match c
      case ConsumeBytes(n) =>
        var v := ConsumeBytes(n);
        return Ok(Bytes(v.value));
      case ConsumeBytesWithTerminator(n, terminator) =>
        var v :- ConsumeBytesWithTerminator(n, terminator);
        return Ok(Bytes(v));
      case ConsumeRemainingBytes =>
        var v := ConsumeRemainingBytes();
        return Ok(Bytes(v.value));
      case ConsumeBytesAsString(n) =>
        var v := ConsumeBytesAsString(n);
        return Ok(Text(v.value));
      case ConsumeRandomLengthString(n) =>
        var v := ConsumeRandomLengthString(n);
        return Ok(Text(v.value));
      case ConsumeAnyLengthString =>
        var v := ConsumeAnyLengthString();
        return Ok(Text(v.value));
      case ConsumeRemainingBytesAsString =>
        var v := ConsumeRemainingBytesAsString();
        return Ok(Text(v.value));
      case ConsumeData(n) =>
        var destination := new byte[Min(n, remaining)](_ => 0);
        var v := ConsumeData(destination, n);
        return Ok(Bytes(destination[..v.value]));
    }

    method PerformBack(c: Call) returns (r: Result<Answer>)
      requires Valid() && c.ReadsBack()
      modifies this
      ensures r.Ok? ==> Performed(c, r.value)
      ensures r.Abort? ==> Refused(c)
    {
      match c
      case ConsumeIntegral(t) =>
        var v := ConsumeIntegral(t);
        return Ok(Number(v.value));
      case ConsumeIntegralInRange(t, min, max) =>
        var v :- ConsumeIntegralInRange(t, min, max);
        return Ok(Number(v));
      case ConsumeBool =>
        var v := ConsumeBool();
        return Ok(Flag(v.value));
      case ConsumeEnum(maxValue) =>
        var v := ConsumeEnum(maxValue);
        return Ok(Number(v.value));
      case PickValueInArray(values) =>
        var v :- PickValueInArray(values);
        return Ok(Number(v));
    }

    /** The first call of a script: the run is its answer and then the run of the others on what is left. */
    method PerformFirst(calls: seq<Call>) returns (r: Result<Answer>)
      requires Valid() && calls != []
      modifies this
      ensures r.Ok? ==> Valid() && MovedOn(model, calls, r.value, data, old(position), old(remaining), position, remaining)
      ensures r.Abort? ==> CutShort(model, calls, data, old(position), old(remaining))
    {
      r := Perform(calls[0]);
      if r.Ok? {
        FirstPerformed(model, calls, r.value, data, old(position), old(remaining), position, remaining);
      }
    }

    /** A script, call by call: the object goes through the whole of `Runs.Run`, or aborts where that dies. */
    method RunScript(calls: seq<Call>) returns (r: Result<seq<Answer>>)
      requires Valid()
      modifies this
      ensures r.Ok? ==> Ran(calls, r.value)
      ensures r.Abort? ==> CutShort(model, calls, data, old(position), old(remaining))
    {
      var answers: seq<Answer> := [];
      ghost var p, n := position, remaining;
      ScriptBegins(model, calls, data, p, n);
      for i := 0 to |calls|
        invariant Valid() && InScript(model, calls, i, answers, data, p, n, position, remaining)
      {
        ghost var p', n' := position, remaining;
        var first := PerformFirst(calls[i..]);
        if first.Abort? {
          ScriptDies(model, calls, i, answers, data, p, n, p', n');
          return Abort;
        }
        ScriptGoesOn(model, calls, i, answers, data, p, n, p', n', first.value, position, remaining);
        answers := answers + [first.value];
      }
      ScriptEnds(model, calls, answers, data, p, n, position, remaining);
      return Ok(answers);
    }
  }

  // ------------------------------------------------------------------------
  // Steps of the loop over a script
  // ------------------------------------------------------------------------

  /** After `i` calls have given `answers` and taken the window from `n` bytes at `p` to `n'` bytes at `p'`. */
  ghost predicate InScript(model: CharModel, calls: seq<Call>, i: nat, answers: seq<Answer>, data: seq<byte>,
                           p: nat, n: nat, p': nat, n': nat)
    requires p + n <= |data|
  {
    && i <= |calls|
    && p <= p'
    && p' + n' <= p + n
    && Reaches(model, calls, data[p..p + n], answers, p' - p, p + n - (p' + n'), calls[i..], data[p'..p' + n'])
  }

  lemma {:induction false} ScriptBegins(model: CharModel, calls: seq<Call>, data: seq<byte>, p: nat, n: nat)
    requires p + n <= |data|
    ensures InScript(model, calls, 0, [], data, p, n, p, n)
  {
    assert calls[0..] == calls;
    AfterNothing(Run(model, calls, data[p..p + n]));
  }

  lemma {:induction false} ScriptGoesOn(model: CharModel, calls: seq<Call>, i: nat, answers: seq<Answer>, data: seq<byte>,
                                        p: nat, n: nat, p': nat, n': nat, a: Answer, p'': nat, n'': nat)
    requires p + n <= |data| && i < |calls| && InScript(model, calls, i, answers, data, p, n, p', n')
    requires MovedOn(model, calls[i..], a, data, p', n', p'', n'')
    ensures InScript(model, calls, i + 1, answers + [a], data, p, n, p'', n'')
  {
    assert calls[i..][1..] == calls[i + 1..];
    AfterAfter(answers, p' - p, p + n - (p' + n'), [a], p'' - p', p' + n' - (p'' + n''),
               Run(model, calls[i + 1..], data[p''..p'' + n'']));
  }

  lemma {:induction false} ScriptDies(model: CharModel, calls: seq<Call>, i: nat, answers: seq<Answer>, data: seq<byte>,
                                      p: nat, n: nat, p': nat, n': nat)
    requires p + n <= |data| && InScript(model, calls, i, answers, data, p, n, p', n')
    requires CutShort(model, calls[i..], data, p', n')
    ensures CutShort(model, calls, data, p, n)
  {
  }

  lemma {:induction false} ScriptEnds(model: CharModel, calls: seq<Call>, answers: seq<Answer>, data: seq<byte>,
                                      p: nat, n: nat, p': nat, n': nat)
    requires p + n <= |data| && InScript(model, calls, |calls|, answers, data, p, n, p', n')
    ensures MovedThrough(model, calls, answers, data, p, n, p', n')
  {
    assert answers + [] == answers;
  }

  lemma {:induction false} FirstPerformed(model: CharModel, calls: seq<Call>, a: Answer, data: seq<byte>,
                                          p: nat, n: nat, p': nat, n': nat)
    requires calls != [] && p + n <= |data|
    requires Moved(model, calls[0], a, data, p, n, p', n')
    ensures MovedOn(model, calls, a, data, p, n, p', n')
  {
    Narrowed(data, p, n, p', n');
    RunFirst(model, calls, data[p..p + n], a, p' - p, p + n - (p' + n'));
  }

  lemma {:induction false} RunFirst(model: CharModel, calls: seq<Call>, w: seq<byte>, a: Answer, f: nat, b: nat)
    requires calls != [] && Step(model, calls[0], w) == Returned(a, f, b)
    ensures Reaches(model, calls, w, [a], f, b, calls[1..], Inner(w, f, b))
  {
  }

  /** The window after bytes are gone from both ends. */
  lemma {:induction false} Narrowed(data: seq<byte>, p: nat, n: nat, p': nat, n': nat)
    requires p <= p' && p' + n' <= p + n <= |data|
    ensures Inner(data[p..p + n], p' - p, p + n - (p' + n')) == data[p'..p' + n']
  {
    var left, right := Inner(data[p..p + n], p' - p, p + n - (p' + n')), data[p'..p' + n'];
    assert |left| == |right|;
    forall k | 0 <= k < |left|
      ensures left[k] == right[k]
    {
      assert left[k] == data[p..p + n][p' - p + k] == data[p' + k];
    }
  }

  // ------------------------------------------------------------------------
  // Steps of the two loops
  // ------------------------------------------------------------------------

  /** After `used` bytes have given `text`, what `rest` gives completes the string. */
  ghost predicate ReadSoFar(model: CharModel, w: seq<byte>, maxLength: nat,
                            text: seq<byte>, result: seq<int>, used: nat, rest: seq<byte>) {
    && |text| <= maxLength
    && used + |rest| == |w|
    && result == Chars(model, text)
    && ReadString(w, maxLength) == Following(text, used, ReadString(rest, maxLength - |text|))
  }

  lemma {:induction false} ReadNothingYet(model: CharModel, w: seq<byte>, maxLength: nat)
    ensures ReadSoFar(model, w, maxLength, [], [], 0, w)
  {
    assert [] + ReadString(w, maxLength).text == ReadString(w, maxLength).text;
    assert Chars(model, []) == [];
  }

  /** A turn of the string loop that adds a character. */
  lemma {:induction false} ReadCharacter(model: CharModel, w: seq<byte>, maxLength: nat,
                      text: seq<byte>, result: seq<int>, used: nat, before: seq<byte>, after: seq<byte>)
    requires ReadSoFar(model, w, maxLength, text, result, used, before) && |text| < maxLength && before != []
    requires if before[0] == BACKSLASH && |before| > 1 then before[1] == BACKSLASH && after == before[2..]
             else after == before[1..]
    ensures ReadSoFar(model, w, maxLength, text + [before[0]], result + [model.Type().Convert(before[0])],
                      used + |before| - |after|, after)
  {
    CharsSnoc(model, text, before[0]);
    ReadStringNext(before, after, maxLength - |text| - 1);
    Associative(text, [before[0]], ReadString(after, maxLength - |text| - 1).text);
  }

  lemma {:induction false} CharsSnoc(model: CharModel, text: seq<byte>, c: byte)
    ensures Chars(model, text + [c]) == Chars(model, text) + [model.Type().Convert(c)]
  {
  }

  lemma {:induction false} ReadStringNext(before: seq<byte>, after: seq<byte>, maxLength: nat)
    requires before != []
    requires if before[0] == BACKSLASH && |before| > 1 then before[1] == BACKSLASH && after == before[2..]
             else after == before[1..]
    ensures ReadString(before, maxLength + 1) ==
            Following([before[0]], |before| - |after|, ReadString(after, maxLength))
  {
    if |before| == 1 {
      assert before == [before[0]] + ReadString(after, maxLength).text;
    }
  }

  /** The turn of the string loop that meets the terminator. */
  lemma {:induction false} ReadTerminator(model: CharModel, w: seq<byte>, maxLength: nat,
                       text: seq<byte>, result: seq<int>, used: nat, before: seq<byte>)
    requires ReadSoFar(model, w, maxLength, text, result, used, before) && |text| < maxLength <= SIZE_MAX
    requires |before| > 1 && before[0] == BACKSLASH && before[1] != BACKSLASH
    ensures Step(model, ConsumeRandomLengthString(maxLength), w) == Returned(Text(result), used + 2, 0)
  {
    assert text + [] == text;
  }

  /** The string loop leaves off at the limit or at the end of the data. */
  lemma {:induction false} ReadToTheEnd(model: CharModel, w: seq<byte>, maxLength: nat,
                     text: seq<byte>, result: seq<int>, used: nat, rest: seq<byte>)
    requires maxLength <= SIZE_MAX
    requires ReadSoFar(model, w, maxLength, text, result, used, rest) && (|text| == maxLength || rest == [])
    ensures Step(model, ConsumeRandomLengthString(maxLength), w) == Returned(Text(result), used, 0)
  {
    assert text + [] == text;
  }

  lemma {:induction false} AnyLengthMoves(model: CharModel, a: Answer, data: seq<byte>, p: nat, n: nat, p': nat, n': nat)
    requires p + n <= |data| && n <= SIZE_MAX
    requires Moved(model, ConsumeRandomLengthString(n), a, data, p, n, p', n')
    ensures Moved(model, ConsumeAnyLengthString, a, data, p, n, p', n')
  {
    AnyLengthCall(model, data[p..p + n]);
  }

  lemma {:induction false} WholeTypeMoves(model: CharModel, t: IntType, v: int, data: seq<byte>, p: nat, n: nat, p': nat, n': nat)
    requires p + n <= |data|
    requires Moved(model, ConsumeIntegralInRange(t, t.Min(), t.Max()), Number(v), data, p, n, p', n')
    ensures Moved(model, ConsumeIntegral(t), Number(v), data, p, n, p', n')
  {
    WholeTypeIsRanged(model, t, data[p..p + n]);
  }

  /** A byte is the last one. */
  lemma {:induction false} ByteMoves(model: CharModel, v: int, data: seq<byte>, p: nat, n: nat, p': nat, n': nat)
    requires p + n <= |data| && Moved(model, ConsumeIntegral(UINT8), Number(v), data, p, n, p', n')
    ensures p' == p && n' == n - Min(n, 1) && v == if n == 0 then 0 else data[p + n - 1]
    ensures Moved(model, ConsumeBool, Flag(v % 2 == 1), data, p, n, p', n')
  {
    ByteCall(model, data[p..p + n]);
    BoolCall(model, data[p..p + n]);
  }

  /** After `k` turns of the integer loop. */
  ghost predicate Accumulated(w: seq<byte>, range: nat, k: nat, result: nat, offset: nat) {
    && k <= |w|
    && offset == 8 * k
    && result == LittleEndian(w[|w| - k..])
    && ByteLen(range) == k + ByteLen(ShiftRight(range, offset))
  }

  lemma {:induction false} AccumulateByte(w: seq<byte>, range: nat, k: nat, result: nat, offset: nat)
    requires Accumulated(w, range, k, result, offset)
    requires offset < 64 && ShiftRight(range, offset) > 0 && k < |w|
    ensures Accumulated(w, range, k + 1, BitOr(ShiftLeft64(result, 8), w[|w| - k - 1]), offset + 8)
  {
    AppendByte(w, k);
    ShiftRightByte(range, offset);
  }

  /** The integer loop takes exactly the bytes that the range needs, or all there are. */
  lemma {:induction false} BytesAccumulated(t: IntType, w: seq<byte>, range: nat, k: nat, result: nat, offset: nat)
    requires Accumulated(w, range, k, result, offset) && range < t.Card()
    requires offset >= t.bits || ShiftRight(range, offset) == 0 || k == |w|
    ensures k == IntegerBytes(range, |w|)
  {
    RangeFitsType(t, range);
  }

  /** What follows the loop: the guarded reduction, the addition to `min` and the conversion. */
  function RangedResult(t: IntType, min: int, range: nat, result: nat): int {
    var reduced := if range != TWO_TO_THE_64 - 1 then result % (range + 1) else result;
    t.Convert(ToUint64(ToUint64(min) + reduced))
  }

  /** The guard that avoids a division by zero makes no difference to the result. */
  lemma {:induction false} GuardIsHarmless(range: nat, w: seq<byte>, result: nat)
    requires range < TWO_TO_THE_64
    requires result == LittleEndian(w[|w| - IntegerBytes(range, |w|)..])
    ensures (if range != TWO_TO_THE_64 - 1 then result % (range + 1) else result) == result % (range + 1)
  {
    if range == TWO_TO_THE_64 - 1 {
      var k := IntegerBytes(range, |w|);
      RangeFitsType(SIZE_T, range);
      LittleEndianBound(w[|w| - k..]);
      WholeWord(result, k);
    }
  }

  /** So the whole 64-bit computation gives the integer of the simple form. */
  lemma {:induction false} ResultIsExact(t: IntType, min: int, max: int, w: seq<byte>, result: nat)
    requires t.Holds(min) && t.Holds(max) && min <= max
    requires result == LittleEndian(w[|w| - IntegerBytes(max - min, |w|)..])
    ensures RangedResult(t, min, max - min, result) == ReadInteger(min, max, w)
  {
    RangeIsExact(t, min, max);
    GuardIsHarmless(max - min, w, result);
    OffsetIsExact(t, min, max, ReadInteger(min, max, w) - min);
  }

  lemma {:induction false} RangedMoves(model: CharModel, t: IntType, min: int, max: int, data: seq<byte>, p: nat, n: nat, v: int)
    requires p + n <= |data| && t.Holds(min) && t.Holds(max) && min <= max
    requires v == ReadInteger(min, max, data[p..p + n])
    ensures Moved(model, ConsumeIntegralInRange(t, min, max), Number(v), data, p, n, p, n - IntegerBytes(max - min, n))
  {
  }

  lemma {:induction false} PickMoves(model: CharModel, values: seq<int>, v: int, data: seq<byte>, p: nat, n: nat, p': nat, n': nat)
    requires p + n <= |data| && 0 < |values| <= SIZE_MAX
    requires Moved(model, ConsumeIntegralInRange(SIZE_T, 0, |values| - 1), Number(v), data, p, n, p', n')
    ensures 0 <= v < |values| && Moved(model, PickValueInArray(values), Number(values[v]), data, p, n, p', n')
  {
  }

  /** One turn of the integer loop: the word takes the next byte in at its low end. */
  lemma {:induction false} AppendByte(w: seq<byte>, k: nat)
    requires k < |w| && k < 8
    ensures BitOr(ShiftLeft64(LittleEndian(w[|w| - k..]), 8), w[|w| - k - 1]) == LittleEndian(w[|w| - k - 1..])
  {
    var low := w[|w| - k - 1..];
    assert low[1..] == w[|w| - k..];
    LittleEndianBound(low[1..]);
    Pow256Monotonic(k, 7);
    assert Pow256(7) == 0x1_0000_0000 * Pow256(3) == 0x100_0000_0000_0000;
    ShiftInByte(LittleEndian(low[1..]), w[|w| - k - 1]);
  }

  /** A word of at most eight bytes needs no reduction modulo 2^64. */
  lemma {:induction false} WholeWord(x: nat, k: nat)
    requires x < Pow256(k) && k <= 8
    ensures x % TWO_TO_THE_64 == x
  {
    Pow256Monotonic(k, 8);
    assert Pow256(8) == 0x1_0000_0000 * Pow256(4) == TWO_TO_THE_64;
  }
}
