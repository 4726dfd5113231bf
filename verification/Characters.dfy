/**
 From consumed bytes to the `char`s of a `std::string`.
 */
module Characters {
  import opened Bytes
  import opened MachineIntegers

  /**
   What an implementation chooses about `char`: whether it is signed, and whether the
   library reports its arithmetic as modular (`std::numeric_limits<char>::is_modulo`).
   */
  datatype CharModel = CharModel(signed: bool, modulo: bool) {
    function Type(): IntType {
      IntType(8, signed)
    }
  }

  /**
   `ConvertUnsignedToSigned`, for a target type of any width. On types narrower than `int`
   the subtraction is done in `int`; on the others it is done modulo 2^bits.
   */
  function ConvertUnsignedToSigned(target: IntType, modulo: bool, value: nat): (r: int)
    requires value < target.Card()
  {
    if modulo then target.Convert(value)
    else if value <= target.Max() then target.Convert(value)
    else
      var exact := value - target.Min();
      var difference := if target.bits < 32 then exact else exact % target.Card();
      target.Convert(target.Min() + target.Convert(difference))
  }

  /**
   Every branch of the conversion agrees with reading the same bits in the target type; the
   result keeps the input's residue, so the conversion is one-to-one.
   */
  lemma {:induction false} ConversionReinterprets(target: IntType, modulo: bool, value: nat)
    requires value < target.Card()
    ensures ConvertUnsignedToSigned(target, modulo, value) == target.Convert(value)
    ensures ConvertUnsignedToSigned(target, modulo, value) % target.Card() == value
  {
    if !modulo && value > target.Max() {
      var half := target.Card() / 2;
      assert target.Card() == 2 * half && target.Min() == -half;
      ModOnce(value + half, 2 * half);
      assert target.Convert(value + half) == value - half;
      assert target.Convert(value) == value - 2 * half;
    }
  }

  lemma {:induction false} ModOnce(x: int, m: nat)
    requires 0 < m <= x < 2 * m
    ensures x % m == x - m
  {
  }

  /** The conversion is onto: each value of the target type comes from its residue. */
  lemma {:induction false} ConversionOnto(target: IntType, modulo: bool, x: int)
    requires target.Holds(x)
    ensures ConvertUnsignedToSigned(target, modulo, x % target.Card()) == x
  {
    var low := x % target.Card();
    assert low == if x < 0 then x + target.Card() else x;
    ConversionReinterprets(target, modulo, low);
    assert low % target.Card() == low;
  }

  /** The bytes `s` read in place as `char`s, as `reinterpret_cast` does. */
  function Chars(model: CharModel, s: seq<byte>): (text: seq<int>)
    ensures |text| == |s|
    ensures forall i :: 0 <= i < |s| ==> text[i] == model.Type().Convert(s[i])
  {
    seq(|s|, i requires 0 <= i < |s| => model.Type().Convert(s[i]))
  }

  predicate AreChars(model: CharModel, text: seq<int>) {
    forall i :: 0 <= i < |text| ==> model.Type().Holds(text[i])
  }

  /** The bytes behind a text. */
  function CharBytes(text: seq<int>): (s: seq<byte>)
    ensures |s| == |text|
    ensures forall i :: 0 <= i < |text| ==> s[i] == text[i] % 256
  {
    seq(|text|, i requires 0 <= i < |text| => text[i] % 256)
  }

  /** Each `char` is its byte, less 256 in the upper half of a signed `char`. */
  lemma {:induction false} CharsAre(model: CharModel, s: seq<byte>)
    ensures forall i :: 0 <= i < |s| ==> Chars(model, s)[i] + (if model.signed && s[i] >= 128 then 256 else 0) == s[i]
  {
    TypeRanges(model.Type());
  }

  /** Texts and byte strings are in one-to-one correspondence. */
  lemma {:induction false} CharsBijection(model: CharModel, s: seq<byte>, text: seq<int>)
    requires AreChars(model, text)
    ensures AreChars(model, Chars(model, s))
    ensures CharBytes(Chars(model, s)) == s
    ensures Chars(model, CharBytes(text)) == text
  {
    forall i | 0 <= i < |text|
      ensures Chars(model, CharBytes(text))[i] == text[i]
    {
      assert model.Type().Convert(text[i] % 256) == text[i];
    }
  }
}
