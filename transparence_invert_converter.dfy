/** The WPF value converter that shows a layer transparency (a byte, 0 is
    opaque) as an opacity: both directions compute `255 - b`
    (AcadLib/Model/WPF/Converters/TransparenceInvertConverter.cs). */
module TransparenceInvert {
  import opened Wrappers

  newtype byte = x: int | 0 <= x < 256

  /** The boxed values a binding can hand to the converter: null, a byte,
      or a 32-bit integer (what Convert itself returns). */
  datatype Boxed = Null | BoxedByte(b: byte) | BoxedInt(i: int)

  /** Convert: unboxes with `(byte)value`, which throws on null and on any
      box that does not hold a byte, then returns `255 - b` as an int. */
  function Convert(value: Boxed): (r: Result<int>)
    ensures r.Ok? <==> value.BoxedByte?
    ensures value.Null? ==> r == Throws(NullReferenceException)
    ensures value.BoxedInt? ==> r == Throws(InvalidCastException)
    ensures r.Ok? ==> 0 <= r.value <= 255 && r.value + value.b as int == 255
  {
    match value
    case Null => Throws(NullReferenceException)
    case BoxedInt(_) => Throws(InvalidCastException)
    case BoxedByte(b) => Ok(255 - b as int)
  }

  /** System.Convert.ToByte on the boxed values modelled: null reads as 0, a
      byte as itself, an int outside 0..255 throws. */
  function ToByte(value: Boxed): (r: Result<byte>)
    ensures r.Throws? <==> value.BoxedInt? && !(0 <= value.i <= 255)
    ensures r.Throws? ==> r.exception == OverflowException
    ensures value.Null? ==> r == Ok(0)
    ensures value.BoxedByte? ==> r == Ok(value.b)
    ensures value.BoxedInt? && 0 <= value.i <= 255 ==> r.Ok? && r.value as int == value.i
  {
    match value
    case Null => Ok(0)
    case BoxedByte(b) => Ok(b)
    case BoxedInt(i) => if 0 <= i <= 255 then Ok(i as byte) else Throws(OverflowException)
  }

  /** ConvertBack: `255 - Convert.ToByte(value)`. */
  function ConvertBack(value: Boxed): (r: Result<int>)
    ensures r.Throws? <==> value.BoxedInt? && !(0 <= value.i <= 255)
    ensures r.Ok? ==> 0 <= r.value <= 255
    ensures value.BoxedInt? && 0 <= value.i <= 255 ==> r == Ok(255 - value.i)
    ensures value.Null? ==> r == Ok(255)
  {
    match ToByte(value)
    case Throws(e) => Throws(e)
    case Ok(b) => Ok(255 - b as int)
  }

  /** What Convert returns, handed back to ConvertBack, gives the byte back.
      The other way round, ConvertBack's result is a boxed int, which
      Convert's `(byte)value` refuses; only once the binding stores it back
      as a byte does Convert give the value back. */
  lemma RoundTrip(b: byte, v: int)
    ensures ConvertBack(BoxedInt(Convert(BoxedByte(b)).value)) == Ok(b as int)
    ensures 0 <= v <= 255 ==> Convert(BoxedByte(v as byte)) == Ok(255 - v)
    ensures 0 <= v <= 255 ==> ConvertBack(BoxedInt(v)).Ok? && Convert(BoxedInt(ConvertBack(BoxedInt(v)).value)) == Throws(InvalidCastException)
    ensures 0 <= v <= 255 ==> ConvertBack(BoxedInt(v)).Ok? && Convert(BoxedByte(ConvertBack(BoxedInt(v)).value as byte)) == Ok(v)
  {
  }

  /** Both directions reverse the order and swap the endpoints. */
  lemma OrderReversing(a: byte, b: byte)
    ensures a <= b ==> Convert(BoxedByte(a)).value >= Convert(BoxedByte(b)).value
    ensures a <= b ==> ConvertBack(BoxedByte(a)).value >= ConvertBack(BoxedByte(b)).value
    ensures Convert(BoxedByte(0)) == Ok(255) && Convert(BoxedByte(255)) == Ok(0)
  {
  }
}
