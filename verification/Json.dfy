/** The dynamic values a JSON document or a coerced message is made of. */
module Json {

  datatype Option<+T> = None | Some(value: T)

  newtype int64 = x: int | -0x8000_0000_0000_0000 <= x < 0x8000_0000_0000_0000

  /** A float64. */
  datatype Float64 = Finite(value: real) | Infinite(negative: bool) | NaN

  /**
   * The text of a JSON number, as kept by a decoder that does not convert
   * numbers, with its exact value and whether it is a plain integer (no
   * fraction, no exponent).
   */
  datatype NumberText = NumberText(text: string, value: real, plainInteger: bool)

  /** A Go value of type any, as far as this project meets one. */
  datatype Value =
    | Null
    | Bool(b: bool)
    | Number(n: NumberText)
    | Float(f: Float64)
    | Int(i: int64)
    | Str(s: string)
    | Time(instant: int)
    | Arr(elems: seq<Value>)
    | Obj(entries: map<string, Value>)
  {
    /** The string stored under key k of an object, or "" when there is none. */
    function StrAt(k: string): string {
      if Obj? && k in entries && entries[k].Str? then entries[k].s else ""
    }
  }

  /** What 64-bit signed arithmetic keeps of a result. */
  function Wrap64(x: int): int64 {
    ((x + 0x8000_0000_0000_0000) % 0x1_0000_0000_0000_0000 - 0x8000_0000_0000_0000) as int64
  }

  /** It differs from the result by a multiple of 2^64, and is the result itself if that fits. */
  lemma WrapIs(x: int)
    ensures (x - Wrap64(x) as int) % 0x1_0000_0000_0000_0000 == 0
    ensures -0x8000_0000_0000_0000 <= x < 0x8000_0000_0000_0000 ==> Wrap64(x) as int == x
  {
    var n, m := x + 0x8000_0000_0000_0000, 0x1_0000_0000_0000_0000;
    assert n == m * (n / m) + n % m;
    assert x - Wrap64(x) as int == m * (n / m);
  }
}
