module Wrappers {
  datatype Option<+T> = None | Some(value: T)

  /** What a call into another component did: it raised, or it returned a value. */
  datatype Outcome<+T> = Raises | Gives(value: T)
}

/** The Python values that travel through the pipeline inside dictionaries and table cells. */
module Values {
  import opened Text

  /** A Python value. `Float` carries a text for the float, its plain decimal form, since Python's float
      formatting is not modelled; `Null` is `None` (and pandas' missing value); `Other` is any other object, known by
      its `str()` text and its truthiness. */
  datatype Value = Str(s: string) | Int(i: int) | Float(x: real, shown: string) | Null | Other(shown: string, truthy: bool)

  /** A Python dictionary from field names to values. */
  type Record = map<string, Value>

  /** A Python `bytes` object. */
  type Bytes = seq<bv8>

  const NotFound: string := "Not Found"

  function DigitChar(d: nat): char
    requires d < 10
  {
    ('0' as int + d) as char
  }

  /** The decimal digits of `n`, most significant first. */
  function NatText(n: nat): (r: string)
    ensures r != [] && AllDigits(r)
    decreases n
  {
    if n < 10 then [DigitChar(n)] else NatText(n / 10) + [DigitChar(n % 10)]
  }

  /** `str(i)` for a Python `int`. */
  function IntText(i: int): string {
    if i < 0 then "-" + NatText(-i) else NatText(i)
  }

  /** Python's `str(v)`. */
  function Shown(v: Value): string {
    match v
    case Str(s) => s
    case Int(i) => IntText(i)
    case Float(_, shown) => shown
    case Null => "None"
    case Other(shown, _) => shown
  }

  /** Python's `bool(v)`. */
  predicate Truthy(v: Value) {
    match v
    case Str(s) => s != ""
    case Int(i) => i != 0
    case Float(x, _) => x != 0.0
    case Null => false
    case Other(_, t) => t
  }

  /** Python's `float(v)` on an `int` or a `float`; an `int` becomes the float shown as its digits and ".0". */
  function ToFloat(v: Value): (r: Value)
    requires v.Int? || v.Float?
    ensures r.Float?
    ensures v.Int? ==> r.x == v.i as real
    ensures v.Float? ==> r == v
  {
    match v
    case Int(i) => Float(i as real, IntText(i) + ".0")
    case Float(_, _) => v
  }

  /** `data.get(k, default)`. */
  function Get(data: Record, k: string, default: Value): Value {
    if k in data then data[k] else default
  }
}
