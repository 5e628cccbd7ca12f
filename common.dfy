/** Shared vocabulary of the observer: result codes, attribute type tags, the scalar
    `Value` carrier and the 32-bit `int` of the C++ code. */
module Common {

  datatype Option<T> = None | Some(value: T)

  /** The result codes this core produces or consumes. `Other` stands for any code a
      collaborator may return that the core only passes through. */
  datatype RC =
    | Success
    | RecordEof
    | RecordNotExist
    | InvalidArgument
    | SchemaTableNotExist
    | SchemaFieldNotExist
    | SchemaFieldTypeMismatch
    | Unsupported
    | Unimplemented
    | Other(code: nat)

  /** The attribute type tags; one `DataType` strategy exists per tag. */
  datatype AttrType = Undefined | Chars | Ints | Floats | Vectors | Booleans | Dates

  /** The C++ `int`. */
  type Int32 = x: int | -0x8000_0000 <= x <= 0x7fff_ffff

  const INT32_MAX: Int32 := 0x7fff_ffff

  /** A tagged scalar. Only the payloads this core reads are modelled: the integer
      payload (which holds a packed date for `Dates`) and the text payload of `Chars`. */
  datatype Value = Value(attrType: AttrType, intValue: Int32, stringValue: string)

  /** `Value::set_string`: the value becomes a `Chars` value holding `s`. */
  function SetString(v: Value, s: string): (r: Value)
    ensures r.attrType == Chars && r.stringValue == s
  {
    v.(attrType := Chars, stringValue := s)
  }

  /** `Value::set_int`: the integer payload becomes `n`. Whether the real setter also
      retags the value is not known here; this stand-in leaves tag and text alone. */
  function SetInt(v: Value, n: Int32): (r: Value)
    ensures r.intValue == n
  {
    v.(intValue := n)
  }

  /** `common::compare_int`: the sign of `a - b`. */
  function CompareInt(a: int, b: int): (r: int)
    ensures r == -1 || r == 0 || r == 1
    ensures r < 0 <==> a < b
    ensures r == 0 <==> a == b
    ensures r > 0 <==> a > b
  {
    if a < b then -1 else if a > b then 1 else 0
  }

  /** C++ integer division, which truncates toward zero (Dafny's `/` is Euclidean). */
  function TruncDiv(a: int, b: int): (q: int)
    requires b > 0
    ensures 0 <= a ==> 0 <= q
    ensures a < 0 ==> q <= 0
  {
    if a >= 0 then a / b else -((-a) / b)
  }

  /** C++ `%`: the remainder takes the sign of the dividend. */
  function TruncMod(a: int, b: int): (r: int)
    requires b > 0
    ensures a == b * TruncDiv(a, b) + r
    ensures a >= 0 ==> 0 <= r < b
    ensures a < 0 ==> -b < r <= 0
  {
    if a >= 0 then a % b else -((-a) % b)
  }
}
