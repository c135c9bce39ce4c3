// Shared value types: optional and error-carrying results, and the fixed-width
// integers of the C sources written as subset types of int, with explicit
// two's-complement reinterpretation where the C code casts.
module Base {

  datatype Option<T> = None | Some(value: T)

  datatype Result<T, E> = Ok(value: T) | Err(error: E)
  {
    predicate IsOk() { Ok? }
  }

  const TWO_8: int := 0x100
  const TWO_16: int := 0x1_0000
  const TWO_32: int := 0x1_0000_0000

  type uint8 = x: int | 0 <= x < 0x100
  type uint16 = x: int | 0 <= x < 0x1_0000
  type uint32 = x: int | 0 <= x < 0x1_0000_0000
  type int8 = x: int | -0x80 <= x < 0x80
  type int16 = x: int | -0x8000 <= x < 0x8000

  /** The value an `int8_t` holds after being assigned `v` (two's complement wrap). */
  function ToInt8(v: int): (r: int8)
    ensures (r - v) % TWO_8 == 0
    ensures 0 <= v < 0x80 ==> r == v
  {
    var m := v % TWO_8;
    if m < 0x80 then m else m - TWO_8
  }

  /** The value an `int16_t` holds after being assigned `v` (two's complement wrap). */
  function ToInt16(v: int): (r: int16)
    ensures (r - v) % TWO_16 == 0
    ensures 0 <= v < 0x8000 ==> r == v
  {
    var m := v % TWO_16;
    if m < 0x8000 then m else m - TWO_16
  }

  /** The value a `uint8_t` holds after being assigned `v`. */
  function ToUint8(v: int): (r: uint8)
    ensures (r - v) % TWO_8 == 0
    ensures 0 <= v < TWO_8 ==> r == v
  {
    v % TWO_8
  }

  /** The value a `uint16_t` holds after being assigned `v`. */
  function ToUint16(v: int): (r: uint16)
    ensures (r - v) % TWO_16 == 0
    ensures 0 <= v < TWO_16 ==> r == v
  {
    v % TWO_16
  }

  /** The value a `uint32_t` holds after being assigned `v`. */
  function ToUint32(v: int): (r: uint32)
    ensures (r - v) % TWO_32 == 0
    ensures 0 <= v < TWO_32 ==> r == v
  {
    v % TWO_32
  }

  /** An `int16_t` read through a `uint16_t` pointer and back keeps its value. */
  lemma Int16Bits(x: int16)
    ensures ToInt16(ToUint16(x)) == x
  {
  }

  function Min(a: int, b: int): (r: int)
    ensures r <= a && r <= b && (r == a || r == b)
  {
    if a < b then a else b
  }

  /** The parts one after the other. */
  function Concat<T>(parts: seq<seq<T>>): (r: seq<T>)
  {
    if parts == [] then [] else parts[0] + Concat(parts[1..])
  }

  lemma AppendAssoc<T>(a: seq<T>, b: seq<T>, c: seq<T>)
    ensures (a + b) + c == a + (b + c)
  {
  }
}
