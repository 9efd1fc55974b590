/** SmartMet::Spine::Value: a parameter value of one of the types the bit stream knows, or of no such type. */
module Values {
  import opened Texts
  import opened BitStrings

  const TWO_31: int := 0x8000_0000
  const TWO_32: int := 0x1_0000_0000
  const TWO_63: int := 0x8000_0000_0000_0000
  const TWO_64: int := 0x1_0000_0000_0000_0000

  type Int64 = x: int | -TWO_63 <= x < TWO_63
  type UInt64 = x: int | 0 <= x < TWO_64
  type Int32 = x: int | -TWO_31 <= x < TWO_31
  type UInt32 = x: int | 0 <= x < TWO_32

  // The eight bytes of a C++ double in memory order.
  type Double = b: seq<Byte> | |b| == 8 witness [0, 0, 0, 0, 0, 0, 0, 0]

  datatype DateTime =
    | NotADateTime
    | NegInfinity
    | PosInfinity
    | At(year: Int32, month: UInt32, day: UInt32, second: UInt32, micros: nat)

  datatype Value =
    | Empty  // a type put_value does not support
    | Bool(b: bool)
    | Int(i: Int64)
    | UInt(u: UInt64)
    | Real(d: Double)
    | String(s: Text)
    | Time(t: DateTime)
    | Point(x: Double, y: Double, crs: Text)
    | BBox(xMin: Double, yMin: Double, xMax: Double, yMax: Double, crs: Text)

  function WholeSeconds(v: Value): (r: Value)
    ensures !v.Time? ==> r == v
  {
    match v
    case Time(At(year, month, day, second, _)) => Time(At(year, month, day, second, 0))
    case _ => v
  }

  // Texts whose length fits the 32-bit counter of get_string.
  predicate Short(s: Text) {
    |s| < TWO_32
  }

  // Text lengths are size_t values.
  predicate Storable(v: Value) {
    match v
    case String(s) => |s| < TWO_64
    case Point(_, _, crs) => |crs| < TWO_64
    case BBox(_, _, _, _, crs) => |crs| < TWO_64
    case _ => true
  }

  // The values that survive the trip through the stream. C++ leaves the negation of INT64_MIN undefined.
  predicate Encodable(v: Value) {
    match v
    case Empty => false
    case Int(i) => i != -TWO_63
    case String(s) => Short(s)
    case Point(_, _, crs) => Short(crs)
    case BBox(_, _, _, _, crs) => Short(crs)
    case _ => true
  }
}
