/** pgvector::Vector: an immutable sequence of floats. */
module Vectors {
  import opened Numbers
  import DenseText

  datatype Vector = Vector(value: seq<Float>)

  /** Number of dimensions: the size of the `std::vector<float>` the vector converts to. */
  function Dimensions(v: Vector): (d: nat)
    ensures d == |ToSeq(v)|
  {
    |v.value|
  }

  /**
   * The constructors from a `std::vector<float>` (by copy or by move) and from a span: the
   * vector holds exactly the given elements.
   */
  function FromSeq(value: seq<Float>): (v: Vector)
    ensures ToSeq(v) == value
    ensures Dimensions(v) == |value|
  {
    Vector(value)
  }

  /** The constructor from a pointer and a count: a copy of the first `n` elements. */
  function FromArray(a: array<Float>, n: nat): (v: Vector)
    reads a
    requires n <= a.Length
    ensures ToSeq(v) == a[..n]
    ensures Dimensions(v) == n
  {
    Vector(a[..n])
  }

  /** Conversion to `std::vector<float>`: the stored elements. */
  function ToSeq(v: Vector): seq<Float>
  {
    v.value
  }

  /** The conversion is lossless: constructing from its result rebuilds the same vector. */
  lemma ConversionRoundTrip(v: Vector)
    ensures FromSeq(ToSeq(v)) == v
  {
  }

  /** `operator==`: element-wise equality, which is equality of the vectors. */
  function Equal(lhs: Vector, rhs: Vector): (r: bool)
    ensures r <==> ToSeq(lhs) == ToSeq(rhs)
    ensures r <==> lhs == rhs
  {
    lhs.value == rhs.value
  }

  /** `operator<<`: returns the text written to the stream. */
  method Print(num: Numerics, v: Vector) returns (out: seq<char>)
    ensures out == DenseText.Literal(num.streamFloat, ToSeq(v))
  {
    out := DenseText.Write(num.streamFloat, v.value);
  }
}
