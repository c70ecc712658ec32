/**
 * pgvector::HalfVector: an immutable sequence of floats, held at full float precision
 * (nothing is rounded to 16 bits on the C++ side).
 */
module HalfVectors {
  import opened Numbers
  import DenseText

  datatype HalfVector = HalfVector(value: seq<Float>)

  /** Number of dimensions: the size of the `std::vector<float>` the vector converts to. */
  function Dimensions(v: HalfVector): (d: nat)
    ensures d == |ToSeq(v)|
  {
    |v.value|
  }

  /**
   * The constructors from a `std::vector<float>` (by copy or by move) and from a span: the
   * vector holds exactly the given elements, unrounded.
   */
  function FromSeq(value: seq<Float>): (v: HalfVector)
    ensures ToSeq(v) == value
    ensures Dimensions(v) == |value|
  {
    HalfVector(value)
  }

  /** Conversion to `std::vector<float>`: the stored elements. */
  function ToSeq(v: HalfVector): seq<Float>
  {
    v.value
  }

  /** The conversion is lossless: constructing from its result rebuilds the same vector. */
  lemma ConversionRoundTrip(v: HalfVector)
    ensures FromSeq(ToSeq(v)) == v
  {
  }

  /** `operator==`: element-wise equality, which is equality of the vectors. */
  function Equal(lhs: HalfVector, rhs: HalfVector): (r: bool)
    ensures r <==> ToSeq(lhs) == ToSeq(rhs)
    ensures r <==> lhs == rhs
  {
    lhs.value == rhs.value
  }

  /** `operator<<`: returns the text written to the stream. */
  method Print(num: Numerics, v: HalfVector) returns (out: seq<char>)
    ensures out == DenseText.Literal(num.streamFloat, ToSeq(v))
  {
    out := DenseText.Write(num.streamFloat, v.value);
  }
}
