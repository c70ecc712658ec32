/**
 * The v0.1.x headers include/pqxx.hpp, include/vector.hpp and include/sparsevec.hpp.
 * Their Vector and SparseVector hold the same state as the current ones, so the same
 * datatypes serve; the legacy dense decoder differs and is modelled on its own.
 */
module LegacyPqxx {
  import opened Wrappers
  import opened Numbers
  import opened Errors
  import opened Text
  import DenseText
  import Vectors
  import Pqxx

  /**
   * The text the legacy decoder splits, `substr(1, -2)`: the count `-2` becomes the `size_t`
   * `SIZE_MAX - 1`, which no text of `size_t` length can supply after position 1, so the
   * count is cut down and the closing `]` stays in.
   */
  function LegacyInner(text: seq<char>): (inner: seq<char>)
    requires 1 <= |text| <= SIZE_MAX
    ensures inner == Substr(text, 1, SizeT(-2))
  {
    text[1..]
  }

  /**
   * The legacy `from_string`: `[` first and `]` last, then one `std::stod` parse per
   * comma-separated field of everything after the `[`, the closing `]` included. The empty
   * text has no first character to test, so it is excluded.
   */
  function DecodeLegacy(parse: seq<char> -> Option<Float>, text: seq<char>): (r: Result<seq<Float>, Error>)
    requires 1 <= |text| <= SIZE_MAX
    ensures text[0] != '[' || text[|text| - 1] != ']' ==> r == Err(Malformed("vector"))
    ensures r.Ok? ==> |text| >= 2 && text[0] == '[' && text[|text| - 1] == ']'
    ensures r.Ok? ==> |r.value| == |Split(LegacyInner(text), ',')| == Count(LegacyInner(text), ',') + 1
    ensures r.Ok? ==> forall i :: 0 <= i < |r.value| ==>
      parse(Split(LegacyInner(text), ',')[i]) == Some(r.value[i])
    ensures text[0] == '[' && text[|text| - 1] == ']' ==>
      var fields := Split(LegacyInner(text), ',');
      && (r.Ok? <==> forall i :: 0 <= i < |fields| ==> parse(fields[i]).Some?)
      && (r.Err? ==> Pqxx.FirstUnparsed(parse, fields) < |fields|
                     && r.error == NotAFloat(fields[Pqxx.FirstUnparsed(parse, fields)]))
  {
    if text[0] != '[' || text[|text| - 1] != ']' then Err(Malformed("vector"))
    else
      SplitCount(LegacyInner(text), ',');
      Pqxx.ParseFields(parse, Split(LegacyInner(text), ','))
  }

  /** The legacy `from_string` with its `getline` loop, `std::stod` as the parser. */
  method LegacyVectorFromString(num: Numerics, text: seq<char>) returns (r: Result<Vectors.Vector, Error>)
    requires 1 <= |text| <= SIZE_MAX
    ensures var d := DecodeLegacy(num.stod, text);
      && (r.Ok? <==> d.Ok?)
      && (r.Ok? ==> Vectors.ToSeq(r.value) == d.value)
      && (r.Err? ==> r.error == d.error)
  {
    if text[0] != '[' || text[|text| - 1] != ']' {
      return Err(Malformed("vector"));
    }
    var values := Pqxx.ReadFloats(num.stod, text[1..]);
    if values.Err? {
      return Err(values.error);
    }
    r := Ok(Vectors.FromSeq(values.value));
  }

  /** A one-character text cannot both start with `[` and end with `]`. */
  lemma OneCharRejected(parse: seq<char> -> Option<Float>, c: char)
    ensures DecodeLegacy(parse, [c]) == Err(Malformed("vector"))
  {
    assert [c][0] == c;
  }

  /**
   * Against the current decoder's fields, the legacy ones are the same except that the last
   * carries the closing `]`; in particular the last field always ends with `]`.
   */
  lemma LegacyFields(text: seq<char>)
    requires Pqxx.Bracketed(text) && |text| <= SIZE_MAX
    ensures Split(LegacyInner(text), ',') == ExtendLast(Split(DenseText.Inner(text), ','), ']')
    ensures var legacy := Split(LegacyInner(text), ',');
      |legacy[|legacy| - 1]| >= 1 && legacy[|legacy| - 1][|legacy[|legacy| - 1]| - 1] == ']'
  {
    assert LegacyInner(text) == DenseText.Inner(text) + [']'];
    SplitAppendChar(DenseText.Inner(text), ',', ']');
  }

  /** `[]` hands the single field `]` to `std::stod`, never an empty list of fields. */
  lemma LegacyEmptyBrackets(parse: seq<char> -> Option<Float>)
    ensures DecodeLegacy(parse, ['[', ']']) ==
      if parse([']']).Some? then Ok([parse([']']).value]) else Err(NotAFloat([']']))
  {
    var text := ['[', ']'];
    assert LegacyInner(text) == [']'];
    assert IndexOf([']'], ',') == 1;
    assert Split([']'], ',') == [[']']];
    var fields: seq<seq<char>> := [[']']];
    assert fields[1..] == [];
    assert Pqxx.ParseFields(parse, []) == Ok([]);
    if parse([']']).Some? {
      assert [parse([']']).value] + [] == [parse([']']).value];
    }
  }
}

/** include/vector.hpp: the v0.1.x Vector, with no `dimensions()` and no span or move constructors. */
module LegacyVectors {
  import opened Numbers
  import DenseText
  import Vectors

  /** `Vector(const std::vector<float>&)`: keeps the given elements. */
  function FromSeq(value: seq<Float>): (v: Vectors.Vector)
    ensures Vectors.ToSeq(v) == value
  {
    Vectors.FromSeq(value)
  }

  /** `Vector(const float*, size_t n)`: the first `n` elements, in order. */
  function FromArray(a: array<Float>, n: nat): (v: Vectors.Vector)
    reads a
    requires n <= a.Length
    ensures Vectors.ToSeq(v) == a[..n]
  {
    Vectors.FromArray(a, n)
  }

  /** Constructing from the conversion to `std::vector<float>` gives back the same vector. */
  lemma ConversionRoundTrip(v: Vectors.Vector)
    ensures FromSeq(Vectors.ToSeq(v)) == v
  {
  }

  /** `operator==` compares the element sequences. */
  function Equal(lhs: Vectors.Vector, rhs: Vectors.Vector): (r: bool)
    ensures r <==> Vectors.ToSeq(lhs) == Vectors.ToSeq(rhs)
  {
    Vectors.Equal(lhs, rhs)
  }

  /**
   * `operator<<`: `[`, the elements separated by commas, `]`. The loop counter is an `int`,
   * so a vector with more than INT_MAX elements would overflow it.
   */
  method Print(num: Numerics, v: Vectors.Vector) returns (out: seq<char>)
    requires |Vectors.ToSeq(v)| <= INT_MAX
    ensures out == DenseText.Literal(num.streamFloat, Vectors.ToSeq(v))
  {
    out := DenseText.Write(num.streamFloat, Vectors.ToSeq(v));
  }
}

/** include/sparsevec.hpp: the v0.1.x SparseVector, the same code as the current one. */
module LegacySparseVectors {
  import opened Wrappers
  import opened Numbers
  import opened Errors
  import SV = SparseVectors

  /** The constructor from dimensions, indices and values. */
  function Make(dimensions: Int32, indices: seq<Int32>, values: seq<Float>): (r: Result<SV.SparseVector, Error>)
    ensures r.Ok? <==> |indices| == |values|
    ensures r.Err? ==> r.error == LengthMismatch
    ensures r.Ok? ==> r.value == SV.SparseVector(dimensions, indices, values)
  {
    SV.Make(dimensions, indices, values)
  }

  /** The constructor from a dense `std::vector<float>`. */
  method FromDense(num: Numerics, value: seq<Float>) returns (s: SV.SparseVector)
    requires |value| <= INT_MAX
    ensures SV.SparseOf(num.isZero, value, s)
  {
    s := SV.FromDense(num, value);
  }

  /** `operator==`. */
  function Equal(lhs: SV.SparseVector, rhs: SV.SparseVector): (r: bool)
    ensures r <==> lhs.dimensions == rhs.dimensions && lhs.indices == rhs.indices && lhs.values == rhs.values
  {
    SV.Equal(lhs, rhs)
  }

  /** `operator<<`. */
  method Print(num: Numerics, s: SV.SparseVector) returns (out: seq<char>)
    requires SV.Encodable(s)
    ensures out == SV.Literal(num.streamInt, num.streamFloat, s)
  {
    out := SV.Print(num, s);
  }
}
