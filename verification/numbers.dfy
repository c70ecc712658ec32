/**
 * The numeric primitives the library relies on but does not define: C++ `float`, C++ `int`,
 * and the formatters and parsers of libpqxx, of the C++ standard library and of `std::ostream`.
 * Nothing here is implemented; each primitive is a function value handed in as a parameter,
 * and what the proofs need of them is stated as a predicate that a lemma `requires`.
 */
module Numbers {
  import opened Wrappers

  /** A C++ `float`, kept opaque: it supports equality and nothing else. */
  type Float(==, !new)

  const INT_MIN: int := -0x8000_0000
  const INT_MAX: int := 0x7fff_ffff

  /** A C++ `int` (32 bits). */
  type Int32 = x: int | INT_MIN <= x <= INT_MAX

  /** The largest `size_t` (64 bits). */
  const SIZE_MAX: nat := 0xffff_ffff_ffff_ffff

  /** Conversion of an integer to `size_t`: reduction modulo 2^64, so `-2` becomes `SIZE_MAX - 1`. */
  function SizeT(x: int): nat
  {
    x % (SIZE_MAX + 1)
  }

  /** The upper bound libpqxx places on the number of non-zero entries of a sparsevec text. */
  const MAX_NNZ: nat := 16000

  datatype Numerics = Numerics(
    /** `v == 0` (true for both signed zeros, false for NaN) */
    isZero: Float -> bool,
    /** `string_traits<int>::into_buf`, the text without its terminating zero */
    formatInt: Int32 -> seq<char>,
    /** `string_traits<int>::from_string`, strict: None where it throws */
    parseInt: seq<char> -> Option<Int32>,
    /** `string_traits<int>::size_buffer`, terminating zero included */
    intSize: Int32 -> nat,
    /** `string_traits<float>::into_buf`, the text without its terminating zero */
    formatFloat: Float -> seq<char>,
    /** `string_traits<float>::from_string`, strict: None where it throws */
    parseFloat: seq<char> -> Option<Float>,
    /** `string_traits<float>::size_buffer`, terminating zero included */
    floatSize: Float -> nat,
    /** `std::stof`: None where it throws (invalid_argument or out_of_range) */
    stof: seq<char> -> Option<Float>,
    /** `std::stod` followed by the narrowing of its double to float */
    stod: seq<char> -> Option<Float>,
    /** `std::ostream << int` */
    streamInt: Int32 -> seq<char>,
    /** `std::ostream << float` */
    streamFloat: Float -> seq<char>
  )

  /** libpqxx's parsers read libpqxx's texts back as the numbers they were made from. */
  ghost predicate ParseInvertsFormat(num: Numerics) {
    && (forall x: Int32 :: num.parseInt(num.formatInt(x)) == Some(x))
    && (forall f: Float :: num.parseFloat(num.formatFloat(f)) == Some(f))
  }

  /**
   * libpqxx's number texts never contain the separators of the sparsevec grammar
   * (`,` between entries, `:` inside an entry, `}` before the dimensions), and an
   * integer text is never empty.
   */
  ghost predicate DelimiterFree(num: Numerics) {
    && (forall x: Int32 :: |num.formatInt(x)| > 0 && FreeOfSeparators(num.formatInt(x)))
    && (forall f: Float :: FreeOfSeparators(num.formatFloat(f)))
  }

  predicate FreeOfSeparators(t: seq<char>) {
    ',' !in t && ':' !in t && '}' !in t
  }

  /**
   * libpqxx's size_buffer covers the text and its terminating zero; for `int` the bound does
   * not depend on the value, so the bound computed for one integer covers the text of any other.
   */
  ghost predicate BuffersSuffice(num: Numerics) {
    && (forall x: Int32, y: Int32 :: |num.formatInt(y)| < num.intSize(x))
    && (forall f: Float :: |num.formatFloat(f)| < num.floatSize(f))
  }
}
