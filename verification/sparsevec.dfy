/**
 * pgvector::SparseVector: a declared number of dimensions and two parallel sequences, the
 * zero-based positions of the non-zero entries and their values. The object is immutable
 * after construction, so it is a value here; `dimensions()`, `indices()` and `values()` are
 * the datatype's fields.
 */
module SparseVectors {
  import opened Wrappers
  import opened Numbers
  import opened Errors
  import opened Text

  datatype SparseVector = SparseVector(dimensions: Int32, indices: seq<Int32>, values: seq<Float>)

  /** What both constructors establish: one value per index. */
  predicate Valid(s: SparseVector) {
    |s.indices| == |s.values|
  }

  /**
   * The constructor from dimensions, indices and values: throws `invalid_argument` exactly
   * when the two sequences differ in length, and otherwise keeps all three as given (no
   * sorting, no removal of duplicates, no range check).
   */
  function Make(dimensions: Int32, indices: seq<Int32>, values: seq<Float>): (r: Result<SparseVector, Error>)
    ensures r.Ok? <==> |indices| == |values|
    ensures r.Err? ==> r.error == LengthMismatch
    ensures r.Ok? ==> Valid(r.value)
    ensures r.Ok? ==> r.value.dimensions == dimensions && r.value.indices == indices && r.value.values == values
  {
    if |values| != |indices| then Err(LengthMismatch)
    else Ok(SparseVector(dimensions, indices, values))
  }

  predicate StrictlyAscending(xs: seq<int>) {
    forall k, l :: 0 <= k < l < |xs| ==> xs[k] < xs[l]
  }

  /**
   * `s` is the sparse form of the dense `value`: same dimensions, strictly ascending
   * in-range indices, each stored value is the non-zero input at its index, and every
   * non-zero input position is stored.
   */
  ghost predicate SparseOf(isZero: Float -> bool, value: seq<Float>, s: SparseVector) {
    && s.dimensions == |value|
    && Valid(s)
    && StrictlyAscending(s.indices)
    && (forall k :: 0 <= k < |s.indices| ==>
          0 <= s.indices[k] < |value| && s.values[k] == value[s.indices[k]] && !isZero(s.values[k]))
    && (forall i :: 0 <= i < |value| && !isZero(value[i]) ==> i in s.indices)
  }

  /**
   * The constructor from a dense `std::vector<float>`: one pass that keeps the non-zero
   * elements with their positions. The C++ code narrows the size to `int`, so the input is
   * at most INT_MAX long.
   */
  method FromDense(num: Numerics, value: seq<Float>) returns (s: SparseVector)
    requires |value| <= INT_MAX
    ensures SparseOf(num.isZero, value, s)
  {
    var indices: seq<Int32> := [];
    var values: seq<Float> := [];
    var i := 0;
    while i < |value|
      invariant 0 <= i <= |value|
      invariant |indices| == |values|
      invariant StrictlyAscending(indices)
      invariant forall k :: 0 <= k < |indices| ==>
        0 <= indices[k] < i && values[k] == value[indices[k]] && !num.isZero(values[k])
      invariant forall j :: 0 <= j < i && !num.isZero(value[j]) ==> j in indices
    {
      var v := value[i];
      if !num.isZero(v) {
        indices := indices + [i];
        values := values + [v];
      }
      i := i + 1;
    }
    s := SparseVector(|value|, indices, values);
  }

  /** Two strictly ascending sequences with the same elements are equal. */
  lemma {:induction false} AscendingUnique(a: seq<int>, b: seq<int>)
    requires StrictlyAscending(a) && StrictlyAscending(b)
    requires forall x :: x in a <==> x in b
    ensures a == b
  {
    if a == [] && b == [] {
    } else if a == [] {
      HeadIsMember(b);
      assert false;
    } else if b == [] {
      HeadIsMember(a);
      assert false;
    } else {
      assert a[0] in b && b[0] in a;
      assert a[0] == b[0];
      forall x ensures x in a[1..] <==> x in b[1..] {
        if x in a[1..] {
          assert x in a && x != a[0];
        }
        if x in b[1..] {
          assert x in b && x != b[0];
        }
      }
      AscendingUnique(a[1..], b[1..]);
      assert a == [a[0]] + a[1..] && b == [b[0]] + b[1..];
    }
  }

  lemma HeadIsMember(xs: seq<int>)
    requires xs != []
    ensures xs[0] in xs
  {
  }

  /** The sparse form of a dense vector is unique, so FromDense's contract fixes its result. */
  lemma SparseOfUnique(isZero: Float -> bool, value: seq<Float>, s: SparseVector, t: SparseVector)
    requires SparseOf(isZero, value, s) && SparseOf(isZero, value, t)
    ensures s == t
  {
    forall x ensures x in s.indices <==> x in t.indices {
      if x in s.indices {
        var k :| 0 <= k < |s.indices| && s.indices[k] == x;
        assert x in t.indices;
      }
      if x in t.indices {
        var k :| 0 <= k < |t.indices| && t.indices[k] == x;
        assert x in s.indices;
      }
    }
    AscendingUnique(s.indices, t.indices);
  }

  /** `SparseVector({1, 0, 2, 0, 3, 0})` has dimensions 6, indices [0, 2, 4], values [1, 2, 3]. */
  method DropsZerosExample(num: Numerics, one: Float, two: Float, three: Float, zero: Float)
    returns (s: SparseVector)
    requires num.isZero(zero)
    requires !num.isZero(one) && !num.isZero(two) && !num.isZero(three)
    ensures s.dimensions == 6 && s.indices == [0, 2, 4] && s.values == [one, two, three]
  {
    var dense := [one, zero, two, zero, three, zero];
    s := FromDense(num, dense);
    var expected := SparseVector(6, [0, 2, 4], [one, two, three]);
    assert SparseOf(num.isZero, dense, expected);
    SparseOfUnique(num.isZero, dense, s, expected);
  }

  /** `operator==`: dimensions, indices and values all equal, which is equality of the values. */
  function Equal(lhs: SparseVector, rhs: SparseVector): (r: bool)
    ensures r <==> lhs == rhs
  {
    lhs.dimensions == rhs.dimensions && lhs.indices == rhs.indices && lhs.values == rhs.values
  }

  /** A vector whose text can be written: one value per index, and `index + 1` fits an `int`. */
  predicate Encodable(s: SparseVector) {
    Valid(s) && forall k :: 0 <= k < |s.indices| ==> s.indices[k] < INT_MAX
  }

  /** One entry of the text: the one-based index, `:`, the value. */
  function EntryText(fi: Int32 -> seq<char>, ff: Float -> seq<char>, index: Int32, value: Float): seq<char>
    requires index < INT_MAX
  {
    fi(index + 1) + [':'] + ff(value)
  }

  function EntryTexts(fi: Int32 -> seq<char>, ff: Float -> seq<char>, s: SparseVector): seq<seq<char>>
    requires Encodable(s)
  {
    seq(|s.indices|, k requires 0 <= k < |s.indices| => EntryText(fi, ff, s.indices[k], s.values[k]))
  }

  /**
   * `{i1:v1,i2:v2,...}/d` with one-based indices in stored order, the shape both
   * `operator<<` and libpqxx's `into_buf` write (each with its own number formatters).
   */
  function Literal(fi: Int32 -> seq<char>, ff: Float -> seq<char>, s: SparseVector): seq<char>
    requires Encodable(s)
  {
    ['{'] + Join(',', EntryTexts(fi, ff, s)) + ['}', '/'] + fi(s.dimensions)
  }

  /**
   * `operator<<`: the streaming loop, with no limit on the number of entries. Returns the
   * text written to the stream.
   */
  method Print(num: Numerics, s: SparseVector) returns (out: seq<char>)
    requires Encodable(s)
    ensures out == Literal(num.streamInt, num.streamFloat, s)
  {
    ghost var texts := EntryTexts(num.streamInt, num.streamFloat, s);
    out := ['{'];
    var i := 0;
    while i < |s.indices|
      invariant 0 <= i <= |s.indices|
      invariant out == ['{'] + Join(',', texts[..i])
    {
      PrefixStep(num.streamInt, num.streamFloat, s, i);
      if i > 0 {
        out := out + [','];
      }
      out := out + num.streamInt(s.indices[i] + 1);
      out := out + [':'];
      out := out + num.streamFloat(s.values[i]);
      i := i + 1;
    }
    assert texts[..|s.indices|] == texts;
    out := out + ['}', '/'];
    out := out + num.streamInt(s.dimensions);
  }

  /** Writing entry `i` after the first `i` extends the text by a comma (unless `i` is 0) and the entry. */
  lemma PrefixStep(fi: Int32 -> seq<char>, ff: Float -> seq<char>, s: SparseVector, i: nat)
    requires Encodable(s) && i < |s.indices|
    ensures ['{'] + Join(',', EntryTexts(fi, ff, s)[..i + 1])
         == ['{'] + Join(',', EntryTexts(fi, ff, s)[..i]) + (if i == 0 then [] else [','])
            + fi(s.indices[i] + 1) + [':'] + ff(s.values[i])
    ensures |Join(',', EntryTexts(fi, ff, s)[..i + 1])| <= |Join(',', EntryTexts(fi, ff, s))|
  {
    var texts := EntryTexts(fi, ff, s);
    JoinPrefixLength(',', texts, i + 1);
    assert Join(',', texts[..i + 1]) == Join(',', texts[..i]) + (if i == 0 then [] else [',']) + texts[i] by {
      JoinSnoc(',', texts[..i], texts[i]);
      assert texts[..i + 1] == texts[..i] + [texts[i]];
    }
    Regroup(['{'], Join(',', texts[..i]), if i == 0 then [] else [','], fi(s.indices[i] + 1), ff(s.values[i]));
  }

  lemma Regroup(a: seq<char>, b: seq<char>, c: seq<char>, d: seq<char>, e: seq<char>)
    ensures a + (b + c + (d + [':'] + e)) == a + b + c + d + [':'] + e
  {
  }
}
