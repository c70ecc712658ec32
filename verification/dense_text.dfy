/**
 * The `[a,b,c]` text that `operator<<` of Vector and HalfVector writes, and the text shape
 * that the dense decoders read.
 */
module DenseText {
  import opened Numbers
  import opened Text

  /** The element texts, in element order. */
  function Texts(fmt: Float -> seq<char>, xs: seq<Float>): seq<seq<char>>
  {
    seq(|xs|, i requires 0 <= i < |xs| => fmt(xs[i]))
  }

  /** `[`, the element texts separated by commas, `]`. */
  function Literal(fmt: Float -> seq<char>, xs: seq<Float>): seq<char>
  {
    ['['] + Join(',', Texts(fmt, xs)) + [']']
  }

  /** The text between the brackets. */
  function Inner(text: seq<char>): seq<char>
    requires |text| >= 2
  {
    text[1..|text| - 1]
  }

  /**
   * The streaming loop of `operator<<`: `[`, then each element preceded by a comma unless it
   * is the first, then `]`. Returns the text appended to the stream.
   */
  method Write(fmt: Float -> seq<char>, xs: seq<Float>) returns (out: seq<char>)
    ensures out == Literal(fmt, xs)
  {
    ghost var texts := Texts(fmt, xs);
    out := ['['];
    var i := 0;
    while i < |xs|
      invariant 0 <= i <= |xs|
      invariant out == ['['] + Join(',', texts[..i])
    {
      if i > 0 {
        out := out + [','];
      }
      out := out + fmt(xs[i]);
      JoinSnoc(',', texts[..i], texts[i]);
      assert texts[..i + 1] == texts[..i] + [texts[i]];
      i := i + 1;
    }
    assert texts[..|xs|] == texts;
    out := out + [']'];
  }

  /** The empty vector prints as `[]`. */
  lemma EmptyLiteral(fmt: Float -> seq<char>)
    ensures Literal(fmt, []) == ['[', ']']
  {
  }

  /**
   * With comma-free element texts, the text between the brackets splits back into exactly
   * the element texts, in order (for a non-empty vector).
   */
  lemma {:induction false} LiteralFields(fmt: Float -> seq<char>, xs: seq<Float>)
    requires |xs| >= 1
    requires forall x :: ',' !in fmt(x)
    ensures Split(Inner(Literal(fmt, xs)), ',') == Texts(fmt, xs)
  {
    var texts := Texts(fmt, xs);
    assert Inner(Literal(fmt, xs)) == Join(',', texts);
    forall i | 0 <= i < |texts| ensures ',' !in texts[i] {
      assert texts[i] == fmt(xs[i]);
    }
    SplitJoin(',', texts);
  }

  /** With comma-free element texts, a vector of n >= 1 elements prints exactly n - 1 commas. */
  lemma {:induction false} LiteralCommaCount(fmt: Float -> seq<char>, xs: seq<Float>)
    requires forall x :: ',' !in fmt(x)
    ensures Count(Literal(fmt, xs), ',') == if |xs| == 0 then 0 else |xs| - 1
  {
    var lit := Literal(fmt, xs);
    var inner := Join(',', Texts(fmt, xs));
    assert lit == ['['] + inner + [']'];
    CountAppend(['['] + inner, [']'], ',');
    CountAppend(['['], inner, ',');
    assert Count([']'], ',') == 0 && Count(['['], ',') == 0;
    if |xs| == 0 {
      assert inner == [];
    } else {
      LiteralFields(fmt, xs);
      assert Inner(lit) == inner;
      SplitCount(inner, ',');
    }
  }
}
