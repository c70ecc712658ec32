/**
 * The libpqxx `string_traits` specialisations of pgvector/pqxx.hpp: text decoding of
 * `vector`, `halfvec` and `sparsevec` literals, and text encoding of `sparsevec` into a
 * caller-supplied buffer.
 */
module Pqxx {
  import opened Wrappers
  import opened Numbers
  import opened Errors
  import opened Text
  import DenseText
  import Vectors
  import HalfVectors
  import SV = SparseVectors

  // ---------------------------------------------------------------------------------------
  // Dense literals: `[a,b,c]`
  // ---------------------------------------------------------------------------------------

  /** The guard of the dense decoders: at least two characters, `[` first, `]` last. */
  predicate Bracketed(text: seq<char>) {
    |text| >= 2 && text[0] == '[' && text[|text| - 1] == ']'
  }

  /** Position of the first field `parse` rejects, or `|fields|` when it accepts them all. */
  function FirstUnparsed(parse: seq<char> -> Option<Float>, fields: seq<seq<char>>): (k: nat)
    ensures k <= |fields|
    ensures k < |fields| ==> parse(fields[k]).None?
  {
    if fields == [] then 0
    else if parse(fields[0]).None? then 0
    else 1 + FirstUnparsed(parse, fields[1..])
  }

  /** Every field before the first rejected one is accepted. */
  lemma {:induction false} FirstUnparsedFirst(parse: seq<char> -> Option<Float>, fields: seq<seq<char>>)
    ensures forall j :: 0 <= j < FirstUnparsed(parse, fields) ==> parse(fields[j]).Some?
  {
    if fields != [] && parse(fields[0]).Some? {
      FirstUnparsedFirst(parse, fields[1..]);
      forall j | 0 < j < FirstUnparsed(parse, fields) ensures parse(fields[j]).Some? {
        assert fields[j] == fields[1..][j - 1];
      }
    }
  }

  /**
   * Each field handed to `parse` in order; the first field it rejects ends decoding with
   * that field's error.
   */
  function ParseFields(parse: seq<char> -> Option<Float>, fields: seq<seq<char>>): (r: Result<seq<Float>, Error>)
    ensures r.Ok? <==> forall i :: 0 <= i < |fields| ==> parse(fields[i]).Some?
    ensures r.Ok? ==> |r.value| == |fields|
    ensures r.Ok? ==> forall i :: 0 <= i < |fields| ==> parse(fields[i]) == Some(r.value[i])
    ensures r.Err? ==>
      FirstUnparsed(parse, fields) < |fields| && r.error == NotAFloat(fields[FirstUnparsed(parse, fields)])
  {
    if fields == [] then Ok([])
    else match parse(fields[0])
      case None => Err(NotAFloat(fields[0]))
      case Some(x) =>
        match ParseFields(parse, fields[1..])
        case Err(e) => Err(e)
        case Ok(xs) => Ok([x] + xs)
  }

  /**
   * `from_string` of Vector and HalfVector (they differ only in the type name in the
   * error): the bracket guard, then one element per comma-separated field of the text
   * between the brackets.
   */
  function DecodeDense(parse: seq<char> -> Option<Float>, typeName: string, text: seq<char>): (r: Result<seq<Float>, Error>)
    ensures !Bracketed(text) ==> r == Err(Malformed(typeName))
    ensures r.Ok? ==> Bracketed(text)
    ensures r.Ok? ==> |r.value| == |Split(DenseText.Inner(text), ',')| == Count(DenseText.Inner(text), ',') + 1
    ensures r.Ok? ==> forall i :: 0 <= i < |r.value| ==>
      parse(Split(DenseText.Inner(text), ',')[i]) == Some(r.value[i])
    ensures Bracketed(text) ==>
      var fields := Split(DenseText.Inner(text), ',');
      && (r.Ok? <==> forall i :: 0 <= i < |fields| ==> parse(fields[i]).Some?)
      && (r.Err? ==> FirstUnparsed(parse, fields) < |fields|
                     && r.error == NotAFloat(fields[FirstUnparsed(parse, fields)]))
  {
    if !Bracketed(text) then Err(Malformed(typeName))
    else
      SplitCount(DenseText.Inner(text), ',');
      ParseFields(parse, Split(DenseText.Inner(text), ','))
  }

  function Prepend<T>(prefix: seq<T>, r: Result<seq<T>, Error>): Result<seq<T>, Error>
  {
    match r
    case Ok(xs) => Ok(prefix + xs)
    case Err(e) => Err(e)
  }

  lemma PrependTwice<T>(a: seq<T>, b: seq<T>, r: Result<seq<T>, Error>)
    ensures Prepend(a, Prepend(b, r)) == Prepend(a + b, r)
    ensures r == Ok([]) ==> Prepend(a + b, r) == Ok(a + b)
    ensures Prepend([], r) == r
  {
    if r.Ok? {
      assert [] + r.value == r.value;
    }
    if r.Ok? {
      assert a + (b + r.value) == (a + b) + r.value;
    }
    if r == Ok([]) {
      assert (a + b) + [] == a + b;
    }
  }

  /**
   * The `while (ss.good()) { getline(ss, field, ','); result.push_back(parse(field)); }`
   * loop: `rest` is what the stream has not yet consumed and `good` is `ss.good()`, which
   * turns false when `getline` stops at the end of the text instead of at a comma.
   */
  method ReadFloats(parse: seq<char> -> Option<Float>, inner: seq<char>) returns (r: Result<seq<Float>, Error>)
    ensures r == ParseFields(parse, Split(inner, ','))
  {
    var result: seq<Float> := [];
    var rest := inner;
    var good := true;
    PrependTwice(result, result, ParseFields(parse, Split(inner, ',')));
    while good
      invariant good ==> Prepend(result, ParseFields(parse, Split(rest, ','))) == ParseFields(parse, Split(inner, ','))
      invariant !good ==> Ok(result) == ParseFields(parse, Split(inner, ','))
      decreases if good then |rest| + 1 else 0
    {
      var k := IndexOf(rest, ',');
      var field := rest[..k];
      ghost var fields := Split(rest, ',');
      assert fields[0] == field;
      if k == |rest| {
        good := false;
        assert fields == [field];
      } else {
        rest := rest[k + 1..];
        assert fields[1..] == Split(rest, ',');
      }
      var x := parse(field);
      if x.None? {
        return Err(NotAFloat(field));
      }
      assert ParseFields(parse, fields) == Prepend([x.value], ParseFields(parse, fields[1..]));
      PrependTwice(result, [x.value], ParseFields(parse, fields[1..]));
      result := result + [x.value];
    }
    r := Ok(result);
  }

  /** `string_traits<pgvector::Vector>::from_string`, with `std::stof` as the parser. */
  method VectorFromString(num: Numerics, text: seq<char>) returns (r: Result<Vectors.Vector, Error>)
    ensures var d := DecodeDense(num.stof, "vector", text);
      && (r.Ok? <==> d.Ok?)
      && (r.Ok? ==> Vectors.ToSeq(r.value) == d.value)
      && (r.Err? ==> r.error == d.error)
  {
    if |text| < 2 || text[0] != '[' || text[|text| - 1] != ']' {
      return Err(Malformed("vector"));
    }
    var values := ReadFloats(num.stof, text[1..|text| - 1]);
    if values.Err? {
      return Err(values.error);
    }
    r := Ok(Vectors.FromSeq(values.value));
  }

  /** `string_traits<pgvector::HalfVector>::from_string`, with `std::stof` as the parser. */
  method HalfVectorFromString(num: Numerics, text: seq<char>) returns (r: Result<HalfVectors.HalfVector, Error>)
    ensures var d := DecodeDense(num.stof, "halfvec", text);
      && (r.Ok? <==> d.Ok?)
      && (r.Ok? ==> HalfVectors.ToSeq(r.value) == d.value)
      && (r.Err? ==> r.error == d.error)
  {
    if |text| < 2 || text[0] != '[' || text[|text| - 1] != ']' {
      return Err(Malformed("halfvec"));
    }
    var values := ReadFloats(num.stof, text[1..|text| - 1]);
    if values.Err? {
      return Err(values.error);
    }
    r := Ok(HalfVectors.FromSeq(values.value));
  }

  /** `[]` is not special: the parser receives one empty field, so no empty vector results. */
  lemma EmptyBracketsParseOneEmptyField(parse: seq<char> -> Option<Float>, typeName: string)
    ensures DecodeDense(parse, typeName, ['[', ']']) ==
      if parse([]).Some? then Ok([parse([]).value]) else Err(NotAFloat([]))
  {
    assert Bracketed(['[', ']']);
    assert DenseText.Inner(['[', ']']) == [];
    assert Split([], ',') == [[]];
    var fields: seq<seq<char>> := [[]];
    assert fields[1..] == [];
    assert ParseFields(parse, []) == Ok([]);
    assert DecodeDense(parse, typeName, ['[', ']']) == ParseFields(parse, fields);
    if parse([]).Some? {
      assert [parse([]).value] + [] == [parse([]).value];
      assert ParseFields(parse, fields) == Ok([parse([]).value] + []);
    }
  }

  /**
   * A trailing comma hands an empty last field to the parser: the vector is never shorter
   * than the number of fields.
   */
  lemma {:induction false} TrailingCommaGivesEmptyField(parse: seq<char> -> Option<Float>, typeName: string, text: seq<char>)
    requires Bracketed(text) && |text| >= 3 && text[|text| - 2] == ','
    ensures var fields := Split(DenseText.Inner(text), ',');
      && fields[|fields| - 1] == []
      && (DecodeDense(parse, typeName, text).Ok? ==>
            |DecodeDense(parse, typeName, text).value| == |fields| && parse([]).Some?)
  {
    var inner := DenseText.Inner(text);
    var head := inner[..|inner| - 1];
    assert inner == head + [','];
    SplitTrailingSeparator(head, ',');
    var fields := Split(inner, ',');
    assert fields[|fields| - 1] == [];
  }

  /**
   * Decoding the `[a,b,c]` text of a non-empty vector gives the vector back when the element
   * texts are comma-free and the parser reads each one back as its element.
   */
  lemma {:induction false} DenseRoundTrip(parse: seq<char> -> Option<Float>, fmt: Float -> seq<char>, typeName: string, xs: seq<Float>)
    requires |xs| >= 1
    requires forall x :: ',' !in fmt(x)
    requires forall x :: parse(fmt(x)) == Some(x)
    ensures DecodeDense(parse, typeName, DenseText.Literal(fmt, xs)) == Ok(xs)
  {
    var text := DenseText.Literal(fmt, xs);
    var texts := DenseText.Texts(fmt, xs);
    DenseText.LiteralFields(fmt, xs);
    assert Split(DenseText.Inner(text), ',') == texts;
    var r := ParseFields(parse, texts);
    forall i | 0 <= i < |texts| ensures parse(texts[i]) == Some(xs[i]) {
      assert texts[i] == fmt(xs[i]);
    }
    assert r.Ok?;
    assert r.value == xs;
  }

  // ---------------------------------------------------------------------------------------
  // Sparse literals: `{i:v,...}/d`
  // ---------------------------------------------------------------------------------------

  /** `text.find("}/", from)`: the first position at or after `from` where `}/` starts, or `|text|`. */
  function FindClose(text: seq<char>, from: nat): (n: nat)
    requires from <= |text|
    ensures from <= n <= |text|
    ensures n < |text| ==> n + 1 < |text| && text[n] == '}' && text[n + 1] == '/'
    decreases |text| - from
  {
    if from + 1 >= |text| then |text|
    else if text[from] == '}' && text[from + 1] == '/' then from
    else FindClose(text, from + 1)
  }

  /** `FindClose` finds the first `}/`: none starts between `from` and the position it returns. */
  lemma {:induction false} FindCloseFirst(text: seq<char>, from: nat, p: nat)
    requires p + 1 < |text| && from <= p < FindClose(text, from)
    ensures !(text[p] == '}' && text[p + 1] == '/')
    decreases |text| - from
  {
    if from < p {
      FindCloseFirst(text, from + 1, p);
    }
  }

  /** The length and brace guard and the search for `}/` succeed. */
  predicate Framed(text: seq<char>) {
    |text| >= 4 && text[0] == '{' && FindClose(text, 1) < |text|
  }

  /** The text after the first `}/`. */
  function DimensionsText(text: seq<char>): seq<char>
    requires Framed(text)
  {
    text[FindClose(text, 1) + 2..]
  }

  /** The text between `{` and the first `}/`. */
  function EntriesText(text: seq<char>): seq<char>
    requires Framed(text)
  {
    text[1..FindClose(text, 1)]
  }

  /** The index text of an entry: what comes before its first `:`. */
  function IndexText(field: seq<char>): seq<char>
    requires ':' in field
  {
    field[..IndexOf(field, ':')]
  }

  /** The value text of an entry: what comes after its first `:`. */
  function ValueText(field: seq<char>): seq<char>
    requires ':' in field
  {
    field[IndexOf(field, ':') + 1..]
  }

  /**
   * One entry: split at the first `:`, parse the index, parse the value, and only then
   * check that the one-based index is at least 1. The stored index is the parsed one
   * minus 1.
   */
  function DecodeEntry(num: Numerics, field: seq<char>): (r: Result<(Int32, Float), Error>)
    ensures r.Ok? ==> ':' in field && 0 <= r.value.0 < INT_MAX
    ensures r.Ok? ==> num.parseInt(IndexText(field)) == Some(r.value.0 + 1)
    ensures r.Ok? ==> num.parseFloat(ValueText(field)) == Some(r.value.1)
  {
    var ne := IndexOf(field, ':');
    if ne == |field| then Err(Malformed("sparsevec"))
    else match num.parseInt(field[..ne])
      case None => Err(NotAnInteger(field[..ne]))
      case Some(index) =>
        match num.parseFloat(field[ne + 1..])
        case None => Err(NotAFloat(field[ne + 1..]))
        case Some(value) =>
          if index < 1 then Err(IndexOutOfBounds) else Ok((index - 1, value))
  }

  /** The order of the checks of one entry: a missing `:`, the index text, the value text, the index bound. */
  lemma EntryRejects(num: Numerics, field: seq<char>)
    ensures ':' !in field ==> DecodeEntry(num, field) == Err(Malformed("sparsevec"))
    ensures ':' in field && num.parseInt(IndexText(field)).None? ==>
      DecodeEntry(num, field) == Err(NotAnInteger(IndexText(field)))
    ensures ':' in field && num.parseInt(IndexText(field)).Some? && num.parseFloat(ValueText(field)).None? ==>
      DecodeEntry(num, field) == Err(NotAFloat(ValueText(field)))
    ensures ':' in field && num.parseInt(IndexText(field)).Some? && num.parseFloat(ValueText(field)).Some?
            && num.parseInt(IndexText(field)).value < 1 ==>
      DecodeEntry(num, field) == Err(IndexOutOfBounds)
  {
  }

  /** An entry that passes all four checks decodes to its index minus 1 and its value. */
  lemma EntryAccepts(num: Numerics, field: seq<char>)
    requires ':' in field
    requires num.parseInt(IndexText(field)).Some? && num.parseInt(IndexText(field)).value >= 1
    requires num.parseFloat(ValueText(field)).Some?
    ensures DecodeEntry(num, field) == Ok((num.parseInt(IndexText(field)).value - 1, num.parseFloat(ValueText(field)).value))
  {
  }

  /** Position of the first entry that does not decode, or `|fields|` when all of them do. */
  function FirstBadEntry(num: Numerics, fields: seq<seq<char>>): (k: nat)
    ensures k <= |fields|
    ensures k < |fields| ==> DecodeEntry(num, fields[k]).Err?
  {
    if fields == [] then 0
    else if DecodeEntry(num, fields[0]).Err? then 0
    else 1 + FirstBadEntry(num, fields[1..])
  }

  /** Every entry before the first bad one decodes. */
  lemma {:induction false} FirstBadEntryFirst(num: Numerics, fields: seq<seq<char>>)
    ensures forall j :: 0 <= j < FirstBadEntry(num, fields) ==> DecodeEntry(num, fields[j]).Ok?
  {
    if fields != [] && DecodeEntry(num, fields[0]).Ok? {
      FirstBadEntryFirst(num, fields[1..]);
      forall j | 0 < j < FirstBadEntry(num, fields) ensures DecodeEntry(num, fields[j]).Ok? {
        assert fields[j] == fields[1..][j - 1];
      }
    }
  }

  /** All entries, in field order, stopping at the first that fails. */
  function DecodeEntries(num: Numerics, fields: seq<seq<char>>): Result<(seq<Int32>, seq<Float>), Error>
  {
    if fields == [] then Ok(([], []))
    else match DecodeEntry(num, fields[0])
      case Err(e) => Err(e)
      case Ok(entry) =>
        match DecodeEntries(num, fields[1..])
        case Err(e) => Err(e)
        case Ok(rest) => Ok(([entry.0] + rest.0, [entry.1] + rest.1))
  }

  /**
   * The entries decode exactly when each field does, to one index and one value per field
   * in field order; otherwise the error is that of the first field that does not decode.
   */
  lemma {:induction false} DecodeEntriesMeaning(num: Numerics, fields: seq<seq<char>>)
    ensures var r := DecodeEntries(num, fields);
      && (r.Ok? <==> forall k :: 0 <= k < |fields| ==> DecodeEntry(num, fields[k]).Ok?)
      && (r.Ok? ==> |r.value.0| == |fields| && |r.value.1| == |fields|)
      && (r.Ok? ==> forall k :: 0 <= k < |fields| ==> DecodeEntry(num, fields[k]) == Ok((r.value.0[k], r.value.1[k])))
      && (r.Err? ==> FirstBadEntry(num, fields) < |fields|
                     && DecodeEntry(num, fields[FirstBadEntry(num, fields)]) == Err(r.error))
  {
    if fields != [] {
      DecodeEntriesMeaning(num, fields[1..]);
      forall k | 0 < k < |fields| ensures fields[k] == fields[1..][k - 1] {
      }
    }
  }

  /**
   * `string_traits<pgvector::SparseVector>::from_string`. Malformed framing is reported
   * first, then a bad or negative dimension count, and only then the entries. Decoded
   * indices are not checked against the dimensions, nor for order or duplicates.
   */
  function DecodeSparse(num: Numerics, text: seq<char>): (r: Result<SV.SparseVector, Error>)
    ensures !Framed(text) ==> r == Err(Malformed("sparsevec"))
    ensures Framed(text) && num.parseInt(DimensionsText(text)).None? ==>
      r == Err(NotAnInteger(DimensionsText(text)))
    ensures Framed(text) && num.parseInt(DimensionsText(text)).Some? && num.parseInt(DimensionsText(text)).value < 0 ==>
      r == Err(NegativeDimensions)
    ensures Framed(text) && EntriesText(text) == []
            && num.parseInt(DimensionsText(text)).Some? && num.parseInt(DimensionsText(text)).value >= 0 ==>
      r == Ok(SV.SparseVector(num.parseInt(DimensionsText(text)).value, [], []))
    ensures r.Ok? ==> Framed(text) && num.parseInt(DimensionsText(text)) == Some(r.value.dimensions)
    ensures r.Ok? ==> r.value.dimensions >= 0 && SV.Valid(r.value)
    ensures r.Ok? ==> forall k :: 0 <= k < |r.value.indices| ==> 0 <= r.value.indices[k]
    ensures r.Ok? && EntriesText(text) != [] ==> |r.value.indices| == Count(EntriesText(text), ',') + 1
  {
    if |text| < 4 || text[0] != '{' then Err(Malformed("sparsevec"))
    else
      var n := FindClose(text, 1);
      if n == |text| then Err(Malformed("sparsevec"))
      else match num.parseInt(text[n + 2..])
        case None => Err(NotAnInteger(text[n + 2..]))
        case Some(d) =>
          if d < 0 then Err(NegativeDimensions)
          else if n == 1 then SV.Make(d, [], [])
          else
            SplitCount(text[1..n], ',');
            EntriesShape(num, Split(text[1..n], ','));
            match DecodeEntries(num, Split(text[1..n], ','))
            case Err(e) => Err(e)
            case Ok(entries) => SV.Make(d, entries.0, entries.1)
  }

  /** Decoded entries have one index and one value per field, and no index is negative. */
  lemma EntriesShape(num: Numerics, fields: seq<seq<char>>)
    ensures var r := DecodeEntries(num, fields);
      r.Ok? ==> |r.value.0| == |fields| == |r.value.1| && forall k :: 0 <= k < |r.value.0| ==> r.value.0[k] >= 0
  {
    DecodeEntriesMeaning(num, fields);
    var r := DecodeEntries(num, fields);
    if r.Ok? {
      forall k | 0 <= k < |r.value.0| ensures r.value.0[k] >= 0 {
        assert DecodeEntry(num, fields[k]) == Ok((r.value.0[k], r.value.1[k]));
      }
    }
  }

  /**
   * Once the framing and the dimensions pass, the entries decide: the text decodes exactly
   * when every entry does, to the decoded entries, and otherwise fails with the entries' error.
   */
  lemma EntriesDecide(num: Numerics, text: seq<char>)
    requires Framed(text) && EntriesText(text) != []
    requires num.parseInt(DimensionsText(text)).Some? && num.parseInt(DimensionsText(text)).value >= 0
    ensures var r := DecodeSparse(num, text);
      var entries := DecodeEntries(num, Split(EntriesText(text), ','));
      && (r.Ok? <==> entries.Ok?)
      && (r.Ok? ==> r.value == SV.SparseVector(num.parseInt(DimensionsText(text)).value, entries.value.0, entries.value.1))
      && (r.Err? ==> r.error == entries.error)
  {
    DecodeEntriesMeaning(num, Split(EntriesText(text), ','));
  }

  function Extend(indices: seq<Int32>, values: seq<Float>, r: Result<(seq<Int32>, seq<Float>), Error>): Result<(seq<Int32>, seq<Float>), Error>
  {
    match r
    case Ok(entries) => Ok((indices + entries.0, values + entries.1))
    case Err(e) => Err(e)
  }

  lemma ExtendTwice(indices: seq<Int32>, values: seq<Float>, i: Int32, v: Float, r: Result<(seq<Int32>, seq<Float>), Error>)
    ensures Extend(indices, values, Extend([i], [v], r)) == Extend(indices + [i], values + [v], r)
    ensures r == Ok(([], [])) ==> Extend(indices + [i], values + [v], r) == Ok((indices + [i], values + [v]))
  {
    if r.Ok? {
      assert indices + ([i] + r.value.0) == (indices + [i]) + r.value.0;
      assert values + ([v] + r.value.1) == (values + [v]) + r.value.1;
    }
    if r == Ok(([], [])) {
      assert (indices + [i]) + [] == indices + [i];
      assert (values + [v]) + [] == values + [v];
    }
  }

  /** `string_traits<pgvector::SparseVector>::from_string`, step by step, with its getline loop. */
  method SparseFromString(num: Numerics, text: seq<char>) returns (r: Result<SV.SparseVector, Error>)
    ensures r == DecodeSparse(num, text)
  {
    if |text| < 4 || text[0] != '{' {
      return Err(Malformed("sparsevec"));
    }
    var n := FindClose(text, 1);
    if n == |text| {
      return Err(Malformed("sparsevec"));
    }
    var dimensions := num.parseInt(text[n + 2..]);
    if dimensions.None? {
      return Err(NotAnInteger(text[n + 2..]));
    }
    if dimensions.value < 0 {
      return Err(NegativeDimensions);
    }
    if n == 1 {
      return SV.Make(dimensions.value, [], []);
    }
    var entries := ReadEntries(num, text[1..n]);
    if entries.Err? {
      return Err(entries.error);
    }
    r := SV.Make(dimensions.value, entries.value.0, entries.value.1);
  }

  lemma DecodeEntriesCons(num: Numerics, fields: seq<seq<char>>)
    requires fields != []
    ensures var e := DecodeEntry(num, fields[0]);
      DecodeEntries(num, fields) ==
        if e.Err? then Err(e.error) else Extend([e.value.0], [e.value.1], DecodeEntries(num, fields[1..]))
  {
  }

  /** An entry that does not decode ends decoding with its error, whatever came before it. */
  lemma EntryFails(num: Numerics, indices: seq<Int32>, values: seq<Float>, fields: seq<seq<char>>, e: Error)
    requires fields != [] && DecodeEntry(num, fields[0]) == Err(e)
    ensures Extend(indices, values, DecodeEntries(num, fields)) == Err(e)
  {
    DecodeEntriesCons(num, fields);
  }

  /** An entry that decodes moves from the undecoded fields to the decoded entries. */
  lemma EntryDecodes(num: Numerics, indices: seq<Int32>, values: seq<Float>, fields: seq<seq<char>>, i: Int32, v: Float)
    requires fields != [] && DecodeEntry(num, fields[0]) == Ok((i, v))
    ensures Extend(indices, values, DecodeEntries(num, fields))
         == Extend(indices + [i], values + [v], DecodeEntries(num, fields[1..]))
    ensures fields[1..] == [] ==> Extend(indices, values, DecodeEntries(num, fields)) == Ok((indices + [i], values + [v]))
  {
    DecodeEntriesCons(num, fields);
    ExtendTwice(indices, values, i, v, DecodeEntries(num, fields[1..]));
  }

  /**
   * The getline loop of the sparse decoder over the text between `{` and `}/`: each field
   * is split at its first `:`, both numbers are parsed, the index is checked, and
   * `index - 1` and the value are pushed.
   */
  method ReadEntries(num: Numerics, inner: seq<char>) returns (r: Result<(seq<Int32>, seq<Float>), Error>)
    ensures r == DecodeEntries(num, Split(inner, ','))
  {
    var indices: seq<Int32> := [];
    var values: seq<Float> := [];
    ghost var all := DecodeEntries(num, Split(inner, ','));
    var rest := inner;
    var good := true;
    if all.Ok? {
      assert [] + all.value.0 == all.value.0 && [] + all.value.1 == all.value.1;
    }
    while good
      invariant good ==> Extend(indices, values, DecodeEntries(num, Split(rest, ','))) == all
      invariant !good ==> Ok((indices, values)) == all
      decreases if good then |rest| + 1 else 0
    {
      var k := IndexOf(rest, ',');
      var field := rest[..k];
      ghost var fields := Split(rest, ',');
      assert fields[0] == field;
      if k == |rest| {
        good := false;
        assert fields == [field];
      } else {
        rest := rest[k + 1..];
        assert fields[1..] == Split(rest, ',');
      }
      // the checks of one entry, in the order the C++ code throws
      var entry: Result<(Int32, Float), Error>;
      var ne := IndexOf(field, ':');
      if ne == |field| {
        entry := Err(Malformed("sparsevec"));
      } else {
        var index := num.parseInt(field[..ne]);
        if index.None? {
          entry := Err(NotAnInteger(field[..ne]));
        } else {
          var value := num.parseFloat(field[ne + 1..]);
          if value.None? {
            entry := Err(NotAFloat(field[ne + 1..]));
          } else if index.value < 1 {
            entry := Err(IndexOutOfBounds);
          } else {
            EntryAccepts(num, field);
            entry := Ok((index.value - 1, value.value));
          }
        }
      }
      EntryRejects(num, field);
      assert entry == DecodeEntry(num, field);
      if entry.Err? {
        EntryFails(num, indices, values, fields, entry.error);
        return Err(entry.error);
      }
      EntryDecodes(num, indices, values, fields, entry.value.0, entry.value.1);
      indices := indices + [entry.value.0];
      values := values + [entry.value.1];
    }
    r := Ok((indices, values));
  }

  /**
   * The decoder checks neither the index range nor order nor duplicates: `{2:5,2:5}/1`
   * decodes to a one-dimensional vector that stores index 1 twice.
   */
  lemma NoIndexChecks(num: Numerics, five: Float)
    requires num.parseInt("1") == Some(1) && num.parseInt("2") == Some(2)
    requires num.parseFloat("5") == Some(five)
    ensures DecodeSparse(num, "{2:5,2:5}/1") == Ok(SV.SparseVector(1, [1, 1], [five, five]))
  {
    var text := "{2:5,2:5}/1";
    DuplicateEntriesFramed();
    assert Framed(text);
    assert EntriesText(text) == "2:5,2:5" && DimensionsText(text) == "1";
    TwoEqualEntries(num, five);
    EntriesDecide(num, text);
  }

  lemma DuplicateEntriesFramed()
    ensures FindClose("{2:5,2:5}/1", 1) == 8
    ensures "{2:5,2:5}/1"[10..] == "1"
    ensures "{2:5,2:5}/1"[1..8] == "2:5,2:5"
  {
    FindCloseAt("{2:5,2:5}/1", 1, 8);
  }

  lemma TwoEqualEntries(num: Numerics, five: Float)
    requires num.parseInt("2") == Some(2)
    requires num.parseFloat("5") == Some(five)
    ensures DecodeEntries(num, Split("2:5,2:5", ',')) == Ok(([1, 1], [five, five]))
  {
    var field := "2:5";
    var fields: seq<seq<char>> := [field, field];
    SplitJoin(',', fields);
    assert Join(',', fields) == "2:5,2:5";
    OneEntry(num, five);
    var one: Int32 := 1;
    var none: seq<Int32> := [];
    var nothing: seq<Float> := [];
    assert fields[1..] == [field] && fields[1..][1..] == [];
    EntryDecodes(num, none, nothing, fields, one, five);
    EntryDecodes(num, none + [one], nothing + [five], fields[1..], one, five);
    assert (none + [one]) + [one] == [one, one] && (nothing + [five]) + [five] == [five, five];
    var r := DecodeEntries(num, fields);
    assert Extend(none, nothing, r) == Ok(([one, one], [five, five]));
    assert r.Ok? && none + r.value.0 == r.value.0 && nothing + r.value.1 == r.value.1;
  }

  lemma OneEntry(num: Numerics, five: Float)
    requires num.parseInt("2") == Some(2)
    requires num.parseFloat("5") == Some(five)
    ensures DecodeEntry(num, "2:5") == Ok((1, five))
  {
    var field := "2:5";
    assert IndexOf(field, ':') == 1;
    assert field[..1] == "2" && field[2..] == "5";
  }

  /** `FindClose` stops at the first `}/` when no `}` comes before it. */
  lemma {:induction false} FindCloseAt(text: seq<char>, from: nat, m: nat)
    requires from <= m && m + 1 < |text| && text[m] == '}' && text[m + 1] == '/'
    requires forall p :: from <= p < m ==> text[p] != '}'
    ensures FindClose(text, from) == m
    decreases m - from
  {
    if from < m {
      FindCloseAt(text, from + 1, m);
    }
  }

  /** One entry's text decodes back to its index and value when the index text has no `:`. */
  lemma EntryRoundTrip(num: Numerics, fi: Int32 -> seq<char>, ff: Float -> seq<char>, index: Int32, value: Float)
    requires 0 <= index < INT_MAX
    requires ':' !in fi(index + 1) && num.parseInt(fi(index + 1)) == Some(index + 1)
    requires num.parseFloat(ff(value)) == Some(value)
    ensures DecodeEntry(num, SV.EntryText(fi, ff, index, value)) == Ok((index, value))
  {
    var a := fi(index + 1);
    var b := [':'] + ff(value);
    var field := SV.EntryText(fi, ff, index, value);
    assert field == a + b;
    IndexOfAfterFree(a, b, ':');
    assert field[..|a|] == a;
    assert field[|a| + 1..] == ff(value);
  }

  /**
   * Number formatters whose texts `num`'s parsers read back, with no character that the
   * sparsevec grammar uses as a separator, and non-empty integer texts.
   */
  ghost predicate ReadsBack(num: Numerics, fi: Int32 -> seq<char>, ff: Float -> seq<char>) {
    && (forall x: Int32 :: num.parseInt(fi(x)) == Some(x) && |fi(x)| > 0 && FreeOfSeparators(fi(x)))
    && (forall f: Float :: num.parseFloat(ff(f)) == Some(f) && ',' !in ff(f) && '}' !in ff(f))
  }

  /**
   * Decoding the `{i:v,...}/d` text of a vector gives the vector back, whatever formatters
   * wrote it, as long as they read back; the vector must have non-negative dimensions and
   * indices, which is all the decoder checks.
   */
  lemma LiteralRoundTrip(num: Numerics, fi: Int32 -> seq<char>, ff: Float -> seq<char>, s: SV.SparseVector)
    requires ReadsBack(num, fi, ff)
    requires SV.Encodable(s) && s.dimensions >= 0
    requires forall k :: 0 <= k < |s.indices| ==> s.indices[k] >= 0
    ensures DecodeSparse(num, SV.Literal(fi, ff, s)) == Ok(s)
  {
    var texts := SV.EntryTexts(fi, ff, s);
    LiteralFraming(num, fi, ff, s);
    if |texts| == 0 {
      assert s.indices == [] && s.values == [];
    } else {
      SplitJoin(',', texts);
      assert texts[0] == Split(Join(',', texts), ',')[0];
      assert |texts[0]| > 0;
      EntriesRoundTrip(num, fi, ff, s);
    }
  }

  /** The literal is framed, with the joined entries before `}/` and the dimensions after. */
  lemma LiteralFraming(num: Numerics, fi: Int32 -> seq<char>, ff: Float -> seq<char>, s: SV.SparseVector)
    requires ReadsBack(num, fi, ff) && SV.Encodable(s)
    ensures Framed(SV.Literal(fi, ff, s))
    ensures EntriesText(SV.Literal(fi, ff, s)) == Join(',', SV.EntryTexts(fi, ff, s))
    ensures DimensionsText(SV.Literal(fi, ff, s)) == fi(s.dimensions)
    ensures forall i :: 0 <= i < |s.indices| ==> ',' !in SV.EntryTexts(fi, ff, s)[i]
  {
    var texts := SV.EntryTexts(fi, ff, s);
    var joined := Join(',', texts);
    var text := SV.Literal(fi, ff, s);
    var m := 1 + |joined|;
    forall i | 0 <= i < |texts| ensures '}' !in texts[i] && ',' !in texts[i] {
      assert texts[i] == fi(s.indices[i] + 1) + [':'] + ff(s.values[i]);
    }
    JoinExcludes(',', texts, '}');
    assert text[1..m] == joined;
    FindCloseAt(text, 1, m);
    assert text[m + 2..] == fi(s.dimensions);
  }

  /** Every entry text decodes back to its index and value, so all of them do. */
  lemma EntriesRoundTrip(num: Numerics, fi: Int32 -> seq<char>, ff: Float -> seq<char>, s: SV.SparseVector)
    requires ReadsBack(num, fi, ff) && SV.Encodable(s)
    requires forall k :: 0 <= k < |s.indices| ==> s.indices[k] >= 0
    ensures DecodeEntries(num, SV.EntryTexts(fi, ff, s)) == Ok((s.indices, s.values))
  {
    var texts := SV.EntryTexts(fi, ff, s);
    forall k | 0 <= k < |texts| ensures DecodeEntry(num, texts[k]) == Ok((s.indices[k], s.values[k])) {
      EntryRoundTrip(num, fi, ff, s.indices[k], s.values[k]);
    }
    DecodeEntriesMeaning(num, texts);
    var entries := DecodeEntries(num, texts);
    assert entries.value.0 == s.indices;
    assert entries.value.1 == s.values;
  }

  /** What `into_buf` writes with libpqxx's own formatters, `from_string` reads back. */
  lemma RoundTrip(num: Numerics, s: SV.SparseVector)
    requires ParseInvertsFormat(num) && DelimiterFree(num)
    requires SV.Encodable(s) && s.dimensions >= 0
    requires forall k :: 0 <= k < |s.indices| ==> s.indices[k] >= 0
    ensures DecodeSparse(num, SV.Literal(num.formatInt, num.formatFloat, s)) == Ok(s)
  {
    LiteralRoundTrip(num, num.formatInt, num.formatFloat, s);
  }

  // ---------------------------------------------------------------------------------------
  // Sparse encoding into a caller-supplied buffer
  // ---------------------------------------------------------------------------------------

  /** What `size_buffer` adds up for the first `k` entries: `:` and `,`, the index, the value. */
  function EntriesBound(num: Numerics, s: SV.SparseVector, k: nat): nat
    requires SV.Valid(s) && k <= |s.indices|
  {
    if k == 0 then 0
    else EntriesBound(num, s, k - 1) + 2 + num.intSize(s.indices[k - 1]) + num.floatSize(s.values[k - 1])
  }

  /** The value `size_buffer` returns: `{`, `}`, `/` and the terminating zero, the dimensions, the entries. */
  function BufferBound(num: Numerics, s: SV.SparseVector): nat
    requires SV.Valid(s)
  {
    4 + num.intSize(s.dimensions) + EntriesBound(num, s, |s.indices|)
  }

  /**
   * `size_buffer`: the accumulating loop. Note that it sizes `indices[i]` although
   * `into_buf` writes `indices[i] + 1`; that is sound because libpqxx's bound for an
   * `int` does not depend on the value (see `BuffersSuffice`).
   */
  method SizeBuffer(num: Numerics, s: SV.SparseVector) returns (size: nat)
    requires SV.Valid(s)
    ensures size == BufferBound(num, s)
  {
    size := 4;
    size := size + num.intSize(s.dimensions);
    var i := 0;
    while i < |s.indices|
      invariant 0 <= i <= |s.indices|
      invariant size == 4 + num.intSize(s.dimensions) + EntriesBound(num, s, i)
    {
      size := size + 2;
      size := size + num.intSize(s.indices[i]);
      size := size + num.floatSize(s.values[i]);
      i := i + 1;
    }
  }

  /** One entry's text is shorter than the bounds `size_buffer` adds for it. */
  lemma EntrySized(num: Numerics, index: Int32, value: Float)
    requires BuffersSuffice(num) && index < INT_MAX
    ensures |SV.EntryText(num.formatInt, num.formatFloat, index, value)| + 1 <= num.intSize(index) + num.floatSize(value)
  {
    assert |num.formatInt(index + 1)| < num.intSize(index);
    assert |num.formatFloat(value)| < num.floatSize(value);
  }

  /** The text of the first `k` entries fits in what `size_buffer` counts for them. */
  lemma {:induction false} EntriesFit(num: Numerics, s: SV.SparseVector, k: nat)
    requires BuffersSuffice(num) && SV.Encodable(s) && k <= |s.indices|
    ensures |Join(',', SV.EntryTexts(num.formatInt, num.formatFloat, s)[..k])| <= EntriesBound(num, s, k)
  {
    var texts := SV.EntryTexts(num.formatInt, num.formatFloat, s);
    if k > 0 {
      EntriesFit(num, s, k - 1);
      JoinPrefixStep(',', texts, k);
      EntrySized(num, s.indices[k - 1], s.values[k - 1]);
      assert texts[k - 1] == SV.EntryText(num.formatInt, num.formatFloat, s.indices[k - 1], s.values[k - 1]);
      assert EntriesBound(num, s, k) == EntriesBound(num, s, k - 1) + 2 + num.intSize(s.indices[k - 1]) + num.floatSize(s.values[k - 1]);
    }
  }

  /**
   * The text `into_buf` writes, with its terminating zero, fits in `size_buffer` bytes
   * when libpqxx's number bounds cover their texts.
   */
  lemma BufferBoundCovers(num: Numerics, s: SV.SparseVector)
    requires BuffersSuffice(num) && SV.Encodable(s)
    ensures |SV.Literal(num.formatInt, num.formatFloat, s)| + 1 <= BufferBound(num, s)
  {
    var texts := SV.EntryTexts(num.formatInt, num.formatFloat, s);
    EntriesFit(num, s, |s.indices|);
    assert texts[..|s.indices|] == texts;
    assert |num.formatInt(s.dimensions)| < num.intSize(s.dimensions);
  }

  /** `*here++ = c`. */
  method PutChar(buf: array<char>, pos: nat, c: char) returns (next: nat)
    requires pos < buf.Length
    modifies buf
    ensures next == pos + 1
    ensures buf[..next] == old(buf[..pos]) + [c]
    ensures forall k :: next <= k < buf.Length ==> buf[k] == old(buf[k])
  {
    buf[pos] := c;
    next := pos + 1;
  }

  /**
   * libpqxx's `into_buf` for one number, given the number's text: the text and a
   * terminating zero; returns the position after the zero.
   */
  method WriteNumber(buf: array<char>, pos: nat, t: seq<char>) returns (next: nat)
    requires pos + |t| < buf.Length
    modifies buf
    ensures next == pos + |t| + 1
    ensures buf[..next - 1] == old(buf[..pos]) + t
    ensures buf[next - 1] == '\0'
    ensures forall k :: next <= k < buf.Length ==> buf[k] == old(buf[k])
  {
    var i := 0;
    while i < |t|
      invariant 0 <= i <= |t|
      invariant buf[..pos + i] == old(buf[..pos]) + t[..i]
      invariant forall k :: pos + i <= k < buf.Length ==> buf[k] == old(buf[k])
    {
      buf[pos + i] := t[i];
      assert t[..i + 1] == t[..i] + [t[i]];
      i := i + 1;
    }
    assert t[..|t|] == t;
    buf[pos + |t|] := '\0';
    next := pos + |t| + 1;
  }

  /**
   * One iteration of `into_buf`'s loop: a comma unless it is the first entry, then `index + 1`,
   * `:`, the value; the value's writer leaves a zero at the returned position.
   */
  method WriteEntry(num: Numerics, buf: array<char>, pos: nat, first: bool, index: Int32, value: Float) returns (next: nat)
    requires index < INT_MAX
    requires pos + (if first then 0 else 1) + |num.formatInt(index + 1)| + 1 + |num.formatFloat(value)| < buf.Length
    modifies buf
    ensures next == pos + (if first then 0 else 1) + |num.formatInt(index + 1)| + 1 + |num.formatFloat(value)|
    ensures buf[..next] == old(buf[..pos]) + (if first then [] else [',']) + num.formatInt(index + 1) + [':'] + num.formatFloat(value)
    ensures buf[next] == '\0'
    ensures forall k :: next < k < buf.Length ==> buf[k] == old(buf[k])
  {
    next := pos;
    if !first {
      next := PutChar(buf, next, ',');
    }
    next := WriteNumber(buf, next, num.formatInt(index + 1));
    next := next - 1;
    next := PutChar(buf, next, ':');
    next := WriteNumber(buf, next, num.formatFloat(value));
    next := next - 1;
  }

  /** The end of `into_buf`: `}/`, the dimensions, the terminating zero. */
  method WriteTail(num: Numerics, buf: array<char>, pos: nat, dimensions: Int32) returns (next: nat)
    requires pos + 3 + |num.formatInt(dimensions)| <= buf.Length
    modifies buf
    ensures next == pos + 3 + |num.formatInt(dimensions)|
    ensures buf[..next] == old(buf[..pos]) + ['}', '/'] + num.formatInt(dimensions) + ['\0']
    ensures forall k :: next <= k < buf.Length ==> buf[k] == old(buf[k])
  {
    next := PutChar(buf, pos, '}');
    next := PutChar(buf, next, '/');
    next := WriteNumber(buf, next, num.formatInt(dimensions));
    next := next - 1;
    next := PutChar(buf, next, '\0');
  }

  /** `{` and the entries of `into_buf`, separated by commas, from the start of `buf`. */
  method WriteEntries(num: Numerics, buf: array<char>, s: SV.SparseVector) returns (here: nat)
    requires SV.Encodable(s)
    requires 1 + |Join(',', SV.EntryTexts(num.formatInt, num.formatFloat, s))| < buf.Length
    modifies buf
    ensures here == 1 + |Join(',', SV.EntryTexts(num.formatInt, num.formatFloat, s))|
    ensures buf[..here] == ['{'] + Join(',', SV.EntryTexts(num.formatInt, num.formatFloat, s))
    ensures forall k :: here < k < buf.Length ==> buf[k] == old(buf[k])
  {
    ghost var texts := SV.EntryTexts(num.formatInt, num.formatFloat, s);
    here := PutChar(buf, 0, '{');
    var i := 0;
    while i < |s.indices|
      invariant 0 <= i <= |s.indices|
      invariant here <= 1 + |Join(',', texts)|
      invariant buf[..here] == ['{'] + Join(',', texts[..i])
      invariant forall k :: here < k < buf.Length ==> buf[k] == old(buf[k])
    {
      SV.PrefixStep(num.formatInt, num.formatFloat, s, i);
      here := WriteEntry(num, buf, here, i == 0, s.indices[i], s.values[i]);
      i := i + 1;
    }
    assert texts[..i] == texts;
  }

  /**
   * `into_buf`: refuses more than 16000 entries before writing anything; otherwise writes
   * the `{i:v,...}/d` text and a terminating zero from the start of `buf`, and nothing
   * beyond, and returns the position after the zero, which is within `size_buffer`.
   */
  method IntoBuf(num: Numerics, buf: array<char>, s: SV.SparseVector) returns (r: Result<nat, Error>)
    requires BuffersSuffice(num) && SV.Encodable(s)
    requires buf.Length >= BufferBound(num, s)
    modifies buf
    ensures |s.indices| > MAX_NNZ ==> r == Err(TooManyEntries) && buf[..] == old(buf[..])
    ensures |s.indices| <= MAX_NNZ ==> r.Ok? && r.value <= BufferBound(num, s)
    ensures |s.indices| <= MAX_NNZ ==> buf[..r.value] == SV.Literal(num.formatInt, num.formatFloat, s) + ['\0']
    ensures |s.indices| <= MAX_NNZ ==> forall k :: r.value <= k < buf.Length ==> buf[k] == old(buf[k])
  {
    var nnz := |s.indices|;
    if nnz > MAX_NNZ {
      return Err(TooManyEntries);
    }
    BufferBoundCovers(num, s);
    var here := WriteEntries(num, buf, s);
    here := WriteTail(num, buf, here, s.dimensions);
    r := Ok(here);
  }

  /**
   * `to_buf`: `into_buf`, then a view of what it wrote without the terminating zero,
   * which is exactly the `{i:v,...}/d` text; the buffer the view points into holds that
   * text and the zero, and nothing past them changes.
   */
  method ToBuf(num: Numerics, buf: array<char>, s: SV.SparseVector) returns (r: Result<seq<char>, Error>)
    requires BuffersSuffice(num) && SV.Encodable(s)
    requires buf.Length >= BufferBound(num, s)
    modifies buf
    ensures |s.indices| > MAX_NNZ ==> r == Err(TooManyEntries) && buf[..] == old(buf[..])
    ensures |s.indices| <= MAX_NNZ ==> r == Ok(SV.Literal(num.formatInt, num.formatFloat, s))
    ensures |s.indices| <= MAX_NNZ ==> |r.value| + 1 <= buf.Length && buf[..|r.value| + 1] == r.value + ['\0']
    ensures |s.indices| <= MAX_NNZ ==> forall k :: |r.value| + 1 <= k < buf.Length ==> buf[k] == old(buf[k])
  {
    var next := IntoBuf(num, buf, s);
    if next.Err? {
      return Err(next.error);
    }
    ghost var text := SV.Literal(num.formatInt, num.formatFloat, s);
    assert buf[..next.value - 1] == buf[..next.value][..next.value - 1] == text;
    r := Ok(buf[..next.value - 1]);
  }
}
